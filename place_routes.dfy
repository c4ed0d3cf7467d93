/** The `/places` router over an in-memory `places` collection keyed by placeid. The database's
    failures are inputs: `lookupFails` for a `findOne`, `checkFails` for the lookup the placeid
    validator makes, `queryFails` for `find`, `writeFails` for `save` and `remove`. */
module PlaceRoutes {
  import opened Common
  import opened PlaceModel
  import opened RouteUtils

  /** The placeid validator's verdict on a new document: it runs only on a placeid that is set. */
  function NewPlaceidFree(places: map<int, Place>, lookupFails: bool, doc: Place): bool {
    doc.placeid.None? || ValidatePlaceidUniqueness(FindOne(places, lookupFails, doc.placeid.value))
  }

  /** The id a listing orders places by. */
  function PlaceKey(d: Place): Option<int> {
    d.placeid
  }

  class PlaceStore {
    var places: map<int, Place>

    /** Every stored place sits under its own placeid and passes the schema. */
    ghost predicate Valid()
      reads this
    {
      forall k :: k in places ==> places[k].placeid == Some(k) && PlaceFieldErrors(places[k]) == {}
    }

    constructor ()
      ensures Valid() && places == map[]
    {
      places := map[];
    }

    /** `doc.save(...)` and its callback: a refused validation or a failed write goes to `next`
        and stores nothing; otherwise the place is stored under its placeid and sent back.
        `unique` is the placeid validator's verdict. */
    method Save(doc: Place, unique: bool, writeFails: bool) returns (reply: Reply<Place>)
      requires Valid()
      modifies this
      ensures Valid()
      ensures var errs := PlaceSaveErrors(doc, unique);
        && (errs != {} ==> reply == NextError(ValidationError(errs)) && places == old(places))
        && (errs == {} && writeFails ==> reply == NextError(DatabaseError) && places == old(places))
        && (errs == {} && !writeFails ==>
              reply == Send(doc) && places == old(places)[doc.placeid.value := doc])
    {
      var errs := PlaceSaveErrors(doc, unique);
      if errs != {} {
        return NextError(ValidationError(errs));
      }
      if writeFails {
        return NextError(DatabaseError);
      }
      places := places[doc.placeid.value := doc];
      reply := Send(doc);
    }

    /** `POST /places`: behind `requireJson`; builds the document from the body, both dates
        defaulting to `now`, and saves it. A saved place had a placeid nobody held. */
    method Post(isJson: bool, body: PlaceBody, oid: nat, now: int, lookupFails: bool, writeFails: bool)
      returns (reply: Reply<Place>)
      requires Valid()
      modifies this
      ensures Valid()
      ensures !isJson ==> reply == NextError(HttpError(415, JsonOnly)) && places == old(places)
      ensures isJson ==>
        var doc := NewPlace(body, oid, now);
        var errs := PlaceSaveErrors(doc, NewPlaceidFree(old(places), lookupFails, doc));
        && (errs != {} ==> reply == NextError(ValidationError(errs)) && places == old(places))
        && (errs == {} && writeFails ==> reply == NextError(DatabaseError) && places == old(places))
        && (errs == {} && !writeFails ==>
              reply == Send(doc) && places == old(places)[doc.placeid.value := doc])
      ensures reply.Send? ==> reply.doc.placeid.Some? && reply.doc.placeid.value !in old(places)
    {
      var gate := RequireJson(isJson);
      if gate.Fail? {
        return NextError(gate.err);
      }
      var doc := NewPlace(body, oid, now);
      var unique := true;
      if doc.placeid.Some? {
        unique := ValidatePlaceidUniqueness(FindOne(places, lookupFails, doc.placeid.value));
      }
      reply := Save(doc, unique, writeFails);
    }

    /** `GET /places`: every place, ascending by placeid. */
    method List(queryFails: bool) returns (reply: Reply<seq<Place>>)
      requires Valid()
      ensures queryFails ==> reply == NextError(DatabaseError)
      ensures !queryFails ==> reply.Send? && ListsAllByKey(places, PlaceKey, reply.doc)
    {
      if queryFails {
        return NextError(DatabaseError);
      }
      var docs := SortedValues(places, PlaceKey);
      reply := Send(docs);
    }

    /** `PATCH /places/:placeid`: behind `requireJson` and the loader; overwrites the name and the
        description the body has, stamps the modification date with `now` and saves. The save
        checks placeid uniqueness with the place itself exempt, so only a failing lookup, not
        the place's own placeid, can refuse it there. */
    method Patch(isJson: bool, id: int, body: PlaceBody, now: int, lookupFails: bool, checkFails: bool,
                 writeFails: bool)
      returns (reply: Reply<Place>)
      requires Valid()
      modifies this
      ensures Valid()
      ensures !isJson ==> reply == NextError(HttpError(415, JsonOnly)) && places == old(places)
      ensures isJson && LoadById(old(places), lookupFails, id, "place").Stop? ==>
        reply == LoadById(old(places), lookupFails, id, "place").reply && places == old(places)
      ensures isJson && LoadById(old(places), lookupFails, id, "place").Loaded? ==>
        var doc := ApplyPlacePatch(old(places)[id], body, now);
        var errs := PlaceSaveErrors(doc, !checkFails);
        && (errs != {} ==> reply == NextError(ValidationError(errs)) && places == old(places))
        && (errs == {} && writeFails ==> reply == NextError(DatabaseError) && places == old(places))
        && (errs == {} && !writeFails ==> reply == Send(doc) && places == old(places)[id := doc])
    {
      var gate := RequireJson(isJson);
      if gate.Fail? {
        return NextError(gate.err);
      }
      var loaded := LoadById(places, lookupFails, id, "place");
      if loaded.Stop? {
        return loaded.reply;
      }
      var doc := loaded.doc;
      if !body.placeName.Undefined? {
        doc := doc.(placeName := body.placeName.ToOption());
      }
      if !body.placeDescription.Undefined? {
        doc := doc.(placeDescription := body.placeDescription.ToOption());
      }
      doc := doc.(placeLastModDate := Some(now));
      assert doc == ApplyPlacePatch(places[id], body, now);
      assert doc.placeid == Some(id);
      var unique := PlaceidUniqueOrSelf(doc.oid, FindOne(places, checkFails, id));
      PlaceidUniqueOrSelfIff(places, checkFails, id, doc.oid);
      assert unique == !checkFails;
      reply := Save(doc, unique, writeFails);
    }

    /** `DELETE /places/:placeid`: behind the loader; removes the place and replies 204, after
        which the loader answers 404 for that placeid. */
    method Delete(id: int, lookupFails: bool, writeFails: bool) returns (reply: Reply<Place>)
      requires Valid()
      modifies this
      ensures Valid()
      ensures LoadById(old(places), lookupFails, id, "place").Stop? ==>
        reply == LoadById(old(places), lookupFails, id, "place").reply && places == old(places)
      ensures LoadById(old(places), lookupFails, id, "place").Loaded? && writeFails ==>
        reply == NextError(DatabaseError) && places == old(places)
      ensures LoadById(old(places), lookupFails, id, "place").Loaded? && !writeFails ==>
        reply == SendStatus(204) && places == old(places) - {id}
      ensures reply == SendStatus(204) ==>
        LoadById(places, false, id, "place") == Stop(NotFoundReply("place", id))
    {
      var loaded := LoadById(places, lookupFails, id, "place");
      if loaded.Stop? {
        return loaded.reply;
      }
      if writeFails {
        return NextError(DatabaseError);
      }
      places := places - {id};
      reply := SendStatus(204);
    }
  }
}
