/** The `Place` model: its schema, the document built from a request body, the validation a save
    runs, and the placeid uniqueness validator. */
module PlaceModel {
  import opened Common
  import opened Schema

  /** `placePicture: { data: Buffer, contentType: String }` */
  datatype Picture = Picture(data: seq<bv8>, contentType: string)

  /** A place document. `placeGeolocalisation` has no type in the schema (any JSON value); it is
      carried as the text of that value. */
  datatype Place = Place(
    oid: nat,
    placeid: Option<int>,
    placeName: Option<string>,
    placeDescription: Option<string>,
    placeGeolocalisation: Option<string>,
    placePicture: Option<Picture>,
    placeCreationDate: Option<int>,
    placeLastModDate: Option<int>)

  datatype PlaceBody = PlaceBody(
    placeid: Json<int>,
    placeName: Json<string>,
    placeDescription: Json<string>,
    placeGeolocalisation: Json<string>,
    placePicture: Json<Picture>,
    placeCreationDate: Json<int>,
    placeLastModDate: Json<int>)

  /** `new Place(req.body)`: the body's fields, both dates defaulting to now. */
  function NewPlace(body: PlaceBody, oid: nat, now: int): Place {
    Place(oid, body.placeid.ToOption(), body.placeName.ToOption(),
          body.placeDescription.ToOption(), body.placeGeolocalisation.ToOption(),
          body.placePicture.ToOption(), DefaultNow(body.placeCreationDate, now),
          DefaultNow(body.placeLastModDate, now))
  }

  /** Each date is the creation time when the body leaves it out, and the body's date when it
      gives one. */
  lemma NewPlaceDates(body: PlaceBody, oid: nat, now: int)
    ensures var p := NewPlace(body, oid, now);
      && (body.placeCreationDate.Undefined? ==> p.placeCreationDate == Some(now))
      && (body.placeLastModDate.Undefined? ==> p.placeLastModDate == Some(now))
      && (body.placeCreationDate.Value? ==> p.placeCreationDate == Some(body.placeCreationDate.value))
      && (body.placeLastModDate.Value? ==> p.placeLastModDate == Some(body.placeLastModDate.value))
  {
  }

  /** The paths of `p` the schema refuses: `placeid` and `placeName` are required, the
      description and every other path accept anything. */
  function PlaceFieldErrors(p: Place): (errs: set<string>)
    ensures errs <= {"placeid", "placeName"}
    ensures "placeid" in errs <==> p.placeid.None?
    ensures "placeName" in errs <==> !(p.placeName.Some? && |p.placeName.value| >= 1)
  {
    RequiredStringRefuses(p.placeName);
    PlainStringAccepts(p.placeDescription);
    (if NumberPathFails(p.placeid, true) then {"placeid"} else {})
    + (if StringPathFails(p.placeName, RequiredString) then {"placeName"} else {})
    + (if StringPathFails(p.placeDescription, PlainString) then {"placeDescription"} else {})
  }

  /** `validatePlaceidUniqueness` as written: `!err && !existingPlace`. */
  predicate ValidatePlaceidUniqueness(found: Lookup<Place>) {
    found.NotFound?
  }

  /** The check passes iff the lookup does not fail and the placeid is free. */
  lemma PlaceidUniquenessIff(places: map<int, Place>, fails: bool, id: int)
    ensures ValidatePlaceidUniqueness(FindOne(places, fails, id)) <==> !fails && id !in places
  {
  }

  /** The paths a save of `p` refuses, given the outcome of the uniqueness validator. */
  function PlaceSaveErrors(p: Place, unique: bool): (errs: set<string>)
    ensures errs == {} <==> PlaceFieldErrors(p) == {} && unique
    ensures "placeid" in errs <==> p.placeid.None? || !unique
  {
    PlaceFieldErrors(p) + (if p.placeid.Some? && !unique then {"placeid"} else {})
  }

  /** The finding, as written: any document whose placeid is stored fails the validator, the
      stored place itself included, whether or not the lookup fails. */
  lemma StoredPlaceFailsPlaceidCheck(places: map<int, Place>, fails: bool, p: Place)
    requires p.placeid.Some? && p.placeid.value in places
    ensures !ValidatePlaceidUniqueness(FindOne(places, fails, p.placeid.value))
    ensures "placeid" in PlaceSaveErrors(p, ValidatePlaceidUniqueness(FindOne(places, fails, p.placeid.value)))
  {
  }

  /** The check the doc comment describes: nobody holds the placeid, or the one who does is the
      document being validated. */
  predicate PlaceidUniqueOrSelf(self: nat, found: Lookup<Place>) {
    found.NotFound? || (found.Found? && found.doc.oid == self)
  }

  lemma PlaceidUniqueOrSelfIff(places: map<int, Place>, fails: bool, id: int, self: nat)
    ensures PlaceidUniqueOrSelf(self, FindOne(places, fails, id)) <==>
      !fails && (id !in places || places[id].oid == self)
  {
  }

  /** For a new document the corrected check decides exactly as the one written. */
  lemma PlaceidChecksAgreeOnNew(places: map<int, Place>, fails: bool, id: int, self: nat)
    requires forall k :: k in places ==> places[k].oid != self
    ensures PlaceidUniqueOrSelf(self, FindOne(places, fails, id))
        == ValidatePlaceidUniqueness(FindOne(places, fails, id))
  {
    PlaceidUniqueOrSelfIff(places, fails, id, self);
  }

  /** PATCH: `placeName` and `placeDescription` are overwritten when the body has them, and the
      modification date is set to now in every case. */
  function ApplyPlacePatch(p: Place, body: PlaceBody, now: int): Place {
    var p := if body.placeName.Undefined? then p else p.(placeName := body.placeName.ToOption());
    var p := if body.placeDescription.Undefined? then p
             else p.(placeDescription := body.placeDescription.ToOption());
    p.(placeLastModDate := Some(now))
  }

  /** The finding at the route, as written: the save after any PATCH of a stored place, whatever
      the body, is refused with `Place <id> already exists`. */
  lemma PatchedPlaceFailsPlaceidCheck(places: map<int, Place>, checkFails: bool, id: int, body: PlaceBody,
                                      now: int)
    requires id in places && places[id].placeid == Some(id)
    ensures var doc := ApplyPlacePatch(places[id], body, now);
      "placeid" in PlaceSaveErrors(doc, ValidatePlaceidUniqueness(FindOne(places, checkFails, id)))
  {
    PlacePatchFields(places[id], body, now);
    StoredPlaceFailsPlaceidCheck(places, checkFails, ApplyPlacePatch(places[id], body, now));
  }

  /** The patch writes the two fields the body gives and the modification date, and nothing
      else: the placeid, the creation date, the picture and the location stay. */
  lemma PlacePatchFields(p: Place, body: PlaceBody, now: int)
    ensures var q := ApplyPlacePatch(p, body, now);
      && q.oid == p.oid && q.placeid == p.placeid && q.placeCreationDate == p.placeCreationDate
      && q.placePicture == p.placePicture && q.placeGeolocalisation == p.placeGeolocalisation
      && q.placeName == (if body.placeName.Undefined? then p.placeName else body.placeName.ToOption())
      && q.placeDescription ==
           (if body.placeDescription.Undefined? then p.placeDescription
            else body.placeDescription.ToOption())
      && q.placeLastModDate == Some(now)
  {
  }

  /** Even a body without either field touches the modification date, and only it. */
  lemma EmptyPlacePatchStamps(p: Place, body: PlaceBody, now: int)
    requires body.placeName.Undefined? && body.placeDescription.Undefined?
    ensures ApplyPlacePatch(p, body, now) == p.(placeLastModDate := Some(now))
  {
  }

  /** The same patch at the same time twice is the patch once. */
  lemma PlacePatchIdempotent(p: Place, body: PlaceBody, now: int)
    ensures ApplyPlacePatch(ApplyPlacePatch(p, body, now), body, now) == ApplyPlacePatch(p, body, now)
  {
  }
}
