/** The `/users` router over an in-memory `users` collection keyed by userid. The database's
    failures are inputs: `lookupFails` for a `findOne`, `checkFails` for the lookup the userid
    validator makes, `queryFails` for `find`, `writeFails` for `save` and `remove`. */
module UserRoutes {
  import opened Common
  import opened UserModel
  import opened RouteUtils

  /** The userid validator's verdict on a new document: it runs only on a userid that is set. */
  function NewUseridFree(users: map<int, User>, lookupFails: bool, doc: User): bool {
    doc.userid.None? || ValidateUseridUniqueness(FindOne(users, lookupFails, doc.userid.value))
  }

  /** The id a listing orders users by. */
  function UserKey(d: User): Option<int> {
    d.userid
  }

  class UserStore {
    var users: map<int, User>

    /** Every stored user sits under its own userid and passes the schema. */
    ghost predicate Valid()
      reads this
    {
      forall k :: k in users ==> users[k].userid == Some(k) && UserFieldErrors(users[k]) == {}
    }

    constructor ()
      ensures Valid() && users == map[]
    {
      users := map[];
    }

    /** `doc.save(...)` and its callback: a refused validation or a failed write goes to `next`
        and stores nothing; otherwise the user is stored under its userid and sent back.
        `unique` is the userid validator's verdict. */
    method Save(doc: User, unique: bool, writeFails: bool) returns (reply: Reply<User>)
      requires Valid()
      modifies this
      ensures Valid()
      ensures var errs := UserSaveErrors(doc, unique);
        && (errs != {} ==> reply == NextError(ValidationError(errs)) && users == old(users))
        && (errs == {} && writeFails ==> reply == NextError(DatabaseError) && users == old(users))
        && (errs == {} && !writeFails ==>
              reply == Send(doc) && users == old(users)[doc.userid.value := doc])
    {
      var errs := UserSaveErrors(doc, unique);
      if errs != {} {
        return NextError(ValidationError(errs));
      }
      if writeFails {
        return NextError(DatabaseError);
      }
      users := users[doc.userid.value := doc];
      reply := Send(doc);
    }

    /** `POST /users`: behind `requireJson`; builds the document from the body and saves it. A
        refused save reaches `next` and leaves the collection as it was; a saved user had a
        userid nobody held. */
    method Post(isJson: bool, body: UserBody, oid: nat, now: int, lookupFails: bool, writeFails: bool)
      returns (reply: Reply<User>)
      requires Valid()
      modifies this
      ensures Valid()
      ensures !isJson ==> reply == NextError(HttpError(415, JsonOnly)) && users == old(users)
      ensures isJson ==>
        var doc := NewUser(body, oid, now);
        var errs := UserSaveErrors(doc, NewUseridFree(old(users), lookupFails, doc));
        && (errs != {} ==> reply == NextError(ValidationError(errs)) && users == old(users))
        && (errs == {} && writeFails ==> reply == NextError(DatabaseError) && users == old(users))
        && (errs == {} && !writeFails ==>
              reply == Send(doc) && users == old(users)[doc.userid.value := doc])
      ensures reply.Send? ==> reply.doc.userid.Some? && reply.doc.userid.value !in old(users)
    {
      var gate := RequireJson(isJson);
      if gate.Fail? {
        return NextError(gate.err);
      }
      var doc := NewUser(body, oid, now);
      var unique := true;
      if doc.userid.Some? {
        unique := ValidateUseridUniqueness(FindOne(users, lookupFails, doc.userid.value));
      }
      reply := Save(doc, unique, writeFails);
    }

    /** `GET /users`: every user, ascending by userid. */
    method List(queryFails: bool) returns (reply: Reply<seq<User>>)
      requires Valid()
      ensures queryFails ==> reply == NextError(DatabaseError)
      ensures !queryFails ==> reply.Send? && ListsAllByKey(users, UserKey, reply.doc)
    {
      if queryFails {
        return NextError(DatabaseError);
      }
      var docs := SortedValues(users, UserKey);
      reply := Send(docs);
    }

    /** `PATCH /users/:userid`: behind `requireJson` and the loader; overwrites the fields the
        body has and saves. The save checks userid uniqueness as the validator's doc comment
        describes (the user itself does not count), so only a failing lookup, not the user's own
        userid, can refuse it there. */
    method Patch(isJson: bool, id: int, body: UserBody, lookupFails: bool, checkFails: bool, writeFails: bool)
      returns (reply: Reply<User>)
      requires Valid()
      modifies this
      ensures Valid()
      ensures !isJson ==> reply == NextError(HttpError(415, JsonOnly)) && users == old(users)
      ensures isJson && LoadById(old(users), lookupFails, id, "user").Stop? ==>
        reply == LoadById(old(users), lookupFails, id, "user").reply && users == old(users)
      ensures isJson && LoadById(old(users), lookupFails, id, "user").Loaded? ==>
        var doc := ApplyUserPatch(old(users)[id], body);
        var errs := UserSaveErrors(doc, !checkFails);
        && (errs != {} ==> reply == NextError(ValidationError(errs)) && users == old(users))
        && (errs == {} && writeFails ==> reply == NextError(DatabaseError) && users == old(users))
        && (errs == {} && !writeFails ==> reply == Send(doc) && users == old(users)[id := doc])
    {
      var gate := RequireJson(isJson);
      if gate.Fail? {
        return NextError(gate.err);
      }
      var loaded := LoadById(users, lookupFails, id, "user");
      if loaded.Stop? {
        return loaded.reply;
      }
      var doc := loaded.doc;
      if !body.userName.Undefined? {
        doc := doc.(userName := body.userName.ToOption());
      }
      if !body.email.Undefined? {
        doc := doc.(email := body.email.ToOption());
      }
      if !body.password.Undefined? {
        doc := doc.(password := body.password.ToOption());
      }
      assert doc == ApplyUserPatch(users[id], body);
      assert doc.userid == Some(id);
      var unique := UseridUniqueOrSelf(doc.oid, FindOne(users, checkFails, id));
      UseridUniqueOrSelfIff(users, checkFails, id, doc.oid);
      assert unique == !checkFails;
      reply := Save(doc, unique, writeFails);
    }

    /** `DELETE /users/:userid`: behind the loader; removes the user and replies 204, after which
        the loader answers 404 for that userid. */
    method Delete(id: int, lookupFails: bool, writeFails: bool) returns (reply: Reply<User>)
      requires Valid()
      modifies this
      ensures Valid()
      ensures LoadById(old(users), lookupFails, id, "user").Stop? ==>
        reply == LoadById(old(users), lookupFails, id, "user").reply && users == old(users)
      ensures LoadById(old(users), lookupFails, id, "user").Loaded? && writeFails ==>
        reply == NextError(DatabaseError) && users == old(users)
      ensures LoadById(old(users), lookupFails, id, "user").Loaded? && !writeFails ==>
        reply == SendStatus(204) && users == old(users) - {id}
      ensures reply == SendStatus(204) ==>
        LoadById(users, false, id, "user") == Stop(NotFoundReply("user", id))
    {
      var loaded := LoadById(users, lookupFails, id, "user");
      if loaded.Stop? {
        return loaded.reply;
      }
      if writeFails {
        return NextError(DatabaseError);
      }
      users := users - {id};
      reply := SendStatus(204);
    }
  }
}
