/** The `User` model: its schema, the document built from a request body, the validation a save
    runs, and the userid uniqueness validator. */
module UserModel {
  import opened Common
  import opened Schema
  import Email

  /** A user document. `oid` is the document's own `_id`; `None` is a path that is `null` or
      `undefined`; dates are milliseconds since the epoch. */
  datatype User = User(
    oid: nat,
    userid: Option<int>,
    userName: Option<string>,
    email: Option<string>,
    password: Option<string>,
    registrationDate: Option<int>)

  /** The fields of a parsed request body that the schema knows; other fields are dropped. */
  datatype UserBody = UserBody(
    userid: Json<int>,
    userName: Json<string>,
    email: Json<string>,
    password: Json<string>,
    registrationDate: Json<int>)

  /** `userName: { type: String, required: ..., minlength: 3, maxlength: 30 }` */
  const UserNameRule := StringRule(true, Some(3), Some(30), None)

  /** `email: { type: String, required: ..., validate: [validateEmail, ...] }` */
  const EmailRule := StringRule(true, None, None, Some(Email.ValidateEmail))

  /** `password: { type: String, required: true, minlength: 8, maxlength: 20 }` */
  const PasswordRule := StringRule(true, Some(8), Some(20), None)

  /** `new User(req.body)`: the body's fields, with `registrationDate` defaulting to now. */
  function NewUser(body: UserBody, oid: nat, now: int): User {
    User(oid, body.userid.ToOption(), body.userName.ToOption(), body.email.ToOption(),
         body.password.ToOption(), DefaultNow(body.registrationDate, now))
  }

  /** The document keeps every field the body gives (a `null` as missing); the registration
      date is the creation time when the body leaves it out, the body's date when it gives one,
      and missing when the body gives `null`. */
  lemma NewUserFields(body: UserBody, oid: nat, now: int)
    ensures var u := NewUser(body, oid, now);
      && u.oid == oid
      && u.userid == body.userid.ToOption() && u.userName == body.userName.ToOption()
      && u.email == body.email.ToOption() && u.password == body.password.ToOption()
      && (body.registrationDate.Undefined? ==> u.registrationDate == Some(now))
      && (body.registrationDate.Value? ==> u.registrationDate == Some(body.registrationDate.value))
      && (body.registrationDate.Null? ==> u.registrationDate.None?)
  {
  }

  /** The email path refuses a missing address and one `validateEmail` refuses; the empty
      string is refused both as missing (`required`) and by `validateEmail`. */
  lemma EmailRuleRefuses(v: Option<string>)
    ensures StringPathFails(v, EmailRule) <==> !(v.Some? && Email.ValidateEmail(v.value))
  {
    if v.Some? && |v.value| == 0 {
      assert Email.ToLower(v.value) == [];
    }
  }

  /** The paths of `u` that the schema's synchronous validators refuse. */
  function UserFieldErrors(u: User): (errs: set<string>)
    ensures errs <= {"userid", "userName", "email", "password"}
    ensures "userid" in errs <==> u.userid.None?
    ensures "userName" in errs <==> !(u.userName.Some? && 3 <= |u.userName.value| <= 30)
    ensures "email" in errs <==> !(u.email.Some? && Email.ValidateEmail(u.email.value))
    ensures "password" in errs <==> !(u.password.Some? && 8 <= |u.password.value| <= 20)
  {
    EmailRuleRefuses(u.email);
    (if NumberPathFails(u.userid, true) then {"userid"} else {})
    + (if StringPathFails(u.userName, UserNameRule) then {"userName"} else {})
    + (if StringPathFails(u.email, EmailRule) then {"email"} else {})
    + (if StringPathFails(u.password, PasswordRule) then {"password"} else {})
  }

  /** `validateUseridUniqueness` as written: the callback gets `!err && !existingUser`, so the
      check passes only when the lookup succeeds and finds nobody, whoever is being validated. */
  predicate ValidateUseridUniqueness(found: Lookup<User>) {
    found.NotFound?
  }

  /** On a collection keyed by userid, the check passes iff the lookup does not fail and the
      userid is free; a lookup error makes it refuse. */
  lemma UseridUniquenessIff(users: map<int, User>, fails: bool, id: int)
    ensures ValidateUseridUniqueness(FindOne(users, fails, id)) <==> !fails && id !in users
  {
  }

  /** The paths a save of `u` refuses, given the outcome of the uniqueness validator. That
      validator only runs on a userid that is set; a missing userid already fails `required`. */
  function UserSaveErrors(u: User, unique: bool): (errs: set<string>)
    ensures errs == {} <==> UserFieldErrors(u) == {} && unique
    ensures "userid" in errs <==> u.userid.None? || !unique
  {
    UserFieldErrors(u) + (if u.userid.Some? && !unique then {"userid"} else {})
  }

  /** The finding, as written: any document whose userid is stored fails the validator, the
      stored user itself included, whether or not the lookup fails. */
  lemma StoredUserFailsUseridCheck(users: map<int, User>, fails: bool, u: User)
    requires u.userid.Some? && u.userid.value in users
    ensures !ValidateUseridUniqueness(FindOne(users, fails, u.userid.value))
    ensures "userid" in UserSaveErrors(u, ValidateUseridUniqueness(FindOne(users, fails, u.userid.value)))
  {
  }

  /** The check the doc comment describes: pass when nobody holds the userid, or when the one
      who does is the document being validated (the same `_id`). */
  predicate UseridUniqueOrSelf(self: nat, found: Lookup<User>) {
    found.NotFound? || (found.Found? && found.doc.oid == self)
  }

  /** The corrected check accepts a stored user saved again, and refuses another document that
      takes a userid already in use. */
  lemma UseridUniqueOrSelfIff(users: map<int, User>, fails: bool, id: int, self: nat)
    ensures UseridUniqueOrSelf(self, FindOne(users, fails, id)) <==>
      !fails && (id !in users || users[id].oid == self)
  {
  }

  /** For a new document, whose `_id` no stored user has, the corrected check decides exactly as
      the one written. */
  lemma UseridChecksAgreeOnNew(users: map<int, User>, fails: bool, id: int, self: nat)
    requires forall k :: k in users ==> users[k].oid != self
    ensures UseridUniqueOrSelf(self, FindOne(users, fails, id))
        == ValidateUseridUniqueness(FindOne(users, fails, id))
  {
    UseridUniqueOrSelfIff(users, fails, id, self);
  }

  /** PATCH: `userName`, `email` and `password` are overwritten when the body has them (a `null`
      included); nothing else changes. */
  function ApplyUserPatch(u: User, body: UserBody): User {
    var u := if body.userName.Undefined? then u else u.(userName := body.userName.ToOption());
    var u := if body.email.Undefined? then u else u.(email := body.email.ToOption());
    if body.password.Undefined? then u else u.(password := body.password.ToOption())
  }

  /** The finding at the route, as written: Mongoose validates every loaded path on save, so the
      save after any PATCH of a stored user, whatever the body, is refused with `User <id>
      already exists`. */
  lemma PatchedUserFailsUseridCheck(users: map<int, User>, checkFails: bool, id: int, body: UserBody)
    requires id in users && users[id].userid == Some(id)
    ensures var doc := ApplyUserPatch(users[id], body);
      "userid" in UserSaveErrors(doc, ValidateUseridUniqueness(FindOne(users, checkFails, id)))
  {
    PatchFields(users[id], body);
    StoredUserFailsUseridCheck(users, checkFails, ApplyUserPatch(users[id], body));
  }

  /** Every field the patch writes takes the body's value, every other field keeps its own: the
      userid, the `_id` and the registration date never change. */
  lemma PatchFields(u: User, body: UserBody)
    ensures var v := ApplyUserPatch(u, body);
      && v.oid == u.oid && v.userid == u.userid && v.registrationDate == u.registrationDate
      && v.userName == (if body.userName.Undefined? then u.userName else body.userName.ToOption())
      && v.email == (if body.email.Undefined? then u.email else body.email.ToOption())
      && v.password == (if body.password.Undefined? then u.password else body.password.ToOption())
  {
  }

  /** Sending the same patch twice changes nothing the first one did not. */
  lemma PatchIdempotent(u: User, body: UserBody)
    ensures ApplyUserPatch(ApplyUserPatch(u, body), body) == ApplyUserPatch(u, body)
  {
  }

  /** A body without any of the three fields leaves the document as it was. */
  lemma EmptyPatchIdentity(u: User, body: UserBody)
    requires body.userName.Undefined? && body.email.Undefined? && body.password.Undefined?
    ensures ApplyUserPatch(u, body) == u
  {
  }
}
