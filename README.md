# TravelLog REST API — a Dafny model of its core

TravelLog is an Express/Mongoose web service for users, places and trips. This project models
the part of it that decides things:

- **The `validateEmail` check** of the user schema. It lower-cases an address and matches it
  against a hand-written regular expression. Here it is a string recogniser with one predicate
  per part of the pattern, plus an equivalent definition without split points (module `Email`).
- **The schemas of `User`, `Place` and `Trip`.** These are the required fields, length bounds
  and `Date.now` defaults, and the id-uniqueness validators checked against a collection
  (modules `Schema`, `UserModel`, `PlaceModel`, `TripModel`).
- **The two middlewares.** `requireJson` is the 415 gate. `authenticate` handles the bearer
  header: 401 for a missing header, a malformed header or a rejected token. On success it sets
  `currentUserid` and calls `next` (module `RouteUtils`, with a `Request` class for the field it
  sets).
- **The `/users` and `/places` routers** (modules `UserRoutes`, `PlaceRoutes`). Each is a class
  that holds its collection as a map from numeric id to document. Its methods are POST, GET
  (ascending by id), PATCH and DELETE, and the loader middleware with its 404 reply.

The environment the source runs in becomes parameters:

- the database's error callbacks are booleans: `lookupFails`, `checkFails`, `queryFails` and
  `writeFails`;
- `Date.now()` is `now`;
- a new document's `_id` is `oid`;
- the JWT library's `verify` is a function from token to payload or error;
- `req.is('application/json')` is `isJson`.

A request body's field is `Json<T>` (absent, `null` or a value), because the source tells
`undefined` apart from everything else. A stored path is `Option<T>`.

Each store keeps an invariant, `Valid()`: every document sits under its own id and passes its
schema. Every method preserves it. Each method states the whole new collection and the reply for
every branch: gate refused, database error, not found, validation refused, write failed, and
success. A validation failure is the set of failing paths, as Mongoose's `ValidationError` keys
its errors by path.

Signup, login, password hashing and pagination appear in none of the shown files, and
`routes/trips.js` has no PATCH handler, so none of them is modelled.

## Model

| member | source | states |
|---|---|---|
| Common.SortedKeys | routes/users.js:32 | the ids of a collection in ascending order: each id exactly once, nothing else |
| Common.SortedValues | routes/users.js:32 | on a collection whose documents sit under their own ids, the listing has as many entries as the collection, each entry is the document stored under its id, every stored document appears, and ids strictly ascend (`ListsAllByKey`); the places listing is the same function |
| Common.FindOne | routes/users.js:90-97 | the lookup's callback arguments; its cases are stated by `Common.LoadById` and by each `...UniquenessIff` lemma |
| Common.LoadById | routes/users.js:86-102 | the loader hands on the stored document iff the lookup succeeds and the id is stored; a database error goes to `next`; a missing id is the 404 reply (the places loader is the same function with `"place"`) |
| Common.NotFoundReply | routes/users.js:107-109 | the 404 reply `No user found with ID <id>` (`place` for the places router); `Common.NotFoundNamesId` states what it promises |
| Common.NotFoundNamesId | routes/users.js:107-109 | `No user found with ID <id>` names the id: two different ids never give the same 404 reply |
| Email.ValidateEmail | models/user.js:50-53 | the pattern tested on the lower-cased address; its meaning is stated by `Email.ValidateSplit`, `Email.ValidateEmailIgnoresCase` and the accepted and refused examples below |
| Email.MatchesEmailPattern | models/user.js:51 | the anchored pattern, split at some `@`; `Email.EmailIff` states it equal to the split at the last `@` |
| Email.DotAtomIff | models/user.js:51 | `atom("."atom)*` holds iff the text is atom characters and dots, with no leading, trailing or doubled dot |
| Email.HostNameIff | models/user.js:51 | `(label".")+ top` holds iff everything up to the last dot is dot-terminated labels and the rest is two or more letters |
| Email.LocalIff | models/user.js:51 | the local-part alternative is a dotted atom or a quoted `"…"` with at least one inner character that is not a line terminator |
| Email.DomainIff | models/user.js:51 | the domain alternative is `[d.d.d.d]` (1 to 3 digits each, no range check) or a host name |
| Email.EmailIff | models/user.js:51 | the anchored pattern matches (some `@` splits it) iff the text after the LAST `@` is a domain and the text before it a local part |
| Email.DomainHasNoAt | models/user.js:51 | no domain contains an `@` |
| Email.DomainAfterLastAt | models/user.js:51 | an `@` followed by a domain is the last `@` of the address |
| Email.ValidateSplit | models/user.js:50-53 | an address whose domain side has no `@` is valid iff the lower-cased local side is a local part and the lower-cased domain side a domain |
| Email.ValidateEmailIgnoresCase | models/user.js:52 | two addresses that lower-case alike are both accepted or both refused |
| Email.HostWithoutDotRejected | models/user.js:51 | a domain without a dot is refused |
| Email.LocalhostRejected | models/user.js:51 | `x@localhost` is refused |
| Email.DigitInTopLabelRejected | models/user.js:51 | a top-level label containing a digit is refused |
| Email.DigitTopLabelExample | models/user.js:51 | `a@b.c0m` is refused |
| Email.BadDotsRejected | models/user.js:51 | an unquoted local part with a leading, trailing or doubled dot is refused |
| Email.QuotedLocalAccepted | models/user.js:51 | a quoted local part with any non-empty content free of line terminators is accepted, whatever it contains (an `@` included) |
| Email.AddressLiteralAccepted | models/user.js:51 | an atom `@[a.b.c.d]` with 1 to 3 digits per group is accepted, even beyond 255 |
| Email.AddressLiteralChars | models/user.js:51 | an address literal holds only brackets, dots and digits |
| Schema.StringPathFails | models/user.js:21-37 | when Mongoose refuses a `String` path; `Schema.PlainStringAccepts`, `Schema.RequiredStringRefuses` and `UserModel.UserFieldErrors` state its cases |
| Schema.DefaultNow | models/user.js:38-41 | `default: Date.now`; `UserModel.NewUserFields`, `PlaceModel.NewPlaceDates` and `TripModel.NewTripDates` state its three cases |
| Schema.PlainStringAccepts | models/place.js:25-27 | a `String` path with no validators accepts every value, `null` included |
| Schema.RequiredStringRefuses | models/place.js:21-24 | a required `String` path refuses exactly a missing value and the empty string |
| UserModel.NewUser | routes/users.js:17 | `new User(req.body)`; `UserModel.NewUserFields` states it |
| UserModel.NewUserFields | routes/users.js:17 | `new User(req.body)` keeps the body's userid, userName, email and password (a `null` as missing); `registrationDate` is now when the body leaves it out, the body's date when it gives one, and missing when the body gives `null` |
| UserModel.EmailRuleRefuses | models/user.js:27-31 | the email path refuses a missing address and every address `validateEmail` refuses, and only those |
| UserModel.UserFieldErrors | models/user.js:9-42 | the failing paths: userid iff missing; userName iff missing or outside 3..30 characters; email iff missing or refused by `validateEmail`; password iff missing or outside 8..20 characters |
| UserModel.ValidateUseridUniqueness | models/user.js:59-64 | the validator as written; `UserModel.UseridUniquenessIff` states when it passes |
| UserModel.UseridUniquenessIff | models/user.js:59-64 | the userid validator passes iff the lookup raises no error and finds no user with that userid |
| UserModel.UserSaveErrors | models/user.js:10-20 | a save is refused iff a field fails or the uniqueness validator says no; `userid` is among the errors iff it is missing or taken |
| UserModel.StoredUserFailsUseridCheck | models/user.js:55-64 | as written, every document whose userid is stored fails the uniqueness validator, the stored user itself included, and the save lists `userid` among its errors |
| UserModel.PatchedUserFailsUseridCheck | routes/users.js:43-56 | as written, the save after any PATCH of a stored user, whatever the body, lists `userid` among its errors |
| UserModel.UseridUniqueOrSelf | models/user.js:55-58 | the check the doc comment describes; `UserModel.UseridUniqueOrSelfIff` states it |
| UserModel.UseridUniqueOrSelfIff | models/user.js:55-58 | the check the doc comment describes passes iff the lookup succeeds and the userid is free or held by the document itself |
| UserModel.UseridChecksAgreeOnNew | models/user.js:59-64 | for a document no stored user is, the corrected check and the written one agree |
| UserModel.ApplyUserPatch | routes/users.js:46-54 | the field assignments of PATCH; `UserModel.PatchFields` states them |
| UserModel.PatchFields | routes/users.js:46-54 | PATCH takes userName, email and password from the body exactly when present (a `null` included); `_id`, userid and registrationDate never change |
| UserModel.PatchIdempotent | routes/users.js:46-54 | the same PATCH body applied twice gives the document it gives once |
| UserModel.EmptyPatchIdentity | routes/users.js:46-54 | a body without the three fields leaves the document as it was |
| PlaceModel.NewPlace | routes/places.js:17 | `new Place(req.body)`; `PlaceModel.NewPlaceDates` states its dates |
| PlaceModel.NewPlaceDates | models/place.js:35-42 | each date defaults to the creation time when the body leaves it out and keeps the date the body gives |
| PlaceModel.PlaceFieldErrors | models/place.js:9-43 | the failing paths: placeid iff missing, placeName iff missing or empty; placeDescription and the rest never fail |
| PlaceModel.ValidatePlaceidUniqueness | models/place.js:49-54 | the validator as written; `PlaceModel.PlaceidUniquenessIff` states when it passes |
| PlaceModel.PlaceidUniquenessIff | models/place.js:49-54 | the placeid validator passes iff the lookup succeeds and finds no place with that placeid; a lookup error makes it refuse |
| PlaceModel.PlaceSaveErrors | models/place.js:10-20 | a save is refused iff a field fails or the uniqueness validator says no |
| PlaceModel.StoredPlaceFailsPlaceidCheck | models/place.js:45-54 | as written, every document whose placeid is stored fails the uniqueness validator, the stored place itself included, and the save lists `placeid` among its errors |
| PlaceModel.PatchedPlaceFailsPlaceidCheck | routes/places.js:43-55 | as written, the save after any PATCH of a stored place, whatever the body, lists `placeid` among its errors |
| PlaceModel.PlaceidUniqueOrSelf | models/place.js:45-48 | the check the doc comment describes; `PlaceModel.PlaceidUniqueOrSelfIff` states it |
| PlaceModel.PlaceidUniqueOrSelfIff | models/place.js:45-48 | the check the doc comment describes passes iff the lookup succeeds and the placeid is free or held by the document itself |
| PlaceModel.PlaceidChecksAgreeOnNew | models/place.js:49-54 | for a document no stored place is, the corrected check and the written one agree |
| PlaceModel.ApplyPlacePatch | routes/places.js:46-53 | the field assignments and the date stamp of PATCH; `PlaceModel.PlacePatchFields` states them |
| PlaceModel.PlacePatchFields | routes/places.js:46-53 | PATCH takes placeName and placeDescription from the body exactly when present and sets placeLastModDate to now; placeid, creation date, picture and location stay |
| PlaceModel.EmptyPlacePatchStamps | routes/places.js:53 | a body with neither field still stamps the modification date, and changes nothing else |
| PlaceModel.PlacePatchIdempotent | routes/places.js:46-53 | the same PATCH at the same time twice is the PATCH once |
| TripModel.NewTrip | models/trip.js:7-34 | a trip built from a body; `TripModel.NewTripDates` states its dates |
| TripModel.NewTripDates | models/trip.js:26-33 | both trip dates default to the creation time when the body leaves them out |
| TripModel.TripFieldErrors | models/trip.js:7-34 | the failing paths: tripid iff missing, tripName iff missing or empty; tripDescription never fails |
| TripModel.ValidateTripidUniqueness | models/trip.js:40-48 | the validator with its `isNew` short-circuit; `TripModel.TripidUniquenessIff` states when it passes |
| TripModel.TripidUniquenessIff | models/trip.js:40-48 | the tripid validator passes iff the trip is not new, or the lookup succeeds and finds no trip with that tripid |
| TripModel.StoredTripPassesTripidCheck | models/trip.js:42-44 | a stored trip saved again passes without a lookup, while a new trip taking its tripid is refused |
| RouteUtils.RequireJson | routes/utils.js:7-15 | `next()` iff the request is JSON; otherwise `next(err)` with status 415 and the fixed message |
| RouteUtils.ParseBearer | routes/utils.js:28-33 | an extracted token is what follows `Bearer ` in the header, non-empty, with no line terminator |
| RouteUtils.BearerRoundTrip | routes/utils.js:28-33 | `Bearer <token>` gives back exactly `token`, for every non-empty token without line terminators |
| RouteUtils.BearerStrict | routes/utils.js:28-31 | the scheme is case-sensitive (`bearer`, `BEARER` refused) and a trailing line break is refused |
| RouteUtils.AuthDecision | routes/utils.js:21-42 | every refusal is a 401; the request goes on iff the header is present, non-empty, a bearer header and its token verifies, and then as the token's subject |
| RouteUtils.AuthRefusals | routes/utils.js:23-36 | missing or empty header, non-bearer header and rejected token each give 401 with their own text |
| RouteUtils.AuthAccepts | routes/utils.js:34-40 | a bearer header with a token the verifier accepts lets the request on as the payload's `sub` |
| RouteUtils.AuthAsksOnlyTheToken | routes/utils.js:33-34 | the verifier is consulted only on the extracted token |
| RouteUtils.Request.Authenticate | routes/utils.js:21-42 | ends in the decision's outcome; on success `currentUserid` is the subject, on a 401 the request is unchanged |
| UserRoutes.UserStore.Save | routes/users.js:19-25 | a refused validation or a failed write goes to `next` and stores nothing; otherwise the user is stored under its userid and sent; the invariant holds |
| UserRoutes.UserStore.Post | routes/users.js:15-26 | non-JSON: 415 and nothing changes; otherwise the new document is saved as above; a saved user had a userid nobody held |
| UserRoutes.UserStore.List | routes/users.js:31-38 | a query error goes to `next`; otherwise every stored user once, ascending by userid |
| UserRoutes.UserStore.Patch | routes/users.js:43-64 | non-JSON: 415; unknown id: 404 and nothing runs; otherwise the patched document is saved, only a failed uniqueness lookup, a field error or a failed write refusing it, and the store changes only at that id |
| UserRoutes.UserStore.Delete | routes/users.js:69-80 | loader failures reply as the loader does; otherwise the user is removed and 204 sent, after which loading that id is a 404 |
| PlaceRoutes.PlaceStore.Save | routes/places.js:19-25 | a refused validation or a failed write goes to `next` and stores nothing; otherwise the place is stored under its placeid and sent |
| PlaceRoutes.PlaceStore.Post | routes/places.js:15-26 | non-JSON: 415 and nothing changes; otherwise the new place, dates defaulting to now, is saved; a saved place had a placeid nobody held |
| PlaceRoutes.PlaceStore.List | routes/places.js:31-38 | a query error goes to `next`; otherwise every stored place once, ascending by placeid |
| PlaceRoutes.PlaceStore.Patch | routes/places.js:43-64 | non-JSON: 415; unknown id: 404; otherwise name and description from the body, modification date now, saved under the same placeid |
| PlaceRoutes.PlaceStore.Delete | routes/places.js:69-80 | loader failures reply as the loader does; otherwise the place is removed and 204 sent, after which loading that id is a 404 |

## Left out

- `database.js` is not part of this model: it is connection plumbing and test seeding. Its
  `max+1` id allocation in `createUser` (database.js:157-158) is live code, but its helper
  `getIdMax` sits inside the comment that runs from database.js:167 to database.js:684.
- `routes/trips.js` is not part of this model: create and list pass through, and its DELETE
  reads `req.trip`, which nothing sets. The trip schema and validator are modelled.
- Database I/O, the callback order and concurrency are left out. In particular, the race
  between a uniqueness lookup and the insert, and the unique index's duplicate-key error, are
  not modelled.
- JWT verification is a function parameter. As the file stands, routes/utils.js:34 calls
  `jwt.verify` without importing `jwt` or defining `secretKey`. So any well-formed bearer header
  throws a `ReferenceError`, which Express turns into a 500. The modelled 401 "invalid or has
  expired" path and the success path exist only once that import is added. No route in the
  modelled files uses `authenticate`. `payload.sub` is taken to be an integer userid.
- Common.NatToDecimal: the decimal rendering and its lemmas support `Common.NotFoundNamesId`
  only; the source itself never renders a number (see the next line).
- The path parameter is an `int`. Mongoose's cast of the raw string, and its cast errors, are
  not modelled. The 404 text writes the id in canonical decimal, whereas the source echoes the
  raw path text (`007` stays `007`).
- The casting of body values, and strict mode dropping unknown fields, are left out: a body
  holds only the schema's fields, already typed.
- Email.ToLower: only ASCII capitals and KELVIN SIGN (which lower-cases to `k`) are mapped.
  Other case mappings do not change acceptance; that is argued, not proved. Most map an atom
  character to an atom character. U+0130 lower-cases to two characters, `i` and U+0307. That
  pair is still all atom characters and free of line terminators. In a domain, U+0307 is
  neither a label character nor a letter, so a domain holding U+0130 stays refused.
- UserModel.UserFieldErrors: lengths count Unicode characters. JavaScript counts UTF-16 code
  units, so a name with characters outside the Basic Multilingual Plane is measured differently.
- PlaceModel.Place: `placeGeolocalisation` is untyped in the schema and is carried as text. A
  picture is one value, not a `Buffer`.
- Responses are the documents themselves. The JSON rendering, and the fact that a user
  response includes the password, are not modelled.
- UserRoutes.UserStore.Patch: as written, the source refuses every PATCH of a stored user
  with `User <id> already exists`; the model checks the userid with the corrected validator
  (see Findings) and saves it. `UserModel.PatchedUserFailsUseridCheck` states the refusal.
- PlaceRoutes.PlaceStore.Patch: as written, the source refuses every PATCH of a stored place
  with `Place <id> already exists`; the model checks the placeid with the corrected validator
  (see Findings) and saves it. `PlaceModel.PatchedPlaceFailsPlaceidCheck` states the refusal.
- PlaceModel.NewPlaceDates: one clock reading `now` stands for the two `Date.now()` calls
  Mongoose makes, one per defaulted path, so the model's two dates coincide where the source's
  may differ by a tick; no property rests on them being equal. The same holds for
  `TripModel.NewTripDates`.
- Mongoose re-running the uniqueness validator on every path of a loaded document when it is
  saved is taken as given. The Findings depend on it.
- `debug(...)` logging is not modelled.

## Findings

| source | as written | input that shows it | evidently intended | confidence | as-written member | corrected member |
|---|---|---|---|---|---|---|
| models/user.js:55-64 | `callback(!err && !existingUser)`: any user found under the userid fails the check, including the document being validated | PATCH `/users/1` with body `{"userName":"alice2"}` on a store holding user 1; the save re-validates userid 1, finds user 1 itself and is refused with `User 1 already exists` | the doc comment: pass when nobody holds the userid or the only holder is the document itself | not executed; depends on the validator running for the loaded path on save | UserModel.PatchedUserFailsUseridCheck | UserModel.UseridUniqueOrSelfIff |
| models/place.js:45-54 | `callback(!err && !existingPlace)`: a stored place fails its own check | PATCH `/places/3` with body `{"placeName":"Lausanne"}` on a store holding place 3; refused with `Place 3 already exists` | the doc comment: the document itself does not count (as models/trip.js:42-44 achieves with `isNew`) | not executed; depends on the validator running for the loaded path on save | PlaceModel.PatchedPlaceFailsPlaceidCheck | PlaceModel.PlaceidUniqueOrSelfIff |
