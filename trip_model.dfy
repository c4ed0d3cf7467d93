/** The `Trip` model: its schema, the document built from a request body, and the tripid
    uniqueness validator, which exempts documents that are not new. */
module TripModel {
  import opened Common
  import opened Schema

  datatype Trip = Trip(
    oid: nat,
    tripid: Option<int>,
    tripName: Option<string>,
    tripDescription: Option<string>,
    tripCreationDate: Option<int>,
    tripLastModDate: Option<int>)

  datatype TripBody = TripBody(
    tripid: Json<int>,
    tripName: Json<string>,
    tripDescription: Json<string>,
    tripCreationDate: Json<int>,
    tripLastModDate: Json<int>)

  /** `new Trip(req.body)`: the body's fields, both dates defaulting to now. */
  function NewTrip(body: TripBody, oid: nat, now: int): Trip {
    Trip(oid, body.tripid.ToOption(), body.tripName.ToOption(), body.tripDescription.ToOption(),
         DefaultNow(body.tripCreationDate, now), DefaultNow(body.tripLastModDate, now))
  }

  /** Both dates are the creation time when the body leaves them out. */
  lemma NewTripDates(body: TripBody, oid: nat, now: int)
    ensures var t := NewTrip(body, oid, now);
      && (body.tripCreationDate.Undefined? ==> t.tripCreationDate == Some(now))
      && (body.tripLastModDate.Undefined? ==> t.tripLastModDate == Some(now))
      && (body.tripCreationDate.Value? ==> t.tripCreationDate == Some(body.tripCreationDate.value))
      && (body.tripLastModDate.Value? ==> t.tripLastModDate == Some(body.tripLastModDate.value))
  {
  }

  /** `tripid` and `tripName` are required; the description accepts anything. */
  function TripFieldErrors(t: Trip): (errs: set<string>)
    ensures errs <= {"tripid", "tripName"}
    ensures "tripid" in errs <==> t.tripid.None?
    ensures "tripName" in errs <==> !(t.tripName.Some? && |t.tripName.value| >= 1)
  {
    RequiredStringRefuses(t.tripName);
    PlainStringAccepts(t.tripDescription);
    (if NumberPathFails(t.tripid, true) then {"tripid"} else {})
    + (if StringPathFails(t.tripName, RequiredString) then {"tripName"} else {})
    + (if StringPathFails(t.tripDescription, PlainString) then {"tripDescription"} else {})
  }

  /** `validateTripidUniqueness`: a document that is not new passes at once; a new one passes
      when the lookup succeeds and finds no trip with that tripid. */
  predicate ValidateTripidUniqueness(isNew: bool, found: Lookup<Trip>) {
    if !isNew then true else found.NotFound?
  }

  /** A trip that is not new is accepted whatever the collection holds and even when the
      lookup would fail; a new one iff the lookup succeeds and the tripid is free. */
  lemma TripidUniquenessIff(trips: map<int, Trip>, fails: bool, isNew: bool, id: int)
    ensures ValidateTripidUniqueness(isNew, FindOne(trips, fails, id)) <==>
      !isNew || (!fails && id !in trips)
  {
  }

  /** Unlike users and places, a stored trip saved again passes its uniqueness check, while a
      new trip taking its tripid is refused. */
  lemma StoredTripPassesTripidCheck(trips: map<int, Trip>, t: Trip)
    requires t.tripid.Some? && t.tripid.value in trips && trips[t.tripid.value] == t
    ensures ValidateTripidUniqueness(false, FindOne(trips, false, t.tripid.value))
    ensures !ValidateTripidUniqueness(true, FindOne(trips, false, t.tripid.value))
  {
  }
}
