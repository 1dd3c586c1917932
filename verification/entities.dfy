/** The persisted entities and the in-memory store that stands in for the
    relational database behind the repositories.

Each table is a map from its primary key to the row:
users by numeric id, vehicles by license plate, events by numeric id and
event-vehicle associations by numeric id. Every row carries the
Active/Inactive soft-delete flag.
 */
module Entities {
  import opened Wrappers

  /** The soft-delete flag carried by every entity. */
  datatype EntityState = Active | Inactive

  /** The other value of the flag. */
  function Flip(st: EntityState): (r: EntityState)
    ensures r != st
  {
    if st == Active then Inactive else Active
  }

  /** The flag after `n` flips in a row. */
  function FlipTimes(st: EntityState, n: nat): EntityState {
    if n == 0 then st else Flip(FlipTimes(st, n - 1))
  }

  /** Only the parity of the number of flips matters. */
  lemma {:induction false} FlipTimesParity(st: EntityState, n: nat)
    ensures FlipTimes(st, n) == if n % 2 == 0 then st else Flip(st)
  {
    if n > 0 {
      FlipTimesParity(st, n - 1);
    }
  }

  /** Flipping `a` times and then `b` times is flipping `a + b` times. */
  lemma {:induction false} FlipTimesCompose(st: EntityState, a: nat, b: nat)
    ensures FlipTimes(FlipTimes(st, a), b) == FlipTimes(st, a + b)
  {
    if b > 0 {
      FlipTimesCompose(st, a, b - 1);
    }
  }

  /** The roles a user can hold. */
  datatype Role = Admin | Customer | ServiceProvider

  /** A user account. Nullable columns are `Option`s; the recovery code is
      present only between signup (or a recovery request) and its use. */
  datatype User = User(
    firstName: string,
    lastName: string,
    birthDate: string,
    identificationNumber: string,
    email: string,
    password: string,
    cityId: int,
    provinceId: int,
    role: Role,
    isActive: EntityState,
    recoveryCode: Option<string>,
    mustChangePassword: bool)

  /** A vehicle, keyed by its license plate. */
  datatype Vehicle = Vehicle(
    userId: int,
    licensePlate: string,
    name: Option<string>,
    imagePath: Option<string>,
    description: Option<string>,
    driverName: Option<string>,
    vehicleType: int,
    yearModel: int,
    capacity: int,
    available: int,
    isActive: EntityState)

  /** An event, with only the columns the services read: its owner and flag. */
  datatype Event = Event(userId: int, isActive: EntityState)

  /** The join row assigning a vehicle to an event. */
  datatype EventVehicle = EventVehicle(eventId: int, licensePlate: string, isActive: EntityState)

  /** The database: one map per table. */
  datatype Store = Store(
    users: map<int, User>,
    vehicles: map<string, Vehicle>,
    events: map<int, Event>,
    eventVehicles: map<int, EventVehicle>)

  /** Every vehicle row is stored under its own license plate. */
  predicate WellKeyed(s: Store) {
    forall p :: p in s.vehicles ==> s.vehicles[p].licensePlate == p
  }

  /** The result of the repository query that reads a user's flag. */
  function UserState(s: Store, id: int): (r: Option<EntityState>)
    ensures r.Some? <==> id in s.users
    ensures r.Some? ==> r.value == s.users[id].isActive
  {
    if id in s.users then Some(s.users[id].isActive) else None
  }

  /** The result of the repository query that reads a vehicle's flag. */
  function VehicleState(s: Store, plate: string): (r: Option<EntityState>)
    ensures r.Some? <==> plate in s.vehicles
    ensures r.Some? ==> r.value == s.vehicles[plate].isActive
  {
    if plate in s.vehicles then Some(s.vehicles[plate].isActive) else None
  }

  /** The four id-list queries the cascading toggles issue. Their bodies are
      not part of this model, so their answers are given as fixed lists;
      a key that is absent answers the empty list. */
  datatype Links = Links(
    userPlates: map<int, seq<string>>,
    userEvents: map<int, seq<int>>,
    vehicleEventVehicles: map<string, seq<int>>,
    eventEventVehicles: map<int, seq<int>>)
  {
    function PlatesOf(uid: int): seq<string> {
      if uid in userPlates then userPlates[uid] else []
    }

    function EventsOf(uid: int): seq<int> {
      if uid in userEvents then userEvents[uid] else []
    }

    function VehicleEventVehiclesOf(plate: string): seq<int> {
      if plate in vehicleEventVehicles then vehicleEventVehicles[plate] else []
    }

    function EventEventVehiclesOf(eventId: int): seq<int> {
      if eventId in eventEventVehicles then eventEventVehicles[eventId] else []
    }
  }

  /** A sequence without repeated elements. */
  predicate NoDup<T(==)>(xs: seq<T>) {
    forall i, j :: 0 <= i < j < |xs| ==> xs[i] != xs[j]
  }

  /** How often `x` occurs in `xs`. */
  function Count<T(==)>(xs: seq<T>, x: T): nat {
    if xs == [] then 0 else (if xs[0] == x then 1 else 0) + Count(xs[1..], x)
  }

  /** Occurrences in a concatenation add up. */
  lemma {:induction false} CountAppendAt<T>(xs: seq<T>, ys: seq<T>, u: T)
    ensures Count(xs + ys, u) == Count(xs, u) + Count(ys, u)
  {
    if xs != [] {
      assert (xs + ys)[0] == xs[0];
      assert (xs + ys)[1..] == xs[1..] + ys;
      CountAppendAt(xs[1..], ys, u);
    } else {
      assert xs + ys == ys;
    }
  }

  lemma CountAppend<T>(xs: seq<T>, ys: seq<T>)
    ensures forall u :: Count(xs + ys, u) == Count(xs, u) + Count(ys, u)
  {
    forall u {
      CountAppendAt(xs, ys, u);
    }
  }

  /** An element occurs in a sequence exactly when it is counted there. */
  lemma {:induction false} CountPositive<T>(xs: seq<T>, x: T)
    ensures x in xs <==> Count(xs, x) > 0
  {
    if xs != [] {
      CountPositive(xs[1..], x);
      assert xs == [xs[0]] + xs[1..];
    }
  }

  /** In a sequence without repetitions every element occurs once. */
  lemma {:induction false} CountNoDup<T>(xs: seq<T>, x: T)
    requires NoDup(xs)
    ensures Count(xs, x) == if x in xs then 1 else 0
  {
    if xs != [] {
      assert xs == [xs[0]] + xs[1..];
      CountAppend([xs[0]], xs[1..]);
      assert NoDup(xs[1..]);
      CountNoDup(xs[1..], x);
      if x == xs[0] {
        assert x !in xs[1..];
      }
    }
  }

  /** The id lists are exactly what the foreign keys say, each without
      repetitions: a user's plates are the vehicles it owns, a user's events
      are the events it owns, and a vehicle's (an event's) event-vehicles
      are the join rows naming that plate (that event). Rows are listed
      whatever their flag. */
  ghost predicate LinksFollowKeys(s: Store, links: Links) {
    && (forall uid :: NoDup(links.PlatesOf(uid)))
    && (forall uid :: NoDup(links.EventsOf(uid)))
    && (forall p :: NoDup(links.VehicleEventVehiclesOf(p)))
    && (forall e :: NoDup(links.EventEventVehiclesOf(e)))
    && (forall uid, p :: p in links.PlatesOf(uid) <==> p in s.vehicles && s.vehicles[p].userId == uid)
    && (forall uid, e :: e in links.EventsOf(uid) <==> e in s.events && s.events[e].userId == uid)
    && (forall p, ev :: ev in links.VehicleEventVehiclesOf(p) <==>
          ev in s.eventVehicles && s.eventVehicles[ev].licensePlate == p)
    && (forall e, ev :: ev in links.EventEventVehiclesOf(e) <==>
          ev in s.eventVehicles && s.eventVehicles[ev].eventId == e)
  }
}
