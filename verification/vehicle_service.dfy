/** The vehicle service: creating, editing and (de)activating vehicles.

Every operation is a pure function from the store before the call to the
store after it. A call that throws is an `Err` and leaves the store as it
was. Notification e-mails are not modelled.
 */
module VehicleService {
  import opened Wrappers
  import opened Text
  import opened Entities
  import opened StatusToggle

  /** Why a vehicle call throws: the plate is unknown, the plate check
      found the requested plate taken, or the database refused a second
      row under the same primary key. */
  datatype VehicleError = VehicleNotFound | PlateTaken | DuplicateKey

  datatype VehicleRequest = VehicleRequest(
    userId: int,
    licensePlate: string,
    name: Option<string>,
    imagePath: Option<string>,
    description: Option<string>,
    driverName: Option<string>,
    vehicleType: int,
    yearModel: int,
    capacity: int)

  /** What create hands back to the caller. */
  datatype VehicleDto = VehicleDto(
    licensePlate: string,
    name: Option<string>,
    imagePath: Option<string>,
    description: Option<string>,
    driverName: Option<string>,
    vehicleType: int,
    yearModel: int,
    capacity: int,
    available: int)

  /** The columns of a stored vehicle that its DTO shows. */
  predicate ShowsVehicle(d: VehicleDto, v: Vehicle) {
    && d.licensePlate == v.licensePlate
    && d.name == v.name && d.imagePath == v.imagePath
    && d.description == v.description && d.driverName == v.driverName
    && d.vehicleType == v.vehicleType && d.yearModel == v.yearModel
    && d.capacity == v.capacity && d.available == v.available
  }

  /** The C# `??` operator on a nullable column: the new value, or the old
      one when the new one is null. */
  function Coalesce(given: Option<string>, current: Option<string>): (r: Option<string>)
    ensures given.Some? ==> r == given
    ensures given.None? ==> r == current
  {
    if given.Some? then given else current
  }

  /** Only the vehicle table changes. */
  predicate OnlyVehiclesChanged(s: Store, t: Store) {
    t.users == s.users && t.events == s.events && t.eventVehicles == s.eventVehicles
  }

  // ---------------------------------------------------------------------
  // Create

  /** `CreateVehicleAsync`: the plate check looks for the request's plate
      exactly as given; the row is then stored under the upper-cased plate,
      Active, with every seat available. When the upper-cased plate is
      already a key the database refuses the insert. */
  function CreateVehicle(s: Store, req: VehicleRequest): (r: Result<(Store, VehicleDto), VehicleError>)
    ensures req.licensePlate in s.vehicles ==> r == Err(PlateTaken)
    ensures r.Err? <==> req.licensePlate in s.vehicles || ToUpper(req.licensePlate) in s.vehicles
    ensures r.Ok? ==> var t, key := r.value.0, ToUpper(req.licensePlate);
      && OnlyVehiclesChanged(s, t)
      && t.vehicles.Keys == s.vehicles.Keys + {key}
      && (forall p :: p in s.vehicles ==> t.vehicles[p] == s.vehicles[p])
      && t.vehicles[key].licensePlate == key
      && t.vehicles[key].userId == req.userId
      && t.vehicles[key].name == req.name && t.vehicles[key].imagePath == req.imagePath
      && t.vehicles[key].description == req.description && t.vehicles[key].driverName == req.driverName
      && t.vehicles[key].vehicleType == req.vehicleType && t.vehicles[key].yearModel == req.yearModel
      && t.vehicles[key].capacity == req.capacity
      && t.vehicles[key].available == req.capacity
      && t.vehicles[key].isActive == Active
    ensures r.Ok? ==> ShowsVehicle(r.value.1, r.value.0.vehicles[ToUpper(req.licensePlate)])
  {
    if req.licensePlate in s.vehicles then Err(PlateTaken)
    else
      var key := ToUpper(req.licensePlate);
      if key in s.vehicles then Err(DuplicateKey)
      else
        var v := Vehicle(req.userId, key, req.name, req.imagePath, req.description, req.driverName,
                         req.vehicleType, req.yearModel, req.capacity, req.capacity, Active);
        var dto := VehicleDto(v.licensePlate, v.name, v.imagePath, v.description, v.driverName,
                              v.vehicleType, v.yearModel, v.capacity, v.available);
        Ok((s.(vehicles := s.vehicles[key := v]), dto))
  }

  /** Creating keeps every vehicle stored under its own plate. */
  lemma CreateVehiclePreservesWellKeyed(s: Store, req: VehicleRequest)
    requires WellKeyed(s)
    requires CreateVehicle(s, req).Ok?
    ensures WellKeyed(CreateVehicle(s, req).value.0)
  {
  }

  /** Whatever the case of the plate, the same request cannot create a
      second vehicle: the exact check or the database stops it. */
  lemma CreateVehicleTwiceFails(s: Store, req: VehicleRequest)
    requires CreateVehicle(s, req).Ok?
    ensures CreateVehicle(CreateVehicle(s, req).value.0, req).Err?
  {
  }

  /** A plate that differs from a stored one only in letter case passes the
      exact check and reaches the database, which refuses it. */
  lemma CreateVehicleCaseVariantReachesStore(s: Store, req: VehicleRequest)
    requires ToUpper(req.licensePlate) in s.vehicles
    requires req.licensePlate !in s.vehicles
    ensures CreateVehicle(s, req) == Err(DuplicateKey)
  {
  }

  // ---------------------------------------------------------------------
  // Update

  /** The row `UpdateVehicleAsync` writes for the stored row `v`. */
  function Updated(v: Vehicle, req: VehicleRequest): Vehicle {
    v.(licensePlate := ToUpper(req.licensePlate),
       name := Coalesce(req.name, v.name),
       imagePath := Coalesce(req.imagePath, v.imagePath),
       description := Coalesce(req.description, v.description),
       driverName := req.driverName,
       vehicleType := req.vehicleType,
       yearModel := req.yearModel,
       capacity := req.capacity,
       available := 0)
  }

  /** `UpdateVehicleAsync(licensePlate, request)`: a missing vehicle throws;
      a changed plate that already exists (exact match) throws; otherwise
      the row moves to the upper-cased request plate. Moving it onto a key
      held by another row is refused by the database. */
  function UpdateVehicle(s: Store, plate: string, req: VehicleRequest): (r: Result<Store, VehicleError>)
    ensures r == Err(VehicleNotFound) <==> plate !in s.vehicles
    ensures r == Err(PlateTaken) <==>
      plate in s.vehicles && plate != req.licensePlate && req.licensePlate in s.vehicles
    ensures r.Ok? <==>
      && plate in s.vehicles
      && (plate != req.licensePlate ==> req.licensePlate !in s.vehicles)
      && (ToUpper(req.licensePlate) == plate || ToUpper(req.licensePlate) !in s.vehicles)
    ensures r.Ok? ==> r.value.vehicles.Keys == s.vehicles.Keys - {plate} + {ToUpper(req.licensePlate)}
    ensures r.Ok? ==> var t, key, u, v := r.value, ToUpper(req.licensePlate), s.vehicles[plate], r.value.vehicles[ToUpper(req.licensePlate)];
      && OnlyVehiclesChanged(s, t)
      && (forall p :: p in s.vehicles && p != plate && p != key ==> t.vehicles[p] == s.vehicles[p])
      && v.licensePlate == key
      && v.available == 0
      && (req.name.None? ==> v.name == u.name) && (req.name.Some? ==> v.name == req.name)
      && (req.imagePath.None? ==> v.imagePath == u.imagePath) && (req.imagePath.Some? ==> v.imagePath == req.imagePath)
      && (req.description.None? ==> v.description == u.description)
      && (req.description.Some? ==> v.description == req.description)
      && v.driverName == req.driverName
      && v.vehicleType == req.vehicleType && v.yearModel == req.yearModel && v.capacity == req.capacity
      && v.userId == u.userId && v.isActive == u.isActive
  {
    if plate !in s.vehicles then Err(VehicleNotFound)
    else if plate != req.licensePlate && req.licensePlate in s.vehicles then Err(PlateTaken)
    else
      var key := ToUpper(req.licensePlate);
      if key != plate && key in s.vehicles then Err(DuplicateKey)
      else Ok(s.(vehicles := (s.vehicles - {plate})[key := Updated(s.vehicles[plate], req)]))
  }

  /** Updating keeps every vehicle stored under its own plate. */
  lemma UpdateVehiclePreservesWellKeyed(s: Store, plate: string, req: VehicleRequest)
    requires WellKeyed(s)
    requires UpdateVehicle(s, plate, req).Ok?
    ensures WellKeyed(UpdateVehicle(s, plate, req).value)
  {
    var t := UpdateVehicle(s, plate, req).value;
    forall p | p in t.vehicles
      ensures t.vehicles[p].licensePlate == p
    {
      if p != ToUpper(req.licensePlate) {
        assert p in s.vehicles && p != plate;
      }
    }
  }

  /** Updating neither adds nor removes a vehicle. */
  lemma UpdateVehicleKeepsCount(s: Store, plate: string, req: VehicleRequest)
    requires UpdateVehicle(s, plate, req).Ok?
    ensures |UpdateVehicle(s, plate, req).value.vehicles| == |s.vehicles|
  {
    var t := UpdateVehicle(s, plate, req).value;
    var key := ToUpper(req.licensePlate);
    if key == plate {
      assert t.vehicles.Keys == s.vehicles.Keys;
    } else {
      var rest := s.vehicles.Keys - {plate};
      assert s.vehicles.Keys == rest + {plate};
      assert t.vehicles.Keys == rest + {key};
      assert |t.vehicles.Keys| == |rest| + 1;
      assert |s.vehicles.Keys| == |rest| + 1;
    }
  }

  /** Repeating an update on the vehicle's new plate changes nothing more. */
  lemma UpdateVehicleIdempotent(s: Store, plate: string, req: VehicleRequest)
    requires UpdateVehicle(s, plate, req).Ok?
    ensures var t := UpdateVehicle(s, plate, req).value;
      UpdateVehicle(t, ToUpper(req.licensePlate), req) == Ok(t)
  {
    var t := UpdateVehicle(s, plate, req).value;
    var key := ToUpper(req.licensePlate);
    assert req.licensePlate != key ==> req.licensePlate !in t.vehicles;
    var v := t.vehicles[key];
    assert Updated(v, req) == v;
    assert (t.vehicles - {key})[key := v] == t.vehicles;
  }

  // ---------------------------------------------------------------------
  // Admin update

  datatype AdminVehicleUpdateRequest = AdminVehicleUpdateRequest(
    name: Option<string>,
    description: Option<string>,
    capacity: int,
    vehicleType: int,
    driverName: Option<string>,
    yearModel: int,
    imagePath: Option<string>,
    available: int)

  /** `AdminUpdateVehicleAsync`: overwrite every editable column of the
      vehicle, including `Available`, and never its plate. */
  function AdminUpdateVehicle(s: Store, plate: string, req: AdminVehicleUpdateRequest): (r: (Store, bool))
    ensures r.1 <==> plate in s.vehicles
    ensures !r.1 ==> r.0 == s
    ensures r.0.vehicles.Keys == s.vehicles.Keys
    ensures r.1 ==> var u, v := s.vehicles[plate], r.0.vehicles[plate];
      && OnlyVehiclesChanged(s, r.0)
      && (forall p :: p in s.vehicles && p != plate ==> r.0.vehicles[p] == s.vehicles[p])
      && v.licensePlate == u.licensePlate && v.userId == u.userId && v.isActive == u.isActive
      && v.name == req.name && v.description == req.description && v.capacity == req.capacity
      && v.vehicleType == req.vehicleType && v.driverName == req.driverName
      && v.yearModel == req.yearModel && v.imagePath == req.imagePath && v.available == req.available
  {
    if plate !in s.vehicles then (s, false)
    else
      var v := s.vehicles[plate].(
        name := req.name,
        description := req.description,
        capacity := req.capacity,
        vehicleType := req.vehicleType,
        driverName := req.driverName,
        yearModel := req.yearModel,
        imagePath := req.imagePath,
        available := req.available);
      (s.(vehicles := s.vehicles[plate := v]), true)
  }

  /** The admin update keeps every vehicle stored under its own plate. */
  lemma AdminUpdateVehiclePreservesWellKeyed(s: Store, plate: string, req: AdminVehicleUpdateRequest)
    requires WellKeyed(s)
    ensures WellKeyed(AdminUpdateVehicle(s, plate, req).0)
  {
  }

  /** Applying the same admin update twice is applying it once. */
  lemma AdminUpdateVehicleIdempotent(s: Store, plate: string, req: AdminVehicleUpdateRequest)
    ensures var t := AdminUpdateVehicle(s, plate, req).0;
      AdminUpdateVehicle(t, plate, req) == (t, plate in s.vehicles)
  {
    var t := AdminUpdateVehicle(s, plate, req).0;
    if plate in s.vehicles {
      assert t.vehicles[plate := AdminUpdateVehicle(t, plate, req).0.vehicles[plate]] == t.vehicles;
    }
  }

  // ---------------------------------------------------------------------
  // Cascading status toggle

  /** The repository calls `ToggleStatusAsync(licensePlate)` issues, in
      order: when the vehicle is Active, one toggle per event-vehicle the
      vehicle is linked to and then the vehicle; otherwise the vehicle
      alone. */
  function VehicleToggleCalls(s: Store, links: Links, plate: string): (r: seq<Target>)
    ensures |r| > 0 && r[|r| - 1] == VehicleT(plate)
    ensures VehicleState(s, plate) != Some(Active) ==> r == [VehicleT(plate)]
  {
    if VehicleState(s, plate) == Some(Active) then VehicleBlock(links, plate) else [VehicleT(plate)]
  }

  /** `ToggleStatusAsync(licensePlate)`: the repository toggles issued by
      `VehicleToggleCalls`, answering whether the vehicle exists. No row is
      added or removed. */
  function ToggleStatus(s: Store, links: Links, plate: string): (r: (Store, bool))
    ensures r.1 <==> plate in s.vehicles
    ensures r.0.users.Keys == s.users.Keys && r.0.vehicles.Keys == s.vehicles.Keys
    ensures r.0.events.Keys == s.events.Keys && r.0.eventVehicles.Keys == s.eventVehicles.Keys
  {
    (ToggleAll(s, VehicleToggleCalls(s, links, plate)), plate in s.vehicles)
  }

  /** How often the calls of an Active vehicle's toggle address `t`. */
  lemma VehicleToggleCount(links: Links, plate: string, t: Target)
    ensures Count(VehicleBlock(links, plate), t) ==
      (if t.EventVehicleT? then Count(links.VehicleEventVehiclesOf(plate), t.eventVehicleId) else 0)
        + (if t == VehicleT(plate) then 1 else 0)
  {
    var ids := links.VehicleEventVehiclesOf(plate);
    CountAppendAt(EventVehicleCalls(ids), [VehicleT(plate)], t);
  }

  /** A vehicle that is not Active is the only row toggled: it becomes
      Active and nothing else changes (nothing at all for an unknown plate). */
  lemma ToggleStatusReactivates(s: Store, links: Links, plate: string)
    requires VehicleState(s, plate) != Some(Active)
    ensures var r := ToggleStatus(s, links, plate).0;
      && r.users == s.users && r.events == s.events && r.eventVehicles == s.eventVehicles
      && (plate !in s.vehicles ==> r.vehicles == s.vehicles)
      && (plate in s.vehicles ==> r.vehicles == s.vehicles[plate := s.vehicles[plate].(isActive := Active)])
  {
    assert VehicleToggleCalls(s, links, plate) == [VehicleT(plate)];
    ToggleAllOne(s, VehicleT(plate));
  }

  /** An Active vehicle ends Inactive and no other vehicle changes. */
  lemma ToggleStatusDeactivatesVehicle(s: Store, links: Links, plate: string)
    requires VehicleState(s, plate) == Some(Active)
    ensures ToggleStatus(s, links, plate).0.vehicles == s.vehicles[plate := s.vehicles[plate].(isActive := Inactive)]
  {
    var ts := VehicleBlock(links, plate);
    var r := ToggleAll(s, ts).vehicles;
    assert VehiclesFlipped(s.vehicles, r, ts);
    forall p | p in s.vehicles
      ensures r[p] == if p == plate then s.vehicles[p].(isActive := Inactive) else s.vehicles[p]
    {
      VehicleToggleCount(links, plate, VehicleT(p));
    }
  }

  /** Deactivating a vehicle changes no user and no event. */
  lemma ToggleStatusKeepsUsersAndEvents(s: Store, links: Links, plate: string)
    ensures ToggleStatus(s, links, plate).0.users == s.users
    ensures ToggleStatus(s, links, plate).0.events == s.events
  {
    var ts := VehicleToggleCalls(s, links, plate);
    var r := ToggleAll(s, ts);
    assert UsersFlipped(s.users, r.users, ts) && EventsFlipped(s.events, r.events, ts);
    forall id | id in s.users
      ensures r.users[id] == s.users[id]
    {
      if VehicleState(s, plate) == Some(Active) {
        VehicleToggleCount(links, plate, UserT(id));
      }
    }
    forall e | e in s.events
      ensures r.events[e] == s.events[e]
    {
      if VehicleState(s, plate) == Some(Active) {
        VehicleToggleCount(links, plate, EventT(e));
      }
    }
  }

  /** Deactivating an Active vehicle flips event-vehicle `ev` once per
      listing of `ev` under the vehicle. */
  lemma ToggleStatusCascadesEventVehicle(s: Store, links: Links, plate: string, ev: int)
    requires VehicleState(s, plate) == Some(Active)
    requires ev in s.eventVehicles
    ensures ToggleStatus(s, links, plate).0.eventVehicles[ev] ==
      s.eventVehicles[ev].(isActive :=
        FlipTimes(s.eventVehicles[ev].isActive, Count(links.VehicleEventVehiclesOf(plate), ev)))
  {
    var ts := VehicleBlock(links, plate);
    VehicleToggleCount(links, plate, EventVehicleT(ev));
    assert EventVehiclesFlipped(s.eventVehicles, ToggleAll(s, ts).eventVehicles, ts);
  }

  /** When the lists follow the foreign keys, every event-vehicle of an
      Active vehicle is flipped exactly once, whatever its flag was, and
      every other event-vehicle is left alone. */
  lemma ToggleStatusFlipsOwnEventVehicles(s: Store, links: Links, plate: string, ev: int)
    requires LinksFollowKeys(s, links)
    requires VehicleState(s, plate) == Some(Active)
    requires ev in s.eventVehicles
    ensures var x := s.eventVehicles[ev];
      ToggleStatus(s, links, plate).0.eventVehicles[ev].isActive ==
        if x.licensePlate == plate then Flip(x.isActive) else x.isActive
  {
    var ids := links.VehicleEventVehiclesOf(plate);
    ToggleStatusCascadesEventVehicle(s, links, plate, ev);
    CountNoDup(ids, ev);
  }

  /** When the vehicle is Active, every event-vehicle toggle precedes the
      vehicle's own, which comes last; otherwise the vehicle is toggled
      alone. */
  lemma VehicleToggleDependentsFirst(s: Store, links: Links, plate: string)
    ensures var ts := VehicleToggleCalls(s, links, plate);
      && |ts| > 0 && ts[|ts| - 1] == VehicleT(plate)
      && (forall k :: 0 <= k < |ts| - 1 ==> ts[k].EventVehicleT?)
      && (VehicleState(s, plate) == Some(Active) ==> DependentsFirst(links, ts))
      && (VehicleState(s, plate) != Some(Active) ==> ts == [VehicleT(plate)])
  {
    if VehicleState(s, plate) == Some(Active) {
      BlocksPutDependentsFirst(links, plate, 0);
      var ts := VehicleToggleCalls(s, links, plate);
      var evs := EventVehicleCalls(links.VehicleEventVehiclesOf(plate));
      assert forall k :: 0 <= k < |ts| - 1 ==> ts[k] == evs[k];
    }
  }

  // ---------------------------------------------------------------------
  // The deactivating cascade the comments of `ToggleStatusAsync` describe

  /** Deactivating an Active vehicle as its comments describe: every
      event-vehicle the vehicle is linked to is set Inactive (not toggled),
      and then the vehicle is toggled. A vehicle that is not Active is
      handled as before. */
  function DeactivateVehicleCascade(s: Store, links: Links, plate: string): (r: (Store, bool))
    ensures r.1 <==> plate in s.vehicles
  {
    if VehicleState(s, plate) == Some(Active) then
      (ToggleOne(DeactivateAll(s, EventVehicleCalls(links.VehicleEventVehiclesOf(plate))), VehicleT(plate)), true)
    else ToggleStatus(s, links, plate)
  }

  /** The corrected cascade ends with the vehicle Inactive and every other
      vehicle as it was. */
  lemma DeactivateVehicleCascadeVehicles(s: Store, links: Links, plate: string)
    requires VehicleState(s, plate) == Some(Active)
    ensures DeactivateVehicleCascade(s, links, plate).0.vehicles ==
      s.vehicles[plate := s.vehicles[plate].(isActive := Inactive)]
  {
    var ts := EventVehicleCalls(links.VehicleEventVehiclesOf(plate));
    var mid := DeactivateAll(s, ts);
    forall p | p in s.vehicles
      ensures mid.vehicles[p] == s.vehicles[p]
    {
      CountPositive(ts, VehicleT(p));
    }
    assert mid.vehicles == s.vehicles;
  }

  /** The corrected cascade sets every event-vehicle of the vehicle
      Inactive and leaves every other one alone. */
  lemma DeactivateVehicleCascadeEventVehicles(s: Store, links: Links, plate: string, ev: int)
    requires LinksFollowKeys(s, links)
    requires VehicleState(s, plate) == Some(Active)
    requires ev in s.eventVehicles
    ensures var x := s.eventVehicles[ev];
      DeactivateVehicleCascade(s, links, plate).0.eventVehicles[ev].isActive ==
        if x.licensePlate == plate then Inactive else x.isActive
  {
    var ids := links.VehicleEventVehiclesOf(plate);
    var ts := EventVehicleCalls(ids);
    var mid := DeactivateAll(s, ts);
    CountPositive(ts, EventVehicleT(ev));
    CountPositive(ids, ev);
    assert DeactivateVehicleCascade(s, links, plate).0.eventVehicles == mid.eventVehicles;
  }

  // ---------------------------------------------------------------------
  // A store on which the toggling cascade re-activates a dependent

  /** User 1 owns vehicle "AB123CD", which is Active; its assignment 7 to event 10 has already
      been deactivated. */
  function ReassignedStore(): Store {
    Store(
      map[1 := User("Ana", "Diaz", "1990-01-01", "30111222", "ana@example.com", "secret", 1, 1,
                   Customer, Active, None, false)],
      map["AB123CD" := Vehicle(1, "AB123CD", None, None, None, None, 1, 2020, 4, 4, Active)],
      map[10 := Event(1, Active)],
      map[7 := EventVehicle(10, "AB123CD", Inactive)])
  }

  function ReassignedLinks(): Links {
    Links(map[1 := ["AB123CD"]], map[1 := [10]], map["AB123CD" := [7]], map[10 := [7]])
  }

  lemma ReassignedLinksFollowKeys()
    ensures LinksFollowKeys(ReassignedStore(), ReassignedLinks())
  {
  }

  /** Deactivating the vehicle turns the Inactive assignment 7 back on. */
  lemma ToggleStatusReactivatesInactiveEventVehicle()
    ensures ToggleStatus(ReassignedStore(), ReassignedLinks(), "AB123CD").0.vehicles["AB123CD"].isActive == Inactive
    ensures ToggleStatus(ReassignedStore(), ReassignedLinks(), "AB123CD").0.eventVehicles[7].isActive == Active
  {
    ReassignedLinksFollowKeys();
    ToggleStatusDeactivatesVehicle(ReassignedStore(), ReassignedLinks(), "AB123CD");
    ToggleStatusFlipsOwnEventVehicles(ReassignedStore(), ReassignedLinks(), "AB123CD", 7);
  }

  /** The corrected cascade keeps assignment 7 Inactive on the same store. */
  lemma DeactivateVehicleCascadeKeepsEventVehicleInactive()
    ensures DeactivateVehicleCascade(ReassignedStore(), ReassignedLinks(), "AB123CD").0.eventVehicles[7].isActive == Inactive
  {
    ReassignedLinksFollowKeys();
    DeactivateVehicleCascadeEventVehicles(ReassignedStore(), ReassignedLinks(), "AB123CD", 7);
  }
}
