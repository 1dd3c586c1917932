/** The repository-level status operations the cascades are built from.

Each repository's `ToggleStatusAsync(id)` is modelled as: when a row with
that key exists, flip its Active/Inactive flag and answer true; otherwise
change nothing and answer false. A cascade is a sequence of such calls,
applied in order.

For comparison the module also defines a "set Inactive" step, which is what
the services' own comments say the dependent calls are meant to do.
 */
module StatusToggle {
  import opened Entities

  /** The row a single repository call addresses. */
  datatype Target =
    | UserT(userId: int)
    | VehicleT(plate: string)
    | EventT(eventId: int)
    | EventVehicleT(eventVehicleId: int)

  /** The flag of each row after the calls `ts`, given that a row flips once
      per call addressing it, and everything else about every row is kept. */
  predicate FlippedPerCalls(s: Store, r: Store, ts: seq<Target>) {
    && UsersFlipped(s.users, r.users, ts)
    && VehiclesFlipped(s.vehicles, r.vehicles, ts)
    && EventsFlipped(s.events, r.events, ts)
    && EventVehiclesFlipped(s.eventVehicles, r.eventVehicles, ts)
  }

  predicate UsersFlipped(a: map<int, User>, b: map<int, User>, ts: seq<Target>) {
    && b.Keys == a.Keys
    && forall id :: id in a ==> b[id] == a[id].(isActive := FlipTimes(a[id].isActive, Count(ts, UserT(id))))
  }

  predicate VehiclesFlipped(a: map<string, Vehicle>, b: map<string, Vehicle>, ts: seq<Target>) {
    && b.Keys == a.Keys
    && forall p :: p in a ==> b[p] == a[p].(isActive := FlipTimes(a[p].isActive, Count(ts, VehicleT(p))))
  }

  predicate EventsFlipped(a: map<int, Event>, b: map<int, Event>, ts: seq<Target>) {
    && b.Keys == a.Keys
    && forall e :: e in a ==> b[e] == a[e].(isActive := FlipTimes(a[e].isActive, Count(ts, EventT(e))))
  }

  predicate EventVehiclesFlipped(a: map<int, EventVehicle>, b: map<int, EventVehicle>, ts: seq<Target>) {
    && b.Keys == a.Keys
    && forall ev :: ev in a ==> b[ev] == a[ev].(isActive := FlipTimes(a[ev].isActive, Count(ts, EventVehicleT(ev))))
  }

  /** One repository `ToggleStatusAsync` call. */
  function ToggleOne(s: Store, t: Target): (r: Store)
    ensures FlippedPerCalls(s, r, [t])
  {
    match t
    case UserT(id) =>
      if id in s.users then s.(users := s.users[id := s.users[id].(isActive := Flip(s.users[id].isActive))]) else s
    case VehicleT(p) =>
      if p in s.vehicles then s.(vehicles := s.vehicles[p := s.vehicles[p].(isActive := Flip(s.vehicles[p].isActive))]) else s
    case EventT(e) =>
      if e in s.events then s.(events := s.events[e := s.events[e].(isActive := Flip(s.events[e].isActive))]) else s
    case EventVehicleT(ev) =>
      if ev in s.eventVehicles then
        s.(eventVehicles := s.eventVehicles[ev := s.eventVehicles[ev].(isActive := Flip(s.eventVehicles[ev].isActive))])
      else s
  }

  /** What the repository answers for one toggle: whether the row exists. */
  function Exists(s: Store, t: Target): bool {
    match t
    case UserT(id) => id in s.users
    case VehicleT(p) => p in s.vehicles
    case EventT(e) => e in s.events
    case EventVehicleT(ev) => ev in s.eventVehicles
  }

  /** The calls `ts`, one after the other. Every row ends flipped exactly as
      often as it was addressed, so only the parity of its hits matters. */
  function ToggleAll(s: Store, ts: seq<Target>): (r: Store)
    ensures FlippedPerCalls(s, r, ts)
    decreases |ts|
  {
    if ts == [] then s
    else
      var mid := ToggleOne(s, ts[0]);
      var r := ToggleAll(mid, ts[1..]);
      assert ts == [ts[0]] + ts[1..];
      FlippedCompose(s, mid, r, [ts[0]], ts[1..]);
      r
  }

  /** A single call is one repository toggle. */
  lemma ToggleAllOne(s: Store, t: Target)
    ensures ToggleAll(s, [t]) == ToggleOne(s, t)
  {
    assert [t][1..] == [];
  }

  /** Calls that address user `uid` once and no other user flip that user
      alone, whatever else they address. */
  lemma UsersAfterCalls(a: map<int, User>, b: map<int, User>, ts: seq<Target>, uid: int)
    requires UsersFlipped(a, b, ts)
    requires uid in a
    requires Count(ts, UserT(uid)) == 1
    requires forall id :: id != uid ==> Count(ts, UserT(id)) == 0
    ensures b == a[uid := a[uid].(isActive := Flip(a[uid].isActive))]
  {
    forall id | id in a
      ensures b[id] == if id == uid then a[id].(isActive := Flip(a[id].isActive)) else a[id]
    {
      assert Count(ts, UserT(id)) == if id == uid then 1 else 0;
    }
  }

  /** Running two call sequences one after the other adds up their hits. */
  lemma FlippedCompose(s: Store, mid: Store, r: Store, xs: seq<Target>, ys: seq<Target>)
    requires FlippedPerCalls(s, mid, xs)
    requires FlippedPerCalls(mid, r, ys)
    ensures FlippedPerCalls(s, r, xs + ys)
  {
    UsersCompose(s.users, mid.users, r.users, xs, ys);
    VehiclesCompose(s.vehicles, mid.vehicles, r.vehicles, xs, ys);
    EventsCompose(s.events, mid.events, r.events, xs, ys);
    EventVehiclesCompose(s.eventVehicles, mid.eventVehicles, r.eventVehicles, xs, ys);
  }

  lemma UsersCompose(a: map<int, User>, m: map<int, User>, b: map<int, User>, xs: seq<Target>, ys: seq<Target>)
    requires UsersFlipped(a, m, xs) && UsersFlipped(m, b, ys)
    ensures UsersFlipped(a, b, xs + ys)
  {
    CountAppend(xs, ys);
    forall id | id in a
      ensures b[id] == a[id].(isActive := FlipTimes(a[id].isActive, Count(xs + ys, UserT(id))))
    {
      FlipTimesCompose(a[id].isActive, Count(xs, UserT(id)), Count(ys, UserT(id)));
    }
  }

  lemma VehiclesCompose(a: map<string, Vehicle>, m: map<string, Vehicle>, b: map<string, Vehicle>,
                        xs: seq<Target>, ys: seq<Target>)
    requires VehiclesFlipped(a, m, xs) && VehiclesFlipped(m, b, ys)
    ensures VehiclesFlipped(a, b, xs + ys)
  {
    CountAppend(xs, ys);
    forall p | p in a
      ensures b[p] == a[p].(isActive := FlipTimes(a[p].isActive, Count(xs + ys, VehicleT(p))))
    {
      FlipTimesCompose(a[p].isActive, Count(xs, VehicleT(p)), Count(ys, VehicleT(p)));
    }
  }

  lemma EventsCompose(a: map<int, Event>, m: map<int, Event>, b: map<int, Event>, xs: seq<Target>, ys: seq<Target>)
    requires EventsFlipped(a, m, xs) && EventsFlipped(m, b, ys)
    ensures EventsFlipped(a, b, xs + ys)
  {
    CountAppend(xs, ys);
    forall e | e in a
      ensures b[e] == a[e].(isActive := FlipTimes(a[e].isActive, Count(xs + ys, EventT(e))))
    {
      FlipTimesCompose(a[e].isActive, Count(xs, EventT(e)), Count(ys, EventT(e)));
    }
  }

  lemma EventVehiclesCompose(a: map<int, EventVehicle>, m: map<int, EventVehicle>, b: map<int, EventVehicle>,
                             xs: seq<Target>, ys: seq<Target>)
    requires EventVehiclesFlipped(a, m, xs) && EventVehiclesFlipped(m, b, ys)
    ensures EventVehiclesFlipped(a, b, xs + ys)
  {
    CountAppend(xs, ys);
    forall ev | ev in a
      ensures b[ev] == a[ev].(isActive := FlipTimes(a[ev].isActive, Count(xs + ys, EventVehicleT(ev))))
    {
      FlipTimesCompose(a[ev].isActive, Count(xs, EventVehicleT(ev)), Count(ys, EventVehicleT(ev)));
    }
  }

  /** One "set Inactive" call, the step the cascades' comments describe. */
  function DeactivateOne(s: Store, t: Target): (r: Store)
    ensures DeactivatedPerTargets(s, r, [t])
  {
    match t
    case UserT(id) =>
      if id in s.users then s.(users := s.users[id := s.users[id].(isActive := Inactive)]) else s
    case VehicleT(p) =>
      if p in s.vehicles then s.(vehicles := s.vehicles[p := s.vehicles[p].(isActive := Inactive)]) else s
    case EventT(e) =>
      if e in s.events then s.(events := s.events[e := s.events[e].(isActive := Inactive)]) else s
    case EventVehicleT(ev) =>
      if ev in s.eventVehicles then s.(eventVehicles := s.eventVehicles[ev := s.eventVehicles[ev].(isActive := Inactive)])
      else s
  }

  /** Every row addressed by `ts` is Inactive, every other row is kept, and
      nothing but flags changes. */
  predicate DeactivatedPerTargets(s: Store, r: Store, ts: seq<Target>) {
    && r.users.Keys == s.users.Keys
    && r.vehicles.Keys == s.vehicles.Keys
    && r.events.Keys == s.events.Keys
    && r.eventVehicles.Keys == s.eventVehicles.Keys
    && (forall id :: id in s.users ==>
          r.users[id] == s.users[id].(isActive := if UserT(id) in ts then Inactive else s.users[id].isActive))
    && (forall p :: p in s.vehicles ==>
          r.vehicles[p] == s.vehicles[p].(isActive := if VehicleT(p) in ts then Inactive else s.vehicles[p].isActive))
    && (forall e :: e in s.events ==>
          r.events[e] == s.events[e].(isActive := if EventT(e) in ts then Inactive else s.events[e].isActive))
    && (forall ev :: ev in s.eventVehicles ==>
          r.eventVehicles[ev] == s.eventVehicles[ev].(isActive :=
            if EventVehicleT(ev) in ts then Inactive else s.eventVehicles[ev].isActive))
  }

  /** The "set Inactive" calls `ts`, one after the other. Unlike toggling,
      a row addressed any number of times ends Inactive. */
  function DeactivateAll(s: Store, ts: seq<Target>): (r: Store)
    ensures DeactivatedPerTargets(s, r, ts)
    decreases |ts|
  {
    if ts == [] then s
    else
      var mid := DeactivateOne(s, ts[0]);
      var r := DeactivateAll(mid, ts[1..]);
      assert ts == [ts[0]] + ts[1..];
      assert forall u :: u in ts <==> u == ts[0] || u in ts[1..];
      r
  }

  /** One toggle call per event-vehicle id, in list order. */
  function EventVehicleCalls(ids: seq<int>): (ts: seq<Target>)
    ensures |ts| == |ids|
    ensures forall ev :: Count(ts, EventVehicleT(ev)) == Count(ids, ev)
    ensures forall t: Target :: !t.EventVehicleT? ==> Count(ts, t) == 0
    ensures forall k :: 0 <= k < |ts| ==> ts[k].EventVehicleT?
    ensures forall ev :: ev in ids ==> EventVehicleT(ev) in ts
  {
    if ids == [] then []
    else
      var rest := EventVehicleCalls(ids[1..]);
      assert ids == [ids[0]] + ids[1..];
      CountAppend([ids[0]], ids[1..]);
      CountAppend([EventVehicleT(ids[0])], rest);
      [EventVehicleT(ids[0])] + rest
  }

  /** The calls the vehicle cascade issues for one plate: every
      event-vehicle the vehicle is linked to, then the vehicle itself. */
  function VehicleBlock(links: Links, plate: string): seq<Target> {
    EventVehicleCalls(links.VehicleEventVehiclesOf(plate)) + [VehicleT(plate)]
  }

  /** The calls the event cascade issues for one event: every event-vehicle
      of the event, then the event itself. */
  function EventBlock(links: Links, eventId: int): seq<Target> {
    EventVehicleCalls(links.EventEventVehiclesOf(eventId)) + [EventT(eventId)]
  }

  /** In the call sequence `ts`, every vehicle (event) toggle comes after a
      toggle of each event-vehicle the links list for that vehicle (event). */
  ghost predicate DependentsFirst(links: Links, ts: seq<Target>) {
    forall k :: 0 <= k < |ts| ==>
      && (ts[k].VehicleT? ==>
            forall ev :: ev in links.VehicleEventVehiclesOf(ts[k].plate) ==> EventVehicleT(ev) in ts[..k])
      && (ts[k].EventT? ==>
            forall ev :: ev in links.EventEventVehiclesOf(ts[k].eventId) ==> EventVehicleT(ev) in ts[..k])
  }

  lemma BlocksPutDependentsFirst(links: Links, plate: string, eventId: int)
    ensures DependentsFirst(links, VehicleBlock(links, plate))
    ensures DependentsFirst(links, EventBlock(links, eventId))
  {
    var vb := VehicleBlock(links, plate);
    assert vb[..|vb| - 1] == EventVehicleCalls(links.VehicleEventVehiclesOf(plate));
    var eb := EventBlock(links, eventId);
    assert eb[..|eb| - 1] == EventVehicleCalls(links.EventEventVehiclesOf(eventId));
  }

  /** Dependents-first is kept by concatenation. */
  lemma {:induction false} DependentsFirstAppend(links: Links, xs: seq<Target>, ys: seq<Target>)
    requires DependentsFirst(links, xs) && DependentsFirst(links, ys)
    ensures DependentsFirst(links, xs + ys)
  {
    var ts := xs + ys;
    forall k | |xs| <= k < |ts|
      ensures ts[k] == ys[k - |xs|]
      ensures forall t :: t in ys[..k - |xs|] ==> t in ts[..k]
    {
      assert ts[..k] == xs + ys[..k - |xs|];
    }
    forall k | 0 <= k < |xs|
      ensures ts[k] == xs[k] && ts[..k] == xs[..k]
    {
    }
  }
}
