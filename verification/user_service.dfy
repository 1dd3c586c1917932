/** The user service: signup, activation, profile updates, password
    recovery, and the user-rooted cascading status toggle
    (Application/Services/UserService.cs).

Every operation is a pure function from the store before the call to the
store after it, with the service's answer alongside. A thrown
`ArgumentNullException` becomes `Err(UserNotFound)`. Email sending is left
out; the random generator becomes the `draws` it would answer.
 */
module UserService {
  import opened Wrappers
  import opened Text
  import opened Entities
  import opened StatusToggle

  /** The exception the service throws for an unknown user id. */
  datatype UserError = UserNotFound

  // ---------------------------------------------------------------------
  // Recovery codes

  const CodeAlphabet: string := "ABCDEFGHIJKLMNOPQRSTUVWXYZ0123456789"
  const CodeLength: nat := 6

  /** A code the generator can produce: six characters of the alphabet. */
  predicate IsRecoveryCode(code: string) {
    |code| == CodeLength && forall i :: 0 <= i < |code| ==> code[i] in CodeAlphabet
  }

  /** What `Random.Next(36)` can answer, once per character of the code. */
  predicate ValidDraws(draws: seq<nat>) {
    |draws| == CodeLength && forall i :: 0 <= i < |draws| ==> draws[i] < |CodeAlphabet|
  }

  /** The code built from the generator's answers. */
  function GenerateRecoveryCode(draws: seq<nat>): (code: string)
    requires ValidDraws(draws)
    ensures IsRecoveryCode(code)
    ensures forall i :: 0 <= i < |code| ==> IsUpperAZ(code[i]) || IsAsciiDigit(code[i])
  {
    AlphabetIsUpperAndDigits();
    seq(CodeLength, i requires 0 <= i < CodeLength => CodeAlphabet[draws[i]])
  }

  /** The alphabet is exactly the upper-case ASCII letters and the digits. */
  lemma AlphabetIsUpperAndDigits()
    ensures forall c :: c in CodeAlphabet <==> IsUpperAZ(c) || IsAsciiDigit(c)
  {
  }

  /** Where `c` sits in `s`. */
  function IndexIn(s: string, c: char): (k: nat)
    requires c in s
    ensures k < |s| && s[k] == c
  {
    if s[0] == c then 0 else 1 + IndexIn(s[1..], c)
  }

  /** Every code of the right shape is produced by some answers of the
      generator: the model leaves no valid code out. */
  lemma EveryCodeCanBeDrawn(code: string)
    requires IsRecoveryCode(code)
    ensures exists draws :: ValidDraws(draws) && GenerateRecoveryCode(draws) == code
  {
    var draws := seq(CodeLength, i requires 0 <= i < CodeLength => IndexIn(CodeAlphabet, code[i]));
    assert ValidDraws(draws);
    assert GenerateRecoveryCode(draws) == code;
  }

  // ---------------------------------------------------------------------
  // Lookups. `ListAsync().FirstOrDefault(...)` and `GetUserByEmail` are
  // taken to scan the users in ascending id order.

  /** `m` is the smallest of `ids`. */
  predicate IsLeast(m: int, ids: set<int>) {
    m in ids && forall k :: k in ids ==> m <= k
  }

  lemma HasMember(ids: set<int>)
    requires ids != {}
    ensures exists x :: x in ids
  {
    if forall x :: x !in ids { assert false; }
  }

  lemma {:induction false} SmallestExists(ids: set<int>)
    requires ids != {}
    ensures exists m :: IsLeast(m, ids)
    decreases |ids|
  {
    HasMember(ids);
    var x :| x in ids;
    var rest := ids - {x};
    if ids == {x} {
      assert IsLeast(x, ids);
    } else {
      if rest == {} { assert false; }
      assert |rest| < |ids|;
      SmallestExists(rest);
      var m :| IsLeast(m, rest);
      var least := if x < m then x else m;
      forall k | k in ids ensures least <= k {
        if k != x { assert k in rest; }
      }
      assert IsLeast(least, ids);
    }
  }

  /** The first id of a scan in ascending order, if any. */
  function FirstOf(ids: set<int>): (r: Option<int>)
    ensures r.None? <==> ids == {}
    ensures r.Some? ==> IsLeast(r.value, ids)
  {
    if ids == {} then None
    else
      SmallestExists(ids);
      var m :| IsLeast(m, ids);
      Some(m)
  }

  predicate HoldsCode(u: User, email: string, code: string) {
    u.email == email && u.recoveryCode == Some(code)
  }

  /** The first user holding both this email and this recovery code. */
  function FindByEmailAndCode(s: Store, email: string, code: string): (r: Option<int>)
    ensures r.None? <==> forall id :: id in s.users ==> !HoldsCode(s.users[id], email, code)
    ensures r.Some? ==> r.value in s.users && HoldsCode(s.users[r.value], email, code)
    ensures r.Some? ==> forall id :: id in s.users && HoldsCode(s.users[id], email, code) ==> r.value <= id
  {
    var ids := set id | id in s.users && HoldsCode(s.users[id], email, code);
    assert forall id :: id in ids <==> id in s.users && HoldsCode(s.users[id], email, code);
    FirstOf(ids)
  }

  /** The first user with this email. */
  function FindByEmail(s: Store, email: string): (r: Option<int>)
    ensures r.None? <==> forall id :: id in s.users ==> s.users[id].email != email
    ensures r.Some? ==> r.value in s.users && s.users[r.value].email == email
    ensures r.Some? ==> forall id :: id in s.users && s.users[id].email == email ==> r.value <= id
  {
    var ids := set id | id in s.users && s.users[id].email == email;
    assert forall id :: id in ids <==> id in s.users && s.users[id].email == email;
    FirstOf(ids)
  }

  /** The lookup by email depends only on which ids hold which email. */
  lemma FindByEmailFrame(s: Store, t: Store, email: string)
    requires s.users.Keys == t.users.Keys
    requires forall id :: id in s.users ==> s.users[id].email == t.users[id].email
    ensures FindByEmail(s, email) == FindByEmail(t, email)
  {
    var a := set id | id in s.users && s.users[id].email == email;
    var b := set id | id in t.users && t.users[id].email == email;
    assert forall id :: id in a <==> id in b;
    assert a == b;
  }

  /** Only the row of user `id` may differ; the other tables are untouched. */
  predicate OnlyUserChanged(s: Store, r: Store, id: int) {
    && r.users.Keys == s.users.Keys
    && (forall k :: k in s.users && k != id ==> r.users[k] == s.users[k])
    && r.vehicles == s.vehicles
    && r.events == s.events
    && r.eventVehicles == s.eventVehicles
  }

  // ---------------------------------------------------------------------
  // Signup and activation

  datatype SignUpRequest = SignUpRequest(
    firstName: string,
    lastName: string,
    birthDate: string,
    dniNumber: string,
    email: Option<string>,
    password: string,
    city: int,
    province: int)

  /** The role a new row gets from the entity's defaults. The User entity
      is not part of this model; signup itself never sets a role. */
  const NewUserRole: Role := Customer

  /** `SignUpUser`: add an inactive user holding a fresh recovery code.
      `newId` is the identity the database assigns to the new row. */
  function SignUpUser(s: Store, req: SignUpRequest, newId: int, draws: seq<nat>): (r: Store)
    requires newId !in s.users
    requires ValidDraws(draws)
    ensures r.users.Keys == s.users.Keys + {newId}
    ensures forall id :: id in s.users ==> r.users[id] == s.users[id]
    ensures r.vehicles == s.vehicles && r.events == s.events && r.eventVehicles == s.eventVehicles
    ensures r.users[newId].isActive == Inactive
    ensures r.users[newId].recoveryCode.Some? && IsRecoveryCode(r.users[newId].recoveryCode.value)
    ensures r.users[newId].recoveryCode == Some(GenerateRecoveryCode(draws))
    ensures !r.users[newId].mustChangePassword
    ensures req.email.None? ==> r.users[newId].email == ""
    ensures req.email.Some? ==> r.users[newId].email == req.email.value
    ensures r.users[newId].password == req.password
    ensures r.users[newId] == User(
      req.firstName, req.lastName, req.birthDate, req.dniNumber, req.email.GetOr(""), req.password,
      req.city, req.province, NewUserRole, Inactive, Some(GenerateRecoveryCode(draws)), false)
  {
    var user := User(
      req.firstName, req.lastName, req.birthDate, req.dniNumber,
      req.email.GetOr(""), req.password, req.city, req.province,
      NewUserRole, Inactive, Some(GenerateRecoveryCode(draws)), false);
    s.(users := s.users[newId := user])
  }

  /** `ActivateAccountAsync`: the first user holding this email and code is
      activated and its code consumed, unless it is already Active. */
  function ActivateAccount(s: Store, email: string, code: string): (r: (Store, bool))
    ensures var found := FindByEmailAndCode(s, email, code);
      r.1 <==> found.Some? && s.users[found.value].isActive == Inactive
    ensures !r.1 ==> r.0 == s
    ensures r.1 ==> var id := FindByEmailAndCode(s, email, code).value;
      && OnlyUserChanged(s, r.0, id)
      && r.0.users[id] == s.users[id].(isActive := Active, recoveryCode := None)
  {
    match FindByEmailAndCode(s, email, code)
    case None => (s, false)
    case Some(id) =>
      if s.users[id].isActive == Active then (s, false)
      else (s.(users := s.users[id := s.users[id].(isActive := Active, recoveryCode := None)]), true)
  }

  /** A successful activation needed a user that was Inactive and held
      both the email and the code; afterwards that user is Active and holds
      no code. */
  lemma ActivationNeedsMatchingInactiveUser(s: Store, email: string, code: string)
    requires ActivateAccount(s, email, code).1
    ensures exists id ::
      && id in s.users && HoldsCode(s.users[id], email, code) && s.users[id].isActive == Inactive
      && ActivateAccount(s, email, code).0.users[id].isActive == Active
      && ActivateAccount(s, email, code).0.users[id].recoveryCode.None?
  {
    var id := FindByEmailAndCode(s, email, code).value;
    assert id in s.users && HoldsCode(s.users[id], email, code);
  }

  /** Replaying an activation fails once it has succeeded, provided no
      second user holds the same email and code. */
  lemma ActivationCannotBeReplayed(s: Store, email: string, code: string)
    requires ActivateAccount(s, email, code).1
    requires forall i, j ::
      i in s.users && j in s.users && HoldsCode(s.users[i], email, code) && HoldsCode(s.users[j], email, code)
      ==> i == j
    ensures !ActivateAccount(ActivateAccount(s, email, code).0, email, code).1
  {
    var id := FindByEmailAndCode(s, email, code).value;
    var t := ActivateAccount(s, email, code).0;
    assert forall k :: k in t.users && k != id ==> t.users[k] == s.users[k];
  }

  /** Without any condition on the store, a replayed activation never
      activates the same user again: if it succeeds at all, it is another
      user holding the same email and code. */
  lemma ActivationReplayMovesOn(s: Store, email: string, code: string)
    requires ActivateAccount(s, email, code).1
    ensures var id := FindByEmailAndCode(s, email, code).value;
      var t := ActivateAccount(s, email, code).0;
      ActivateAccount(t, email, code).1 ==>
        && FindByEmailAndCode(t, email, code).value != id
        && id in s.users && FindByEmailAndCode(t, email, code).value in s.users
        && HoldsCode(s.users[FindByEmailAndCode(t, email, code).value], email, code)
  {
    var id := FindByEmailAndCode(s, email, code).value;
    var t := ActivateAccount(s, email, code).0;
    if ActivateAccount(t, email, code).1 {
      var id2 := FindByEmailAndCode(t, email, code).value;
      assert !HoldsCode(t.users[id], email, code);
      assert t.users[id2] == s.users[id2];
    }
  }

  /** Signing up and then activating with the emailed code succeeds, when no
      earlier user already holds that email and code. */
  lemma SignUpThenActivate(s: Store, req: SignUpRequest, newId: int, draws: seq<nat>)
    requires newId !in s.users
    requires ValidDraws(draws)
    requires forall id :: id in s.users ==>
      !HoldsCode(s.users[id], req.email.GetOr(""), GenerateRecoveryCode(draws))
    ensures var t := SignUpUser(s, req, newId, draws);
      var r := ActivateAccount(t, req.email.GetOr(""), GenerateRecoveryCode(draws));
      r.1 && r.0.users[newId].isActive == Active && r.0.users[newId].recoveryCode.None?
  {
    var t := SignUpUser(s, req, newId, draws);
    var email, code := req.email.GetOr(""), GenerateRecoveryCode(draws);
    assert HoldsCode(t.users[newId], email, code);
    var found := FindByEmailAndCode(t, email, code);
    assert found == Some(newId);
  }

  // ---------------------------------------------------------------------
  // Profile updates

  datatype UserUpdateRequest = UserUpdateRequest(
    firstName: string,
    lastName: string,
    dniNumber: string,
    email: Option<string>,
    password: Option<string>,
    city: int,
    province: int)

  predicate IsNullOrEmpty(v: Option<string>) {
    v.None? || v == Some("")
  }

  /** The fields that record where an account is in its lifecycle. */
  predicate SameAccountState(u: User, v: User) {
    && v.isActive == u.isActive
    && v.recoveryCode == u.recoveryCode
    && v.mustChangePassword == u.mustChangePassword
  }

  /** `UpdateUser(request, id)`: overwrite the profile, keeping the old email
      when none is given and the old password when none or "" is given. */
  function UpdateUser(s: Store, req: UserUpdateRequest, id: int): (r: Result<Store, UserError>)
    ensures r.Err? <==> id !in s.users
    ensures r.Ok? ==> OnlyUserChanged(s, r.value, id)
    ensures r.Ok? ==> var u, v := s.users[id], r.value.users[id];
      && (req.email.None? ==> v.email == u.email)
      && (req.email.Some? ==> v.email == req.email.value)
      && (IsNullOrEmpty(req.password) ==> v.password == u.password)
      && (!IsNullOrEmpty(req.password) ==> v.password == req.password.value)
      && v.firstName == req.firstName && v.lastName == req.lastName
      && v.identificationNumber == req.dniNumber
      && v.cityId == req.city && v.provinceId == req.province
      && v.birthDate == u.birthDate && v.role == u.role
      && SameAccountState(u, v)
  {
    if id !in s.users then Err(UserNotFound)
    else
      var u := s.users[id];
      var v := u.(
        firstName := req.firstName,
        lastName := req.lastName,
        identificationNumber := req.dniNumber,
        email := req.email.GetOr(u.email),
        password := if IsNullOrEmpty(req.password) then u.password else req.password.value,
        cityId := req.city,
        provinceId := req.province);
      Ok(s.(users := s.users[id := v]))
  }

  /** Applying the same profile update twice is applying it once. */
  lemma UpdateUserIdempotent(s: Store, req: UserUpdateRequest, id: int)
    requires UpdateUser(s, req, id).Ok?
    ensures UpdateUser(UpdateUser(s, req, id).value, req, id) == UpdateUser(s, req, id)
  {
    var t := UpdateUser(s, req, id).value;
    var t2 := UpdateUser(t, req, id).value;
    assert t2.users[id] == t.users[id];
    assert t2.users == t.users;
  }

  datatype RoleChangeRequest = RoleChangeRequest(userId: int, newRole: Role)

  /** `ChangeUserRole`: only the role of the named user changes. */
  function ChangeUserRole(s: Store, req: RoleChangeRequest): (r: Result<Store, UserError>)
    ensures r.Err? <==> req.userId !in s.users
    ensures r.Ok? ==> OnlyUserChanged(s, r.value, req.userId)
    ensures r.Ok? ==> r.value.users[req.userId].role == req.newRole
    ensures r.Ok? ==> r.value.users[req.userId].(role := s.users[req.userId].role) == s.users[req.userId]
  {
    if req.userId !in s.users then Err(UserNotFound)
    else Ok(s.(users := s.users[req.userId := s.users[req.userId].(role := req.newRole)]))
  }

  /** `DesactiveUser`: mark the user Inactive, with no cascade to its
      vehicles or events. */
  function DesactiveUser(s: Store, id: int): (r: Result<Store, UserError>)
    ensures r.Err? <==> id !in s.users
    ensures r.Ok? ==> OnlyUserChanged(s, r.value, id)
    ensures r.Ok? ==> r.value.users[id].isActive == Inactive
    ensures r.Ok? ==> r.value.users[id].(isActive := s.users[id].isActive) == s.users[id]
  {
    if id !in s.users then Err(UserNotFound)
    else Ok(s.(users := s.users[id := s.users[id].(isActive := Inactive)]))
  }

  /** Deactivating twice is deactivating once. */
  lemma DesactiveUserIdempotent(s: Store, id: int)
    requires DesactiveUser(s, id).Ok?
    ensures DesactiveUser(DesactiveUser(s, id).value, id) == DesactiveUser(s, id)
  {
    var t := DesactiveUser(s, id).value;
    assert t.users[id := t.users[id].(isActive := Inactive)] == t.users;
  }

  datatype AdminUserUpdateRequest = AdminUserUpdateRequest(
    firstName: string,
    lastName: string,
    birthDate: string,
    identificationNumber: string,
    email: string,
    cityId: int,
    provinceId: int,
    role: Role,
    password: Option<string>)

  /** `AdminUpdateUserAsync`: overwrite the profile and role; the request's
      password is ignored, since the block that would use it is disabled. */
  function AdminUpdateUser(s: Store, id: int, req: AdminUserUpdateRequest): (r: (Store, bool))
    ensures r.1 <==> id in s.users
    ensures !r.1 ==> r.0 == s
    ensures r.1 ==> OnlyUserChanged(s, r.0, id)
    ensures r.1 ==> var u, v := s.users[id], r.0.users[id];
      && v.password == u.password
      && SameAccountState(u, v)
      && v.firstName == req.firstName && v.lastName == req.lastName
      && v.birthDate == req.birthDate && v.identificationNumber == req.identificationNumber
      && v.email == req.email && v.cityId == req.cityId && v.provinceId == req.provinceId
      && v.role == req.role
  {
    if id !in s.users then (s, false)
    else
      var v := s.users[id].(
        firstName := req.firstName,
        lastName := req.lastName,
        birthDate := req.birthDate,
        identificationNumber := req.identificationNumber,
        email := req.email,
        cityId := req.cityId,
        provinceId := req.provinceId,
        role := req.role);
      (s.(users := s.users[id := v]), true)
  }

  // ---------------------------------------------------------------------
  // Password recovery

  /** `GenerateRecoveryCodeAndSendEmailAsync`: the first user with this
      email gets a fresh code and must change its password. */
  function GenerateRecoveryCodeAndSendEmail(s: Store, email: string, draws: seq<nat>): (r: (Store, bool))
    requires ValidDraws(draws)
    ensures r.1 <==> exists id :: id in s.users && s.users[id].email == email
    ensures !r.1 ==> r.0 == s
    ensures r.1 ==> var id := FindByEmail(s, email).value;
      && OnlyUserChanged(s, r.0, id)
      && r.0.users[id].recoveryCode == Some(GenerateRecoveryCode(draws))
      && r.0.users[id].mustChangePassword
      && r.0.users[id].(recoveryCode := s.users[id].recoveryCode,
                        mustChangePassword := s.users[id].mustChangePassword) == s.users[id]
  {
    match FindByEmail(s, email)
    case None => (s, false)
    case Some(id) =>
      (s.(users := s.users[id := s.users[id].(recoveryCode := Some(GenerateRecoveryCode(draws)),
                                              mustChangePassword := true)]), true)
  }

  /** `ResetPasswordWithRecoveryCodeAsync`: succeeds only for an existing
      user holding this code and flagged to change its password; the code
      and the flag are consumed. */
  function ResetPasswordWithRecoveryCode(s: Store, email: string, code: string, newPassword: string): (r: (Store, bool))
    ensures r.1 <==> var f := FindByEmail(s, email);
      f.Some? && s.users[f.value].recoveryCode == Some(code) && s.users[f.value].mustChangePassword
    ensures !r.1 ==> r.0 == s
    ensures r.1 ==> var id := FindByEmail(s, email).value;
      && OnlyUserChanged(s, r.0, id)
      && r.0.users[id].password == newPassword
      && r.0.users[id].recoveryCode.None?
      && !r.0.users[id].mustChangePassword
      && r.0.users[id].isActive == s.users[id].isActive
      && r.0.users[id].email == s.users[id].email
    ensures r.1 ==> var id := FindByEmail(s, email).value;
      r.0.users[id] == s.users[id].(password := newPassword, recoveryCode := None, mustChangePassword := false)
  {
    match FindByEmail(s, email)
    case None => (s, false)
    case Some(id) =>
      var u := s.users[id];
      if u.recoveryCode != Some(code) || !u.mustChangePassword then (s, false)
      else (s.(users := s.users[id := u.(password := newPassword, recoveryCode := None, mustChangePassword := false)]), true)
  }

  /** A reset cannot be replayed: the code it used is gone. */
  lemma ResetCannotBeReplayed(s: Store, email: string, code: string, pw: string, pw2: string)
    requires ResetPasswordWithRecoveryCode(s, email, code, pw).1
    ensures !ResetPasswordWithRecoveryCode(ResetPasswordWithRecoveryCode(s, email, code, pw).0, email, code, pw2).1
  {
    var t := ResetPasswordWithRecoveryCode(s, email, code, pw).0;
    FindByEmailFrame(s, t, email);
  }

  /** Requesting recovery and then resetting with the emailed code succeeds
      and installs the new password. */
  lemma RecoveryThenReset(s: Store, email: string, draws: seq<nat>, pw: string)
    requires ValidDraws(draws)
    requires GenerateRecoveryCodeAndSendEmail(s, email, draws).1
    ensures var t := GenerateRecoveryCodeAndSendEmail(s, email, draws).0;
      var r := ResetPasswordWithRecoveryCode(t, email, GenerateRecoveryCode(draws), pw);
      r.1 && r.0.users[FindByEmail(s, email).value].password == pw
  {
    var t := GenerateRecoveryCodeAndSendEmail(s, email, draws).0;
    FindByEmailFrame(s, t, email);
  }

  // ---------------------------------------------------------------------
  // Cascading status toggle

  /** How often event-vehicle `ev` is listed under the vehicles `plates`. */
  function VehicleSideHits(links: Links, plates: seq<string>, ev: int): nat {
    if plates == [] then 0
    else Count(links.VehicleEventVehiclesOf(plates[0]), ev) + VehicleSideHits(links, plates[1..], ev)
  }

  /** How often event-vehicle `ev` is listed under the events `eventIds`. */
  function EventSideHits(links: Links, eventIds: seq<int>, ev: int): nat {
    if eventIds == [] then 0
    else Count(links.EventEventVehiclesOf(eventIds[0]), ev) + EventSideHits(links, eventIds[1..], ev)
  }

  /** The toggles of the vehicle loop: for each plate, its event-vehicles
      and then the vehicle. */
  function VehicleCascade(links: Links, plates: seq<string>): seq<Target> {
    if plates == [] then []
    else VehicleBlock(links, plates[0]) + VehicleCascade(links, plates[1..])
  }

  /** The toggles of the event loop: for each event, its event-vehicles and
      then the event. */
  function EventCascade(links: Links, eventIds: seq<int>): seq<Target> {
    if eventIds == [] then []
    else EventBlock(links, eventIds[0]) + EventCascade(links, eventIds[1..])
  }

  /** The vehicle loop addresses vehicle `p` once per listing of `p`. */
  lemma {:induction false} VehicleCascadeCountsVehicle(links: Links, plates: seq<string>, p: string)
    ensures Count(VehicleCascade(links, plates), VehicleT(p)) == Count(plates, p)
  {
    if plates != [] {
      var p0 := plates[0];
      var calls := EventVehicleCalls(links.VehicleEventVehiclesOf(p0));
      var rest := VehicleCascade(links, plates[1..]);
      assert VehicleCascade(links, plates) == calls + [VehicleT(p0)] + rest;
      VehicleCascadeCountsVehicle(links, plates[1..], p);
      assert plates == [p0] + plates[1..];
      CountAppendAt(calls + [VehicleT(p0)], rest, VehicleT(p));
      CountAppendAt(calls, [VehicleT(p0)], VehicleT(p));
      CountAppendAt([p0], plates[1..], p);
    }
  }

  /** The vehicle loop addresses event-vehicle `ev` once per listing of
      `ev` under the plates it visits. */
  lemma {:induction false} VehicleCascadeCountsEventVehicle(links: Links, plates: seq<string>, ev: int)
    ensures Count(VehicleCascade(links, plates), EventVehicleT(ev)) == VehicleSideHits(links, plates, ev)
  {
    if plates != [] {
      var p0 := plates[0];
      var calls := EventVehicleCalls(links.VehicleEventVehiclesOf(p0));
      var rest := VehicleCascade(links, plates[1..]);
      assert VehicleCascade(links, plates) == calls + [VehicleT(p0)] + rest;
      VehicleCascadeCountsEventVehicle(links, plates[1..], ev);
      CountAppendAt(calls + [VehicleT(p0)], rest, EventVehicleT(ev));
      CountAppendAt(calls, [VehicleT(p0)], EventVehicleT(ev));
    }
  }

  /** The vehicle loop addresses no user and no event. */
  lemma {:induction false} VehicleCascadeSkips(links: Links, plates: seq<string>, t: Target)
    requires t.UserT? || t.EventT?
    ensures Count(VehicleCascade(links, plates), t) == 0
  {
    if plates != [] {
      var p0 := plates[0];
      var calls := EventVehicleCalls(links.VehicleEventVehiclesOf(p0));
      var rest := VehicleCascade(links, plates[1..]);
      assert VehicleCascade(links, plates) == calls + [VehicleT(p0)] + rest;
      VehicleCascadeSkips(links, plates[1..], t);
      CountAppendAt(calls + [VehicleT(p0)], rest, t);
      CountAppendAt(calls, [VehicleT(p0)], t);
    }
  }

  /** The vehicle loop toggles only vehicles and event-vehicles, and each
      vehicle after its event-vehicles. */
  lemma {:induction false} VehicleCascadeShape(links: Links, plates: seq<string>)
    ensures var ts := VehicleCascade(links, plates);
      && (forall k :: 0 <= k < |ts| ==> ts[k].VehicleT? || ts[k].EventVehicleT?)
      && DependentsFirst(links, ts)
  {
    if plates != [] {
      var head := VehicleBlock(links, plates[0]);
      var rest := VehicleCascade(links, plates[1..]);
      VehicleCascadeShape(links, plates[1..]);
      BlocksPutDependentsFirst(links, plates[0], 0);
      DependentsFirstAppend(links, head, rest);
    }
  }

  /** The event loop addresses event `e` once per listing of `e`. */
  lemma {:induction false} EventCascadeCountsEvent(links: Links, eventIds: seq<int>, e: int)
    ensures Count(EventCascade(links, eventIds), EventT(e)) == Count(eventIds, e)
  {
    if eventIds != [] {
      var e0 := eventIds[0];
      var calls := EventVehicleCalls(links.EventEventVehiclesOf(e0));
      var rest := EventCascade(links, eventIds[1..]);
      assert EventCascade(links, eventIds) == calls + [EventT(e0)] + rest;
      EventCascadeCountsEvent(links, eventIds[1..], e);
      assert eventIds == [e0] + eventIds[1..];
      CountAppendAt(calls + [EventT(e0)], rest, EventT(e));
      CountAppendAt(calls, [EventT(e0)], EventT(e));
      CountAppendAt([e0], eventIds[1..], e);
    }
  }

  /** The event loop addresses event-vehicle `ev` once per listing of `ev`
      under the events it visits. */
  lemma {:induction false} EventCascadeCountsEventVehicle(links: Links, eventIds: seq<int>, ev: int)
    ensures Count(EventCascade(links, eventIds), EventVehicleT(ev)) == EventSideHits(links, eventIds, ev)
  {
    if eventIds != [] {
      var e0 := eventIds[0];
      var calls := EventVehicleCalls(links.EventEventVehiclesOf(e0));
      var rest := EventCascade(links, eventIds[1..]);
      assert EventCascade(links, eventIds) == calls + [EventT(e0)] + rest;
      EventCascadeCountsEventVehicle(links, eventIds[1..], ev);
      CountAppendAt(calls + [EventT(e0)], rest, EventVehicleT(ev));
      CountAppendAt(calls, [EventT(e0)], EventVehicleT(ev));
    }
  }

  /** The event loop addresses no user and no vehicle. */
  lemma {:induction false} EventCascadeSkips(links: Links, eventIds: seq<int>, t: Target)
    requires t.UserT? || t.VehicleT?
    ensures Count(EventCascade(links, eventIds), t) == 0
  {
    if eventIds != [] {
      var e0 := eventIds[0];
      var calls := EventVehicleCalls(links.EventEventVehiclesOf(e0));
      var rest := EventCascade(links, eventIds[1..]);
      assert EventCascade(links, eventIds) == calls + [EventT(e0)] + rest;
      EventCascadeSkips(links, eventIds[1..], t);
      CountAppendAt(calls + [EventT(e0)], rest, t);
      CountAppendAt(calls, [EventT(e0)], t);
    }
  }

  /** The event loop toggles only events and event-vehicles, and each event
      after its event-vehicles. */
  lemma {:induction false} EventCascadeShape(links: Links, eventIds: seq<int>)
    ensures var ts := EventCascade(links, eventIds);
      && (forall k :: 0 <= k < |ts| ==> ts[k].EventT? || ts[k].EventVehicleT?)
      && DependentsFirst(links, ts)
  {
    if eventIds != [] {
      var head := EventBlock(links, eventIds[0]);
      var rest := EventCascade(links, eventIds[1..]);
      EventCascadeShape(links, eventIds[1..]);
      BlocksPutDependentsFirst(links, "", eventIds[0]);
      DependentsFirstAppend(links, head, rest);
    }
  }

  /** The repository calls `ToggleStatusAsync(uid)` issues, in order: when
      the user is Active, the vehicle loop, the event loop and then the
      user; otherwise the user alone. */
  function UserToggleCalls(s: Store, links: Links, uid: int): (r: seq<Target>)
    ensures |r| > 0 && r[|r| - 1] == UserT(uid)
    ensures UserState(s, uid) != Some(Active) ==> r == [UserT(uid)]
  {
    if UserState(s, uid) == Some(Active) then
      VehicleCascade(links, links.PlatesOf(uid)) + EventCascade(links, links.EventsOf(uid)) + [UserT(uid)]
    else [UserT(uid)]
  }

  /** `ToggleStatusAsync(userId)`: the repository toggles issued by
      `UserToggleCalls`, answering whether the user exists. No row is added
      or removed. */
  function ToggleStatus(s: Store, links: Links, uid: int): (r: (Store, bool))
    ensures r.1 <==> uid in s.users
    ensures r.0.users.Keys == s.users.Keys && r.0.vehicles.Keys == s.vehicles.Keys
    ensures r.0.events.Keys == s.events.Keys && r.0.eventVehicles.Keys == s.eventVehicles.Keys
  {
    (ToggleAll(s, UserToggleCalls(s, links, uid)), uid in s.users)
  }

  /** How often the calls of an Active user's toggle address `t`: the
      vehicle loop's count plus the event loop's count plus one for the
      user itself. */
  lemma UserToggleCount(s: Store, links: Links, uid: int, t: Target)
    requires UserState(s, uid) == Some(Active)
    ensures Count(UserToggleCalls(s, links, uid), t) ==
      Count(VehicleCascade(links, links.PlatesOf(uid)), t) + Count(EventCascade(links, links.EventsOf(uid)), t)
        + (if t == UserT(uid) then 1 else 0)
  {
    var vc := VehicleCascade(links, links.PlatesOf(uid));
    var ec := EventCascade(links, links.EventsOf(uid));
    CountAppendAt(vc + ec, [UserT(uid)], t);
    CountAppendAt(vc, ec, t);
  }

  /** The calls of `ToggleStatusAsync` address the user once and no other
      user. */
  lemma UserToggleCountsUsers(s: Store, links: Links, uid: int)
    ensures var ts := UserToggleCalls(s, links, uid);
      && Count(ts, UserT(uid)) == 1
      && (forall id :: id != uid ==> Count(ts, UserT(id)) == 0)
  {
    var ts := UserToggleCalls(s, links, uid);
    forall id
      ensures Count(ts, UserT(id)) == if id == uid then 1 else 0
    {
      if UserState(s, uid) == Some(Active) {
        UserToggleCount(s, links, uid, UserT(id));
        VehicleCascadeSkips(links, links.PlatesOf(uid), UserT(id));
        EventCascadeSkips(links, links.EventsOf(uid), UserT(id));
      }
    }
  }

  /** A user that is not Active is the only row toggled: it becomes Active
      and nothing else changes (and nothing at all for an unknown id). */
  lemma ToggleStatusReactivates(s: Store, links: Links, uid: int)
    requires UserState(s, uid) != Some(Active)
    ensures var r := ToggleStatus(s, links, uid).0;
      && r.vehicles == s.vehicles && r.events == s.events && r.eventVehicles == s.eventVehicles
      && (uid !in s.users ==> r.users == s.users)
      && (uid in s.users ==> r.users == s.users[uid := s.users[uid].(isActive := Active)])
  {
    assert UserToggleCalls(s, links, uid) == [UserT(uid)];
    ToggleAllOne(s, UserT(uid));
  }

  /** An Active user ends Inactive; no other user changes. */
  lemma ToggleStatusDeactivatesUser(s: Store, links: Links, uid: int)
    requires UserState(s, uid) == Some(Active)
    ensures ToggleStatus(s, links, uid).0.users == s.users[uid := s.users[uid].(isActive := Inactive)]
  {
    UserToggleCountsUsers(s, links, uid);
    var ts := UserToggleCalls(s, links, uid);
    UsersAfterCalls(s.users, ToggleAll(s, ts).users, ts, uid);
  }

  /** Deactivating an Active user flips vehicle `p` once per listing of `p`
      under the user. */
  lemma ToggleStatusCascadesVehicle(s: Store, links: Links, uid: int, p: string)
    requires UserState(s, uid) == Some(Active)
    requires p in s.vehicles
    ensures ToggleStatus(s, links, uid).0.vehicles[p] ==
      s.vehicles[p].(isActive := FlipTimes(s.vehicles[p].isActive, Count(links.PlatesOf(uid), p)))
  {
    var ts := UserToggleCalls(s, links, uid);
    UserToggleCount(s, links, uid, VehicleT(p));
    VehicleCascadeCountsVehicle(links, links.PlatesOf(uid), p);
    EventCascadeSkips(links, links.EventsOf(uid), VehicleT(p));
    assert VehiclesFlipped(s.vehicles, ToggleAll(s, ts).vehicles, ts);
  }

  /** Deactivating an Active user flips event `e` once per listing of `e`
      under the user. */
  lemma ToggleStatusCascadesEvent(s: Store, links: Links, uid: int, e: int)
    requires UserState(s, uid) == Some(Active)
    requires e in s.events
    ensures ToggleStatus(s, links, uid).0.events[e] ==
      s.events[e].(isActive := FlipTimes(s.events[e].isActive, Count(links.EventsOf(uid), e)))
  {
    var ts := UserToggleCalls(s, links, uid);
    UserToggleCount(s, links, uid, EventT(e));
    VehicleCascadeSkips(links, links.PlatesOf(uid), EventT(e));
    EventCascadeCountsEvent(links, links.EventsOf(uid), e);
    assert EventsFlipped(s.events, ToggleAll(s, ts).events, ts);
  }

  /** Deactivating an Active user flips event-vehicle `ev` once per listing
      under the user's vehicles and once per listing under its events. */
  lemma ToggleStatusCascadesEventVehicle(s: Store, links: Links, uid: int, ev: int)
    requires UserState(s, uid) == Some(Active)
    requires ev in s.eventVehicles
    ensures ToggleStatus(s, links, uid).0.eventVehicles[ev] ==
      s.eventVehicles[ev].(isActive := FlipTimes(s.eventVehicles[ev].isActive,
        VehicleSideHits(links, links.PlatesOf(uid), ev) + EventSideHits(links, links.EventsOf(uid), ev)))
  {
    var ts := UserToggleCalls(s, links, uid);
    UserToggleCount(s, links, uid, EventVehicleT(ev));
    VehicleCascadeCountsEventVehicle(links, links.PlatesOf(uid), ev);
    EventCascadeCountsEventVehicle(links, links.EventsOf(uid), ev);
    assert EventVehiclesFlipped(s.eventVehicles, ToggleAll(s, ts).eventVehicles, ts);
  }

  /** The user is toggled last, and only then. */
  lemma UserToggleUserLast(s: Store, links: Links, uid: int)
    ensures var ts := UserToggleCalls(s, links, uid);
      && |ts| > 0 && ts[|ts| - 1] == UserT(uid)
      && (forall k :: 0 <= k < |ts| - 1 ==> !ts[k].UserT?)
      && (UserState(s, uid) != Some(Active) ==> ts == [UserT(uid)])
  {
    if UserState(s, uid) == Some(Active) {
      var vc := VehicleCascade(links, links.PlatesOf(uid));
      var ec := EventCascade(links, links.EventsOf(uid));
      var ts := vc + ec + [UserT(uid)];
      assert ts == UserToggleCalls(s, links, uid);
      forall k | 0 <= k < |ts| - 1
        ensures !ts[k].UserT?
      {
        if k < |vc| {
          assert ts[k] == vc[k];
          VehicleCascadeOrigin(links, links.PlatesOf(uid), k);
        } else {
          assert ts[k] == ec[k - |vc|];
          EventCascadeOrigin(links, links.EventsOf(uid), k - |vc|);
        }
      }
    }
  }

  /** A call the vehicle loop over `plates` makes: a listed vehicle, or an
      event-vehicle listed under one of them. */
  ghost predicate VehicleLoopCall(links: Links, plates: seq<string>, t: Target) {
    || (t.VehicleT? && t.plate in plates)
    || (t.EventVehicleT? && exists p :: p in plates && t.eventVehicleId in links.VehicleEventVehiclesOf(p))
  }

  /** A call the event loop over `eventIds` makes: a listed event, or an
      event-vehicle listed under one of them. */
  ghost predicate EventLoopCall(links: Links, eventIds: seq<int>, t: Target) {
    || (t.EventT? && t.eventId in eventIds)
    || (t.EventVehicleT? && exists e :: e in eventIds && t.eventVehicleId in links.EventEventVehiclesOf(e))
  }

  /** A call of `EventVehicleCalls(ids)` addresses one of `ids`. */
  lemma EventVehicleCallFrom(ids: seq<int>, k: nat)
    requires k < |EventVehicleCalls(ids)|
    ensures EventVehicleCalls(ids)[k].eventVehicleId in ids
  {
    var ts := EventVehicleCalls(ids);
    var ev := ts[k].eventVehicleId;
    assert ts[k] == EventVehicleT(ev);
    CountPositive(ts, EventVehicleT(ev));
    CountPositive(ids, ev);
  }

  /** Every call of the vehicle loop comes from one of its plates. */
  lemma {:induction false} VehicleCascadeOrigin(links: Links, plates: seq<string>, k: nat)
    requires k < |VehicleCascade(links, plates)|
    ensures VehicleLoopCall(links, plates, VehicleCascade(links, plates)[k])
    decreases plates
  {
    var p0 := plates[0];
    var calls := EventVehicleCalls(links.VehicleEventVehiclesOf(p0));
    var rest := VehicleCascade(links, plates[1..]);
    var ts := VehicleCascade(links, plates);
    assert ts == calls + [VehicleT(p0)] + rest;
    if k < |calls| {
      EventVehicleCallFrom(links.VehicleEventVehiclesOf(p0), k);
      assert ts[k] == calls[k];
    } else if k == |calls| {
      assert ts[k] == VehicleT(p0);
    } else {
      assert ts[k] == rest[k - |calls| - 1];
      VehicleCascadeOrigin(links, plates[1..], k - |calls| - 1);
      if rest[k - |calls| - 1].EventVehicleT? {
        var p :| p in plates[1..] && rest[k - |calls| - 1].eventVehicleId in links.VehicleEventVehiclesOf(p);
        assert p in plates;
      }
    }
  }

  /** Every call of the event loop comes from one of its events. */
  lemma {:induction false} EventCascadeOrigin(links: Links, eventIds: seq<int>, k: nat)
    requires k < |EventCascade(links, eventIds)|
    ensures EventLoopCall(links, eventIds, EventCascade(links, eventIds)[k])
    decreases eventIds
  {
    var e0 := eventIds[0];
    var calls := EventVehicleCalls(links.EventEventVehiclesOf(e0));
    var rest := EventCascade(links, eventIds[1..]);
    var ts := EventCascade(links, eventIds);
    assert ts == calls + [EventT(e0)] + rest;
    if k < |calls| {
      EventVehicleCallFrom(links.EventEventVehiclesOf(e0), k);
      assert ts[k] == calls[k];
    } else if k == |calls| {
      assert ts[k] == EventT(e0);
    } else {
      assert ts[k] == rest[k - |calls| - 1];
      EventCascadeOrigin(links, eventIds[1..], k - |calls| - 1);
      if rest[k - |calls| - 1].EventVehicleT? {
        var e :| e in eventIds[1..] && rest[k - |calls| - 1].eventVehicleId in links.EventEventVehiclesOf(e);
        assert e in eventIds;
      }
    }
  }

  /** An Active user's calls are the whole vehicle loop (each vehicle and
      the event-vehicles reached through the user's plates), then the whole
      event loop (each event and the event-vehicles reached through the
      user's events), then the user; in particular no vehicle is toggled
      after an event. */
  lemma UserToggleVehiclesBeforeEvents(s: Store, links: Links, uid: int)
    ensures var ts := UserToggleCalls(s, links, uid);
      forall i, j :: 0 <= i < j < |ts| && ts[i].EventT? ==> !ts[j].VehicleT?
    ensures UserState(s, uid) == Some(Active) ==>
      var ts := UserToggleCalls(s, links, uid);
      var m := |VehicleCascade(links, links.PlatesOf(uid))|;
      && m < |ts|
      && (forall k :: 0 <= k < m ==> VehicleLoopCall(links, links.PlatesOf(uid), ts[k]))
      && (forall k :: m <= k < |ts| - 1 ==> EventLoopCall(links, links.EventsOf(uid), ts[k]))
  {
    if UserState(s, uid) == Some(Active) {
      var vc := VehicleCascade(links, links.PlatesOf(uid));
      var ec := EventCascade(links, links.EventsOf(uid));
      var ts := vc + ec + [UserT(uid)];
      assert ts == UserToggleCalls(s, links, uid);
      forall k | 0 <= k < |vc|
        ensures VehicleLoopCall(links, links.PlatesOf(uid), ts[k])
      {
        assert ts[k] == vc[k];
        VehicleCascadeOrigin(links, links.PlatesOf(uid), k);
      }
      forall k | |vc| <= k < |ts| - 1
        ensures EventLoopCall(links, links.EventsOf(uid), ts[k])
      {
        assert ts[k] == ec[k - |vc|];
        EventCascadeOrigin(links, links.EventsOf(uid), k - |vc|);
      }
    }
  }

  /** Every vehicle and every event is toggled after the event-vehicles
      listed under it. */
  lemma UserToggleDependentsFirst(s: Store, links: Links, uid: int)
    ensures DependentsFirst(links, UserToggleCalls(s, links, uid))
  {
    assert DependentsFirst(links, [UserT(uid)]);
    if UserState(s, uid) == Some(Active) {
      var vc := VehicleCascade(links, links.PlatesOf(uid));
      var ec := EventCascade(links, links.EventsOf(uid));
      VehicleCascadeShape(links, links.PlatesOf(uid));
      EventCascadeShape(links, links.EventsOf(uid));
      DependentsFirstAppend(links, vc, ec);
      DependentsFirstAppend(links, vc + ec, [UserT(uid)]);
    }
  }

  /** Under foreign-key links, the vehicle loop reaches an event-vehicle
      once when its vehicle is one of `plates`, and not at all otherwise. */
  lemma {:induction false} VehicleSideHitsUnderKeys(s: Store, links: Links, plates: seq<string>, ev: int)
    requires LinksFollowKeys(s, links)
    requires NoDup(plates)
    requires ev in s.eventVehicles
    ensures VehicleSideHits(links, plates, ev) == if s.eventVehicles[ev].licensePlate in plates then 1 else 0
  {
    if plates != [] {
      var p := plates[0];
      assert NoDup(plates[1..]);
      VehicleSideHitsUnderKeys(s, links, plates[1..], ev);
      CountNoDup(links.VehicleEventVehiclesOf(p), ev);
      assert plates == [p] + plates[1..];
      if s.eventVehicles[ev].licensePlate == p {
        assert p !in plates[1..];
      }
    }
  }

  /** Under foreign-key links, the event loop reaches an event-vehicle once
      when its event is one of `eventIds`, and not at all otherwise. */
  lemma {:induction false} EventSideHitsUnderKeys(s: Store, links: Links, eventIds: seq<int>, ev: int)
    requires LinksFollowKeys(s, links)
    requires NoDup(eventIds)
    requires ev in s.eventVehicles
    ensures EventSideHits(links, eventIds, ev) == if s.eventVehicles[ev].eventId in eventIds then 1 else 0
  {
    if eventIds != [] {
      var e := eventIds[0];
      assert NoDup(eventIds[1..]);
      EventSideHitsUnderKeys(s, links, eventIds[1..], ev);
      CountNoDup(links.EventEventVehiclesOf(e), ev);
      assert eventIds == [e] + eventIds[1..];
      if s.eventVehicles[ev].eventId == e {
        assert e !in eventIds[1..];
      }
    }
  }

  /** One flip when `b` holds, none otherwise. */
  lemma FlipOnceIf(st: EntityState, n: nat, b: bool)
    requires n == if b then 1 else 0
    ensures FlipTimes(st, n) == if b then Flip(st) else st
  {
  }

  /** One flip per side that holds: two sides cancel out. */
  lemma FlipsPerSide(st: EntityState, n: nat, p: bool, q: bool)
    requires n == (if p then 1 else 0) + (if q then 1 else 0)
    ensures FlipTimes(st, n) == if p != q then Flip(st) else st
  {
    FlipTimesParity(st, n);
  }

  /** Under foreign-key links, deactivating an Active user flips each of its
      vehicles once and leaves every other vehicle alone. */
  lemma ToggleStatusFlipsOwnVehicle(s: Store, links: Links, uid: int, p: string)
    requires LinksFollowKeys(s, links)
    requires UserState(s, uid) == Some(Active)
    requires p in s.vehicles
    ensures ToggleStatus(s, links, uid).0.vehicles[p].isActive ==
      if s.vehicles[p].userId == uid then Flip(s.vehicles[p].isActive) else s.vehicles[p].isActive
  {
    var plates := links.PlatesOf(uid);
    ToggleStatusCascadesVehicle(s, links, uid, p);
    CountNoDup(plates, p);
    FlipOnceIf(s.vehicles[p].isActive, Count(plates, p), s.vehicles[p].userId == uid);
  }

  /** Under foreign-key links, deactivating an Active user flips each of its
      events once and leaves every other event alone. */
  lemma ToggleStatusFlipsOwnEvent(s: Store, links: Links, uid: int, e: int)
    requires LinksFollowKeys(s, links)
    requires UserState(s, uid) == Some(Active)
    requires e in s.events
    ensures ToggleStatus(s, links, uid).0.events[e].isActive ==
      if s.events[e].userId == uid then Flip(s.events[e].isActive) else s.events[e].isActive
  {
    var events := links.EventsOf(uid);
    ToggleStatusCascadesEvent(s, links, uid, e);
    CountNoDup(events, e);
    FlipOnceIf(s.events[e].isActive, Count(events, e), s.events[e].userId == uid);
  }

  /** The event-vehicle's vehicle belongs to `uid`. */
  predicate VehicleOwnedBy(s: Store, uid: int, x: EventVehicle) {
    x.licensePlate in s.vehicles && s.vehicles[x.licensePlate].userId == uid
  }

  /** The event-vehicle's event belongs to `uid`. */
  predicate EventOwnedBy(s: Store, uid: int, x: EventVehicle) {
    x.eventId in s.events && s.events[x.eventId].userId == uid
  }

  /** Under foreign-key links, the loops of `ToggleStatusAsync` reach an
      event-vehicle once per side (its vehicle, its event) that belongs to
      `uid`. */
  lemma SideHitsUnderKeys(s: Store, links: Links, uid: int, ev: int)
    requires LinksFollowKeys(s, links)
    requires ev in s.eventVehicles
    ensures var x := s.eventVehicles[ev];
      VehicleSideHits(links, links.PlatesOf(uid), ev) + EventSideHits(links, links.EventsOf(uid), ev) ==
        (if VehicleOwnedBy(s, uid, x) then 1 else 0) + (if EventOwnedBy(s, uid, x) then 1 else 0)
  {
    VehicleSideHitsUnderKeys(s, links, links.PlatesOf(uid), ev);
    EventSideHitsUnderKeys(s, links, links.EventsOf(uid), ev);
  }

  /** Under foreign-key links, deactivating an Active user flips an
      event-vehicle when exactly one of its vehicle and its event belongs
      to the user. One reached from both sides is flipped twice and keeps
      its flag, so an Active one stays Active. */
  lemma ToggleStatusFlipsEventVehiclesPerSide(s: Store, links: Links, uid: int, ev: int)
    requires LinksFollowKeys(s, links)
    requires UserState(s, uid) == Some(Active)
    requires ev in s.eventVehicles
    ensures var x := s.eventVehicles[ev];
      ToggleStatus(s, links, uid).0.eventVehicles[ev].isActive ==
        if VehicleOwnedBy(s, uid, x) != EventOwnedBy(s, uid, x) then Flip(x.isActive) else x.isActive
  {
    var x := s.eventVehicles[ev];
    ToggleStatusCascadesEventVehicle(s, links, uid, ev);
    SideHitsUnderKeys(s, links, uid, ev);
    FlipsPerSide(x.isActive,
      VehicleSideHits(links, links.PlatesOf(uid), ev) + EventSideHits(links, links.EventsOf(uid), ev),
      VehicleOwnedBy(s, uid, x), EventOwnedBy(s, uid, x));
  }

  // ---------------------------------------------------------------------
  // The deactivating cascade the comments of `ToggleStatusAsync` describe

  /** Deactivating an Active user as its comments describe: every
      event-vehicle, vehicle and event the loops visit is set Inactive (not
      toggled), and then the user is toggled. A user that is not Active is
      handled as before. */
  function DeactivateUserCascade(s: Store, links: Links, uid: int): (r: (Store, bool))
    ensures r.1 <==> uid in s.users
  {
    if UserState(s, uid) == Some(Active) then
      var ts := VehicleCascade(links, links.PlatesOf(uid)) + EventCascade(links, links.EventsOf(uid));
      (ToggleOne(DeactivateAll(s, ts), UserT(uid)), true)
    else ToggleStatus(s, links, uid)
  }

  /** `t` is visited by the loops of an Active user's cascade exactly when
      it is counted among their calls. */
  lemma LoopsVisit(links: Links, uid: int, t: Target)
    ensures var ts := VehicleCascade(links, links.PlatesOf(uid)) + EventCascade(links, links.EventsOf(uid));
      t in ts <==>
        Count(VehicleCascade(links, links.PlatesOf(uid)), t) + Count(EventCascade(links, links.EventsOf(uid)), t) > 0
  {
    var vc := VehicleCascade(links, links.PlatesOf(uid));
    var ec := EventCascade(links, links.EventsOf(uid));
    CountPositive(vc + ec, t);
    CountAppendAt(vc, ec, t);
  }

  /** The corrected cascade sets every vehicle of the user Inactive and
      leaves every other vehicle alone. */
  lemma DeactivateUserCascadeVehicle(s: Store, links: Links, uid: int, p: string)
    requires LinksFollowKeys(s, links)
    requires UserState(s, uid) == Some(Active)
    requires p in s.vehicles
    ensures DeactivateUserCascade(s, links, uid).0.vehicles[p].isActive ==
      if s.vehicles[p].userId == uid then Inactive else s.vehicles[p].isActive
  {
    var plates := links.PlatesOf(uid);
    var ts := VehicleCascade(links, plates) + EventCascade(links, links.EventsOf(uid));
    var mid := DeactivateAll(s, ts);
    LoopsVisit(links, uid, VehicleT(p));
    VehicleCascadeCountsVehicle(links, plates, p);
    EventCascadeSkips(links, links.EventsOf(uid), VehicleT(p));
    CountPositive(plates, p);
    assert DeactivateUserCascade(s, links, uid).0.vehicles == mid.vehicles;
  }

  /** The corrected cascade sets every event of the user Inactive and
      leaves every other event alone. */
  lemma DeactivateUserCascadeEvent(s: Store, links: Links, uid: int, e: int)
    requires LinksFollowKeys(s, links)
    requires UserState(s, uid) == Some(Active)
    requires e in s.events
    ensures DeactivateUserCascade(s, links, uid).0.events[e].isActive ==
      if s.events[e].userId == uid then Inactive else s.events[e].isActive
  {
    var events := links.EventsOf(uid);
    var ts := VehicleCascade(links, links.PlatesOf(uid)) + EventCascade(links, events);
    var mid := DeactivateAll(s, ts);
    LoopsVisit(links, uid, EventT(e));
    VehicleCascadeSkips(links, links.PlatesOf(uid), EventT(e));
    EventCascadeCountsEvent(links, events, e);
    CountPositive(events, e);
    assert DeactivateUserCascade(s, links, uid).0.events == mid.events;
  }

  /** The corrected cascade sets Inactive every event-vehicle whose vehicle
      or event belongs to the user, whether it was reached once or twice,
      and leaves every other event-vehicle alone. */
  lemma DeactivateUserCascadeEventVehicle(s: Store, links: Links, uid: int, ev: int)
    requires LinksFollowKeys(s, links)
    requires UserState(s, uid) == Some(Active)
    requires ev in s.eventVehicles
    ensures var x := s.eventVehicles[ev];
      DeactivateUserCascade(s, links, uid).0.eventVehicles[ev].isActive ==
        if VehicleOwnedBy(s, uid, x) || EventOwnedBy(s, uid, x) then Inactive else x.isActive
  {
    var ts := VehicleCascade(links, links.PlatesOf(uid)) + EventCascade(links, links.EventsOf(uid));
    var mid := DeactivateAll(s, ts);
    LoopsVisit(links, uid, EventVehicleT(ev));
    VehicleCascadeCountsEventVehicle(links, links.PlatesOf(uid), ev);
    EventCascadeCountsEventVehicle(links, links.EventsOf(uid), ev);
    SideHitsUnderKeys(s, links, uid, ev);
    assert DeactivateUserCascade(s, links, uid).0.eventVehicles == mid.eventVehicles;
  }

  /** The corrected cascade, like the original, ends with the user Inactive
      and no other user changed. */
  lemma DeactivateUserCascadeUser(s: Store, links: Links, uid: int)
    requires UserState(s, uid) == Some(Active)
    ensures DeactivateUserCascade(s, links, uid).0.users == s.users[uid := s.users[uid].(isActive := Inactive)]
  {
    var ts := VehicleCascade(links, links.PlatesOf(uid)) + EventCascade(links, links.EventsOf(uid));
    var mid := DeactivateAll(s, ts);
    forall id | id in s.users
      ensures mid.users[id] == s.users[id]
    {
      LoopsVisit(links, uid, UserT(id));
      VehicleCascadeSkips(links, links.PlatesOf(uid), UserT(id));
      EventCascadeSkips(links, links.EventsOf(uid), UserT(id));
    }
    assert mid.users == s.users;
  }

  // ---------------------------------------------------------------------
  // A store on which the toggling cascade leaves a dependent Active

  /** User 1 owns vehicle "AB123CD" and event 10; event-vehicle 7 assigns
      that vehicle to that event. Every row is Active. */
  function SharedStore(): Store {
    Store(
      map[1 := User("Ana", "Diaz", "1990-01-01", "30111222", "ana@example.com", "secret", 1, 1,
                   Customer, Active, None, false)],
      map["AB123CD" := Vehicle(1, "AB123CD", None, None, None, None, 1, 2020, 4, 4, Active)],
      map[10 := Event(1, Active)],
      map[7 := EventVehicle(10, "AB123CD", Active)])
  }

  /** The id lists the repositories answer for `SharedStore`. */
  function SharedLinks(): Links {
    Links(map[1 := ["AB123CD"]], map[1 := [10]], map["AB123CD" := [7]], map[10 := [7]])
  }

  lemma SharedLinksFollowKeys()
    ensures LinksFollowKeys(SharedStore(), SharedLinks())
  {
  }

  /** Deactivating user 1 leaves event-vehicle 7 Active: it is toggled once
      from the vehicle and once from the event. */
  lemma ToggleStatusLeavesSharedEventVehicleActive()
    ensures ToggleStatus(SharedStore(), SharedLinks(), 1).0.users[1].isActive == Inactive
    ensures ToggleStatus(SharedStore(), SharedLinks(), 1).0.eventVehicles[7].isActive == Active
  {
    SharedLinksFollowKeys();
    ToggleStatusDeactivatesUser(SharedStore(), SharedLinks(), 1);
    ToggleStatusFlipsEventVehiclesPerSide(SharedStore(), SharedLinks(), 1, 7);
  }

  /** The corrected cascade sets event-vehicle 7 Inactive on the same store. */
  lemma DeactivateUserCascadeClearsSharedEventVehicle()
    ensures DeactivateUserCascade(SharedStore(), SharedLinks(), 1).0.eventVehicles[7].isActive == Inactive
  {
    SharedLinksFollowKeys();
    DeactivateUserCascadeEventVehicle(SharedStore(), SharedLinks(), 1, 7);
  }
}
