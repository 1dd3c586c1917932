# PPS-FullStack account, vehicle and validation rules in Dafny

This project models four pieces of logic from the PPS-FullStack event
and vehicle booking system, and proves properties about them:

- **The user account lifecycle** (`UserService`):
  - signup creates an Inactive account that holds a six-character
    recovery code;
  - activation consumes that code;
  - password recovery issues a new code and raises `MustChangePassword`;
  - a reset consumes both the code and the flag;
  - the profile, role and admin updates, and deactivation.
- **The cascading status toggles.** The user toggle and the vehicle toggle
  flip the user's vehicles and events and their event-vehicle
  assignments, dependents first and the root last.
- **Vehicle creation and update** (`VehicleService`): plate uniqueness,
  upper-casing, `Available`, null-coalescing updates, and the admin update
  that never re-keys.
- **The validators:**
  - the license-plate regular expression and the `[Required]` rules of
    the request that adds a vehicle to an event (`EventVehicleRequest`);
  - the admin panel's user and event form checks, the payloads it sends,
    and the province-change resets (`AdminCreatePanel`).

The database is a `Store` of four maps:

| table | key |
|---|---|
| users | id |
| vehicles | license plate |
| events | id |
| event-vehicles | id |

Every row carries an Active/Inactive flag. Each service call is a pure
function from the store before the call to the store after it, and it
returns the service's answer alongside. A thrown exception becomes an
`Err` value.

The repository methods the services call work as follows:

- Their id-list queries (a user's plates, a user's events, the
  event-vehicles of a vehicle or of an event) are a `Links` parameter.
- `LinksFollowKeys` states the case where those lists agree with the
  foreign keys.
- Each repository `ToggleStatusAsync` flips the flag of the row if it
  exists and reports whether it did.

Files:

| file | contents |
|---|---|
| `wrappers.dfy` | `Option` and `Result` |
| `text.dfy` | ASCII character classes and upper-casing |
| `entities.dfy` | the entities, the store, the id lists, flag flipping and occurrence counting |
| `status_toggle.dfy` | sequences of repository toggle calls and their effect, the dependents-first order, and sequences of deactivations |
| `user_service.dfy` | the user service |
| `vehicle_service.dfy` | the vehicle service |
| `regex.dfy` | a small regular-expression language with a matching relation |
| `event_vehicle_request.dfy` | the plate pattern and the request's validation |
| `admin_create_panel.dfy` | the admin panel's forms |

## Model

| member | source | states |
|---|---|---|
| UserService.GenerateRecoveryCode | Application/Services/UserService.cs:200-206 | the code has six characters, each an upper-case ASCII letter or a digit |
| UserService.EveryCodeCanBeDrawn | Application/Services/UserService.cs:200-206 | every six-character string over A-Z0-9 is produced by some sequence of answers of the random generator |
| UserService.FindByEmailAndCode | Application/Services/UserService.cs:85-86 | finds no user exactly when no user holds both the email and the code; otherwise finds the matching user with the smallest id |
| UserService.FindByEmail | Application/Services/UserService.cs:175-176 | finds no user exactly when no user has the email; otherwise finds the matching user with the smallest id |
| UserService.SignUpUser | Application/Services/UserService.cs:48-64 | adds exactly one user, which copies the request's names, birth date, DNI, password, city and province, has email "" when the request has none, takes the default role, is Inactive, holds a freshly generated recovery code and need not change its password; it changes nothing else |
| UserService.ActivateAccount | Application/Services/UserService.cs:83-96 | succeeds exactly when the first user holding the email and code is Inactive; on success only that user changes: it becomes Active and its code is cleared; on failure nothing changes |
| UserService.ActivationNeedsMatchingInactiveUser | Application/Services/UserService.cs:83-96 | a successful activation had an Inactive user holding both email and code, which is now Active without a code |
| UserService.ActivationCannotBeReplayed | Application/Services/UserService.cs:85-95 | when no second user holds the same email and code, the same activation fails a second time, because the code is consumed; signup does not make emails unique, so the condition is needed |
| UserService.ActivationReplayMovesOn | Application/Services/UserService.cs:85-95 | for any store, a replayed activation never activates the same user again: if it succeeds, it activates another user that held the same email and code |
| UserService.SignUpThenActivate | Application/Services/UserService.cs:48-96 | when no earlier user holds the same email and the code sent at signup, the new user can activate with that code, and ends Active without a code |
| UserService.UpdateUser | Application/Services/UserService.cs:99-119 | fails exactly for an unknown user; otherwise only that user changes: it keeps the old email when none is given and the old password when none or "" is given, and its account state is kept |
| UserService.UpdateUserIdempotent | Application/Services/UserService.cs:99-119 | applying the same profile update twice is the same as applying it once |
| UserService.ChangeUserRole | Application/Services/UserService.cs:121-131 | fails exactly for an unknown user; otherwise only that user's role changes, to the requested one |
| UserService.DesactiveUser | Application/Services/UserService.cs:133-142 | fails exactly for an unknown user; otherwise only that user's flag changes, to Inactive |
| UserService.DesactiveUserIdempotent | Application/Services/UserService.cs:133-142 | deactivating twice is deactivating once |
| UserService.AdminUpdateUser | Application/Services/UserService.cs:144-166 | answers false and changes nothing for an unknown user; otherwise only that user changes, its password is never changed, and its account state is kept |
| UserService.GenerateRecoveryCodeAndSendEmail | Application/Services/UserService.cs:173-198 | answers true exactly when some user has the email; then only the first user with the email changes: it holds a new valid recovery code and must change its password |
| UserService.ResetPasswordWithRecoveryCode | Application/Services/UserService.cs:208-221 | succeeds exactly when the user with the email holds the code and must change its password; on success that user has the new password, no code and no pending change, every other column of it is kept, and no other row changes |
| UserService.ResetCannotBeReplayed | Application/Services/UserService.cs:208-221 | a reset that succeeded fails when replayed with the same code |
| UserService.RecoveryThenReset | Application/Services/UserService.cs:173-221 | after recovery, a reset with the issued code succeeds and sets the new password |
| UserService.ToggleStatus | Application/Services/UserService.cs:223-265 | answers true exactly when the user exists; no table gains or loses a row |
| UserService.UserToggleCalls | Application/Services/UserService.cs:223-265 | the user's own toggle is the last call, and for a user that is not Active it is the only call |
| UserService.UserToggleCount | Application/Services/UserService.cs:228-264 | an Active user's toggle calls each row once per path from the user to it, and the user once |
| UserService.ToggleStatusReactivates | Application/Services/UserService.cs:228-264 | a user that is not Active is flipped and nothing else changes |
| UserService.ToggleStatusDeactivatesUser | Application/Services/UserService.cs:223-265 | toggling an Active user leaves that user Inactive and every other user unchanged |
| UserService.ToggleStatusCascadesVehicle | Application/Services/UserService.cs:232-245 | toggling an Active user flips each vehicle once per time it appears in the user's plate list |
| UserService.ToggleStatusCascadesEvent | Application/Services/UserService.cs:247-260 | toggling an Active user flips each event once per time it appears in the user's event list |
| UserService.ToggleStatusCascadesEventVehicle | Application/Services/UserService.cs:232-260 | toggling an Active user flips each event-vehicle once per time it is reached through a vehicle or an event of the user |
| UserService.UserToggleUserLast | Application/Services/UserService.cs:262-264 | the user's own toggle is the last call and the only one on a user |
| UserService.UserToggleVehiclesBeforeEvents | Application/Services/UserService.cs:232-260 | an Active user's calls split into the vehicle loop first (each listed vehicle and the event-vehicles reached through the user's plates), then the event loop (each listed event and the event-vehicles reached through the user's events), then the user; so no vehicle is toggled after an event |
| UserService.UserToggleDependentsFirst | Application/Services/UserService.cs:232-260 | every event-vehicle call comes before the toggle of the vehicle or event it was reached from |
| UserService.ToggleStatusFlipsOwnVehicle | Application/Services/UserService.cs:232-245 | when the id lists follow the foreign keys, exactly the vehicles the user owns flip |
| UserService.ToggleStatusFlipsOwnEvent | Application/Services/UserService.cs:247-260 | when the id lists follow the foreign keys, exactly the events the user owns flip |
| UserService.ToggleStatusFlipsEventVehiclesPerSide | Application/Services/UserService.cs:232-260 | when the id lists follow the foreign keys, an event-vehicle flips exactly when one, but not both, of its vehicle and its event belongs to the user |
| UserService.DeactivateUserCascadeEventVehicle | Application/Services/UserService.cs:232-260 | the corrected cascade leaves every event-vehicle reachable from the user Inactive, whichever way it is reached, and leaves the others unchanged |
| UserService.DeactivateUserCascadeVehicle | Application/Services/UserService.cs:232-245 | the corrected cascade leaves every vehicle in the user's list Inactive and leaves the others unchanged |
| UserService.DeactivateUserCascadeEvent | Application/Services/UserService.cs:247-260 | the corrected cascade leaves every event in the user's list Inactive and leaves the others unchanged |
| UserService.DeactivateUserCascadeUser | Application/Services/UserService.cs:262-264 | the corrected cascade leaves the user Inactive and every other user unchanged |
| UserService.ToggleStatusLeavesSharedEventVehicleActive | Application/Services/UserService.cs:232-260 | a concrete store where the user's vehicle is assigned to the user's event: after the toggle the user is Inactive but the assignment is Active again |
| UserService.DeactivateUserCascadeClearsSharedEventVehicle | Application/Services/UserService.cs:232-260 | on the same store the corrected cascade leaves that assignment Inactive |
| VehicleService.CreateVehicle | Application/Services/VehicleService.cs:87-123 | fails exactly when the request plate or its upper-cased form is taken; otherwise adds exactly one vehicle under the upper-cased plate, Active, with Available equal to Capacity, and returns a DTO that agrees with the stored vehicle |
| VehicleService.CreateVehiclePreservesWellKeyed | Application/Services/VehicleService.cs:95-110 | every vehicle is still stored under its own plate after a creation |
| VehicleService.CreateVehicleTwiceFails | Application/Services/VehicleService.cs:90-92 | creating the same vehicle twice fails the second time |
| VehicleService.CreateVehicleCaseVariantReachesStore | Application/Services/VehicleService.cs:90-95 | a plate that differs from a stored one only in case passes the service's check and collides in the store |
| VehicleService.UpdateVehicle | Application/Services/VehicleService.cs:138-167 | fails for an unknown plate and for a new plate that another vehicle holds; otherwise re-keys the vehicle under the upper-cased plate, keeps name, image and description when not given, sets Available to 0, keeps owner and flag, and changes no other row |
| VehicleService.UpdateVehiclePreservesWellKeyed | Application/Services/VehicleService.cs:155-166 | every vehicle is still stored under its own plate after an update |
| VehicleService.UpdateVehicleKeepsCount | Application/Services/VehicleService.cs:138-167 | an update never changes the number of vehicles |
| VehicleService.UpdateVehicleIdempotent | Application/Services/VehicleService.cs:138-167 | repeating an update on the vehicle's new plate changes nothing |
| VehicleService.AdminUpdateVehicle | Application/Services/VehicleService.cs:171-189 | answers false and changes nothing for an unknown plate; otherwise keeps the plate, owner and flag and sets the requested fields |
| VehicleService.AdminUpdateVehiclePreservesWellKeyed | Application/Services/VehicleService.cs:171-189 | every vehicle is still stored under its own plate after an admin update |
| VehicleService.AdminUpdateVehicleIdempotent | Application/Services/VehicleService.cs:171-189 | repeating an admin update changes nothing |
| VehicleService.ToggleStatus | Application/Services/VehicleService.cs:191-210 | answers true exactly when the vehicle exists; no table gains or loses a row |
| VehicleService.VehicleToggleCount | Application/Services/VehicleService.cs:195-209 | an Active vehicle's toggle calls the vehicle once and each event-vehicle once per time it appears in the vehicle's list |
| VehicleService.ToggleStatusReactivates | Application/Services/VehicleService.cs:191-210 | a vehicle that is not Active is flipped and nothing else changes |
| VehicleService.ToggleStatusDeactivatesVehicle | Application/Services/VehicleService.cs:191-210 | toggling an Active vehicle leaves it Inactive and every other vehicle unchanged |
| VehicleService.ToggleStatusKeepsUsersAndEvents | Application/Services/VehicleService.cs:191-210 | a vehicle toggle changes no user and no event |
| VehicleService.ToggleStatusCascadesEventVehicle | Application/Services/VehicleService.cs:198-206 | toggling an Active vehicle flips each event-vehicle once per time it appears in the vehicle's list |
| VehicleService.ToggleStatusFlipsOwnEventVehicles | Application/Services/VehicleService.cs:198-206 | when the id lists follow the foreign keys, exactly the vehicle's own assignments flip |
| VehicleService.VehicleToggleDependentsFirst | Application/Services/VehicleService.cs:198-209 | an Active vehicle's event-vehicles are toggled before the vehicle, which is last |
| VehicleService.DeactivateVehicleCascadeEventVehicles | Application/Services/VehicleService.cs:198-206 | the corrected cascade leaves every assignment of the vehicle Inactive and leaves the others unchanged |
| VehicleService.DeactivateVehicleCascadeVehicles | Application/Services/VehicleService.cs:191-210 | the corrected cascade leaves the vehicle Inactive and every other vehicle unchanged |
| VehicleService.ToggleStatusReactivatesInactiveEventVehicle | Application/Services/VehicleService.cs:198-206 | a concrete store where an Active vehicle has an Inactive assignment: after the toggle the vehicle is Inactive and the assignment is Active |
| VehicleService.DeactivateVehicleCascadeKeepsEventVehicleInactive | Application/Services/VehicleService.cs:198-206 | on the same store the corrected cascade leaves that assignment Inactive |
| Text.ToUpper | Application/Services/VehicleService.cs:98 | upper-casing keeps the length, maps each letter to its capital and leaves no lower-case letter |
| Text.ToUpperIdempotent | Application/Services/VehicleService.cs:98 | upper-casing twice is upper-casing once |
| Regex.RepClass | Application/Models/Requests/AddEventVehicleRequest.cs:11-12 | `[c]{n}` matches exactly the runs of n characters of the class |
| Regex.PlusClass | massivoproject.client/src/components/AdminDashboard/AdminCreatePanel.jsx:145 | `[c]+` matches exactly the non-empty runs of characters of the class |
| EventVehicleRequest.PlatePatternMeaning | Application/Models/Requests/AddEventVehicleRequest.cs:11-12 | the anchored pattern accepts exactly the plates of the form AA999AA and AAA999, the latter optionally with one white-space character (space, tab, line feed, carriage return, vertical tab or form feed) between letters and digits |
| EventVehicleRequest.AcceptedPlateShape | Application/Models/Requests/AddEventVehicleRequest.cs:11-12 | an accepted plate has six or seven characters and no lower-case letter |
| EventVehicleRequest.PlateExamplesAccepted | Application/Models/Requests/AddEventVehicleRequest.cs:11-12 | AB123CD, ABC123 and ABC 123 are accepted |
| EventVehicleRequest.PlateExamplesRejected | Application/Models/Requests/AddEventVehicleRequest.cs:11-12 | lower case, two spaces, an extra character and a missing character are rejected |
| EventVehicleRequest.AcceptedPlateIsUpperCase | Application/Models/Requests/AddEventVehicleRequest.cs:11-12 | upper-casing an accepted plate leaves it unchanged |
| EventVehicleRequest.ValidationErrors | Application/Models/Requests/AddEventVehicleRequest.cs:7-22 | the plate is flagged exactly when it is missing, blank or not in the pattern; the description exactly when it is missing or blank |
| EventVehicleRequest.ValidRequestMeaning | Application/Models/Requests/AddEventVehicleRequest.cs:7-22 | a request is valid exactly when the plate is present and in one of the two formats and the description is present and not blank |
| AdminCreatePanel.EmailPatternMeaning | massivoproject.client/src/components/AdminDashboard/AdminCreatePanel.jsx:145 | the e-mail pattern accepts exactly the strings without white space that have one '@', not first, followed by a '.' that is neither next to the '@' nor last |
| AdminCreatePanel.EmailExamples | massivoproject.client/src/components/AdminDashboard/AdminCreatePanel.jsx:145 | sample addresses accepted, and samples without '@', with two '@', with a space or without a dot rejected |
| AdminCreatePanel.ValidateUserForm | massivoproject.client/src/components/AdminDashboard/AdminCreatePanel.jsx:129-156 | answers true exactly when the error map is empty, and exactly when every field is filled in, the passwords agree, the e-mail is well formed and the password has six characters or more |
| AdminCreatePanel.UserFormRequiredFields | massivoproject.client/src/components/AdminDashboard/AdminCreatePanel.jsx:132-142 | each required text field is flagged exactly when empty |
| AdminCreatePanel.UserFormSelections | massivoproject.client/src/components/AdminDashboard/AdminCreatePanel.jsx:140-141 | the province and city are flagged exactly when none is selected or the id is 0 |
| AdminCreatePanel.UserFormEmailCheck | massivoproject.client/src/components/AdminDashboard/AdminCreatePanel.jsx:134-147 | the e-mail is flagged exactly when empty or malformed, with the reason that applies |
| AdminCreatePanel.UserFormPasswordChecks | massivoproject.client/src/components/AdminDashboard/AdminCreatePanel.jsx:135-152 | the password is flagged exactly when empty or shorter than six; the confirmation exactly when empty or different, with the mismatch taking precedence |
| AdminCreatePanel.BeforeT | massivoproject.client/src/components/AdminDashboard/AdminCreatePanel.jsx:172 | the submitted birth date is a prefix of the input, contains no 'T', and stops only at a 'T' |
| AdminCreatePanel.BeforeTDropsTime | massivoproject.client/src/components/AdminDashboard/AdminCreatePanel.jsx:172 | an ISO date-time becomes its date |
| AdminCreatePanel.BeforeTIdempotent | massivoproject.client/src/components/AdminDashboard/AdminCreatePanel.jsx:172 | truncating twice is truncating once |
| AdminCreatePanel.BeforeTWithoutT | massivoproject.client/src/components/AdminDashboard/AdminCreatePanel.jsx:172 | a date without 'T' is sent whole |
| AdminCreatePanel.HandleCreateUser | massivoproject.client/src/components/AdminDashboard/AdminCreatePanel.jsx:158-176 | sends a payload exactly when the form validates; the payload copies the form, carries no role, and has the birth date cut at its first 'T' and the selected non-zero city and province |
| AdminCreatePanel.UserProvinceChange | massivoproject.client/src/components/AdminDashboard/AdminCreatePanel.jsx:101-118 | selects the province, clears the city, removes the province's error and keeps every other error |
| AdminCreatePanel.UserProvinceChangeNeedsCity | massivoproject.client/src/components/AdminDashboard/AdminCreatePanel.jsx:104 | after a province change the user form is refused until a city is chosen |
| AdminCreatePanel.ValidateEventForm | massivoproject.client/src/components/AdminDashboard/AdminCreatePanel.jsx:226-238 | each field is flagged exactly when its check fails, and the answer is true exactly when none is flagged |
| AdminCreatePanel.EventTypeZeroAccepted | massivoproject.client/src/components/AdminDashboard/AdminCreatePanel.jsx:232 | category 0 passes and the empty string fails |
| AdminCreatePanel.HandleCreateEvent | massivoproject.client/src/components/AdminDashboard/AdminCreatePanel.jsx:240-257 | sends a payload exactly when the form validates; it is sent for user 1, copies the form, and uses the placeholder image exactly when the form has none |
| AdminCreatePanel.EventProvinceChange | massivoproject.client/src/components/AdminDashboard/AdminCreatePanel.jsx:200-203 | selects the province and clears the city |
| AdminCreatePanel.EventProvinceChangeNeedsCity | massivoproject.client/src/components/AdminDashboard/AdminCreatePanel.jsx:203 | after a province change the event is not sent until a city is chosen |

## Left out

- E-mail sending (Application/Services/UserService.cs:69-79 and 184-194, Application/Services/VehicleService.cs:125-133): it is an external side effect and is not modelled. A failure to send is not modelled either.
- The Entity Framework repositories are replaced by the four maps. Their `ToggleStatusAsync` bodies are not part of this model: each is taken to flip the row's flag if the row exists. Their id-list queries are the `Links` parameter.
- The bodies of the id-list queries (`GetUserVehicleLicensePlatesAsync`, `GetUserEventIdsAsync`, `GetVehicleEventVehicleIdsAsync`, `GetEventEventVehicleIdsAsync`) and of `GetUserEntityStateAsync` and `GetVehicleEntityStateAsync` are not part of this model. The lists are taken to contain every linked row whatever its flag, so they do not change while a cascade runs (a toggle never changes a key); an unknown id is taken to be not Active. A query that returned only Active rows would give a different cascade; that reading is not modelled.
- `ListAsync().FirstOrDefault` takes the first match in list order, and the model takes that to be the match with the smallest id. The body of `GetUserByEmail` is not part of this model; it is taken to return the first match as well, so the same smallest-id lookup stands for both.
- `UserService.GenerateRecoveryCode`: `Random` becomes the sequence of its answers, each below 36.
- `UserService.SignUpUser`: the identity the database assigns becomes the parameter `newId`, required to be unused. The role comes from the entity's defaults, and the User entity is not part of this model; it is taken to be `Customer`.
- `UserService.ActivateAccount` and `UserService.ResetPasswordWithRecoveryCode` take the e-mail and code as non-null strings. In C# a null code would match a user whose code has been cleared; that case is not modelled.
- Every asynchronous call is modelled as a sequential step, and nothing runs concurrently.
- Characters are ASCII only. `\d` and `\s` are taken as their ASCII members. `string.IsNullOrWhiteSpace` sees only ASCII white space. `ToUpper` runs under the current culture; the model maps only `a`-`z`, so culture-specific mappings such as the Turkish dotted capital I are not modelled. `.length` counts characters, not UTF-16 units.
- `VehicleService.CreateVehicle`: the service passes the raw request plate to the existence query, whose body is not part of this model; the model takes it to compare exactly. Database collation is not modelled. A store collision under the upper-cased key is the separate error `DuplicateKey`.
- `VehicleService.UpdateVehicle`: changing the key of a tracked entity is modelled as moving the row. Whether Entity Framework permits it is not modelled.
- The JSX rendering, the loading flags, the alerts, the HTTP calls, the city lists fetched after a province change, and the field-change handlers are not modelled.
- `AdminCreatePanel.UserProvinceChange`: setting an error to `null` is modelled as removing its key.
- `AdminCreatePanel.ValidateEventForm`: the event type is `undefined`, `''` or a number. Other JavaScript values the select cannot produce are not modelled.
- `AdminCreatePanel.HandleCreateUser`: `parseInt` of an id that is already a number is the number itself.
- `[Required]` on the event id, date and price of `AddEventVehicleRequest` never fails, because they are value types. They are carried as integers and never inspected.
- Payments, provinces, cities, bookings and the HTTP controllers only map results to status codes or hold data. They are not modelled.

## Findings

| source | as written | input that shows it | evidently intended | confidence | as-written member | corrected member |
|---|---|---|---|---|---|---|
| Application/Services/UserService.cs:232-260 | deactivating an Active user toggles each dependent vehicle, event and event-vehicle | when the id-list queries return every linked row whatever its flag: user 1 owns vehicle AB123CD and event 10, and event-vehicle 7 assigns that vehicle to that event: event-vehicle 7 is toggled twice and stays Active while user 1 ends Inactive | every dependent of a deactivated user ends Inactive | not executed | UserService.ToggleStatusLeavesSharedEventVehicleActive | UserService.DeactivateUserCascadeEventVehicle |
| Application/Services/VehicleService.cs:198-206 | deactivating an Active vehicle toggles each of its event-vehicles | when the id-list queries return every linked row whatever its flag: vehicle AB123CD is Active and its event-vehicle 7 is already Inactive: after the call the vehicle is Inactive and event-vehicle 7 is Active | every assignment of a deactivated vehicle ends Inactive | not executed | VehicleService.ToggleStatusReactivatesInactiveEventVehicle | VehicleService.DeactivateVehicleCascadeEventVehicles |
