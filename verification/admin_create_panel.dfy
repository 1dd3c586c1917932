/** The checks and payloads of the administrator's "create user" and
"create event" forms.

Form fields hold strings, and JavaScript's `!value` test on a string is
true exactly for the empty string. A selected city or province id is null
until chosen; `!id` is also true for the id 0. Fetching, alerts and
rendering are not modelled.
 */
module AdminCreatePanel {
  import opened Wrappers
  import opened Text
  import opened Regex

  /** JavaScript's `!id` on a selected id: null or zero. */
  predicate FalsyId(v: Option<int>) {
    v.None? || v == Some(0)
  }

  // ---------------------------------------------------------------------
  // The e-mail pattern

  /** `[^\s@]+` */
  function Word(): Re {
    Plus(Class(NotSpaceOrAt))
  }

  /** `^[^\s@]+@[^\s@]+\.[^\s@]+$` */
  function EmailPattern(): Re {
    Cat(Word(), Cat(Class(Lit('@')), Cat(Word(), Cat(Class(Lit('.')), Word()))))
  }

  /** No white space, exactly one `@`, not in first place, and after it a
      `.` that neither follows the `@` directly nor ends the address. */
  predicate IsEmailAddress(s: string) {
    && (forall k :: 0 <= k < |s| ==> !IsAsciiSpace(s[k]))
    && exists a :: 0 < a < |s| && s[a] == '@'
         && (forall k :: 0 <= k < |s| && k != a ==> s[k] != '@')
         && exists p :: a + 1 < p < |s| - 1 && s[p] == '.'
  }

  /** The characters of `s[i..j]` are neither white space nor `@`. */
  lemma WordRange(s: string, i: nat, j: nat)
    requires i <= j <= |s|
    ensures Matches(Word(), s, i, j) <==>
      i < j && forall k :: i <= k < j ==> !IsAsciiSpace(s[k]) && s[k] != '@'
  {
    PlusClass(NotSpaceOrAt, s, i, j);
  }

  /** A single literal character `c` at `s[i]`. */
  lemma LitRange(c: char, s: string, i: nat, j: nat)
    requires i <= j <= |s|
    ensures Matches(Class(Lit(c)), s, i, j) <==> j == i + 1 && s[i] == c
  {
  }

  /** The pattern accepts `s` split at the `@` (index `a`) and at a `.`
      (index `p`). */
  lemma EmailSplit(s: string, a: nat, p: nat)
    requires 0 < a && a + 1 < p && p + 1 < |s|
    requires s[a] == '@' && s[p] == '.'
    requires forall k :: 0 <= k < |s| && k != a ==> !IsAsciiSpace(s[k]) && s[k] != '@'
    ensures FullMatch(EmailPattern(), s)
  {
    var n := |s|;
    var tail3 := Cat(Class(Lit('.')), Word());
    var tail2 := Cat(Word(), tail3);
    var tail1 := Cat(Class(Lit('@')), tail2);
    WordRange(s, p + 1, n);
    assert Matches(Class(Lit('.')), s, p, p + 1);
    assert Matches(tail3, s, p, n);
    WordRange(s, a + 1, p);
    assert Matches(tail2, s, a + 1, n);
    assert Matches(Class(Lit('@')), s, a, a + 1);
    assert Matches(tail1, s, a, n);
    WordRange(s, 0, a);
    assert Matches(Cat(Word(), tail1), s, 0, n);
  }

  /** Every string the pattern accepts splits as `EmailSplit` describes. */
  lemma EmailParts(s: string)
    requires FullMatch(EmailPattern(), s)
    ensures IsEmailAddress(s)
  {
    var n := |s|;
    var tail3 := Cat(Class(Lit('.')), Word());
    var tail2 := Cat(Word(), tail3);
    var tail1 := Cat(Class(Lit('@')), tail2);
    assert Matches(Cat(Word(), tail1), s, 0, n);
    var a :| 0 <= a <= n && Matches(Word(), s, 0, a) && Matches(tail1, s, a, n);
    assert Matches(tail1, s, a, n);
    var b :| a <= b <= n && Matches(Class(Lit('@')), s, a, b) && Matches(tail2, s, b, n);
    assert Matches(tail2, s, b, n);
    var p :| b <= p <= n && Matches(Word(), s, b, p) && Matches(tail3, s, p, n);
    assert Matches(tail3, s, p, n);
    var q :| p <= q <= n && Matches(Class(Lit('.')), s, p, q) && Matches(Word(), s, q, n);
    WordRange(s, 0, a);
    LitRange('@', s, a, b);
    WordRange(s, b, p);
    LitRange('.', s, p, q);
    WordRange(s, q, n);
    assert b == a + 1 && q == p + 1;
    forall k | 0 <= k < n && k != a
      ensures !IsAsciiSpace(s[k]) && s[k] != '@'
    {
      if k < a {
      } else if k < p {
      } else if k == p {
      } else {
      }
    }
    assert !IsAsciiSpace(s[a]);
    assert a + 1 < p < n - 1 && s[p] == '.';
  }

  /** The regular expression accepts exactly the strings `IsEmailAddress`
      describes. */
  lemma EmailPatternMeaning(s: string)
    ensures FullMatch(EmailPattern(), s) <==> IsEmailAddress(s)
  {
    if FullMatch(EmailPattern(), s) {
      EmailParts(s);
    }
    if IsEmailAddress(s) {
      var a :| 0 < a < |s| && s[a] == '@'
        && (forall k :: 0 <= k < |s| && k != a ==> s[k] != '@')
        && exists p :: a + 1 < p < |s| - 1 && s[p] == '.';
      var p :| a + 1 < p < |s| - 1 && s[p] == '.';
      EmailSplit(s, a, p);
    }
  }

  /** Addresses with and without sub-domains are accepted; a missing `@`,
      a second `@`, a space or a dot-less domain is rejected. */
  lemma EmailExamples()
    ensures FullMatch(EmailPattern(), "ana@example.com")
    ensures FullMatch(EmailPattern(), "a.b@mail.example.org")
    ensures !FullMatch(EmailPattern(), "ana.example.com")
    ensures !FullMatch(EmailPattern(), "ana@b@example.com")
    ensures !FullMatch(EmailPattern(), "ana @example.com")
    ensures !FullMatch(EmailPattern(), "ana@example")
  {
    EmailSplit("ana@example.com", 3, 11);
    EmailSplit("a.b@mail.example.org", 3, 8);
    EmailPatternMeaning("ana.example.com");
    EmailPatternMeaning("ana@b@example.com");
    assert "ana@b@example.com"[3] == '@' && "ana@b@example.com"[5] == '@';
    EmailPatternMeaning("ana @example.com");
    assert IsAsciiSpace("ana @example.com"[3]);
    EmailPatternMeaning("ana@example");
  }

  // ---------------------------------------------------------------------
  // The user form

  datatype UserForm = UserForm(
    firstName: string,
    lastName: string,
    email: string,
    password: string,
    confirmPassword: string,
    identificationNumber: string,
    birthDate: string,
    cityId: Option<int>,
    provinceId: Option<int>,
    role: string)

  datatype UserField =
    | FirstName | LastName | Email | Password | ConfirmPassword
    | IdentificationNumber | BirthDate | ProvinceId | CityId | RoleField

  /** Why a field is flagged; a later check on the same field replaces the
      reason an earlier one recorded. */
  datatype FormError = Missing | Mismatch | BadFormat | TooShort

  /** What `validateUserForm` is meant to accept: every field filled in, the
      two passwords equal, a well-formed address and a password of at least
      six characters. */
  predicate UserFormComplete(f: UserForm) {
    && f.firstName != "" && f.lastName != "" && f.email != "" && f.password != ""
    && f.confirmPassword != "" && f.identificationNumber != "" && f.birthDate != ""
    && !FalsyId(f.provinceId) && !FalsyId(f.cityId) && f.role != ""
    && f.password == f.confirmPassword
    && IsEmailAddress(f.email)
    && |f.password| >= 6
  }

  /** `validateUserForm`: the error object, built check by check, and
      whether it has no key. */
  function ValidateUserForm(f: UserForm): (r: (map<UserField, FormError>, bool))
    ensures r.1 <==> r.0 == map[]
    ensures r.1 <==> UserFormComplete(f)
  {
    EmailPatternMeaning(f.email);
    var e0: map<UserField, FormError> := map[];
    var e1 := if f.firstName == "" then e0[FirstName := Missing] else e0;
    var e2 := if f.lastName == "" then e1[LastName := Missing] else e1;
    var e3 := if f.email == "" then e2[Email := Missing] else e2;
    var e4 := if f.password == "" then e3[Password := Missing] else e3;
    var e5 := if f.confirmPassword == "" then e4[ConfirmPassword := Missing] else e4;
    var e6 := if f.password != f.confirmPassword then e5[ConfirmPassword := Mismatch] else e5;
    var e7 := if f.identificationNumber == "" then e6[IdentificationNumber := Missing] else e6;
    var e8 := if f.birthDate == "" then e7[BirthDate := Missing] else e7;
    var e9 := if FalsyId(f.provinceId) then e8[ProvinceId := Missing] else e8;
    var e10 := if FalsyId(f.cityId) then e9[CityId := Missing] else e9;
    var e11 := if f.role == "" then e10[RoleField := Missing] else e10;
    var e12 := if f.email != "" && !FullMatch(EmailPattern(), f.email) then e11[Email := BadFormat] else e11;
    var e13 := if f.password != "" && |f.password| < 6 then e12[Password := TooShort] else e12;
    if e13 == map[] then
      assert FirstName !in e13 && LastName !in e13 && Email !in e13 && Password !in e13;
      assert ConfirmPassword !in e13 && IdentificationNumber !in e13 && BirthDate !in e13;
      assert ProvinceId !in e13 && CityId !in e13 && RoleField !in e13;
      (e13, true)
    else
      assert e13.Keys != {};
      (e13, false)
  }

  /** Each required text field is flagged exactly when it is empty. */
  lemma UserFormRequiredFields(f: UserForm)
    ensures var errs := ValidateUserForm(f).0;
      && (FirstName in errs <==> f.firstName == "")
      && (LastName in errs <==> f.lastName == "")
      && (IdentificationNumber in errs <==> f.identificationNumber == "")
      && (BirthDate in errs <==> f.birthDate == "")
      && (RoleField in errs <==> f.role == "")
  {
  }

  /** The province and the city are flagged exactly when none (or id 0) is
      selected. */
  lemma UserFormSelections(f: UserForm)
    ensures var errs := ValidateUserForm(f).0;
      && (ProvinceId in errs <==> FalsyId(f.provinceId))
      && (CityId in errs <==> FalsyId(f.cityId))
  {
  }

  /** The e-mail is flagged as missing when empty and as malformed when the
      pattern refuses it. */
  lemma UserFormEmailCheck(f: UserForm)
    ensures var errs := ValidateUserForm(f).0;
      && (Email in errs <==> f.email == "" || !IsEmailAddress(f.email))
      && (Email in errs ==> errs[Email] == if f.email == "" then Missing else BadFormat)
  {
    EmailPatternMeaning(f.email);
  }

  /** The password is flagged as missing when empty and as too short below
      six characters; the confirmation is flagged as missing when empty and
      as a mismatch, which takes precedence, when it differs. */
  lemma UserFormPasswordChecks(f: UserForm)
    ensures var errs := ValidateUserForm(f).0;
      && (Password in errs <==> f.password == "" || |f.password| < 6)
      && (Password in errs ==> errs[Password] == if f.password == "" then Missing else TooShort)
      && (ConfirmPassword in errs <==> f.confirmPassword == "" || f.password != f.confirmPassword)
      && (ConfirmPassword in errs ==>
            errs[ConfirmPassword] == if f.password != f.confirmPassword then Mismatch else Missing)
  {
  }

  /** The prefix of `s` before its first `T`, which is what
      `toString().split('T')[0]` yields: all of `s` when it has no `T`. */
  function BeforeT(s: string): (r: string)
    ensures |r| <= |s| && r == s[..|r|]
    ensures 'T' !in r
    ensures |r| < |s| ==> s[|r|] == 'T'
  {
    if s == [] then []
    else if s[0] == 'T' then []
    else [s[0]] + BeforeT(s[1..])
  }

  /** An ISO date-time loses its time part; the date part is kept whole. */
  lemma {:induction false} BeforeTDropsTime(date: string, time: string)
    requires 'T' !in date
    ensures BeforeT(date + "T" + time) == date
  {
    if date != [] {
      assert (date + "T" + time)[1..] == date[1..] + "T" + time;
      BeforeTDropsTime(date[1..], time);
    } else {
      assert (date + "T" + time)[0] == 'T';
    }
  }

  /** Truncating twice is truncating once. */
  lemma BeforeTIdempotent(s: string)
    ensures BeforeT(BeforeT(s)) == BeforeT(s)
  {
    var r := BeforeT(s);
    BeforeTDropsTime(r, []);
    assert BeforeT(r + "T") == r;
    BeforeTWithoutT(r);
  }

  /** A string without `T` is left whole. */
  lemma {:induction false} BeforeTWithoutT(s: string)
    requires 'T' !in s
    ensures BeforeT(s) == s
  {
    if s != [] {
      assert 'T' !in s[1..];
      BeforeTWithoutT(s[1..]);
    }
  }

  /** The body `handleCreateUser` sends. There is no role in it: that line
      is disabled. */
  datatype UserPayload = UserPayload(
    firstName: string,
    lastName: string,
    email: string,
    password: string,
    dniNumber: string,
    birthDate: string,
    city: int,
    province: int)

  /** `handleCreateUser`: nothing is sent unless the form validates;
      otherwise the payload copies the form, with the birth date cut at
      its first `T`. */
  function HandleCreateUser(f: UserForm): (r: Option<UserPayload>)
    ensures r.Some? <==> UserFormComplete(f)
    ensures r.Some? ==> var u := r.value;
      && u.firstName == f.firstName && u.lastName == f.lastName
      && u.email == f.email && IsEmailAddress(u.email)
      && u.password == f.password && |u.password| >= 6
      && u.dniNumber == f.identificationNumber
      && 'T' !in u.birthDate
      && |u.birthDate| <= |f.birthDate| && u.birthDate == f.birthDate[..|u.birthDate|]
      && (|u.birthDate| < |f.birthDate| ==> f.birthDate[|u.birthDate|] == 'T')
      && f.cityId == Some(u.city) && u.city != 0
      && f.provinceId == Some(u.province) && u.province != 0
  {
    if !ValidateUserForm(f).1 then None
    else
      Some(UserPayload(
        f.firstName, f.lastName, f.email, f.password, f.identificationNumber,
        BeforeT(f.birthDate), f.cityId.value, f.provinceId.value))
  }

  /** The user tab's state: the form, the errors on display and the
      selected province. */
  datatype UserPanel = UserPanel(form: UserForm, errors: map<UserField, FormError>, userProvince: Option<int>)

  /** `handleUserProvinceChange`: select the province, clear the city and
      the province's error. */
  function UserProvinceChange(p: UserPanel, provinceId: int): (r: UserPanel)
    ensures r.userProvince == Some(provinceId)
    ensures r.form == p.form.(provinceId := Some(provinceId), cityId := None)
    ensures ProvinceId !in r.errors
    ensures forall k :: k in p.errors && k != ProvinceId ==> k in r.errors && r.errors[k] == p.errors[k]
    ensures forall k :: k in r.errors ==> k in p.errors
  {
    var form := p.form.(provinceId := Some(provinceId), cityId := None);
    var errors := if ProvinceId in p.errors then p.errors - {ProvinceId} else p.errors;
    UserPanel(form, errors, Some(provinceId))
  }

  /** After a province change the form cannot be submitted until a city is
      chosen again. */
  lemma UserProvinceChangeNeedsCity(p: UserPanel, provinceId: int)
    ensures var v := ValidateUserForm(UserProvinceChange(p, provinceId).form);
      CityId in v.0 && !v.1
      && (provinceId != 0 ==> ProvinceId !in v.0)
  {
  }

  // ---------------------------------------------------------------------
  // The event form

  /** The type field holds `''` until a category, a number, is chosen. */
  datatype EventTypeValue = Undefined | EmptyString | TypeNumber(n: int)

  datatype EventForm = EventForm(
    name: string,
    description: string,
    eventDate: string,
    eventType: EventTypeValue,
    locationId: Option<int>,
    image: string,
    userId: int)

  datatype EventField = NameField | DescriptionField | EventDateField | TypeField | LocationField | ProvinceField

  /** What `validateEventForm` accepts: name, description and date filled
      in, a category chosen (0 included), and a city and province selected. */
  predicate EventFormComplete(f: EventForm, eventProvince: Option<int>) {
    && f.name != "" && f.description != "" && f.eventDate != ""
    && f.eventType.TypeNumber?
    && !FalsyId(f.locationId) && !FalsyId(eventProvince)
  }

  /** `validateEventForm`: the fields it flags, and whether none is. The
      province is the tab's selected province, not a form field. */
  function ValidateEventForm(f: EventForm, eventProvince: Option<int>): (r: (set<EventField>, bool))
    ensures r.1 <==> r.0 == {}
    ensures r.1 <==> EventFormComplete(f, eventProvince)
    ensures NameField in r.0 <==> f.name == ""
    ensures DescriptionField in r.0 <==> f.description == ""
    ensures EventDateField in r.0 <==> f.eventDate == ""
    ensures TypeField in r.0 <==> f.eventType == Undefined || f.eventType == EmptyString
    ensures LocationField in r.0 <==> FalsyId(f.locationId)
    ensures ProvinceField in r.0 <==> FalsyId(eventProvince)
  {
    var errs :=
      (if f.name == "" then {NameField} else {})
      + (if f.description == "" then {DescriptionField} else {})
      + (if f.eventDate == "" then {EventDateField} else {})
      + (if f.eventType == Undefined || f.eventType == EmptyString then {TypeField} else {})
      + (if FalsyId(f.locationId) then {LocationField} else {})
      + (if FalsyId(eventProvince) then {ProvinceField} else {});
    if errs == {} then (errs, true)
    else
      assert exists x :: x in errs;
      (errs, false)
  }

  /** Category 0 is a valid choice: only `undefined` and `''` are refused. */
  lemma EventTypeZeroAccepted(f: EventForm, eventProvince: Option<int>)
    ensures TypeField !in ValidateEventForm(f.(eventType := TypeNumber(0)), eventProvince).0
    ensures TypeField in ValidateEventForm(f.(eventType := EmptyString), eventProvince).0
  {
  }

  /** The image sent when the form's image is empty. */
  const PlaceholderImage: string := "https://picsum.photos/200/300"

  /** The body `handleCreateEvent` sends. */
  datatype EventPayload = EventPayload(
    userId: int,
    locationId: int,
    name: string,
    description: string,
    eventDate: string,
    eventType: int,
    image: string)

  /** `handleCreateEvent`: nothing is sent unless the form validates;
      otherwise the payload is sent on behalf of user 1, with the
      placeholder image when the form has none. */
  function HandleCreateEvent(f: EventForm, eventProvince: Option<int>): (r: Option<EventPayload>)
    ensures r.Some? <==> EventFormComplete(f, eventProvince)
    ensures r.Some? ==> var e := r.value;
      && e.userId == 1
      && f.locationId == Some(e.locationId) && e.locationId != 0
      && e.name == f.name && e.description == f.description && e.eventDate == f.eventDate
      && f.eventType == TypeNumber(e.eventType)
      && e.image != ""
      && (f.image != "" ==> e.image == f.image)
      && (f.image == "" ==> e.image == PlaceholderImage)
  {
    if !ValidateEventForm(f, eventProvince).1 then None
    else
      Some(EventPayload(
        1, f.locationId.value, f.name, f.description, f.eventDate, f.eventType.n,
        if f.image == "" then PlaceholderImage else f.image))
  }

  /** The event tab's state: the form and the selected province. */
  datatype EventPanel = EventPanel(form: EventForm, eventProvince: Option<int>)

  /** `handleEventProvinceChange`: select the province and clear the city. */
  function EventProvinceChange(p: EventPanel, provinceId: int): (r: EventPanel)
    ensures r.eventProvince == Some(provinceId)
    ensures r.form == p.form.(locationId := None)
  {
    EventPanel(p.form.(locationId := None), Some(provinceId))
  }

  /** After a province change the event cannot be submitted until a city is
      chosen again. */
  lemma EventProvinceChangeNeedsCity(p: EventPanel, provinceId: int)
    ensures var r := EventProvinceChange(p, provinceId);
      var v := ValidateEventForm(r.form, r.eventProvince);
      LocationField in v.0 && !v.1 && HandleCreateEvent(r.form, r.eventProvince).None?
      && (provinceId != 0 ==> ProvinceField !in v.0)
  {
  }
}
