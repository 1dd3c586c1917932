/** The validation rules on the request that assigns a vehicle to an event.

The license plate must be present and must match, as a whole,
`^(?:[A-Z]{2}\d{3}[A-Z]{2}|[A-Z]{3}\s?\d{3})$`: either the current
format `AA999AA` or the older `AAA999`, optionally written `AAA 999`.
The description must be present. The event id, date and price are value
types, so their `[Required]` rules never fail.
 */
module EventVehicleRequest {
  import opened Wrappers
  import opened Text
  import opened Regex

  // ---------------------------------------------------------------------
  // The plate pattern

  /** `[A-Z]{2}\d{3}[A-Z]{2}` */
  function CurrentPattern(): Re {
    Cat(Rep(Class(UpperAZ), 2), Cat(Rep(Class(Digit), 3), Rep(Class(UpperAZ), 2)))
  }

  /** `[A-Z]{3}\s?\d{3}` */
  function OlderPattern(): Re {
    Cat(Rep(Class(UpperAZ), 3), Cat(Opt(Class(Space)), Rep(Class(Digit), 3)))
  }

  /** The pattern of the `[RegularExpression]` rule on the plate. */
  function PlatePattern(): Re {
    Alt(CurrentPattern(), OlderPattern())
  }

  /** Two letters, three digits, two letters: `AB123CD`. */
  predicate IsCurrentPlate(s: string) {
    && |s| == 7
    && IsUpperAZ(s[0]) && IsUpperAZ(s[1])
    && IsAsciiDigit(s[2]) && IsAsciiDigit(s[3]) && IsAsciiDigit(s[4])
    && IsUpperAZ(s[5]) && IsUpperAZ(s[6])
  }

  /** Three letters, then three digits, with at most one white-space
      character between them: `ABC123` or `ABC 123`. */
  predicate IsOlderPlate(s: string) {
    && (|s| == 6 || |s| == 7)
    && IsUpperAZ(s[0]) && IsUpperAZ(s[1]) && IsUpperAZ(s[2])
    && (|s| == 7 ==> IsAsciiSpace(s[3]))
    && IsAsciiDigit(s[|s| - 3]) && IsAsciiDigit(s[|s| - 2]) && IsAsciiDigit(s[|s| - 1])
  }

  predicate IsPlate(s: string) {
    IsCurrentPlate(s) || IsOlderPlate(s)
  }

  /** `[c]{n}` matches from `i` only `n` characters on. */
  lemma RepClassLength(cc: CharClass, n: nat, s: string, i: nat, j: nat)
    requires i <= j <= |s|
    ensures forall k :: i <= k <= j && Matches(Rep(Class(cc), n), s, i, k) ==> k == i + n
  {
    forall k | i <= k <= j && Matches(Rep(Class(cc), n), s, i, k)
      ensures k == i + n
    {
      RepClass(cc, n, s, i, k);
    }
  }

  lemma CurrentPatternMeaning(s: string)
    ensures FullMatch(CurrentPattern(), s) <==> IsCurrentPlate(s)
  {
    var n := |s|;
    var letters2 := Rep(Class(UpperAZ), 2);
    var digits3 := Rep(Class(Digit), 3);
    RepClassLength(UpperAZ, 2, s, 0, n);
    CatAfterFixed(letters2, Cat(digits3, letters2), 2, s, 0, n);
    if 2 <= n {
      RepClass(UpperAZ, 2, s, 0, 2);
      RepClassLength(Digit, 3, s, 2, n);
      CatAfterFixed(digits3, letters2, 3, s, 2, n);
      if 5 <= n {
        RepClass(Digit, 3, s, 2, 5);
        RepClass(UpperAZ, 2, s, 5, n);
      }
    }
  }

  lemma OlderPatternMeaning(s: string)
    ensures FullMatch(OlderPattern(), s) <==> IsOlderPlate(s)
  {
    var n := |s|;
    var letters3 := Rep(Class(UpperAZ), 3);
    var digits3 := Rep(Class(Digit), 3);
    RepClassLength(UpperAZ, 3, s, 0, n);
    CatAfterFixed(letters3, Cat(Opt(Class(Space)), digits3), 3, s, 0, n);
    if 3 <= n {
      RepClass(UpperAZ, 3, s, 0, 3);
      OptThen(Class(Space), digits3, s, 3, n);
      RepClass(Digit, 3, s, 3, n);
      if 4 <= n {
        RepClass(Digit, 3, s, 4, n);
      }
    }
  }

  /** The regular expression accepts exactly the plates of the two formats. */
  lemma PlatePatternMeaning(s: string)
    ensures FullMatch(PlatePattern(), s) <==> IsPlate(s)
  {
    CurrentPatternMeaning(s);
    OlderPatternMeaning(s);
  }

  /** An accepted plate has six or seven characters, none of them a
      lower-case letter. */
  lemma AcceptedPlateShape(s: string)
    requires FullMatch(PlatePattern(), s)
    ensures |s| == 6 || |s| == 7
    ensures forall i :: 0 <= i < |s| ==> !IsLowerAZ(s[i])
  {
    PlatePatternMeaning(s);
  }

  /** Both formats, with and without the space, are accepted. */
  lemma PlateExamplesAccepted()
    ensures FullMatch(PlatePattern(), "AB123CD")
    ensures FullMatch(PlatePattern(), "ABC123")
    ensures FullMatch(PlatePattern(), "ABC 123")
  {
    PlatePatternMeaning("AB123CD");
    PlatePatternMeaning("ABC123");
    PlatePatternMeaning("ABC 123");
  }

  /** Lower-case letters, two spaces, an extra trailing character or a
      missing one are rejected: the pattern is anchored at both ends. */
  lemma PlateExamplesRejected()
    ensures !FullMatch(PlatePattern(), "ab123cd")
    ensures !FullMatch(PlatePattern(), "ABC  123")
    ensures !FullMatch(PlatePattern(), "AB123CDE")
    ensures !FullMatch(PlatePattern(), "ABC1234")
    ensures !FullMatch(PlatePattern(), "AB123C")
  {
    PlatePatternMeaning("ab123cd");
    PlatePatternMeaning("ABC  123");
    PlatePatternMeaning("AB123CDE");
    PlatePatternMeaning("ABC1234");
    PlatePatternMeaning("AB123C");
  }

  /** Every accepted plate is already upper-case, so storing it upper-cased
      does not change it. */
  lemma AcceptedPlateIsUpperCase(s: string)
    requires FullMatch(PlatePattern(), s)
    ensures ToUpper(s) == s
  {
    AcceptedPlateShape(s);
    ToUpperFixesUpper(s);
  }

  // ---------------------------------------------------------------------
  // The request

  /** Date and price are value types; the model keeps their values as
      integers and never inspects them. */
  datatype AddEventVehicleRequest = AddEventVehicleRequest(
    eventId: int,
    licensePlate: Option<string>,
    date: int,
    price: int,
    description: Option<string>)

  datatype RequestField = LicensePlateField | DescriptionField

  /** `[Required]` on a string: not null, not empty and not only white space. */
  predicate RequiredHolds(v: Option<string>) {
    v.Some? && |v.value| > 0 && !IsBlank(v.value)
  }

  /** `[RegularExpression]`: a null or empty value passes; any other value
      must be matched from its first to its last character. */
  predicate PatternHolds(v: Option<string>) {
    v.None? || v.value == "" || FullMatch(PlatePattern(), v.value)
  }

  /** The fields whose rules fail, as model validation reports them. */
  function ValidationErrors(req: AddEventVehicleRequest): (errs: set<RequestField>)
    ensures LicensePlateField in errs <==> !RequiredHolds(req.licensePlate) || !PatternHolds(req.licensePlate)
    ensures DescriptionField in errs <==> !RequiredHolds(req.description)
  {
    (if RequiredHolds(req.licensePlate) && PatternHolds(req.licensePlate) then {} else {LicensePlateField})
    + (if RequiredHolds(req.description) then {} else {DescriptionField})
  }

  /** A request passes validation exactly when the plate is present and in
      one of the two formats and the description is present and not blank. */
  lemma ValidRequestMeaning(req: AddEventVehicleRequest)
    ensures ValidationErrors(req) == {} <==>
      && req.licensePlate.Some? && IsPlate(req.licensePlate.value)
      && req.description.Some? && |req.description.value| > 0 && !IsBlank(req.description.value)
  {
    if req.licensePlate.Some? {
      PlatePatternMeaning(req.licensePlate.value);
      var p := req.licensePlate.value;
      if IsPlate(p) {
        assert !IsAsciiSpace(p[0]);
      }
    }
    if ValidationErrors(req) == {} {
      assert LicensePlateField !in ValidationErrors(req);
      assert DescriptionField !in ValidationErrors(req);
    }
  }
}
