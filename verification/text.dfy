/** Character classes and string helpers, restricted to ASCII.

.NET's `\d` and `\s`, JavaScript's `\s`, and culture-sensitive `ToUpper`
all reach beyond ASCII; this model does not.
 */
module Text {

  predicate IsUpperAZ(c: char) { 'A' <= c <= 'Z' }

  predicate IsLowerAZ(c: char) { 'a' <= c <= 'z' }

  predicate IsAsciiDigit(c: char) { '0' <= c <= '9' }

  /** The ASCII members of the `\s` class: space, tab, line feed,
      vertical tab, form feed and carriage return. */
  predicate IsAsciiSpace(c: char) {
    c == ' ' || c == '\t' || c == '\n' || c == '\U{B}' || c == '\U{C}' || c == '\r'
  }

  /** A string that `string.Trim()` would reduce to the empty string. */
  predicate IsBlank(s: string) {
    forall i :: 0 <= i < |s| ==> IsAsciiSpace(s[i])
  }

  /** `char.ToUpper` under the current culture, restricted to ASCII a-z. */
  function UpperChar(c: char): (u: char)
    ensures IsLowerAZ(c) ==> IsUpperAZ(u) && u as int == c as int - 32
    ensures !IsLowerAZ(c) ==> u == c
  {
    if IsLowerAZ(c) then (c as int - 32) as char else c
  }

  /** `string.ToUpper()`: every character upper-cased in place. */
  function ToUpper(s: string): (r: string)
    ensures |r| == |s|
    ensures forall i :: 0 <= i < |s| ==> r[i] == UpperChar(s[i])
    ensures forall i :: 0 <= i < |r| ==> !IsLowerAZ(r[i])
  {
    seq(|s|, i requires 0 <= i < |s| => UpperChar(s[i]))
  }

  /** Upper-casing twice is upper-casing once. */
  lemma ToUpperIdempotent(s: string)
    ensures ToUpper(ToUpper(s)) == ToUpper(s)
  {
    var u := ToUpper(s);
    assert forall i :: 0 <= i < |u| ==> UpperChar(u[i]) == u[i];
  }

  /** A string with no lower-case letter is its own upper-case form. */
  lemma ToUpperFixesUpper(s: string)
    requires forall i :: 0 <= i < |s| ==> !IsLowerAZ(s[i])
    ensures ToUpper(s) == s
  {
  }
}
