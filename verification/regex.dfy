/** The fragment of regular-expression syntax the validators use, with its
matching relation.

`Matches(re, s, i, j)` holds when `re` matches exactly the characters
`s[i..j]`. A pattern written between `^` and `$` accepts a string when it
matches the whole string, which is `FullMatch`.
 */
module Regex {
  import opened Text

  /** The single-character classes that occur in the patterns. */
  datatype CharClass =
    | UpperAZ       // [A-Z]
    | Digit         // \d
    | Space         // \s
    | NotSpaceOrAt  // [^\s@]
    | Lit(c: char)  // a literal character, escaped or not

  predicate InClass(cc: CharClass, c: char) {
    match cc
    case UpperAZ => IsUpperAZ(c)
    case Digit => IsAsciiDigit(c)
    case Space => IsAsciiSpace(c)
    case NotSpaceOrAt => !IsAsciiSpace(c) && c != '@'
    case Lit(d) => c == d
  }

  /** Patterns: the empty pattern, one character of a class, concatenation,
      alternation, `?` and `+`. */
  datatype Re =
    | Eps
    | Class(cc: CharClass)
    | Cat(left: Re, right: Re)
    | Alt(first: Re, second: Re)
    | Opt(body: Re)
    | Plus(body: Re)

  /** `re{n}`: exactly `n` copies of `re` in a row. */
  function Rep(re: Re, n: nat): Re {
    if n == 0 then Eps else Cat(re, Rep(re, n - 1))
  }

  /** `re` matches `s[i..j]`. */
  predicate Matches(re: Re, s: string, i: nat, j: nat)
    requires i <= j <= |s|
    decreases re, j - i
  {
    match re
    case Eps => i == j
    case Class(cc) => j == i + 1 && InClass(cc, s[i])
    case Cat(a, b) => exists k :: i <= k <= j && Matches(a, s, i, k) && Matches(b, s, k, j)
    case Alt(a, b) => Matches(a, s, i, j) || Matches(b, s, i, j)
    case Opt(a) => i == j || Matches(a, s, i, j)
    case Plus(a) =>
      || Matches(a, s, i, j)
      || exists k :: i < k < j && Matches(a, s, i, k) && Matches(Plus(a), s, k, j)
  }

  /** An anchored pattern `^re$` accepts `s`. */
  predicate FullMatch(re: Re, s: string) {
    Matches(re, s, 0, |s|)
  }

  /** Every character of `s[i..j]` is in class `cc`. */
  predicate AllIn(cc: CharClass, s: string, i: nat, j: nat)
    requires i <= j <= |s|
  {
    forall k :: i <= k < j ==> InClass(cc, s[k])
  }

  /** `[c]{n}` matches exactly the runs of `n` characters of the class. */
  lemma {:induction false} RepClass(cc: CharClass, n: nat, s: string, i: nat, j: nat)
    requires i <= j <= |s|
    ensures Matches(Rep(Class(cc), n), s, i, j) <==> j == i + n && AllIn(cc, s, i, j)
    decreases n
  {
    if n > 0 {
      var tail := Rep(Class(cc), n - 1);
      assert Rep(Class(cc), n) == Cat(Class(cc), tail);
      if Matches(Rep(Class(cc), n), s, i, j) {
        assert Matches(Cat(Class(cc), tail), s, i, j);
        var k :| i <= k <= j && Matches(Class(cc), s, i, k) && Matches(tail, s, k, j);
        RepClass(cc, n - 1, s, k, j);
      }
      if j == i + n && AllIn(cc, s, i, j) {
        RepClass(cc, n - 1, s, i + 1, j);
        assert Matches(Class(cc), s, i, i + 1) && Matches(tail, s, i + 1, j);
      }
    }
  }

  /** `[c]+` matches exactly the non-empty runs of characters of the class. */
  lemma {:induction false} PlusClass(cc: CharClass, s: string, i: nat, j: nat)
    requires i <= j <= |s|
    ensures Matches(Plus(Class(cc)), s, i, j) <==> i < j && AllIn(cc, s, i, j)
    decreases j - i
  {
    var re := Plus(Class(cc));
    if Matches(re, s, i, j) && !Matches(Class(cc), s, i, j) {
      assert Matches(re, s, i, j);
      var k :| i < k < j && Matches(Class(cc), s, i, k) && Matches(re, s, k, j);
      PlusClass(cc, s, k, j);
    }
    if i + 1 < j && AllIn(cc, s, i, j) {
      PlusClass(cc, s, i + 1, j);
      assert Matches(Class(cc), s, i, i + 1) && Matches(re, s, i + 1, j);
    }
  }

  /** When `a` can only match `n` characters from `i`, `a b` splits after
      those `n`. */
  lemma CatAfterFixed(a: Re, b: Re, n: nat, s: string, i: nat, j: nat)
    requires i <= j <= |s|
    requires forall k :: i <= k <= j && Matches(a, s, i, k) ==> k == i + n
    ensures Matches(Cat(a, b), s, i, j) <==> i + n <= j && Matches(a, s, i, i + n) && Matches(b, s, i + n, j)
  {
    if i + n <= j && Matches(a, s, i, i + n) && Matches(b, s, i + n, j) {
      assert Matches(Cat(a, b), s, i, j);
    }
  }

  /** When `a` can only match one character from `i`, `a? b` is either `b`
      alone or that character followed by `b`. */
  lemma OptThen(a: Re, b: Re, s: string, i: nat, j: nat)
    requires i <= j <= |s|
    requires forall k :: i <= k <= j && Matches(a, s, i, k) ==> k == i + 1
    ensures Matches(Cat(Opt(a), b), s, i, j) <==>
      || Matches(b, s, i, j)
      || (i + 1 <= j && Matches(a, s, i, i + 1) && Matches(b, s, i + 1, j))
  {
    if Matches(Cat(Opt(a), b), s, i, j) {
      assert Matches(Cat(Opt(a), b), s, i, j);
      var k :| i <= k <= j && Matches(Opt(a), s, i, k) && Matches(b, s, k, j);
      assert Matches(Opt(a), s, i, k);
      assert k == i || Matches(a, s, i, k);
    }
    if Matches(b, s, i, j) {
      assert Matches(Opt(a), s, i, i);
    }
    if i + 1 <= j && Matches(a, s, i, i + 1) && Matches(b, s, i + 1, j) {
      assert Matches(Opt(a), s, i, i + 1);
    }
  }
}
