/** `str_compare` on strings of signed 8-bit characters. */
module Comparing {

  newtype SignedChar = x: int | -128 <= x < 128

  type Chars = seq<SignedChar>

  /** The difference the source reports for two strings. */
  function Compare(a: Chars, b: Chars): int {
    if a == [] && b == [] then 0
    else if a == [] then -(b[0] as int)
    else if b == [] then a[0] as int
    else if a[0] != b[0] then a[0] as int - b[0] as int
    else Compare(a[1..], b[1..])
  }

  lemma {:induction false} CompareBehind(a: Chars, b: Chars, i: nat)
    requires i <= |a| && i <= |b| && a[..i] == b[..i]
    ensures Compare(a, b) == Compare(a[i..], b[i..])
  {
    if i == 0 {
      assert a[0..] == a && b[0..] == b;
    } else {
      assert a[0] == a[..i][0] == b[..i][0] == b[0];
      assert a[1..][..i - 1] == a[..i][1..] == b[..i][1..] == b[1..][..i - 1];
      CompareBehind(a[1..], b[1..], i - 1);
      assert a[1..][i - 1..] == a[i..] && b[1..][i - 1..] == b[i..];
    }
  }

  method StrCompare(a: Chars, b: Chars) returns (r: int)
    ensures r == Compare(a, b)
  {
    if a == [] {
      return if b == [] then 0 else -(b[0] as int);
    }
    if b == [] {
      return a[0] as int;
    }
    var n := if |a| < |b| then |a| else |b|;
    var i := 0;
    while i < n
      invariant 0 <= i <= n && a[..i] == b[..i]
    {
      if a[i] != b[i] {
        CompareBehind(a, b, i);
        return a[i] as int - b[i] as int;
      }
      i := i + 1;
    }
    CompareBehind(a, b, i);
    if |a| == |b| {
      return 0;
    }
    if |a| > |b| {
      return a[i] as int;
    }
    return -(b[i] as int);
  }

  /** Character `i` of the NUL-terminated form. */
  function At(s: Chars, i: nat): int {
    if i < |s| then s[i] as int else 0
  }

  /** A non-zero answer is the first difference between the NUL-terminated forms. */
  lemma {:induction false} CompareIsFirstDifference(a: Chars, b: Chars) returns (i: nat)
    requires Compare(a, b) != 0
    ensures i <= |a| && i <= |b| && a[..i] == b[..i]
    ensures Compare(a, b) == At(a, i) - At(b, i)
  {
    if a == [] || b == [] || a[0] != b[0] {
      i := 0;
    } else {
      var j := CompareIsFirstDifference(a[1..], b[1..]);
      i := j + 1;
      assert a[..i] == [a[0]] + a[1..][..j] && b[..i] == [b[0]] + b[1..][..j];
    }
  }

  /** Swapping the strings negates the answer. */
  lemma {:induction false} CompareIsAntisymmetric(a: Chars, b: Chars)
    ensures Compare(a, b) == -Compare(b, a)
  {
    if a != [] && b != [] && a[0] == b[0] {
      CompareIsAntisymmetric(a[1..], b[1..]);
    }
  }

  /** `s` goes on with a NUL where the common part ends. */
  predicate ContinuesWithNul(short: Chars, s: Chars) {
    short < s && s[|short|] == 0
  }

  /** The answer is 0 for equal strings and for strings that one embedded NUL tells apart, and for no others. */
  lemma {:induction false} CompareIsZeroIff(a: Chars, b: Chars)
    ensures Compare(a, b) == 0 <==> a == b || ContinuesWithNul(a, b) || ContinuesWithNul(b, a)
  {
    if a != [] && b != [] && a[0] == b[0] {
      CompareIsZeroIff(a[1..], b[1..]);
      assert a == [a[0]] + a[1..] && b == [b[0]] + b[1..];
      assert ContinuesWithNul(a, b) <==> ContinuesWithNul(a[1..], b[1..]);
      assert ContinuesWithNul(b, a) <==> ContinuesWithNul(b[1..], a[1..]);
    }
  }

  /** The order turns around over a middle string in exactly one situation: both outer strings continue it with
      a NUL, and behind those NULs they compare the other way. */
  lemma {:induction false} TransitivityFailsIff(a: Chars, b: Chars, c: Chars)
    requires Compare(a, b) <= 0 && Compare(b, c) <= 0
    ensures Compare(a, c) > 0 <==>
            ContinuesWithNul(b, a) && ContinuesWithNul(b, c) && Compare(a[|b| + 1..], c[|b| + 1..]) > 0
  {
    if a != [] && b != [] && c != [] && a[0] == b[0] == c[0] {
      TransitivityFailsIff(a[1..], b[1..], c[1..]);
      DropCommonHead(b, a);
      DropCommonHead(b, c);
      if ContinuesWithNul(b, a) && ContinuesWithNul(b, c) {
        assert a[1..][|b|..] == a[|b| + 1..] && c[1..][|b|..] == c[|b| + 1..];
      }
    }
  }

  lemma DropCommonHead(short: Chars, s: Chars)
    requires short != [] && s != [] && short[0] == s[0]
    ensures ContinuesWithNul(short, s) <==> ContinuesWithNul(short[1..], s[1..])
  {
    assert short == [short[0]] + short[1..] && s == [s[0]] + s[1..];
  }

  /** Transitivity holds unless both outer strings continue the middle one with a NUL. */
  lemma CompareIsTransitive(a: Chars, b: Chars, c: Chars)
    requires Compare(a, b) <= 0 && Compare(b, c) <= 0
    ensures !(ContinuesWithNul(b, a) && ContinuesWithNul(b, c)) ==> Compare(a, c) <= 0
  {
    TransitivityFailsIff(a, b, c);
  }

  /** On strings without embedded NULs the comparison is a total order, characters below NUL included. */
  lemma NulFreeOrder(a: Chars, b: Chars, c: Chars)
    requires 0 !in a && 0 !in b && 0 !in c
    requires Compare(a, b) <= 0 && Compare(b, c) <= 0
    ensures Compare(a, c) <= 0
    ensures Compare(a, c) == 0 ==> a == b == c
  {
    CompareIsTransitive(a, b, c);
    CompareIsZeroIff(a, c);
    CompareIsAntisymmetric(a, b);
    CompareIsZeroIff(a, b);
  }

  /** When both outer strings continue the middle one with a NUL, the middle one equals both, and they differ
      unless they are equal themselves or one embedded NUL tells them apart. */
  lemma EqualToBoth(a: Chars, b: Chars, c: Chars)
    requires ContinuesWithNul(b, a) && ContinuesWithNul(b, c)
    ensures Compare(a, b) == 0 == Compare(b, c)
    ensures Compare(a, c) != 0 <==> a != c && !ContinuesWithNul(a, c) && !ContinuesWithNul(c, a)
  {
    CompareIsZeroIff(a, b);
    CompareIsZeroIff(b, c);
    CompareIsZeroIff(a, c);
  }

  /** So 0 is no equivalence: it is carried over the middle string except in exactly that situation. */
  lemma ZeroIsCarriedOverIff(a: Chars, b: Chars, c: Chars)
    requires Compare(a, b) == 0 && Compare(b, c) == 0
    ensures Compare(a, c) != 0 <==>
            && ContinuesWithNul(b, a) && ContinuesWithNul(b, c)
            && a != c && !ContinuesWithNul(a, c) && !ContinuesWithNul(c, a)
  {
    CompareIsAntisymmetric(a, b);
    CompareIsAntisymmetric(b, c);
    CompareIsAntisymmetric(a, c);
    TransitivityFailsIff(a, b, c);
    TransitivityFailsIff(c, b, a);
    if ContinuesWithNul(b, a) && ContinuesWithNul(b, c) {
      EqualToBoth(a, b, c);
    }
  }

  /** A failing triple: the empty string equals both outer strings, which differ behind their NULs. */
  lemma EmbeddedNulBreaksTransitivity()
    ensures var a, b, c: Chars := [0, 2], [], [0];
            Compare(a, b) <= 0 && Compare(b, c) <= 0 && Compare(a, c) > 0
  {
    var a, b, c: Chars := [0, 2], [], [0];
    assert a[1..] == [2] && c[1..] == [];
    TransitivityFailsIff(a, b, c);
  }

  /** No failing triple has fewer characters than that one. */
  lemma FailureNeedsThreeCharacters(a: Chars, b: Chars, c: Chars)
    requires Compare(a, b) <= 0 && Compare(b, c) <= 0 && Compare(a, c) > 0
    ensures |a| + |b| + |c| >= 3
  {
    TransitivityFailsIff(a, b, c);
  }
}
