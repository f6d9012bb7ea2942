/** `to_u32string` and `stoi` on 32-bit `int`, in the four number bases. */
module Numbers {
  import opened Machine
  import opened Wrappers

  const INT_MIN: int32 := -0x8000_0000
  const BUFFER_SIZE: nat := 32

  datatype Base = Binary | Octal | Decimal | Hexadecimal

  function Radix(base: Base): (r: nat)
    ensures 2 <= r <= 16
  {
    match base
    case Binary => 2
    case Octal => 8
    case Decimal => 10
    case Hexadecimal => 16
  }

  /** The `/` and `%` of C++: truncation toward zero. */
  function Quotient(a: int, b: nat): int
    requires b > 0
  {
    if a >= 0 then a / b else -((-a) / b)
  }

  function Remainder(a: int, b: nat): int
    requires b > 0
  {
    a - b * Quotient(a, b)
  }

  function Magnitude(n: int): nat {
    if n < 0 then -n else n
  }

  /** A character is its code; texts are code sequences. */
  type Text = seq<nat>

  function Code(c: char): nat { c as int }

  // ----- Printing -----

  function DigitCode(digit: int, base: Base): nat
    requires -16 < digit < 16
  {
    if base == Hexadecimal && digit > 9 then Code('A') + (digit - 10) else Code('0') + digit
  }

  lemma RemainderBounds(n: int, base: Base)
    ensures -16 < Remainder(n, Radix(base)) < 16
    ensures 0 <= n ==> 0 <= Remainder(n, Radix(base)) < Radix(base)
    ensures n <= 0 ==> 0 < Radix(base) + Remainder(n, Radix(base)) && Remainder(n, Radix(base)) <= 0
    ensures 2 * Magnitude(Quotient(n, Radix(base))) <= Magnitude(n)
    ensures base == Binary ==> 2 * Magnitude(Quotient(n, 2)) + 1 >= Magnitude(n)
  {
  }

  /** The printed digits, most significant first; nothing for 0. */
  function Digits(n: int, base: Base): Text
    decreases Magnitude(n)
  {
    if n == 0 then []
    else
      RemainderBounds(n, base);
      Digits(Quotient(n, Radix(base)), base) + [DigitCode(Remainder(n, Radix(base)), base)]
  }

  function PowerOfTwo(k: nat): nat {
    if k == 0 then 1 else 2 * PowerOfTwo(k - 1)
  }

  lemma {:induction false} DigitCountAtMost(n: int, base: Base, k: nat)
    requires Magnitude(n) < PowerOfTwo(k)
    ensures |Digits(n, base)| <= k
    decreases k
  {
    if n != 0 {
      RemainderBounds(n, base);
      DigitCountAtMost(Quotient(n, Radix(base)), base, k - 1);
    }
  }

  lemma {:induction false} BinaryDigitCountAtLeast(n: int, k: nat)
    requires PowerOfTwo(k) <= Magnitude(n)
    ensures |Digits(n, Binary)| > k
    decreases k
  {
    RemainderBounds(n, Binary);
    if k > 0 {
      BinaryDigitCountAtLeast(Quotient(n, 2), k - 1);
    }
  }

  /** Digits and NUL fit in the 32 slots for every int and base but the smallest int in binary. */
  lemma DigitsFitIff(n: int32, base: Base)
    ensures |Digits(n as int, base)| + 1 <= BUFFER_SIZE <==> !(n == INT_MIN && base == Binary)
  {
    assert PowerOfTwo(8) == 0x100;
    assert PowerOfTwo(16) == 0x1_0000;
    assert PowerOfTwo(24) == 0x100_0000;
    assert PowerOfTwo(30) == 0x4000_0000;
    assert PowerOfTwo(31) == 0x8000_0000;
    if n != INT_MIN {
      DigitCountAtMost(n as int, base, 31);
    } else if base == Binary {
      BinaryDigitCountAtLeast(n as int, 31);
    } else {
      RemainderBounds(n as int, base);
      var q := Quotient(n as int, Radix(base));
      assert Magnitude(q) < PowerOfTwo(30);
      DigitCountAtMost(q, base, 30);
    }
  }

  function Reversed(s: Text): (r: Text)
    ensures |r| == |s|
  {
    if s == [] then [] else Reversed(s[1..]) + [s[0]]
  }

  lemma {:induction false} ReversedAt(s: Text, k: nat)
    requires k < |s|
    ensures Reversed(s)[k] == s[|s| - 1 - k]
  {
    if k < |s| - 1 { ReversedAt(s[1..], k); }
  }

  lemma {:induction false} ReversedSnoc(s: Text, c: nat)
    ensures Reversed(s + [c]) == [c] + Reversed(s)
  {
    if s != [] {
      assert (s + [c])[1..] == s[1..] + [c];
      ReversedSnoc(s[1..], c);
    } else {
      assert s + [c] == [c] && [c][1..] == [];
    }
  }

  /** `std::reverse` of the first `n` slots. */
  method Reverse(buffer: array<nat>, n: nat)
    requires n <= buffer.Length
    modifies buffer
    ensures buffer[..] == Reversed(old(buffer[..n])) + old(buffer[n..])
  {
    ghost var was := buffer[..];
    var lo, hi := 0, n;
    while lo + 1 < hi
      invariant lo + hi == n && lo <= hi + 1
      invariant forall k :: 0 <= k < lo || hi <= k < n ==> buffer[k] == was[n - 1 - k]
      invariant forall k :: lo <= k < hi || n <= k < buffer.Length ==> buffer[k] == was[k]
    {
      hi := hi - 1;
      buffer[lo], buffer[hi] := buffer[hi], buffer[lo];
      lo := lo + 1;
    }
    forall k | 0 <= k < n ensures buffer[k] == Reversed(was[..n])[k] {
      ReversedAt(was[..n], k);
    }
    assert buffer[..] == Reversed(was[..n]) + was[n..];
  }

  /** Reading the buffer as a NUL-terminated string. */
  method ReadTerminated(buffer: array<nat>, ghost text: Text) returns (r: Text)
    requires |text| < buffer.Length && 0 !in text && buffer[|text|] == 0
    requires forall i :: 0 <= i < |text| ==> buffer[i] == text[i]
    ensures r == text
  {
    r := [];
    while buffer[|r|] != 0
      invariant |r| <= |text| && r == text[..|r|]
      decreases |text| - |r|
    {
      r := r + [buffer[|r|]];
    }
  }

  lemma {:induction false} DigitsHaveNoNul(n: int, base: Base)
    ensures 0 !in Digits(n, base)
    decreases Magnitude(n)
  {
    if n != 0 {
      RemainderBounds(n, base);
      DigitsHaveNoNul(Quotient(n, Radix(base)), base);
    }
  }

  lemma DigitsStep(n: int, base: Base)
    requires n != 0
    ensures -16 < Remainder(n, Radix(base)) < 16 && Magnitude(Quotient(n, Radix(base))) < Magnitude(n)
    ensures Digits(n, base) == Digits(Quotient(n, Radix(base)), base) + [DigitCode(Remainder(n, Radix(base)), base)]
  {
    RemainderBounds(n, base);
  }

  lemma EmptyDigits(base: Base)
    ensures Digits(0, base) == [] && Reversed([]) == []
  {
  }

  method ToU32String(number: int32, base: Base) returns (text: Text)
    requires !(number == INT_MIN && base == Binary)
    ensures text == Digits(number as int, base)
  {
    hide Digits, Reversed, Quotient, Remainder, DigitCode;
    var buffer := new nat[BUFFER_SIZE];
    var rest := number as int;
    var i := 0;
    ghost var digits := Digits(rest, base);
    DigitsFitIff(number, base);
    EmptyDigits(base);
    assert buffer[..0] == [];
    while rest != 0
      invariant 0 <= i && i + |Digits(rest, base)| == |digits|
      invariant digits == Digits(rest, base) + Reversed(buffer[..i])
      decreases Magnitude(rest)
    {
      DigitsStep(rest, base);
      var code := DigitCode(Remainder(rest, Radix(base)), base);
      ghost var before := buffer[..i];
      buffer[i] := code;
      assert buffer[..i + 1] == before + [code];
      ReversedSnoc(before, code);
      i := i + 1;
      rest := Quotient(rest, Radix(base));
    }
    buffer[i] := 0;
    assert digits == Reversed(buffer[..i]);
    Reverse(buffer, i);
    DigitsHaveNoNul(number as int, base);
    text := ReadTerminated(buffer, digits);
  }

  // ----- Parsing -----

  predicate IsSpace(c: nat) {
    c == Code(' ') || Code('\t') <= c <= Code('\r')
  }

  function Trimmed(src: Text): Text {
    if src != [] && IsSpace(src[0]) then Trimmed(src[1..]) else src
  }

  predicate IsLetter(c: nat, lower: char, upper: char) {
    c == Code(lower) || c == Code(upper)
  }

  /** The case-insensitive comparison with the two-character prefix looks at one character of a one-character text. */
  predicate LooksLikePrefix(t: Text, lower: char, upper: char)
    requires t != []
  {
    t[0] == Code('0') && (|t| == 1 || IsLetter(t[1], lower, upper))
  }

  /** How far the source advances over a base prefix. */
  function PrefixLength(t: Text, base: Base): nat
    requires t != []
  {
    match base
    case Binary => if IsLetter(t[0], 'b', 'B') then 1 else if LooksLikePrefix(t, 'b', 'B') then 2 else 0
    case Octal => if t[0] == Code('0') || IsLetter(t[0], 'o', 'O') then 1 else 0
    case Hexadecimal => if IsLetter(t[0], 'x', 'X') then 1 else if LooksLikePrefix(t, 'x', 'X') then 2 else 0
    case Decimal => 0
  }

  function DigitValue(c: nat, base: Base): (r: Option<nat>)
    ensures r.Some? ==> r.value < Radix(base)
  {
    if Code('0') <= c <= Code('9') && c - Code('0') < Radix(base) then Some(c - Code('0'))
    else if base == Hexadecimal && Code('A') <= c <= Code('F') then Some(10 + c - Code('A'))
    else if base == Hexadecimal && Code('a') <= c <= Code('f') then Some(10 + c - Code('a'))
    else None
  }

  /** The leading characters that are digits of the base. */
  function DigitRun(t: Text, base: Base): (r: Text)
    ensures |r| <= |t| && r == t[..|r|]
    ensures forall c <- r :: DigitValue(c, base).Some?
    ensures |r| < |t| ==> DigitValue(t[|r|], base).None?
  {
    if t == [] || DigitValue(t[0], base).None? then [] else [t[0]] + DigitRun(t[1..], base)
  }

  /** The number a digit text stands for. */
  function Value(digits: Text, base: Base): nat
    requires forall c <- digits :: DigitValue(c, base).Some?
  {
    if digits == [] then 0
    else Value(digits[..|digits| - 1], base) * Radix(base) + DigitValue(digits[|digits| - 1], base).value
  }

  lemma {:induction false} ValueGrows(digits: Text, base: Base, i: nat)
    requires i <= |digits| && forall c <- digits :: DigitValue(c, base).Some?
    ensures Value(digits[..i], base) <= Value(digits, base)
    decreases |digits|
  {
    hide DigitValue, Radix;
    if i == |digits| {
      assert digits[..i] == digits;
    } else {
      var shorter := digits[..|digits| - 1];
      ValueGrows(shorter, base, i);
      assert shorter[..i] == digits[..i];
      TimesAtLeastOne(Value(shorter, base), Radix(base));
    }
  }

  lemma TimesAtLeastOne(x: nat, r: nat)
    requires r >= 1
    ensures x <= x * r
  {
  }

  /** What `stoi` reads its digits from: the text behind spaces and prefix. */
  function Body(src: Text, base: Base, skipSpaces: bool): Text {
    var t := if skipSpaces then Trimmed(src) else src;
    if t == [] || PrefixLength(t, base) > |t| then [] else t[PrefixLength(t, base)..]
  }

  /** The calls whose behaviour C++ defines: there is a first character, the prefix test does not step past the end,
      and the number fits in an `int`. */
  predicate Readable(src: Text, base: Base, skipSpaces: bool) {
    var t := if skipSpaces then Trimmed(src) else src;
    src == [] ||
    (t != [] && PrefixLength(t, base) <= |t| && StoiValue(src, base, skipSpaces) < 0x8000_0000)
  }

  function StoiValue(src: Text, base: Base, skipSpaces: bool): nat {
    Value(DigitRun(Body(src, base, skipSpaces), base), base)
  }

  /** The prefix test steps past the end only on the text "0" in binary or hexadecimal. */
  lemma PrefixOverrunsIff(t: Text, base: Base)
    requires t != []
    ensures PrefixLength(t, base) > |t| <==> t == [Code('0')] && (base == Binary || base == Hexadecimal)
  {
  }

  /** The digit loop: it steps over the first invalid character before it stops. */
  method ReadDigits(t: Text, start: nat, base: Base) returns (value: int32, pos: nat)
    requires start <= |t| && Value(DigitRun(t[start..], base), base) < 0x8000_0000
    ensures value as int == Value(DigitRun(t[start..], base), base)
    ensures pos == Min(start + |DigitRun(t[start..], base)| + 1, |t|)
  {
    hide Value, DigitRun;
    ghost var digits := DigitRun(t[start..], base);
    var radix: int32 := Radix(base) as int32;
    value, pos := 0, start;
    var invalid := false;
    NoDigits(digits, base);
    while !invalid && pos < |t|
      invariant start <= pos <= |t|
      invariant invalid ==> pos == start + |digits| + 1 && value as int == Value(digits, base)
      invariant !invalid ==> pos - start <= |digits| && value as int == Value(digits[..pos - start], base)
    {
      ghost var i := pos - start;
      assert t[pos] == t[start..][i];
      var digit := DigitValue(t[pos], base);
      if digit.Some? {
        assert i < |digits|;
        StoiStep(digits, base, i);
        value := value * radix;
        value := value + digit.value as int32;
      } else {
        assert i == |digits| && digits[..i] == digits;
        invalid := true;
      }
      pos := pos + 1;
    }
    assert digits[..|digits|] == digits;
  }

  lemma NoDigits(digits: Text, base: Base)
    requires forall c <- digits :: DigitValue(c, base).Some?
    ensures Value(digits[..0], base) == 0
  {
  }

  method Stoi(src: Text, base: Base, skipSpaces: bool) returns (value: int32, pos: nat)
    requires Readable(src, base, skipSpaces)
    ensures value as int == StoiValue(src, base, skipSpaces)
    ensures src == [] ==> pos == 0
    ensures src != [] ==>
              var t := if skipSpaces then Trimmed(src) else src;
              pos == Min(PrefixLength(t, base) + |DigitRun(Body(src, base, skipSpaces), base)| + 1, |t|)
  {
    hide Value, DigitRun, PrefixLength;
    if src == [] {
      EmptyIsZero(base, skipSpaces);
      return 0, 0;
    }
    var t := src;
    if skipSpaces {
      t := Trimmed(src);
    }
    value, pos := ReadDigits(t, PrefixLength(t, base), base);
  }

  lemma EmptyIsZero(base: Base, skipSpaces: bool)
    ensures StoiValue([], base, skipSpaces) == 0
  {
  }

  lemma StoiStep(digits: Text, base: Base, i: nat)
    requires i < |digits| && forall c <- digits :: DigitValue(c, base).Some?
    ensures Value(digits[..i + 1], base) == Value(digits[..i], base) * Radix(base) + DigitValue(digits[i], base).value
    ensures Value(digits[..i + 1], base) <= Value(digits, base)
  {
    assert digits[..i + 1][..i] == digits[..i];
    ValueGrows(digits, base, i + 1);
  }

  // ----- Round trip -----

  lemma DecodesItself(digit: int, base: Base)
    requires 0 <= digit < Radix(base)
    ensures DigitValue(DigitCode(digit, base), base) == Some(digit)
  {
  }

  /** The printed digits of a non-negative number denote it. */
  lemma {:induction false} DigitsDenote(n: nat, base: Base)
    ensures forall c <- Digits(n, base) :: DigitValue(c, base).Some?
    ensures Value(Digits(n, base), base) == n
    decreases n
  {
    if n != 0 {
      RemainderBounds(n, base);
      var q, d := Quotient(n, Radix(base)), Remainder(n, Radix(base));
      DigitsDenote(q, base);
      DecodesItself(d, base);
      assert Digits(n, base)[..|Digits(n, base)| - 1] == Digits(q, base);
    }
  }

  /** The first printed digit is not 0; it has the sign of the number. */
  lemma {:induction false} LeadingDigit(n: int, base: Base) returns (d: int)
    requires n != 0
    ensures Digits(n, base) != [] && -16 < d < 16 && Digits(n, base)[0] == DigitCode(d, base)
    ensures n > 0 ==> 0 < d < Radix(base)
    ensures n < 0 ==> d < 0 < Radix(base) + d
    decreases Magnitude(n)
  {
    RemainderBounds(n, base);
    var q := Quotient(n, Radix(base));
    if q == 0 {
      d := n;
    } else {
      d := LeadingDigit(q, base);
    }
  }

  lemma AllDigitRun(t: Text, base: Base)
    requires forall c <- t :: DigitValue(c, base).Some?
    ensures DigitRun(t, base) == t
  {
  }

  /** A text that starts with a non-zero digit, or below '0', has no spaces and no prefix to skip. */
  lemma PlainStart(text: Text, digit: int, base: Base, skipSpaces: bool)
    requires text != [] && -16 < digit < Radix(base) && digit != 0 && text[0] == DigitCode(digit, base)
    ensures Trimmed(text) == text && PrefixLength(text, base) == 0 && Body(text, base, skipSpaces) == text
    ensures digit < 0 ==> DigitValue(text[0], base).None?
    ensures digit > 0 ==> text[0] != Code('0')
  {
    assert text[0..] == text;
  }

  /** Parsing what was printed gives the number back exactly when it is not negative; a negative number's first
      character lies below '0', so 0 is read. */
  lemma RoundTripIff(n: int32, base: Base, skipSpaces: bool)
    ensures Readable(Digits(n as int, base), base, skipSpaces)
    ensures StoiValue(Digits(n as int, base), base, skipSpaces) == n as int <==> n >= 0
    ensures n > 0 ==> Digits(n as int, base)[0] != Code('0')
  {
    hide Digits, DigitCode, Value, Trimmed, PrefixLength, Body, DigitValue, DigitRun;
    var text := Digits(n as int, base);
    if n == 0 {
      EmptyDigits(base);
      EmptyIsZero(base, skipSpaces);
    } else {
      var d := LeadingDigit(n as int, base);
      PlainStart(text, d, base, skipSpaces);
      if n > 0 {
        DigitsDenote(n as int, base);
        AllDigitRun(text, base);
      } else {
        NoDigitRun(text, base);
      }
    }
  }

  lemma NoDigitRun(t: Text, base: Base)
    requires t != [] && DigitValue(t[0], base).None?
    ensures DigitRun(t, base) == [] && Value([], base) == 0
  {
  }

  // ----- Which digits are printed -----

  const UPPER: string := "0123456789ABCDEF"
  const LOWER: string := "0123456789abcdef"

  /** Powers of the base. */
  function Power(base: Base, k: nat): (p: nat)
    ensures p >= 1
  {
    if k == 0 then 1 else TimesAtLeastOne(Radix(base), Power(base, k - 1)); Radix(base) * Power(base, k - 1)
  }

  lemma DigitIsItsPlace(digit: nat, base: Base)
    requires digit < Radix(base)
    ensures DigitCode(digit, base) == Code(UPPER[digit])
  {
  }

  /** A character has a value below the base exactly when it stands there in one of the two alphabets. */
  lemma DigitValueIff(c: nat, base: Base, digit: nat)
    ensures DigitValue(c, base) == Some(digit) <==>
            digit < Radix(base) && (c == Code(UPPER[digit]) || c == Code(LOWER[digit]))
  {
  }

  function Over(n: nat, d: nat): nat
    requires d > 0
  {
    n / d
  }

  lemma DivideTwice(n: nat, a: nat, b: nat)
    requires a > 0 && b > 0
    ensures a * b > 0 && Over(n, a * b) == Over(Over(n, a), b)
  {
    var q, s := n / a, n % a;
    var p, t := q / b, q % b;
    Compose(n, a, b, q, s, p, t);
    QuotientIs(n, a * b, p, a * t + s);
  }

  lemma Compose(n: nat, a: nat, b: nat, q: nat, s: nat, p: nat, t: nat)
    requires n == a * q + s && s < a && q == b * p + t && t < b
    ensures a * b > 0 && n == a * b * p + (a * t + s) && a * t + s < a * b
  {
    Distribute(a, b, p, t);
    TimesMonotone(a, t + 1, b);
    assert a * (t + 1) == a * t + a;
  }

  lemma Distribute(a: nat, b: nat, p: nat, t: nat)
    ensures a * (b * p + t) == a * b * p + a * t
  {
    assert a * (b * p + t) == a * (b * p) + a * t;
    assert a * (b * p) == a * b * p;
  }

  lemma TimesMonotone(a: nat, x: nat, y: nat)
    requires x <= y
    ensures a * x <= a * y
  {
  }

  lemma QuotientIs(n: nat, d: nat, q: nat, r: nat)
    requires d > 0 && n == d * q + r && r < d
    ensures n / d == q
  {
    MultipleIsFar(d, n / d - q);
    assert d * (n / d - q) == d * (n / d) - d * q;
  }

  function PlaceValue(n: nat, base: Base, k: nat): (digit: nat)
    ensures digit < Radix(base)
  {
    Over(n, Power(base, k)) % Radix(base)
  }

  /** The printed digit `k` places from the right is the number divided by the k-th power of the base, reduced. */
  lemma DigitAtPlace(n: nat, base: Base, k: nat)
    requires k < |Digits(n, base)|
    ensures Digits(n, base)[|Digits(n, base)| - 1 - k] == Code(UPPER[n / Power(base, k) % Radix(base)])
  {
    hide Digits, Radix;
    DigitIsPlaceValue(n, base, k);
  }

  lemma {:induction false} DigitIsPlaceValue(n: nat, base: Base, k: nat)
    requires k < |Digits(n, base)|
    ensures Digits(n, base)[|Digits(n, base)| - 1 - k] == Code(UPPER[PlaceValue(n, base, k)])
    decreases n
  {
    hide DigitCode, Remainder, Quotient, Radix, PlaceValue;
    DigitsStep(n, base);
    RestIsNatural(n, base);
    PlaceStep(n, base, k);
    if k == 0 {
      DigitIsItsPlace(Remainder(n, Radix(base)), base);
    } else {
      DigitIsPlaceValue(Quotient(n, Radix(base)), base, k - 1);
    }
  }

  lemma RestIsNatural(n: nat, base: Base)
    ensures 0 <= Quotient(n, Radix(base)) && 0 <= Remainder(n, Radix(base)) < Radix(base)
    ensures n > 0 ==> Quotient(n, Radix(base)) < n
  {
    RemainderBounds(n, base);
  }

  lemma PlaceStep(n: nat, base: Base, k: nat)
    ensures 0 <= Quotient(n, Radix(base))
    ensures PlaceValue(n, base, k) ==
            if k == 0 then Remainder(n, Radix(base)) else PlaceValue(Quotient(n, Radix(base)), base, k - 1)
  {
    QuotientIsDivision(n, Radix(base));
    hide Radix, Quotient, Remainder, Over;
    if k != 0 {
      DivideTwice(n, Radix(base), Power(base, k - 1));
    }
  }

  lemma QuotientIsDivision(n: nat, r: nat)
    requires r > 0
    ensures Quotient(n, r) == Over(n, r) && Remainder(n, r) == Over(n, 1) % r
  {
    assert n == r * (n / r) + n % r;
  }

  /** There are as many digits as the number needs, so none of them is a leading zero. */
  lemma {:induction false} DigitCountIsExact(n: nat, base: Base)
    requires n > 0
    ensures Digits(n, base) != []
    ensures Power(base, |Digits(n, base)| - 1) <= n < Power(base, |Digits(n, base)|)
    decreases n
  {
    DigitsStep(n, base);
    var r, q := Radix(base), Quotient(n, Radix(base));
    if q > 0 {
      DigitCountIsExact(q, base);
      var p := Power(base, |Digits(q, base)| - 1);
      TimesMonotone(r, p, q);
      TimesMonotone(r, q + 1, p * r);
    } else {
      assert Digits(q, base) == [];
    }
  }

  /** A negative number prints, in each place, as far below '0' as its opposite prints above. */
  lemma {:induction false} NegativeDigitsMirror(n: int, base: Base, i: nat)
    requires 0 <= n && i < |Digits(n, base)|
    ensures |Digits(-n, base)| == |Digits(n, base)|
    ensures DigitValue(Digits(n, base)[i], base).Some?
    ensures Digits(-n, base)[i] + DigitValue(Digits(n, base)[i], base).value == Code('0')
    decreases n
  {
    hide DigitCode, DigitValue, Quotient, Remainder, Radix;
    DigitsStep(n, base);
    DigitsStep(-n, base);
    var q, d := Quotient(n, Radix(base)), Remainder(n, Radix(base));
    RestIsNatural(n, base);
    NegatedSteps(n, Radix(base));
    MirroredDigit(d, base);
    if i < |Digits(q, base)| {
      NegativeDigitsMirror(q, base, i);
    } else if q > 0 {
      NegativeDigitsMirror(q, base, 0);
    }
  }

  lemma NegatedSteps(n: int, r: nat)
    requires 0 <= n && r > 0
    ensures Quotient(-n, r) == -Quotient(n, r) && Remainder(-n, r) == -Remainder(n, r)
  {
    assert n == 0 ==> n / r == 0;
    TimesNegated(r, n / r);
  }

  lemma TimesNegated(r: nat, q: int)
    ensures r * -q == -(r * q)
  {
  }

  lemma MirroredDigit(digit: int, base: Base)
    requires 0 <= digit < Radix(base)
    ensures DigitCode(-digit, base) + digit == Code('0')
    ensures DigitValue(DigitCode(digit, base), base) == Some(digit)
  {
  }

  // ----- What is read, however it is written -----

  const SPACES: Text := [32, 9, 10, 11, 12, 13]

  /** What may stand in front of the digits. */
  function Prefixes(base: Base): seq<string> {
    match base
    case Binary => ["", "b", "B", "0b", "0B"]
    case Octal => ["", "0", "o", "O"]
    case Decimal => [""]
    case Hexadecimal => ["", "x", "X", "0x", "0X"]
  }

  function Codes(s: string): (t: Text)
    ensures |t| == |s| && forall i :: 0 <= i < |s| ==> t[i] == Code(s[i])
  {
    seq(|s|, i requires 0 <= i < |s| => Code(s[i]))
  }

  lemma {:induction false} TrimmedSkipsSpaces(spaces: Text, t: Text)
    requires (forall c <- spaces :: c in SPACES) && (t != [] ==> t[0] !in SPACES)
    ensures Trimmed(spaces + t) == t
  {
    if spaces == [] {
      assert spaces + t == t;
    } else {
      assert (spaces + t)[1..] == spaces[1..] + t;
      assert spaces[0] in spaces;
      TrimmedSkipsSpaces(spaces[1..], t);
    }
  }

  /** The text is `n` in digits of the base, letters of either case, perhaps with zeros in front. */
  ghost predicate Spells(digits: Text, n: nat, base: Base) {
    var printed := Digits(n, base);
    |printed| <= |digits| && forall i :: 0 <= i < |digits| ==>
      DigitValue(digits[i], base) ==
      if i < |digits| - |printed| then Some(0) else DigitValue(printed[i - (|digits| - |printed|)], base)
  }

  lemma SpellsStep(digits: Text, n: nat, base: Base)
    requires Spells(digits, n, base) && digits != []
    ensures 0 <= Quotient(n, Radix(base)) && Spells(digits[..|digits| - 1], Quotient(n, Radix(base)), base)
    ensures DigitValue(digits[|digits| - 1], base) == Some(Remainder(n, Radix(base)))
  {
    hide DigitValue, DigitCode, Quotient, Remainder, Radix;
    RestIsNatural(n, base);
    if n == 0 {
      ZeroStep(base);
      EmptyDigits(base);
    } else {
      DigitsStep(n, base);
      MirroredDigit(Remainder(n, Radix(base)), base);
    }
  }

  lemma ZeroStep(base: Base)
    ensures Quotient(0, Radix(base)) == 0 && Remainder(0, Radix(base)) == 0
  {
  }

  lemma {:induction false} SpelledValue(digits: Text, n: nat, base: Base)
    requires Spells(digits, n, base)
    ensures (forall c <- digits :: DigitValue(c, base).Some?) && Value(digits, base) == n
    decreases |digits|
  {
    hide DigitValue, Digits;
    if digits == [] {
      NothingSpelled(n, base);
    } else {
      hide Spells, Quotient;
      var rest, c := digits[..|digits| - 1], digits[|digits| - 1];
      assert digits == rest + [c];
      SpellsStep(digits, n, base);
      SpelledValue(rest, Quotient(n, Radix(base)), base);
      Recompose(n, Radix(base));
    }
  }

  lemma Recompose(n: nat, r: nat)
    requires r > 0
    ensures Quotient(n, r) * r + Remainder(n, r) == n
  {
  }

  lemma NothingSpelled(n: nat, base: Base)
    requires Spells([], n, base)
    ensures n == 0
  {
    if n > 0 { DigitsStep(n, base); }
  }

  /** The text starts with no prefix of the base, and is not the "0" on which the prefix test steps past the end. */
  predicate NoPrefix(t: Text, base: Base) {
    && t != []
    && (forall p <- Prefixes(base) :: p != "" ==> !(Codes(p) <= t))
    && !(t == [Code('0')] && (base == Binary || base == Hexadecimal))
  }

  /** A prefix in front of the digits is skipped, and nothing else is. */
  lemma PrefixIsSkipped(prefix: string, t: Text, base: Base)
    requires prefix in Prefixes(base) && (prefix == "" ==> NoPrefix(t, base))
    ensures var text := Codes(prefix) + t;
            && text != [] && PrefixLength(text, base) == |prefix| && text[|prefix|..] == t
            && (prefix != "" ==> text[0] !in SPACES)
  {
    var text := Codes(prefix) + t;
    if prefix == "" {
      assert text == t;
      NothingToSkip(t, base);
    } else {
      assert text[0] == Code(prefix[0]);
      assert |prefix| == 2 ==> text[1] == Code(prefix[1]);
    }
  }

  lemma NothingToSkip(t: Text, base: Base)
    requires NoPrefix(t, base)
    ensures PrefixLength(t, base) == 0
  {
    NotInFront(t, base, 'b');
    NotInFront(t, base, 'B');
    NotInFront(t, base, 'o');
    NotInFront(t, base, 'O');
    NotInFront(t, base, '0');
    NotInFront(t, base, 'x');
    NotInFront(t, base, 'X');
    NeitherInFront(t, base, 'b', 'B');
    NeitherInFront(t, base, 'x', 'X');
  }

  lemma NotInFront(t: Text, base: Base, c: char)
    requires NoPrefix(t, base)
    ensures [c] in Prefixes(base) ==> t[0] != Code(c)
  {
    assert Codes([c]) == [Code(c)];
  }

  lemma NeitherInFront(t: Text, base: Base, c: char, d: char)
    requires NoPrefix(t, base)
    ensures ['0', c] in Prefixes(base) && ['0', d] in Prefixes(base) ==>
              |t| > 1 && t[0] == Code('0') ==> !IsLetter(t[1], c, d)
  {
    assert Codes(['0', c]) == [Code('0'), Code(c)] && Codes(['0', d]) == [Code('0'), Code(d)];
  }

  /** However a number is written, it is read: spaces if they are ignored, a prefix of the base, zeros, digits in either
      letter case, and anything that does not go on with a digit. Reading is defined exactly when the number fits. */
  lemma ReadsWhatIsWritten(n: nat, base: Base, skipSpaces: bool, spaces: Text, prefix: string, digits: Text, tail: Text)
    requires Spells(digits, n, base)
    requires (forall c <- spaces :: c in SPACES) && (skipSpaces || spaces == []) && prefix in Prefixes(base)
    requires prefix == "" ==> NoPrefix(digits + tail, base) && (skipSpaces ==> (digits + tail)[0] !in SPACES)
    requires tail != [] ==> DigitValue(tail[0], base).None?
    ensures var src := spaces + (Codes(prefix) + (digits + tail));
            && (Readable(src, base, skipSpaces) <==> n < 0x8000_0000)
            && StoiValue(src, base, skipSpaces) == n
            && Body(src, base, skipSpaces) == digits + tail
            && DigitRun(Body(src, base, skipSpaces), base) == digits
  {
    hide DigitValue, Trimmed, PrefixLength, Value, Spells, DigitRun, Prefixes;
    SpelledValue(digits, n, base);
    var body := digits + tail;
    var text := Codes(prefix) + body;
    PrefixIsSkipped(prefix, body, base);
    assert prefix == "" ==> text == body;
    if skipSpaces {
      TrimmedSkipsSpaces(spaces, text);
    }
    assert spaces == [] ==> spaces + text == text;
    RunOfDigits(digits, tail, base);
  }

  lemma {:induction false} RunOfDigits(digits: Text, tail: Text, base: Base)
    requires (forall c <- digits :: DigitValue(c, base).Some?) && (tail != [] ==> DigitValue(tail[0], base).None?)
    ensures DigitRun(digits + tail, base) == digits
  {
    hide DigitValue;
    if digits == [] {
      assert digits + tail == tail;
    } else {
      assert (digits + tail)[1..] == digits[1..] + tail && digits[0] in digits;
      RunOfDigits(digits[1..], tail, base);
    }
  }

  /** Twenty-six in the four bases. */
  lemma TwentySix()
    ensures Digits(26, Binary) == Codes("11010") && Digits(26, Octal) == Codes("32")
    ensures Digits(26, Decimal) == Codes("26") && Digits(26, Hexadecimal) == Codes("1A")
  {
    hide Digits;
    EmptyDigits(Binary);
    OneMoreDigit(0, 1, Binary);
    OneMoreDigit(1, 1, Binary);
    OneMoreDigit(3, 0, Binary);
    OneMoreDigit(6, 1, Binary);
    OneMoreDigit(13, 0, Binary);
    OneMoreDigit(0, 3, Octal);
    OneMoreDigit(3, 2, Octal);
    OneMoreDigit(0, 2, Decimal);
    OneMoreDigit(2, 6, Decimal);
    OneMoreDigit(0, 1, Hexadecimal);
    OneMoreDigit(1, 10, Hexadecimal);
    EmptyDigits(Octal);
    EmptyDigits(Decimal);
    EmptyDigits(Hexadecimal);
  }

  lemma OneMoreDigit(a: nat, b: nat, base: Base)
    requires b < Radix(base) && a + b > 0
    ensures Digits(Radix(base) * a + b, base) == Digits(a, base) + [DigitCode(b, base)]
  {
    hide Digits, DigitCode, Radix;
    var n := Radix(base) * a + b;
    TimesAtLeastOne(a, Radix(base));
    DigitsStep(n, base);
    QuotientIs(n, Radix(base), a, b);
  }
}
