/** The two `version_data::get_version_number` overloads. */
module Versions {
  import opened Machine
  import opened Wrappers
  import opened TextSearch

  const DIGITS: string := "0123456789"

  // ----- Four fields -----

  datatype Version = Version(major: int32, minor: int32, revision: int32, subRevision: int32)

  /** The number the fields spell in base 100. */
  function Spelled(major: int, minor: int, revision: int, subRevision: int): int {
    ((major * 100 + minor) * 100 + revision) * 100 + subRevision
  }

  function PackedVersion(v: Version): nat {
    Wrap(Spelled(v.major as int, v.minor as int, v.revision as int, v.subRevision as int), ULONG)
  }

  /** One multiply-and-add round, with both results reduced to 32 bits. */
  function Round(number: nat, component: int): nat {
    Wrap(Wrap(number * 100, ULONG) + Wrap(component, ULONG), ULONG)
  }

  lemma RoundIsExact(x: int, component: int)
    ensures Round(Wrap(x, ULONG), component) == Wrap(x * 100 + component, ULONG)
  {
    var k, l, m := x / ULONG, (Wrap(x, ULONG) * 100) / ULONG, component / ULONG;
    var y := x * 100 + component;
    assert Wrap(Wrap(x, ULONG) * 100, ULONG) + Wrap(component, ULONG) == y + ULONG * -(100 * k + l + m);
    WrapOfMultiple(y, -(100 * k + l + m), ULONG);
  }

  method GetVersionNumber(v: Version) returns (number: nat)
    ensures number == PackedVersion(v)
    ensures number == Wrap(v.major as int * 1_000_000 + v.minor as int * 10_000 + v.revision as int * 100
                           + v.subRevision as int, ULONG)
  {
    hide Wrap, Spelled;
    var x, y, z, w := v.major as int, v.minor as int, v.revision as int, v.subRevision as int;
    number := 0;
    number := Wrap(number + Wrap(x, ULONG), ULONG);
    WrapTwice(x);
    number := Wrap(number * 100, ULONG);
    number := Wrap(number + Wrap(y, ULONG), ULONG);
    RoundIsExact(x, y);
    number := Wrap(number * 100, ULONG);
    number := Wrap(number + Wrap(z, ULONG), ULONG);
    RoundIsExact(x * 100 + y, z);
    number := Wrap(number * 100, ULONG);
    number := Wrap(number + Wrap(w, ULONG), ULONG);
    RoundIsExact((x * 100 + y) * 100 + z, w);
    SpelledOut(x, y, z, w);
  }

  lemma WrapTwice(x: int)
    ensures Wrap(0 + Wrap(x, ULONG), ULONG) == Wrap(x, ULONG)
  {
  }

  lemma SpelledOut(x: int, y: int, z: int, w: int)
    ensures Spelled(x, y, z, w) == ((x * 100 + y) * 100 + z) * 100 + w
    ensures Spelled(x, y, z, w) == x * 1_000_000 + y * 10_000 + z * 100 + w
  {
  }

  // ----- File name -----

  predicate IsDigit(c: char) {
    c in DIGITS
  }

  predicate AllDigits(s: string) {
    forall i :: 0 <= i < |s| ==> IsDigit(s[i])
  }

  predicate NoDigits(s: string) {
    forall i :: 0 <= i < |s| ==> !IsDigit(s[i])
  }

  function DigitOf(c: char): (d: nat)
    requires IsDigit(c)
    ensures d <= 9
  {
    c as int - '0' as int
  }

  /** `find_first_not_of(digits)`, with the end of the text for `npos`. */
  function EndOfDigits(s: string, start: nat): (end: nat)
    requires start <= |s|
    ensures start <= end <= |s|
    ensures AllDigits(s[start..end])
    ensures end < |s| ==> !IsDigit(s[end])
    decreases |s| - start
  {
    if start == |s| || !IsDigit(s[start]) then start
    else
      var end := EndOfDigits(s, start + 1);
      LongerSlice(s, start, end);
      end
  }

  lemma LongerSlice(s: string, start: nat, end: nat)
    requires start < end <= |s|
    ensures s[start..end] == [s[start]] + s[start + 1..end]
  {
  }

  /** The maximal digit runs of a text, from left to right. */
  function DigitGroups(s: string): seq<string>
    decreases |s|
  {
    if s == "" then []
    else if !IsDigit(s[0]) then DigitGroups(s[1..])
    else
      var end := EndOfDigits(s, 1);
      [s[..end]] + DigitGroups(s[end..])
  }

  function DecimalValue(digits: string): nat
    requires AllDigits(digits)
  {
    if digits == "" then 0
    else DecimalValue(digits[..|digits| - 1]) * 10 + DigitOf(digits[|digits| - 1])
  }

  /** Fold the groups into the number; `stoul` throws on a group above 2^32 - 1. */
  function PackedGroups(groups: seq<string>, number: nat): Result<nat>
    requires forall g <- groups :: AllDigits(g)
  {
    if groups == [] then Success(number)
    else
      assert groups[0] in groups;
      if DecimalValue(groups[0]) >= ULONG then Failure(OutOfRange)
      else PackedGroups(groups[1..], Round(number, DecimalValue(groups[0])))
  }

  lemma {:induction false} GroupsAreDigits(s: string)
    ensures forall g <- DigitGroups(s) :: AllDigits(g)
    decreases |s|
  {
    if s != "" {
      if !IsDigit(s[0]) {
        GroupsAreDigits(s[1..]);
      } else {
        var end := EndOfDigits(s, 1);
        assert s[..end] == [s[0]] + s[1..end];
        GroupsAreDigits(s[end..]);
      }
    }
  }

  function FileVersion(name: string): Result<nat> {
    GroupsAreDigits(name);
    PackedGroups(DigitGroups(name), 0)
  }

  /** Digit-free text in front adds no group. */
  lemma {:induction false} SkipNonDigits(s: string, t: string)
    requires NoDigits(s)
    ensures DigitGroups(s + t) == DigitGroups(t)
  {
    if s == "" {
      assert s + t == t;
    } else {
      assert (s + t)[1..] == s[1..] + t;
      SkipNonDigits(s[1..], t);
    }
  }

  lemma {:induction false} EndOfRun(run: string, t: string, start: nat)
    requires AllDigits(run) && (t != "" ==> !IsDigit(t[0])) && start <= |run|
    ensures EndOfDigits(run + t, start) == |run|
    decreases |run| - start
  {
    if start < |run| {
      assert (run + t)[start] == run[start];
      EndOfRun(run, t, start + 1);
    }
  }

  /** A digit run that no digit follows is one group. */
  lemma TakeRun(run: string, t: string)
    requires run != "" && AllDigits(run) && (t != "" ==> !IsDigit(t[0]))
    ensures DigitGroups(run + t) == [run] + DigitGroups(t)
  {
    assert (run + t)[0] == run[0];
    EndOfRun(run, t, 1);
    assert (run + t)[..|run|] == run && (run + t)[|run|..] == t;
  }

  /** The rest of a name from `start`, empty when the scan has stepped past the end. */
  function Rest(name: string, start: nat): string {
    if start <= |name| then name[start..] else ""
  }

  /** One round of the scan: `find_first_of`, `find_first_not_of`, and the step over the character behind the run. */
  lemma ScanStep(name: string, start: nat)
    ensures match FindFirstOf(name, DIGITS, start)
            case None => DigitGroups(Rest(name, start)) == []
            case Some(s) =>
              var end := EndOfDigits(name, s + 1);
              && AllDigits(name[s..end])
              && DigitGroups(Rest(name, start)) == [name[s..end]] + DigitGroups(Rest(name, end + 1))
  {
    hide FindFirstOf, EndOfDigits, DigitGroups, AllDigits, NoDigits, IsDigit, Rest;
    FirstDigit(name, start);
    match FindFirstOf(name, DIGITS, start) {
      case None =>
        NoDigitsNoGroups(Rest(name, start));
      case Some(s) =>
        SkipTo(name, start, s);
        RunIsAGroup(name, s, EndOfDigits(name, s + 1));
    }
  }

  lemma NoDigitsNoGroups(s: string)
    requires NoDigits(s)
    ensures DigitGroups(s) == []
  {
    hide IsDigit;
    SkipNonDigits(s, "");
    assert s + "" == s;
  }

  lemma SkipTo(name: string, start: nat, s: nat)
    requires start <= s <= |name| && NoDigits(name[start..s])
    ensures DigitGroups(Rest(name, start)) == DigitGroups(name[s..])
  {
    hide DigitGroups, NoDigits;
    SkipNonDigits(name[start..s], name[s..]);
    assert name[start..] == name[start..s] + name[s..];
  }

  lemma FirstDigit(name: string, start: nat)
    ensures match FindFirstOf(name, DIGITS, start)
            case None => NoDigits(Rest(name, start))
            case Some(s) => IsDigit(name[s]) && NoDigits(name[start..s])
  {
    hide FindFirstOf;
  }

  lemma RunIsAGroup(name: string, s: nat, end: nat)
    requires s < end <= |name| && IsDigit(name[s]) && AllDigits(name[s + 1..end])
    requires end < |name| ==> !IsDigit(name[end])
    ensures AllDigits(name[s..end]) && DigitGroups(name[s..]) == [name[s..end]] + DigitGroups(Rest(name, end + 1))
  {
    hide IsDigit, DigitGroups, Rest;
    StepOver(name, end);
    var run, tail := name[s..end], name[end..];
    LongerSlice(name, s, end);
    assert name[s..] == run + tail;
    TakeRun(run, tail);
  }

  /** The scan skips the character behind a run, which is no digit. */
  lemma StepOver(name: string, end: nat)
    requires end <= |name| && (end < |name| ==> !IsDigit(name[end]))
    ensures DigitGroups(name[end..]) == DigitGroups(Rest(name, end + 1))
  {
    hide DigitGroups, IsDigit;
    if end < |name| {
      SkipNonDigits([name[end]], name[end + 1..]);
      assert name[end..] == [name[end]] + name[end + 1..];
    } else {
      assert name[end..] == "";
    }
  }

  lemma PackedStep(run: string, rest: seq<string>, number: nat)
    requires AllDigits(run) && forall g <- rest :: AllDigits(g)
    ensures PackedGroups([run] + rest, number) ==
            if DecimalValue(run) >= ULONG then Failure(OutOfRange)
            else PackedGroups(rest, Round(number, DecimalValue(run)))
  {
    hide DecimalValue, Round, AllDigits;
    assert ([run] + rest)[1..] == rest;
  }

  method GetVersionNumberOfFile(name: string) returns (r: Result<nat>)
    ensures r == FileVersion(name)
  {
    hide FindFirstOf, EndOfDigits, DigitGroups, DecimalValue, Round, PackedGroups, AllDigits;
    var number, start := 0, 0;
    ghost var groups := DigitGroups(name);
    assert Rest(name, 0) == name;
    GroupsAreDigits(name);
    while true
      invariant groups == DigitGroups(Rest(name, start))
      invariant forall g <- groups :: AllDigits(g)
      invariant PackedGroups(groups, number) == FileVersion(name)
      decreases |name| - start
    {
      ScanStep(name, start);
      var found := FindFirstOf(name, DIGITS, start);
      if found.None? {
        NothingToPack(number);
        break;
      }
      start := found.value;
      var last := EndOfDigits(name, start + 1);
      groups := DigitGroups(Rest(name, last + 1));
      GroupsAreDigits(Rest(name, last + 1));
      PackedStep(name[start..last], groups, number);
      var value := DecimalValue(name[start..last]);
      if value >= ULONG {
        return Failure(OutOfRange);
      }
      number := Round(number, value);
      start := last + 1;
    }
    r := Success(number);
  }

  lemma NothingToPack(number: nat)
    ensures PackedGroups([], number) == Success(number)
  {
  }

  // ----- Printed numbers -----

  lemma DigitIsItsPlace(c: char)
    requires IsDigit(c)
    ensures DIGITS[DigitOf(c)] == c
  {
  }

  lemma PlaceIsItsDigit(d: nat)
    requires d <= 9
    ensures IsDigit(DIGITS[d]) && DigitOf(DIGITS[d]) == d
  {
  }

  /** A number in decimal, without leading zeros. */
  function Printed(n: nat): string {
    if n < 10 then [DIGITS[n]] else Printed(n / 10) + [DIGITS[n % 10]]
  }

  function Zeros(k: nat): string {
    seq(k, i => '0')
  }

  /** The text is the number in decimal, perhaps with zeros in front. */
  ghost predicate Shows(text: string, n: nat) {
    exists k: nat :: text == Zeros(k) + Printed(n)
  }

  lemma OneMoreDigit(digits: string, c: char)
    requires AllDigits(digits) && IsDigit(c)
    ensures AllDigits(digits + [c]) && DecimalValue(digits + [c]) == DecimalValue(digits) * 10 + DigitOf(c)
  {
    hide IsDigit, DigitOf;
    assert (digits + [c])[..|digits|] == digits;
  }

  lemma {:induction false} ZerosAreNothing(k: nat)
    ensures AllDigits(Zeros(k)) && DecimalValue(Zeros(k)) == 0
  {
    if k > 0 {
      ZerosAreNothing(k - 1);
      PlaceIsItsDigit(0);
      OneMoreDigit(Zeros(k - 1), '0');
      assert Zeros(k) == Zeros(k - 1) + ['0'];
    }
  }

  lemma {:induction false} PrintedReadsBack(k: nat, n: nat)
    ensures AllDigits(Zeros(k) + Printed(n)) && DecimalValue(Zeros(k) + Printed(n)) == n
  {
    hide DecimalValue, IsDigit, DigitOf;
    PlaceIsItsDigit(n % 10);
    if n < 10 {
      ZerosAreNothing(k);
      OneMoreDigit(Zeros(k), DIGITS[n]);
    } else {
      PrintedReadsBack(k, n / 10);
      OneMoreDigit(Zeros(k) + Printed(n / 10), DIGITS[n % 10]);
      assert Zeros(k) + Printed(n) == Zeros(k) + Printed(n / 10) + [DIGITS[n % 10]];
    }
  }

  /** The value of a digit text is the number it shows: reading undoes printing, zeros in front or not. */
  lemma DecimalValueIff(text: string, n: nat)
    requires text != "" && AllDigits(text)
    ensures DecimalValue(text) == n <==> Shows(text, n)
  {
    hide DecimalValue, IsDigit, AllDigits;
    if Shows(text, n) {
      var k: nat :| text == Zeros(k) + Printed(n);
      PrintedReadsBack(k, n);
    }
    ShowsItsValue(text);
  }

  lemma {:induction false} ShowsItsValue(text: string)
    requires text != "" && AllDigits(text)
    ensures Shows(text, DecimalValue(text))
  {
    hide IsDigit, DigitOf, DecimalValue, Shows;
    var rest, c := text[..|text| - 1], text[|text| - 1];
    assert text == rest + [c];
    OneMoreDigit(rest, c);
    if rest == "" {
      NoDigitsAreZero(rest);
      ShowsDigit(c);
    } else {
      ShowsItsValue(rest);
      ShowsOneMore(rest, DecimalValue(rest), c);
    }
  }

  lemma NoDigitsAreZero(s: string)
    requires s == ""
    ensures AllDigits(s) && DecimalValue(s) == 0
  {
  }

  lemma ShowsDigit(c: char)
    requires IsDigit(c)
    ensures Shows([c], DigitOf(c))
  {
    hide IsDigit, DigitOf;
    DigitIsItsPlace(c);
    assert [c] == Zeros(0) + Printed(DigitOf(c));
  }

  lemma ShowsOneMore(rest: string, m: nat, c: char)
    requires Shows(rest, m) && IsDigit(c)
    ensures Shows(rest + [c], m * 10 + DigitOf(c))
  {
    hide IsDigit, DigitOf;
    var n := m * 10 + DigitOf(c);
    DigitIsItsPlace(c);
    var k: nat :| rest == Zeros(k) + Printed(m);
    if m == 0 {
      assert rest + [c] == Zeros(k + 1) + Printed(n);
    } else {
      assert n / 10 == m && n % 10 == DigitOf(c);
      assert rest + [c] == Zeros(k) + Printed(n);
    }
  }

  // ----- Names with any number of groups -----

  /** Digit groups with a gap before each of them and one at the end. */
  function Woven(gaps: seq<string>, groups: seq<string>): string
    requires |gaps| == |groups| + 1
  {
    if groups == [] then gaps[0] else gaps[0] + (groups[0] + Woven(gaps[1..], groups[1..]))
  }

  /** No gap holds a digit, and only the outer ones may be empty. */
  predicate WellFormed(gaps: seq<string>, groups: seq<string>) {
    && |gaps| == |groups| + 1
    && (forall g <- gaps :: NoDigits(g))
    && (forall i :: 1 <= i < |groups| ==> gaps[i] != "")
    && "" !in groups
    && (forall g <- groups :: AllDigits(g))
  }

  /** The scan finds exactly the groups, whatever digit-free text surrounds them, even none at the ends. */
  lemma {:induction false} GroupsOfName(gaps: seq<string>, groups: seq<string>)
    requires WellFormed(gaps, groups)
    ensures DigitGroups(Woven(gaps, groups)) == groups
    decreases |groups|
  {
    hide DigitGroups, IsDigit;
    assert gaps[0] in gaps;
    if groups == [] {
      NoDigitsNoGroups(gaps[0]);
    } else {
      var rest := Woven(gaps[1..], groups[1..]);
      assert groups[0] in groups;
      GroupsOfName(gaps[1..], groups[1..]);
      SkipNonDigits(gaps[0], groups[0] + rest);
      GapEndsGroup(gaps, groups);
      TakeRun(groups[0], rest);
    }
  }

  lemma GapEndsGroup(gaps: seq<string>, groups: seq<string>)
    requires WellFormed(gaps, groups) && groups != []
    ensures var rest := Woven(gaps[1..], groups[1..]);
            rest != "" ==> !IsDigit(rest[0])
  {
    hide IsDigit;
    assert gaps[1] in gaps;
  }

  /** Every name is of this form. */
  lemma {:induction false} EveryNameIsWoven(name: string) returns (gaps: seq<string>, groups: seq<string>)
    ensures WellFormed(gaps, groups) && Woven(gaps, groups) == name
  {
    hide IsDigit;
    if name == "" {
      gaps, groups := [""], [];
    } else {
      var gaps', groups' := EveryNameIsWoven(name[1..]);
      var c := [name[0]];
      assert name == c + name[1..];
      assert gaps'[0] in gaps';
      if !IsDigit(name[0]) {
        gaps, groups := [c + gaps'[0]] + gaps'[1..], groups';
        assert forall g <- gaps'[1..] :: g in gaps';
        assert gaps[1..] == gaps'[1..];
      } else if gaps'[0] == "" && groups' != [] {
        gaps, groups := gaps', [c + groups'[0]] + groups'[1..];
        assert groups'[0] in groups' && forall g <- groups'[1..] :: g in groups';
        assert groups[1..] == groups'[1..];
      } else {
        gaps, groups := [""] + gaps', [c] + groups';
        assert gaps[1..] == gaps' && groups[1..] == groups';
      }
    }
  }

  /** The number that values spell in base 100. */
  function Base100(values: seq<nat>): nat {
    if values == [] then 0 else Base100(values[..|values| - 1]) * 100 + values[|values| - 1]
  }

  /** What `stoul` makes of a number. */
  predicate FitsULong(n: nat) {
    n < ULONG
  }

  ghost predicate ShowAll(groups: seq<string>, values: seq<nat>) {
    |groups| == |values| && forall i :: 0 <= i < |groups| ==> Shows(groups[i], values[i])
  }

  /** Rounds that wrap after every group spell the number that wraps once. */
  lemma {:induction false} PackedGroupsSpell(groups: seq<string>, values: seq<nat>, done: seq<nat>)
    requires ShowAll(groups, values) && "" !in groups && forall g <- groups :: AllDigits(g)
    ensures PackedGroups(groups, Wrap(Base100(done), ULONG)) ==
            if forall n <- values :: FitsULong(n) then Success(Wrap(Base100(done + values), ULONG))
            else Failure(OutOfRange)
    decreases |groups|
  {
    hide Wrap, DecimalValue, IsDigit, AllDigits, Round, Shows, Base100, PackedGroups, FitsULong;
    if groups == [] {
      NothingToPack(Wrap(Base100(done), ULONG));
      assert done + values == done;
    } else {
      var g, n, rest := groups[0], values[0], values[1..];
      assert groups == [g] + groups[1..];
      FitTogether(n, rest);
      assert values == [n] + rest;
      DecimalValueIff(g, n);
      PackedStep(g, groups[1..], Wrap(Base100(done), ULONG));
      RoundIsExact(Base100(done), n);
      Base100OneMore(done, n);
      assert done + [n] + rest == done + values;
      PackedGroupsSpell(groups[1..], rest, done + [n]);
    }
  }

  lemma FitTogether(n: nat, rest: seq<nat>)
    ensures (forall m <- [n] + rest :: FitsULong(m)) <==> n < ULONG && forall m <- rest :: FitsULong(m)
  {
    assert n in [n] + rest && forall m <- rest :: m in [n] + rest;
  }

  lemma Base100OneMore(values: seq<nat>, n: nat)
    ensures Base100(values + [n]) == Base100(values) * 100 + n
  {
    assert (values + [n])[..|values|] == values;
  }

  /** What the file-name overload returns for every name: the numbers shown by its groups, spelled in base 100 modulo
      2^32, or the error of `stoul` exactly when one is too large. */
  lemma FileVersionOfName(gaps: seq<string>, groups: seq<string>, values: seq<nat>)
    requires WellFormed(gaps, groups) && ShowAll(groups, values)
    ensures FileVersion(Woven(gaps, groups)) ==
            if forall n <- values :: FitsULong(n) then Success(Wrap(Base100(values), ULONG)) else Failure(OutOfRange)
  {
    hide DigitGroups, Shows, PackedGroups, Wrap, Woven, NoDigits, AllDigits, FitsULong;
    GroupsOfName(gaps, groups);
    PackedGroupsSpell(groups, values, []);
    assert [] + values == values;
    Base100OfNone();
    ZeroWraps();
  }

  /** So the result is known for every name there is: it has groups, and each group shows a number. */
  lemma EveryFileVersion(name: string) returns (gaps: seq<string>, groups: seq<string>, values: seq<nat>)
    ensures WellFormed(gaps, groups) && Woven(gaps, groups) == name && ShowAll(groups, values)
    ensures FileVersion(name) ==
            if forall n <- values :: FitsULong(n) then Success(Wrap(Base100(values), ULONG)) else Failure(OutOfRange)
  {
    hide DecimalValue, Shows, Woven, IsDigit, AllDigits, FileVersion, FitsULong, Wrap;
    gaps, groups := EveryNameIsWoven(name);
    values := seq(|groups|, i requires 0 <= i < |groups| => assert groups[i] in groups; DecimalValue(groups[i]));
    forall i | 0 <= i < |groups| ensures Shows(groups[i], values[i]) {
      assert groups[i] in groups;
      ShowsItsValue(groups[i]);
    }
    FileVersionOfName(gaps, groups, values);
  }

  lemma ZeroWraps()
    ensures Wrap(0, ULONG) == 0
  {
  }

  // ----- Agreement -----

  /** The four groups show the fields of the version. */
  ghost predicate ShowsVersion(groups: seq<string>, v: Version) {
    && v.major >= 0 && v.minor >= 0 && v.revision >= 0 && v.subRevision >= 0
    && |groups| == 4
    && Shows(groups[0], v.major as nat) && Shows(groups[1], v.minor as nat)
    && Shows(groups[2], v.revision as nat) && Shows(groups[3], v.subRevision as nat)
  }

  /** The two overloads agree on every version with non-negative fields, however the name that shows it is dressed up
      and with any zeros in front of its components. */
  lemma OverloadsAgree(v: Version, gaps: seq<string>, groups: seq<string>)
    requires WellFormed(gaps, groups) && ShowsVersion(groups, v)
    ensures FileVersion(Woven(gaps, groups)) == Success(PackedVersion(v))
  {
    hide Woven, Wrap, WellFormed, Shows, Spelled;
    var values: seq<nat> := [v.major as nat, v.minor as nat, v.revision as nat, v.subRevision as nat];
    FileVersionOfName(gaps, groups, values);
    SpellFour(v.major as nat, v.minor as nat, v.revision as nat, v.subRevision as nat);
  }

  lemma SpellFour(a: nat, b: nat, c: nat, d: nat)
    ensures Base100([a, b, c, d]) == Spelled(a, b, c, d)
  {
    hide Base100;
    assert [] + [a] == [a] && [a] + [b] == [a, b] && [a, b] + [c] == [a, b, c] && [a, b, c] + [d] == [a, b, c, d];
    Base100OneMore([], a);
    Base100OneMore([a], b);
    Base100OneMore([a, b], c);
    Base100OneMore([a, b, c], d);
    Base100OfNone();
  }

  lemma Base100OfNone()
    ensures Base100([]) == 0
  {
  }

  lemma DecimalValueBound(digits: string)
    requires AllDigits(digits) && 1 <= |digits| <= 2
    ensures DecimalValue(digits) <= 99
  {
    hide IsDigit, DigitOf;
    assert digits[..0] == "";
    if |digits| == 2 {
      assert digits[..1][..0] == "";
      assert DecimalValue(digits[..1]) == DigitOf(digits[0]);
    }
  }

  /** With one- and two-digit components nothing wraps. */
  lemma TwoDigitComponents(v: Version, gaps: seq<string>, groups: seq<string>)
    requires WellFormed(gaps, groups) && ShowsVersion(groups, v) && forall g <- groups :: |g| <= 2
    ensures FileVersion(Woven(gaps, groups)) == Success(SpelledVersion(v)) && SpelledVersion(v) < 100_000_000
  {
    hide DecimalValue, AllDigits, Shows, Woven, FileVersion;
    OverloadsAgree(v, gaps, groups);
    TwoDigits(groups[0], v.major as nat);
    TwoDigits(groups[1], v.minor as nat);
    TwoDigits(groups[2], v.revision as nat);
    TwoDigits(groups[3], v.subRevision as nat);
    WrapIs(SpelledVersion(v), ULONG, 0, SpelledVersion(v));
  }

  lemma TwoDigits(group: string, n: nat)
    requires group != "" && AllDigits(group) && |group| <= 2 && Shows(group, n)
    ensures n <= 99
  {
    hide DecimalValue, AllDigits, Shows;
    DecimalValueIff(group, n);
    DecimalValueBound(group);
  }

  // ----- Order -----

  /** Version order: the first field that differs decides. */
  predicate Earlier(v: Version, w: Version) {
    v.major < w.major || (v.major == w.major && (
    v.minor < w.minor || (v.minor == w.minor && (
    v.revision < w.revision || (v.revision == w.revision && v.subRevision < w.subRevision)))))
  }

  /** Fields from 0 up to a bound for `major` and one for the others. */
  predicate Within(v: Version, majors: int32, others: int32) {
    0 <= v.major <= majors && 0 <= v.minor <= others && 0 <= v.revision <= others && 0 <= v.subRevision <= others
  }

  function SpelledVersion(v: Version): int {
    Spelled(v.major as int, v.minor as int, v.revision as int, v.subRevision as int)
  }

  /** Appending a base-100 digit refines the order. */
  lemma OneMoreField(x: int, a: int, y: int, b: int)
    requires 0 <= a <= 99 && 0 <= b <= 99
    ensures x * 100 + a < y * 100 + b <==> x < y || (x == y && a < b)
    ensures x * 100 + a == y * 100 + b <==> x == y && a == b
  {
  }

  /** The spelling orders versions when the lower fields have at most two digits, for every `major`. */
  lemma SpellingOrder(v: Version, w: Version, majors: int32)
    requires Within(v, majors, 99) && Within(w, majors, 99)
    ensures SpelledVersion(v) < SpelledVersion(w) <==> Earlier(v, w)
    ensures SpelledVersion(v) == SpelledVersion(w) <==> v == w
  {
    var a, b, c, d := v.major as int, v.minor as int, v.revision as int, v.subRevision as int;
    var x, y, z, u := w.major as int, w.minor as int, w.revision as int, w.subRevision as int;
    OneMoreField(a, b, x, y);
    OneMoreField(a * 100 + b, c, x * 100 + y, z);
    OneMoreField((a * 100 + b) * 100 + c, d, (x * 100 + y) * 100 + z, u);
  }

  /** Numeric order is version order, and equal numbers mean equal versions, as long as nothing wraps. */
  lemma NumberOrderIsVersionOrder(v: Version, w: Version, majors: int32)
    requires Within(v, majors, 99) && Within(w, majors, 99)
    requires SpelledVersion(v) < ULONG && SpelledVersion(w) < ULONG
    ensures PackedVersion(v) < PackedVersion(w) <==> Earlier(v, w)
    ensures PackedVersion(v) == PackedVersion(w) <==> v == w
  {
    hide Spelled, Wrap, PackedVersion, Earlier;
    SpellingOrder(v, w, majors);
    NothingWraps(v, majors);
    NothingWraps(w, majors);
  }

  lemma NothingWraps(v: Version, majors: int32)
    requires Within(v, majors, 99) && SpelledVersion(v) < ULONG
    ensures PackedVersion(v) == SpelledVersion(v)
  {
  }

  ghost predicate OrderHolds(majors: int32, others: int32) {
    forall v, w :: Within(v, majors, others) && Within(w, majors, others) ==>
      (PackedVersion(v) < PackedVersion(w) <==> Earlier(v, w))
  }

  /** Numeric order is version order on all versions up to some bounds exactly when the lower fields have at most two
      digits and the largest version does not reach 2^32. */
  lemma OrderHoldsIff(majors: int32, others: int32)
    requires 0 <= majors && 0 <= others
    ensures OrderHolds(majors, others) <==>
            others <= 99 && majors as int * 1_000_000 + others as int * 10_101 < ULONG
  {
    if others > 99 {
      OverfullFieldBreaksOrder(majors, others);
    } else if majors as int * 1_000_000 + others as int * 10_101 >= ULONG {
      LargeMajorBreaksOrder(majors, others);
    } else {
      forall v, w | Within(v, majors, others) && Within(w, majors, others)
        ensures PackedVersion(v) < PackedVersion(w) <==> Earlier(v, w)
      {
        NumberOrderIsVersionOrder(v, w, majors);
      }
    }
  }

  lemma OverfullFieldBreaksOrder(majors: int32, others: int32)
    requires 0 <= majors && 99 < others
    ensures !OrderHolds(majors, others)
  {
    var v, w := Version(0, 0, 0, 100), Version(0, 0, 1, 0);
    assert Within(v, majors, others) && Within(w, majors, others);
    assert Earlier(v, w) && PackedVersion(v) == PackedVersion(w);
  }

  /** From 2^32 on the number starts again at 0: version 1.0.0.0 overtakes the largest ones. */
  lemma LargeMajorBreaksOrder(majors: int32, others: int32)
    requires 0 <= majors && 0 <= others <= 99
    requires majors as int * 1_000_000 + others as int * 10_101 >= ULONG
    ensures !OrderHolds(majors, others)
  {
    var v := Version(1, 0, 0, 0);
    var w := if majors >= 4295 then Version(4295, 0, 0, 0) else Version(4294, others, others, others);
    assert Within(v, majors, others) && Within(w, majors, others);
    assert SpelledVersion(w) - ULONG < 1_000_000 && SpelledVersion(w) >= ULONG;
    WrapIs(SpelledVersion(w), ULONG, 1, SpelledVersion(w) - ULONG);
    assert Earlier(v, w) && PackedVersion(v) > PackedVersion(w);
  }

  /** A lower field above 99 spills into the field before it: the version has the number of a later one. */
  lemma OverfullFieldCollides(v: Version)
    ensures v.minor >= 100 && v.major < 0x7FFF_FFFF ==>
              var w := v.(major := v.major + 1, minor := v.minor - 100);
              Earlier(v, w) && PackedVersion(v) == PackedVersion(w)
    ensures v.revision >= 100 && v.minor < 0x7FFF_FFFF ==>
              var w := v.(minor := v.minor + 1, revision := v.revision - 100);
              Earlier(v, w) && PackedVersion(v) == PackedVersion(w)
    ensures v.subRevision >= 100 && v.revision < 0x7FFF_FFFF ==>
              var w := v.(revision := v.revision + 1, subRevision := v.subRevision - 100);
              Earlier(v, w) && PackedVersion(v) == PackedVersion(w)
  {
    hide Wrap;
  }
}
