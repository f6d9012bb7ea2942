/** `str_replace_all` and `str_replace_first_n` on strings: collect positions, then rebuild. */
module Replacing {
  import opened Wrappers
  import opened Machine
  import opened TextSearch
  import opened Joining
  import opened Splitting

  // ----- Specification -----

  /** `str_index_of` without case folding: an empty or too long needle is never found. */
  function StrIndexOf(text: string, needle: string, start: nat): Option<nat> {
    if text == "" || needle == "" || |needle| > |text| then None else Find(text, needle, start)
  }

  /** The leftmost non-overlapping occurrences at or after `start`. */
  function Positions(text: string, needle: string, start: nat): seq<nat>
    requires needle != ""
    decreases |text| - start
  {
    match Find(text, needle, start)
    case None => []
    case Some(p) => [p] + Positions(text, needle, p + |needle|)
  }

  /** `positions` ascend from `from` with room for `width` characters at each of them. */
  predicate Spaced(positions: seq<nat>, width: nat, from: nat, n: nat) {
    if positions == [] then from <= n
    else from <= positions[0] && positions[0] + width <= n && Spaced(positions[1..], width, positions[0] + width, n)
  }

  /** `text[from..]` with the `width` characters at each position replaced. */
  function Spliced(text: string, positions: seq<nat>, width: nat, replacement: string, from: nat): string
    requires Spaced(positions, width, from, |text|)
  {
    if positions == [] then text[from..]
    else
      text[from..positions[0]] + replacement +
      Spliced(text, positions[1..], width, replacement, positions[0] + width)
  }

  /** The capacity the source computes, every operation modulo 2^64. */
  function RequiredSize(textLen: nat, count: nat, needleLen: nat, replacementLen: nat): nat {
    var removed := Wrap(textLen - Wrap(count * needleLen, SIZE_T), SIZE_T);
    Wrap(Wrap(removed + Wrap(count * replacementLen, SIZE_T), SIZE_T) + 1, SIZE_T)
  }

  lemma {:induction false} PositionsAreSpaced(text: string, needle: string, start: nat, limit: nat)
    requires needle != "" && start <= |text|
    ensures Spaced(Take(Positions(text, needle, start), limit), |needle|, start, |text|)
    decreases |text| - start
  {
    hide MatchAt, Find;
    var all := Positions(text, needle, start);
    if all != [] && limit > 0 {
      PositionsAreSpaced(text, needle, all[0] + |needle|, limit - 1);
      assert Take(all, limit)[1..] == Take(all[1..], limit - 1);
    }
  }

  /** Searching may start past the end, where nothing is found; the rebuilding always starts at 0. */
  lemma {:induction false} PositionsFromZero(text: string, needle: string, start: nat, limit: nat)
    requires needle != ""
    ensures Spaced(Take(Positions(text, needle, start), limit), |needle|, 0, |text|)
  {
    if start <= |text| {
      PositionsAreSpaced(text, needle, start, limit);
    }
  }

  /** The occurrences that get replaced: the loop tests the limit only after its first round. */
  function Replaced(text: string, needle: string, start: nat, limit: Option<nat>): (positions: seq<nat>)
    ensures needle != "" ==> Spaced(positions, |needle|, 0, |text|)
  {
    if needle == "" then []
    else
      var all := Positions(text, needle, start);
      var n := match limit { case None => |all| case Some(n) => if n == 0 then 1 else n };
      PositionsFromZero(text, needle, start, n);
      Take(all, n)
  }

  // ----- The methods -----

  lemma PositionsStep(text: string, needle: string, from: nat, acc: seq<nat>)
    requires needle != ""
    ensures acc + Positions(text, needle, from) ==
            match Find(text, needle, from) {
              case None => acc
              case Some(p) => acc + [p] + Positions(text, needle, p + |needle|) }
  {
    hide Find, MatchAt;
    if Find(text, needle, from).Some? {
      var p := Find(text, needle, from).value;
      assert acc + ([p] + Positions(text, needle, p + |needle|)) == acc + [p] + Positions(text, needle, p + |needle|);
    }
  }

  /** The `do … while` collection loop; `limit` is absent in `str_replace_all`. */
  method CollectPositions(text: string, needle: string, start: nat, limit: Option<nat>) returns (positions: seq<nat>)
    requires text != "" && needle != "" && |needle| <= |text|
    ensures positions == Replaced(text, needle, start, limit)
  {
    hide MatchAt, Find, Positions;
    positions := [];
    var from := start;
    ghost var all := Positions(text, needle, start);
    while true
      invariant positions + Positions(text, needle, from) == all
      invariant positions == [] || limit.None? || |positions| < limit.value
      decreases |text| - from
    {
      var p := StrIndexOf(text, needle, from);
      if p.None? {
        PositionsStep(text, needle, from, positions);
        break;
      }
      PositionsStep(text, needle, from, positions);
      positions := positions + [p.value];
      from := p.value + |needle|;
      if limit.Some? && |positions| >= limit.value {
        assert all[..|positions|] == positions;
        break;
      }
    }
  }

  lemma {:induction false} SplicedStep(text: string, positions: seq<nat>, i: nat, width: nat, replacement: string,
                                       from: nat)
    requires i < |positions| && Spaced(positions[i..], width, from, |text|)
    ensures from <= positions[i] && positions[i] + width <= |text|
    ensures Spaced(positions[i + 1..], width, positions[i] + width, |text|)
    ensures Spliced(text, positions[i..], width, replacement, from) ==
            text[from..positions[i]] + replacement +
            Spliced(text, positions[i + 1..], width, replacement, positions[i] + width)
  {
    hide Spliced, Spaced;
    var rest := positions[i..];
    assert rest[0] == positions[i];
    assert rest[1..] == positions[i + 1..];
    SplicedFront(text, rest, width, replacement, from);
  }

  lemma {:induction false} SplicedFront(text: string, positions: seq<nat>, width: nat, replacement: string, from: nat)
    requires positions != [] && Spaced(positions, width, from, |text|)
    ensures from <= positions[0] && positions[0] + width <= |text|
    ensures Spaced(positions[1..], width, positions[0] + width, |text|)
    ensures Spliced(text, positions, width, replacement, from) ==
            text[from..positions[0]] + replacement +
            Spliced(text, positions[1..], width, replacement, positions[0] + width)
  {
  }

  method Rebuild(text: string, positions: seq<nat>, width: nat, replacement: string) returns (buffer: string)
    requires Spaced(positions, width, 0, |text|)
    ensures buffer == Spliced(text, positions, width, replacement, 0)
  {
    hide Spliced;
    buffer := "";
    var from: nat := 0;
    assert positions[0..] == positions;
    for i := 0 to |positions|
      invariant from <= |text| && Spaced(positions[i..], width, from, |text|)
      invariant buffer + Spliced(text, positions[i..], width, replacement, from) ==
                Spliced(text, positions, width, replacement, 0)
    {
      SplicedStep(text, positions, i, width, replacement, from);
      ghost var rest := Spliced(text, positions[i + 1..], width, replacement, positions[i] + width);
      assert buffer + (text[from..positions[i]] + replacement + rest) ==
             buffer + text[from..positions[i]] + replacement + rest;
      buffer := buffer + text[from..positions[i]];
      from := positions[i] + width;
      if replacement != "" {
        buffer := buffer + replacement;
      } else {
        assert buffer + replacement == buffer;
      }
    }
    SplicedTail(text, positions[|positions|..], width, replacement, from);
    buffer := buffer + text[from..];
  }

  lemma SplicedTail(text: string, positions: seq<nat>, width: nat, replacement: string, from: nat)
    requires positions == [] && from <= |text|
    ensures Spliced(text, positions, width, replacement, from) == text[from..]
  {
  }

  /** The text after replacing; an empty needle replaces nothing. */
  function ReplaceOutcome(text: string, needle: string, replacement: string, start: nat, limit: Option<nat>): string {
    if needle == "" then text
    else Spliced(text, Replaced(text, needle, start, limit), |needle|, replacement, 0)
  }

  // ----- Required size -----

  /** The removed characters all come from the text, so the subtraction never borrows. */
  lemma {:induction false} SplicedLength(text: string, positions: seq<nat>, width: nat, replacement: string, from: nat)
    requires Spaced(positions, width, from, |text|)
    ensures |positions| * width <= |text| - from
    ensures |Spliced(text, positions, width, replacement, from)| ==
            |text| - from - |positions| * width + |positions| * |replacement|
  {
    if positions != [] {
      SplicedLength(text, positions[1..], width, replacement, positions[0] + width);
      OneMoreTimes(|positions| - 1, width);
      OneMoreTimes(|positions| - 1, |replacement|);
    }
  }

  lemma OneMoreTimes(count: nat, size: nat)
    ensures (count + 1) * size == count * size + size
  {
  }

  /** The computed capacity is the result's length plus its NUL, modulo 2^64. */
  lemma RequiredSizeIsExact(text: string, needle: string, replacement: string, start: nat, limit: Option<nat>)
    requires needle != ""
    ensures |Replaced(text, needle, start, limit)| * |needle| <= |text|
    ensures RequiredSize(|text|, |Replaced(text, needle, start, limit)|, |needle|, |replacement|) ==
            Wrap(|ReplaceOutcome(text, needle, replacement, start, limit)| + 1, SIZE_T)
  {
    hide Spliced, Replaced, Wrap;
    var positions := Replaced(text, needle, start, limit);
    SplicedLength(text, positions, |needle|, replacement, 0);
    var removed, added := |positions| * |needle|, |positions| * |replacement|;
    WrapSum(|text|, removed, SIZE_T);
    WrapSum(Wrap(added, SIZE_T), |text| - removed, SIZE_T);
    WrapSum(|text| - removed, added, SIZE_T);
    WrapSum(1, |text| - removed + added, SIZE_T);
  }

  /** Nothing is found when the source returns early. */
  lemma NothingToReplace(text: string, needle: string, replacement: string, start: nat, limit: Option<nat>)
    requires text == "" || needle == "" || |needle| > |text|
    ensures Replaced(text, needle, start, limit) == []
    ensures ReplaceOutcome(text, needle, replacement, start, limit) == text
  {
    assert text[0..] == text;
  }

  /** The new text with the number of replaced needles. */
  datatype Replacement = Replacement(text: string, count: nat)

  method StrReplace(text: string, needle: string, replacement: string, start: nat, limit: Option<nat>)
    returns (r: Result<Replacement>, required: nat)
    requires |text| <= MAX_OBJECT
    ensures var outcome := ReplaceOutcome(text, needle, replacement, start, limit);
            && required == Wrap(|outcome| + 1, SIZE_T)
            && (|outcome| > MAX_OBJECT ==> r == Failure(LengthError))
            && (|outcome| <= MAX_OBJECT ==>
                  r == Success(Replacement(outcome, |Replaced(text, needle, start, limit)|)))
  {
    hide Find, Spliced, Wrap;
    if text == "" || needle == "" || |needle| > |text| {
      NothingToReplace(text, needle, replacement, start, limit);
      return Success(Replacement(text, 0)), Wrap(|text| + 1, SIZE_T);
    }
    var positions := CollectPositions(text, needle, start, limit);
    required := RequiredSize(|text|, |positions|, |needle|, |replacement|);
    RequiredSizeIsExact(text, needle, replacement, start, limit);
    var buffer := Rebuild(text, positions, |needle|, replacement);
    if |buffer| > MAX_OBJECT {
      return Failure(LengthError), required;
    }
    r := Success(Replacement(buffer, |positions|));
  }

  // ----- Replacing is joining what splitting gives -----

  /** `pieces` with `replacement` at the first `count` glues and `needle` at the others. */
  function MixedJoin(pieces: seq<string>, count: nat, replacement: string, needle: string): string {
    if count == 0 || |pieces| <= 1 then Join(pieces, needle)
    else pieces[0] + replacement + MixedJoin(pieces[1..], count - 1, replacement, needle)
  }

  lemma {:induction false} MixedJoinOfAll(pieces: seq<string>, count: nat, replacement: string, needle: string)
    requires |pieces| <= count + 1
    ensures MixedJoin(pieces, count, replacement, needle) == Join(pieces, replacement)
  {
    if count != 0 && |pieces| > 1 {
      MixedJoinOfAll(pieces[1..], count - 1, replacement, needle);
    }
  }

  /** The positions found are the cuts of the whole-needle split. */
  lemma {:induction false} SplicedIsMixedJoin(text: string, needle: string, replacement: string, from: nat, limit: nat)
    requires needle != "" && from <= |text|
    ensures |PiecesFrom(text, [needle], Keep, from)| == |Positions(text, needle, from)| + 1
    ensures Spaced(Take(Positions(text, needle, from), limit), |needle|, from, |text|)
    ensures Spliced(text, Take(Positions(text, needle, from), limit), |needle|, replacement, from) ==
            MixedJoin(PiecesFrom(text, [needle], Keep, from), limit, replacement, needle)
    decreases |text| - from
  {
    hide Find, FirstHit, MatchAt, PiecesFrom, Join;
    PositionsAreSpaced(text, needle, from, limit);
    WholeNeedleStep(text, needle, from);
    SplitIsLeftmost(text, needle, from);
    var all, pieces := Positions(text, needle, from), PiecesFrom(text, [needle], Keep, from);
    assert text[from..] == text[from..|text|];
    if all != [] {
      var next := all[0] + |needle|;
      SplicedIsMixedJoin(text, needle, replacement, next, if limit == 0 then 0 else limit - 1);
      assert pieces[1..] == PiecesFrom(text, [needle], Keep, next);
      assert limit != 0 ==> Take(all, limit)[1..] == Take(all[1..], limit - 1);
    }
  }

  /** A prefix in front of the first of three strings. */
  lemma PrefixedConcat(prefix: string, a: string, whole: string, b: string, c: string)
    requires whole == prefix + a
    ensures whole + b + c == prefix + (a + b + c)
  {
  }

  lemma {:induction false} SplicedKeepsPrefix(text: string, positions: seq<nat>, width: nat, replacement: string,
                                              start: nat)
    requires Spaced(positions, width, start, |text|) && start <= |text|
    ensures Spaced(positions, width, 0, |text|)
    ensures Spliced(text, positions, width, replacement, 0) ==
            text[..start] + Spliced(text, positions, width, replacement, start)
  {
    assert text[..start] + text[start..] == text == text[0..];
    if positions != [] {
      SplicedPrefixStep(text, positions, width, replacement, start);
    }
  }

  lemma {:induction false} SplicedPrefixStep(text: string, positions: seq<nat>, width: nat, replacement: string,
                                             start: nat)
    requires Spaced(positions, width, start, |text|) && positions != []
    ensures Spaced(positions, width, 0, |text|)
    ensures Spliced(text, positions, width, replacement, 0) ==
            text[..start] + Spliced(text, positions, width, replacement, start)
  {
    assert Spaced(positions, width, 0, |text|);
    hide Spliced, Spaced;
    assert positions[0..] == positions;
    SplicedStep(text, positions, 0, width, replacement, 0);
    SplicedStep(text, positions, 0, width, replacement, start);
    var p := positions[0];
    PrefixedConcat(text[..start], text[start..p], text[0..p], replacement,
                   Spliced(text, positions[1..], width, replacement, p + width));
  }

  /** Starting past the end is starting at the end: nothing is found. */
  lemma StartIsClamped(text: string, needle: string, start: nat)
    requires needle != ""
    ensures Positions(text, needle, start) == Positions(text, needle, Min(start, |text|))
  {
  }

  /** Replacing the first `n` needles keeps the text before `start` and, after it, changes the glue between the
      pieces at the first `n` places (at one place even when `n` is 0). */
  lemma ReplaceIsMixedJoin(text: string, needle: string, replacement: string, start: nat, n: nat)
    requires needle != ""
    ensures var s := Min(start, |text|);
            ReplaceOutcome(text, needle, replacement, start, Some(n)) ==
            text[..s] + MixedJoin(PiecesFrom(text, [needle], Keep, s), if n == 0 then 1 else n, replacement, needle)
    ensures var s := Min(start, |text|);
            |Replaced(text, needle, start, Some(n))| ==
            Min(if n == 0 then 1 else n, |PiecesFrom(text, [needle], Keep, s)| - 1)
  {
    hide Find, FirstHit, MatchAt, PiecesFrom, Spliced, MixedJoin;
    var s, limit := Min(start, |text|), if n == 0 then 1 else n;
    StartIsClamped(text, needle, start);
    SplicedIsMixedJoin(text, needle, replacement, s, limit);
    SplicedKeepsPrefix(text, Take(Positions(text, needle, s), limit), |needle|, replacement, s);
  }

  /** Replacing all needles is joining the pieces with the replacement; one needle fewer than pieces is replaced. */
  lemma ReplaceAllIsJoinOfSplit(text: string, needle: string, replacement: string, start: nat)
    requires needle != ""
    ensures var s := Min(start, |text|);
            && ReplaceOutcome(text, needle, replacement, start, None) ==
               text[..s] + Join(PiecesFrom(text, [needle], Keep, s), replacement)
            && |Replaced(text, needle, start, None)| == |PiecesFrom(text, [needle], Keep, s)| - 1
  {
    hide Find, FirstHit, MatchAt, PiecesFrom, Spliced, MixedJoin;
    var s := Min(start, |text|);
    StartIsClamped(text, needle, start);
    var all, pieces := Positions(text, needle, s), PiecesFrom(text, [needle], Keep, s);
    SplicedIsMixedJoin(text, needle, replacement, s, |all|);
    MixedJoinOfAll(pieces, |all|, replacement, needle);
    SplicedKeepsPrefix(text, all, |needle|, replacement, s);
  }

  /** A count of at least the number of occurrences replaces all of them. */
  lemma FirstNReachesAll(text: string, needle: string, replacement: string, start: nat, n: nat)
    requires needle != ""
    ensures |Replaced(text, needle, start, None)| <= n ==>
              ReplaceOutcome(text, needle, replacement, start, Some(n)) ==
              ReplaceOutcome(text, needle, replacement, start, None)
  {
  }

  /** The count is honoured exactly when it is not 0 or nothing occurs: the `do … while` replaces one needle for 0. */
  lemma CountIsHonouredIff(text: string, needle: string, start: nat, n: nat)
    requires needle != ""
    ensures |Replaced(text, needle, start, Some(n))| == Min(n, |Positions(text, needle, start)|)
            <==> n >= 1 || Find(text, needle, start).None?
  {
  }

  /** Putting the needle back is the identity: nothing but needles is replaced. */
  lemma ReplaceByItself(text: string, needle: string, start: nat, n: nat)
    requires needle != ""
    ensures ReplaceOutcome(text, needle, needle, start, Some(n)) == text
  {
    hide Find, FirstHit, MatchAt, PiecesFrom, ReplaceOutcome;
    var s := Min(start, |text|);
    ReplaceIsMixedJoin(text, needle, needle, start, n);
    MixedJoinWithNeedle(PiecesFrom(text, [needle], Keep, s), if n == 0 then 1 else n, needle);
    SplitIsLeftmost(text, needle, s);
    assert text == text[..s] + text[s..];
  }

  lemma {:induction false} MixedJoinWithNeedle(pieces: seq<string>, count: nat, needle: string)
    ensures MixedJoin(pieces, count, needle, needle) == Join(pieces, needle)
  {
    if count != 0 && |pieces| > 1 {
      MixedJoinWithNeedle(pieces[1..], count - 1, needle);
    }
  }

  // ----- Replacing in two stages -----

  /** The glues of a mixed join, laid open: the replacement up to piece `count`, the needle from there on. */
  lemma {:induction false} MixedJoinInTwo(pieces: seq<string>, count: nat, replacement: string, needle: string)
    requires 0 < count < |pieces|
    ensures MixedJoin(pieces, count, replacement, needle) ==
            Join(pieces[..count], replacement) + replacement + Join(pieces[count..], needle)
  {
    var rest := pieces[1..];
    assert pieces[..count][1..] == rest[..count - 1] && pieces[count..] == rest[count - 1..];
    if count > 1 {
      MixedJoinInTwo(rest, count - 1, replacement, needle);
      PrefixedConcat(pieces[0] + replacement, Join(rest[..count - 1], replacement), Join(pieces[..count], replacement),
                     replacement, Join(pieces[count..], needle));
    } else {
      assert rest[0..] == rest;
    }
  }

  /** The pieces behind the `k`-th needle are the split of the text from there on. */
  lemma {:induction false} PiecesBehind(text: string, needle: string, from: nat, k: nat)
    requires needle != "" && from <= |text| && 0 < k <= |Positions(text, needle, from)|
    ensures var end := Positions(text, needle, from)[k - 1] + |needle|;
            && end <= |text|
            && k < |PiecesFrom(text, [needle], Keep, from)|
            && PiecesFrom(text, [needle], Keep, from)[k..] == PiecesFrom(text, [needle], Keep, end)
    decreases k
  {
    hide Find, FirstHit, MatchAt, PiecesFrom;
    WholeNeedleStep(text, needle, from);
    var all := Positions(text, needle, from);
    var next := all[0] + |needle|;
    var pieces, rest := PiecesFrom(text, [needle], Keep, from), PiecesFrom(text, [needle], Keep, next);
    assert pieces[1..] == rest;
    SplicedIsMixedJoin(text, needle, needle, next, 0);
    if k > 1 {
      PiecesBehind(text, needle, next, k - 1);
      assert pieces[k..] == rest[k - 1..];
    }
  }

  /** Splitting depends only on the part of the text it looks at. */
  lemma PiecesOfEqualRests(text: string, from: nat, text': string, from': nat, needle: string)
    requires needle != "" && from <= |text| && from' <= |text'| && text[from..] == text'[from'..]
    ensures PiecesFrom(text, [needle], Keep, from) == PiecesFrom(text', [needle], Keep, from')
  {
    hide PiecesFrom, LeftmostSplit;
    SplitIsLeftmost(text', needle, from');
    LeftmostIsSplit(PiecesFrom(text', [needle], Keep, from'), text, needle, from);
  }

  /** Replacing the first `n` needles and then, resuming behind the last of them, all the others is replacing all at
      once: the text behind the last replaced needle is untouched, and the replacements are not searched again. */
  lemma TwoStagesReplaceAll(text: string, needle: string, replacement: string, start: nat, n: nat)
    requires needle != "" && Replaced(text, needle, start, Some(n)) != []
    ensures var done := Replaced(text, needle, start, Some(n));
            var first := ReplaceOutcome(text, needle, replacement, start, Some(n));
            var left := |text| - (done[|done| - 1] + |needle|);
            && 0 <= left <= |first|
            && first[|first| - left..] == text[|text| - left..]
            && ReplaceOutcome(first, needle, replacement, |first| - left, None) ==
               ReplaceOutcome(text, needle, replacement, start, None)
  {
    hide Find, FirstHit, MatchAt, PiecesFrom, Spliced, ReplaceOutcome, MixedJoin, Positions, LeftmostSplit;
    var s, k := Min(start, |text|), |Replaced(text, needle, start, Some(n))|;
    StartIsClamped(text, needle, start);
    var pieces := PiecesFrom(text, [needle], Keep, s);
    var end := Positions(text, needle, s)[k - 1] + |needle|;
    PiecesBehind(text, needle, s, k);
    var head := text[..s] + Join(pieces[..k], replacement) + replacement;
    FirstStage(text, needle, replacement, start, n, s, k, pieces);
    JoinedRest(text, needle, end);
    SecondStage(text, needle, replacement, end, head);
    AllAtOnce(text, needle, replacement, start, s, k, pieces);
  }

  lemma JoinedRest(text: string, needle: string, end: nat)
    requires needle != "" && end <= |text|
    ensures Join(PiecesFrom(text, [needle], Keep, end), needle) == text[end..]
  {
    hide PiecesFrom, Join;
    SplitIsLeftmost(text, needle, end);
  }

  lemma SecondStage(text: string, needle: string, replacement: string, end: nat, head: string)
    requires needle != "" && end <= |text|
    ensures var first := head + text[end..];
            && first[|head|..] == text[end..]
            && ReplaceOutcome(first, needle, replacement, |head|, None) ==
               head + Join(PiecesFrom(text, [needle], Keep, end), replacement)
  {
    hide PiecesFrom, Join, ReplaceOutcome, Replaced;
    var first := head + text[end..];
    assert first[|head|..] == text[end..] && first[..|head|] == head;
    PiecesOfEqualRests(first, |head|, text, end, needle);
    ReplaceAllIsJoinOfSplit(first, needle, replacement, |head|);
  }

  lemma AllAtOnce(text: string, needle: string, replacement: string, start: nat, s: nat, k: nat, pieces: seq<string>)
    requires needle != "" && s == Min(start, |text|) && 0 < k < |pieces|
    requires pieces == PiecesFrom(text, [needle], Keep, s)
    ensures ReplaceOutcome(text, needle, replacement, start, None) ==
            text[..s] + Join(pieces[..k], replacement) + replacement + Join(pieces[k..], replacement)
  {
    hide PiecesFrom, Join, ReplaceOutcome, Replaced;
    ReplaceAllIsJoinOfSplit(text, needle, replacement, start);
    JoinAppend(pieces[..k], pieces[k..], replacement);
    assert pieces == pieces[..k] + pieces[k..];
    FourParts(text[..s], Join(pieces[..k], replacement), replacement, Join(pieces[k..], replacement));
  }

  lemma FourParts(a: string, b: string, c: string, d: string)
    ensures a + (b + c + d) == a + b + c + d
  {
  }

  lemma FirstStage(text: string, needle: string, replacement: string, start: nat, n: nat, s: nat, k: nat,
                   pieces: seq<string>)
    requires needle != "" && s == Min(start, |text|) && 0 < k < |pieces|
    requires pieces == PiecesFrom(text, [needle], Keep, s) && k == |Replaced(text, needle, start, Some(n))|
    ensures ReplaceOutcome(text, needle, replacement, start, Some(n)) ==
            text[..s] + Join(pieces[..k], replacement) + replacement + Join(pieces[k..], needle)
  {
    hide Find, FirstHit, MatchAt, PiecesFrom, Spliced, MixedJoin;
    StartIsClamped(text, needle, start);
    SplicedIsMixedJoin(text, needle, replacement, s, k);
    SplicedKeepsPrefix(text, Take(Positions(text, needle, s), k), |needle|, replacement, s);
    MixedJoinInTwo(pieces, k, replacement, needle);
    FourParts(text[..s], Join(pieces[..k], replacement), replacement, Join(pieces[k..], needle));
  }

  // ----- What the callers get -----

  /** An empty needle leaves the text; otherwise the prefix stays and the pieces behind it are joined with
      the replacement, unless that text is longer than a string can be. */
  method StrReplaceAll(text: string, needle: string, replacement: string, start: nat)
    returns (r: Result<Replacement>, required: nat)
    requires |text| <= MAX_OBJECT
    ensures needle == "" ==> r == Success(Replacement(text, 0)) && required == |text| + 1
    ensures needle != "" ==>
              var s := Min(start, |text|);
              var pieces := PiecesFrom(text, [needle], Keep, s);
              var all := text[..s] + Join(pieces, replacement);
              && required == Wrap(|all| + 1, SIZE_T)
              && (|all| > MAX_OBJECT ==> r == Failure(LengthError))
              && (|all| <= MAX_OBJECT ==> r == Success(Replacement(all, |pieces| - 1)))
  {
    hide Find, PiecesFrom, ReplaceOutcome, Replaced, Wrap, Join;
    if needle == "" {
      NothingToReplace(text, needle, replacement, start, None);
      WrapIs(|text| + 1, SIZE_T, 0, |text| + 1);
    } else {
      ReplaceAllIsJoinOfSplit(text, needle, replacement, start);
    }
    r, required := StrReplace(text, needle, replacement, start, None);
  }

  /** The same with the replacement at the first `n` glues only, at one even for 0. */
  method StrReplaceFirstN(text: string, needle: string, replacement: string, n: nat, start: nat)
    returns (r: Result<Replacement>, required: nat)
    requires |text| <= MAX_OBJECT
    ensures needle == "" ==> r == Success(Replacement(text, 0)) && required == |text| + 1
    ensures needle != "" ==>
              var s, limit := Min(start, |text|), if n == 0 then 1 else n;
              var pieces := PiecesFrom(text, [needle], Keep, s);
              var all := text[..s] + MixedJoin(pieces, limit, replacement, needle);
              && required == Wrap(|all| + 1, SIZE_T)
              && (|all| > MAX_OBJECT ==> r == Failure(LengthError))
              && (|all| <= MAX_OBJECT ==> r == Success(Replacement(all, Min(limit, |pieces| - 1))))
  {
    hide Find, PiecesFrom, ReplaceOutcome, Replaced, Wrap, MixedJoin;
    if needle == "" {
      NothingToReplace(text, needle, replacement, start, Some(n));
      WrapIs(|text| + 1, SIZE_T, 0, |text| + 1);
    } else {
      ReplaceIsMixedJoin(text, needle, replacement, start, n);
    }
    r, required := StrReplace(text, needle, replacement, start, Some(n));
  }
}
