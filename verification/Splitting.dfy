/** `str_split` and the iterator-based `split`. */
module Splitting {
  import opened Wrappers
  import opened TextSearch
  import opened Joining

  datatype SplitOn = WholeNeedle | AnyPart
  datatype Empties = Ignore | Keep

  // ----- Specification -----

  function Piece(text: string, from: nat, to: nat, empties: Empties): seq<string>
    requires from <= to <= |text|
  {
    if from < to then [text[from..to]] else if empties == Keep then [""] else []
  }

  /** The pieces of `text[prev..]`; an empty needle part that wins the search ends the splitting. */
  function PiecesFrom(text: string, parts: seq<string>, empties: Empties, prev: nat): seq<string>
    requires prev <= |text|
    decreases |text| - prev
  {
    match FirstHit(text, parts, prev)
    case None => Piece(text, prev, |text|, empties)
    case Some(hit) =>
      if hit.len == 0 then Piece(text, prev, |text|, empties)
      else Piece(text, prev, hit.pos, empties) + PiecesFrom(text, parts, empties, hit.pos + hit.len)
  }

  /** The separators at which `PiecesFrom` cuts. */
  function SeparatorsFrom(text: string, parts: seq<string>, prev: nat): seq<string>
    requires prev <= |text|
    decreases |text| - prev
  {
    match FirstHit(text, parts, prev)
    case None => []
    case Some(hit) =>
      if hit.len == 0 then []
      else [text[hit.pos..hit.pos + hit.len]] + SeparatorsFrom(text, parts, hit.pos + hit.len)
  }

  /** A piece by its place in the text: the first character and the one behind the last. */
  type Range = (nat, nat)

  function KeptRange(from: nat, to: nat, empties: Empties): seq<Range> {
    if from < to || empties == Keep then [(from, to)] else []
  }

  /** Where the pieces of `text[prev..]` stand. */
  function RangesFrom(text: string, parts: seq<string>, empties: Empties, prev: nat): seq<Range>
    requires prev <= |text|
    decreases |text| - prev
  {
    match FirstHit(text, parts, prev)
    case None => KeptRange(prev, |text|, empties)
    case Some(hit) =>
      if hit.len == 0 then KeptRange(prev, |text|, empties)
      else KeptRange(prev, hit.pos, empties) + RangesFrom(text, parts, empties, hit.pos + hit.len)
  }

  /** The needle itself, its characters, or its pieces between `token`s. */
  function NeedleParts(needle: string, token: string, on: SplitOn): seq<string> {
    if on == WholeNeedle then [needle]
    else if token != "" then PiecesFrom(needle, [token], Keep, 0)
    else Singles(needle)
  }

  /** All the pieces, before `max_count` is applied. */
  function AllPieces(text: string, needle: string, token: string, on: SplitOn, empties: Empties): seq<string> {
    if text == "" then []
    else if needle == "" then Singles(text)
    else PiecesFrom(text, NeedleParts(needle, token, on), empties, 0)
  }

  function AllRanges(text: string, needle: string, token: string, on: SplitOn, empties: Empties): seq<Range> {
    if text == "" then []
    else if needle == "" then seq(|text|, i requires 0 <= i < |text| => (i, i + 1))
    else RangesFrom(text, NeedleParts(needle, token, on), empties, 0)
  }

  ghost predicate InBounds(ranges: seq<Range>, n: nat) {
    forall i :: 0 <= i < |ranges| ==> ranges[i].0 <= ranges[i].1 <= n
  }

  /** The pieces are what the text holds in the ranges. */
  ghost predicate Denotes(text: string, ranges: seq<Range>, pieces: seq<string>) {
    && InBounds(ranges, |text|)
    && |pieces| == |ranges|
    && forall i :: 0 <= i < |ranges| ==> pieces[i] == text[ranges[i].0..ranges[i].1]
  }

  lemma {:induction false} RangesDenotePieces(text: string, parts: seq<string>, empties: Empties, prev: nat)
    requires prev <= |text|
    ensures Denotes(text, RangesFrom(text, parts, empties, prev), PiecesFrom(text, parts, empties, prev))
    decreases |text| - prev
  {
    hide FirstHit, Find, KeptRange, Piece, Denotes;
    var hit := FirstHit(text, parts, prev);
    if hit.Some? && hit.value.len != 0 {
      var next := hit.value.pos + hit.value.len;
      RangesDenotePieces(text, parts, empties, next);
      OnePiece(text, prev, hit.value.pos, empties);
      DenotesBoth(text, KeptRange(prev, hit.value.pos, empties), Piece(text, prev, hit.value.pos, empties),
                  RangesFrom(text, parts, empties, next), PiecesFrom(text, parts, empties, next));
    } else {
      OnePiece(text, prev, |text|, empties);
    }
  }

  lemma OnePiece(text: string, from: nat, to: nat, empties: Empties)
    requires from <= to <= |text|
    ensures Denotes(text, KeptRange(from, to, empties), Piece(text, from, to, empties))
  {
    assert from == to ==> text[from..to] == "";
  }

  lemma DenotesBoth(text: string, a: seq<Range>, p: seq<string>, b: seq<Range>, q: seq<string>)
    requires Denotes(text, a, p) && Denotes(text, b, q)
    ensures Denotes(text, a + b, p + q)
  {
  }

  lemma AllRangesDenote(text: string, needle: string, token: string, on: SplitOn, empties: Empties)
    ensures Denotes(text, AllRanges(text, needle, token, on, empties), AllPieces(text, needle, token, on, empties))
  {
    hide RangesFrom, PiecesFrom, NeedleParts;
    RangesDenotePieces(text, NeedleParts(needle, token, on), empties, 0);
  }

  /** One step of the whole-needle split that keeps empty pieces. */
  lemma WholeNeedleStep(text: string, needle: string, prev: nat)
    requires needle != "" && prev <= |text|
    ensures PiecesFrom(text, [needle], Keep, prev) ==
            match Find(text, needle, prev) {
              case None => [text[prev..|text|]]
              case Some(p) => [text[prev..p]] + PiecesFrom(text, [needle], Keep, p + |needle|) }
  {
    hide FirstHit, Find, MatchAt;
    FirstHitOfOne(text, needle, prev);
    assert forall i :: 0 <= i <= |text| ==> text[i..i] == "";
  }

  // ----- str_split -----

  method BuildNeedleParts(needle: string, token: string, on: SplitOn) returns (parts: seq<string>)
    ensures parts == NeedleParts(needle, token, on)
  {
    hide FirstHit, Find, MatchAt, PiecesFrom;
    if on == WholeNeedle {
      return [needle];
    }
    if token == "" {
      return Singles(needle);
    }
    parts := [];
    var start := 0;
    while true
      invariant start <= |needle|
      invariant parts + PiecesFrom(needle, [token], Keep, start) == PiecesFrom(needle, [token], Keep, 0)
      decreases |needle| - start
    {
      var next := Find(needle, token, start);
      FirstHitOfOne(needle, token, start);
      if next.None? {
        CutAtEnd(needle, [token], Keep, start, parts);
        assert needle[start..] == needle[start..|needle|];
        parts := parts + [needle[start..]];
        return;
      }
      CutAtHit(needle, [token], Keep, start, Hit(next.value, |token|), parts);
      assert next.value == start ==> needle[start..next.value] == "";
      parts := parts + [needle[start..next.value]];
      start := next.value + |token|;
    }
  }

  /** The splitting of `text[prev..]` is over: only its last piece is missing. */
  ghost predicate AtLastPiece(text: string, parts: seq<string>, prev: nat) {
    prev >= |text| || FirstHit(text, parts, prev).None? || FirstHit(text, parts, prev).value.len == 0
  }

  /** The source's guarded `emplace_back`. */
  function Extend(acc: seq<string>, text: string, from: nat, to: nat, empties: Empties): seq<string>
    requires from <= to <= |text|
  {
    if from < to then acc + [text[from..to]] else if empties == Keep then acc + [""] else acc
  }

  /** Cutting at `hit` moves one piece from what is left to what is collected. */
  lemma CutAtHit(text: string, parts: seq<string>, empties: Empties, prev: nat, hit: Hit, acc: seq<string>)
    requires prev <= |text| && hit.len != 0 && FirstHit(text, parts, prev) == Some(hit)
    ensures acc + PiecesFrom(text, parts, empties, prev) ==
            Extend(acc, text, prev, hit.pos, empties) + PiecesFrom(text, parts, empties, hit.pos + hit.len)
  {
    hide Find, MatchAt;
    var piece, rest := Piece(text, prev, hit.pos, empties), PiecesFrom(text, parts, empties, hit.pos + hit.len);
    assert acc + (piece + rest) == acc + piece + rest;
    assert acc + [] == acc;
  }

  lemma CutAtEnd(text: string, parts: seq<string>, empties: Empties, prev: nat, acc: seq<string>)
    requires prev <= |text| && AtLastPiece(text, parts, prev)
    ensures acc + PiecesFrom(text, parts, empties, prev) == Extend(acc, text, prev, |text|, empties)
  {
    assert acc + [] == acc;
  }

  method StrSplit(text: string, needle: string, token: string, on: SplitOn, empties: Empties, maxCount: nat)
    returns (pieces: seq<string>)
    ensures pieces == Take(AllPieces(text, needle, token, on, empties), maxCount)
    ensures empties == Ignore ==> "" !in pieces
  {
    NoEmptyPieceIgnored(text, needle, token, on);
    if text == "" {
      return [];
    }
    if needle == "" {
      pieces := FirstCharacters(text, Min(maxCount, |text|));
      return;
    }
    var parts := BuildNeedleParts(needle, token, on);
    pieces := SplitAtParts(text, parts, empties, maxCount);
  }

  lemma NoEmptyPieceIgnored(text: string, needle: string, token: string, on: SplitOn)
    ensures "" !in AllPieces(text, needle, token, on, Ignore)
  {
    hide AllPieces, AllRanges;
    AllRangesDenote(text, needle, token, on, Ignore);
    IgnoredRangesAreFull(text, needle, token, on);
    var ranges, pieces := AllRanges(text, needle, token, on, Ignore), AllPieces(text, needle, token, on, Ignore);
    forall i | 0 <= i < |pieces| ensures pieces[i] != "" {
      assert ranges[i] in ranges;
    }
  }

  method FirstCharacters(text: string, limit: nat) returns (pieces: seq<string>)
    requires limit <= |text|
    ensures pieces == Take(Singles(text), limit)
  {
    pieces := [];
    for i := 0 to limit
      invariant pieces == Singles(text)[..i]
    {
      pieces := pieces + [[text[i]]];
    }
    assert Singles(text)[..|text|] == Singles(text);
  }

  method SplitAtParts(text: string, parts: seq<string>, empties: Empties, maxCount: nat) returns (pieces: seq<string>)
    ensures pieces == Take(PiecesFrom(text, parts, empties, 0), maxCount)
  {
    hide FirstHit, Find, MatchAt, Earliest, PiecesFrom;
    ghost var all := PiecesFrom(text, parts, empties, 0);
    pieces := [];
    var prev := 0;
    while true
      invariant prev <= |text| && |pieces| <= maxCount
      invariant pieces + PiecesFrom(text, parts, empties, prev) == all
      decreases |text| - prev
    {
      var current, len := StrFindFirstNeedlePosition(text, parts, prev);
      EarliestIsUnique(text, parts, prev, AsHit(current, len));
      if current.None? || len == 0 || |pieces| == maxCount {
        break;
      }
      CutAtHit(text, parts, empties, prev, Hit(current.value, len), pieces);
      if current.value > prev {
        pieces := pieces + [text[prev..current.value]];
      } else if empties == Keep {
        pieces := pieces + [""];
      }
      prev := current.value + len;
      if prev >= |text| {
        break;
      }
    }
    if |pieces| < maxCount {
      CutAtEnd(text, parts, empties, prev, pieces);
      assert text[prev..] == text[prev..|text|];
      if prev < |text| {
        pieces := pieces + [text[prev..]];
      } else if empties == Keep {
        pieces := pieces + [""];
      }
    } else {
      assert all[..maxCount] == pieces;
    }
  }

  // ----- Iterator-based split -----

  /** Extending the full list of ranges changes its first `limit` ranges only while there are fewer. */
  lemma TakeExtend(done: seq<Range>, from: nat, to: nat, empties: Empties, limit: nat)
    ensures Take(done + KeptRange(from, to, empties), limit) ==
            if |Take(done, limit)| < limit then Take(done, limit) + KeptRange(from, to, empties) else Take(done, limit)
  {
  }

  /** The guarded `emplace_back` of the iterator version, whose counter is the number of ranges. */
  method EmplaceRange(ranges: seq<Range>, from: nat, to: nat, empties: Empties, maxCount: nat, ghost done: seq<Range>)
    returns (more: seq<Range>)
    requires ranges == Take(done, maxCount)
    ensures from <= to ==> more == Take(done + KeptRange(from, to, empties), maxCount)
  {
    TakeExtend(done, from, to, empties, maxCount);
    more := ranges;
    if (to > from || empties == Keep) && |ranges| < maxCount {
      more := ranges + [(from, to)];
    }
  }

  method FirstCharacterRanges(text: string, limit: nat) returns (ranges: seq<Range>)
    requires limit <= |text|
    ensures |ranges| == limit && forall i :: 0 <= i < limit ==> ranges[i] == (i, i + 1)
  {
    ranges := [];
    for prev := 0 to limit
      invariant |ranges| == prev && forall i :: 0 <= i < prev ==> ranges[i] == (i, i + 1)
    {
      ranges := ranges + [(prev, prev + 1)];
    }
  }

  /** The iterator version advances with `std::search` or `std::find_first_of`. */
  function NextSeparator(text: string, needle: string, on: SplitOn, prev: nat): Option<nat> {
    if on == WholeNeedle then Find(text, needle, prev) else FindFirstOf(text, needle, prev)
  }

  lemma NextSeparatorIsFirstHit(text: string, needle: string, on: SplitOn, prev: nat)
    ensures FirstHit(text, NeedleParts(needle, "", on), prev) ==
            match NextSeparator(text, needle, on, prev) {
              case None => None
              case Some(p) => Some(Hit(p, if on == WholeNeedle then |needle| else 1)) }
  {
    if on == WholeNeedle {
      FirstHitOfOne(text, needle, prev);
    } else {
      FirstHitOfSingles(text, needle, prev);
    }
  }

  /** The iterators, and what they denote: the pieces that `StrSplit` gives without a token. */
  method Split(text: string, needle: string, on: SplitOn, empties: Empties, maxCount: nat) returns (ranges: seq<Range>)
    ensures ranges == Take(AllRanges(text, needle, "", on, empties), maxCount)
    ensures Denotes(text, ranges, Take(AllPieces(text, needle, "", on, empties), maxCount))
    ensures empties == Ignore ==> forall r <- ranges :: r.0 < r.1
  {
    hide AllPieces, Denotes, RangesFrom;
    AllRangesDenote(text, needle, "", on, empties);
    TakeDenotes(text, AllRanges(text, needle, "", on, empties), AllPieces(text, needle, "", on, empties), maxCount);
    IgnoredRangesAreFull(text, needle, "", on);
    if text == "" {
      return [];
    }
    if needle == "" {
      ranges := FirstCharacterRanges(text, Min(maxCount, |text|));
      return;
    }
    ranges := SplitAtSeparators(text, needle, on, empties, maxCount);
  }

  lemma TakeDenotes(text: string, ranges: seq<Range>, pieces: seq<string>, limit: nat)
    requires Denotes(text, ranges, pieces)
    ensures Denotes(text, Take(ranges, limit), Take(pieces, limit))
  {
  }

  /** Moving one cut from what is left to what is done. */
  lemma RangeAtHit(text: string, parts: seq<string>, empties: Empties, prev: nat, hit: Hit, done: seq<Range>)
    requires prev <= |text| && hit.len != 0 && FirstHit(text, parts, prev) == Some(hit)
    ensures done + RangesFrom(text, parts, empties, prev) ==
            done + KeptRange(prev, hit.pos, empties) + RangesFrom(text, parts, empties, hit.pos + hit.len)
  {
    hide Find, MatchAt;
    var kept, rest := KeptRange(prev, hit.pos, empties), RangesFrom(text, parts, empties, hit.pos + hit.len);
    assert done + (kept + rest) == done + kept + rest;
  }

  method SplitAtSeparators(text: string, needle: string, on: SplitOn, empties: Empties, maxCount: nat)
    returns (ranges: seq<Range>)
    requires needle != ""
    ensures ranges == Take(RangesFrom(text, NeedleParts(needle, "", on), empties, 0), maxCount)
  {
    hide FirstHit, Find, FindFirstOf, RangesFrom, KeptRange, NeedleParts, NextSeparator;
    ghost var parts := NeedleParts(needle, "", on);
    ghost var done: seq<Range> := [];
    var step := if on == WholeNeedle then |needle| else 1;
    var prev := 0;
    ranges := [];
    while prev != |text|
      invariant prev <= |text|
      invariant done + RangesFrom(text, parts, empties, prev) == RangesFrom(text, parts, empties, 0)
      invariant ranges == Take(done, maxCount)
      decreases |text| - prev
    {
      var next := NextSeparator(text, needle, on, prev);
      NextSeparatorIsFirstHit(text, needle, on, prev);
      if next.None? {
        break;
      }
      RangeAtHit(text, parts, empties, prev, Hit(next.value, step), done);
      ranges := EmplaceRange(ranges, prev, next.value, empties, maxCount, done);
      done := done + KeptRange(prev, next.value, empties);
      prev := next.value + step;
    }
    RangeAtEnd(text, parts, empties, prev);
    ranges := EmplaceRange(ranges, prev, |text|, empties, maxCount, done);
  }

  lemma RangeAtEnd(text: string, parts: seq<string>, empties: Empties, prev: nat)
    requires prev <= |text| && AtLastPiece(text, parts, prev)
    ensures RangesFrom(text, parts, empties, prev) == KeptRange(prev, |text|, empties)
  {
  }

  // ----- What a split is, in every mode -----

  /** Where the stretch behind the first `i` cuts starts, and where it ends. */
  function GapStart(cuts: seq<Hit>, prev: nat, i: nat): nat
    requires i <= |cuts|
  {
    if i == 0 then prev else cuts[i - 1].pos + cuts[i - 1].len
  }

  function GapEnd(cuts: seq<Hit>, n: nat, i: nat): nat {
    if i < |cuts| then cuts[i].pos else n
  }

  ghost predicate IsGap(r: Range, cuts: seq<Hit>, prev: nat, n: nat) {
    exists i: nat :: i <= |cuts| && r == (GapStart(cuts, prev, i), GapEnd(cuts, n, i))
  }

  /** No part occurs from `prev` on, or the one that occurs earliest is empty. */
  ghost predicate NothingToCut(text: string, parts: seq<string>, prev: nat) {
    Earliest(text, parts, prev, None) || exists p: nat :: Earliest(text, parts, prev, Some(Hit(p, 0)))
  }

  /** Each cut takes the part that occurs earliest behind the cut before it, and behind the last there is none. */
  ghost predicate LeftmostCuts(text: string, parts: seq<string>, prev: nat, cuts: seq<Hit>) {
    && (forall i :: 0 <= i < |cuts| ==>
          cuts[i].len != 0 && Earliest(text, parts, GapStart(cuts, prev, i), Some(cuts[i])))
    && NothingToCut(text, parts, GapStart(cuts, prev, |cuts|))
  }

  ghost predicate Ascends(ranges: seq<Range>) {
    forall i, j :: 0 <= i < j < |ranges| ==> ranges[i].0 < ranges[j].0
  }

  /** The ranges are, from left to right, the stretches around the leftmost cuts, all of them or the non-empty ones. */
  ghost predicate SplitAt(ranges: seq<Range>, text: string, parts: seq<string>, empties: Empties, prev: nat) {
    && Ascends(ranges)
    && exists cuts :: LeftmostCuts(text, parts, prev, cuts) && AreTheGaps(ranges, cuts, prev, |text|, empties)
  }

  ghost predicate AreTheGaps(ranges: seq<Range>, cuts: seq<Hit>, prev: nat, n: nat, empties: Empties) {
    forall r: Range :: r in ranges <==> IsGap(r, cuts, prev, n) && (empties == Keep || r.0 < r.1)
  }

  /** The hits at which `RangesFrom` and `PiecesFrom` cut. */
  ghost function CutsFrom(text: string, parts: seq<string>, prev: nat): seq<Hit>
    requires prev <= |text|
    decreases |text| - prev
  {
    match FirstHit(text, parts, prev)
    case None => []
    case Some(hit) => if hit.len == 0 then [] else [hit] + CutsFrom(text, parts, hit.pos + hit.len)
  }

  lemma GapOfCons(hit: Hit, cuts: seq<Hit>, prev: nat, n: nat, i: nat)
    requires i <= |cuts|
    ensures GapStart([hit] + cuts, prev, i + 1) == GapStart(cuts, hit.pos + hit.len, i)
    ensures GapEnd([hit] + cuts, n, i + 1) == GapEnd(cuts, n, i)
    ensures GapStart([hit] + cuts, prev, 0) == prev && GapEnd([hit] + cuts, n, 0) == hit.pos
  {
    assert i > 0 ==> ([hit] + cuts)[i] == cuts[i - 1];
    assert i < |cuts| ==> ([hit] + cuts)[i + 1] == cuts[i];
  }

  lemma IsGapOfCons(r: Range, hit: Hit, cuts: seq<Hit>, prev: nat, n: nat)
    ensures IsGap(r, [hit] + cuts, prev, n) <==> r == (prev, hit.pos) || IsGap(r, cuts, hit.pos + hit.len, n)
  {
    hide GapStart, GapEnd;
    GapOfCons(hit, cuts, prev, n, 0);
    var more, next := [hit] + cuts, hit.pos + hit.len;
    if IsGap(r, more, prev, n) {
      var i: nat :| i <= |more| && r == (GapStart(more, prev, i), GapEnd(more, n, i));
      if i > 0 { GapOfCons(hit, cuts, prev, n, i - 1); }
    }
    if IsGap(r, cuts, next, n) {
      var i: nat :| i <= |cuts| && r == (GapStart(cuts, next, i), GapEnd(cuts, n, i));
      GapOfCons(hit, cuts, prev, n, i);
    }
  }

  lemma {:induction false} CutsAreLeftmost(text: string, parts: seq<string>, prev: nat)
    requires prev <= |text|
    ensures LeftmostCuts(text, parts, prev, CutsFrom(text, parts, prev))
    decreases |text| - prev
  {
    hide FirstHit, Earliest;
    FirstHitIsEarliest(text, parts, prev);
    var first := FirstHit(text, parts, prev);
    if first.Some? && first.value.len != 0 {
      var hit := first.value;
      var rest := CutsFrom(text, parts, hit.pos + hit.len);
      CutsAreLeftmost(text, parts, hit.pos + hit.len);
      LeftmostCutsOfCons(text, parts, prev, hit, rest);
    } else if first.Some? {
      assert first.value == Hit(first.value.pos, 0);
    }
  }

  lemma LeftmostCutsOfCons(text: string, parts: seq<string>, prev: nat, hit: Hit, rest: seq<Hit>)
    ensures LeftmostCuts(text, parts, prev, [hit] + rest) <==>
            && hit.len != 0 && Earliest(text, parts, prev, Some(hit))
            && LeftmostCuts(text, parts, hit.pos + hit.len, rest)
  {
    hide Earliest, GapStart, GapEnd, NothingToCut;
    GapOfCons(hit, rest, prev, |text|, |rest|);
    GapOfCons(hit, rest, prev, |text|, 0);
    var cuts, next := [hit] + rest, hit.pos + hit.len;
    if LeftmostCuts(text, parts, prev, cuts) {
      assert cuts[0] == hit;
      forall i | 0 <= i < |rest|
        ensures rest[i].len != 0 && Earliest(text, parts, GapStart(rest, next, i), Some(rest[i]))
      {
        GapOfCons(hit, rest, prev, |text|, i);
        assert cuts[i + 1] == rest[i];
      }
    }
    if hit.len != 0 && Earliest(text, parts, prev, Some(hit)) && LeftmostCuts(text, parts, next, rest) {
      forall i | 0 <= i < |cuts|
        ensures cuts[i].len != 0 && Earliest(text, parts, GapStart(cuts, prev, i), Some(cuts[i]))
      {
        if i > 0 {
          GapOfCons(hit, rest, prev, |text|, i - 1);
          assert cuts[i] == rest[i - 1];
        }
      }
    }
  }

  lemma {:induction false} LeftmostCutsAreUnique(text: string, parts: seq<string>, prev: nat, cuts: seq<Hit>)
    requires prev <= |text| && LeftmostCuts(text, parts, prev, cuts)
    ensures cuts == CutsFrom(text, parts, prev)
    decreases |cuts|
  {
    hide FirstHit, Earliest;
    if cuts == [] {
      if Earliest(text, parts, prev, None) {
        EarliestIsUnique(text, parts, prev, None);
      } else {
        var p: nat :| Earliest(text, parts, prev, Some(Hit(p, 0)));
        EarliestIsUnique(text, parts, prev, Some(Hit(p, 0)));
      }
    } else {
      var hit, rest := cuts[0], cuts[1..];
      assert cuts == [hit] + rest;
      LeftmostCutsOfCons(text, parts, prev, hit, rest);
      EarliestIsUnique(text, parts, prev, Some(hit));
      LeftmostCutsAreUnique(text, parts, hit.pos + hit.len, rest);
    }
  }

  lemma {:induction false} RangesAreTheGaps(text: string, parts: seq<string>, empties: Empties, prev: nat)
    requires prev <= |text|
    ensures var ranges := RangesFrom(text, parts, empties, prev);
            && Ascends(ranges)
            && (forall r <- ranges :: prev <= r.0)
            && AreTheGaps(ranges, CutsFrom(text, parts, prev), prev, |text|, empties)
    decreases |text| - prev
  {
    hide FirstHit, IsGap, AreTheGaps, Ascends, KeptRange;
    var first := FirstHit(text, parts, prev);
    if first.Some? && first.value.len != 0 {
      var hit := first.value;
      var next := hit.pos + hit.len;
      RangesAreTheGaps(text, parts, empties, next);
      GapsOfCons(hit, CutsFrom(text, parts, next), RangesFrom(text, parts, empties, next), prev, |text|, empties);
      AscendsOfCons(RangesFrom(text, parts, empties, next), prev, hit.pos, next, empties);
    } else {
      AscendsOfCons([], prev, |text|, prev + 1, empties);
      assert KeptRange(prev, |text|, empties) + [] == KeptRange(prev, |text|, empties);
      OnlyGap(prev, |text|, empties);
    }
  }

  lemma AscendsOfCons(ranges: seq<Range>, from: nat, to: nat, next: nat, empties: Empties)
    requires Ascends(ranges) && from < next && forall r <- ranges :: next <= r.0
    ensures Ascends(KeptRange(from, to, empties) + ranges)
    ensures forall r <- KeptRange(from, to, empties) + ranges :: from <= r.0
  {
    assert forall i :: 0 <= i < |ranges| ==> ranges[i] in ranges;
  }

  lemma GapsOfCons(hit: Hit, cuts: seq<Hit>, ranges: seq<Range>, prev: nat, n: nat, empties: Empties)
    requires AreTheGaps(ranges, cuts, hit.pos + hit.len, n, empties) && prev <= hit.pos
    ensures AreTheGaps(KeptRange(prev, hit.pos, empties) + ranges, [hit] + cuts, prev, n, empties)
  {
    hide IsGap;
    forall r: Range
      ensures IsGap(r, [hit] + cuts, prev, n) <==> r == (prev, hit.pos) || IsGap(r, cuts, hit.pos + hit.len, n)
    {
      IsGapOfCons(r, hit, cuts, prev, n);
    }
  }

  lemma OnlyGap(prev: nat, n: nat, empties: Empties)
    requires prev <= n
    ensures AreTheGaps(KeptRange(prev, n, empties), [], prev, n, empties)
  {
    forall r: Range ensures IsGap(r, [], prev, n) <==> r == (prev, n) {
      assert GapStart([], prev, 0) == prev && GapEnd([], n, 0) == n;
      if IsGap(r, [], prev, n) {
        var i: nat :| i <= 0 && r == (GapStart([], prev, i), GapEnd([], n, i));
      }
    }
  }

  lemma FirstIsMember(a: seq<Range>)
    ensures a != [] ==> a[0] in a
  {
  }

  /** Ascending lists with the same members are the same list. */
  lemma {:induction false} AscendingIsUnique(a: seq<Range>, b: seq<Range>)
    requires Ascends(a) && Ascends(b) && forall r: Range :: r in a <==> r in b
    ensures a == b
  {
    FirstIsMember(a);
    FirstIsMember(b);
    if a != [] && b != [] {
      assert a[0] == b[0];
      forall r: Range ensures r in a[1..] <==> r in b[1..] {
        assert r in a <==> r == a[0] || r in a[1..];
        assert r in b <==> r == b[0] || r in b[1..];
      }
      AscendingIsUnique(a[1..], b[1..]);
      assert a == [a[0]] + a[1..] && b == [b[0]] + b[1..];
    }
  }

  /** The split at any list of parts: the stretches around the leftmost cuts, and no other list of ranges. */
  lemma SplitAtIff(ranges: seq<Range>, text: string, parts: seq<string>, empties: Empties)
    ensures ranges == RangesFrom(text, parts, empties, 0) <==> SplitAt(ranges, text, parts, empties, 0)
  {
    hide RangesFrom, CutsFrom, IsGap, LeftmostCuts, Ascends;
    var all := RangesFrom(text, parts, empties, 0);
    CutsAreLeftmost(text, parts, 0);
    RangesAreTheGaps(text, parts, empties, 0);
    assert SplitAt(all, text, parts, empties, 0);
    if SplitAt(ranges, text, parts, empties, 0) {
      var cuts :| LeftmostCuts(text, parts, 0, cuts) && AreTheGaps(ranges, cuts, 0, |text|, empties);
      LeftmostCutsAreUnique(text, parts, 0, cuts);
      AscendingIsUnique(ranges, all);
    }
  }

  /** The needle, its characters, or the leftmost split of the needle at the token. */
  ghost predicate PartsOf(parts: seq<string>, needle: string, token: string, on: SplitOn) {
    if on == WholeNeedle then parts == [needle]
    else if token == "" then |parts| == |needle| && forall i :: 0 <= i < |parts| ==> parts[i] == [needle[i]]
    else LeftmostSplit(parts, needle, token)
  }

  lemma NeedlePartsIff(parts: seq<string>, needle: string, token: string, on: SplitOn)
    ensures parts == NeedleParts(needle, token, on) <==> PartsOf(parts, needle, token, on)
  {
    hide PiecesFrom, LeftmostSplit;
    if on == AnyPart && token != "" {
      assert needle[0..] == needle;
      SplitIsLeftmost(needle, token, 0);
      if LeftmostSplit(parts, needle, token) {
        LeftmostIsSplit(parts, needle, token, 0);
      }
    }
  }

  /** What both splits are for: nothing of an empty text, the characters for an empty needle, and otherwise the
      stretches around the leftmost cuts at the needle parts. */
  ghost predicate RangesOf(ranges: seq<Range>, text: string, needle: string, token: string, on: SplitOn,
                           empties: Empties)
  {
    if text == "" then ranges == []
    else if needle == "" then |ranges| == |text| && forall i :: 0 <= i < |ranges| ==> ranges[i] == (i, i + 1)
    else exists parts :: PartsOf(parts, needle, token, on) && SplitAt(ranges, text, parts, empties, 0)
  }

  /** The ranges of the split in every mode, for all texts, needles and tokens. */
  lemma RangesOfIff(ranges: seq<Range>, text: string, needle: string, token: string, on: SplitOn, empties: Empties)
    ensures ranges == AllRanges(text, needle, token, on, empties) <==>
            RangesOf(ranges, text, needle, token, on, empties)
  {
    hide RangesFrom, NeedleParts, PartsOf, SplitAt;
    var parts := NeedleParts(needle, token, on);
    NeedlePartsIff(parts, needle, token, on);
    SplitAtIff(ranges, text, parts, empties);
    if text != "" && needle != "" && RangesOf(ranges, text, needle, token, on, empties) {
      var other :| PartsOf(other, needle, token, on) && SplitAt(ranges, text, other, empties, 0);
      NeedlePartsIff(other, needle, token, on);
    }
  }

  ghost predicate PiecesOf(pieces: seq<string>, text: string, needle: string, token: string, on: SplitOn,
                           empties: Empties)
  {
    exists ranges :: RangesOf(ranges, text, needle, token, on, empties) && Denotes(text, ranges, pieces)
  }

  /** The pieces of the split in every mode are the text's characters in those ranges, and no other list. */
  lemma PiecesOfIff(pieces: seq<string>, text: string, needle: string, token: string, on: SplitOn, empties: Empties)
    ensures pieces == AllPieces(text, needle, token, on, empties) <==>
            PiecesOf(pieces, text, needle, token, on, empties)
  {
    hide AllRanges, AllPieces, RangesOf;
    var all := AllRanges(text, needle, token, on, empties);
    AllRangesDenote(text, needle, token, on, empties);
    RangesOfIff(all, text, needle, token, on, empties);
    if PiecesOf(pieces, text, needle, token, on, empties) {
      var ranges :| RangesOf(ranges, text, needle, token, on, empties) && Denotes(text, ranges, pieces);
      RangesOfIff(ranges, text, needle, token, on, empties);
    }
  }

  /** Ignoring empties leaves no empty piece. */
  lemma IgnoredRangesAreFull(text: string, needle: string, token: string, on: SplitOn)
    ensures forall r <- AllRanges(text, needle, token, on, Ignore) :: r.0 < r.1
  {
    hide RangesFrom, NeedleParts;
    if text != "" && needle != "" {
      RangesAreTheGaps(text, NeedleParts(needle, token, on), Ignore, 0);
    }
  }

  // ----- Laws -----

  /** Pieces and separators in turn. */
  ghost function Weave(pieces: seq<string>, separators: seq<string>): string
    requires |pieces| == |separators| + 1
  {
    if separators == [] then pieces[0]
    else pieces[0] + separators[0] + Weave(pieces[1..], separators[1..])
  }

  /** No mode loses a character: pieces and separators in turn are the text, and every separator is a needle part. */
  lemma {:induction false} SplitConserves(text: string, parts: seq<string>, prev: nat)
    requires prev <= |text|
    ensures |PiecesFrom(text, parts, Keep, prev)| == |SeparatorsFrom(text, parts, prev)| + 1
    ensures Weave(PiecesFrom(text, parts, Keep, prev), SeparatorsFrom(text, parts, prev)) == text[prev..]
    ensures forall s <- SeparatorsFrom(text, parts, prev) :: s in parts && s != ""
    decreases |text| - prev
  {
    hide FirstHit, Find;
    var hit := FirstHit(text, parts, prev);
    if hit.Some? && hit.value.len != 0 {
      var p, next := hit.value.pos, hit.value.pos + hit.value.len;
      FirstHitIsAPart(text, parts, prev, hit.value);
      var pieces, separators := PiecesFrom(text, parts, Keep, next), SeparatorsFrom(text, parts, next);
      SplitConserves(text, parts, next);
      assert text[p..p] == "";
      WeaveCons(text[prev..p], pieces, text[p..next], separators);
      assert text[prev..] == text[prev..p] + text[p..next] + text[next..];
    } else {
      assert text[prev..] == text[prev..|text|];
    }
  }

  lemma WeaveCons(piece: string, pieces: seq<string>, separator: string, separators: seq<string>)
    requires |pieces| == |separators| + 1
    ensures Weave([piece] + pieces, [separator] + separators) == piece + separator + Weave(pieces, separators)
  {
    assert ([piece] + pieces)[1..] == pieces && ([separator] + separators)[1..] == separators;
  }

  lemma FirstHitIsAPart(text: string, parts: seq<string>, start: nat, hit: Hit)
    requires FirstHit(text, parts, start) == Some(hit)
    ensures text[hit.pos..hit.pos + hit.len] in parts
  {
    FirstHitIsEarliest(text, parts, start);
    var i: nat :| EarliestAt(text, parts, start, hit, i);
    assert MatchAt(text, parts[i], hit.pos);
  }

  function NonEmpty(pieces: seq<string>): seq<string> {
    if pieces == [] then []
    else (if pieces[0] == "" then [] else [pieces[0]]) + NonEmpty(pieces[1..])
  }

  /** Ignoring empties drops exactly the empty pieces. */
  lemma {:induction false} IgnoreDropsEmpties(text: string, parts: seq<string>, prev: nat)
    requires prev <= |text|
    ensures PiecesFrom(text, parts, Ignore, prev) == NonEmpty(PiecesFrom(text, parts, Keep, prev))
    decreases |text| - prev
  {
    hide FirstHit, Find, MatchAt;
    var hit := FirstHit(text, parts, prev);
    if hit.Some? && hit.value.len != 0 {
      IgnoreDropsEmpties(text, parts, hit.value.pos + hit.value.len);
      assert PiecesFrom(text, parts, Keep, prev)[1..] == PiecesFrom(text, parts, Keep, hit.value.pos + hit.value.len);
    }
  }

  /** The same for what `str_split` returns: in every mode the pieces are the keep-empties ones without the empty
      ones, and filtering is done piece by piece. */
  lemma IgnoreFiltersPieces(text: string, needle: string, token: string, on: SplitOn)
    ensures AllPieces(text, needle, token, on, Ignore) == NonEmpty(AllPieces(text, needle, token, on, Keep))
  {
    hide PiecesFrom, NeedleParts;
    if text != "" && needle == "" {
      NothingToFilter(Singles(text));
    } else if text != "" {
      IgnoreDropsEmpties(text, NeedleParts(needle, token, on), 0);
    }
  }

  lemma {:induction false} NothingToFilter(pieces: seq<string>)
    requires "" !in pieces
    ensures NonEmpty(pieces) == pieces
  {
    if pieces != [] {
      assert pieces == [pieces[0]] + pieces[1..];
      NothingToFilter(pieces[1..]);
    }
  }

  /** `NonEmpty` works piece by piece and keeps the order. */
  lemma {:induction false} NonEmptyAppend(a: seq<string>, b: seq<string>)
    ensures NonEmpty(a + b) == NonEmpty(a) + NonEmpty(b)
  {
    if a == [] {
      assert a + b == b;
    } else {
      assert (a + b)[1..] == a[1..] + b;
      NonEmptyAppend(a[1..], b);
    }
  }

  /** Keeping empties, every mode conserves the text: pieces and separators in turn are the text, and a separator is
      the needle, one of its characters, or one of its parts between tokens. */
  lemma PiecesConserve(text: string, needle: string, token: string, on: SplitOn) returns (separators: seq<string>)
    requires text != "" && needle != ""
    ensures |AllPieces(text, needle, token, on, Keep)| == |separators| + 1
    ensures Weave(AllPieces(text, needle, token, on, Keep), separators) == text
    ensures forall s <- separators :: s != "" &&
              if on == WholeNeedle then s == needle
              else if token == "" then |s| == 1 && s[0] in needle
              else s in NeedleParts(needle, token, AnyPart)
  {
    hide PiecesFrom, SeparatorsFrom;
    var parts := NeedleParts(needle, token, on);
    separators := SeparatorsFrom(text, parts, 0);
    SplitConserves(text, parts, 0);
    assert text[0..] == text;
  }

  /** Without a token, no piece of an any-part split holds a character of the needle. */
  lemma AnyPartPiecesAreClean(text: string, needle: string, empties: Empties)
    requires needle != ""
    ensures forall piece <- AllPieces(text, needle, "", AnyPart, empties), c <- piece :: c !in needle
  {
    hide PiecesFrom;
    AnyCharPiecesAreClean(text, needle, empties, 0);
  }

  /** A stretch that ends before the part can start does not contain the part. */
  lemma StretchOmitsPart(text: string, part: string, prev: nat, to: nat)
    requires part != "" && prev <= to <= |text|
    requires Find(text, part, prev).Some? ==> to <= Find(text, part, prev).value
    ensures Find(text[prev..to], part, 0).None?
  {
    hide Find;
    forall q: nat | MatchAt(text[prev..to], part, q) ensures MatchAt(text, part, prev + q) {
      SliceOfSlice(text, prev, to, q, q + |part|);
    }
  }

  /** One step of the splitting at non-empty parts. */
  lemma NonEmptyPartsStep(text: string, parts: seq<string>, empties: Empties, prev: nat)
    requires prev <= |text| && "" !in parts
    ensures match FirstHit(text, parts, prev)
            case None => PiecesFrom(text, parts, empties, prev) == Piece(text, prev, |text|, empties)
            case Some(hit) =>
              && hit.len != 0
              && PiecesFrom(text, parts, empties, prev) ==
                 Piece(text, prev, hit.pos, empties) + PiecesFrom(text, parts, empties, hit.pos + hit.len)
  {
    hide Find, MatchAt, FirstHit;
    FirstHitIsEarliest(text, parts, prev);
  }

  /** Unless a part is empty, no piece contains any part: multi-character parts between separator tokens included. */
  lemma {:induction false} PiecesOmitParts(text: string, parts: seq<string>, empties: Empties, prev: nat,
                                           piece: string, part: string)
    requires prev <= |text| && "" !in parts && part in parts
    requires piece in PiecesFrom(text, parts, empties, prev)
    ensures Find(piece, part, 0).None?
    decreases |text| - prev
  {
    hide Find, MatchAt, FirstHit, PiecesFrom;
    NonEmptyPartsStep(text, parts, empties, prev);
    FirstHitIsEarliest(text, parts, prev);
    var hit := FirstHit(text, parts, prev);
    var to := if hit.None? then |text| else hit.value.pos;
    StretchOmitsPart(text, part, prev, to);
    assert prev == to ==> text[prev..to] == "";
    if piece !in Piece(text, prev, to, empties) {
      PiecesOmitParts(text, parts, empties, hit.value.pos + hit.value.len, piece, part);
    }
  }

  /** Splitting on any character of `chars` leaves none of them in a piece. */
  lemma AnyCharPiecesAreClean(text: string, chars: string, empties: Empties, prev: nat)
    requires prev <= |text|
    ensures forall piece <- PiecesFrom(text, Singles(chars), empties, prev), c <- piece :: c !in chars
  {
    hide Find, FindFirstOf, PiecesFrom;
    forall piece, c | piece in PiecesFrom(text, Singles(chars), empties, prev) && c in chars ensures c !in piece {
      var i :| 0 <= i < |chars| && chars[i] == c;
      assert Singles(chars)[i] == [c];
      PiecesOmitParts(text, Singles(chars), empties, prev, piece, [c]);
      FindSingle(piece, c, 0);
    }
  }

  /** No piece of a whole-needle split contains the needle. */
  lemma PiecesOmitNeedle(text: string, needle: string, empties: Empties, piece: string)
    requires needle != "" && piece in AllPieces(text, needle, "", WholeNeedle, empties)
    ensures Find(piece, needle, 0).None?
  {
    hide Find, PiecesFrom;
    PiecesOmitParts(text, [needle], empties, 0, piece, needle);
  }

  /** What an empty part does, when it is the first one: the splitting only takes off parts listed before it, one
      directly behind the other, and ends where the text goes on with none of them. */
  lemma {:induction false} EmptyPartStops(text: string, parts: seq<string>, prev: nat, e: nat)
    requires prev <= |text| && e < |parts| && parts[e] == "" && "" !in parts[..e]
    ensures var pieces := PiecesFrom(text, parts, Keep, prev);
            && pieces != []
            && (forall k :: 0 <= k < |pieces| - 1 ==> pieces[k] == "")
            && (forall part <- parts[..e] :: !MatchAt(pieces[|pieces| - 1], part, 0))
    ensures forall s <- SeparatorsFrom(text, parts, prev) :: s in parts[..e]
    ensures PiecesFrom(text, parts, Ignore, prev) ==
            NonEmpty([PiecesFrom(text, parts, Keep, prev)[|PiecesFrom(text, parts, Keep, prev)| - 1]])
    decreases |text| - prev
  {
    hide Find, FirstHit, MatchAt;
    HitBeforeEmptyPart(text, parts, prev, e);
    var hit := FirstHit(text, parts, prev).value;
    if hit.len == 0 {
      assert text[prev..|text|] == text[prev..];
    } else {
      EmptyPartStops(text, parts, prev + hit.len, e);
    }
  }

  /** With an empty part the scan always finds something at once. */
  lemma HitBeforeEmptyPart(text: string, parts: seq<string>, prev: nat, e: nat)
    requires prev <= |text| && e < |parts| && parts[e] == "" && "" !in parts[..e]
    ensures FirstHit(text, parts, prev).Some?
    ensures var hit := FirstHit(text, parts, prev).value;
            && hit.pos == prev
            && (hit.len == 0 ==> forall part <- parts[..e] :: !MatchAt(text[prev..], part, 0))
            && (hit.len != 0 ==> text[prev..prev + hit.len] in parts[..e])
  {
    hide FirstHit, Find, MatchAt, EarliestAt;
    FirstHitIsEarliest(text, parts, prev);
    FindEmpty(text, prev);
    var hit := FirstHit(text, parts, prev).value;
    var i: nat :| EarliestAt(text, parts, prev, hit, i);
    NotBehindEmptyPart(text, parts, prev, e, hit, i);
    if i == e {
      forall part | part in parts[..e] ensures !MatchAt(text[prev..], part, 0) {
        var j :| 0 <= j < e && parts[j] == part;
        NotAPrefix(text, part, prev);
      }
    } else {
      assert parts[..e][i] == parts[i];
    }
  }

  lemma FindEmpty(text: string, prev: nat)
    requires prev <= |text|
    ensures Find(text, "", prev) == Some(prev)
  {
    assert MatchAt(text, "", prev);
  }

  /** The winner is the empty part or stands before it, and a part it beats does not occur at once. */
  lemma NotBehindEmptyPart(text: string, parts: seq<string>, prev: nat, e: nat, hit: Hit, i: nat)
    requires e < |parts| && Find(text, parts[e], prev) == Some(prev) && EarliestAt(text, parts, prev, hit, i)
    ensures i <= e && hit.pos == prev && hit.len == |parts[i]|
    ensures forall j :: 0 <= j < i ==> Find(text, parts[j], prev) != Some(prev)
    ensures hit.pos + hit.len <= |text| && text[prev..prev + hit.len] == parts[i]
  {
    hide Find;
    assert MatchAt(text, parts[i], prev);
  }

  lemma NotAPrefix(text: string, part: string, prev: nat)
    requires prev <= |text| && Find(text, part, prev) != Some(prev)
    ensures !MatchAt(text[prev..], part, 0)
  {
    assert !MatchAt(text, part, prev);
    if prev + |part| <= |text| {
      SliceOfSlice(text, prev, |text|, 0, |part|);
      assert text[prev..|text|] == text[prev..];
    }
  }

  ghost predicate StartsWithNone(text: string, parts: seq<string>) {
    forall part <- parts :: !MatchAt(text, part, 0)
  }

  ghost predicate LeavesPart(text: string, parts: seq<string>, part: string) {
    exists piece <- PiecesFrom(text, parts, Keep, 0) :: Find(piece, part, 0).Some?
  }

  /** A text that starts with no part listed before the empty one is not cut at all. */
  lemma EmptyPartKeepsWhole(text: string, parts: seq<string>, e: nat)
    requires e < |parts| && parts[e] == "" && "" !in parts[..e] && StartsWithNone(text, parts[..e])
    ensures PiecesFrom(text, parts, Keep, 0) == [text]
  {
    hide FirstHit, Find;
    HitBeforeEmptyPart(text, parts, 0, e);
    assert text[0..|text|] == text;
  }

  /** What an empty part spoils: some text leaves a piece with `part` in it exactly when `part` occurs in some text
      that starts with no part listed before the empty one. */
  lemma EmptyPartLeavesIff(parts: seq<string>, e: nat, part: string)
    requires e < |parts| && parts[e] == "" && "" !in parts[..e] && part != ""
    ensures (exists text: string :: LeavesPart(text, parts, part)) <==>
            (exists text: string :: StartsWithNone(text, parts[..e]) && Find(text, part, 0).Some?)
  {
    hide FirstHit, Find, MatchAt, PiecesFrom;
    if text: string :| LeavesPart(text, parts, part) {
      var pieces := PiecesFrom(text, parts, Keep, 0);
      EmptyPartStops(text, parts, 0, e);
      var piece :| piece in pieces && Find(piece, part, 0).Some?;
      NotInEmpty(part);
      assert piece == pieces[|pieces| - 1];
      assert StartsWithNone(piece, parts[..e]);
    }
    if text: string :| StartsWithNone(text, parts[..e]) && Find(text, part, 0).Some? {
      EmptyPartKeepsWhole(text, parts, e);
      assert LeavesPart(text, parts, part);
    }
  }

  lemma NotInEmpty(part: string)
    requires part != ""
    ensures Find("", part, 0).None?
  {
  }

  /** One character that starts no part listed before the empty one is enough to keep any part. */
  lemma FreeCharacterKeepsPart(parts: seq<string>, e: nat, part: string, c: char)
    requires e < |parts| && parts[e] == "" && "" !in parts[..e]
    requires forall before <- parts[..e] :: before[0] != c
    ensures PiecesFrom([c] + part, parts, Keep, 0) == [[c] + part] && LeavesPart([c] + part, parts, part)
  {
    hide FirstHit, Find, PiecesFrom;
    var text := [c] + part;
    assert StartsWithNone(text, parts[..e]);
    EmptyPartKeepsWhole(text, parts, e);
    assert MatchAt(text, part, 1) && text in [text];
  }

  // ----- Which needles have an empty part -----

  /** Where the cutting of `text` at `token` starts and where it resumes behind each token. */
  function Resumes(text: string, token: string, prev: nat): seq<nat>
    requires token != "" && prev <= |text|
    decreases |text| - prev
  {
    match Find(text, token, prev)
    case None => [prev]
    case Some(p) => [prev] + Resumes(text, token, p + |token|)
  }

  /** The text ends here or goes on with the token. */
  predicate EndsOrRepeats(text: string, token: string, at: nat) {
    at == |text| || MatchAt(text, token, at)
  }

  /** The first piece from `prev` on is empty exactly when the text ends or goes on with the token there. */
  lemma FirstPieceIsEmptyIff(text: string, token: string, prev: nat)
    requires token != "" && prev <= |text|
    ensures EndsOrRepeats(text, token, prev)
            <==> prev == match Find(text, token, prev) { case None => |text| case Some(p) => p }
  {
    hide Find;
  }

  /** For every token: a piece is empty exactly when the text ends, or goes on with the token, where a piece starts. */
  lemma {:induction false} EmptyPieceIff(text: string, token: string, prev: nat)
    requires token != "" && prev <= |text|
    ensures "" in PiecesFrom(text, [token], Keep, prev)
            <==> exists at <- Resumes(text, token, prev) :: EndsOrRepeats(text, token, at)
    decreases |text| - prev
  {
    hide FirstHit, Find, MatchAt, PiecesFrom, EndsOrRepeats;
    WholeNeedleStep(text, token, prev);
    FirstPieceIsEmptyIff(text, token, prev);
    assert prev in Resumes(text, token, prev);
    match Find(text, token, prev) {
      case None =>
        assert |text[prev..|text|]| == |text| - prev;
      case Some(p) =>
        EmptyPieceIff(text, token, p + |token|);
        assert |text[prev..p]| == p - prev;
    }
  }

  lemma {:induction false} ResumesOfCharacter(text: string, c: char, prev: nat, at: nat)
    requires prev <= |text|
    ensures at in Resumes(text, [c], prev) <==> at == prev || (prev < at <= |text| && text[at - 1] == c)
    decreases |text| - prev
  {
    hide Find, FindFirstOf;
    FindSingle(text, c, prev);
    var p := FindFirstOf(text, [c], prev);
    if p.Some? {
      ResumesOfCharacter(text, c, p.value + 1, at);
    }
  }

  /** A one-character token gives an empty part exactly when the needle is empty, starts or ends with the token, or
      holds two of them in a row. */
  lemma EmptyNeedlePartIff(needle: string, c: char)
    ensures "" in NeedleParts(needle, [c], AnyPart)
            <==> || needle == "" || needle[0] == c || needle[|needle| - 1] == c
                 || exists i :: 0 <= i < |needle| - 1 && needle[i] == c == needle[i + 1]
  {
    hide Find, FirstHit, PiecesFrom, Resumes;
    EmptyPieceIff(needle, [c], 0);
    forall at: nat ensures at in Resumes(needle, [c], 0) <==> at == 0 || (at <= |needle| && needle[at - 1] == c) {
      ResumesOfCharacter(needle, c, 0, at);
    }
    forall at: nat ensures MatchAt(needle, [c], at) <==> at < |needle| && needle[at] == c {
      if at < |needle| { assert needle[at..at + 1] == [needle[at]]; }
    }
    assert 0 in Resumes(needle, [c], 0);
    if needle != "" && needle[|needle| - 1] == c {
      assert |needle| in Resumes(needle, [c], 0);
    }
    if at :| at in Resumes(needle, [c], 0) && at != 0 && EndsOrRepeats(needle, [c], at) {
      assert at < |needle| ==> needle[at - 1] == c == needle[at - 1 + 1];
    }
    if i :| 0 <= i < |needle| - 1 && needle[i] == c == needle[i + 1] {
      assert i + 1 in Resumes(needle, [c], 0) && EndsOrRepeats(needle, [c], i + 1);
    }
  }

  /** `pieces` join up to `text`, and each glue is the leftmost needle in what is left of the text. */
  ghost predicate LeftmostSplit(pieces: seq<string>, text: string, needle: string) {
    && pieces != []
    && Join(pieces, needle) == text
    && (forall i :: 0 <= i < |pieces| - 1 ==> Find(pieces[i] + needle, needle, 0) == Some(|pieces[i]|))
    && Find(pieces[|pieces| - 1], needle, 0).None?
  }

  /** The text up to and including its leftmost needle. */
  lemma FindUpToNeedle(text: string, needle: string, prev: nat, p: nat)
    requires Find(text, needle, prev) == Some(p)
    ensures Find(text[prev..p] + needle, needle, 0) == Some(p - prev)
  {
    hide Find;
    var head := text[prev..p] + needle;
    assert MatchAt(text, needle, p);
    assert head == text[prev..p + |needle|];
    forall q: nat | MatchAt(head, needle, q) ensures MatchAt(text, needle, prev + q) {
      SliceOfSlice(text, prev, p + |needle|, q, q + |needle|);
    }
    assert MatchAt(head, needle, p - prev);
  }

  /** A needle that is leftmost in `piece + needle` stays leftmost whatever follows. */
  lemma FindIgnoresWhatFollows(piece: string, needle: string, rest: string)
    requires Find(piece + needle, needle, 0) == Some(|piece|)
    ensures Find(piece + needle + rest, needle, 0) == Some(|piece|)
  {
    var head := piece + needle;
    forall q: nat | q <= |piece| ensures MatchAt(head + rest, needle, q) == MatchAt(head, needle, q) {
      assert (head + rest)[q..q + |needle|] == head[q..q + |needle|];
    }
    assert MatchAt(head + rest, needle, |piece|);
  }

  lemma {:induction false} SplitIsLeftmost(text: string, needle: string, prev: nat)
    requires needle != "" && prev <= |text|
    ensures LeftmostSplit(PiecesFrom(text, [needle], Keep, prev), text[prev..], needle)
    decreases |text| - prev
  {
    hide FirstHit, Find, PiecesFrom;
    WholeNeedleStep(text, needle, prev);
    match Find(text, needle, prev) {
      case None =>
        FindInSuffix(text, needle, prev);
        assert text[prev..] == text[prev..|text|];
      case Some(p) =>
        var next := p + |needle|;
        SplitIsLeftmost(text, needle, next);
        FindUpToNeedle(text, needle, prev, p);
        assert text[prev..] == text[prev..p] + needle + text[next..];
        LeftmostCons(text[prev..p], PiecesFrom(text, [needle], Keep, next), text[next..], needle);
    }
  }

  /** A leftmost split grows at the front. */
  lemma LeftmostCons(piece: string, pieces: seq<string>, rest: string, needle: string)
    requires LeftmostSplit(pieces, rest, needle)
    requires Find(piece + needle, needle, 0) == Some(|piece|)
    ensures LeftmostSplit([piece] + pieces, piece + needle + rest, needle)
  {
    hide Find;
    var more := [piece] + pieces;
    assert more[1..] == pieces;
    forall i | 0 <= i < |more| - 1 ensures Find(more[i] + needle, needle, 0) == Some(|more[i]|) {
      if i > 0 { assert more[i] == pieces[i - 1]; }
    }
    assert more[|more| - 1] == pieces[|pieces| - 1];
  }

  /** The front of a leftmost split is the text up to its first needle. */
  lemma LeftmostUncons(pieces: seq<string>, text: string, needle: string)
    requires LeftmostSplit(pieces, text, needle)
    ensures pieces != []
    ensures |pieces| == 1 ==> pieces == [text] && Find(text, needle, 0).None?
    ensures |pieces| > 1 ==>
              && |pieces[0]| + |needle| <= |text|
              && Find(text, needle, 0) == Some(|pieces[0]|)
              && text[..|pieces[0]|] == pieces[0]
              && LeftmostSplit(pieces[1..], text[|pieces[0]| + |needle|..], needle)
  {
    hide Find;
    if |pieces| == 1 {
      return;
    }
    var rest := Join(pieces[1..], needle);
    FindIgnoresWhatFollows(pieces[0], needle, rest);
    assert text == pieces[0] + needle + rest;
    assert text[|pieces[0]| + |needle|..] == rest;
  }

  /** The same, for the part of a text from `prev` on. */
  lemma LeftmostUnconsAt(pieces: seq<string>, text: string, needle: string, prev: nat)
    requires prev <= |text| && LeftmostSplit(pieces, text[prev..], needle)
    ensures pieces != []
    ensures |pieces| == 1 ==> pieces == [text[prev..|text|]] && Find(text, needle, prev).None?
    ensures |pieces| > 1 ==>
              var p := prev + |pieces[0]|;
              && p + |needle| <= |text|
              && Find(text, needle, prev) == Some(p)
              && text[prev..p] == pieces[0]
              && LeftmostSplit(pieces[1..], text[p + |needle|..], needle)
  {
    hide Find, MatchAt, LeftmostSplit;
    var rest := text[prev..|text|];
    assert text[prev..] == rest;
    FindInSuffix(text, needle, prev);
    LeftmostUncons(pieces, rest, needle);
    if |pieces| > 1 {
      var n := |pieces[0]|;
      SliceOfSlice(text, prev, |text|, 0, n);
      SliceOfSlice(text, prev, |text|, n + |needle|, |rest|);
      assert rest[n + |needle|..|rest|] == rest[n + |needle|..];
      assert text[prev + n + |needle|..|text|] == text[prev + n + |needle|..];
    }
  }

  lemma {:induction false} LeftmostIsSplit(pieces: seq<string>, text: string, needle: string, prev: nat)
    requires needle != "" && prev <= |text|
    requires LeftmostSplit(pieces, text[prev..], needle)
    ensures pieces == PiecesFrom(text, [needle], Keep, prev)
    decreases |pieces|
  {
    hide FirstHit, Find, PiecesFrom, LeftmostSplit;
    WholeNeedleStep(text, needle, prev);
    LeftmostUnconsAt(pieces, text, needle, prev);
    if |pieces| > 1 {
      LeftmostIsSplit(pieces[1..], text, needle, prev + |pieces[0]| + |needle|);
      assert pieces == [pieces[0]] + pieces[1..];
    }
  }

  /** The keep-empties whole-needle split is the one leftmost split there is. */
  lemma SplitCharacterised(pieces: seq<string>, text: string, needle: string)
    requires text != "" && needle != ""
    ensures pieces == AllPieces(text, needle, "", WholeNeedle, Keep) <==> LeftmostSplit(pieces, text, needle)
  {
    SplitIsLeftmost(text, needle, 0);
    assert text[0..] == text;
    if LeftmostSplit(pieces, text, needle) {
      LeftmostIsSplit(pieces, text, needle, 0);
    }
  }

  /** Join undoes split on every input but the empty text with a non-empty needle, where `str_join` throws. */
  lemma JoinUndoesSplit(text: string, needle: string)
    ensures JoinOutcome(AllPieces(text, needle, "", WholeNeedle, Keep), needle) == Success(text)
            <==> text != "" || needle == ""
  {
    if text != "" && needle != "" {
      SplitCharacterised(AllPieces(text, needle, "", WholeNeedle, Keep), text, needle);
    } else if text != "" {
      JoinSingles(text, Singles(text));
    }
  }

  /** Split undoes join exactly when the glue is leftmost after every piece but the last, and not in the last. */
  lemma SplitUndoesJoinIff(pieces: seq<string>, glue: string)
    requires Join(pieces, glue) != "" && glue != ""
    ensures AllPieces(Join(pieces, glue), glue, "", WholeNeedle, Keep) == pieces
            <==> (forall i :: 0 <= i < |pieces| - 1 ==> Find(pieces[i] + glue, glue, 0) == Some(|pieces[i]|))
                 && Find(pieces[|pieces| - 1], glue, 0).None?
  {
    hide Find, FirstHit, PiecesFrom;
    SplitCharacterised(pieces, Join(pieces, glue), glue);
  }
}
