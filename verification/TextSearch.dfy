/** Leftmost search: `find`, `find_first_of` and `str_find_first_needle_position`. */
module TextSearch {
  import opened Wrappers

  predicate MatchAt(text: string, needle: string, p: nat) {
    p + |needle| <= |text| && text[p..p + |needle|] == needle
  }

  /** `basic_string_view::find` (and `std::search` on the same text). */
  function Find(text: string, needle: string, start: nat): (r: Option<nat>)
    ensures r.None? ==> forall q: nat :: start <= q ==> !MatchAt(text, needle, q)
    ensures r.Some? ==> start <= r.value <= |text| - |needle| && MatchAt(text, needle, r.value)
    ensures r.Some? ==> forall q: nat :: start <= q < r.value ==> !MatchAt(text, needle, q)
    decreases |text| - start
  {
    if start + |needle| > |text| then None
    else if MatchAt(text, needle, start) then Some(start)
    else Find(text, needle, start + 1)
  }

  /** `find_first_of`: the first character at or after `start` that is one of `chars`. */
  function FindFirstOf(text: string, chars: string, start: nat): (r: Option<nat>)
    ensures r.None? ==> forall q: nat :: start <= q < |text| ==> text[q] !in chars
    ensures r.Some? ==> start <= r.value < |text| && text[r.value] in chars
    ensures r.Some? ==> forall q: nat :: start <= q < r.value ==> text[q] !in chars
    decreases |text| - start
  {
    if start >= |text| then None
    else if text[start] in chars then Some(start)
    else FindFirstOf(text, chars, start + 1)
  }

  datatype Hit = Hit(pos: nat, len: nat)

  /** `hit` belongs to part `i`: no part occurs earlier, and no part before `i` occurs as early. */
  ghost predicate EarliestAt(text: string, parts: seq<string>, start: nat, hit: Hit, i: nat) {
    && i < |parts|
    && |parts[i]| == hit.len
    && Find(text, parts[i], start) == Some(hit.pos)
    && forall j :: 0 <= j < |parts| && Find(text, parts[j], start).Some? ==>
         hit.pos <= Find(text, parts[j], start).value && (j < i ==> hit.pos < Find(text, parts[j], start).value)
  }

  /** What the scan over the needle parts has to find. */
  ghost predicate Earliest(text: string, parts: seq<string>, start: nat, r: Option<Hit>) {
    match r
    case None => forall j :: 0 <= j < |parts| ==> Find(text, parts[j], start).None?
    case Some(hit) => exists i: nat :: EarliestAt(text, parts, start, hit, i)
  }

  /** One step of the scan: a part replaces the best hit only when it occurs strictly earlier. */
  function Better(text: string, part: string, start: nat, best: Option<Hit>): Option<Hit> {
    var found := Find(text, part, start);
    if found.Some? && (best.None? || found.value < best.value.pos) then Some(Hit(found.value, |part|)) else best
  }

  /** The hit that `str_find_first_needle_position` reports. */
  function FirstHit(text: string, parts: seq<string>, start: nat): (r: Option<Hit>)
    ensures r.Some? ==> start <= r.value.pos && r.value.pos + r.value.len <= |text|
  {
    if parts == [] then None
    else Better(text, parts[|parts| - 1], start, FirstHit(text, parts[..|parts| - 1], start))
  }

  lemma BetterIsEarliest(text: string, before: seq<string>, part: string, start: nat, best: Option<Hit>)
    requires Earliest(text, before, start, best)
    ensures Earliest(text, before + [part], start, Better(text, part, start, best))
  {
    var all, r := before + [part], Better(text, part, start, best);
    assert forall j :: 0 <= j < |before| ==> all[j] == before[j];
    if r != best {
      assert EarliestAt(text, all, start, r.value, |before|);
    } else if best.Some? {
      var i: nat :| EarliestAt(text, before, start, best.value, i);
      assert EarliestAt(text, all, start, best.value, i);
    }
  }

  lemma {:induction false} FirstHitIsEarliest(text: string, parts: seq<string>, start: nat)
    ensures Earliest(text, parts, start, FirstHit(text, parts, start))
  {
    if parts != [] {
      var before, part := parts[..|parts| - 1], parts[|parts| - 1];
      FirstHitIsEarliest(text, before, start);
      BetterIsEarliest(text, before, part, start, FirstHit(text, before, start));
      assert parts == before + [part];
    }
  }

  /** The earliest hit is unique. */
  lemma EarliestIsUnique(text: string, parts: seq<string>, start: nat, r: Option<Hit>)
    requires Earliest(text, parts, start, r)
    ensures r == FirstHit(text, parts, start)
  {
    FirstHitIsEarliest(text, parts, start);
    var f := FirstHit(text, parts, start);
    if r.Some? && f.Some? {
      var i: nat :| EarliestAt(text, parts, start, r.value, i);
      var k: nat :| EarliestAt(text, parts, start, f.value, k);
    }
  }

  /** Not found is reported as position `npos` with length 0. */
  function AsHit(pos: Option<nat>, len: nat): Option<Hit> {
    if pos.None? then None else Some(Hit(pos.value, len))
  }

  method StrFindFirstNeedlePosition(text: string, parts: seq<string>, start: nat)
    returns (pos: Option<nat>, len: nat)
    ensures pos.None? ==> len == 0
    ensures Earliest(text, parts, start, AsHit(pos, len))
    ensures pos.None? ==> forall part <- parts, q: nat :: start <= q ==> !MatchAt(text, part, q)
    ensures pos.Some? ==>
              && start <= pos.value
              && (forall part <- parts, q: nat :: start <= q < pos.value ==> !MatchAt(text, part, q))
              && exists i: nat :: FirstListedAt(text, parts, pos.value, len, i)
  {
    pos, len := None, 0;
    for i := 0 to |parts|
      invariant pos.None? ==> len == 0
      invariant Earliest(text, parts[..i], start, AsHit(pos, len))
    {
      BetterIsEarliest(text, parts[..i], parts[i], start, AsHit(pos, len));
      assert parts[..i + 1] == parts[..i] + [parts[i]];
      var found := Find(text, parts[i], start);
      if found.Some? && (pos.None? || found.value < pos.value) {
        pos, len := found, |parts[i]|;
      }
    }
    assert parts[..|parts|] == parts;
    EarliestOccurs(text, parts, start, AsHit(pos, len));
  }

  /** Part `i` stands at `p`, and no part listed before it does. */
  ghost predicate FirstListedAt(text: string, parts: seq<string>, p: nat, len: nat, i: nat) {
    && i < |parts| && |parts[i]| == len && MatchAt(text, parts[i], p)
    && forall j :: 0 <= j < i ==> !MatchAt(text, parts[j], p)
  }

  /** The earliest hit, said of occurrences: nothing occurs before it, and it is the part listed first there. */
  lemma EarliestOccurs(text: string, parts: seq<string>, start: nat, r: Option<Hit>)
    requires Earliest(text, parts, start, r)
    ensures r.None? ==> forall part <- parts, q: nat :: start <= q ==> !MatchAt(text, part, q)
    ensures r.Some? ==>
              && start <= r.value.pos
              && (forall part <- parts, q: nat :: start <= q < r.value.pos ==> !MatchAt(text, part, q))
              && exists i: nat :: FirstListedAt(text, parts, r.value.pos, r.value.len, i)
  {
    hide MatchAt;
    forall part, q: nat | part in parts && start <= q && (r.None? || q < r.value.pos)
      ensures !MatchAt(text, part, q)
    {
      var j :| 0 <= j < |parts| && parts[j] == part;
      assert Find(text, parts[j], start).Some? ==> r.Some? && r.value.pos <= Find(text, parts[j], start).value;
    }
    if r.Some? {
      var i: nat :| EarliestAt(text, parts, start, r.value, i);
      assert FirstListedAt(text, parts, r.value.pos, r.value.len, i);
    }
  }

  /** A single needle part is plain `find`. */
  lemma FirstHitOfOne(text: string, needle: string, start: nat)
    ensures FirstHit(text, [needle], start) ==
            match Find(text, needle, start) { case None => None case Some(p) => Some(Hit(p, |needle|)) }
  {
    assert [needle][..0] == [];
  }

  /** Each character of `chars` as a one-character needle part. */
  function Singles(chars: string): (r: seq<string>)
    ensures |r| == |chars| && forall i :: 0 <= i < |r| ==> r[i] == [chars[i]]
  {
    seq(|chars|, i requires 0 <= i < |chars| => [chars[i]])
  }

  lemma FindSingle(text: string, c: char, start: nat)
    ensures Find(text, [c], start) == FindFirstOf(text, [c], start)
  {
    hide Find, FindFirstOf;
    forall q: nat ensures MatchAt(text, [c], q) <==> q < |text| && text[q] == c {
      if q < |text| { assert text[q..q + 1] == [text[q]]; }
    }
  }

  /** The first separator character belongs to the part made of its first occurrence in `chars`. */
  lemma FirstOfIsEarliest(text: string, chars: string, start: nat, p: nat)
    requires FindFirstOf(text, chars, start) == Some(p)
    ensures Earliest(text, Singles(chars), start, Some(Hit(p, 1)))
  {
    var i := FindFirstOf(chars, [text[p]], 0).value;
    forall j | 0 <= j < |chars|
      ensures Find(text, [chars[j]], start).Some? ==>
                p <= Find(text, [chars[j]], start).value && (j < i ==> p < Find(text, [chars[j]], start).value)
    {
      FindSingle(text, chars[j], start);
    }
    FindSingle(text, chars[i], start);
    assert EarliestAt(text, Singles(chars), start, Hit(p, 1), i);
  }

  /** Searching for the one-character parts is `find_first_of`. */
  lemma FirstHitOfSingles(text: string, chars: string, start: nat)
    ensures FirstHit(text, Singles(chars), start) ==
            match FindFirstOf(text, chars, start) { case None => None case Some(p) => Some(Hit(p, 1)) }
  {
    match FindFirstOf(text, chars, start) {
      case None =>
        forall j | 0 <= j < |chars| ensures Find(text, Singles(chars)[j], start).None? {
          FindSingle(text, chars[j], start);
        }
        EarliestIsUnique(text, Singles(chars), start, None);
      case Some(p) =>
        FirstOfIsEarliest(text, chars, start, p);
        EarliestIsUnique(text, Singles(chars), start, Some(Hit(p, 1)));
    }
  }

  lemma SliceOfSlice(s: string, a: nat, b: nat, i: nat, j: nat)
    requires a <= b <= |s| && i <= j <= b - a
    ensures s[a..b][i..j] == s[a + i..a + j]
  {
    var x, y := s[a..b][i..j], s[a + i..a + j];
    assert |x| == |y|;
    forall k | 0 <= k < |x| ensures x[k] == y[k] {
      assert x[k] == s[a..b][i + k];
    }
    assert x == y;
  }

  /** Searching a suffix is searching the whole text from the suffix's start. */
  lemma FindInSuffix(text: string, needle: string, from: nat)
    requires from <= |text|
    ensures Find(text, needle, from) ==
            match Find(text[from..], needle, 0) { case None => None case Some(p) => Some(from + p) }
  {
    forall q: nat ensures MatchAt(text[from..], needle, q) <==> MatchAt(text, needle, from + q) {
      if from + q + |needle| <= |text| {
        SliceOfSlice(text, from, |text|, q, q + |needle|);
        assert text[from..|text|] == text[from..];
      }
    }
    var g := Find(text[from..], needle, 0);
    match Find(text, needle, from) {
      case None =>
      case Some(p) => assert MatchAt(text[from..], needle, p - from);
    }
  }
}
