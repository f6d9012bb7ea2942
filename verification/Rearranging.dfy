/** `stable_partition` and `stable_gather`: in-place rearrangement with a side queue. */
module Rearranging {
  /** The elements on which `p` answers `wanted`, in their original order. */
  function Select<T>(s: seq<T>, p: T -> bool, wanted: bool): (r: seq<T>)
    ensures |r| <= |s|
  {
    if s == [] then []
    else if p(s[|s| - 1]) == wanted then Select(s[..|s| - 1], p, wanted) + [s[|s| - 1]]
    else Select(s[..|s| - 1], p, wanted)
  }

  lemma {:induction false} SelectSizes<T>(s: seq<T>, p: T -> bool)
    ensures |Select(s, p, true)| + |Select(s, p, false)| == |s|
  {
    if s != [] { SelectSizes(s[..|s| - 1], p); }
  }

  /** Where the wanted elements stand in `s`. */
  ghost function Places<T>(s: seq<T>, p: T -> bool, wanted: bool): seq<nat> {
    if s == [] then []
    else Places(s[..|s| - 1], p, wanted) + if p(s[|s| - 1]) == wanted then [|s| - 1] else []
  }

  lemma {:induction false} PlacesHold<T>(s: seq<T>, p: T -> bool, wanted: bool)
    ensures |Places(s, p, wanted)| == |Select(s, p, wanted)|
    ensures forall k :: 0 <= k < |Select(s, p, wanted)| ==>
              Places(s, p, wanted)[k] < |s| && s[Places(s, p, wanted)[k]] == Select(s, p, wanted)[k]
  {
    if s != [] { PlacesHold(s[..|s| - 1], p, wanted); }
  }

  lemma {:induction false} PlacesAscend<T>(s: seq<T>, p: T -> bool, wanted: bool)
    ensures forall k :: 0 <= k < |Places(s, p, wanted)| ==> Places(s, p, wanted)[k] < |s|
    ensures forall j, k :: 0 <= j < k < |Places(s, p, wanted)| ==> Places(s, p, wanted)[j] < Places(s, p, wanted)[k]
  {
    if s != [] { PlacesAscend(s[..|s| - 1], p, wanted); }
  }

  lemma {:induction false} PlacesMissNone<T>(s: seq<T>, p: T -> bool, wanted: bool)
    ensures forall i: nat :: i in Places(s, p, wanted) <==> i < |s| && p(s[i]) == wanted
  {
    if s != [] { PlacesMissNone(s[..|s| - 1], p, wanted); }
  }

  /** Stability: the selected elements come from ascending places, and no wanted place is skipped. */
  lemma SelectIsStable<T>(s: seq<T>, p: T -> bool, wanted: bool)
    ensures var places, r := Places(s, p, wanted), Select(s, p, wanted);
            && |places| == |r|
            && (forall k :: 0 <= k < |r| ==> places[k] < |s| && s[places[k]] == r[k])
            && (forall j, k :: 0 <= j < k < |r| ==> places[j] < places[k])
            && (forall i: nat :: i in places <==> i < |s| && p(s[i]) == wanted)
  {
    hide Places, Select;
    PlacesHold(s, p, wanted);
    PlacesAscend(s, p, wanted);
    PlacesMissNone(s, p, wanted);
  }

  /** Only wanted elements are selected. */
  lemma {:induction false} SelectAnswers<T>(s: seq<T>, p: T -> bool, wanted: bool)
    ensures forall i :: 0 <= i < |Select(s, p, wanted)| ==> p(Select(s, p, wanted)[i]) == wanted
  {
    if s != [] {
      SelectAnswers(s[..|s| - 1], p, wanted);
    }
  }

  /** The two selections together hold every element as often as `s` does. */
  lemma {:induction false} SelectPermutes<T>(s: seq<T>, p: T -> bool)
    ensures multiset(Select(s, p, true)) + multiset(Select(s, p, false)) == multiset(s)
  {
    if s != [] {
      SelectPermutes(s[..|s| - 1], p);
      assert s == s[..|s| - 1] + [s[|s| - 1]];
    }
  }

  /** What one pass makes of a stretch: the kept elements, then the others. */
  function Partitioned<T>(s: seq<T>, p: T -> bool): (r: seq<T>)
    ensures |r| == |s|
  {
    SelectSizes(s, p);
    Select(s, p, true) + Select(s, p, false)
  }

  // ----- Stable outcomes, said of input and result alone -----

  /** `r` holds the elements of `s`, `r[i]` coming from `places[i]`. */
  ghost predicate Rearranges<T>(s: seq<T>, r: seq<T>, places: seq<nat>) {
    && |r| == |s| == |places|
    && (forall i :: 0 <= i < |s| ==> places[i] < |s| && r[i] == s[places[i]])
    && (forall i, j :: 0 <= i < j < |s| ==> places[i] != places[j])
    && (forall i: nat :: i < |s| ==> i in places)
  }

  ghost predicate Ascends(places: seq<nat>, lo: nat, hi: nat) {
    hi <= |places| && forall i, j :: lo <= i < j < hi ==> places[i] < places[j]
  }

  /** `r` is `s` with what satisfies `p` in front of `mid` and the rest behind, both in their old order. */
  ghost predicate StableSplit<T>(s: seq<T>, r: seq<T>, p: T -> bool, mid: nat) {
    && mid <= |r|
    && (forall i :: 0 <= i < |r| ==> (p(r[i]) <==> i < mid))
    && exists places :: Rearranges(s, r, places) && Ascends(places, 0, mid) && Ascends(places, mid, |r|)
  }

  lemma {:induction false} PlacesDisjoint<T>(s: seq<T>, p: T -> bool)
    ensures forall i, j :: 0 <= i < |Places(s, p, true)| && 0 <= j < |Places(s, p, false)| ==>
              Places(s, p, true)[i] != Places(s, p, false)[j]
  {
    hide Places;
    PlacesMissNone(s, p, true);
    PlacesMissNone(s, p, false);
    forall i, j | 0 <= i < |Places(s, p, true)| && 0 <= j < |Places(s, p, false)|
      ensures Places(s, p, true)[i] != Places(s, p, false)[j]
    {
      assert Places(s, p, true)[i] in Places(s, p, true) && Places(s, p, false)[j] in Places(s, p, false);
    }
  }

  /** One pass makes the stable split. */
  lemma PartitionedIsStable<T>(s: seq<T>, p: T -> bool)
    ensures StableSplit(s, Partitioned(s, p), p, |Select(s, p, true)|)
  {
    hide Select, Places;
    var front, back := Places(s, p, true), Places(s, p, false);
    SelectIsStable(s, p, true);
    SelectIsStable(s, p, false);
    SelectAnswers(s, p, true);
    SelectAnswers(s, p, false);
    SelectSizes(s, p);
    PlacesDisjoint(s, p);
    var places := front + back;
    assert Rearranges(s, Partitioned(s, p), places);
    assert Ascends(places, 0, |front|) && Ascends(places, |front|, |s|);
  }

  /** Strictly ascending lists with the same members are the same list. */
  lemma {:induction false} AscendingIsUnique(a: seq<nat>, b: seq<nat>)
    requires Ascends(a, 0, |a|) && Ascends(b, 0, |b|) && forall x: nat :: x in a <==> x in b
    ensures a == b
  {
    FirstIsMember(a);
    FirstIsMember(b);
    if a != [] && b != [] {
      assert a[0] == b[0];
      forall x: nat ensures x in a[1..] <==> x in b[1..] {
        assert x in a <==> x == a[0] || x in a[1..];
        assert x in b <==> x == b[0] || x in b[1..];
      }
      AscendingIsUnique(a[1..], b[1..]);
      assert a == [a[0]] + a[1..] && b == [b[0]] + b[1..];
    }
  }

  /** The places of one group of a stable split are all the places with that answer. */
  lemma GroupPlaces<T>(s: seq<T>, r: seq<T>, p: T -> bool, mid: nat, places: seq<nat>, wanted: bool)
    requires Rearranges(s, r, places) && mid <= |r| && forall i :: 0 <= i < |r| ==> (p(r[i]) <==> i < mid)
    requires Ascends(places, 0, mid) && Ascends(places, mid, |r|)
    ensures (if wanted then places[..mid] else places[mid..]) == Places(s, p, wanted)
  {
    hide Places;
    PlacesAscend(s, p, wanted);
    PlacesMissNone(s, p, wanted);
    var group := if wanted then places[..mid] else places[mid..];
    forall x: nat ensures x in group <==> x in Places(s, p, wanted) {
      if x < |s| && p(s[x]) == wanted {
        assert x in places;
        var i :| 0 <= i < |places| && places[i] == x;
        assert group[if wanted then i else i - mid] == x;
      }
    }
    AscendingIsUnique(group, Places(s, p, wanted));
  }

  /** There is one stable split of a stretch, and it is what one pass makes. */
  lemma StableSplitIff<T>(s: seq<T>, r: seq<T>, p: T -> bool, mid: nat)
    ensures StableSplit(s, r, p, mid) <==> r == Partitioned(s, p) && mid == |Select(s, p, true)|
  {
    hide Select, Rearranges, Ascends;
    PartitionedIsStable(s, p);
    if StableSplit(s, r, p, mid) {
      var places :| Rearranges(s, r, places) && Ascends(places, 0, mid) && Ascends(places, mid, |r|);
      OneGroup(s, r, p, mid, places, true);
      OneGroup(s, r, p, mid, places, false);
      assert r == r[..mid] + r[mid..];
    }
  }

  lemma OneGroup<T>(s: seq<T>, r: seq<T>, p: T -> bool, mid: nat, places: seq<nat>, wanted: bool)
    requires Rearranges(s, r, places) && mid <= |r| && forall i :: 0 <= i < |r| ==> (p(r[i]) <==> i < mid)
    requires Ascends(places, 0, mid) && Ascends(places, mid, |r|)
    ensures (if wanted then r[..mid] else r[mid..]) == Select(s, p, wanted)
  {
    hide Select, Places, Ascends;
    GroupPlaces(s, r, p, mid, places, wanted);
    PlacesHold(s, p, wanted);
    var group := if wanted then places[..mid] else places[mid..];
    SameElements(s, if wanted then r[..mid] else r[mid..], group, Select(s, p, wanted));
  }

  lemma SameElements<T>(s: seq<T>, a: seq<T>, places: seq<nat>, b: seq<T>)
    requires |a| == |places| == |b|
    requires forall i :: 0 <= i < |a| ==> places[i] < |s| && a[i] == s[places[i]] && b[i] == s[places[i]]
    ensures a == b
  {
  }

  lemma FirstIsMember(a: seq<nat>)
    ensures a != [] ==> a[0] in a
  {
  }

  /** The loop both algorithms share: move kept elements forward and queue the others. */
  method MoveKept<T>(a: array<T>, first: nat, last: nat, keep: T -> bool) returns (mid: nat, queue: seq<T>)
    requires first <= last <= a.Length
    modifies a
    ensures var s := old(a[first..last]);
            && mid == first + |Select(s, keep, true)| <= last
            && queue == Select(s, keep, false)
            && forall i :: first <= i < mid ==> a[i] == Select(s, keep, true)[i - first]
    ensures forall i :: 0 <= i < first || last <= i < a.Length ==> a[i] == old(a[i])
  {
    hide Select;
    ghost var was := a[..];
    ghost var s := was[first..last];
    ghost var kept: seq<T> := [];
    queue := [];
    var current := first;
    mid := first;
    NothingSelected(s, keep);
    while current != last
      invariant first <= mid <= current <= last && mid == first + |kept|
      invariant queue == Select(s[..current - first], keep, false)
      invariant kept == Select(s[..current - first], keep, true)
      invariant forall i :: first <= i < mid ==> a[i] == kept[i - first]
      invariant forall i :: 0 <= i < first || current <= i < a.Length ==> a[i] == was[i]
    {
      SelectNext(s, current - first, keep);
      if !keep(a[current]) {
        queue := queue + [a[current]];
      } else {
        kept := kept + [a[current]];
        if mid != current {
          a[mid] := a[current];
        }
        mid := mid + 1;
      }
      current := current + 1;
    }
    assert s[..last - first] == s;
  }

  /** One pass: the kept elements, then the queued ones. */
  method PartitionPass<T>(a: array<T>, first: nat, last: nat, keep: T -> bool) returns (mid: nat)
    requires first <= last <= a.Length
    modifies a
    ensures a[..] == old(a[..first]) + Partitioned(old(a[first..last]), keep) + old(a[last..])
    ensures mid == first + |Select(old(a[first..last]), keep, true)|
  {
    hide Select;
    ghost var was := a[..];
    ghost var s := was[first..last];
    var queue;
    mid, queue := MoveKept(a, first, last, keep);
    SelectSizes(s, keep);
    ghost var moved := a[..];
    Drain(a, mid, queue);
    KeptThenQueued(was, first, last, Select(s, keep, true), queue, moved);
  }

  /** The kept elements, the drained queue, and the rest of the array. */
  lemma KeptThenQueued<T>(was: seq<T>, first: nat, last: nat, kept: seq<T>, queue: seq<T>, moved: seq<T>)
    requires first + |kept| + |queue| == last <= |was| == |moved|
    requires forall i :: 0 <= i < first || last <= i < |was| ==> moved[i] == was[i]
    requires forall i :: first <= i < first + |kept| ==> moved[i] == kept[i - first]
    ensures moved[..first + |kept|] + queue + moved[last..] == was[..first] + (kept + queue) + was[last..]
  {
    assert moved[..first + |kept|] == was[..first] + kept;
    assert moved[last..] == was[last..];
  }

  lemma NothingSelected<T>(s: seq<T>, p: T -> bool)
    ensures Select(s[..0], p, true) == Select(s[..0], p, false) == []
  {
  }

  lemma SelectNext<T>(s: seq<T>, n: nat, p: T -> bool)
    requires n < |s|
    ensures Select(s[..n + 1], p, p(s[n])) == Select(s[..n], p, p(s[n])) + [s[n]]
    ensures Select(s[..n + 1], p, !p(s[n])) == Select(s[..n], p, !p(s[n]))
  {
    assert s[..n + 1][..n] == s[..n];
  }

  /** Emptying the queue into the cells that follow the kept elements. */
  method Drain<T>(a: array<T>, from: nat, items: seq<T>)
    requires from + |items| <= a.Length
    modifies a
    ensures a[..] == old(a[..from]) + items + old(a[from + |items|..])
  {
    ghost var was := a[..];
    var queue, first := items, from;
    while queue != []
      invariant from <= first && first + |queue| == from + |items| && queue == items[first - from..]
      invariant forall i :: 0 <= i < from || first <= i < a.Length ==> a[i] == was[i]
      invariant forall i :: from <= i < first ==> a[i] == items[i - from]
    {
      a[first] := queue[0];
      queue := queue[1..];
      first := first + 1;
    }
    assert a[..] == was[..from] + items + was[from + |items|..];
  }

  /** The boundary the source returns: `last` for a range of at most one element, whatever the predicate says. */
  function PartitionPoint<T>(s: seq<T>, p: T -> bool): nat {
    if |s| < 2 then |s| else |Select(s, p, true)|
  }

  method StablePartition<T>(a: array<T>, first: nat, last: nat, p: T -> bool) returns (point: nat)
    requires first <= last <= a.Length
    modifies a
    ensures a[..] == old(a[..first]) + Partitioned(old(a[first..last]), p) + old(a[last..])
    ensures point == first + PartitionPoint(old(a[first..last]), p)
    ensures a[..first] == old(a[..first]) && a[last..] == old(a[last..])
    ensures last - first == 1 ==> a[first] == old(a[first]) && point == last
    ensures last - first != 1 ==>
              first <= point && StableSplit(old(a[first..last]), a[first..last], p, point - first)
  {
    hide Select, Partitioned, StableSplit;
    PartitionedIsStable(a[first..last], p);
    ghost var was := a[..];

    if first == last || first == last - 1 {
      OnFewElements(a[first..last], p);
      assert a[..] == a[..first] + a[first..last] + a[last..];
      return last;
    }
    point := PartitionPass(a, first, last, p);
    ReadBack(a[..], was[..first], Partitioned(was[first..last], p), was[last..]);
  }

  lemma OnFewElements<T>(s: seq<T>, p: T -> bool)
    requires |s| < 2
    ensures Partitioned(s, p) == s && PartitionPoint(s, p) == |s|
    ensures s == [] ==> |Select(s, p, true)| == 0
  {
    assert |s| == 1 ==> s[..0] == [] && [s[0]] == s;
  }

  /** The three stretches of an array that was put together from them. */
  lemma ReadBack<T>(whole: seq<T>, a: seq<T>, b: seq<T>, c: seq<T>)
    requires whole == a + b + c
    ensures whole[..|a|] == a && whole[|a|..|a| + |b|] == b && whole[|a| + |b|..] == c
  {
  }

  /** The returned boundary separates the two groups except on a single element that fails the predicate. */
  lemma PartitionPointIsBoundaryIff<T>(s: seq<T>, p: T -> bool)
    ensures PartitionPoint(s, p) == |Select(s, p, true)| <==> !(|s| == 1 && !p(s[0]))
  {
    if |s| == 1 { assert s[..0] == []; }
  }

  /** The outcome is a permutation whose front satisfies the predicate and whose back does not. */
  lemma PartitionedIsSound<T>(s: seq<T>, p: T -> bool)
    ensures multiset(Partitioned(s, p)) == multiset(s)
    ensures forall i :: 0 <= i < |s| ==> (p(Partitioned(s, p)[i]) <==> i < |Select(s, p, true)|)
  {
    hide Select;
    SelectPermutes(s, p);
    SelectSizes(s, p);
    SelectAnswers(s, p, true);
    SelectAnswers(s, p, false);
    var front, back, r := Select(s, p, true), Select(s, p, false), Partitioned(s, p);
    forall i | 0 <= i < |s| ensures p(r[i]) <==> i < |front| {
      if i < |front| {
        assert r[i] == front[i];
      } else {
        assert r[i] == back[i - |front|];
      }
    }
  }

  /** Partitioning twice changes nothing more. */
  lemma PartitionedIsIdempotent<T>(s: seq<T>, p: T -> bool)
    ensures Partitioned(Partitioned(s, p), p) == Partitioned(s, p)
  {
    hide Select;
    var front, back := Select(s, p, true), Select(s, p, false);
    SelectAnswers(s, p, true);
    SelectAnswers(s, p, false);
    SelectAppend(front, back, p, true);
    SelectAppend(front, back, p, false);
    SelectUniform(front, p, true);
    SelectUniform(back, p, false);
  }

  lemma {:induction false} SelectAppend<T>(s: seq<T>, t: seq<T>, p: T -> bool, wanted: bool)
    ensures Select(s + t, p, wanted) == Select(s, p, wanted) + Select(t, p, wanted)
  {
    if t == [] {
      assert s + t == s;
    } else {
      var n := |t| - 1;
      assert (s + t)[..|s| + n] == s + t[..n];
      SelectAppend(s, t[..n], p, wanted);
    }
  }

  lemma {:induction false} SelectUniform<T>(s: seq<T>, p: T -> bool, answer: bool)
    requires forall i :: 0 <= i < |s| ==> p(s[i]) == answer
    ensures Select(s, p, answer) == s && Select(s, p, !answer) == []
  {
    if s != [] {
      assert s == s[..|s| - 1] + [s[|s| - 1]];
      SelectUniform(s[..|s| - 1], p, answer);
    }
  }

  // ----- stable_gather -----

  /** To the left of the target, what does not match it is kept in front. */
  function Unlike<T>(t: T, similar: (T, T) -> bool): T -> bool {
    x => !similar(x, t)
  }

  /** To the right of the target, what matches it is kept in front. */
  function Like<T>(t: T, similar: (T, T) -> bool): T -> bool {
    x => similar(t, x)
  }

  /** Left non-matching, left matching, target, right matching, right non-matching. */
  function Gathered<T>(s: seq<T>, target: nat, similar: (T, T) -> bool): (r: seq<T>)
    requires target < |s|
    ensures |r| == |s|
  {
    var t := s[target];
    Partitioned(s[..target], Unlike(t, similar)) + [t] + Partitioned(s[target + 1..], Like(t, similar))
  }

  function GatherLow<T>(s: seq<T>, target: nat, similar: (T, T) -> bool): nat
    requires target < |s|
  {
    |Select(s[..target], Unlike(s[target], similar), true)|
  }

  function GatherHigh<T>(s: seq<T>, target: nat, similar: (T, T) -> bool): nat
    requires target < |s|
  {
    target + 1 + |Select(s[target + 1..], Like(s[target], similar), true)|
  }

  /** `r` is `s` with the target in its place and what matches it next to it on both sides, each of the four groups in
      its old order and no element carried over the target. */
  ghost predicate StableGathering<T>(s: seq<T>, r: seq<T>, target: nat, similar: (T, T) -> bool, low: nat, high: nat) {
    && |r| == |s| && low <= target < high <= |s|
    && r[target] == s[target]
    && (forall i :: 0 <= i < target ==> (similar(r[i], s[target]) <==> low <= i))
    && (forall i :: target < i < |s| ==> (similar(s[target], r[i]) <==> i < high))
    && exists places :: Rearranges(s, r, places) && GathersFrom(places, target, low, high)
  }

  /** The four groups, each from ascending places on its side of the target. */
  ghost predicate GathersFrom(places: seq<nat>, target: nat, low: nat, high: nat) {
    && low <= target < high <= |places|
    && places[target] == target
    && (forall i :: 0 <= i < target ==> places[i] < target)
    && (forall i :: target < i < |places| ==> target < places[i])
    && Ascends(places, 0, low) && Ascends(places, low, target)
    && Ascends(places, target + 1, high) && Ascends(places, high, |places|)
  }

  ghost function Shifted(places: seq<nat>, n: nat): (r: seq<nat>)
    ensures |r| == |places| && forall i :: 0 <= i < |r| ==> r[i] == places[i] + n
  {
    seq(|places|, i requires 0 <= i < |places| => places[i] + n)
  }

  /** Rearranging two neighbouring stretches, each within itself. */
  lemma RearrangesBoth<T>(s: seq<T>, r: seq<T>, places: seq<nat>, s': seq<T>, r': seq<T>, places': seq<nat>)
    requires Rearranges(s, r, places) && Rearranges(s', r', places')
    ensures Rearranges(s + s', r + r', places + Shifted(places', |s|))
  {
    NoPlaceMissed(places, places', |s|, |s'|);
  }

  lemma NoPlaceMissed(places: seq<nat>, places': seq<nat>, n: nat, n': nat)
    requires forall i: nat :: i < n ==> i in places
    requires forall i: nat :: i < n' ==> i in places'
    ensures forall i: nat :: i < n + n' ==> i in places + Shifted(places', n)
  {
    forall i: nat | i < n + n' ensures i in places + Shifted(places', n) {
      if i >= n {
        var place: nat := i - n;
        assert place in places';
        var k :| 0 <= k < |places'| && places'[k] == place;
        assert Shifted(places', n)[k] == i;
      }
    }
  }

  /** The places on both sides of the target put together. */
  lemma PlacesAroundTarget<T>(s: seq<T>, target: nat, left: seq<T>, front: seq<nat>, low: nat,
                              right: seq<T>, back: seq<nat>, high: nat) returns (places: seq<nat>)
    requires target < |s| && low <= target && high <= |right|
    requires Rearranges(s[..target], left, front) && Ascends(front, 0, low) && Ascends(front, low, target)
    requires Rearranges(s[target + 1..], right, back) && Ascends(back, 0, high) && Ascends(back, high, |right|)
    ensures Rearranges(s, left + [s[target]] + right, places)
    ensures GathersFrom(places, target, low, target + 1 + high)
  {
    hide Rearranges, GathersFrom, Ascends;
    var t := [s[target]];
    TargetStays(t);
    RearrangesBoth(s[..target], left, front, t, t, [0]);
    RearrangesBoth(s[..target] + t, left + t, front + Shifted([0], target), s[target + 1..], right, back);
    assert s == s[..target] + t + s[target + 1..];
    places := front + Shifted([0], target) + Shifted(back, target + 1);
    PlacesWithin(s[..target], left, front);
    PlacesWithin(s[target + 1..], right, back);
    GroupsAroundTarget(front, low, back, high);
  }

  lemma TargetStays<T>(t: seq<T>)
    requires |t| == 1
    ensures Rearranges(t, t, [0])
  {
    assert forall i: nat :: i < 1 ==> i in [0];
  }

  lemma PlacesWithin<T>(s: seq<T>, r: seq<T>, places: seq<nat>)
    requires Rearranges(s, r, places)
    ensures |places| == |r| == |s| && forall i :: 0 <= i < |places| ==> places[i] < |s|
  {
  }

  lemma GroupsAroundTarget(front: seq<nat>, low: nat, back: seq<nat>, high: nat)
    requires low <= |front| && high <= |back| && forall i :: 0 <= i < |front| ==> front[i] < |front|
    requires Ascends(front, 0, low) && Ascends(front, low, |front|)
    requires Ascends(back, 0, high) && Ascends(back, high, |back|)
    ensures GathersFrom(front + Shifted([0], |front|) + Shifted(back, |front| + 1), |front|, low, |front| + 1 + high)
  {
  }

  /** Two passes around the target make the stable gathering. */
  lemma GatheredIsStable<T>(s: seq<T>, target: nat, similar: (T, T) -> bool)
    requires target < |s|
    ensures StableGathering(s, Gathered(s, target, similar), target, similar,
                            GatherLow(s, target, similar), GatherHigh(s, target, similar))
  {
    hide Select, Partitioned, Rearranges, Ascends, GathersFrom;
    var t, left, right := s[target], s[..target], s[target + 1..];
    var unlike, like := Unlike(t, similar), Like(t, similar);
    GatheredIsSound(s, target, similar);
    PartitionedIsStable(left, unlike);
    PartitionedIsStable(right, like);
    var first, second := Partitioned(left, unlike), Partitioned(right, like);
    var low, high := |Select(left, unlike, true)|, |Select(right, like, true)|;
    var front :| Rearranges(left, first, front) && Ascends(front, 0, low) && Ascends(front, low, |first|);
    var back :| Rearranges(right, second, back) && Ascends(back, 0, high) && Ascends(back, high, |second|);
    var places := PlacesAroundTarget(s, target, first, front, low, second, back, high);
  }

  /** The specification, read off the array's cells. */
  lemma GatheredInPlace<T>(was: seq<T>, first: nat, target: nat, last: nat, similar: (T, T) -> bool)
    requires first <= target < last <= |was|
    ensures var s, t, n := was[first..last], was[target], target - first;
            && Gathered(s, n, similar) == Partitioned(was[first..target], Unlike(t, similar)) + [t]
                                          + Partitioned(was[target + 1..last], Like(t, similar))
            && GatherLow(s, n, similar) == |Select(was[first..target], Unlike(t, similar), true)|
            && GatherHigh(s, n, similar) == n + 1 + |Select(was[target + 1..last], Like(t, similar), true)|
  {
    hide Select, Partitioned, Unlike, Like;
    var s := was[first..last];
    assert s[..target - first] == was[first..target] && s[target - first + 1..] == was[target + 1..last];
  }

  /** The two passes, to the left of the target and to the right of it. */
  method GatherAround<T>(a: array<T>, first: nat, last: nat, target: nat, similar: (T, T) -> bool)
    returns (low: nat, high: nat)
    requires first <= target < last <= a.Length
    modifies a
    ensures var s := old(a[first..last]);
            && a[..] == old(a[..first]) + Gathered(s, target - first, similar) + old(a[last..])
            && low == first + GatherLow(s, target - first, similar)
            && high == first + GatherHigh(s, target - first, similar)
  {
    hide Select, Partitioned, Unlike, Like, Gathered, GatherLow, GatherHigh;
    ghost var was := a[..];
    var t := a[target];
    low := PartitionPass(a, first, target, Unlike(t, similar));
    ghost var left := a[..];
    high := PartitionPass(a, target + 1, last, Like(t, similar));
    GatheredInPlace(was, first, target, last, similar);
    TwoPasses(was, first, target, last, Partitioned(was[first..target], Unlike(t, similar)), left,
              Partitioned(was[target + 1..last], Like(t, similar)));
  }

  method StableGather<T>(a: array<T>, first: nat, last: nat, target: nat, similar: (T, T) -> bool)
    returns (low: nat, high: nat)
    requires first <= target <= last <= a.Length
    modifies a
    ensures target == last ==> low == high == last && a[..] == old(a[..])
    ensures a[..first] == old(a[..first]) && a[last..] == old(a[last..])
    ensures target < last ==>
              && first <= low && first <= high
              && StableGathering(old(a[first..last]), a[first..last], target - first, similar,
                                 low - first, high - first)
  {
    hide Gathered, GatherLow, GatherHigh, StableGathering;
    if first == last || target == last {
      return last, last;
    }
    ghost var was := a[..];
    low, high := GatherAround(a, first, last, target, similar);
    GatheredIsStable(was[first..last], target - first, similar);
    ReadBack(a[..], was[..first], Gathered(was[first..last], target - first, similar), was[last..]);
  }

  /** The first pass leaves the target and everything behind it alone. */
  lemma TwoPasses<T>(was: seq<T>, first: nat, target: nat, last: nat, front: seq<T>, left: seq<T>, back: seq<T>)
    requires first <= target < last <= |was| && |front| == target - first
    requires left == was[..first] + front + was[target..]
    ensures left[target + 1..last] == was[target + 1..last]
    ensures left[..target + 1] + back + left[last..] == was[..first] + (front + [was[target]] + back) + was[last..]
  {
    assert left[..target + 1] == was[..first] + front + [was[target]];
    assert left[last..] == was[last..];
  }

  /** The target stays, the result is a permutation, and the returned pair bounds exactly the target and what
      matches it. */
  lemma GatheredIsSound<T>(s: seq<T>, target: nat, similar: (T, T) -> bool)
    requires target < |s|
    ensures var r := Gathered(s, target, similar);
            var low, high := GatherLow(s, target, similar), GatherHigh(s, target, similar);
            && r[target] == s[target]
            && multiset(r) == multiset(s)
            && low <= target < high <= |s|
            && (forall i :: 0 <= i < target ==> (similar(r[i], s[target]) <==> low <= i))
            && (forall i :: target < i < |s| ==> (similar(s[target], r[i]) <==> i < high))
  {
    var t, left, right := s[target], s[..target], s[target + 1..];
    var unlike, like := Unlike(t, similar), Like(t, similar);
    PartitionedIsSound(left, unlike);
    PartitionedIsSound(right, like);
    SelectSizes(left, unlike);
    SelectSizes(right, like);
    assert s == left + [t] + right;
    var r := Gathered(s, target, similar);
    forall i | 0 <= i < target ensures similar(r[i], t) <==> GatherLow(s, target, similar) <= i {
      assert r[i] == Partitioned(left, unlike)[i];
    }
    forall i | target < i < |s| ensures similar(t, r[i]) <==> i < GatherHigh(s, target, similar) {
      assert r[i] == Partitioned(right, like)[i - target - 1];
    }
  }
}
