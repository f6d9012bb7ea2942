/** `find_first_sequence_of_allowed_elements` and `find_longest_word`. */
module LongestWord {
  import opened Wrappers

  /** A container with `find`, one that can be sorted, or one that can only be searched linearly. */
  datatype Haystack = Findable(items: set<int>) | Sortable(elements: seq<int>) | Linear(elements: seq<int>)

  ghost function Members(h: Haystack): set<int> {
    match h
    case Findable(items) => items
    case Sortable(elements) => set x | x in elements
    case Linear(elements) => set x | x in elements
  }

  // ----- Sorting and binary search -----

  predicate Ascending(s: seq<int>) {
    forall i, j :: 0 <= i < j < |s| ==> s[i] <= s[j]
  }

  /** How many elements of an ascending sequence are below `x`. */
  function Rank(x: int, s: seq<int>): (k: nat)
    requires Ascending(s)
    ensures k <= |s|
    ensures forall i :: 0 <= i < |s| ==> (s[i] < x <==> i < k)
  {
    if s == [] || x <= s[0] then 0 else 1 + Rank(x, s[1..])
  }

  function InsertSorted(x: int, s: seq<int>): seq<int>
    requires Ascending(s)
  {
    s[..Rank(x, s)] + [x] + s[Rank(x, s)..]
  }

  lemma InsertSortedKeepsElements(x: int, s: seq<int>)
    requires Ascending(s)
    ensures multiset(InsertSorted(x, s)) == multiset(s) + multiset{x}
  {
    hide Rank, Ascending;
    assert s == s[..Rank(x, s)] + s[Rank(x, s)..];
  }

  lemma InsertSortedIsAscending(x: int, s: seq<int>)
    requires Ascending(s)
    ensures Ascending(InsertSorted(x, s))
  {
    hide Rank;
    var k, r := Rank(x, s), InsertSorted(x, s);
    forall i, j | 0 <= i < j < |r| ensures r[i] <= r[j] {
      assert r[i] == if i < k then s[i] else if i == k then x else s[i - 1];
      assert r[j] == if j < k then s[j] else if j == k then x else s[j - 1];
    }
  }

  /** `std::sort`: some ascending arrangement of the same elements. */
  function Sort(s: seq<int>): (r: seq<int>)
    ensures Ascending(r) && multiset(r) == multiset(s)
  {
    if s == [] then []
    else
      var rest := Sort(s[1..]);
      InsertSortedIsAscending(s[0], rest);
      InsertSortedKeepsElements(s[0], rest);
      assert s == [s[0]] + s[1..];
      InsertSorted(s[0], rest)
  }

  /** `std::binary_search`: halve the range until `lower_bound` is reached. */
  method BinarySearch(s: seq<int>, x: int) returns (found: bool)
    requires Ascending(s)
    ensures found <==> x in s
  {
    var lo, hi := 0, |s|;
    while lo < hi
      invariant 0 <= lo <= hi <= |s|
      invariant forall i :: 0 <= i < lo ==> s[i] < x
      invariant forall i :: hi <= i < |s| ==> x <= s[i]
    {
      var mid := lo + (hi - lo) / 2;
      if s[mid] < x { lo := mid + 1; } else { hi := mid; }
    }
    found := lo < |s| && !(x < s[lo]);
  }

  method LinearSearch(s: seq<int>, x: int) returns (found: bool)
    ensures found <==> x in s
  {
    for i := 0 to |s|
      invariant x !in s[..i]
    {
      if s[i] == x { return true; }
    }
    assert s[..|s|] == s;
    return false;
  }

  /** The three membership tests; a sorted flag selects binary search. */
  method IsAllowed(h: Haystack, sorted: bool, x: int) returns (allowed: bool)
    requires sorted && !h.Findable? ==> Ascending(h.elements)
    ensures allowed <==> x in Members(h)
  {
    match h
    case Findable(items) => allowed := x in items;
    case _ =>
      if sorted {
        allowed := BinarySearch(h.elements, x);
      } else {
        allowed := LinearSearch(h.elements, x);
      }
  }

  // ----- Runs -----

  ghost predicate AllIn(src: seq<int>, lo: nat, hi: nat, members: set<int>) {
    lo <= hi <= |src| && forall i :: lo <= i < hi ==> src[i] in members
  }

  /** [lo, hi) is the first maximal run at or after `first`, or empty at the end when there is none. */
  ghost predicate FirstRun(src: seq<int>, first: nat, members: set<int>, lo: nat, hi: nat) {
    && first <= lo <= hi <= |src|
    && (forall i :: first <= i < lo ==> src[i] !in members)
    && AllIn(src, lo, hi, members)
    && (hi < |src| ==> src[hi] !in members)
    && (lo == hi ==> hi == |src|)
  }

  method FindFirstSequence(src: seq<int>, first: nat, h: Haystack, sorted: bool) returns (lo: nat, hi: nat)
    requires first <= |src|
    requires sorted && !h.Findable? ==> Ascending(h.elements)
    ensures FirstRun(src, first, Members(h), lo, hi)
  {
    lo := first;
    while lo < |src|
      invariant first <= lo <= |src|
      invariant forall i :: first <= i < lo ==> src[i] !in Members(h)
    {
      var allowed := IsAllowed(h, sorted, src[lo]);
      if allowed { break; }
      lo := lo + 1;
    }
    if lo == |src| {
      return |src|, |src|;
    }
    hi := lo + 1;
    while hi < |src|
      invariant AllIn(src, lo, hi, Members(h)) && lo < hi
    {
      var allowed := IsAllowed(h, sorted, src[hi]);
      if !allowed { break; }
      hi := hi + 1;
    }
  }

  /** No allowed stretch is longer than [lo, hi), and none of that length starts earlier. */
  ghost predicate LeftmostLongest(src: seq<int>, upTo: nat, members: set<int>, lo: nat, hi: nat) {
    && AllIn(src, lo, hi, members) && hi <= upTo
    && (lo == hi ==> lo == 0)
    && forall i: nat, j: nat :: i < j <= upTo && AllIn(src, i, j, members) ==>
         j - i <= hi - lo && (j - i == hi - lo ==> lo <= i)
  }

  method FindLongestWord(src: seq<int>, h: Haystack) returns (lo: nat, hi: nat, after: Haystack)
    ensures LeftmostLongest(src, |src|, Members(h), lo, hi)
    ensures Members(after) == Members(h)
    ensures after == match h { case Sortable(elements) => Sortable(Sort(elements)) case _ => h }
  {
    after := h;
    var sorted := h.Findable?;
    if h.Sortable? {
      after := Sortable(Sort(h.elements));
      SortKeepsMembers(h.elements);
      sorted := true;
    }
    ghost var members := Members(h);
    var first, longest := 0, 0;
    lo, hi := 0, 0;
    while first != |src|
      invariant first <= |src| && longest == hi - lo
      invariant 0 < first < |src| ==> src[first] !in members
      invariant LeftmostLongest(src, first, members, lo, hi)
      decreases |src| - first
    {
      var runLo, runHi := FindFirstSequence(src, first, after, sorted);
      NextRun(src, first, members, runLo, runHi, lo, hi);
      if runLo == runHi {
        break;
      }
      if runHi - runLo > longest {
        longest, lo, hi := runHi - runLo, runLo, runHi;
      }
      first := runHi;
    }
  }

  lemma SortKeepsMembers(s: seq<int>)
    ensures Members(Sortable(Sort(s))) == Members(Sortable(s))
  {
    forall x ensures x in Sort(s) <==> x in s {
      assert x in Sort(s) <==> x in multiset(Sort(s));
      assert x in s <==> x in multiset(s);
    }
  }

  /** Every allowed stretch that ends behind `first` lies in the next run, unless there is no next run. */
  lemma NextRun(src: seq<int>, first: nat, members: set<int>, runLo: nat, runHi: nat, lo: nat, hi: nat)
    requires first <= |src| && FirstRun(src, first, members, runLo, runHi)
    requires 0 < first < |src| ==> src[first] !in members
    requires LeftmostLongest(src, first, members, lo, hi)
    ensures runHi - runLo > hi - lo ==> LeftmostLongest(src, runHi, members, runLo, runHi)
    ensures runHi - runLo <= hi - lo ==> LeftmostLongest(src, runHi, members, lo, hi)
  {
    forall i: nat, j: nat | first < j <= runHi && i < runLo && i < j ensures !AllIn(src, i, j, members) {
      var k := if i < first then first else i;
      assert src[k] !in members;
    }
  }

  /** The three kinds of container allow the same elements when they hold the same elements. */
  lemma MembersOnEveryPath(elements: seq<int>, items: set<int>)
    requires forall x: int :: x in items <==> x in elements
    ensures Members(Findable(items)) == Members(Sortable(elements)) == Members(Linear(elements)) == items
  {
    forall x: int ensures x in items <==> x in Members(Sortable(elements)) {
    }
    assert Members(Sortable(elements)) == Members(Linear(elements));
  }

  /** The described range, element by element: it holds allowed elements only, and every other such stretch is shorter,
      or as long and behind it. */
  lemma LeftmostLongestBeats(src: seq<int>, members: set<int>, lo: nat, hi: nat, i: nat, j: nat)
    requires LeftmostLongest(src, |src|, members, lo, hi)
    requires i < j <= |src| && forall k :: i <= k < j ==> src[k] in members
    ensures lo < hi <= |src| && forall k :: lo <= k < hi ==> src[k] in members
    ensures j - i < hi - lo || (j - i == hi - lo && lo <= i)
  {
    assert AllIn(src, i, j, members);
  }

  /** The three membership paths find the same word. */
  lemma PathsAgree(src: seq<int>, elements: seq<int>, items: set<int>, lo: nat, hi: nat, lo': nat, hi': nat,
                   lo'': nat, hi'': nat)
    requires forall x: int :: x in items <==> x in elements
    requires LeftmostLongest(src, |src|, Members(Findable(items)), lo, hi)
    requires LeftmostLongest(src, |src|, Members(Sortable(elements)), lo', hi')
    requires LeftmostLongest(src, |src|, Members(Linear(elements)), lo'', hi'')
    ensures lo == lo' == lo'' && hi == hi' == hi''
  {
    MembersOnEveryPath(elements, items);
    LeftmostLongestIsUnique(src, items, lo, hi, lo', hi');
    LeftmostLongestIsUnique(src, items, lo, hi, lo'', hi'');
  }

  /** The leftmost longest stretch is unique, so all three membership tests give the same answer. */
  lemma LeftmostLongestIsUnique(src: seq<int>, members: set<int>, lo: nat, hi: nat, lo': nat, hi': nat)
    requires LeftmostLongest(src, |src|, members, lo, hi) && LeftmostLongest(src, |src|, members, lo', hi')
    ensures lo == lo' && hi == hi'
  {
  }
}
