/** Editing NUL-terminated text inside a fixed-capacity character array. */
module FixedBuffer {
  import opened Machine
  import opened Wrappers
  import opened TextSearch
  import opened Replacing

  const NUL: char := '\0'

  // ----- The text a buffer holds -----

  /** `len(arr)`: the index of the first NUL, or the capacity when there is none. */
  function Len(cells: seq<char>): (n: nat)
    ensures n <= |cells|
    ensures forall i :: 0 <= i < n ==> cells[i] != NUL
    ensures n < |cells| ==> cells[n] == NUL
  {
    if cells == [] || cells[0] == NUL then 0 else 1 + Len(cells[1..])
  }

  function TextOf(cells: seq<char>): (text: string)
    ensures |text| == Len(cells)
  {
    cells[..Len(cells)]
  }

  predicate Terminated(cells: seq<char>) {
    Len(cells) < |cells|
  }

  /** The cells after writing `text` and its NUL at the front; cells behind the NUL keep what they had. */
  function Stored(cells: seq<char>, text: string): (r: seq<char>)
    requires |text| < |cells|
    ensures |r| == |cells|
  {
    text + [NUL] + cells[|text| + 1..]
  }

  lemma StoredCells(cells: seq<char>, text: string)
    requires |text| < |cells|
    ensures Stored(cells, text) == text + [NUL] + cells[|text| + 1..]
  {
  }

  lemma LenIsFirstNul(cells: seq<char>, n: nat)
    requires n < |cells| && cells[n] == NUL && forall i :: 0 <= i < n ==> cells[i] != NUL
    ensures Len(cells) == n
  {
  }

  /** A stored text is read back up to its first embedded NUL. */
  lemma StoredReadsBack(cells: seq<char>, text: string)
    requires |text| < |cells|
    ensures Terminated(Stored(cells, text)) && TextOf(Stored(cells, text)) == TextOf(text)
    ensures NUL !in text ==> TextOf(Stored(cells, text)) == text
  {
    var after := Stored(cells, text);
    LenIsFirstNul(after, Len(text));
    assert after[..Len(text)] == text[..Len(text)];
    assert NUL !in text ==> Len(text) == |text|;
  }

  // ----- Moving cells -----

  method LenOf(a: array<char>) returns (n: nat)
    ensures n == Len(a[..])
  {
    n := 0;
    while n < a.Length && a[n] != NUL
      invariant n <= a.Length
      invariant Len(a[..]) == n + Len(a[n..])
    {
      assert a[n..][1..] == a[n + 1..];
      n := n + 1;
    }
  }

  /** `std::copy_backward` of the cells [lo, hi) to the cells that end at `end`. */
  method CopyBackward(a: array<char>, lo: nat, hi: nat, end: nat)
    requires lo <= hi <= end <= a.Length
    modifies a
    ensures a[..] == old(a[..end - (hi - lo)]) + old(a[lo..hi]) + old(a[end..])
  {
    ghost var was := a[..];
    var k, to := end, end - (hi - lo);
    ghost var goal := was[..to] + was[lo..hi] + was[end..];
    while k > to
      invariant to <= k <= end
      invariant forall i :: 0 <= i < k ==> a[i] == was[i]
      invariant forall i :: k <= i < a.Length ==> a[i] == goal[i]
    {
      k := k - 1;
      assert goal[k] == was[k - to + lo];
      a[k] := a[k - to + lo];
    }
    assert a[..] == goal;
  }

  /** `std::copy` of the cells [lo, hi) to the cells that start at `to`. */
  method CopyForward(a: array<char>, lo: nat, hi: nat, to: nat)
    requires lo <= hi <= a.Length && to + (hi - lo) <= a.Length
    requires to <= lo || hi <= to
    modifies a
    ensures a[..] == old(a[..to]) + old(a[lo..hi]) + old(a[to + (hi - lo)..])
  {
    ghost var was := a[..];
    var k, end := to, to + (hi - lo);
    ghost var goal := was[..to] + was[lo..hi] + was[end..];
    while k < end
      invariant to <= k <= end
      invariant forall i :: k <= i < a.Length ==> a[i] == was[i]
      invariant forall i :: 0 <= i < k ==> a[i] == goal[i]
    {
      assert goal[k] == was[k - to + lo];
      a[k] := a[k - to + lo];
      k := k + 1;
    }
    assert a[..] == goal;
  }

  /** `std::copy` of `text` into the cells that start at `to`. */
  method CopyIn(a: array<char>, text: string, to: nat)
    requires to + |text| <= a.Length
    modifies a
    ensures a[..] == old(a[..to]) + text + old(a[to + |text|..])
  {
    ghost var was := a[..];
    for k := 0 to |text|
      invariant forall i :: 0 <= i < to || to + k <= i < a.Length ==> a[i] == was[i]
      invariant forall i :: to <= i < to + k ==> a[i] == text[i - to]
    {
      a[to + k] := text[k];
    }
    assert a[..] == was[..to] + text + was[to + |text|..];
  }

  // ----- Insert, prepend, append -----

  datatype Behaviour = DisallowPartial | AllowPartial | QueryOnly

  /** The cells after `src` went into the text at `position`. */
  function InsertedAt(cells: seq<char>, position: nat, src: string): (r: seq<char>)
    requires position <= Len(cells) && Len(cells) + |src| < |cells|
    ensures |r| == |cells|
  {
    Stored(cells, cells[..position] + src + cells[position..Len(cells)])
  }

  /** Shift the tail, copy the new part in, put the NUL behind. */
  lemma ShiftedCells(cells: seq<char>, len: nat, position: nat, src: string, shifted: seq<char>, filled: seq<char>)
    requires position <= len && len + |src| < |cells|
    requires shifted == cells[..position + |src|] + cells[position..len] + cells[len + |src|..]
    requires filled == shifted[..position] + src + shifted[position + |src|..]
    ensures |filled| == |cells|
    ensures filled[len + |src| := NUL] == Stored(cells, cells[..position] + src + cells[position..len])
  {
    var text := cells[..position] + src + cells[position..len];
    assert shifted[position + |src|..] == cells[position..len] + cells[len + |src|..];
    assert shifted[..position] == cells[..position];
    assert filled == text + cells[len + |src|..] by {
      ConcatRegroups(cells[..position], src, cells[position..len], cells[len + |src|..]);
    }
    PutNul(cells, text, filled);
  }

  lemma ConcatRegroups(a: seq<char>, b: seq<char>, c: seq<char>, d: seq<char>)
    ensures a + b + (c + d) == (a + b + c) + d
  {
  }

  /** Writing the NUL behind the text. */
  lemma PutNul(cells: seq<char>, text: string, filled: seq<char>)
    requires |text| < |cells| && filled == text + cells[|text|..]
    ensures filled[|text| := NUL] == Stored(cells, text)
  {
  }

  /** The shared body of insert and prepend: `copy_backward`, `copy`, NUL. */
  method OpenAndFill(a: array<char>, dstLen: nat, position: nat, src: string)
    requires dstLen == Len(a[..]) && position <= dstLen && dstLen + |src| < a.Length
    modifies a
    ensures a[..] == old(InsertedAt(a[..], position, src))
  {
    hide Len, Stored;
    ghost var cells := a[..];
    CopyBackward(a, position, dstLen, dstLen + |src|);
    ghost var shifted := a[..];
    CopyIn(a, src, position);
    ShiftedCells(cells, dstLen, position, src, shifted, a[..]);
    a[dstLen + |src|] := NUL;
  }

  lemma InsertedCells(cells: seq<char>, position: nat, src: string, len: nat)
    requires position <= len == Len(cells) && len + |src| < |cells|
    ensures InsertedAt(cells, position, src) ==
            cells[..position] + src + cells[position..len] + [NUL] + cells[len + |src| + 1..]
  {
    hide Len, Stored;
    StoredMiddle(cells, position, src, len);
  }

  lemma StoredMiddle(cells: seq<char>, position: nat, src: string, len: nat)
    requires position <= len <= |cells| && len + |src| < |cells|
    ensures Stored(cells, cells[..position] + src + cells[position..len]) ==
            cells[..position] + src + cells[position..len] + [NUL] + cells[len + |src| + 1..]
  {
  }

  method StrInsert(a: array<char>, position: nat, src: string, behaviour: Behaviour) returns (r: nat, required: nat)
    requires behaviour == AllowPartial && src != "" && position <= Len(a[..]) ==> Terminated(a[..])
    modifies a
    ensures required == old(Len(a[..])) + |src| + 1
    ensures behaviour == QueryOnly ==> r == required && a[..] == old(a[..])
    ensures behaviour != QueryOnly && (src == "" || position > old(Len(a[..]))
                                       || (behaviour == DisallowPartial && a.Length < required)) ==>
              r == 0 && a[..] == old(a[..])
    ensures behaviour != QueryOnly && src != "" && position <= old(Len(a[..]))
              && (behaviour == AllowPartial || required <= a.Length) ==>
              var len := old(Len(a[..]));
              && r == Min(|src|, a.Length - 1 - len)
              && a[..] == old(a[..position]) + src[..r] + old(a[position..len]) + [NUL] + old(a[len + r + 1..])
              && a[..] == InsertedAt(old(a[..]), position, src[..r])
  {
    hide Len, Stored, InsertedAt;
    var dstLen := LenOf(a);
    required := dstLen + |src| + 1;
    if behaviour == QueryOnly {
      return required, required;
    }
    if src == "" || position > dstLen || (behaviour == DisallowPartial && a.Length < required) {
      return 0, required;
    }
    r := Min(a.Length - 1 - dstLen, |src|);
    InsertedCells(a[..], position, src[..r], dstLen);
    OpenAndFill(a, dstLen, position, src[..r]);
  }

  method StrPrepend(a: array<char>, src: string, behaviour: Behaviour) returns (r: nat, required: nat)
    requires behaviour == AllowPartial && src != "" ==> Terminated(a[..])
    modifies a
    ensures required == old(Len(a[..])) + |src| + 1
    ensures behaviour == QueryOnly ==> r == (if src == "" then 0 else required) && a[..] == old(a[..])
    ensures behaviour != QueryOnly && (src == ""
                                       || (behaviour == DisallowPartial && a.Length < required)) ==>
              r == 0 && a[..] == old(a[..])
    ensures behaviour != QueryOnly && src != ""
              && (behaviour == AllowPartial || required <= a.Length) ==>
              var len := old(Len(a[..]));
              && r == Min(|src|, a.Length - 1 - len)
              && a[..] == src[..r] + old(a[..len]) + [NUL] + old(a[len + r + 1..])
  {
    hide Len, Stored, InsertedAt;
    ghost var cells := a[..];
    var dstLen := LenOf(a);
    required := dstLen + |src| + 1;
    if src == "" {
      return 0, required;
    }
    if behaviour == QueryOnly {
      return required, required;
    }
    if behaviour == DisallowPartial && a.Length < required {
      return 0, required;
    }
    r := Min(a.Length - dstLen - 1, |src|);
    InsertedCells(cells, 0, src[..r], dstLen);
    OpenAndFill(a, dstLen, 0, src[..r]);
    assert cells[..0] + src[..r] + cells[0..dstLen] == src[..r] + cells[..dstLen];
  }

  method StrAppend(a: array<char>, src: string, behaviour: Behaviour) returns (r: nat, required: nat)
    requires behaviour == AllowPartial && src != "" ==> Terminated(a[..])
    modifies a
    ensures required == old(Len(a[..])) + |src| + 1
    ensures behaviour == QueryOnly ==> r == (if src == "" then 0 else required) && a[..] == old(a[..])
    ensures behaviour != QueryOnly && (src == ""
                                       || (behaviour == DisallowPartial && a.Length < required)) ==>
              r == 0 && a[..] == old(a[..])
    ensures behaviour != QueryOnly && src != ""
              && (behaviour == AllowPartial || required <= a.Length) ==>
              var len := old(Len(a[..]));
              && r == Min(|src|, a.Length - 1 - len)
              && a[..] == old(a[..len]) + src[..r] + [NUL] + old(a[len + r + 1..])
  {
    hide Len, Stored;
    var dstLen := LenOf(a);
    required := dstLen + |src| + 1;
    if src == "" {
      return 0, required;
    }
    if behaviour == QueryOnly {
      return required, required;
    }
    if behaviour == DisallowPartial && a.Length < required {
      return 0, required;
    }
    r := Min(a.Length - dstLen - 1, |src|);
    ghost var cells := a[..];
    CopyIn(a, src[..r], dstLen);
    PutNul(cells, cells[..dstLen] + src[..r], a[..]);
    StoredCells(cells, cells[..dstLen] + src[..r]);
    a[dstLen + r] := NUL;
  }

  // ----- Erase -----

  /** The count the source erases and returns, for every start: the test adds and the clamp subtracts in `size_t`. */
  function ErasedCount(len: nat, start: nat, n: nat): nat {
    if Wrap(start + n, SIZE_T) > len then Wrap(len - start, SIZE_T) else n
  }

  /** The count is the number of characters behind the start, at most `n`, exactly when the start lies in the text
      and `start + n` does not wrap around. */
  lemma ErasedCountIsClampedIff(len: nat, start: nat, n: nat)
    requires len < SIZE_T && start < SIZE_T && n < SIZE_T
    ensures ErasedCount(len, start, n) == (if start <= len then Min(n, len - start) else 0)
            <==> start <= len && start + n < SIZE_T
  {
    if start + n >= SIZE_T {
      WrapIs(start + n, SIZE_T, 1, start + n - SIZE_T);
    }
    if start > len {
      WrapIs(len - start, SIZE_T, -1, SIZE_T - (start - len));
    }
  }

  /** A start behind the text: the subtraction borrows, and the count is what takes the start back to the end. */
  lemma ErasedCountBehindText(len: nat, start: nat, n: nat)
    requires len < start && start + n < SIZE_T
    ensures ErasedCount(len, start, n) == SIZE_T - (start - len)
    ensures Wrap(start + ErasedCount(len, start, n), SIZE_T) == len
    ensures Wrap(len - ErasedCount(len, start, n), SIZE_T) == start
    ensures Wrap(len - ErasedCount(len, start, n) + 1, SIZE_T) == Wrap(start + 1, SIZE_T)
  {
    var count := SIZE_T - (start - len);
    WrapIs(len - start, SIZE_T, -1, count);
    WrapIs(start + count, SIZE_T, 1, len);
    WrapIs(len - count, SIZE_T, -1, start);
    WrapOfMultiple(start + 1, -1, SIZE_T);
  }

  /** The start lies in the text, and after erasing there is a cell for the NUL. */
  predicate CanErase(cells: seq<char>, start: nat, n: nat) {
    start <= Len(cells) && Len(cells) - Min(n, Len(cells) - start) < |cells|
  }

  /** The cells after `n` characters of the text from `start` on were erased. */
  function ErasedAt(cells: seq<char>, start: nat, n: nat): (r: seq<char>)
    requires CanErase(cells, start, n)
    ensures |r| == |cells|
  {
    Stored(cells, cells[..start] + cells[start + Min(n, Len(cells) - start)..Len(cells)])
  }

  /** Where the copied tail starts: behind the erased stretch, at most at the end of the text, the sum in `size_t`. */
  function TailStart(len: nat, start: nat, n: nat): (from: nat)
    ensures from <= len
  {
    Min(if start + n < SIZE_T then start + n else start + n - SIZE_T, len)
  }

  /** The source's pointers: the tail is copied from the start plus the count, and the NUL goes behind its new place. */
  lemma TailAndNul(len: nat, start: nat, n: nat)
    requires len <= MAX_OBJECT && start < SIZE_T && n < SIZE_T
    ensures Wrap(start + ErasedCount(len, start, n), SIZE_T) == TailStart(len, start, n)
    ensures start + (len - TailStart(len, start, n)) < SIZE_T ==>
              Wrap(len - ErasedCount(len, start, n), SIZE_T) == start + (len - TailStart(len, start, n))
  {
    hide Wrap, TailStart;
    var count, from := ErasedCount(len, start, n), TailStart(len, start, n);
    TailIsTheSum(len, start, n);
    WrapSum(start + len, start + count, SIZE_T);
    if start + (len - from) < SIZE_T {
      WrapIs(start + (len - from), SIZE_T, 0, start + (len - from));
    }
  }

  lemma TailIsTheSum(len: nat, start: nat, n: nat)
    requires len <= MAX_OBJECT && start < SIZE_T && n < SIZE_T
    ensures Wrap(start + ErasedCount(len, start, n), SIZE_T) == TailStart(len, start, n)
  {
    hide Wrap;
    var sum := if start + n < SIZE_T then start + n else start + n - SIZE_T;
    WrapIs(start + n, SIZE_T, if start + n < SIZE_T then 0 else 1, sum);
    if sum > len {
      WrapSum(start, len - start, SIZE_T);
      WrapIs(len, SIZE_T, 0, len);
    }
  }

  /** The count in plain numbers, for every start and `n`: `n` itself when the sum, reduced to `size_t`, does not pass
      the end of the text, and otherwise what the subtraction gives, with its borrow behind the text. */
  lemma ErasedCountInNumbers(len: nat, start: nat, n: nat)
    requires len <= MAX_OBJECT && start < SIZE_T && n < SIZE_T
    ensures var sum := if start + n < SIZE_T then start + n else start + n - SIZE_T;
            ErasedCount(len, start, n) ==
            if sum <= len then n else if start <= len then len - start else SIZE_T - (start - len)
  {
    hide Wrap;
    var sum := if start + n < SIZE_T then start + n else start + n - SIZE_T;
    WrapIs(start + n, SIZE_T, if start + n < SIZE_T then 0 else 1, sum);
    if start <= len {
      WrapIs(len - start, SIZE_T, 0, len - start);
    } else {
      WrapIs(len - start, SIZE_T, -1, SIZE_T - (start - len));
    }
  }

  /** The tail and its NUL fit, and the tail is not copied over itself to the right. */
  predicate EraseIsDefined(cells: seq<char>, start: nat, n: nat) {
    var from := TailStart(Len(cells), start, n);
    start + (Len(cells) - from) < |cells| && (start <= from || Len(cells) <= start)
  }

  /** The cells the call leaves, for every start and count on which it is defined. */
  function AfterErase(cells: seq<char>, start: nat, n: nat): (r: seq<char>)
    requires EraseIsDefined(cells, start, n)
    ensures |r| == |cells|
  {
    Stored(cells, cells[..start] + cells[TailStart(Len(cells), start, n)..Len(cells)])
  }

  /** The same, cell by cell. */
  lemma AfterEraseCells(cells: seq<char>, start: nat, n: nat, len: nat, tail: nat)
    requires EraseIsDefined(cells, start, n) && len == Len(cells) && tail == TailStart(len, start, n)
    ensures start + (len - tail) < |cells|
    ensures AfterErase(cells, start, n) ==
            cells[..start] + cells[tail..len] + [NUL] + cells[start + (len - tail) + 1..]
  {
    hide Len, Stored, TailStart;
    StoredTail(cells, start, tail, len);
  }

  lemma StoredTail(cells: seq<char>, start: nat, tail: nat, len: nat)
    requires tail <= len <= |cells| && start + (len - tail) < |cells|
    ensures Stored(cells, cells[..start] + cells[tail..len]) ==
            cells[..start] + cells[tail..len] + [NUL] + cells[start + (len - tail) + 1..]
  {
  }

  lemma TailInNumbers(len: nat, start: nat, n: nat)
    ensures TailStart(len, start, n) == Min(if start + n < SIZE_T then start + n else start + n - SIZE_T, len)
  {
  }

  /** `std::copy` of the tail, and the NUL behind it. */
  method MoveTail(a: array<char>, start: nat, from: nat, len: nat, end: nat)
    requires from <= len <= a.Length && end == start + (len - from) < a.Length && (start <= from || len <= start)
    modifies a
    ensures a[..] == old(a[..start]) + old(a[from..len]) + [NUL] + old(a[end + 1..])
  {
    hide Stored;
    ghost var cells, text := a[..], a[..start] + a[from..len];
    CopyForward(a, from, len, start);
    PutNul(cells, text, a[..]);
    StoredTail(cells, start, from, len);
    a[end] := NUL;
  }

  method StrEraseNChars(a: array<char>, start: nat, n: nat) returns (erased: nat, required: nat)
    requires a.Length <= MAX_OBJECT && start < SIZE_T && n < SIZE_T
    requires EraseIsDefined(a[..], start, n)
    modifies a
    ensures required == Wrap(old(Len(a[..])) - erased + 1, SIZE_T)
    ensures var len, sum := old(Len(a[..])), if start + n < SIZE_T then start + n else start + n - SIZE_T;
            var tail := TailStart(len, start, n);
            && erased == (if sum <= len then n else if start <= len then len - start else SIZE_T - (start - len))
            && tail == Min(sum, len)
            && a[..] == old(a[..start]) + old(a[tail..len]) + [NUL] + old(a[start + (len - tail) + 1..])
            && a[..] == AfterErase(old(a[..]), start, n)
  {
    hide Len, Stored, Wrap, ErasedCount, TailStart, AfterErase;
    var dstLen := LenOf(a);
    TailInNumbers(dstLen, start, n);
    erased := ErasedCount(dstLen, start, n);
    required := Wrap(dstLen - erased + 1, SIZE_T);
    ErasedCountInNumbers(dstLen, start, n);
    TailAndNul(dstLen, start, n);
    var from := Wrap(start + erased, SIZE_T);
    AfterEraseCells(a[..], start, n, dstLen, from);
    MoveTail(a, start, from, dstLen, Wrap(dstLen - erased, SIZE_T));
  }

  /** For a start in the text and a sum that does not wrap around, the stretch is erased, clamped to the text. */
  lemma ErasesInText(cells: seq<char>, start: nat, n: nat)
    requires CanErase(cells, start, n) && start + n < SIZE_T
    ensures EraseIsDefined(cells, start, n) && AfterErase(cells, start, n) == ErasedAt(cells, start, n)
  {
    hide Len, Stored;
  }

  /** At the end of the text a count that wraps around makes the text longer by its own tail; behind the end nothing
      changes the text. */
  lemma TextAfterEraseBehind(cells: seq<char>, start: nat, n: nat)
    requires EraseIsDefined(cells, start, n) && Len(cells) <= start
    ensures var text := TextOf(cells);
            TextOf(AfterErase(cells, start, n)) ==
            if start == |text| then text + text[TailStart(|text|, start, n)..] else text
  {
    hide Stored, Len, TailStart;
    var len, from := Len(cells), TailStart(Len(cells), start, n);
    var left := cells[..start] + cells[from..len];
    StoredReadsBack(cells, left);
    if start == len {
      TextHasNoNul(cells);
      assert cells[from..len] == TextOf(cells)[from..];
    } else {
      LenFacts(cells);
      assert left[len] == NUL && forall i :: 0 <= i < len ==> left[i] == cells[i];
      LenIsFirstNul(left, len);
      assert left[..len] == cells[..len];
    }
  }

  lemma LenFacts(cells: seq<char>)
    ensures forall i :: 0 <= i < Len(cells) ==> cells[i] != NUL
    ensures Len(cells) < |cells| ==> cells[Len(cells)] == NUL
  {
  }

  /** The text after an insertion: an embedded NUL in the inserted part cuts it short. */
  lemma TextAfterInsert(cells: seq<char>, position: nat, src: string)
    requires position <= Len(cells) && Len(cells) + |src| < |cells|
    ensures var after := InsertedAt(cells, position, src);
            && Terminated(after)
            && TextOf(after) == if NUL !in src then cells[..position] + src + cells[position..Len(cells)]
                                else cells[..position] + src[..Len(src)]
  {
    hide Stored, Len;
    StoredReadsBack(cells, cells[..position] + src + cells[position..Len(cells)]);
    HeadHasNoNul(cells, position);
    if NUL in src {
      CutAtNul(cells[..position], src, cells[position..Len(cells)]);
    } else {
      NulFreeParts(cells, position, src);
    }
  }

  lemma NulFreeParts(cells: seq<char>, position: nat, src: string)
    requires position <= Len(cells) && NUL !in src
    ensures NUL !in cells[..position] + src + cells[position..Len(cells)]
  {
  }

  lemma HeadHasNoNul(cells: seq<char>, position: nat)
    requires position <= Len(cells)
    ensures NUL !in cells[..position]
  {
  }

  /** A NUL in the middle part ends the text there. */
  lemma CutAtNul(head: seq<char>, middle: seq<char>, tail: seq<char>)
    requires NUL !in head && NUL in middle
    ensures TextOf(head + middle + tail) == head + middle[..Len(middle)]
  {
    var all := head + middle + tail;
    LenIsFirstNul(all, |head| + Len(middle));
    assert all[..|head| + Len(middle)] == head + middle[..Len(middle)];
  }

  lemma TextHasNoNul(cells: seq<char>)
    ensures NUL !in TextOf(cells)
  {
  }

  /** The text after an erasure: the stretch is gone, clamped to the end of the text. */
  lemma TextAfterErase(cells: seq<char>, start: nat, n: nat)
    requires CanErase(cells, start, n)
    ensures var text := TextOf(cells);
            TextOf(ErasedAt(cells, start, n)) == text[..start] + text[start + Min(n, |text| - start)..]
  {
    hide Stored, Len;
    var end := start + Min(n, Len(cells) - start);
    TextHasNoNul(cells);
    SlicesOfSlices(cells, Len(cells), start, end);
    var left := cells[..start] + cells[end..Len(cells)];
    assert left == TextOf(cells)[..start] + TextOf(cells)[end..];
    assert ErasedAt(cells, start, n) == Stored(cells, left);
    StoredReadsBack(cells, left);
  }

  lemma SlicesOfSlices(cells: seq<char>, len: nat, start: nat, end: nat)
    requires start <= end <= len <= |cells|
    ensures cells[..len][..start] == cells[..start] && cells[..len][end..] == cells[end..len]
  {
  }

  /** What erasing leaves of an insertion: everything around it, or nothing behind an embedded NUL. */
  lemma EraseAfterInsert(cells: seq<char>, position: nat, src: string)
    requires position <= Len(cells) && Len(cells) + |src| < |cells|
    ensures var after := InsertedAt(cells, position, src);
            && Terminated(after) && position <= Len(after)
            && TextOf(ErasedAt(after, position, |src|)) ==
               cells[..position] + if NUL !in src then cells[position..Len(cells)] else []
  {
    hide Len, Stored, InsertedAt, ErasedAt, TextOf;
    var after, head, tail := InsertedAt(cells, position, src), cells[..position], cells[position..Len(cells)];
    TextAfterInsert(cells, position, src);
    TextAfterErase(after, position, |src|);
    var kept, rest := if NUL in src then src[..Len(src)] else src, if NUL in src then [] else tail;
    WithoutTail(head, kept);
    CutOut(TextOf(after), head, kept, rest, |src|);
  }

  lemma WithoutTail(a: seq<char>, b: seq<char>)
    ensures a + b + [] == a + b
  {
  }

  /** Cutting out what stands between head and tail. */
  lemma CutOut(text: seq<char>, head: seq<char>, middle: seq<char>, tail: seq<char>, n: nat)
    requires text == head + middle + tail && Min(n, |text| - |head|) == |middle|
    ensures text[..|head|] + text[|head| + Min(n, |text| - |head|)..] == head + tail
  {
  }

  lemma TextInTwo(cells: seq<char>, position: nat)
    requires position <= Len(cells)
    ensures TextOf(cells) == cells[..position] + cells[position..Len(cells)]
  {
  }

  /** Erasing as many characters as were inserted restores the text exactly when the inserted part holds no NUL
      or went to the end. */
  lemma EraseUndoesInsertIff(cells: seq<char>, position: nat, src: string)
    requires position <= Len(cells) && Len(cells) + |src| < |cells|
    ensures var after := InsertedAt(cells, position, src);
            && Terminated(after) && position <= Len(after)
            && (TextOf(ErasedAt(after, position, |src|)) == TextOf(cells) <==> NUL !in src || position == Len(cells))
  {
    hide Len, TextOf, Terminated, Stored, InsertedAt, ErasedAt;
    EraseAfterInsert(cells, position, src);
    TextInTwo(cells, position);
    var head, tail := cells[..position], cells[position..Len(cells)];
    SameHead(head, if NUL !in src then tail else [], tail);
  }

  /** Inserting and then erasing the returned count, on the array itself: the text comes back exactly when the part
      that fitted holds no NUL or went to the end. */
  method InsertThenErase(a: array<char>, position: nat, src: string, behaviour: Behaviour)
    requires a.Length <= MAX_OBJECT && Terminated(a[..]) && position <= Len(a[..]) && behaviour != QueryOnly
    modifies a
    ensures var len := old(Len(a[..]));
            TextOf(a[..]) == old(TextOf(a[..])) <==>
            || (behaviour == DisallowPartial && a.Length <= len + |src|)
            || NUL !in src[..Min(|src|, a.Length - 1 - len)]
            || position == len
  {
    hide Len, TextOf, Stored, InsertedAt, ErasedAt, AfterErase, TailStart;
    ghost var cells := a[..];
    var inserted, size := StrInsert(a, position, src, behaviour);
    ghost var between := a[..];
    if src == "" || (behaviour == DisallowPartial && a.Length < size) {
      EraseNothing(cells, position);
    } else {
      EraseUndoesInsertIff(cells, position, src[..inserted]);
    }
    ErasesInText(between, position, inserted);
    var erased, capacity := StrEraseNChars(a, position, inserted);
  }

  lemma EraseNothing(cells: seq<char>, position: nat)
    requires Terminated(cells) && position <= Len(cells)
    ensures TextOf(ErasedAt(cells, position, 0)) == TextOf(cells)
  {
    hide Len, Stored, ErasedAt;
    TextAfterErase(cells, position, 0);
    InTwo(TextOf(cells), position);
  }

  lemma InTwo(text: string, at: nat)
    requires at <= |text|
    ensures text == text[..at] + text[at..]
  {
  }

  lemma SameHead(head: seq<char>, a: seq<char>, b: seq<char>)
    ensures head + a == head + b <==> a == b
  {
    if head + a == head + b {
      assert a == (head + a)[|head|..] == (head + b)[|head|..] == b;
    }
  }

  // ----- Replace the first needle by shifting -----

  /** The cells with the text's tail moved from behind the needle to where `size` characters end. */
  function Moved(cells: seq<char>, len: nat, p: nat, width: nat, size: nat): (r: seq<char>)
    requires p + width <= len <= |cells| && len - width + size < |cells|
    ensures |r| == |cells|
  {
    cells[..p + size] + cells[p + width..len] + cells[len - width + size..]
  }

  lemma MovedCells(cells: seq<char>, len: nat, p: nat, width: nat, size: nat)
    requires p + width <= len <= |cells| && len - width + size < |cells|
    ensures Moved(cells, len, p, width, size) ==
            cells[..p + size] + cells[p + width..len] + cells[len - width + size..]
  {
  }

  lemma NothingMoves(cells: seq<char>, len: nat, p: nat, width: nat)
    requires p + width <= len < |cells| && cells[len] == NUL
    ensures Moved(cells, len, p, width, width)[len := NUL] == cells
  {
  }

  /** Shift the tail so that `size` characters fit in the needle's place, and put the NUL behind the text. */
  method Resize(a: array<char>, dstLen: nat, p: nat, width: nat, size: nat)
    requires p + width <= dstLen <= a.Length && dstLen - width + size < a.Length
    requires dstLen < a.Length ==> a[dstLen] == NUL
    modifies a
    ensures a[..] == old(Moved(a[..], dstLen, p, width, size))[dstLen - width + size := NUL]
  {
    hide Moved;
    ghost var cells := a[..];
    var from, end, to := p + width, dstLen - width + size, p + size;
    MovedCells(cells, dstLen, p, width, size);
    if width < size {
      CopyBackward(a, from, dstLen, end);
      assert a[..] == Moved(cells, dstLen, p, width, size);
      a[end] := NUL;
    } else if width > size {
      CopyForward(a, from, dstLen, to);
      assert a[..] == Moved(cells, dstLen, p, width, size);
      a[end] := NUL;
    } else {
      NothingMoves(cells, dstLen, p, width);
    }
  }

  /** Overwriting the needle's place after the shift stores the text with the needle replaced. */
  lemma ResizedCells(cells: seq<char>, len: nat, p: nat, width: nat, replacement: string, shifted: seq<char>)
    requires p + width <= len <= |cells| && len - width + |replacement| < |cells|
    requires shifted == Moved(cells, len, p, width, |replacement|)[len - width + |replacement| := NUL]
    ensures shifted[..p] + replacement + shifted[p + |replacement|..] ==
            Stored(cells, cells[..p] + replacement + cells[p + width..len])
  {
    var front, tail := cells[..p + |replacement|], cells[p + width..len];
    PutNul(cells, front + tail, Moved(cells, len, p, width, |replacement|));
    var rest := [NUL] + cells[len - width + |replacement| + 1..];
    assert shifted == front + tail + rest;
    DropFront(front, tail, rest);
    assert shifted[..p] == cells[..p];
    ConcatRegroups(cells[..p], replacement, tail, rest);
  }

  lemma DropFront(front: seq<char>, a: seq<char>, b: seq<char>)
    ensures (front + a + b)[|front|..] == a + b
  {
  }

  /** Replacing one needle, as the position-collecting version would. */
  lemma FirstOfOne(text: string, needle: string, replacement: string, start: nat, p: nat)
    requires needle != "" && Find(text, needle, start) == Some(p)
    ensures ReplaceOutcome(text, needle, replacement, start, Some(1)) == text[..p] + replacement + text[p + |needle|..]
  {
    hide MatchAt, Find;
    assert Replaced(text, needle, start, Some(1)) == [p];
    SplicedTail(text, [p][1..], |needle|, replacement, p + |needle|);
    assert text[0..p] == text[..p];
  }

  method StrReplaceFirst(a: array<char>, needle: string, replacement: string, start: nat)
    returns (r: nat, required: nat)
    modifies a
    ensures var text := old(TextOf(a[..]));
            var tried := text != "" && needle != "" && |needle| <= |text|;
            && required == |text| + 1 + (if tried then |replacement| - |needle| else 0)
            && r == (if tried && required <= a.Length && Find(text, needle, start).Some? then 1 else 0)
            && (r == 0 ==> a[..] == old(a[..]))
            && (r == 1 ==>
                  var p := Find(text, needle, start).value;
                  var outcome := text[..p] + replacement + text[p + |needle|..];
                  && outcome == ReplaceOutcome(text, needle, replacement, start, Some(1))
                  && |outcome| < a.Length
                  && a[..] == outcome + [NUL] + old(a[|outcome| + 1..]))
  {
    hide Len, MatchAt, Find, ReplaceOutcome, Stored, Moved;
    var dstLen := LenOf(a);
    ghost var cells := a[..];
    if dstLen == 0 || needle == "" || |needle| > dstLen {
      return 0, dstLen + 1;
    }
    required := dstLen - |needle| + |replacement| + 1;
    if a.Length < required {
      return 0, required;
    }
    var text := a[..dstLen];
    var found := StrIndexOf(text, needle, start);
    if found.None? {
      return 0, required;
    }
    var p := found.value;
    FirstOfOne(text, needle, replacement, start, p);
    Resize(a, dstLen, p, |needle|, |replacement|);
    ghost var shifted := a[..];
    CopyIn(a, replacement, p);
    ResizedCells(cells, dstLen, p, |needle|, replacement, shifted);
    StoredCells(cells, cells[..p] + replacement + cells[p + |needle|..dstLen]);
    assert cells[..dstLen][..p] == cells[..p];
    assert cells[..dstLen][p + |needle|..] == cells[p + |needle|..dstLen];
    r := 1;
  }

  // ----- Replace all -----

  lemma StoringTheTextAgain(cells: seq<char>)
    requires Terminated(cells)
    ensures Stored(cells, TextOf(cells)) == cells
  {
    assert cells == cells[..Len(cells)] + [NUL] + cells[Len(cells) + 1..];
  }

  method StrReplaceAllInPlace(a: array<char>, needle: string, replacement: string, start: nat)
    returns (r: Result<nat>, required: nat)
    requires a.Length <= MAX_OBJECT
    modifies a
    ensures var text := old(TextOf(a[..]));
            var outcome := ReplaceOutcome(text, needle, replacement, start, None);
            && required == Wrap(|outcome| + 1, SIZE_T)
            && (required > a.Length ==> r == Success(0) && a[..] == old(a[..]))
            && (required <= a.Length && |outcome| > MAX_OBJECT ==> r == Failure(LengthError) && a[..] == old(a[..]))
            && (required <= a.Length && |outcome| <= MAX_OBJECT ==>
                  && |outcome| < a.Length
                  && r == Success(|Replaced(text, needle, start, None)|)
                  && a[..] == outcome + [NUL] + old(a[|outcome| + 1..]))
  {
    hide Len, MatchAt, Find, Replaced, Spliced, RequiredSize, Stored, Wrap;
    var dstLen := LenOf(a);
    ghost var cells := a[..];
    var text := a[..dstLen];
    if dstLen == 0 || needle == "" || |needle| > dstLen {
      NothingToReplace(text, needle, replacement, start, None);
      if dstLen < a.Length { StoringTheTextAgain(cells); }
      WrapIs(dstLen + 1, SIZE_T, 0, dstLen + 1);
      return Success(0), dstLen + 1;
    }
    var positions := CollectPositions(text, needle, start, None);
    required := RequiredSize(dstLen, |positions|, |needle|, |replacement|);
    RequiredSizeIsExact(text, needle, replacement, start, None);
    if a.Length < required {
      return Success(0), required;
    }
    var buffer := Rebuild(text, positions, |needle|, replacement);
    if |buffer| > MAX_OBJECT {
      return Failure(LengthError), required;
    }
    WrapIs(|buffer| + 1, SIZE_T, 0, |buffer| + 1);
    CopyIn(a, buffer, 0);
    assert [] + buffer == buffer;
    PutNul(cells, buffer, a[..]);
    a[|buffer|] := NUL;
    r := Success(|positions|);
  }
}
