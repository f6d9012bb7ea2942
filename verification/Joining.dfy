/** `str_join`: pieces back into one text. */
module Joining {
  import opened Wrappers

  /** The pieces with `glue` between neighbours and none at the ends. */
  function Join(items: seq<string>, glue: string): string {
    if items == [] then ""
    else if |items| == 1 then items[0]
    else items[0] + glue + Join(items[1..], glue)
  }

  /** What the streaming loop writes: every piece is followed by `glue`. */
  function Streamed(items: seq<string>, glue: string): string {
    if items == [] then "" else items[0] + glue + Streamed(items[1..], glue)
  }

  /** Erasing the final `glue` needs one to be there: with no items and a non-empty `glue`, `erase` throws. */
  function JoinOutcome(items: seq<string>, glue: string): Result<string> {
    if items == [] && glue != "" then Failure(OutOfRange) else Success(Join(items, glue))
  }

  lemma {:induction false} StreamedIsJoinedPlusGlue(items: seq<string>, glue: string)
    requires items != []
    ensures Streamed(items, glue) == Join(items, glue) + glue
  {
    if |items| > 1 {
      StreamedIsJoinedPlusGlue(items[1..], glue);
    } else {
      assert items[1..] == [];
    }
  }

  lemma {:induction false} StreamedAppend(items: seq<string>, last: string, glue: string)
    ensures Streamed(items + [last], glue) == Streamed(items, glue) + last + glue
  {
    if items == [] {
      assert (items + [last])[1..] == [];
    } else {
      assert (items + [last])[1..] == items[1..] + [last];
      StreamedAppend(items[1..], last, glue);
    }
  }

  method StrJoin(items: seq<string>, glue: string) returns (r: Result<string>)
    ensures r == JoinOutcome(items, glue)
    ensures items == [] && glue != "" ==> r == Failure(OutOfRange)
    ensures items == [] && glue == "" ==> r == Success("")
    ensures items != [] ==> r == Success(Join(items, glue))
  {
    var stream := "";
    for i := 0 to |items|
      invariant stream == Streamed(items[..i], glue)
    {
      stream := stream + items[i] + glue;
      StreamedAppend(items[..i], items[i], glue);
      assert items[..i + 1] == items[..i] + [items[i]];
    }
    assert items[..|items|] == items;
    if |stream| < |glue| {
      if items != [] { StreamedIsJoinedPlusGlue(items, glue); }
      return Failure(OutOfRange);
    }
    if items != [] { StreamedIsJoinedPlusGlue(items, glue); }
    r := Success(stream[..|stream| - |glue|]);
  }

  /** Gluing two runs of pieces together. */
  lemma {:induction false} JoinAppend(a: seq<string>, b: seq<string>, glue: string)
    requires a != [] && b != []
    ensures Join(a + b, glue) == Join(a, glue) + glue + Join(b, glue)
  {
    assert (a + b)[1..] == a[1..] + b;
    if |a| == 1 {
      assert a[1..] + b == b;
    } else {
      JoinAppend(a[1..], b, glue);
      assert Join(a + b, glue) == a[0] + glue + (Join(a[1..], glue) + glue + Join(b, glue));
    }
  }

  /** Where an item stands in the join, whatever the items before and behind it: one glue between neighbours, none at
      the ends. */
  lemma JoinAround(before: seq<string>, item: string, after: seq<string>, glue: string)
    ensures Join(before + [item] + after, glue) ==
            (if before == [] then "" else Join(before, glue) + glue) + item +
            (if after == [] then "" else glue + Join(after, glue))
  {
    var rest := [item] + after;
    assert before + [item] + after == before + rest;
    if after == [] {
      assert rest == [item];
    } else {
      JoinAppend([item], after, glue);
    }
    if before == [] {
      assert before + rest == rest;
    } else {
      JoinAppend(before, rest, glue);
    }
  }

  lemma {:induction false} JoinSingles(text: string, items: seq<string>)
    requires |items| == |text| && forall i :: 0 <= i < |text| ==> items[i] == [text[i]]
    ensures Join(items, "") == text
  {
    if |text| > 1 {
      JoinSingles(text[1..], items[1..]);
      assert text == [text[0]] + text[1..];
    }
  }
}
