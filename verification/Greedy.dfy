/**
 Greedy packing of a sequence into consecutive segments, for any test `fits` of whether a
 segment is within budget. `Packing` instantiates it with the cycle budget of a segment.
 */
module Greedy {

  function Last<T>(s: seq<T>): T
    requires |s| > 0
  {
    s[|s| - 1]
  }

  function Init<T>(s: seq<T>): seq<T>
    requires |s| > 0
  {
    s[..|s| - 1]
  }

  /** An item joins the open segment when the segment still fits, else it opens the next. */
  function Pack<T>(fits: seq<T> -> bool, items: seq<T>): (segments: seq<seq<T>>)
    ensures |segments| > 0
  {
    if items == [] then [[]]
    else
      var segments := Pack(fits, Init(items));
      var open := Last(segments) + [Last(items)];
      if fits(open) then Init(segments) + [open] else segments + [[Last(items)]]
  }

  function Concat<T>(segments: seq<seq<T>>): seq<T> {
    if segments == [] then [] else Concat(Init(segments)) + Last(segments)
  }

  function Total<T>(cost: seq<T> -> nat, segments: seq<seq<T>>): nat {
    if segments == [] then 0 else Total(cost, Init(segments)) + cost(Last(segments))
  }

  /** A part of a fitting segment fits. */
  ghost predicate Monotone<T(!new)>(fits: seq<T> -> bool) {
    forall a, b, c :: fits(a + b + c) ==> fits(b)
  }

  /** Each item fits a segment of its own. */
  ghost predicate EachFits<T>(fits: seq<T> -> bool, items: seq<T>) {
    forall i | 0 <= i < |items| :: fits([items[i]])
  }

  lemma EachFitsLast<T>(fits: seq<T> -> bool, items: seq<T>)
    requires items != []
    ensures EachFits(fits, items) <==> EachFits(fits, Init(items)) && fits([Last(items)])
  {
    assert items == Init(items) + [Last(items)];
    assert forall i | 0 <= i < |Init(items)| :: items[i] == Init(items)[i];
  }

  /** A way of cutting `items` into consecutive segments that all fit. */
  ghost predicate Packs<T>(fits: seq<T> -> bool, segments: seq<seq<T>>, items: seq<T>) {
    && |segments| > 0
    && Concat(segments) == items
    && forall k | 0 <= k < |segments| :: fits(segments[k])
  }

  lemma ConcatAppend<T>(segments: seq<seq<T>>, open: seq<T>)
    ensures Concat(segments + [open]) == Concat(segments) + open
  {
    assert Init(segments + [open]) == segments;
  }

  /** Packing loses and reorders nothing, and every segment fits when each item on its own does. */
  lemma {:induction false} PackPacks<T>(fits: seq<T> -> bool, items: seq<T>)
    requires fits([]) && EachFits(fits, items)
    ensures Packs(fits, Pack(fits, items), items)
  {
    if items == [] {
      assert Init<seq<T>>([[]]) == [];
    } else {
      PackPacks(fits, Init(items));
      var segments := Pack(fits, Init(items));
      assert segments == Init(segments) + [Last(segments)];
      ConcatAppend(Init(segments), Last(segments));
      ConcatAppend(Init(segments), Last(segments) + [Last(items)]);
      ConcatAppend(segments, [Last(items)]);
      assert items == Init(items) + [Last(items)];
    }
  }

  /** A segment is closed only by the item after it, which no longer fitted. */
  lemma {:induction false} ClosedByNext<T>(fits: seq<T> -> bool, items: seq<T>, k: nat)
    requires k < |Pack(fits, items)| - 1
    ensures Pack(fits, items)[k + 1] != []
    ensures !fits(Pack(fits, items)[k] + [Pack(fits, items)[k + 1][0]])
    ensures Pack(fits, items)[k + 1][0] in items
  {
    var segments := Pack(fits, Init(items));
    if k < |segments| - 1 {
      ClosedByNext(fits, Init(items), k);
    }
  }

  /** The open segment is the end of the run, and so a suffix of any longer last segment. */
  lemma LastIsSuffix<T>(fits: seq<T> -> bool, items: seq<T>, other: seq<seq<T>>)
    requires Concat(Pack(fits, items)) == items
    requires |other| > 0 && Concat(other) == items
    requires |Last(other)| >= |Last(Pack(fits, items))|
    ensures var open := Last(Pack(fits, items)); Last(other)[|Last(other)| - |open|..] == open
  {
    var open, back := Last(Pack(fits, items)), Last(other);
    assert items == Concat(Init(other)) + back;
    assert items[|items| - |open|..] == open;
    assert items[|items| - |open|..] == back[|back| - |open|..];
  }

  /**
   Greedy packing is optimal: no cutting into consecutive fitting segments has fewer of them,
   and one that has no more leaves at least as much in its last segment.
   */
  lemma {:induction false} PackIsOptimal<T(!new)>(fits: seq<T> -> bool, items: seq<T>, other: seq<seq<T>>)
    requires Monotone(fits) && fits([]) && EachFits(fits, items)
    requires Packs(fits, other, items)
    ensures |other| >= |Pack(fits, items)|
    ensures |other| == |Pack(fits, items)| ==> |Last(other)| >= |Last(Pack(fits, items))|
    decreases |items|, |other|
  {
    if items != [] {
      var back := Last(other);
      if back == [] {
        DropEmpty(fits, other, items);
        PackIsOptimal(fits, items, Init(other));
      } else {
        PackStep(fits, items);
        DropLast(fits, other, items);
        hide Pack, Packs, Concat, Monotone, EachFits;
        var other' := Init(other) + [Init(back)];
        EachFitsLast(fits, items);
        PackIsOptimal(fits, Init(items), other');
        if |other| == |Pack(fits, Init(items))| {
          PackPacks(fits, Init(items));
          PacksConcat(fits, Init(items), other');
          PacksConcat(fits, Init(items), Pack(fits, Init(items)));
          OpenSegmentFits(fits, Init(items), other', back);
        }
      }
    }
  }

  lemma PackStep<T>(fits: seq<T> -> bool, items: seq<T>)
    requires items != []
    ensures var segments := Pack(fits, Init(items));
            var joins := fits(Last(segments) + [Last(items)]);
            && |Pack(fits, items)| == (if joins then |segments| else |segments| + 1)
            && Last(Pack(fits, items)) == (if joins then Last(segments) else []) + [Last(items)]
  {
  }

  lemma PacksConcat<T>(fits: seq<T> -> bool, items: seq<T>, segments: seq<seq<T>>)
    requires Packs(fits, segments, items)
    ensures Concat(segments) == items
  {
  }

  /** An empty last segment can be dropped. */
  lemma DropEmpty<T>(fits: seq<T> -> bool, other: seq<seq<T>>, items: seq<T>)
    requires items != [] && Packs(fits, other, items) && Last(other) == []
    ensures Packs(fits, Init(other), items)
  {
    assert Concat(other) == Concat(Init(other));
    assert Concat(Init(other)) != [] && Concat<T>([]) == [];
  }

  /** So can the last item of a last segment that has one. */
  lemma DropLast<T(!new)>(fits: seq<T> -> bool, other: seq<seq<T>>, items: seq<T>)
    requires items != [] && Packs(fits, other, items) && Last(other) != [] && Monotone(fits)
    ensures var back := Last(other);
            && Last(items) == Last(back) && fits(back)
            && Packs(fits, Init(other) + [Init(back)], Init(items))
  {
    var back := Last(other);
    ConcatAppend(Init(other), Init(back));
    assert Init(items) == Concat(Init(other)) + Init(back);
    assert [] + Init(back) + [Last(back)] == back;
  }

  lemma SuffixFits<T(!new)>(fits: seq<T> -> bool, front: seq<T>, open: seq<T>, back: seq<T>)
    requires Monotone(fits) && fits(back) && back != [] && Init(back) == front + open
    ensures fits(open + [Last(back)])
  {
    assert back == front + (open + [Last(back)]) + [];
  }

  lemma OpenSegmentFits<T(!new)>(fits: seq<T> -> bool, items: seq<T>, other: seq<seq<T>>, back: seq<T>)
    requires Monotone(fits) && Concat(Pack(fits, items)) == items
    requires |other| > 0 && Concat(other) == items
    requires |Last(other)| >= |Last(Pack(fits, items))|
    requires back != [] && Init(back) == Last(other) && fits(back)
    ensures fits(Last(Pack(fits, items)) + [Last(back)])
  {
    LastIsSuffix(fits, items, other);
    hide Pack, Concat;
    var open := Last(Pack(fits, items));
    SuffixFits(fits, Init(back)[..|Init(back)| - |open|], open, back);
  }

  lemma {:induction false} TotalBounds<T>(cost: seq<T> -> nat, segments: seq<seq<T>>, lo: nat, hi: nat)
    requires forall k | 0 <= k < |segments| :: lo <= cost(segments[k]) <= hi
    ensures |segments| * lo <= Total(cost, segments) <= |segments| * hi
  {
    if segments != [] {
      TotalBounds(cost, Init(segments), lo, hi);
      assert |segments| * lo == (|segments| - 1) * lo + lo;
      assert |segments| * hi == (|segments| - 1) * hi + hi;
    }
  }
}
