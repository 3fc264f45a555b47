/**
 The accountant over whole runs. A run is the sequence of steps charged so far; the ledger
 after a run turns out to be the last segment of the greedy packing of those steps, where
 a segment costs its opcode and extra cycles plus every page of its steps' walks once.
 */
module Packing {
  import opened Words
  import opened SessionCycle
  import opened Greedy

  /** One charged step: the pages it read, the pages it wrote, its opcode and extra cycles. */
  datatype Charge = Charge(pagesRead: set<Page>, pagesWritten: set<Page>, base: nat)

  /** The accountant run over `steps`, or `None` when one of them is retried for ever. */
  function After(steps: seq<Charge>): Option<Ledger> {
    if steps == [] then Some(EMPTY)
    else
      var last := Last(steps);
      match After(Init(steps))
      case None => None
      case Some(l) => Settle(l.(read := last.pagesRead, written := last.pagesWritten), last.base)
  }

  // ---------- Segments, without a ledger ----------

  function Reads(steps: seq<Charge>): set<Page> {
    if steps == [] then {} else Reads(Init(steps)) + Last(steps).pagesRead
  }

  function Writes(steps: seq<Charge>): set<Page> {
    if steps == [] then {} else Writes(Init(steps)) + Last(steps).pagesWritten
  }

  function Bases(steps: seq<Charge>): nat {
    if steps == [] then 0 else Bases(Init(steps)) + Last(steps).base
  }

  /** The cycles of a segment that runs exactly `steps`: no page is paid for twice, and the
      order of the steps plays no part. */
  function SegmentCost(steps: seq<Charge>): nat {
    Cost(Closure(Reads(steps))) + Cost(Closure(Writes(steps))) + Bases(steps)
  }

  predicate FitsSegment(steps: seq<Charge>) {
    SegmentCost(steps) <= BUDGET
  }

  /** The segments of a run. */
  function Segments(steps: seq<Charge>): (segments: seq<seq<Charge>>)
    ensures |segments| > 0
  {
    Pack(FitsSegment, steps)
  }

  function Open(steps: seq<Charge>): seq<Charge> {
    Last(Segments(steps))
  }

  /** The ledger that a segment number and the steps of the open segment determine. */
  function Summary(segments: nat, open: seq<Charge>): Ledger {
    Ledger(segments, SegmentCost(open), Closure(Reads(open)), Closure(Writes(open)), {}, {})
  }

  // ---------- Facts about segment costs ----------

  lemma SegmentCostAppend(open: seq<Charge>, s: Charge)
    ensures Reads(open + [s]) == Reads(open) + s.pagesRead
    ensures Writes(open + [s]) == Writes(open) + s.pagesWritten
    ensures Bases(open + [s]) == Bases(open) + s.base
  {
    assert (open + [s])[..|open|] == open;
  }

  lemma SegmentCostSingle(s: Charge)
    ensures SegmentCost([s]) == Cost(Closure(s.pagesRead)) + Cost(Closure(s.pagesWritten)) + s.base
    ensures SegmentCost([]) == 0
  {
    SegmentCostAppend([], s);
    assert [] + [s] == [s];
    assert {} + s.pagesRead == s.pagesRead && {} + s.pagesWritten == s.pagesWritten;
    assert Closure({}) == {};
  }

  lemma {:induction false} SplitReads(a: seq<Charge>, b: seq<Charge>)
    ensures Reads(a + b) == Reads(a) + Reads(b)
    ensures Writes(a + b) == Writes(a) + Writes(b)
    ensures Bases(a + b) == Bases(a) + Bases(b)
  {
    if b == [] {
      assert a + b == a;
    } else {
      var init, s := b[..|b| - 1], Last(b);
      SplitReads(a, init);
      assert a + b == (a + init) + [s] && b == init + [s];
      SegmentCostAppend(a + init, s);
      SegmentCostAppend(init, s);
    }
  }

  /** Leaving out steps at either end of a segment never makes it dearer. */
  lemma PartAtMostWhole(a: seq<Charge>, b: seq<Charge>, c: seq<Charge>)
    ensures SegmentCost(b) <= SegmentCost(a + b + c)
  {
    SplitReads(a + b, c);
    SplitReads(a, b);
    ClosureWithin(Reads(b), Reads(a + b + c));
    ClosureWithin(Writes(b), Writes(a + b + c));
  }

  /** Adding a step to a segment costs at most what the step costs on its own. */
  lemma AppendAtMostCold(open: seq<Charge>, s: Charge)
    ensures SegmentCost(open + [s]) <= SegmentCost(open) + SegmentCost([s])
  {
    SegmentCostAppend(open, s);
    SegmentCostSingle(s);
    ClosureUnion(Reads(open), s.pagesRead);
    CostSubadditive(Closure(Reads(open)), Closure(s.pagesRead));
    ClosureUnion(Writes(open), s.pagesWritten);
    CostSubadditive(Closure(Writes(open)), Closure(s.pagesWritten));
  }

  // ---------- One step against the packing ----------

  lemma CostOfNewPages(known: set<Page>, touched: set<Page>)
    ensures Cost(Closure(known)) + Cost(Closure(touched) - Closure(known)) == Cost(Closure(known + touched))
  {
    ClosureUnion(known, touched);
    CostUnion(Closure(known), Closure(touched) - Closure(known));
    assert Closure(known) + (Closure(touched) - Closure(known)) == Closure(known + touched);
  }

  /** Charging `s` to the ledger of an open segment is appending it to that segment. */
  lemma ChargeIsAppend(segments: nat, open: seq<Charge>, s: Charge)
    ensures var l := Summary(segments, open).(read := s.pagesRead, written := s.pagesWritten);
            && (Fits(l, s.base) <==> FitsSegment(open + [s]))
            && Accept(l, s.base) == Summary(segments, open + [s])
            && Rollover(l) == Summary(segments + 1, []).(read := s.pagesRead, written := s.pagesWritten)
  {
    SegmentCostSingle(s);
    assert Closure({}) == {};
    hide Closure, Cost, Reads, Writes, Bases;
    SegmentCostAppend(open, s);
    CostOfNewPages(Reads(open), s.pagesRead);
    CostOfNewPages(Writes(open), s.pagesWritten);
    ClosureUnion(Reads(open), s.pagesRead);
    ClosureUnion(Writes(open), s.pagesWritten);
    assert Reads([]) == {} == Writes([]);
  }

  /** One completed charge, in terms of segments. */
  lemma ChargeStep(segments: nat, open: seq<Charge>, s: Charge)
    ensures var l := Summary(segments, open).(read := s.pagesRead, written := s.pagesWritten);
            var next := if FitsSegment(open + [s]) then Summary(segments, open + [s])
                        else Summary(segments + 1, [s]);
            Settle(l, s.base) == if FitsSegment([s]) then Some(next) else None
  {
    ChargeIsAppend(segments, open, s);
    ChargeIsAppend(segments + 1, [], s);
    assert [] + [s] == [s];
    PartAtMostWhole(open, [s], []);
    assert open + [s] + [] == open + [s];
  }

  /** The accountant's ledger is the open segment of the greedy packing, and the run completes
      exactly when every step on its own fits an empty segment, whatever came before it. */
  lemma {:induction false} LedgerIsPacking(steps: seq<Charge>)
    ensures After(steps) == if EachFits(FitsSegment, steps) then Some(Summary(|Segments(steps)| - 1, Open(steps)))
                            else None
  {
    hide Settle, Summary, FitsSegment, Fits, Accept, Rollover, PassCharge, SegmentCost, Closure, Cost;
    if steps == [] {
      EmptyRun();
    } else {
      LedgerIsPacking(Init(steps));
      EachFitsLast(FitsSegment, steps);
      if EachFits(FitsSegment, Init(steps)) {
        ChargeStep(|Segments(Init(steps))| - 1, Open(Init(steps)), Last(steps));
      }
    }
  }

  lemma EmptyRun()
    ensures Segments([]) == [[]]
    ensures Summary(0, []) == EMPTY
  {
    SegmentCostSingle(Charge({}, {}, 0));
    assert Closure({}) == {};
  }

  /** Conservation: the cycles of the current segment are exactly its pages, each paid once,
      and the opcode and extra cycles of the steps charged to it, with the step that opened
      it among them. */
  lemma Conservation(steps: seq<Charge>)
    requires After(steps).Some?
    ensures var l := After(steps).value;
            && l.cycle == Cost(l.resident) + Cost(l.dirty) + Bases(Open(steps))
            && l.resident == Closure(Reads(Open(steps)))
            && l.dirty == Closure(Writes(Open(steps)))
            && l.segments == |Segments(steps)| - 1
            && Sound(l) && l.read == {} == l.written
  {
    LedgerIsPacking(steps);
    SegmentsPack(steps);
    ClosureClosed(Reads(Open(steps)));
    ClosureClosed(Writes(Open(steps)));
  }

  /** Dirty pages need not be resident: they are exactly when every page that the steps of the
      segment wrote is on the walk of a page that one of them read. */
  lemma DirtyResidentIff(steps: seq<Charge>)
    requires After(steps).Some?
    ensures After(steps).value.dirty <= After(steps).value.resident
       <==> Writes(Open(steps)) <= Closure(Reads(Open(steps)))
  {
    Conservation(steps);
    var read, written := Reads(Open(steps)), Writes(Open(steps));
    ClosureClosed(read);
    ClosureClosed(written);
    hide Closure, After, Open;
    if written <= Closure(read) {
      ClosureIsLeast(written, Closure(read));
    }
  }

  /** A step that reads page 1 and writes page 2 leaves a dirty page that is not resident. */
  lemma DirtyNotResident()
    ensures var steps := [Charge({1}, {2}, 1)];
            After(steps).Some? && !(After(steps).value.dirty <= After(steps).value.resident)
  {
    var s := Charge({1}, {2}, 1);
    OneStep(s);
    WalkMisses();
    ClosureClosed({2});
    hide Closure, Cost, Settle;
    TwoAccessStepSettles(EMPTY.(read := {1}, written := {2}), 1, 1, 2);
    OneStepPages(s);
  }

  lemma WalkMisses()
    ensures 2 !in Closure({1})
  {
    GuestWalk(1);
  }

  lemma OneStep(s: Charge)
    ensures After([s]) == Settle(EMPTY.(read := s.pagesRead, written := s.pagesWritten), s.base)
  {
    hide Closure, Cost, Settle;
    assert Init([s]) == [] && Last([s]) == s;
  }

  lemma OneStepPages(s: Charge)
    requires Settle(EMPTY.(read := s.pagesRead, written := s.pagesWritten), s.base).Some?
    ensures var l := Settle(EMPTY.(read := s.pagesRead, written := s.pagesWritten), s.base).value;
            l.resident == Closure(s.pagesRead) && l.dirty == Closure(s.pagesWritten)
  {
    assert {} + Closure(s.pagesRead) == Closure(s.pagesRead);
    assert {} + Closure(s.pagesWritten) == Closure(s.pagesWritten);
  }

  /** The segments are the run cut into consecutive pieces, each within budget. */
  lemma SegmentsPack(steps: seq<Charge>)
    requires After(steps).Some?
    ensures Packs(FitsSegment, Segments(steps), steps)
  {
    LedgerIsPacking(steps);
    SegmentCostSingle(Charge({}, {}, 0));
    PackPacks(FitsSegment, steps);
  }

  /** Every step costs at most `cold` cycles in an empty segment. */
  ghost predicate EachAtMost(steps: seq<Charge>, cold: nat) {
    forall s | s in steps :: SegmentCost([s]) <= cold
  }

  lemma AtMostFits(steps: seq<Charge>, cold: nat)
    requires EachAtMost(steps, cold) && cold <= BUDGET
    ensures EachFits(FitsSegment, steps)
  {
  }

  /** A segment is only closed by a step that no longer fits: with steps of at most `cold`
      cycles each, every finished segment is charged more than the budget less `cold`. */
  lemma FinishedSegmentsAreFull(steps: seq<Charge>, cold: nat, k: nat)
    requires EachAtMost(steps, cold) && cold <= BUDGET
    requires k < |Segments(steps)| - 1
    ensures BUDGET - cold + 1 <= SegmentCost(Segments(steps)[k]) <= BUDGET
  {
    AtMostFits(steps, cold);
    LedgerIsPacking(steps);
    SegmentsPack(steps);
    ClosedByNext(FitsSegment, steps, k);
    AppendAtMostCold(Segments(steps)[k], Segments(steps)[k + 1][0]);
  }

  /** The cycles charged in the finished segments, bounded on both sides by their number. */
  lemma FinishedCycles(steps: seq<Charge>, cold: nat)
    requires EachAtMost(steps, cold) && cold <= BUDGET
    ensures After(steps).Some? && After(steps).value.segments == |Segments(steps)| - 1
    ensures var n := |Segments(steps)| - 1;
            n * (BUDGET - cold + 1) <= Total(SegmentCost, Segments(steps)[..n]) <= n * BUDGET
  {
    AtMostFits(steps, cold);
    LedgerIsPacking(steps);
    TotalOfFinished(steps, cold, Segments(steps)[..|Segments(steps)| - 1]);
  }

  lemma TotalOfFinished(steps: seq<Charge>, cold: nat, finished: seq<seq<Charge>>)
    requires EachAtMost(steps, cold) && cold <= BUDGET
    requires finished == Segments(steps)[..|Segments(steps)| - 1]
    ensures |finished| * (BUDGET - cold + 1) <= Total(SegmentCost, finished) <= |finished| * BUDGET
  {
    hide SegmentCost, Segments, EachAtMost, Total;
    var least: nat := BUDGET - cold + 1;
    forall k | 0 <= k < |finished| ensures least <= SegmentCost(finished[k]) <= BUDGET {
      FinishedSegmentsAreFull(steps, cold, k);
    }
    TotalBounds(SegmentCost, finished, least, BUDGET);
  }

  /** Rolling over only when it must, the accountant uses the least number of segments: any
      way of cutting the run into consecutive segments within budget needs as many. */
  lemma FewestSegments(steps: seq<Charge>, other: seq<seq<Charge>>)
    requires After(steps).Some? && Packs(FitsSegment, other, steps)
    ensures After(steps).value.segments < |other|
  {
    LedgerIsPacking(steps);
    SegmentCostSingle(Charge({}, {}, 0));
    forall a: seq<Charge>, b: seq<Charge>, c: seq<Charge> | FitsSegment(a + b + c) ensures FitsSegment(b) {
      PartAtMostWhole(a, b, c);
    }
    assert Monotone(FitsSegment);
    PackIsOptimal(FitsSegment, steps, other);
  }
}
