/** Runs of steps, and the accountant over them. */
module Runs {
  import opened Words
  import opened SessionCycle
  import opened PagedMemory
  import opened Machine
  import opened Trace
  import opened Steps
  import opened Greedy
  import P = Packing

  /** The machine after `n` steps, whatever they return. */
  function After(host: Host, m: Machine, n: nat): Machine {
    if n == 0 then m else Step(host, After(host, m, n - 1)).1
  }

  /** What step `k` returns, counting from zero. */
  function ResultOf(host: Host, m: Machine, k: nat): StepResult {
    Step(host, After(host, m, k)).0
  }

  ghost predicate Completed(host: Host, m: Machine, n: nat) {
    forall k | 0 <= k < n :: ResultOf(host, m, k).Ran?
  }

  lemma {:induction false} AfterAfter(host: Host, m: Machine, i: nat, j: nat)
    ensures After(host, After(host, m, i), j) == After(host, m, i + j)
  {
    hide Step;
    if j > 0 {
      AfterAfter(host, m, i, j - 1);
    }
  }

  // ---------- The accountant over a run ----------

  /** What a step is charged for: the pages of its fetch and of its history, and its cycles. */
  function ChargeOf(host: Host, m: Machine): P.Charge {
    var a := Step(host, m).1.mem.log;
    P.Charge({PageOf(m.hart.pc)} + Touched(a, true), Touched(a, false), StepBase(host, m))
  }

  function Charges(host: Host, m: Machine, n: nat): (s: seq<P.Charge>)
    ensures |s| == n
  {
    seq(n, (k: nat) => ChargeOf(host, After(host, m, k)))
  }

  lemma StepIsCharge(host: Host, m: Machine, l: Ledger)
    requires Step(host, m).0.Ran? && m.mem.ledger == Some(l) && l.read == {} == l.written
    ensures var c := ChargeOf(host, m);
            Step(host, m).1.mem.ledger == Settle(l.(read := c.pagesRead, written := c.pagesWritten), c.base)
  {
    hide Step, Settle, StepBase, Touched;
    StepHistory(host, m);
    var a := Step(host, m).1.mem.log;
    var c := ChargeOf(host, m);
    assert {} + {PageOf(m.hart.pc)} + Touched(a, true) == c.pagesRead;
    assert {} + Touched(a, false) == c.pagesWritten;
    assert StepLedger(m, a) == l.(read := c.pagesRead, written := c.pagesWritten);
  }

  /** Over a whole run of completed steps the machine's ledger is the accountant's over the
      charges of those steps, so all that holds of greedy packing holds of the run. */
  lemma {:induction false} RunIsPacked(host: Host, m: Machine, n: nat)
    requires m.mem.ledger == Some(EMPTY) && Completed(host, m, n)
    ensures After(host, m, n).mem.ledger == P.After(Charges(host, m, n))
    ensures P.After(Charges(host, m, n)).Some?
  {
    hide Step, Settle, P.Segments, P.Open, ChargeOf, P.Reads, P.Writes, Cost, P.Bases, ParentClosed;
    if n > 0 {
      RunIsPacked(host, m, n - 1);
      var before, charges := After(host, m, n - 1), Charges(host, m, n);
      P.Conservation(Charges(host, m, n - 1));
      assert ResultOf(host, m, n - 1).Ran?;
      StepIsCharge(host, before, before.mem.ledger.value);
      assert Init(charges) == Charges(host, m, n - 1);
      assert Last(charges) == ChargeOf(host, before);
      StepHistory(host, before);
    }
  }

  /**
   Conservation over a run: the cycles of the current segment are the cost of the pages that
   its steps walked, each paid once for reading and once for writing, and those steps' own
   cycles; and the segment is within budget.
   */
  lemma RunConservation(host: Host, m: Machine, n: nat)
    requires m.mem.ledger == Some(EMPTY) && Completed(host, m, n)
    ensures After(host, m, n).mem.ledger.Some?
    ensures var l, open := After(host, m, n).mem.ledger.value, P.Open(Charges(host, m, n));
            && l.cycle == Cost(Closure(P.Reads(open))) + Cost(Closure(P.Writes(open))) + P.Bases(open)
            && l.resident == Closure(P.Reads(open)) && l.dirty == Closure(P.Writes(open))
            && OVERHEAD + l.cycle <= SEGMENT
  {
    hide Step, Settle, P.Segments, P.Open, ChargeOf, P.Reads, P.Writes, Cost, P.Bases, ParentClosed, Closure, P.After;
    RunIsPacked(host, m, n);
    P.Conservation(Charges(host, m, n));
  }

  /** No cutting of the run into consecutive segments within budget has fewer of them. */
  lemma RunFewestSegments(host: Host, m: Machine, n: nat, other: seq<seq<P.Charge>>)
    requires m.mem.ledger == Some(EMPTY) && Completed(host, m, n)
    requires Packs(P.FitsSegment, other, Charges(host, m, n))
    ensures After(host, m, n).mem.ledger.Some? && After(host, m, n).mem.ledger.value.segments < |other|
  {
    hide Step, P.After, P.Segments, ChargeOf, Packs;
    RunIsPacked(host, m, n);
    P.FewestSegments(Charges(host, m, n), other);
  }

  /** The session clock starts at the overhead of the first segment. */
  lemma FreshClock()
    ensures SessionCycles(EMPTY) == 1721
  {
  }

  /** After a run it shows 2^20 cycles for every finished segment, and for the open one the overhead
      and what its steps cost, each page once. */
  lemma RunClock(host: Host, m: Machine, n: nat)
    requires m.mem.ledger == Some(EMPTY) && Completed(host, m, n)
    ensures After(host, m, n).mem.ledger.Some?
    ensures var segments := P.Segments(Charges(host, m, n));
            SessionCycles(After(host, m, n).mem.ledger.value) ==
            0x10_0000 * (|segments| - 1) + 1721 + P.SegmentCost(segments[|segments| - 1])
  {
    hide Step, Settle, P.Segments, ChargeOf, P.Reads, P.Writes, Cost, P.Bases, ParentClosed, Closure, P.After;
    RunIsPacked(host, m, n);
    P.Conservation(Charges(host, m, n));
  }

  /** The session clock goes up with every completed step, by its own cycles at least. */
  lemma ClockAdvances(host: Host, m: Machine, n: nat)
    requires m.mem.ledger == Some(EMPTY) && Completed(host, m, n + 1)
    ensures After(host, m, n).mem.ledger.Some? && After(host, m, n + 1).mem.ledger.Some?
    ensures var before, after := After(host, m, n).mem.ledger.value, After(host, m, n + 1).mem.ledger.value;
            SessionCycles(after) >= SessionCycles(before) + StepBase(host, After(host, m, n)) > SessionCycles(before)
  {
    hide Step, Settle, P.Segments, P.Open, ChargeOf, P.Reads, P.Writes, Cost, P.Bases, ParentClosed, Closure, P.After,
      StepBase, SessionCycles;
    RunIsPacked(host, m, n);
    P.Conservation(Charges(host, m, n));
    var at := After(host, m, n);
    assert ResultOf(host, m, n).Ran?;
    StepIsCharge(host, at, at.mem.ledger.value);
    StepHistory(host, at);
    var c := ChargeOf(host, at);
    SessionClock(at.mem.ledger.value.(read := c.pagesRead, written := c.pagesWritten), c.base);
    ClockSameBooks(at.mem.ledger.value, c.pagesRead, c.pagesWritten);
    ChargeBase(host, at);
  }

  lemma ClockSameBooks(l: Ledger, read: set<Page>, written: set<Page>)
    ensures SessionCycles(l.(read := read, written := written)) == SessionCycles(l)
  {
  }

  lemma ChargeBase(host: Host, m: Machine)
    requires Step(host, m).0.Ran?
    ensures ChargeOf(host, m).base == StepBase(host, m) >= 1
  {
    hide Body;
    RanIsCharged(host, m);
    OpcodeCycleBound(Insn(m).value);
  }

  /** A step other than an ecall costs 10262 cycles at most in an empty segment. */
  lemma InstructionCost(host: Host, m: Machine)
    requires m.mem.ledger.Some? && Sound(m.mem.ledger.value)
    requires m.mem.ledger.value.read == {} == m.mem.ledger.value.written
    requires Step(host, m).0.Ran? && Insn(m).Some? && !IsEcall(Insn(m).value)
    ensures P.SegmentCost([ChargeOf(host, m)]) <= 10262
  {
    hide Body, OpcodeCycle, Touched, Cost, Closure, P.SegmentCost, StepBase, ReadMem, Settle, Follows;
    InstructionsNeverHang(host, m);
    RanIsCharged(host, m);
    var a := Step(host, m).1.mem.log;
    var c := ChargeOf(host, m);
    P.SegmentCostSingle(c);
    var l := StepLedger(m, a);
    assert l.read == c.pagesRead && l.written == c.pagesWritten;
  }

  /**
   The amortised number of segments: over a run without ecalls, the cycles charged in the
   finished segments lie between 1036594 and 1046855 times their number.
   */
  lemma InstructionRunSegments(host: Host, m: Machine, n: nat)
    requires m.mem.ledger == Some(EMPTY) && Completed(host, m, n)
    requires forall k | 0 <= k < n :: Insn(After(host, m, k)).Some? && !IsEcall(Insn(After(host, m, k)).value)
    ensures After(host, m, n).mem.ledger.Some?
    ensures var s, segments := After(host, m, n).mem.ledger.value.segments, P.Segments(Charges(host, m, n));
            && s == |segments| - 1
            && s * 1036594 <= Total(P.SegmentCost, segments[..s]) <= s * 1046855
  {
    hide Step, Settle, P.Segments, P.Open, ChargeOf, P.Reads, P.Writes, Cost, P.Bases, ParentClosed, Closure, P.After,
      P.SegmentCost, Insn, IsEcall, P.EachAtMost, Total;
    RunIsPacked(host, m, n);
    InstructionCharges(host, m, n);
    P.FinishedCycles(Charges(host, m, n), 10262);
  }

  lemma InstructionCharges(host: Host, m: Machine, n: nat)
    requires m.mem.ledger == Some(EMPTY) && Completed(host, m, n)
    requires forall k | 0 <= k < n :: Insn(After(host, m, k)).Some? && !IsEcall(Insn(After(host, m, k)).value)
    ensures P.EachAtMost(Charges(host, m, n), 10262)
  {
    hide Step, Settle, P.Segments, P.Open, ChargeOf, P.Reads, P.Writes, Cost, P.Bases, ParentClosed, Closure, P.After,
      P.SegmentCost, Insn, IsEcall;
    forall c | c in Charges(host, m, n) ensures P.SegmentCost([c]) <= 10262 {
      var k :| 0 <= k < n && c == ChargeOf(host, After(host, m, k));
      RunIsPacked(host, m, k);
      P.Conservation(Charges(host, m, k));
      assert ResultOf(host, m, k).Ran?;
      InstructionCost(host, After(host, m, k));
    }
  }
}
