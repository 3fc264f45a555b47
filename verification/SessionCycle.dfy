/**
 The cycle and paging accountant. Every step of the guest touches pages; touching a page
 loads (or dirties) it and all pages of the page table above it, each at most once a
 segment, and a segment that would exceed 2^20 cycles is closed and the step charged again
 to an empty one.
 */
module SessionCycle {
  import Words

  // The fixed part of a segment: start-up, wind-down, and the SHA and ZK rows.
  const PRE_CYCLE: nat := 1 + 1561 + 1 + 27 + 2
  const POST_CYCLE: nat := 2 + 2 + 2
  const OTHER_CONST_CYCLE: nat := 73 + 50
  const OVERHEAD: nat := PRE_CYCLE + POST_CYCLE + OTHER_CONST_CYCLE
  const SEGMENT: nat := 1048576
  const BUDGET: nat := SEGMENT - OVERHEAD

  // The root of the page table is a short page of 11 blocks; every other page has 16.
  const ROOT: Page := 219862
  const ROOT_COST: nat := 1 + 5 + (16 + 52) * 11
  const PAGE_COST: nat := 1 + 5 + (16 + 52) * 16

  /** A page index is a 32-bit address without its low ten bits. */
  type Page = p: int | 0 <= p < 0x40_0000

  // ---------- The page-table tree ----------

  /** The page holding the entry of `p`; stated with the source's constants, so that the
      subset type of the result is the proof that no index leaves the 22-bit range. */
  function Parent(p: Page): Page {
    (0x0D00_0000 + p * 32) / 1024
  }

  function Distance(p: Page): nat {
    if p <= ROOT then ROOT - p else p - ROOT
  }

  /** The root is the only fixed point of `Parent`; below it the walk moves strictly up and
      never past it, above it strictly down and never past it. */
  lemma ParentApproachesRoot(p: Page)
    ensures Parent(p) == 212992 + p / 32
    ensures Parent(p) == p <==> p == ROOT
    ensures p < ROOT ==> p < Parent(p) <= ROOT
    ensures p > ROOT ==> ROOT <= Parent(p) < p
    ensures p != ROOT ==> Distance(Parent(p)) < Distance(p)
    ensures 0x0D00_0000 + p * 32 < 0x1_0000_0000
  {
  }

  /** The pages a walk that starts at `p` would visit were none of them known. */
  function Ancestors(p: Page): (s: set<Page>)
    ensures p in s && ROOT in s
    decreases Distance(p)
  {
    if p == ROOT then {p} else ParentApproachesRoot(p); {p} + Ancestors(Parent(p))
  }

  ghost predicate ParentClosed(s: set<Page>) {
    forall p | p in s && p != ROOT :: Parent(p) in s
  }

  /** The pages touched by `s`, directly or through the page table. */
  function Closure(s: set<Page>): set<Page> {
    set p, q | p in s && q in Ancestors(p) :: q
  }

  lemma {:induction false} AncestorsClosed(p: Page)
    ensures ParentClosed(Ancestors(p))
    decreases Distance(p)
  {
    if p != ROOT {
      ParentApproachesRoot(p);
      AncestorsClosed(Parent(p));
    }
  }

  /** A parent-closed set holds whole walks: this is what justifies stopping a walk early. */
  lemma {:induction false} ClosedHoldsAncestors(s: set<Page>, p: Page)
    requires ParentClosed(s) && p in s
    ensures Ancestors(p) <= s
    decreases Distance(p)
  {
    if p != ROOT {
      ParentApproachesRoot(p);
      ClosedHoldsAncestors(s, Parent(p));
    }
  }

  /** `Closure(s)` is the least parent-closed set around `s`. */
  lemma ClosureIsLeast(s: set<Page>, t: set<Page>)
    requires s <= t && ParentClosed(t)
    ensures s <= Closure(s) <= t
    ensures ParentClosed(Closure(s))
  {
    forall q | q in Closure(s)
      ensures q in t && (q != ROOT ==> Parent(q) in Closure(s))
    {
      var p :| p in s && q in Ancestors(p);
      ClosedHoldsAncestors(t, p);
      AncestorsClosed(p);
    }
    forall p | p in s ensures p in Closure(s) {
      assert p in Ancestors(p);
    }
  }

  lemma ClosureClosed(s: set<Page>)
    ensures s <= Closure(s) && ParentClosed(Closure(s))
  {
    forall q | q in Closure(s) && q != ROOT ensures Parent(q) in Closure(s) {
      var p :| p in s && q in Ancestors(p);
      AncestorsClosed(p);
    }
    forall p | p in s ensures p in Closure(s) {
      assert p in Ancestors(p);
    }
  }

  lemma ClosureUnion(a: set<Page>, b: set<Page>)
    ensures Closure(a + b) == Closure(a) + Closure(b)
  {
    forall q | q in Closure(a + b) ensures q in Closure(a) + Closure(b) {
      var p :| p in a + b && q in Ancestors(p);
    }
    forall q | q in Closure(a) ensures q in Closure(a + b) {
      var p :| p in a && q in Ancestors(p);
      assert p in a + b;
    }
    forall q | q in Closure(b) ensures q in Closure(a + b) {
      var p :| p in b && q in Ancestors(p);
      assert p in a + b;
    }
  }

  lemma ClosureInsert(s: set<Page>, p: Page)
    ensures Closure(s + {p}) == Closure(s) + Ancestors(p)
  {
    ClosureUnion(s, {p});
    assert Closure({p}) == Ancestors(p) by {
      forall q | q in Ancestors(p) ensures q in Closure({p}) { assert p in {p}; }
    }
  }

  // ---------- What pages cost ----------

  function PageCost(p: Page): nat {
    if p == ROOT then ROOT_COST else PAGE_COST
  }

  /** The cost of loading every page of `s` once. */
  function Cost(s: set<Page>): nat {
    if ROOT in s then (|s| - 1) * PAGE_COST + ROOT_COST else |s| * PAGE_COST
  }

  function SumCost(pages: seq<Page>): nat {
    if pages == [] then 0 else SumCost(pages[..|pages| - 1]) + PageCost(pages[|pages| - 1])
  }

  function Elements(s: seq<Page>): set<Page> {
    set p | p in s
  }

  lemma CostInsert(s: set<Page>, p: Page)
    requires p !in s
    ensures Cost(s + {p}) == Cost(s) + PageCost(p)
  {
    assert |s + {p}| == |s| + 1;
  }

  lemma CostUnion(a: set<Page>, b: set<Page>)
    requires a !! b
    ensures Cost(a + b) == Cost(a) + Cost(b)
  {
    assert |a + b| == |a| + |b|;
  }

  lemma CostMonotone(a: set<Page>, b: set<Page>)
    requires a <= b
    ensures Cost(a) <= Cost(b)
  {
    assert b == a + (b - a);
    CostUnion(a, b - a);
  }

  lemma CostSubadditive(a: set<Page>, b: set<Page>)
    ensures Cost(a + b) <= Cost(a) + Cost(b)
  {
    assert a + b == a + (b - a);
    CostUnion(a, b - a);
    CostMonotone(b - a, b);
  }

  /** However a duplicate-free list is ordered, paying for its pages one by one costs `Cost`. */
  lemma {:induction false} CostIsSum(pages: seq<Page>)
    requires Words.Distinct(pages)
    ensures SumCost(pages) == Cost(Elements(pages))
  {
    if pages != [] {
      var init, last := pages[..|pages| - 1], pages[|pages| - 1];
      CostIsSum(init);
      assert Elements(pages) == Elements(init) + {last};
      CostInsert(Elements(init), last);
    } else {
      assert Elements(pages) == {};
    }
  }

  // ---------- The ledger ----------

  datatype Ledger = Ledger(
    segments: nat,
    cycle: nat,
    resident: set<Page>,
    dirty: set<Page>,
    read: set<Page>,
    written: set<Page>)

  const EMPTY: Ledger := Ledger(0, 0, {}, {}, {}, {})

  /** What every completed step leaves behind. */
  ghost predicate Sound(l: Ledger) {
    ParentClosed(l.resident) && ParentClosed(l.dirty) && OVERHEAD + l.cycle <= SEGMENT
  }

  function SessionCycles(l: Ledger): nat {
    l.segments * SEGMENT + OVERHEAD + l.cycle
  }

  /** The constants, in cycles. */
  lemma Constants(p: Page)
    ensures Cost({p}) == PageCost(p) == if p == 219862 then 754 else 1094
    ensures OVERHEAD == 1721 && SEGMENT == 1048576 && BUDGET == 1046855
  {
  }

  /** What one pass of the retry loop wants to charge: the opcode and extra cycles, and every
      touched page that the segment has not paid for. */
  function PassCharge(l: Ledger, base: nat): nat {
    base + Cost(Closure(l.read) - l.resident) + Cost(Closure(l.written) - l.dirty)
  }

  /** The same charge in an empty segment. */
  function ColdCharge(l: Ledger, base: nat): nat {
    base + Cost(Closure(l.read)) + Cost(Closure(l.written))
  }

  predicate Fits(l: Ledger, base: nat) {
    OVERHEAD + l.cycle + PassCharge(l, base) <= SEGMENT
  }

  function Accept(l: Ledger, base: nat): Ledger {
    Ledger(l.segments, l.cycle + PassCharge(l, base),
           l.resident + Closure(l.read), l.dirty + Closure(l.written), {}, {})
  }

  function Rollover(l: Ledger): Ledger {
    Ledger(l.segments + 1, 0, {}, {}, l.read, l.written)
  }

  /** The outcome of `callback_step`, or `None` when it retries for ever. */
  function Settle(l: Ledger, base: nat): Words.Option<Ledger> {
    if Fits(l, base) then Words.Some(Accept(l, base))
    else if Fits(Rollover(l), base) then Words.Some(Accept(Rollover(l), base))
    else Words.None
  }

  // ---------- Guest pages ----------

  /** A page of guest memory, whose bounds are the addresses 0x400 and 0x0C00_0000 inclusive. */
  predicate GuestPage(p: Page) {
    1 <= p <= 196608
  }

  /** From guest memory a walk visits four pages below the root at most, and the root. */
  lemma GuestWalk(p: Page)
    requires GuestPage(p)
    ensures var p1 := Parent(p); var p2 := Parent(p1); var p3 := Parent(p2);
            Ancestors(p) == {p, p1, p2, p3, ROOT} && p < p1 < p2 < p3 <= ROOT
    ensures Cost(Ancestors(p)) <= 4 * PAGE_COST + ROOT_COST == 5130
  {
    var p1 := Parent(p);
    var p2 := Parent(p1);
    var p3 := Parent(p2);
    assert 212992 <= p1 <= 219136 && 219648 <= p2 <= 219840 && 219856 <= p3 <= ROOT;
    assert Ancestors(p3) == {p3, ROOT} by {
      if p3 != ROOT { assert Parent(p3) == ROOT; assert Ancestors(ROOT) == {ROOT}; }
    }
    assert Ancestors(p2) == {p2} + Ancestors(p3);
    assert Ancestors(p1) == {p1} + Ancestors(p2);
    assert Ancestors(p) == {p} + Ancestors(p1);
    CardinalityAtMost(p, p1, p2, p3);
  }

  lemma CardinalityAtMost(p: Page, p1: Page, p2: Page, p3: Page)
    ensures Cost({p, p1, p2, p3, ROOT}) <= 4 * PAGE_COST + ROOT_COST
  {
    var s := {p} + ({p1} + ({p2} + ({p3} + {ROOT})));
    assert s == {p, p1, p2, p3, ROOT};
    CostSubadditive({p}, {p1} + ({p2} + ({p3} + {ROOT})));
    CostSubadditive({p1}, {p2} + ({p3} + {ROOT}));
    CostSubadditive({p2}, {p3} + {ROOT});
    CostSubadditive({p3}, {ROOT});
    CostAtMostPage(p);
    CostAtMostPage(p1);
    CostAtMostPage(p2);
    CostAtMostPage(p3);
  }

  lemma CostAtMostPage(p: Page)
    ensures Cost({p}) <= PAGE_COST
  {
  }

  lemma GuestPageCost(p: Page)
    requires GuestPage(p)
    ensures Cost(Closure({p})) <= 5130
  {
    ClosureInsert({}, p);
    assert {} + {p} == {p};
    assert Closure({}) + Ancestors(p) == Ancestors(p);
    GuestWalk(p);
  }

  lemma TwoGuestPagesCost(p: Page, q: Page)
    requires GuestPage(p) && GuestPage(q)
    ensures Cost(Closure({p, q})) <= 10260
  {
    GuestPageCost(p);
    GuestPageCost(q);
    ClosureUnion({p}, {q});
    assert {p, q} == {p} + {q};
    CostSubadditive(Closure({p}), Closure({q}));
  }

  /** A step that fetches from one guest page and reads or writes at most one other always
      completes: even in an empty segment it costs 10260 paging cycles at most. */
  lemma TwoAccessStepSettles(l: Ledger, base: nat, fetch: Page, data: Page)
    requires Sound(l) && GuestPage(fetch) && GuestPage(data) && base <= 2
    requires (l.read <= {fetch, data} && l.written == {}) || (l.read <= {fetch} && l.written <= {data})
    ensures ColdCharge(l, base) <= 10262
    ensures Settle(l, base).Some?
  {
    assert Cost(Closure({})) == 0 by { assert Closure({}) == {}; }
    if l.written == {} {
      ClosureWithin(l.read, {fetch, data});
      TwoGuestPagesCost(fetch, data);
    } else {
      ClosureWithin(l.read, {fetch});
      ClosureWithin(l.written, {data});
      GuestPageCost(fetch);
      GuestPageCost(data);
    }
    WarmAtMostCold(l, base);
  }

  lemma ClosureWithin(a: set<Page>, b: set<Page>)
    requires a <= b
    ensures Closure(a) <= Closure(b) && Cost(Closure(a)) <= Cost(Closure(b))
  {
    assert b == a + b;
    ClosureUnion(a, b);
    CostMonotone(Closure(a), Closure(b));
  }

  // ---------- The retry loop, pass by pass ----------

  /** The ledger when the loop stops within `passes` passes. */
  function Retry(l: Ledger, base: nat, passes: nat): Words.Option<Ledger>
    decreases passes
  {
    if passes == 0 then Words.None
    else if Fits(l, base) then Words.Some(Accept(l, base))
    else Retry(Rollover(l), base, passes - 1)
  }

  lemma WarmAtMostCold(l: Ledger, base: nat)
    ensures PassCharge(l, base) <= ColdCharge(l, base)
    ensures PassCharge(Rollover(l), base) == ColdCharge(l, base)
  {
    CostMonotone(Closure(l.read) - l.resident, Closure(l.read));
    CostMonotone(Closure(l.written) - l.dirty, Closure(l.written));
    assert Closure(l.read) - {} == Closure(l.read);
    assert Closure(l.written) - {} == Closure(l.written);
  }

  lemma {:induction false} ColdMisfitRetriesForever(l: Ledger, base: nat, passes: nat)
    requires ColdCharge(l, base) > BUDGET
    ensures Retry(Rollover(l), base, passes).None?
    decreases passes
  {
    WarmAtMostCold(l, base);
    hide Closure, Cost;
    if passes > 0 {
      assert Rollover(Rollover(l)) == Rollover(l.(segments := l.segments + 1));
      ColdMisfitRetriesForever(l.(segments := l.segments + 1), base, passes - 1);
    }
  }

  /** The retry loop does not always stop. It stops exactly when the step fits what is left of
      the current segment or fits an empty one, it then takes at most two passes, and the
      number of segments grows by at most one. */
  lemma RetryStopsIff(l: Ledger, base: nat)
    ensures (exists n :: Retry(l, base, n).Some?)
       <==> l.cycle + PassCharge(l, base) <= BUDGET || ColdCharge(l, base) <= BUDGET
    ensures (exists n :: Retry(l, base, n).Some?) ==> Retry(l, base, 2) == Settle(l, base)
    ensures Settle(l, base).Some? <==> exists n :: Retry(l, base, n).Some?
    ensures Settle(l, base).Some? ==> Settle(l, base).value.segments <= l.segments + 1
  {
    WarmAtMostCold(l, base);
    assert Retry(l, base, 2) == if Fits(l, base) then Words.Some(Accept(l, base))
                                else Retry(Rollover(l), base, 1);
    assert Retry(Rollover(l), base, 1) ==
      if Fits(Rollover(l), base) then Words.Some(Accept(Rollover(l), base)) else Retry(Rollover(Rollover(l)), base, 0);
    if !Fits(l, base) && ColdCharge(l, base) > BUDGET {
      forall n: nat ensures Retry(l, base, n).None? {
        if n > 0 { ColdMisfitRetriesForever(l, base, n - 1); }
      }
    }
  }

  /** A step with more cycles of its own than a segment holds is retried for ever, whatever the
      books. (`Hanging` shows which steps of the machine are such.) */
  lemma RetryCanHang(l: Ledger, base: nat, passes: nat)
    requires base > BUDGET
    ensures Retry(l, base, passes).None?
  {
    hide Closure, Cost;
    if passes > 0 {
      ColdMisfitRetriesForever(l, base, passes - 1);
    }
  }

  lemma SettleSound(l: Ledger, base: nat)
    requires Sound(l) && Settle(l, base).Some?
    ensures Sound(Settle(l, base).value)
    ensures Settle(l, base).value.read == {} == Settle(l, base).value.written
  {
    ClosureClosed(l.read);
    ClosureClosed(l.written);
  }

  /** A step is settled by its first pass, or after a rollover by its second. */
  lemma SettlePasses(l: Ledger, base: nat)
    requires Sound(l) && Settle(l, base).Some?
    ensures Fits(l, base) ==> Settle(l, base) == Words.Some(Accept(l, base))
    ensures !Fits(l, base) ==> Fits(Rollover(l), base) && Settle(l, base) == Words.Some(Accept(Rollover(l), base))
    ensures Walkable(l) && Walkable(Rollover(l)) && Sound(Settle(l, base).value)
  {
    SettleSound(l, base);
  }

  /** What the page walks need of the books. */
  ghost predicate Walkable(l: Ledger) {
    ParentClosed(l.resident) && ParentClosed(l.dirty)
  }

  /** The session clock: it grows by the charge of the pass that succeeds, and on a rollover
      also by what was left unused, which is at least the overhead of a new segment and less
      than that plus the charge that did not fit. */
  lemma SessionClock(l: Ledger, base: nat)
    requires Sound(l) && Settle(l, base).Some?
    ensures var l' := Settle(l, base).value;
            var growth := SessionCycles(l') - SessionCycles(l);
            && (l'.segments == l.segments ==> growth == PassCharge(l, base))
            && (l'.segments != l.segments ==>
                  ColdCharge(l, base) + OVERHEAD <= growth < ColdCharge(l, base) + PassCharge(l, base) + OVERHEAD)
            && growth >= base
            && l'.cycle <= BUDGET
  {
    WarmAtMostCold(l, base);
  }

  // ---------- The accountant as the program keeps it ----------

  class SessionCycleCount {
    var numSegment: nat

    var curSegmentCycle: nat
    var curSegmentResident: set<Page>
    var curSegmentDirty: set<Page>

    var curStepRead: set<Page>
    var curStepWrite: set<Page>

    constructor ()
      ensures View() == EMPTY
    {
      numSegment := 0;
      curSegmentCycle := 0;
      curSegmentResident, curSegmentDirty := {}, {};
      curStepRead, curStepWrite := {}, {};
    }

    function View(): Ledger
      reads this
    {
      Ledger(numSegment, curSegmentCycle, curSegmentResident, curSegmentDirty, curStepRead, curStepWrite)
    }

    method UpdateCurSegmentTotalCycle(newStepCycle: nat) returns (redo: bool)
      modifies this
      ensures redo == (OVERHEAD + old(curSegmentCycle) + newStepCycle > SEGMENT)
      ensures View() == if redo then Rollover(old(View()))
                        else old(View()).(cycle := old(curSegmentCycle) + newStepCycle)
    {
      var newSegmentTotalCycle := PRE_CYCLE + POST_CYCLE + OTHER_CONST_CYCLE + curSegmentCycle + newStepCycle;
      if newSegmentTotalCycle > 1048576 {
        numSegment := numSegment + 1;
        curSegmentCycle := 0;
        curSegmentResident := {};
        curSegmentDirty := {};
        redo := true;
      } else {
        curSegmentCycle := curSegmentCycle + newStepCycle;
        redo := false;
      }
    }

    method GetSessionCycle() returns (cycles: nat)
      ensures cycles == 0x10_0000 * numSegment + 1721 + curSegmentCycle == SessionCycles(View())
    {
      var segmentTotalCycle := PRE_CYCLE + POST_CYCLE + OTHER_CONST_CYCLE + curSegmentCycle;
      cycles := numSegment * 1048576 + segmentTotalCycle;
    }

    method CallbackReadMem(page: Page)
      modifies this
      ensures View() == old(View()).(read := old(curStepRead) + {page})
    {
      curStepRead := curStepRead + {page};
    }

    method CallbackWriteMem(page: Page)
      modifies this
      ensures View() == old(View()).(written := old(curStepWrite) + {page})
    {
      curStepWrite := curStepWrite + {page};
    }

    /** Charges the finished step. The loop of the source has no bound of its own; the
        precondition is the exact condition for it to stop (`RetryStopsIff`). */
    method CallbackStep(opcodeCycle: nat, extraCycle: nat)
      requires Sound(View()) && Settle(View(), opcodeCycle + extraCycle).Some?
      modifies this
      ensures Sound(View())
      ensures Words.Some(View()) == Settle(old(View()), opcodeCycle + extraCycle)
    {
      var base := opcodeCycle + extraCycle;
      ghost var before := View();
      SettlePasses(before, base);
      hide Sound, Settle, Fits, Accept, Rollover, Walkable;
      ghost var l, passes := before, 2;
      while true
        invariant 0 < passes <= 2 && Walkable(l) && View() == l
        invariant l == if passes == 2 then before else Rollover(before)
        invariant passes == 1 ==> !Fits(before, base)
        decreases passes
      {
        var redo := TryCharge(base);
        if !redo {
          assert Settle(before, base) == Words.Some(Accept(l, base));
          return;
        }
        assert passes == 2;
        l, passes := Rollover(before), 1;
      }
    }

    /** One round of the retry loop: both page walks, the budget check, and the update of the
        sets when the step fits. */
    method TryCharge(base: nat) returns (redo: bool)
      requires Walkable(View())
      modifies this
      ensures redo == !Fits(old(View()), base)
      ensures View() == if redo then Rollover(old(View())) else Accept(old(View()), base)
    {
      hide Closure, Cost, SumCost, Words.Distinct;
      ghost var before := View();
      var readCycle, newResident := WalkPages(curStepRead, curSegmentResident);
      var writeCycle, newDirty := WalkPages(curStepWrite, curSegmentDirty);
      var resident, dirty := curSegmentResident + Elements(newResident), curSegmentDirty + Elements(newDirty);
      assert resident == before.resident + Closure(before.read);
      assert dirty == before.dirty + Closure(before.written);
      redo := UpdateCurSegmentTotalCycle(base + readCycle + writeCycle);
      if !redo {
        curSegmentResident := resident;
        curSegmentDirty := dirty;
        curStepRead := {};
        curStepWrite := {};
      }
    }

    /**
     The page walk, which the source writes out twice (for reads and for writes). The touched
     pages come from a hash set, so any order of visiting them is possible; the contract does
     not depend on it.
     */
    static method WalkPages(touched: set<Page>, known: set<Page>) returns (cycle: nat, collected: seq<Page>)
      requires ParentClosed(known)
      ensures Words.Distinct(collected)
      ensures Elements(collected) == Closure(touched) - known
      ensures cycle == Cost(Closure(touched) - known) == SumCost(collected)
    {
      cycle, collected := 0, [];
      var todo := touched;
      assert Closure(touched - todo) == {};
      while todo != {}
        invariant todo <= touched
        invariant Words.Distinct(collected) && cycle == SumCost(collected)
        invariant Elements(collected) == Closure(touched - todo) - known
        invariant ParentClosed(known + Elements(collected))
        decreases todo
      {
        var page :| page in todo;
        cycle, collected := WalkFrom(page, known, cycle, collected);
        ClosureInsert(touched - todo, page);
        assert touched - (todo - {page}) == (touched - todo) + {page};
        todo := todo - {page};
      }
      assert touched - todo == touched;
      CostIsSum(collected);
    }

    /** One walk towards the root: it stops at the first page known to the segment or already
        collected, and misses nothing by stopping. */
    static method WalkFrom(page: Page, known: set<Page>, cycle0: nat, collected0: seq<Page>)
      returns (cycle: nat, collected: seq<Page>)
      requires ParentClosed(known + Elements(collected0))
      requires Words.Distinct(collected0) && cycle0 == SumCost(collected0)
      ensures ParentClosed(known + Elements(collected))
      ensures Words.Distinct(collected) && cycle == SumCost(collected)
      ensures Elements(collected) == Elements(collected0) + (Ancestors(page) - known)
    {
      cycle, collected := cycle0, collected0;
      var cur: Page := page;
      ghost var walked: set<Page> := {};
      while true
        invariant Words.Distinct(collected) && cycle == SumCost(collected)
        invariant Elements(collected) == Elements(collected0) + walked
        invariant walked !! known
        invariant forall p | p in walked :: Distance(p) > Distance(cur)
        invariant Ancestors(page) == walked + Ancestors(cur)
        decreases Distance(cur)
      {
        if cur in known || cur in collected {
          assert cur in known + Elements(collected);
          ClosedHoldsAncestors(known + Elements(collected0), cur);
          break;
        }
        AppendPage(collected, cur);
        collected := collected + [cur];
        walked := walked + {cur};
        if cur == 219862 {
          cycle := cycle + 1 + 5 + (16 + 52) * 11;
          break;
        }
        cycle := cycle + 1 + 5 + (16 + 52) * 16;
        ParentApproachesRoot(cur);
        cur := (0x0D00_0000 + cur * 32) / 1024;
      }
      AncestorsClosed(page);
      assert known + Elements(collected) == known + Elements(collected0) + Ancestors(page);
    }
  }

  lemma AppendPage(pages: seq<Page>, p: Page)
    requires Words.Distinct(pages) && p !in pages
    ensures Words.Distinct(pages + [p])
    ensures Elements(pages + [p]) == Elements(pages) + {p}
    ensures SumCost(pages + [p]) == SumCost(pages) + PageCost(p)
  {
    assert (pages + [p])[..|pages|] == pages;
  }
}
