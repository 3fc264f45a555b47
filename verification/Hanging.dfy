/** Which steps hang the accountant: the charge is retried for ever when it fits no segment. */
module Hanging {
  import opened Words
  import opened SessionCycle
  import opened PagedMemory
  import opened FlatMemory
  import opened Machine
  import opened Trace
  import opened Steps
  import opened Runs
  import opened Halting
  import opened Hashing
  import opened Greedy
  import P = Packing

  // ---------- Exactly when ----------

  /** The step gets as far as its charge. */
  predicate Proceeds(host: Host, m: Machine) {
    Insn(m).Some? && OpcodeCycle(Insn(m).value).Some? && Settling(host, m).0.Proceed?
  }

  /** The books before the charge are those of the fetch and of the history so far. */
  lemma SettlingBooks(host: Host, m: Machine)
    requires m.mem.ledger.Some? && Insn(m).Some?
    ensures var mid := Settling(host, m).1.mem;
            && mid.ledger == Some(StepLedger(m, mid.log))
            && forall a | a in mid.log :: InGuest(a.addr)
  {
    hide Body, Follows, FirstHit, Billed, ReadMem;
    BodyFollows(host, Start(m), Insn(m).value);
    FollowsRecords(Start(m).mem, Settling(host, m).1.mem);
    assert Settling(host, m).1.mem.log[0..] == Settling(host, m).1.mem.log;
    StartBooks(m);
  }

  lemma StartBooks(m: Machine)
    requires m.mem.ledger.Some? && Insn(m).Some?
    ensures InGuest(m.hart.pc) && Start(m).mem.log == []
    ensures Start(m).mem.ledger == Some(Charged(LedgerOf(m), Load(m.hart.pc, Word)))
  {
  }

  lemma ChargeOrHang(host: Host, m: Machine)
    requires m.mem.ledger.Some?
    ensures Proceeds(host, m) ==>
              var mid := Settling(host, m).1.mem;
              && Step(host, m).1.mem.log == mid.log
              && (Step(host, m).0 == Hung <==> Settle(StepLedger(m, mid.log), StepBase(host, m)).None?)
    ensures !Proceeds(host, m) ==> Step(host, m).0 != Hung
  {
    hide Body, OpcodeCycle, Settle, StepLedger, ReadMem;
    if Insn(m).Some? {
      SettlingBooks(host, m);
    }
  }

  /** A step hangs exactly when it gets as far as its charge, and the charge fits neither what is
      left of the current segment nor an empty one. */
  lemma HungIff(host: Host, m: Machine)
    requires m.mem.ledger.Some?
    ensures var l, base := StepLedger(m, Step(host, m).1.mem.log), StepBase(host, m);
            (Step(host, m).0 == Hung
             <==> Proceeds(host, m) && l.cycle + PassCharge(l, base) > BUDGET && ColdCharge(l, base) > BUDGET)
  {
    hide Step, Proceeds, Settling, StepLedger, StepBase, PassCharge, ColdCharge, Retry;
    ChargeOrHang(host, m);
    RetryStopsIff(StepLedger(m, Step(host, m).1.mem.log), StepBase(host, m));
  }

  /** After a completed run, the room left in the current segment does not matter: the next step
      hangs exactly when its charge alone is too much for a segment. */
  lemma HungAfterRunIff(host: Host, m: Machine, n: nat)
    requires m.mem.ledger == Some(EMPTY) && Completed(host, m, n)
    ensures ResultOf(host, m, n) == Hung
       <==> Proceeds(host, After(host, m, n)) && !P.FitsSegment([ChargeOf(host, After(host, m, n))])
  {
    var at, done := After(host, m, n), Charges(host, m, n);
    var c := ChargeOf(host, at);
    hide Step, Proceeds, Settling, StepBase, Settle, P.After, P.FitsSegment, Touched, P.Segments, P.Open, P.Reads,
      P.Writes, P.Bases, Cost, Closure, ParentClosed;
    RunIsPacked(host, m, n);
    P.Conservation(done);
    ChargeOrHang(host, at);
    var l := at.mem.ledger.value;
    var accesses := Step(host, at).1.mem.log;
    assert {} + {PageOf(at.hart.pc)} + Touched(accesses, true) == c.pagesRead;
    assert {} + Touched(accesses, false) == c.pagesWritten;
    assert StepLedger(at, accesses) == l.(read := c.pagesRead, written := c.pagesWritten);
    NextCharge(done, c);
  }

  lemma NextCharge(done: seq<P.Charge>, c: P.Charge)
    requires P.After(done).Some?
    ensures Settle(P.After(done).value.(read := c.pagesRead, written := c.pagesWritten), c.base).Some? <==>
            P.FitsSegment([c])
  {
    var steps := done + [c];
    assert Init(steps) == done && Last(steps) == c;
    hide Settle, P.FitsSegment, P.Segments;
    P.LedgerIsPacking(done);
    P.LedgerIsPacking(steps);
    EachFitsLast(P.FitsSegment, steps);
  }

  // ---------- Calls that hang ----------

  /** No books make room for a step with more cycles of its own than a segment holds. */
  lemma LargeStepHangs(host: Host, m: Machine)
    requires m.mem.ledger.Some? && Proceeds(host, m) && StepBase(host, m) > BUDGET
    ensures Step(host, m).0 == Hung
  {
    hide Step, Proceeds, Settling, StepLedger, StepBase;
    HungIff(host, m);
  }

  /** The step at `m` is environment call `call`. */
  predicate IsEcallOf(m: Machine, call: u32) {
    Insn(m).Some? && IsEcall(Insn(m).value) && Reg(m, REG_T0) == call
  }

  /** A SHA call over 14341 blocks or more hangs, wherever its blocks and states lie in guest
      memory and whatever the books. */
  lemma ShaHangs(host: Host, m: Machine)
    requires m.mem.ledger.Some? && IsEcallOf(m, 3) && Reg(m, REG_A4) >= 14341
    requires ShaFits(Reg(m, REG_A0), Reg(m, REG_A1), Reg(m, REG_A2), Reg(m, REG_A3), Reg(m, REG_A4))
    ensures Step(host, m).0 == Hung
  {
    ShaProceeds(host, Start(m));
    ShaStep(host, m);
    hide Step, StepBase, Proceeds, ShaFits, IsEcallOf;
    LargeStepHangs(host, m);
  }

  lemma ShaProceeds(host: Host, m: Machine)
    requires ShaFits(Reg(m, REG_A0), Reg(m, REG_A1), Reg(m, REG_A2), Reg(m, REG_A3), Reg(m, REG_A4))
    ensures EcallSha(host, m).0.Proceed? && EcallSha(host, m).0.extra == 73 * Reg(m, REG_A4)
  {
    hide Sha, ShaFits, Result, Overwritten;
    ShaIsFold(host, m.mem, Reg(m, REG_A0), Reg(m, REG_A1), Reg(m, REG_A2), Reg(m, REG_A3), Reg(m, REG_A4));
    ShaCycles(host, m);
  }

  lemma ShaStep(host: Host, m: Machine)
    requires IsEcallOf(m, 3)
    ensures Proceeds(host, m) <==> EcallSha(host, Start(m)).0.Proceed?
    ensures Proceeds(host, m) ==>
              && StepBase(host, m) == 1 + EcallSha(host, Start(m)).0.extra
              && Settling(host, m).1.mem == EcallSha(host, Start(m)).1.mem
  {
    EcallIsLegal(Insn(m).value);
    hide ReadMem, OpcodeCycle, IsEcall, EcallSha;
  }

  lemma EcallIsLegal(insn: u32)
    ensures IsEcall(insn) ==> OpcodeCycle(insn) == Some(1)
  {
  }

  /** A machine that the loader and the program can bring about: an ECALL at 0x400, and registers
      that ask for 14341 blocks from 0x800 on, with fresh books. */
  function Hasher(): Machine {
    var regs: Registers := seq(32, _ => 0)[REG_T0 := 3][REG_A0 := 0x800][REG_A1 := 0x800]
                           [REG_A2 := 0x800][REG_A3 := 0x820][REG_A4 := 14341];
    var mem := BLANK.(pages := map[1 := ZeroPage()[0 := 0x73]], ledger := Some(EMPTY));
    Machine(Hart(0x400, regs), mem, Io([], 0, [], [], [], 0), map[], [])
  }

  lemma ShaCanHang(host: Host)
    ensures Step(host, Hasher()).0 == Hung
  {
    HasherFetches();
    hide Step, ReadMem;
    ShaHangs(host, Hasher());
  }

  lemma HasherFetches()
    ensures Insn(Hasher()) == Some(0x73) && IsEcall(0x73)
  {
  }

  // ---------- Steps that do not ----------

  lemma {:induction false} GuestPagesCost(s: set<Page>)
    requires forall p | p in s :: GuestPage(p)
    ensures Cost(Closure(s)) <= 5130 * |s|
    decreases |s|
  {
    if s == {} {
      assert Closure({}) == {};
    } else {
      var p :| p in s;
      var rest := s - {p};
      GuestPagesCost(rest);
      GuestWalk(p);
      ClosureInsert(rest, p);
      assert rest + {p} == s;
      CostSubadditive(Closure(rest), Ancestors(p));
    }
  }

  lemma {:induction false} TouchedSize(accesses: seq<Access>, loads: bool)
    requires forall a | a in accesses :: InGuest(a.addr)
    ensures |Touched(accesses, loads)| <= |accesses|
    ensures forall p | p in Touched(accesses, loads) :: GuestPage(p)
  {
    if accesses != [] {
      var rest := accesses[1..];
      TouchedSize(rest, loads);
      var all := Touched(rest, loads) + {PageOf(accesses[0].addr)};
      assert Touched(accesses, loads) <= all;
      SubsetSize(Touched(accesses, loads), all);
    }
  }

  lemma {:induction false} SubsetSize(a: set<Page>, b: set<Page>)
    requires a <= b
    ensures |a| <= |b|
  {
    assert b == a + (b - a);
  }

  /** A step that makes few accesses and has few cycles of its own never hangs. */
  lemma ShortStepsNeverHang(host: Host, m: Machine)
    requires Clear(m.mem)
    requires Insn(m).Some? ==> StepBase(host, m) + 5130 * (1 + 2 * |Settling(host, m).1.mem.log|) <= BUDGET
    ensures Step(host, m).0 != Hung
  {
    ChargeOrHang(host, m);
    if Proceeds(host, m) {
      SettlingBooks(host, m);
      StartBooks(m);
      var accesses := Settling(host, m).1.mem.log;
      var base := StepBase(host, m);
      hide Step, Settling, StepBase, ReadMem, OpcodeCycle;
      ShortHistoryFits(m, accesses, base);
    }
  }

  lemma ShortHistoryFits(m: Machine, accesses: seq<Access>, base: nat)
    requires Clear(m.mem) && InGuest(m.hart.pc) && forall a | a in accesses :: InGuest(a.addr)
    requires base + 5130 * (1 + 2 * |accesses|) <= BUDGET
    ensures Settle(StepLedger(m, accesses), base).Some?
  {
    var l := StepLedger(m, accesses);
    var fetch := Load(m.hart.pc, Word);
    hide Cost, Closure, ParentClosed;
    TouchedSize(accesses, true);
    TouchedSize(accesses, false);
    assert l.read == {PageOf(m.hart.pc)} + Touched(accesses, true);
    assert l.written == Touched(accesses, false);
    GuestPagesCost(l.read);
    GuestPagesCost(l.written);
    WarmAtMostCold(l, base);
  }

  lemma PerformLogs(m: Mem, accesses: seq<Access>)
    ensures |Perform(m, accesses).1.log| <= |m.log| + |accesses|
  {
    PerformRecords(m, accesses);
  }

  lemma BigintLogs(host: Host, m: Machine)
    ensures |EcallBigint(host, m).1.mem.log| <= |m.mem.log| + 32
    ensures EcallBigint(host, m).0.Proceed? ==> EcallBigint(host, m).0.extra == 9
  {
    hide Perform, Loads, Stores;
    forall mem: Mem, accesses: seq<Access> ensures |Perform(mem, accesses).1.log| <= |mem.log| + |accesses| {
      PerformLogs(mem, accesses);
    }
  }

  lemma OtherCallsAreShort(host: Host, m: Machine)
    requires Reg(m, REG_T0) != 2 && Reg(m, REG_T0) != 3
    ensures |Ecall(host, m).1.mem.log| <= |m.mem.log| + 32
    ensures Ecall(host, m).0.Proceed? ==> Ecall(host, m).0.extra <= 9
  {
    hide EcallBigint;
    BigintLogs(host, m);
  }

  lemma OtherEcallStep(host: Host, m: Machine)
    requires m.mem.ledger.Some? && Insn(m).Some? && IsEcall(Insn(m).value)
    requires Reg(m, REG_T0) != 2 && Reg(m, REG_T0) != 3
    ensures |Settling(host, m).1.mem.log| <= 32 && StepBase(host, m) <= 10
  {
    EcallIsLegal(Insn(m).value);
    StartBooks(m);
    OtherCallsAreShort(host, Start(m));
    hide ReadMem, Ecall, OpcodeCycle, IsEcall;
  }

  /** Only software calls and SHA calls can hang: no other instruction makes enough accesses. */
  lemma OnlySoftwareAndShaHang(host: Host, m: Machine)
    requires Clear(m.mem) && Step(host, m).0 == Hung
    ensures IsEcallOf(m, 2) || IsEcallOf(m, 3)
  {
    ChargeOrHang(host, m);
    hide Step, ReadMem, Settling, OpcodeCycle, IsEcall, StepBase;
    if !IsEcall(Insn(m).value) {
      InstructionsNeverHang(host, m);
    } else if !IsEcallOf(m, 2) && !IsEcallOf(m, 3) {
      OtherEcallStep(host, m);
      ShortStepsNeverHang(host, m);
    }
  }
}
