/** What one step does: its history, its watch report, its charge and its bytes. */
module Steps {
  import opened Words
  import opened SessionCycle
  import opened PagedMemory
  import opened FlatMemory
  import opened Machine
  import opened Trace

  // ---------- From the body to the step ----------

  lemma BodyFollows(host: Host, m: Machine, insn: u32)
    ensures Follows(m.mem, Body(host, m, insn).1.mem)
  {
    hide Ecall, Execute, Follows;
    EcallFollows(host, m);
    ExecuteFollows(host, m);
  }

  /** Only the halting calls yield an exit code, and they touch no memory. */
  lemma ExitTouchesNothing(host: Host, m: Machine, insn: u32)
    requires Body(host, m, insn).0.Proceed? && Body(host, m, insn).0.exit.Some?
    ensures Body(host, m, insn).1.mem == m.mem
    ensures !Body(host, m, insn).0.exit.value.HwWatchPoint?
  {
    hide HandleSyscall, ReadName, WriteBytes, ReadBytes, ReadWords, ShaBlocks, Execute;
  }

  /** The instruction word at the program counter. */
  function Insn(m: Machine): Option<u32> {
    ReadMem(m.mem, m.hart.pc, Word, false).0
  }

  /** The machine after the fetch, with the trigger cleared: where the body starts. */
  function Start(m: Machine): Machine {
    Cleared(m, ReadMem(m.mem, m.hart.pc, Word, false).1)
  }

  /** The machine between the body and the charge. */
  function Settling(host: Host, m: Machine): (Outcome, Machine)
    requires Insn(m).Some?
  {
    Body(host, Start(m), Insn(m).value)
  }

  /** The opcode and extra cycles of a step. */
  function StepBase(host: Host, m: Machine): nat {
    if Insn(m).None? || OpcodeCycle(Insn(m).value).None? then 0
    else
      var outcome := Settling(host, m).0;
      OpcodeCycle(Insn(m).value).value + (if outcome.Proceed? then outcome.extra else 0)
  }

  /** The books of a step about to be charged: the fetch and the accesses of its history. */
  function StepLedger(m: Machine, accesses: seq<Access>): Ledger {
    Billed(Charged(LedgerOf(m), Load(m.hart.pc, Word)), accesses)
  }

  /** A completed step is its body, replayable from its history, and then the charge. */
  lemma RanIsCharged(host: Host, m: Machine)
    requires Step(host, m).0.Ran?
    ensures Insn(m).Some? && OpcodeCycle(Insn(m).value).Some? && InGuest(m.hart.pc)
    ensures var (outcome, mid) := Settling(host, m);
            && outcome.Proceed?
            && Finish(mid, outcome.exit, StepBase(host, m)) == Step(host, m)
            && Follows(Start(m).mem, mid.mem)
  {
    hide Body, OpcodeCycle, Follows, Finish;
    BodyFollows(host, Start(m), Insn(m).value);
  }

  /**
   The history of a completed step: every access in it is in guest memory, the watch trigger
   is the first watchpoint match among them, and the ledger is charged for exactly the pages
   of the fetch and of those accesses, with the step's own cycles.
   */
  lemma StepHistory(host: Host, m: Machine)
    requires Step(host, m).0.Ran? && m.mem.ledger.Some?
    ensures var m' := Step(host, m).1;
            && m'.mem.watches == m.mem.watches
            && m'.mem.trigger == FirstHit(m.mem.watches, m'.mem.log)
            && (forall a | a in m'.mem.log :: InGuest(a.addr))
            && m'.mem.ledger.Some?
            && Settle(StepLedger(m, m'.mem.log), StepBase(host, m)) == Some(m'.mem.ledger.value)
  {
    RanIsCharged(host, m);
    var (outcome, mid) := Settling(host, m);
    FollowsRecords(Start(m).mem, mid.mem);
    assert mid.mem.log[0..] == mid.mem.log;
    hide Body, OpcodeCycle, Follows, Settle, FirstHit, Billed, FirstMatch;
    assert Start(m).mem.ledger == Some(Charged(LedgerOf(m), Load(m.hart.pc, Word)));
  }

  /** What a completed step does to memory is what the stores of its history do. */
  lemma StepMemory(host: Host, m: Machine, f: Bytes)
    requires Step(host, m).0.Ran? && Represents(m.mem, f)
    ensures Represents(Step(host, m).1.mem, FlatStores(f, Step(host, m).1.mem.log))
  {
    RanIsCharged(host, m);
    var mid := Settling(host, m).1;
    var start, accesses := Start(m).mem, mid.mem.log;
    assert mid.mem.log[0..] == accesses;
    ReadKeepsBytes(m.mem, f, m.hart.pc, Word);
    SamePagesRepresent(ReadMem(m.mem, m.hart.pc, Word, false).1, start, f);
    hide Body, OpcodeCycle, Settle, Represents, FlatStores, Perform, ReadMem;
    StoresAreFlat(start, f, accesses);
    SamePagesRepresent(mid.mem, Step(host, m).1.mem, FlatStores(f, accesses));
  }

  lemma SamePagesRepresent(m: Mem, m': Mem, f: Bytes)
    requires Represents(m, f) && m'.pages == m.pages
    ensures Represents(m', f)
  {
    forall a: u32 ensures ByteAt(m', a) == f(a) {
      assert ByteAt(m, a) == f(a);
    }
  }

  /** A step that fails is not charged: the books are left with exactly the pages of its fetch
      and of its history added, to be charged with whatever comes next. */
  lemma FailedStepLeavesPages(host: Host, m: Machine)
    requires Step(host, m).0.Failed? && m.mem.ledger.Some? && InGuest(m.hart.pc)
    ensures Step(host, m).1.mem.ledger == Some(StepLedger(m, Step(host, m).1.mem.log))
    ensures PageOf(m.hart.pc) in Step(host, m).1.mem.ledger.value.read
  {
    var start := Start(m);
    var l1 := Charged(m.mem.ledger.value, Load(m.hart.pc, Word));
    assert Insn(m).Some? && start.mem.ledger == Some(l1);
    BilledThen(l1, [], []);
    if OpcodeCycle(Insn(m).value).Some? {
      BodyFollows(host, start, Insn(m).value);
      hide Body, OpcodeCycle, Follows, FirstHit, Touched, Settle;
      var mid := Settling(host, m).1;
      FollowsRecords(start.mem, mid.mem);
      assert mid.mem.log[0..] == mid.mem.log;
    }
  }

  /** No step, whatever it returns, changes the watchpoints or disconnects the accountant. */
  lemma StepKeepsWatches(host: Host, m: Machine)
    ensures Step(host, m).1.mem.watches == m.mem.watches
    ensures m.mem.ledger.Some? ==> Step(host, m).1.mem.ledger.Some?
  {
    hide ReadMem, Body, OpcodeCycle, Follows, Settle;
    ReadFollows(m.mem, m.hart.pc, Word);
    FollowsKeepsBooks(m.mem, ReadMem(m.mem, m.hart.pc, Word, false).1);
    if Insn(m).Some? {
      BodyFollows(host, Start(m), Insn(m).value);
      FollowsKeepsBooks(Start(m).mem, Settling(host, m).1.mem);
    }
  }

  // ---------- Watchpoints ----------

  /**
   A completed step reports a watchpoint exactly when some access of its history, that is
   some unprivileged access after the trigger was cleared, matches one; it then reports the
   first such access.
   */
  lemma WatchReport(host: Host, m: Machine, hit: Hit)
    requires Step(host, m).0.Ran? && m.mem.ledger.Some?
    ensures Step(host, m).0 == Ran(Some(HwWatchPoint(hit)))
       <==> FirstHit(m.mem.watches, Step(host, m).1.mem.log) == Some(hit)
  {
    StepHistory(host, m);
    RanIsCharged(host, m);
    var (outcome, mid) := Settling(host, m);
    if outcome.exit.Some? {
      ExitTouchesNothing(host, Start(m), Insn(m).value);
      assert mid.mem.log == [];
    }
    hide Body, OpcodeCycle, Settle, Billed, FirstMatch;
  }

  predicate Hits(w: Watch, a: Access) {
    Matches(w, a.addr, Width(a.size), a.Store?)
  }

  ghost predicate Misses(watches: seq<Watch>, a: Access) {
    forall j | 0 <= j < |watches| :: !Hits(watches[j], a)
  }

  /** Access `i` is the first to match a watchpoint, and `k` the first watchpoint it matches. */
  ghost predicate IsFirstHit(watches: seq<Watch>, accesses: seq<Access>, i: nat, k: nat, hit: Hit) {
    && i < |accesses| && k < |watches|
    && (forall h | 0 <= h < i :: Misses(watches, accesses[h]))
    && Hits(watches[k], accesses[i]) && Misses(watches[..k], accesses[i])
    && hit == Hit(watches[k].kind, accesses[i].addr)
  }

  lemma {:induction false} FirstMatchAt(watches: seq<Watch>, a: Access) returns (k: nat)
    ensures var found := FirstMatch(watches, a.addr, Width(a.size), a.Store?);
            if found.None? then Misses(watches, a)
            else
              && k < |watches| && Hits(watches[k], a) && Misses(watches[..k], a)
              && found.value == Hit(watches[k].kind, a.addr)
  {
    k := 0;
    if watches != [] && !Hits(watches[0], a) {
      var j := FirstMatchAt(watches[1..], a);
      k := j + 1;
      forall h | 0 <= h < |watches| && (Misses(watches[1..], a) || h < k) ensures !Hits(watches[h], a) {
        if h > 0 {
          assert watches[h] == watches[1..][h - 1];
          if h < k && !Misses(watches[1..], a) { assert watches[h] == watches[1..][..j][h - 1]; }
        }
      }
    }
  }

  lemma {:induction false} FirstHitAt(watches: seq<Watch>, accesses: seq<Access>) returns (i: nat, k: nat)
    ensures var found := FirstHit(watches, accesses);
            if found.None? then forall h | 0 <= h < |accesses| :: Misses(watches, accesses[h])
            else IsFirstHit(watches, accesses, i, k, found.value)
  {
    i, k := 0, 0;
    if accesses == [] {
      return;
    }
    k := FirstMatchAt(watches, accesses[0]);
    if Misses(watches, accesses[0]) {
      hide Misses, Hits;
      var i', k' := FirstHitAt(watches, accesses[1..]);
      i, k := i' + 1, k';
      forall h | 0 < h < |accesses| ensures accesses[h] == accesses[1..][h - 1] {
      }
    }
  }

  lemma FirstHitUnique(watches: seq<Watch>, accesses: seq<Access>, i: nat, k: nat, hit: Hit, i': nat, k': nat,
                       hit': Hit)
    requires IsFirstHit(watches, accesses, i, k, hit) && IsFirstHit(watches, accesses, i', k', hit')
    ensures hit == hit'
  {
  }

  /** The first hit, spelled out: an access that matches, before which none does, reported
      under the kind of the first watchpoint that it matches. */
  lemma FirstHitIff(watches: seq<Watch>, accesses: seq<Access>, hit: Hit)
    ensures FirstHit(watches, accesses) == Some(hit) <==> exists i, k :: IsFirstHit(watches, accesses, i, k, hit)
  {
    var i, k := FirstHitAt(watches, accesses);
    forall i', k' | IsFirstHit(watches, accesses, i', k', hit) ensures FirstHit(watches, accesses) == Some(hit) {
      if FirstHit(watches, accesses).Some? {
        FirstHitUnique(watches, accesses, i, k, FirstHit(watches, accesses).value, i', k', hit);
      }
    }
  }

  /** The access and the watched range share a byte. */
  ghost predicate Overlaps(w: Watch, addr: u32, len: nat) {
    exists b: u32 :: Within(b, addr, addr + len) && Within(b, w.addr, WatchEnd(w))
  }

  predicate Within(b: u32, start: u32, end: nat) {
    start <= b < end
  }

  /**
   Matching is not quite overlapping: an access that ends just where a watched range starts
   matches too, and so does one around the start of a range with no bytes, be it of length zero
   or one whose end wraps around the address space to below its start. Nothing else does.
   */
  lemma MatchesIffOverlapsOrTouches(w: Watch, addr: u32, len: nat, isWrite: bool)
    requires len > 0
    ensures Matches(w, addr, len, isWrite)
       <==> && w.kind != (if isWrite then Read else Write)
            && (|| Overlaps(w, addr, len)
                || addr + len == w.addr
                || (WatchEnd(w) <= w.addr && addr < w.addr < addr + len))
  {
    hide WatchEnd;
    if addr < w.addr < addr + len && w.addr < WatchEnd(w) {
      assert Within(w.addr, addr, addr + len) && Within(w.addr, w.addr, WatchEnd(w));
      assert Overlaps(w, addr, len);
    }
    if addr >= w.addr && addr < WatchEnd(w) {
      assert Within(addr, addr, addr + len) && Within(addr, w.addr, WatchEnd(w));
      assert Overlaps(w, addr, len);
    }
  }

  /** The computed end of a range is its end, unless the range wraps around. */
  lemma WatchEndIff(w: Watch)
    ensures WatchEnd(w) == w.addr + w.len <==> w.addr + w.len < 0x1_0000_0000
    ensures WatchEnd(w) < w.addr <==> w.addr + w.len >= 0x1_0000_0000
  {
    if w.addr + w.len >= 0x1_0000_0000 { assert WatchEnd(w) == w.addr + w.len - 0x1_0000_0000; }
  }

  // ---------- Cost ----------

  /** An instruction other than an ecall accesses memory twice at most after the fetch, and
      the first of these fetches the instruction again. */
  lemma ExecuteHistory(host: Host, m: Machine)
    requires m.mem.log == [] && ReadMem(m.mem, m.hart.pc, Word, false).0.Some?
    ensures var a := Execute(host, m).1.mem.log; 1 <= |a| <= 2 && a[0] == Load(m.hart.pc, Word)
  {
    hide FirstMatch, Fetched, Stored, Charged, Aligned;
  }

  lemma OpcodeCycleBound(insn: u32)
    ensures OpcodeCycle(insn).Some? ==> 1 <= OpcodeCycle(insn).value <= 2
  {
  }

  lemma InstructionBody(host: Host, m: Machine)
    requires m.mem.ledger.Some? && Insn(m).Some? && !IsEcall(Insn(m).value)
    ensures var (outcome, mid) := Settling(host, m);
            && (outcome.Fail? || (outcome.Proceed? && outcome.exit.None? && outcome.extra == 0))
            && var a := mid.mem.log;
            && 1 <= |a| <= 2 && a[0] == Load(m.hart.pc, Word)
            && (forall x | x in a :: InGuest(x.addr))
            && mid.mem.ledger == Some(StepLedger(m, a))
  {
    var start := Start(m);
    ExecuteHistory(host, start);
    hide Execute, ReadMem;
    BodyFollows(host, start, Insn(m).value);
    FollowsRecords(start.mem, Settling(host, m).1.mem);
    assert Settling(host, m).1.mem.log[0..] == Settling(host, m).1.mem.log;
  }

  /** What the books say after a fetch and one or two accesses. */
  lemma HistoryPages(m: Machine, a: seq<Access>) returns (data: Page)
    requires LedgerOf(m).read == {} == LedgerOf(m).written
    requires 1 <= |a| <= 2 && a[0] == Load(m.hart.pc, Word) && forall x | x in a :: InGuest(x.addr)
    ensures GuestPage(PageOf(m.hart.pc)) && GuestPage(data)
    ensures var l := StepLedger(m, a);
            && l.cycle == LedgerOf(m).cycle && l.resident == LedgerOf(m).resident && l.dirty == LedgerOf(m).dirty
            && l.segments == LedgerOf(m).segments
            && ((l.read <= {PageOf(m.hart.pc), data} && l.written == {})
                || (l.read <= {PageOf(m.hart.pc)} && l.written <= {data}))
  {
    var last := a[|a| - 1];
    assert a[0] in a && last in a;
    data := PageOf(last.addr);
    assert forall x | x in a :: x == a[0] || x == last;
    if last.Load? {
      assert Touched(a, false) == {};
    }
  }

  /**
   No instruction other than an ecall can hang the accountant: whatever the machine holds, if
   its books are sound and clear, the step is completed, at 10262 cycles at most.
   */
  lemma InstructionsNeverHang(host: Host, m: Machine)
    requires m.mem.ledger.Some? && Sound(m.mem.ledger.value)
    requires m.mem.ledger.value.read == {} == m.mem.ledger.value.written
    requires Insn(m).Some? && !IsEcall(Insn(m).value)
    ensures Step(host, m).0 != Hung
    ensures ColdCharge(StepLedger(m, Settling(host, m).1.mem.log), StepBase(host, m)) <= 10262
  {
    hide Execute, ReadMem, Body, OpcodeCycle, Settle, ColdCharge, Touched;
    InstructionBody(host, m);
    var a := Settling(host, m).1.mem.log;
    OpcodeCycleBound(Insn(m).value);
    var data := HistoryPages(m, a);
    TwoAccessStepSettles(StepLedger(m, a), StepBase(host, m), PageOf(m.hart.pc), data);
  }
}
