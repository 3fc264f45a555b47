/**
 Whole debugging sessions: any sequence of resumptions, memory reads, watchpoint and
 breakpoint changes and interrupts, followed by disconnecting and running on, computes what
 the program computes without a debugger.
 */
module Sessions {
  import opened Words
  import opened SessionCycle
  import opened PagedMemory
  import opened FlatMemory
  import opened Machine
  import opened Runs
  import opened Transparency
  import opened ByteRuns
  import opened DebugLoop
  import M = Machine

  // ---------- Watchpoints ----------

  /** Adding a watchpoint that is there already is refused. */
  function AddWatchpoint(watches: seq<Watch>, w: Watch): (bool, seq<Watch>) {
    if w in watches then (false, watches) else (true, watches + [w])
  }

  /** The position of the first occurrence, or the length when there is none. */
  function Position(watches: seq<Watch>, w: Watch): (k: nat)
    ensures k <= |watches|
    ensures w in watches <==> k < |watches|
    ensures k < |watches| ==> watches[k] == w
  {
    if watches == [] then 0 else if watches[0] == w then 0 else 1 + Position(watches[1..], w)
  }

  function RemoveWatchpoint(watches: seq<Watch>, w: Watch): (bool, seq<Watch>) {
    var k := Position(watches, w);
    if k == |watches| then (false, watches) else (true, watches[..k] + watches[k + 1..])
  }

  /** The list acts as a set: it stays free of duplicates, an added watchpoint is in it, a
      removed one is not, and the others are as before. */
  lemma WatchpointsActAsSet(watches: seq<Watch>, w: Watch)
    requires Distinct(watches)
    ensures Distinct(AddWatchpoint(watches, w).1) && Distinct(RemoveWatchpoint(watches, w).1)
    ensures AddWatchpoint(watches, w).0 <==> w !in watches
    ensures RemoveWatchpoint(watches, w).0 <==> w in watches
    ensures forall x :: x in AddWatchpoint(watches, w).1 <==> x in watches || x == w
    ensures forall x :: x in RemoveWatchpoint(watches, w).1 <==> x in watches && x != w
  {
    var k := Position(watches, w);
    if k < |watches| {
      var rest := watches[..k] + watches[k + 1..];
      forall x ensures x in rest <==> x in watches && x != w {
        if x in watches && x != w {
          var i :| 0 <= i < |watches| && watches[i] == x;
          assert rest[if i < k then i else i - 1] == x;
        }
      }
    }
  }

  // ---------- The debugger's reads and writes ----------

  /** `count` bytes read with privilege. */
  function Peek(m: Mem, addr: u32, count: nat): (seq<byte>, Mem)
    requires GUEST_MIN_MEM <= addr && addr + count <= GUEST_MAX_MEM
    decreases count
  {
    if count == 0 then ([], m)
    else
      var (b, m1) := ReadMem(m, addr, Byte, true);
      var (rest, m2) := Peek(m1, addr + 1, count - 1);
      ([b.value % 0x100] + rest, m2)
  }

  /** Where the program stops reading: the sum of start and length wraps around. */
  function ReadEnd(addr: u32, len: nat): nat {
    Min(Wrap(addr + len), GUEST_MAX_MEM)
  }

  /** How many bytes it reads. */
  function Readable(addr: u32, len: nat): nat {
    if ReadEnd(addr, len) > addr then ReadEnd(addr, len) - addr else 0
  }

  /** How many it says it has read. */
  function Replied(addr: u32, len: nat): nat {
    Wrap(ReadEnd(addr, len) - addr)
  }

  /** A read of guest memory that does not reach past the end of the address space reads what
      was asked for, as far as guest memory goes, and says so; one that does, with a length that
      fits a word, reads nothing and says that it has read it all. */
  lemma ReplyIff(addr: u32, len: nat)
    requires GUEST_MIN_MEM <= addr < GUEST_MAX_MEM && len < 0x1_0000_0000
    ensures Replied(addr, len) == Readable(addr, len) <==> addr + len < 0x1_0000_0000
    ensures addr + len < 0x1_0000_0000 ==> Readable(addr, len) == Min(len, GUEST_MAX_MEM - addr)
    ensures addr + len >= 0x1_0000_0000 ==> Readable(addr, len) == 0 && Replied(addr, len) == len
  {
    if addr + len >= 0x1_0000_0000 {
      assert Wrap(addr + len) == addr + len - 0x1_0000_0000;
      assert Wrap(len - 0x1_0000_0000) == len;
    }
  }

  /** It never reads more than the buffer holds, nor past guest memory. */
  lemma ReadableFits(addr: u32, len: nat)
    ensures Readable(addr, len) <= len
    ensures Readable(addr, len) > 0 ==> addr + Readable(addr, len) <= GUEST_MAX_MEM
  {
    if addr + len >= 0x1_0000_0000 && Wrap(addr + len) > addr {
      assert addr + len == 0x1_0000_0000 * ((addr + len) / 0x1_0000_0000) + Wrap(addr + len);
    }
  }

  /** `data` written with privilege, up to the first byte outside guest memory. */
  function Poke(m: Mem, addr: u32, data: seq<byte>): (bool, Mem)
    decreases data
  {
    if data == [] then (true, m)
    else
      var (ok, m1) := WriteMem(m, addr, Byte, data[0], true);
      if ok then Poke(m1, addr + 1, data[1..]) else (false, m1)
  }

  /** Peeking yields the bytes of memory and leaves the words, the books, the history and the
      watchpoints alone. */
  lemma {:induction false} PeekSees(m: Mem, addr: u32, count: nat)
    requires GUEST_MIN_MEM <= addr && addr + count <= GUEST_MAX_MEM
    ensures |Peek(m, addr, count).0| == count
    ensures Shows(m, addr, Peek(m, addr, count).0)
    ensures SameWords(m, Peek(m, addr, count).1)
    ensures Peek(m, addr, count).1 == m.(pages := Peek(m, addr, count).1.pages)
    decreases count
  {
    hide ReadMem, ByteAt, SameWords, InGuest, Shows, Peek;
    PeekFirst(m, addr, count);
    if count == 0 {
      NothingShown(m, addr);
    } else {
      var (b, m1) := ReadMem(m, addr, Byte, true);
      PeekOne(m, addr);
      PeekSees(m1, addr + 1, count - 1);
      var (rest, m2) := Peek(m1, addr + 1, count - 1);
      SameWordsThrough(m, m1, m2);
      ShowsOneMore(m, m1, addr, b.value, rest);
    }
  }

  /** A peek is its first byte, and then the rest. */
  lemma PeekFirst(m: Mem, addr: u32, count: nat)
    requires GUEST_MIN_MEM <= addr && addr + count <= GUEST_MAX_MEM
    ensures count == 0 ==> Peek(m, addr, count) == ([], m)
    ensures count > 0 ==>
              var (b, m1) := ReadMem(m, addr, Byte, true);
              && InGuest(addr) && b.Some? && b.value < 0x100
              && Peek(m, addr, count) ==
                 ([b.value] + Peek(m1, addr + 1, count - 1).0, Peek(m1, addr + 1, count - 1).1)
  {
    if count > 0 { PeekOne(m, addr); }
    hide ReadMem, SameWords, ByteAt;
  }

  lemma NothingShown(m: Mem, addr: u32)
    ensures Shows(m, addr, []) && SameWords(m, m)
  {
    SameWordsSelf(m);
  }

  /** How many of `len` bytes from `addr` on lie in guest memory before the first that does not. */
  function Writable(addr: u32, len: nat): nat {
    if !InGuest(addr) then 0
    else if addr + len <= GUEST_MAX_MEM + 1 then len
    else GUEST_MAX_MEM + 1 - addr
  }

  /** Poking is granted exactly when all the bytes lie in guest memory, and leaves the books, the
      history, the watchpoints and the trigger alone. */
  lemma {:induction false} PokeGranted(m: Mem, addr: u32, data: seq<byte>)
    ensures Poke(m, addr, data).0 <==> Writable(addr, |data|) == |data|
    ensures Poke(m, addr, data).1 == m.(pages := Poke(m, addr, data).1.pages)
    decreases data
  {
    hide Poke, WriteMem, ByteAt, Writable, InGuest;
    PokeFirst(m, addr, data);
    if data != [] {
      PokeKeeps(m, addr, data[0]);
      if InGuest(addr) {
        PokeGranted(WriteMem(m, addr, Byte, data[0], true).1, addr + 1, data[1..]);
      }
    }
  }

  /** A poke is its first byte, and then the rest when that was granted. */
  lemma PokeFirst(m: Mem, addr: u32, data: seq<byte>)
    ensures InGuest(addr) ==> addr <= GUEST_MAX_MEM
    ensures Writable(addr, |data|) ==
            if data != [] && InGuest(addr) then 1 + Writable(addr + 1, |data| - 1) else 0
    ensures Poke(m, addr, data) ==
            if data == [] then (true, m)
            else if InGuest(addr) then Poke(WriteMem(m, addr, Byte, data[0], true).1, addr + 1, data[1..])
            else (false, m)
  {
    if data != [] {
      PokeKeeps(m, addr, data[0]);
      WritableTail(addr, |data|);
    }
    hide WriteMem, Writable;
  }

  /** Poking writes the bytes up to the first outside guest memory, and changes no other. */
  lemma {:induction false} PokeWrites(m: Mem, addr: u32, data: seq<byte>, a: u32)
    ensures ByteAt(Poke(m, addr, data).1, a) == Poked(m, addr, data, a)
    decreases data
  {
    PokeFirst(m, addr, data);
    hide Poke, WriteMem, ByteAt, Writable, InGuest;
    if data != [] && InGuest(addr) {
      PokeOne(m, addr, data[0]);
      var m1 := WriteMem(m, addr, Byte, data[0], true).1;
      PokeWrites(m1, addr + 1, data[1..], a);
      PokedTail(m, m1, addr, data, a);
    }
  }

  lemma PokedTail(m: Mem, m1: Mem, addr: u32, data: seq<byte>, a: u32)
    requires InGuest(addr) && data != [] && ByteAt(m1, a) == if a == addr then data[0] else ByteAt(m, a)
    ensures Poked(m1, addr + 1, data[1..], a) == Poked(m, addr, data, a)
  {
    hide ByteAt;
    WritableTail(addr, |data|);
  }

  lemma WritableTail(addr: u32, len: nat)
    requires len > 0
    ensures Writable(addr, len) == if InGuest(addr) then 1 + Writable(addr + 1, len - 1) else 0
  {
  }

  /** The byte at `a` after a poke. */
  function Poked(m: Mem, addr: u32, data: seq<byte>, a: u32): byte {
    if addr <= a < addr + Writable(addr, |data|) then data[a - addr] else ByteAt(m, a)
  }

  lemma PokeOne(m: Mem, addr: u32, b: byte)
    ensures var (ok, m1) := WriteMem(m, addr, Byte, b, true);
            && ok == InGuest(addr) && m1 == m.(pages := m1.pages)
            && forall a: u32 :: ByteAt(m1, a) == if ok && a == addr then b else ByteAt(m, a)
  {
    hide WriteMem, ByteAt, InGuest;
    PokeKeeps(m, addr, b);
    if InGuest(addr) {
      ByteStore(m, addr, b, true);
    }
  }

  lemma PokeKeeps(m: Mem, addr: u32, b: byte)
    ensures var (ok, m1) := WriteMem(m, addr, Byte, b, true);
            ok == InGuest(addr) && m1 == m.(pages := m1.pages) && (!ok ==> m1 == m)
  {
    hide Stored;
  }

  lemma ShowsOneMore(m: Mem, m1: Mem, addr: u32, b: byte, rest: seq<byte>)
    requires SameWords(m, m1) && addr < GUEST_MAX_MEM && b == ByteAt(m, addr) && Shows(m1, addr + 1, rest)
    ensures Shows(m, addr, [b] + rest)
  {
    hide ByteAt, SameWords;
    forall i | 0 <= i < 1 + |rest| ensures ShowsAt(m, addr, [b] + rest, i) {
      if i > 0 {
        assert ShowsAt(m1, addr + 1, rest, i - 1);
        SameWordsByte(m, m1, addr + i);
      }
    }
  }

  lemma PeekOne(m: Mem, addr: u32)
    requires InGuest(addr)
    ensures var (b, m1) := ReadMem(m, addr, Byte, true);
            && b.Some? && b.value == ByteAt(m, addr) && SameWords(m, m1) && m1 == m.(pages := m1.pages)
  {
    var m1 := ReadMem(m, addr, Byte, true).1;
    forall p: Page, i: nat | i < 256 ensures WordAt(m1, p, i) == WordAt(m, p, i) {
      WordsAfterRead(m, addr, Byte, true, p, i);
    }
    WordsAfterRead(m, addr, Byte, true, 0, 0);
  }

  // ---------- Sessions ----------

  datatype Command =
    | Resume(mode: ExecMode, polls: Polls, fuel: nat)
    | ReadMemory(addr: u32, len: nat)
    | InsertWatch(watch: Watch)
    | DeleteWatch(watch: Watch)
    | InsertBreak(pc: u32)
    | DeleteBreak(pc: u32)
    | PressInterrupt

  datatype Session = Session(machine: M.Machine, mode: ExecMode, breakpoints: set<u32>)

  function WithWatches(s: Session, watches: seq<Watch>): Session {
    s.(machine := s.machine.(mem := s.machine.mem.(watches := watches)))
  }

  /** One command, with what the steps it makes return; `None` when its wait does not return
      within the given number of steps. */
  function Apply(host: Host, s: Session, c: Command): Option<(Session, seq<StepResult>)> {
    match c
    case Resume(mode, polls, fuel) =>
      (match Wait(host, s.machine, mode, s.breakpoints, polls, fuel)
       case None => None
       case Some(r) => Some((Session(r.machine, mode, s.breakpoints), Results(host, s.machine, r.steps))))
    case ReadMemory(addr, len) =>
      if GUEST_MIN_MEM <= addr < GUEST_MAX_MEM then
        Some((s.(machine := s.machine.(mem := Peek(s.machine.mem, addr, Readable(addr, len)).1)), []))
      else Some((s, []))
    case InsertWatch(w) => Some((WithWatches(s, AddWatchpoint(s.machine.mem.watches, w).1), []))
    case DeleteWatch(w) => Some((WithWatches(s, RemoveWatchpoint(s.machine.mem.watches, w).1), []))
    case InsertBreak(pc) => Some((s.(breakpoints := s.breakpoints + {pc}), []))
    case DeleteBreak(pc) => Some((s.(breakpoints := s.breakpoints - {pc}), []))
    case PressInterrupt => Some((s.(mode := Interrupted), []))
  }

  function Results(host: Host, m: M.Machine, n: nat): (s: seq<StepResult>)
    ensures |s| == n
  {
    seq(n, (k: nat) => ResultOf(host, m, k))
  }

  function ApplyAll(host: Host, s: Session, commands: seq<Command>): Option<(Session, seq<StepResult>)>
    decreases commands
  {
    if commands == [] then Some((s, []))
    else
      match Apply(host, s, commands[0])
      case None => None
      case Some((s1, results)) =>
        match ApplyAll(host, s1, commands[1..])
        case None => None
        case Some((s2, more)) => Some((s2, results + more))
  }

  lemma {:induction false} TwinsAfter(host: Host, a: M.Machine, b: M.Machine, n: nat)
    requires Twins(a, b)
    ensures Twins(After(host, a, n), After(host, b, n))
  {
    hide Twins, M.Step;
    if n > 0 {
      TwinsAfter(host, a, b, n - 1);
      StepTwins(host, After(host, a, n - 1), After(host, b, n - 1));
    }
  }

  /** A wait leaves the machine where that many single steps leave it. */
  lemma WaitIsSteps(host: Host, m: M.Machine, mode: ExecMode, breakpoints: set<u32>, polls: Polls, fuel: nat)
    ensures var r := Wait(host, m, mode, breakpoints, polls, fuel);
            r.Some? ==> r.value.machine == After(host, m, r.value.steps)
  {
    hide M.Step, PolledAt, StoppedAt;
    LoopReturns(host, m, mode, breakpoints, polls, 0, fuel);
  }

  /** What the steps of a session return is what the undebugged steps return, watchpoint
      reports apart. */
  ghost predicate SameResults(host: Host, plain: M.Machine, results: seq<StepResult>) {
    forall k | 0 <= k < |results| :: Unwatched(results[k]) == Unwatched(ResultOf(host, plain, k))
  }

  lemma ApplyTwins(host: Host, plain: M.Machine, s: Session, c: Command)
    requires Twins(plain, s.machine) && Apply(host, s, c).Some?
    ensures var (s', results) := Apply(host, s, c).value;
            Twins(After(host, plain, |results|), s'.machine) && SameResults(host, plain, results)
  {
    hide SameWords, M.Step, Wait, Unwatched, Peek;
    match c {
      case Resume(mode, polls, fuel) =>
        WaitIsSteps(host, s.machine, mode, s.breakpoints, polls, fuel);
        var n := Wait(host, s.machine, mode, s.breakpoints, polls, fuel).value.steps;
        TwinsAfter(host, plain, s.machine, n);
        forall k | 0 <= k < n
          ensures Unwatched(ResultOf(host, s.machine, k)) == Unwatched(ResultOf(host, plain, k))
        {
          TwinsAfter(host, plain, s.machine, k);
          StepTwins(host, After(host, plain, k), After(host, s.machine, k));
        }
      case ReadMemory(addr, len) =>
        if GUEST_MIN_MEM <= addr < GUEST_MAX_MEM {
          PeekSees(s.machine.mem, addr, Readable(addr, len));
          SameWordsThrough(plain.mem, s.machine.mem, Peek(s.machine.mem, addr, Readable(addr, len)).1);
        }
      case InsertWatch(w) =>
        SamePages(plain.mem, s.machine.mem, plain.mem, Apply(host, s, c).value.0.machine.mem);
      case DeleteWatch(w) =>
        SamePages(plain.mem, s.machine.mem, plain.mem, Apply(host, s, c).value.0.machine.mem);
      case _ =>
    }
  }

  /**
   Debug transparency over whole sessions: after any commands, the debugged machine is a twin
   of the undebugged one after as many steps (the same registers, bytes, streams, history and
   cycle books), and step by step the two returned the same, watchpoint reports apart.
   */
  lemma {:induction false} SessionTransparent(host: Host, plain: M.Machine, s: Session, commands: seq<Command>)
    requires Twins(plain, s.machine) && ApplyAll(host, s, commands).Some?
    ensures var (s', results) := ApplyAll(host, s, commands).value;
            Twins(After(host, plain, |results|), s'.machine) && SameResults(host, plain, results)
    decreases commands
  {
    hide Twins, M.Step, Apply, Unwatched;
    if commands != [] {
      ApplyTwins(host, plain, s, commands[0]);
      var (s1, results) := Apply(host, s, commands[0]).value;
      var next := After(host, plain, |results|);
      SessionTransparent(host, next, s1, commands[1..]);
      var (s2, more) := ApplyAll(host, s1, commands[1..]).value;
      AfterAfter(host, plain, |results|, |more|);
      forall k | 0 <= k < |results + more|
        ensures Unwatched((results + more)[k]) == Unwatched(ResultOf(host, plain, k))
      {
        if k >= |results| { AfterAfter(host, plain, |results|, k - |results|); }
      }
    }
  }

  // ---------- Running to completion ----------

  /** A result that ends the run after a disconnect; watchpoints no longer do. */
  predicate Final(r: StepResult) {
    !(r.Ran? && (r.exit.None? || r.exit.value.HwWatchPoint?))
  }

  /** The loop after a disconnect, or `None` when it has not ended within `fuel` steps. */
  function RunOn(host: Host, m: M.Machine, fuel: nat): Option<(StepResult, M.Machine, nat)>
    decreases fuel
  {
    if fuel == 0 then None
    else
      var (r, m') := M.Step(host, m);
      if r == Hung then None
      else if Final(r) then Some((r, m', 1))
      else
        match RunOn(host, m', fuel - 1)
        case None => None
        case Some((last, end, n)) => Some((last, end, n + 1))
  }

  lemma {:induction false} RunOnTwins(host: Host, a: M.Machine, b: M.Machine, fuel: nat)
    requires Twins(a, b)
    ensures RunOn(host, a, fuel).Some? == RunOn(host, b, fuel).Some?
    ensures RunOn(host, b, fuel).Some? ==>
              && RunOn(host, a, fuel).value.0 == RunOn(host, b, fuel).value.0
              && RunOn(host, a, fuel).value.2 == RunOn(host, b, fuel).value.2
              && Twins(RunOn(host, a, fuel).value.1, RunOn(host, b, fuel).value.1)
    decreases fuel
  {
    hide Twins, M.Step;
    if fuel > 0 {
      StepTwins(host, a, b);
      RunOnTwins(host, M.Step(host, a).1, M.Step(host, b).1, fuel - 1);
    }
  }

  /** Steps that do not end the run can be made before running on. */
  lemma {:induction false} RunOnAfter(host: Host, m: M.Machine, n: nat, fuel: nat)
    requires forall k | 0 <= k < n :: !Final(ResultOf(host, m, k))
    requires RunOn(host, After(host, m, n), fuel).Some?
    ensures var (r, end, k) := RunOn(host, After(host, m, n), fuel).value;
            RunOn(host, m, n + fuel) == Some((r, end, n + k))
    decreases n
  {
    hide M.Step;
    if n > 0 {
      assert !Final(ResultOf(host, m, 0));
      assert M.Step(host, m) == (ResultOf(host, m, 0), After(host, m, 1)) by {
        assert After(host, m, 0) == m;
      }
      AfterAfter(host, m, 1, n - 1);
      forall k | 0 <= k < n - 1 ensures !Final(ResultOf(host, After(host, m, 1), k)) {
        AfterAfter(host, m, 1, k);
        assert !Final(ResultOf(host, m, k + 1));
      }
      RunOnAfter(host, After(host, m, 1), n - 1, fuel);
    }
  }

  /**
   A session that is cut short by a disconnect before the program ends, and then run on,
   ends as the undebugged program does: with the same result, after the same number of steps
   in all, in a machine with the same registers, bytes, streams and cycle books.
   */
  lemma DisconnectTransparent(host: Host, plain: M.Machine, s: Session, commands: seq<Command>, fuel: nat,
                              s': Session, results: seq<StepResult>, last: StepResult, end: M.Machine, n: nat)
    requires Twins(plain, s.machine) && ApplyAll(host, s, commands) == Some((s', results))
    requires forall k | 0 <= k < |results| :: !Final(results[k])
    requires RunOn(host, s'.machine, fuel) == Some((last, end, n))
    ensures exists twin :: Twins(twin, end) && RunOn(host, plain, |results| + fuel) == Some((last, twin, |results| + n))
  {
    hide Twins, M.Step, Apply, ApplyAll, RunOn;
    SessionTransparent(host, plain, s, commands);
    forall k | 0 <= k < |results| ensures !Final(ResultOf(host, plain, k)) {
      assert !Final(results[k]);
      assert Unwatched(results[k]) == Unwatched(ResultOf(host, plain, k));
    }
    RunOnTwins(host, After(host, plain, |results|), s'.machine, fuel);
    RunOnAfter(host, plain, |results|, fuel);
  }
}
