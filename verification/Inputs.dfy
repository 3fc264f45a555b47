/** What the guest is given of standard input over whole runs, and exactly when some is lost. */
module Inputs {
  import opened Words
  import opened SessionCycle
  import opened PagedMemory
  import opened FlatMemory
  import opened Machine
  import opened Steps
  import opened ByteRuns
  import opened Streams
  import opened Outputs
  import opened Hanging
  import opened Calls

  // ---------- What a step consumes ----------

  /** The step at `m` is a software call that carries out SYS_READ. */
  predicate IsRead(host: Host, m: Machine) {
    IsEcallOf(m, 2) && CarriesOut(host, m, SysRead)
  }

  /** SYS_READ finds enough input for the words of its buffer, and asks for a word more at most. */
  predicate Satisfied(m: Machine) {
    ReplySize(m) <= Available(m.io) && Reg(m, REG_A4) <= ReplySize(m) + 4
  }

  /** The bytes that SYS_READ takes, whether it completes or not. */
  function Consumed(m: Machine): nat {
    if Reg(m, REG_A3) != STDIN || Reg(m, REG_A4) < ReplySize(m) then 0
    else if Satisfied(m) then Min(Available(m.io), Reg(m, REG_A4))
    else Min(Available(m.io), ReplySize(m))
  }

  lemma ReadConsumes(m: Machine)
    ensures DoRead(ReplySize(m), m).1.io == m.io.(cursor := m.io.cursor + Consumed(m))
  {
    hide Padded, Compose;
  }

  lemma SoftwareConsumes(host: Host, m: Machine)
    ensures EcallSoftware(host, m).1.io.cursor ==
            m.io.cursor + if CarriesOut(host, m, SysRead) then Consumed(m) else 0
  {
    hide ReadName, SyscallOf, HandleSyscall, WriteBytes, Consumed, DoRead;
    var (name, mem) := ReadName(m.mem, Reg(m, REG_A2));
    if name.Some? {
      var m0, call := m.(mem := mem), SyscallOf(name.value);
      if call == SysRead {
        ReadIsRead(host, m0);
        ReadConsumes(m0);
        SameConsumed(m, mem);
      } else {
        OtherCallsKeepCursor(host, call, ReplySize(m), m0);
      }
    }
  }

  lemma ReadIsRead(host: Host, m: Machine)
    ensures HandleSyscall(host, SysRead, ReplySize(m), m) == DoRead(ReplySize(m), m)
  {
    hide DoRead;
  }

  lemma SameConsumed(m: Machine, mem: Mem)
    ensures Consumed(m.(mem := mem)) == Consumed(m)
  {
  }

  /** Whatever a step returns, what it takes from standard input is foreseen: SYS_READ takes what
      it finds, up to what it asks for, and nothing else takes any. */
  lemma StepConsumes(host: Host, m: Machine)
    ensures Step(host, m).1.io.cursor == m.io.cursor + if IsRead(host, m) then Consumed(m) else 0
  {
    hide Step, ReadMem, EcallSoftware, CarriesOut, Consumed, IsEcall, OpcodeCycle, Body, SyscallOf, ReadName;
    if IsEcallOf(m, 2) {
      SoftwareBody(host, m);
      SoftwareConsumes(host, Start(m));
      ForeseenAtStart(host, m);
      StartConsumed(m);
    } else {
      OtherStepsKeepCursor(host, m);
    }
  }

  lemma SoftwareBody(host: Host, m: Machine)
    requires IsEcallOf(m, 2)
    ensures Step(host, m).1.io == EcallSoftware(host, Start(m)).1.io
  {
    EcallIsLegal(Insn(m).value);
    StepIo(host, m);
    hide Step, ReadMem, EcallSoftware, IsEcall, OpcodeCycle;
  }

  lemma StartConsumed(m: Machine)
    ensures Start(m).io == m.io && Consumed(Start(m)) == Consumed(m)
  {
    hide ReadMem;
  }

  // ---------- What a step loses ----------

  /** SYS_READ at `m` puts all that it takes where the guest can see it, and gets through: it is
      satisfied, its buffer is not null unless empty and lies in guest memory, and there is room in
      a segment for its charge. */
  predicate Delivers(m: Machine)
    requires m.mem.ledger.Some?
  {
    && Satisfied(m) && Visible(m) && ReplyFits(m)
    && NameAt(m).Some? && !NoRoom(m.mem.ledger.value, SoftwareCharge(m, NameAt(m).value))
  }

  /** The step at `m` will take input that the guest does not get. */
  predicate Loses(host: Host, m: Machine)
    requires m.mem.ledger.Some?
  {
    IsRead(host, m) && Consumed(m) > 0 && !Delivers(m)
  }

  lemma ReadRunsIff(host: Host, m: Machine)
    requires m.mem.ledger.Some? && IsRead(host, m) && Consumed(m) > 0
    ensures Step(host, m).0.Ran? && Visible(m) <==> Delivers(m)
  {
    hide Step, NoRoom, RunFits, SoftwareCharge, IsEcallOf, SyscallOf, ReadName;
    SoftwareHungIff(host, m);
  }

  /** The condition is exact: it holds before a step if and only if the step advances the cursor,
      and does not complete or stores the words nowhere. */
  lemma LosesIff(host: Host, m: Machine)
    requires m.mem.ledger.Some?
    ensures Loses(host, m)
       <==> Step(host, m).1.io.cursor != m.io.cursor && !(Step(host, m).0.Ran? && Visible(m))
  {
    hide Step, Delivers, IsRead, Consumed, Visible;
    StepConsumes(host, m);
    if IsRead(host, m) && Consumed(m) > 0 {
      ReadRunsIff(host, m);
    }
  }

  /** What a step gives the guest of standard input, seen from the guest's side. */
  function GuestInput(host: Host, m: Machine): seq<byte> {
    if IsCall(host, m, SysRead) && Step(host, m).0.Ran? && Visible(m) then InHand(m, Step(host, m).1) else []
  }

  lemma StepGives(host: Host, m: Machine)
    requires m.io.cursor <= |m.io.stdin| && m.mem.ledger.Some?
    ensures var m' := Step(host, m).1;
            && m.io.cursor <= m'.io.cursor <= |m.io.stdin| && m'.io.stdin == m.io.stdin && m'.mem.ledger.Some?
            && GuestInput(host, m) == (if Loses(host, m) then [] else m.io.stdin[m.io.cursor..m'.io.cursor])
            && (Loses(host, m) ==> m.io.cursor < m'.io.cursor)
  {
    hide Step, IsCall, InHand, Loses, Visible;
    StepGrows(host, m);
    StepKeepsWatches(host, m);
    LosesIff(host, m);
    if !IsCall(host, m, SysRead) {
      OtherStepsKeepCursor(host, m);
    } else if Step(host, m).0.Ran? && Visible(m) {
      StepDelivers(host, m);
    }
  }

  // ---------- Whole runs, with the host writing ----------

  /** The host appends to standard input. */
  function Feed(m: Machine, data: seq<byte>): Machine {
    m.(io := m.io.(stdin := m.io.stdin + data))
  }

  /** A run in which the host writes before each step. */
  function FedRun(host: Host, m: Machine, feeds: seq<seq<byte>>): Machine
    decreases |feeds|
  {
    if feeds == [] then m else Step(host, Feed(FedRun(host, m, feeds[..|feeds| - 1]), feeds[|feeds| - 1])).1
  }

  /** All that the guest is given over a run. */
  function RunInput(host: Host, m: Machine, feeds: seq<seq<byte>>): seq<byte>
    decreases |feeds|
  {
    if feeds == [] then []
    else
      var init, last := feeds[..|feeds| - 1], feeds[|feeds| - 1];
      RunInput(host, m, init) + GuestInput(host, Feed(FedRun(host, m, init), last))
  }

  /** No step of the run loses input. */
  ghost predicate NothingLost(host: Host, m: Machine, feeds: seq<seq<byte>>)
    decreases |feeds|
  {
    feeds == [] ||
    var init, last := feeds[..|feeds| - 1], feeds[|feeds| - 1];
    var before := Feed(FedRun(host, m, init), last);
    NothingLost(host, m, init) && before.mem.ledger.Some? && !Loses(host, before)
  }

  function ConcatAll(feeds: seq<seq<byte>>): seq<byte> {
    if feeds == [] then [] else ConcatAll(feeds[..|feeds| - 1]) + feeds[|feeds| - 1]
  }

  /** One step more: `got` is what the guest had of `old`, `given` what the step gives it. */
  lemma OneMore(stdin: seq<byte>, fed: seq<byte>, last: seq<byte>, start: nat, now: nat, next: nat,
                got: seq<byte>, given: seq<byte>, kept: bool, lost: bool)
    requires start <= now <= |stdin + fed| && now <= next <= |stdin + fed + last|
    requires |got| <= now - start && (got == (stdin + fed)[start..now] <==> kept) && (kept <==> |got| == now - start)
    requires given == (if lost then [] else (stdin + fed + last)[now..next]) && (lost ==> now < next)
    ensures stdin + fed + last == stdin + (fed + last)
    ensures |got + given| <= next - start
    ensures got + given == (stdin + fed + last)[start..next] <==> kept && !lost
    ensures kept && !lost <==> |got + given| == next - start
  {
    assert (stdin + fed)[start..now] == (stdin + fed + last)[start..now];
    SliceSplit(stdin + fed + last, start, now, next);
  }

  lemma RunUnfolds(host: Host, m: Machine, feeds: seq<seq<byte>>)
    requires feeds != []
    ensures var init, last := feeds[..|feeds| - 1], feeds[|feeds| - 1];
            var fed := Feed(FedRun(host, m, init), last);
            && FedRun(host, m, feeds) == Step(host, fed).1
            && RunInput(host, m, feeds) == RunInput(host, m, init) + GuestInput(host, fed)
            && ConcatAll(feeds) == ConcatAll(init) + last
            && (NothingLost(host, m, feeds)
                <==> NothingLost(host, m, init) && fed.mem.ledger.Some? && !Loses(host, fed))
  {
    hide Step, GuestInput, Loses;
  }

  /**
   Input conservation: over any run, failed steps included, with the host writing in between,
   standard input is what it was with all that the host wrote after it, and what all the SYS_READ
   calls gave the guest, end to end, is standard input from where the cursor was to where it is,
   exactly when no step was about to lose any.
   */
  lemma {:induction false} InputConserved(host: Host, m: Machine, feeds: seq<seq<byte>>)
    requires m.io.cursor <= |m.io.stdin| && m.mem.ledger.Some?
    ensures FedRun(host, m, feeds).mem.ledger.Some?
    ensures var io := FedRun(host, m, feeds).io;
            && io.stdin == m.io.stdin + ConcatAll(feeds)
            && m.io.cursor <= io.cursor <= |io.stdin|
            && |RunInput(host, m, feeds)| <= io.cursor - m.io.cursor
            && (RunInput(host, m, feeds) == io.stdin[m.io.cursor..io.cursor] <==> NothingLost(host, m, feeds))
            && (NothingLost(host, m, feeds) <==> |RunInput(host, m, feeds)| == io.cursor - m.io.cursor)
    decreases |feeds|
  {
    hide Step, Loses, GuestInput, FedRun, RunInput, NothingLost, ConcatAll;
    if feeds == [] {
      NoFeeds(host, m);
    } else {
      var init, last := feeds[..|feeds| - 1], feeds[|feeds| - 1];
      RunUnfolds(host, m, feeds);
      InputConserved(host, m, init);
      var fed := Feed(FedRun(host, m, init), last);
      StepGives(host, fed);
      OneMore(m.io.stdin, ConcatAll(init), last, m.io.cursor, fed.io.cursor, Step(host, fed).1.io.cursor,
              RunInput(host, m, init), GuestInput(host, fed), NothingLost(host, m, init), Loses(host, fed));
    }
  }

  lemma NoFeeds(host: Host, m: Machine)
    ensures FedRun(host, m, []) == m && RunInput(host, m, []) == [] && NothingLost(host, m, []) && ConcatAll([]) == []
    ensures m.io.stdin + [] == m.io.stdin
  {
  }

  // ---------- A step that loses input ----------

  function NameByte(name: seq<byte>, k: nat): byte {
    if k < |name| then name[k] else 0
  }

  /** A page that starts with `name`. */
  function NamePage(name: seq<byte>): PageWords {
    seq(256, (i: nat) requires i < 256 =>
      Compose(NameByte(name, 4 * i), NameByte(name, 4 * i + 1), NameByte(name, 4 * i + 2), NameByte(name, 4 * i + 3)))
  }

  /** An ECALL at 0x400, and the name of SYS_READ at 0x800. */
  function ReaderMemory(): Mem {
    BLANK.(pages := map[1 := ZeroPage()[0 := 0x73], 2 := NamePage(SyscallName("SYS_READ"))], ledger := Some(EMPTY))
  }

  /** A machine about to read one word into a null pointer, with four bytes waiting. */
  function Reader(): Machine {
    var regs: Registers := seq(32, _ => 0)[REG_T0 := 2][REG_A1 := 1][REG_A2 := 0x800][REG_A4 := 4];
    Machine(Hart(0x400, regs), ReaderMemory(), Io([1, 2, 3, 4], 0, [], [], [], 0), map[], [])
  }

  lemma NamePageByte(name: seq<byte>, k: nat)
    requires k < 1024
    ensures ByteOf(NamePage(name)[k / 4], k % 4) == NameByte(name, k)
  {
    hide Compose, ByteOf, NameByte;
    var i := k / 4;
    WordBytes(NameByte(name, 4 * i), NameByte(name, 4 * i + 1), NameByte(name, 4 * i + 2), NameByte(name, 4 * i + 3));
    assert k == 4 * i + k % 4;
  }

  lemma ReaderByte(k: nat)
    requires k < 1024
    ensures ByteAt(ReaderMemory(), 0x800 + k) == NameByte(SyscallName("SYS_READ"), k)
  {
    AddressOf(k);
    hide SyscallName, NamePage, PageOf, OffsetOf, NameByte, ByteOf;
    NamePageByte(SyscallName("SYS_READ"), k);
  }

  lemma AddressOf(k: nat)
    requires k < 1024
    ensures PageOf(0x800 + k) == 2 && OffsetOf(0x800 + k) == k
  {
  }

  /** The characters of a string are ASCII, and none is zero. */
  predicate Printable(s: string) {
    forall i | 0 <= i < |s| :: 0 < s[i] as int < 0x100
  }

  lemma AsciiPrintable(s: string)
    requires Printable(s)
    ensures forall i | 0 <= i < |s| :: Ascii(s)[i] != 0
  {
  }

  lemma ReaderName()
    ensures forall i | 0 <= i < |SyscallName("SYS_READ")| :: SyscallName("SYS_READ")[i] != 0
    ensures |SyscallName("SYS_READ")| == 42
  {
    assert Printable("risc0_zkvm_platform::syscall::nr::") && Printable("SYS_READ");
    AsciiPrintable("risc0_zkvm_platform::syscall::nr::");
    AsciiPrintable("SYS_READ");
    hide Ascii;
  }

  lemma NameLength(s: string)
    ensures |SyscallName(s)| == 34 + |s|
  {
  }

  /** The names before SYS_READ in the dispatch are longer. */
  lemma ReaderCalls()
    ensures SyscallOf(SyscallName("SYS_READ")) == SysRead
  {
    hide SyscallName;
    NameLength("SYS_READ");
    NameLength("SYS_RANDOM");
    NameLength("SYS_CYCLE_COUNT");
    NameLength("SYS_PANIC");
    NameLength("SYS_GETENV");
  }

  lemma ReaderNames()
    ensures NameAt(Reader()) == Some(SyscallName("SYS_READ"))
  {
    ReaderName();
    var name := SyscallName("SYS_READ");
    hide SyscallName, ByteAt, ReadName, ReaderMemory;
    forall i | 0 <= i <= |name| ensures CharAt(ReaderMemory(), 0x800, name, i) {
      ReaderByte(i);
    }
    NameFoundIff(ReaderMemory(), 0x800, name);
  }

  lemma ReaderFetches()
    ensures Insn(Reader()) == Some(0x73) && IsEcall(0x73)
  {
    hide NamePage, SyscallName;
  }

  /** Its step takes the four bytes, and the guest gets none of them. */
  lemma ReaderLoses(host: Host)
    requires host.validUtf8(SyscallName("SYS_READ"))
    ensures Loses(host, Reader())
    ensures Step(host, Reader()).1.io.cursor == 4 && GuestInput(host, Reader()) == []
  {
    ReaderFetches();
    ReaderNames();
    ReaderCalls();
    hide Step, ReaderMemory, SyscallName, ReadName, SyscallOf, NoRoom, ReadMem, InHand;
    assert IsRead(host, Reader()) && Consumed(Reader()) == 4 && !Visible(Reader());
    StepConsumes(host, Reader());
  }
}
