/** Each system call by the text of its name in memory: what a completed one leaves in the
    registers, in the reply, and in the streams. Registers are named by number: 5 is T0, and 10 to
    15 are A0 to A5. */
module SystemCalls {
  import opened Words
  import opened SessionCycle
  import opened PagedMemory
  import opened FlatMemory
  import opened Machine
  import opened Transparency
  import opened ByteRuns
  import opened Steps
  import opened Streams
  import opened Outputs
  import opened Hashing
  import opened Bigint
  import opened Hanging
  import opened Calls
  import opened Effects
  import Trace

  // ---------- Names ----------

  /** The text stands at A2, followed by a zero, in guest memory. */
  ghost predicate NamedAt(m: Machine, text: string) {
    var at := m.hart.regs[12];
    && GUEST_MIN_MEM <= at && at + |text| <= GUEST_MAX_MEM
    && (forall i | 0 <= i < |text| :: TextAt(m, text, i))
    && ByteAt(m.mem, at + |text|) == 0
  }

  ghost predicate TextAt(m: Machine, text: string, i: nat)
    requires i < |text| && m.hart.regs[12] + |text| <= GUEST_MAX_MEM
  {
    0 < text[i] as int < 0x100 && ByteAt(m.mem, m.hart.regs[12] + i) == text[i] as int
  }

  /** The step at `m` is a software call by this name. */
  ghost predicate CallsByName(m: Machine, text: string) {
    CallsNumber(m, 2) && NamedAt(m, text)
  }

  /** The name is what the scan finds. */
  lemma NamedIsFound(m: Machine, text: string)
    requires NamedAt(m, text)
    ensures NameAt(m) == Some(Ascii(text))
  {
    hide ByteAt, ReadName;
    var name := Ascii(text);
    forall i | 0 <= i <= |name| ensures CharAt(m.mem, m.hart.regs[12], name, i) {
      if i < |name| { assert TextAt(m, text, i); }
    }
    NameFoundIff(m.mem, m.hart.regs[12], name);
  }

  const PREFIX := "risc0_zkvm_platform::syscall::nr::"

  lemma FullName(s: string)
    ensures Ascii(PREFIX + s) == SyscallName(s)
  {
  }

  lemma NameEnd(s: string, i: nat)
    requires i < |s|
    ensures |SyscallName(s)| == 34 + |s| && SyscallName(s)[34 + i] == s[i] as int % 0x100
  {
  }

  /** The names differ in length, or in the letter given here. */
  lemma NamesDiffer()
    ensures SyscallName("SYS_RANDOM") != SyscallName("SYS_GETENV")
    ensures SyscallName("SYS_RANDOM") != SyscallName("SYS_VERIFY")
    ensures SyscallName("SYS_GETENV") != SyscallName("SYS_VERIFY")
    ensures SyscallName("SYS_PANIC") != SyscallName("SYS_WRITE")
    ensures SyscallName("SYS_READ") != SyscallName("SYS_ARGC")
    ensures SyscallName("SYS_READ") != SyscallName("SYS_ARGS")
    ensures SyscallName("SYS_ARGC") != SyscallName("SYS_ARGS")
  {
    hide SyscallName;
    NameEnd("SYS_RANDOM", 4);
    NameEnd("SYS_GETENV", 4);
    NameEnd("SYS_VERIFY", 4);
    NameEnd("SYS_PANIC", 4);
    NameEnd("SYS_WRITE", 4);
    NameEnd("SYS_READ", 4);
    NameEnd("SYS_ARGC", 4);
    NameEnd("SYS_ARGC", 7);
    NameEnd("SYS_ARGS", 4);
    NameEnd("SYS_ARGS", 7);
  }

  lemma NameLengths()
    ensures |SyscallName("SYS_RANDOM")| == |SyscallName("SYS_GETENV")| == |SyscallName("SYS_VERIFY")| == 44
    ensures |SyscallName("SYS_CYCLE_COUNT")| == 49 && |SyscallName("SYS_VERIFY_INTEGRITY")| == 54
    ensures |SyscallName("SYS_PANIC")| == |SyscallName("SYS_WRITE")| == 43
    ensures |SyscallName("SYS_READ")| == |SyscallName("SYS_ARGC")| == |SyscallName("SYS_ARGS")| == 42
    ensures |SyscallName("SYS_READ_AVAIL")| == 48 && |SyscallName("SYS_LOG")| == 41
  {
  }

  /** The dispatch on the name. */
  lemma Dispatch()
    ensures SyscallOf(SyscallName("SYS_RANDOM")) == SysRandom
    ensures SyscallOf(SyscallName("SYS_CYCLE_COUNT")) == SysCycleCount
    ensures SyscallOf(SyscallName("SYS_PANIC")) == SysPanic
    ensures SyscallOf(SyscallName("SYS_GETENV")) == SysGetenv
    ensures SyscallOf(SyscallName("SYS_READ")) == SysRead
    ensures SyscallOf(SyscallName("SYS_READ_AVAIL")) == SysReadAvail
    ensures SyscallOf(SyscallName("SYS_WRITE")) == SysWrite
    ensures SyscallOf(SyscallName("SYS_LOG")) == SysLog
    ensures SyscallOf(SyscallName("SYS_VERIFY")) == SysVerify
    ensures SyscallOf(SyscallName("SYS_VERIFY_INTEGRITY")) == SysVerify
    ensures SyscallOf(SyscallName("SYS_ARGC")) == SysArgc
    ensures SyscallOf(SyscallName("SYS_ARGS")) == SysArgs
  {
    NamesDiffer();
    NameLengths();
    hide SyscallName;
  }

  const NAMES: set<string> :=
    {"SYS_RANDOM", "SYS_CYCLE_COUNT", "SYS_PANIC", "SYS_GETENV", "SYS_READ", "SYS_READ_AVAIL", "SYS_WRITE", "SYS_LOG",
     "SYS_VERIFY", "SYS_VERIFY_INTEGRITY", "SYS_ARGC", "SYS_ARGS"}

  /** Any other name is no call. */
  lemma OtherNames(name: seq<byte>)
    requires forall s | s in NAMES :: name != SyscallName(s)
    ensures SyscallOf(name) == SysUnknown
  {
    hide SyscallName;
    assert "SYS_RANDOM" in NAMES && "SYS_CYCLE_COUNT" in NAMES && "SYS_PANIC" in NAMES && "SYS_GETENV" in NAMES;
    assert "SYS_READ" in NAMES && "SYS_READ_AVAIL" in NAMES && "SYS_WRITE" in NAMES && "SYS_LOG" in NAMES;
    assert "SYS_VERIFY" in NAMES && "SYS_VERIFY_INTEGRITY" in NAMES && "SYS_ARGC" in NAMES && "SYS_ARGS" in NAMES;
  }

  // ---------- What every completed call leaves ----------

  /** The reply is in memory at A0, and no other byte has changed; or nowhere, if A0 is null. */
  ghost predicate ReplyStored(m: Machine, reply: seq<byte>, m': Machine) {
    && |reply| == 4 * (m.hart.regs[11] as nat)
    && if m.hart.regs[10] == 0 then SameBytes(m.mem, m'.mem) else Overwritten(m.mem, m.hart.regs[10], reply, m'.mem)
  }

  /** The step went on to the next instruction with these results in A0 and A1 and this reply. */
  ghost predicate Replies(m: Machine, a0: u32, a1: u32, reply: seq<byte>, m': Machine) {
    && m'.hart == Hart((m.hart.pc + 4) % 0x1_0000_0000, m.hart.regs[10 := a0][11 := a1])
    && ReplyStored(m, reply, m')
    && m'.env == m.env && m'.args == m.args
  }

  /** The machine that the call finds: at the start of the body, with the name read. */
  function AtCall(m: Machine): Machine {
    Start(m).(mem := ReadName(Start(m).mem, m.hart.regs[12]).1)
  }

  lemma AtCallIs(m: Machine)
    ensures AtCall(m) == m.(mem := AtCall(m).mem) && SameWords(m.mem, AtCall(m).mem)
  {
    StartLeaves(m);
    NameMissingIff(Start(m).mem, m.hart.regs[12]);
    hide Start, ReadName, SameWords;
    SameWordsThrough(m.mem, Start(m).mem, AtCall(m).mem);
  }

  lemma SyscallKeepsWords(host: Host, call: Syscall, size: nat, m: Machine)
    ensures var m' := HandleSyscall(host, call, size, m).1;
            m'.env == m.env && m'.args == m.args && m'.hart.pc == m.hart.pc && SameWords(m.mem, m'.mem)
  {
    hide ReadBytes, Padded, Zeros, Entropy, Compose, Take, SameWords, SessionCycles;
    SameWordsSelf(m.mem);
    ReadBytesSees(m.mem, Reg(m, REG_A3), Reg(m, REG_A4));
    ReadBytesSees(m.mem, Reg(m, REG_A4), Reg(m, REG_A5));
  }

  lemma CopyOutStores(m: Machine, toGuest: u32, bytes: seq<byte>, words: u32)
    requires CopyOut(m, toGuest, bytes, words).0.Proceed? && |bytes| == 4 * words
    ensures var (outcome, m') := CopyOut(m, toGuest, bytes, words);
            && m' == m.(mem := m'.mem) && outcome.pc == (m.hart.pc + 4) % 0x1_0000_0000
            && (toGuest == 0 ==> m'.mem == m.mem)
            && (toGuest != 0 ==> Overwritten(m.mem, toGuest, bytes, m'.mem))
  {
    hide WriteBytes, SameWords, Overwritten, AlignUp;
    SameWordsSelf(m.mem);
    if toGuest != 0 {
      OverwriteLands(m.mem, m.mem, toGuest, bytes);
    }
  }

  /** A completed software call is its system call, with the reply stored. */
  lemma SoftwareLeaves(host: Host, m: Machine, call: Syscall)
    requires EcallSoftware(host, m).0.Proceed? && NameAt(m).Some? && SyscallOf(NameAt(m).value) == call
    ensures var (outcome, end) := EcallSoftware(host, m);
            var m0 := m.(mem := ReadName(m.mem, Reg(m, REG_A2)).1);
            var (answer, m1) := HandleSyscall(host, call, ReplySize(m), m0);
            && answer.Filled? && |answer.toGuest| == ReplySize(m)
            && end == m1.(mem := end.mem) && outcome.pc == (m1.hart.pc + 4) % 0x1_0000_0000
            && outcome.extra == AlignUp(Reg(m, REG_A1)) + 2
            && (Reg(m, REG_A0) == 0 ==> end.mem == m1.mem)
            && (Reg(m, REG_A0) != 0 ==> Overwritten(m1.mem, Reg(m, REG_A0), answer.toGuest, end.mem))
  {
    hide ReadName, SyscallOf, HandleSyscall, CopyOut, Grants, Books, SoftwareCompletes, Overwritten, AlignUp;
    var m0 := m.(mem := ReadName(m.mem, Reg(m, REG_A2)).1);
    SyscallGrants(host, call, ReplySize(m), m0);
    SoftwareForeseen(host, m);
    var (answer, m1) := HandleSyscall(host, call, ReplySize(m), m0);
    CopyOutStores(m1, Reg(m, REG_A0), answer.toGuest, Reg(m, REG_A1));
  }

  /** `m'` is what a step at `m` leaves whose system call finds the machine `at`, with the bytes that
      memory had before, replies `reply` and leaves `end`. */
  ghost predicate Came(host: Host, call: Syscall, m: Machine, at: Machine, reply: seq<byte>, end: Machine,
                       m': Machine) {
    && at == m.(mem := at.mem) && SameWords(m.mem, at.mem)
    && HandleSyscall(host, call, 4 * (m.hart.regs[11] as nat), at) == (Filled(reply), end)
    && m'.hart == Hart((m.hart.pc + 4) % 0x1_0000_0000, end.hart.regs)
    && m'.io == end.io && m'.env == m.env && m'.args == m.args && ReplyStored(m, reply, m')
  }

  /** What a completed software step is. */
  lemma StepReplies(host: Host, m: Machine, call: Syscall) returns (reply: seq<byte>, end: Machine)
    requires Step(host, m).0.Ran? && CallsNumber(m, 2) && NameAt(m).Some? && SyscallOf(NameAt(m).value) == call
    ensures Came(host, call, m, AtCall(m), reply, end, Step(host, m).1)
  {
    hide Step, Start, IsEcall, SameWords, Ecall, EcallSoftware, HandleSyscall, Overwritten, SyscallOf, ReadName,
      ReplyStored, StepBase;
    EcallLeaves(host, m);
    StartLeaves(m);
    CallNumber(host, Start(m));
    NameSame(m.mem, Start(m).mem, m.hart.regs[12]);
    SoftwareLeaves(host, Start(m), call);
    AtCallIs(m);
    var size := 4 * (m.hart.regs[11] as nat);
    var answer := HandleSyscall(host, call, size, AtCall(m)).0;
    reply, end := answer.toGuest, HandleSyscall(host, call, size, AtCall(m)).1;
    SyscallKeepsWords(host, call, size, AtCall(m));
    SameWordsThrough(m.mem, AtCall(m).mem, end.mem);
    ReplyIsStored(m, reply, end, EcallSoftware(host, Start(m)).1, Step(host, m).1);
  }

  /** The cycles of a completed software call: one for each word of the reply, rounded up to four
      words, two for the call, and one for the instruction. */
  lemma SoftwareCycles(host: Host, m: Machine)
    requires Step(host, m).0.Ran? && CallsNumber(m, 2)
    ensures StepBase(host, m) == AlignUp(m.hart.regs[11]) + 3
  {
    hide Step, Start, IsEcall, SameWords, Ecall, EcallSoftware, StepBase, Books, SyscallOf, ReadName;
    EcallLeaves(host, m);
    StartLeaves(m);
    CallNumber(host, Start(m));
    SoftwareForeseen(host, Start(m));
  }

  /** A completed step by this name is its call. */
  lemma StepByName(host: Host, m: Machine, s: string, call: Syscall) returns (reply: seq<byte>, end: Machine)
    requires Step(host, m).0.Ran? && CallsByName(m, PREFIX + s) && SyscallOf(SyscallName(s)) == call
    ensures Came(host, call, m, AtCall(m), reply, end, Step(host, m).1)
  {
    hide Step, IsEcall, NamedAt, SyscallName, NameAt, SyscallOf, Came, AtCall, StepBase;
    NameOf(m, s);
    reply, end := StepReplies(host, m, call);
  }

  lemma ReplyIsStored(m: Machine, reply: seq<byte>, a: Machine, b: Machine, m': Machine)
    requires SameWords(m.mem, a.mem) && |reply| == 4 * (m.hart.regs[11] as nat) && m'.mem.pages == b.mem.pages
    requires if m.hart.regs[10] == 0 then b.mem == a.mem else Overwritten(a.mem, m.hart.regs[10], reply, b.mem)
    ensures ReplyStored(m, reply, m')
  {
    hide SameWords, Overwritten, SameBytes;
    if m.hart.regs[10] == 0 {
      PagesSameWords(b.mem, m'.mem);
      SameWordsThrough(m.mem, a.mem, m'.mem);
      SameWordsSameBytes(m.mem, m'.mem);
    } else {
      OverwrittenSame(m.mem, a.mem, m.hart.regs[10], reply, b.mem, m'.mem);
    }
  }

  /** The call that a name stands for. */
  lemma NameOf(m: Machine, s: string)
    requires CallsByName(m, PREFIX + s)
    ensures NameAt(m) == Some(SyscallName(s))
  {
    hide Ascii, ByteAt, ReadName, SyscallName;
    NamedIsFound(m, PREFIX + s);
    FullName(s);
  }

  // ---------- Each call ----------

  /** `value` at the front of a buffer of zeros, or as much of it as there is room for. */
  predicate Fills(reply: seq<byte>, value: seq<byte>) {
    forall i | 0 <= i < |reply| :: reply[i] == if i < |value| then value[i] else 0
  }

  lemma PaddedFills(value: seq<byte>, size: nat)
    ensures Fills(Padded(value, size), value) && Fills(Zeros(size), [])
  {
  }

  /** SYS_RANDOM replies with the next bytes of the random source. */
  ghost predicate RandomLeaves(host: Host, m: Machine, m': Machine, reply: seq<byte>) {
    && Replies(m, 0, 0, reply, m')
    && (forall i | 0 <= i < |reply| :: reply[i] == host.entropy(m.io.drawn + i))
    && m'.io == m.io.(drawn := m.io.drawn + |reply|)
  }

  lemma RandomEffect(host: Host, m: Machine) returns (reply: seq<byte>)
    requires Step(host, m).0.Ran? && CallsByName(m, PREFIX + "SYS_RANDOM")
    ensures RandomLeaves(host, m, Step(host, m).1, reply)
  {
    hide Step, CallsByName, SyscallName, SyscallOf, Came, AtCall, RandomLeaves;
    Dispatch();
    var end;
    reply, end := StepByName(host, m, "SYS_RANDOM", SysRandom);
    RandomCall(host, m, AtCall(m), reply, end, Step(host, m).1);
  }

  lemma RandomCall(host: Host, m: Machine, at: Machine, reply: seq<byte>, end: Machine, m': Machine)
    requires Came(host, SysRandom, m, at, reply, end, m')
    ensures RandomLeaves(host, m, m', reply)
  {
    hide SameWords, ReplyStored;
  }

  /** SYS_CYCLE_COUNT returns the low word of the session clock: full segments, the overhead, and
      the cycles of the current segment, as they were before the step. */
  ghost predicate CycleCountLeaves(m: Machine, m': Machine, reply: seq<byte>) {
    && m.mem.ledger.Some?
    && Fills(reply, []) && m'.io == m.io
    && var l := m.mem.ledger.value;
       Replies(m, (0x10_0000 * l.segments + 1721 + l.cycle) % 0x1_0000_0000, 0, reply, m')
  }

  lemma CycleCountEffect(host: Host, m: Machine) returns (reply: seq<byte>)
    requires Step(host, m).0.Ran? && CallsByName(m, PREFIX + "SYS_CYCLE_COUNT") && m.mem.ledger.Some?
    ensures CycleCountLeaves(m, Step(host, m).1, reply)
  {
    hide Step, CallsByName, SyscallName, SyscallOf, Came, AtCall, CycleCountLeaves;
    Dispatch();
    var end;
    reply, end := StepByName(host, m, "SYS_CYCLE_COUNT", SysCycleCount);
    AtCallClock(m);
    CycleCountCall(host, m, AtCall(m), reply, end, Step(host, m).1);
  }

  lemma CycleCountCall(host: Host, m: Machine, at: Machine, reply: seq<byte>, end: Machine, m': Machine)
    requires Came(host, SysCycleCount, m, at, reply, end, m') && m.mem.ledger.Some?
    requires LedgerOf(at).segments == m.mem.ledger.value.segments && LedgerOf(at).cycle == m.mem.ledger.value.cycle
    ensures CycleCountLeaves(m, m', reply)
  {
    hide SameWords, ReplyStored;
    PaddedFills([], |reply|);
  }

  /** Nothing is charged before the end of the step. */
  lemma AtCallClock(m: Machine)
    requires m.mem.ledger.Some?
    ensures LedgerOf(AtCall(m)).segments == m.mem.ledger.value.segments
    ensures LedgerOf(AtCall(m)).cycle == m.mem.ledger.value.cycle
  {
    hide ReadMem, ReadName, Trace.Follows;
    Trace.ReadFollows(m.mem, m.hart.pc, Word);
    Trace.FollowsKeepsBooks(m.mem, ReadMem(m.mem, m.hart.pc, Word, false).1);
    Trace.ReadNameFollows(Start(m).mem, m.hart.regs[12]);
    Trace.FollowsKeepsBooks(Start(m).mem, AtCall(m).mem);
  }

  /** SYS_PANIC never completes. */
  lemma PanicEffect(host: Host, m: Machine)
    requires CallsByName(m, PREFIX + "SYS_PANIC")
    ensures !Step(host, m).0.Ran?
  {
    hide Step, CallsByName, SyscallName, SyscallOf, Came, AtCall;
    Dispatch();
    if Step(host, m).0.Ran? {
      var reply, end := StepByName(host, m, "SYS_PANIC", SysPanic);
      PanicCall(host, m, AtCall(m), reply, end, Step(host, m).1);
    }
  }

  lemma PanicCall(host: Host, m: Machine, at: Machine, reply: seq<byte>, end: Machine, m': Machine)
    ensures !Came(host, SysPanic, m, at, reply, end, m')
  {
    hide SameWords, ReplyStored, ReadBytes;
  }

  /** SYS_GETENV returns the value of the variable named by the A4 bytes at A3, with its length; or
      0xFFFFFFFF, if there is none. */
  ghost predicate GetenvLeaves(m: Machine, m': Machine, reply: seq<byte>) {
    && m.hart.regs[13] + m.hart.regs[14] as int <= 0x1_0000_0000
    && m'.io == m.io
    && var key := MemBytes(m.mem, m.hart.regs[13], m.hart.regs[14]);
       if key in m.env then Replies(m, |m.env[key]| % 0x1_0000_0000, 0, reply, m') && Fills(reply, m.env[key])
       else Replies(m, 0xFFFF_FFFF, 0, reply, m') && Fills(reply, [])
  }

  lemma GetenvEffect(host: Host, m: Machine) returns (reply: seq<byte>)
    requires Step(host, m).0.Ran? && CallsByName(m, PREFIX + "SYS_GETENV")
    ensures GetenvLeaves(m, Step(host, m).1, reply)
  {
    hide Step, CallsByName, SyscallName, SyscallOf, Came, AtCall, GetenvLeaves;
    Dispatch();
    var end;
    reply, end := StepByName(host, m, "SYS_GETENV", SysGetenv);
    GetenvCall(host, m, AtCall(m), reply, end, Step(host, m).1);
  }

  lemma GetenvCall(host: Host, m: Machine, at: Machine, reply: seq<byte>, end: Machine, m': Machine)
    requires Came(host, SysGetenv, m, at, reply, end, m')
    ensures GetenvLeaves(m, m', reply)
  {
    hide SameWords, ReplyStored, ReadBytes, MemBytes, Fills, RunFits, Padded, Zeros, Books;
    KeyRead(m, at, m.hart.regs[13], m.hart.regs[14]);
    var key := MemBytes(m.mem, m.hart.regs[13], m.hart.regs[14]);
    PaddedFills(if key in m.env then m.env[key] else [], |reply|);
  }

  /** What a call reads that reads bytes. */
  lemma KeyRead(m: Machine, at: Machine, addr: u32, len: u32)
    requires SameWords(m.mem, at.mem) && ReadBytes(at.mem, addr, len).0.Some?
    ensures addr + len as int <= 0x1_0000_0000 && ReadBytes(at.mem, addr, len).0.value == MemBytes(m.mem, addr, len)
  {
    hide SameWords, ReadBytes, MemBytes, RunFits, Books;
    ReadBytesBooks(at.mem, addr, len);
    RunEnds(addr, len);
    SameWordsMemBytes(m.mem, at.mem, addr, len);
  }

  /** SYS_READ returns what it took: whole words in the reply, the rest in A1, their number in A0. */
  ghost predicate ReadLeaves(m: Machine, m': Machine, reply: seq<byte>, tail: seq<byte>) {
    var total := |reply| + |tail|;
    && m.hart.regs[13] == 0
    && |tail| <= 4 && m.io.cursor <= |m.io.stdin|
    && total == Min(|m.io.stdin| - m.io.cursor, m.hart.regs[14])
    && reply + tail == m.io.stdin[m.io.cursor..m.io.cursor + total]
    && Replies(m, total, TailWord(tail), reply, m')
    && m'.io == m.io.(cursor := m.io.cursor + total)
  }

  /** A word that starts with these bytes and ends with zeros. */
  function TailWord(tail: seq<byte>): u32
    requires |tail| <= 4
  {
    ByteOr0(tail, 0) + 0x100 * ByteOr0(tail, 1) + 0x1_0000 * ByteOr0(tail, 2) + 0x100_0000 * ByteOr0(tail, 3)
  }

  function ByteOr0(bytes: seq<byte>, i: nat): byte {
    if i < |bytes| then bytes[i] else 0
  }

  lemma ReadEffect(host: Host, m: Machine) returns (reply: seq<byte>, tail: seq<byte>)
    requires Step(host, m).0.Ran? && CallsByName(m, PREFIX + "SYS_READ") && m.io.cursor <= |m.io.stdin|
    ensures ReadLeaves(m, Step(host, m).1, reply, tail)
  {
    hide Step, CallsByName, SyscallName, SyscallOf, Came, AtCall, ReadLeaves;
    Dispatch();
    var end;
    reply, end := StepByName(host, m, "SYS_READ", SysRead);
    tail := ReadCall(host, m, AtCall(m), reply, end, Step(host, m).1);
  }

  lemma ReadCall(host: Host, m: Machine, at: Machine, reply: seq<byte>, end: Machine, m': Machine)
    returns (tail: seq<byte>)
    requires Came(host, SysRead, m, at, reply, end, m') && m.io.cursor <= |m.io.stdin|
    ensures ReadLeaves(m, m', reply, tail)
  {
    hide SameWords, ReplyStored, DoRead;
    var size := 4 * (m.hart.regs[11] as nat);
    assert HandleSyscall(host, SysRead, size, at) == DoRead(size, at);
    tail := ReadParts(size, at);
  }

  lemma ReadParts(size: nat, m: Machine) returns (tail: seq<byte>)
    requires DoRead(size, m).0.Filled? && m.io.cursor <= |m.io.stdin|
    ensures var (answer, end) := DoRead(size, m);
            var total := |answer.toGuest| + |tail|;
            && |answer.toGuest| == size && |tail| <= 4 && Reg(m, REG_A3) == 0
            && total == Min(|m.io.stdin| - m.io.cursor, Reg(m, REG_A4))
            && answer.toGuest + tail == m.io.stdin[m.io.cursor..m.io.cursor + total]
            && end == m.(hart := Hart(m.hart.pc, m.hart.regs[10 := total][11 := TailWord(tail)]),
                         io := m.io.(cursor := m.io.cursor + total))
  {
    hide Take, Padded, Compose, TailWord, DoRead;
    ReadIs(size, m);
    var rest := m.io.(cursor := m.io.cursor + size);
    tail := Take(rest, Reg(m, REG_A4) - size);
    Taken(m.io, size);
    Taken(rest, Reg(m, REG_A4) - size);
    SliceSplit(m.io.stdin, m.io.cursor, m.io.cursor + size, m.io.cursor + size + |tail|);
    TailIsWord(tail);
  }

  /** A SYS_READ that has an answer, in one piece. */
  lemma ReadIs(size: nat, m: Machine)
    requires DoRead(size, m).0.Filled? && m.io.cursor <= |m.io.stdin|
    ensures Reg(m, REG_A3) == 0 && size <= Reg(m, REG_A4) <= size + 4 && |Take(m.io, size)| == size
    ensures var tail := Take(m.io.(cursor := m.io.cursor + size), Reg(m, REG_A4) - size);
            var end := Padded(tail, 4);
            && DoRead(size, m).0 == Filled(Take(m.io, size))
            && DoRead(size, m).1 ==
               Return(m.(io := m.io.(cursor := m.io.cursor + size + |tail|)),
                      Wrap(size + |tail|), Compose(end[0], end[1], end[2], end[3]))
  {
    hide Take, Padded, Compose;
  }

  lemma Taken(io: Io, want: nat)
    requires io.cursor <= |io.stdin|
    ensures |Take(io, want)| == Min(want, |io.stdin| - io.cursor)
    ensures Take(io, want) == io.stdin[io.cursor..io.cursor + |Take(io, want)|]
  {
  }

  lemma TailIsWord(tail: seq<byte>)
    requires |tail| <= 4
    ensures var end := Padded(tail, 4); Compose(end[0], end[1], end[2], end[3]) == TailWord(tail)
  {
    var end := Padded(tail, 4);
    assert forall i | 0 <= i < 4 :: end[i] == ByteOr0(tail, i);
  }

  /** SYS_READ_AVAIL returns the low word of the length of what is left. */
  ghost predicate ReadAvailLeaves(m: Machine, m': Machine, reply: seq<byte>) {
    && m.hart.regs[13] == 0
    && Replies(m, (|m.io.stdin| - m.io.cursor) % 0x1_0000_0000, 0, reply, m')
    && Fills(reply, []) && m'.io == m.io
  }

  lemma ReadAvailEffect(host: Host, m: Machine) returns (reply: seq<byte>)
    requires Step(host, m).0.Ran? && CallsByName(m, PREFIX + "SYS_READ_AVAIL")
    ensures ReadAvailLeaves(m, Step(host, m).1, reply)
  {
    hide Step, CallsByName, SyscallName, SyscallOf, Came, AtCall, ReadAvailLeaves;
    Dispatch();
    var end;
    reply, end := StepByName(host, m, "SYS_READ_AVAIL", SysReadAvail);
    ReadAvailCall(host, m, AtCall(m), reply, end, Step(host, m).1);
  }

  lemma ReadAvailCall(host: Host, m: Machine, at: Machine, reply: seq<byte>, end: Machine, m': Machine)
    requires Came(host, SysReadAvail, m, at, reply, end, m')
    ensures ReadAvailLeaves(m, m', reply)
  {
    hide SameWords, ReplyStored;
    PaddedFills([], |reply|);
  }

  /** SYS_WRITE appends the A5 bytes at A4 to the output numbered in A3: 1, 2 and 3 are standard
      output, standard error and the journal. */
  ghost predicate WriteLeaves(m: Machine, m': Machine, reply: seq<byte>) {
    && Replies(m, 0, 0, reply, m') && Fills(reply, [])
    && m.hart.regs[14] + m.hart.regs[15] as int <= 0x1_0000_0000
    && var bytes, fd := MemBytes(m.mem, m.hart.regs[14], m.hart.regs[15]), m.hart.regs[13];
       && fd in {1, 2, 3}
       && (fd == 1 ==> m'.io == m.io.(stdout := m.io.stdout + bytes))
       && (fd == 2 ==> m'.io == m.io.(stderr := m.io.stderr + bytes))
       && (fd == 3 ==> m'.io == m.io.(journal := m.io.journal + bytes))
  }

  lemma WriteEffect(host: Host, m: Machine) returns (reply: seq<byte>)
    requires Step(host, m).0.Ran? && CallsByName(m, PREFIX + "SYS_WRITE")
    ensures WriteLeaves(m, Step(host, m).1, reply)
  {
    hide Step, CallsByName, SyscallName, SyscallOf, Came, AtCall, WriteLeaves;
    Dispatch();
    var end;
    reply, end := StepByName(host, m, "SYS_WRITE", SysWrite);
    WriteCall(host, m, AtCall(m), reply, end, Step(host, m).1);
  }

  lemma WriteCall(host: Host, m: Machine, at: Machine, reply: seq<byte>, end: Machine, m': Machine)
    requires Came(host, SysWrite, m, at, reply, end, m')
    ensures WriteLeaves(m, m', reply)
  {
    hide SameWords, ReplyStored, ReadBytes, MemBytes, Fills, RunFits, Zeros, Books;
    KeyRead(m, at, m.hart.regs[14], m.hart.regs[15]);
    PaddedFills([], |reply|);
  }

  /** SYS_LOG appends the A4 bytes at A3 to standard output. */
  ghost predicate LogLeaves(m: Machine, m': Machine, reply: seq<byte>) {
    && Replies(m, 0, 0, reply, m') && Fills(reply, [])
    && m.hart.regs[13] + m.hart.regs[14] as int <= 0x1_0000_0000
    && m'.io == m.io.(stdout := m.io.stdout + MemBytes(m.mem, m.hart.regs[13], m.hart.regs[14]))
  }

  lemma LogEffect(host: Host, m: Machine) returns (reply: seq<byte>)
    requires Step(host, m).0.Ran? && CallsByName(m, PREFIX + "SYS_LOG")
    ensures LogLeaves(m, Step(host, m).1, reply)
  {
    hide Step, CallsByName, SyscallName, SyscallOf, Came, AtCall, LogLeaves;
    Dispatch();
    var end;
    reply, end := StepByName(host, m, "SYS_LOG", SysLog);
    LogCall(host, m, AtCall(m), reply, end, Step(host, m).1);
  }

  lemma LogCall(host: Host, m: Machine, at: Machine, reply: seq<byte>, end: Machine, m': Machine)
    requires Came(host, SysLog, m, at, reply, end, m')
    ensures LogLeaves(m, m', reply)
  {
    hide SameWords, ReplyStored, ReadBytes, MemBytes, Fills, RunFits, Zeros, Books;
    KeyRead(m, at, m.hart.regs[13], m.hart.regs[14]);
    PaddedFills([], |reply|);
  }

  /** A call that returns `a0` and zeros, and touches no stream. */
  ghost predicate QuietLeaves(m: Machine, m': Machine, a0: u32, reply: seq<byte>) {
    Replies(m, a0, 0, reply, m') && Fills(reply, []) && m'.io == m.io
  }

  /** SYS_VERIFY and SYS_VERIFY_INTEGRITY return zeros. */
  lemma VerifyEffect(host: Host, m: Machine) returns (reply: seq<byte>)
    requires Step(host, m).0.Ran?
    requires CallsByName(m, PREFIX + "SYS_VERIFY") || CallsByName(m, PREFIX + "SYS_VERIFY_INTEGRITY")
    ensures QuietLeaves(m, Step(host, m).1, 0, reply)
  {
    hide Step, CallsByName, SyscallName, SyscallOf, Came, AtCall, QuietLeaves;
    Dispatch();
    var end;
    if CallsByName(m, PREFIX + "SYS_VERIFY") {
      reply, end := StepByName(host, m, "SYS_VERIFY", SysVerify);
    } else {
      reply, end := StepByName(host, m, "SYS_VERIFY_INTEGRITY", SysVerify);
    }
    VerifyCall(host, m, AtCall(m), reply, end, Step(host, m).1);
  }

  lemma VerifyCall(host: Host, m: Machine, at: Machine, reply: seq<byte>, end: Machine, m': Machine)
    requires Came(host, SysVerify, m, at, reply, end, m')
    ensures QuietLeaves(m, m', 0, reply)
  {
    hide SameWords, ReplyStored;
    PaddedFills([], |reply|);
  }

  /** SYS_ARGC returns the number of arguments. */
  lemma ArgcEffect(host: Host, m: Machine) returns (reply: seq<byte>)
    requires Step(host, m).0.Ran? && CallsByName(m, PREFIX + "SYS_ARGC")
    ensures QuietLeaves(m, Step(host, m).1, |m.args| % 0x1_0000_0000, reply)
  {
    hide Step, CallsByName, SyscallName, SyscallOf, Came, AtCall, QuietLeaves;
    Dispatch();
    var end;
    reply, end := StepByName(host, m, "SYS_ARGC", SysArgc);
    ArgcCall(host, m, AtCall(m), reply, end, Step(host, m).1);
  }

  lemma ArgcCall(host: Host, m: Machine, at: Machine, reply: seq<byte>, end: Machine, m': Machine)
    requires Came(host, SysArgc, m, at, reply, end, m')
    ensures QuietLeaves(m, m', |m.args| % 0x1_0000_0000, reply)
  {
    hide SameWords, ReplyStored;
    PaddedFills([], |reply|);
  }

  /** SYS_ARGS returns the argument numbered in A3, with its length. */
  ghost predicate ArgsLeaves(m: Machine, m': Machine, reply: seq<byte>) {
    && m.hart.regs[13] < |m.args| && m'.io == m.io
    && var arg := m.args[m.hart.regs[13]];
       Replies(m, |arg| % 0x1_0000_0000, 0, reply, m') && Fills(reply, arg)
  }

  lemma ArgsEffect(host: Host, m: Machine) returns (reply: seq<byte>)
    requires Step(host, m).0.Ran? && CallsByName(m, PREFIX + "SYS_ARGS")
    ensures ArgsLeaves(m, Step(host, m).1, reply)
  {
    hide Step, CallsByName, SyscallName, SyscallOf, Came, AtCall, ArgsLeaves;
    Dispatch();
    var end;
    reply, end := StepByName(host, m, "SYS_ARGS", SysArgs);
    ArgsCall(host, m, AtCall(m), reply, end, Step(host, m).1);
  }

  lemma ArgsCall(host: Host, m: Machine, at: Machine, reply: seq<byte>, end: Machine, m': Machine)
    requires Came(host, SysArgs, m, at, reply, end, m')
    ensures ArgsLeaves(m, m', reply)
  {
    hide SameWords, ReplyStored, Padded, Fills;
    if m.hart.regs[13] < |m.args| { PaddedFills(m.args[m.hart.regs[13]], |reply|); }
  }

  /** A call by any other name changes no register but the program counter, and replies zeros. */
  ghost predicate UnknownLeaves(m: Machine, m': Machine, reply: seq<byte>) {
    && m'.hart.regs == m.hart.regs && Replies(m, m.hart.regs[10], m.hart.regs[11], reply, m')
    && Fills(reply, []) && m'.io == m.io
  }

  lemma UnknownEffect(host: Host, m: Machine, text: string) returns (reply: seq<byte>)
    requires Step(host, m).0.Ran? && CallsByName(m, text) && forall s | s in NAMES :: text != PREFIX + s
    ensures UnknownLeaves(m, Step(host, m).1, reply)
  {
    hide Step, IsEcall, NamedAt, SyscallOf, Came, AtCall, UnknownLeaves, Ascii, NameAt, StepBase;
    NamedIsFound(m, text);
    OtherText(m, text);
    var end;
    reply, end := StepReplies(host, m, SysUnknown);
    UnknownCall(host, m, AtCall(m), reply, end, Step(host, m).1);
  }

  lemma OtherText(m: Machine, text: string)
    requires CallsByName(m, text) && forall s | s in NAMES :: text != PREFIX + s
    ensures SyscallOf(Ascii(text)) == SysUnknown
  {
    hide Ascii, SyscallName, SyscallOf, NamedAt;
    forall s | s in NAMES ensures Ascii(text) != SyscallName(s) {
      FullName(s);
      NamedPrintable(m, text);
      NamesPrintable(s);
      AsciiInjective(text, PREFIX + s);
    }
    OtherNames(Ascii(text));
  }

  lemma UnknownCall(host: Host, m: Machine, at: Machine, reply: seq<byte>, end: Machine, m': Machine)
    requires Came(host, SysUnknown, m, at, reply, end, m')
    ensures UnknownLeaves(m, m', reply)
  {
    hide SameWords, ReplyStored;
    PaddedFills([], |reply|);
    assert m.hart.regs[10 := m.hart.regs[10]][11 := m.hart.regs[11]] == m.hart.regs;
  }

  predicate IsAscii(s: string) {
    forall i | 0 <= i < |s| :: s[i] as int < 0x100
  }

  lemma NamedPrintable(m: Machine, text: string)
    requires CallsByName(m, text)
    ensures IsAscii(text)
  {
    hide ByteAt, IsEcall;
    forall i | 0 <= i < |text| ensures text[i] as int < 0x100 {
      assert TextAt(m, text, i);
    }
  }

  lemma NamesPrintable(s: string)
    requires s in NAMES
    ensures IsAscii(PREFIX + s)
  {
    PrefixPrintable();
    SuffixPrintable(s);
    AsciiJoins(PREFIX, s);
  }

  lemma SuffixPrintable(s: string)
    requires s in NAMES
    ensures IsAscii(s)
  {
  }

  lemma AsciiJoins(a: string, b: string)
    requires IsAscii(a) && IsAscii(b)
    ensures IsAscii(a + b)
  {
  }

  lemma PrefixPrintable()
    ensures IsAscii(PREFIX)
  {
  }

  lemma AsciiInjective(a: string, b: string)
    requires IsAscii(a) && IsAscii(b) && a != b
    ensures Ascii(a) != Ascii(b)
  {
    if |a| == |b| {
      var i :| 0 <= i < |a| && a[i] != b[i];
      assert Ascii(a)[i] == a[i] as int && Ascii(b)[i] == b[i] as int;
    }
  }
  // ---------- Panics ----------

  /** SYS_READ at `m` runs into an assertion of the program: fewer bytes are asked for than the words
      of the buffer hold, or standard input has too few for them, or too many are asked for. */
  predicate ReadAborts(m: Machine) {
    var size := 4 * (m.hart.regs[11] as nat);
    || m.hart.regs[14] < size
    || (m.hart.regs[13] == 0 && (Available(m.io) < size || m.hart.regs[14] > size + 4))
  }

  lemma SyscallAborts(host: Host, call: Syscall, m: Machine)
    ensures HandleSyscall(host, call, ReplySize(m), m).0.Aborted? <==> call == SysRead && ReadAborts(m)
  {
    hide ReadBytes, Padded, Zeros, Entropy, Compose, SessionCycles;
  }

  lemma SoftwarePanics(host: Host, m: Machine)
    ensures EcallSoftware(host, m).0.Panic? <==> CarriesOut(host, m, SysRead) && ReadAborts(m)
  {
    hide ReadName, SyscallOf, HandleSyscall, CopyOut, ReadAborts;
    var (name, mem) := ReadName(m.mem, Reg(m, REG_A2));
    if name.Some? {
      SyscallAborts(host, SyscallOf(name.value), m.(mem := mem));
      SameAborts(m, mem);
      CopyOutNeverPanics(m, Reg(m, REG_A0), [], Reg(m, REG_A1));
    }
    forall n: Machine, bytes ensures !CopyOut(n, Reg(m, REG_A0), bytes, Reg(m, REG_A1)).0.Panic? {
      CopyOutNeverPanics(n, Reg(m, REG_A0), bytes, Reg(m, REG_A1));
    }
  }

  lemma SameAborts(m: Machine, mem: Mem)
    ensures ReadAborts(m.(mem := mem)) == ReadAborts(m)
  {
  }

  lemma CopyOutNeverPanics(m: Machine, toGuest: u32, bytes: seq<byte>, words: u32)
    ensures !CopyOut(m, toGuest, bytes, words).0.Panic?
  {
    hide WriteBytes;
  }

  lemma BigintPanics(host: Host, m: Machine)
    ensures EcallBigint(host, m).0.Panic? <==> Reg(m, REG_A1) == 0 && OperandsFit(m) && Product(host, m).None?
  {
    hide EcallBigint, Product, WriteBytes, RunFits, SameWords;
    var read := BigintIsStore(host, m);
  }

  lemma OthersNeverPanic(host: Host, m: Machine)
    ensures !EcallHalt(m).0.Panic? && !EcallSha(host, m).0.Panic?
  {
    hide Sha;
  }

  /** The step panics exactly in a SYS_READ that cannot be served as asked, and in a big-integer call
      whose operands have no product. Everything else that goes wrong is an error. */
  lemma PanicsIff(host: Host, m: Machine)
    ensures Step(host, m).0 == Panicked <==>
            || (CallsNumber(m, 2) && CarriesOut(host, m, SysRead) && ReadAborts(m))
            || (CallsNumber(m, 4) && m.hart.regs[11] == 0 && OperandsFit(m) && Product(host, m).None?)
  {
    hide Step, Start, IsEcall, Ecall, EcallSoftware, EcallSha, EcallBigint, CarriesOut, ReadAborts, Product,
      OperandsFit;
    StepPanics(host, m);
    StartLeaves(m);
    CallNumber(host, Start(m));
    SoftwarePanics(host, Start(m));
    BigintPanics(host, Start(m));
    OthersNeverPanic(host, Start(m));
    ForeseenAtStart(host, m);
    SameAborts(m, Start(m).mem);
    if OperandsFit(m) { ProductSame(host, m, Start(m)); }
    SameOperandsFit(m, Start(m).mem);
  }

  lemma SameOperandsFit(m: Machine, mem: Mem)
    ensures OperandsFit(m.(mem := mem)) == OperandsFit(m)
  {
    hide RunFits;
  }

  lemma StepPanics(host: Host, m: Machine)
    ensures Step(host, m).0 == Panicked <==>
            Insn(m).Some? && IsEcall(Insn(m).value) && Ecall(host, Start(m)).0.Panic?
  {
    if Insn(m).Some? { EcallIsLegal(Insn(m).value); }
    hide ReadMem, Ecall, Execute, OpcodeCycle, IsEcall, Settle;
  }
}
