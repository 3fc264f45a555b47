/** What the guest sends: over any run, failed steps included, each output is extended by exactly
    the bytes of memory that the SYS_WRITE and SYS_LOG calls it reaches name, in order. */
module Outputs {
  import opened Words
  import opened SessionCycle
  import opened PagedMemory
  import opened FlatMemory
  import opened Machine
  import opened Transparency
  import opened ByteRuns
  import opened Steps
  import opened Runs
  import opened Streams

  // ---------- The name of a call ----------

  /** `name`, without zeros, stands at `addr`, followed by a zero, all in guest memory. */
  ghost predicate Terminated(m: Mem, addr: u32, name: seq<byte>) {
    && GUEST_MIN_MEM <= addr && addr + |name| <= GUEST_MAX_MEM
    && forall i | 0 <= i <= |name| :: CharAt(m, addr, name, i)
  }

  ghost predicate CharAt(m: Mem, addr: u32, name: seq<byte>, i: nat)
    requires i <= |name| && addr + |name| <= GUEST_MAX_MEM
  {
    if i < |name| then ByteAt(m, addr + i) == name[i] != 0 else ByteAt(m, addr + i) == 0
  }

  lemma NameStep(m: Mem, addr: u32)
    ensures var (b, m1) := ReadMem(m, addr, Byte, false);
            SameWords(m, m1) && b == if InGuest(addr) then Some(ByteAt(m, addr)) else None
  {
    LoadReplies(m, Load(addr, Byte));
    ByteLoadValue(m, addr);
  }

  lemma ShiftTerminated(m: Mem, m1: Mem, addr: u32, name: seq<byte>)
    requires SameWords(m, m1) && InGuest(addr) && ByteAt(m, addr) != 0
    ensures Terminated(m, addr, name) <==>
            name != [] && name[0] == ByteAt(m, addr) && Terminated(m1, addr + 1, name[1..])
  {
    hide ByteAt, SameWords;
    assert name == [] && addr <= GUEST_MAX_MEM ==> !CharAt(m, addr, name, 0);
    if name != [] && addr + |name| <= GUEST_MAX_MEM {
      var tail := name[1..];
      forall j | 1 <= j <= |name| ensures CharAt(m1, addr + 1, tail, j - 1) <==> CharAt(m, addr, name, j) {
        SameWordsByte(m, m1, addr + j);
      }
      if Terminated(m1, addr + 1, tail) && name[0] == ByteAt(m, addr) {
        forall i | 0 <= i <= |name| ensures CharAt(m, addr, name, i) {
          if i > 0 { assert CharAt(m1, addr + 1, tail, i - 1); }
        }
      }
      if Terminated(m, addr, name) {
        assert CharAt(m, addr, name, 0);
        var next: u32 := addr + 1;
        forall i | 0 <= i <= |tail| ensures CharAt(m1, next, tail, i) {
          assert CharAt(m, addr, name, i + 1);
        }
      }
    }
  }

  /** The scan for a name finds exactly the zero-terminated string at the pointer. */
  lemma {:induction false} NameFoundIff(m: Mem, addr: u32, name: seq<byte>)
    ensures ReadName(m, addr).0 == Some(name) <==> Terminated(m, addr, name)
    decreases if InGuest(addr) then GUEST_MAX_MEM + 1 - addr else 0
  {
    NameStep(m, addr);
    var m1 := ReadMem(m, addr, Byte, false).1;
    hide ReadMem, ByteAt, SameWords;
    if InGuest(addr) {
      if ByteAt(m, addr) != 0 {
        ShiftTerminated(m, m1, addr, name);
        if name != [] {
          NameFoundIff(m1, addr + 1, name[1..]);
          assert name == [name[0]] + name[1..];
        }
      } else if name != [] && addr + |name| <= GUEST_MAX_MEM {
        assert !CharAt(m, addr, name, 0);
      }
    }
  }

  /** It fails exactly when no zero lies between the pointer and the end of guest memory. */
  lemma {:induction false} NameMissingIff(m: Mem, addr: u32)
    ensures ReadName(m, addr).0.None? <==>
            addr < GUEST_MIN_MEM || forall a | addr <= a <= GUEST_MAX_MEM :: ByteAt(m, a) != 0
    ensures SameWords(m, ReadName(m, addr).1)
    decreases if InGuest(addr) then GUEST_MAX_MEM + 1 - addr else 0
  {
    NameStep(m, addr);
    var m1 := ReadMem(m, addr, Byte, false).1;
    hide ReadMem, ByteAt, SameWords;
    if InGuest(addr) && ByteAt(m, addr) != 0 {
      NameMissingIff(m1, addr + 1);
      SameWordsThrough(m, m1, ReadName(m1, addr + 1).1);
      forall a | addr < a <= GUEST_MAX_MEM ensures ByteAt(m1, a) == ByteAt(m, a) {
        SameWordsByte(m, m1, a);
      }
    }
  }

  // ---------- What a step sends ----------

  datatype Emission = Emission(fd: u32, addr: u32, len: u32)

  /** The bytes of memory that a call asks to send, by its registers. */
  function EmissionOf(call: Syscall, m: Machine): Option<Emission> {
    match call
    case SysWrite => Some(Emission(Reg(m, REG_A3), Reg(m, REG_A4), Reg(m, REG_A5)))
    case SysLog => Some(Emission(STDOUT, Reg(m, REG_A3), Reg(m, REG_A4)))
    case _ => None
  }

  /** Those bytes, if they go to `fd` and lie in guest memory. */
  function BytesFor(e: Option<Emission>, m: Mem, fd: u32): seq<byte> {
    if e.Some? && e.value.fd == fd && RunFits(e.value.addr, ByBytes, e.value.len)
    then MemBytes(m, e.value.addr, e.value.len)
    else []
  }

  function Output(io: Io, fd: u32): seq<byte> {
    if fd == STDOUT then io.stdout
    else if fd == STDERR then io.stderr
    else if fd == JOURNAL then io.journal
    else []
  }

  predicate IsOutput(fd: u32) {
    fd == STDOUT || fd == STDERR || fd == JOURNAL
  }

  /** The step at `m` gets as far as carrying out `call`: its reply pointer is null or in guest
      memory, and its name is valid text. */
  predicate Reaches(host: Host, m: Machine, call: Syscall) {
    && IsCall(host, m, call)
    && (InGuest(Reg(m, REG_A0)) || Reg(m, REG_A0) == 0)
    && host.validUtf8(ReadName(Start(m).mem, Reg(m, REG_A2)).0.value)
  }

  /** What the step at `m` sends to `fd`, read off memory before the step. */
  function SentTo(host: Host, m: Machine, fd: u32): seq<byte> {
    if Reaches(host, m, SysWrite) then BytesFor(EmissionOf(SysWrite, m), m.mem, fd)
    else if Reaches(host, m, SysLog) then BytesFor(EmissionOf(SysLog, m), m.mem, fd)
    else []
  }

  lemma EmitSends(size: nat, m: Machine, e: Emission, fd: u32)
    requires IsOutput(fd)
    ensures Output(DoEmit(size, m, e.fd, e.addr, e.len).1.io, fd) == Output(m.io, fd) + BytesFor(Some(e), m.mem, fd)
  {
    EmitsMemory(size, m, e.fd, e.addr, e.len);
    var (answer, m') := DoEmit(size, m, e.fd, e.addr, e.len);
    hide DoEmit, ByteAt, RunFits;
    if answer.Filled? {
      var bytes :| |bytes| == e.len && Shows(m.mem, e.addr, bytes) && Emit(m.io, e.fd, bytes) == Some(m'.io);
      if e.fd == fd {
        ShowsMemBytes(m.mem, e.addr, bytes);
      }
    }
  }

  lemma SyscallSends(host: Host, call: Syscall, size: nat, m: Machine, fd: u32)
    requires IsOutput(fd)
    ensures Output(HandleSyscall(host, call, size, m).1.io, fd) ==
            Output(m.io, fd) + BytesFor(EmissionOf(call, m), m.mem, fd)
  {
    if call == SysWrite || call == SysLog {
      hide BytesFor, DoEmit;
      EmitSends(size, m, EmissionOf(call, m).value, fd);
    } else {
      hide HandleSyscall;
      OtherCallsSilent(host, call, size, m);
    }
  }

  lemma BytesForSame(e: Option<Emission>, a: Mem, b: Mem, fd: u32)
    requires SameWords(a, b)
    ensures BytesFor(e, a, fd) == BytesFor(e, b, fd)
  {
    hide ByteAt, SameWords;
    if e.Some? && RunFits(e.value.addr, ByBytes, e.value.len) {
      SameWordsMemBytes(a, b, e.value.addr, e.value.len);
    }
  }

  /** What the software call at `m` sends, if it gets as far as sending. */
  function SoftwareSent(host: Host, m: Machine, fd: u32): seq<byte> {
    var name := ReadName(m.mem, Reg(m, REG_A2)).0;
    if (InGuest(Reg(m, REG_A0)) || Reg(m, REG_A0) == 0) && name.Some? && host.validUtf8(name.value)
    then BytesFor(EmissionOf(SyscallOf(name.value), m), m.mem, fd)
    else []
  }

  lemma SoftwareSends(host: Host, m: Machine, fd: u32)
    requires IsOutput(fd)
    ensures Output(EcallSoftware(host, m).1.io, fd) == Output(m.io, fd) + SoftwareSent(host, m, fd)
  {
    hide ReadName, SyscallOf, HandleSyscall, BytesFor, SameWords, WriteBytes;
    var (name, mem) := ReadName(m.mem, Reg(m, REG_A2));
    NameMissingIff(m.mem, Reg(m, REG_A2));
    if name.Some? {
      var call, m0 := SyscallOf(name.value), m.(mem := mem);
      SyscallSends(host, call, 4 * (Reg(m, REG_A1) as nat), m0, fd);
      BytesForSame(EmissionOf(call, m), m.mem, mem, fd);
    }
  }

  /** What an instruction sends that starts at `m`. */
  function BodySent(host: Host, m: Machine, insn: u32, fd: u32): seq<byte> {
    if IsEcall(insn) && Reg(m, REG_T0) == 2 then SoftwareSent(host, m, fd) else []
  }

  lemma BodySends(host: Host, m: Machine, insn: u32, fd: u32)
    requires IsOutput(fd)
    ensures Output(Body(host, m, insn).1.io, fd) == Output(m.io, fd) + BodySent(host, m, insn, fd)
  {
    hide ReadMem, WriteMem, EcallSoftware, EcallSha, EcallBigint, SoftwareSent, IsEcall, Output;
    QuietEcalls(host, m);
    SoftwareSends(host, m, fd);
  }

  lemma SentByBody(host: Host, m: Machine, fd: u32)
    requires Insn(m).Some?
    ensures SentTo(host, m, fd) == BodySent(host, Start(m), Insn(m).value, fd)
  {
    StartSame(m);
    var name := ReadName(Start(m).mem, Reg(m, REG_A2)).0;
    hide ReadMem, ReadName, SyscallOf, IsEcall, BytesFor, SameWords;
    NothingSent(m.mem, fd);
    if name.Some? {
      NothingSent(Start(m).mem, fd);
      BytesForSame(EmissionOf(SyscallOf(name.value), m), m.mem, Start(m).mem, fd);
    }
  }

  /** A step, whatever it returns, leaves the streams as its body leaves them. */
  lemma StepIo(host: Host, m: Machine)
    ensures Step(host, m).1.io == if Insn(m).None? then m.io else
              if OpcodeCycle(Insn(m).value).None? then m.io else Settling(host, m).1.io
    ensures Insn(m).Some? && OpcodeCycle(Insn(m).value).None? ==> !IsEcall(Insn(m).value)
  {
    hide ReadMem, Body, Settle;
  }

  /** A step, whether it completes or not, extends each output by exactly what it sends there. */
  lemma StepSends(host: Host, m: Machine, fd: u32)
    requires IsOutput(fd)
    ensures Output(Step(host, m).1.io, fd) == Output(m.io, fd) + SentTo(host, m, fd)
  {
    hide ReadMem, Step, Body, SoftwareSent, OpcodeCycle, Output, SentTo, IsEcall, ReadName;
    StepIo(host, m);
    if Insn(m).Some? {
      SentByBody(host, m, fd);
      BodySends(host, Start(m), Insn(m).value, fd);
    } else {
      NothingFetched(host, m, fd);
    }
  }

  lemma NothingFetched(host: Host, m: Machine, fd: u32)
    requires Insn(m).None?
    ensures SentTo(host, m, fd) == []
  {
  }

  lemma NothingSent(m: Mem, fd: u32)
    ensures BytesFor(None, m, fd) == []
  {
  }

  lemma StartSame(m: Machine)
    ensures SameWords(m.mem, Start(m).mem)
  {
    var mem := ReadMem(m.mem, m.hart.pc, Word, false).1;
    forall p: Page, i: nat | i < 256 ensures WordAt(m.mem, p, i) == WordAt(Start(m).mem, p, i) {
      WordsAfterRead(m.mem, m.hart.pc, Word, false, p, i);
      assert WordAt(Start(m).mem, p, i) == WordAt(mem, p, i);
    }
  }

  // ---------- Whole runs ----------

  /** All that the first `n` steps send to `fd`, end to end. */
  function RunSent(host: Host, m: Machine, n: nat, fd: u32): seq<byte> {
    if n == 0 then [] else RunSent(host, m, n - 1, fd) + SentTo(host, After(host, m, n - 1), fd)
  }

  /** Outputs are exact: over any run, its failed steps included, each output is what it was,
      with the bytes that the calls of the run send after it, and nothing else. */
  lemma {:induction false} RunSends(host: Host, m: Machine, n: nat, fd: u32)
    requires IsOutput(fd)
    ensures Output(After(host, m, n).io, fd) == Output(m.io, fd) + RunSent(host, m, n, fd)
  {
    hide Step, SentTo, Output;
    if n > 0 {
      RunSends(host, m, n - 1, fd);
      StepSends(host, After(host, m, n - 1), fd);
    }
  }
}
