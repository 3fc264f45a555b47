/** The simulator: the machine kept in place, with its system calls and environment calls. */
module Simulator {
  import opened Words
  import opened SessionCycle
  import opened PagedMemory
  import opened Machine
  import opened Trace
  import M = Machine

  class Simulator {
    const mem: Memory
    const sessionCycleCount: SessionCycleCount
    const host: Host

    var hartState: Hart
    var env: map<seq<byte>, seq<byte>>
    var args: seq<seq<byte>>
    var stdin: seq<byte>
    var stdinPos: nat
    var stdout: seq<byte>
    var stderr: seq<byte>
    var journal: seq<byte>
    var drawn: nat

    /** A machine at `entry` over a memory that an ELF loader may have filled already. */
    constructor (mem: Memory, entry: u32, env: map<seq<byte>, seq<byte>>, host: Host)
      modifies mem
      ensures this.mem == mem && this.host == host && Valid()
      ensures fresh(sessionCycleCount)
      ensures View() == Machine(Hart(entry, seq(32, _ => 0)), old(mem.View()).(ledger := Some(EMPTY)),
                                Io([], 0, [], [], [], 0), env, [])
    {
      this.mem := mem;
      this.host := host;
      this.env := env;
      var registers: Registers := seq(32, _ => 0);
      hartState := Hart(entry, registers);
      args := [];
      stdin, stdinPos := [], 0;
      stdout, stderr, journal := [], [], [];
      drawn := 0;
      var count := new SessionCycleCount();
      sessionCycleCount := count;
      new;
      mem.WithSessionCycleCallback(count);
    }

    ghost predicate Wired()
      reads this, mem
    {
      mem.sessionCycleCallback == sessionCycleCount
    }

    ghost predicate Valid()
      reads this, mem, sessionCycleCount
    {
      Wired() && Sound(sessionCycleCount.View())
    }

    ghost function CurrentIo(): Io
      reads this
    {
      Io(stdin, stdinPos, stdout, stderr, journal, drawn)
    }

    ghost function View(): M.Machine
      reads this, mem, mem.sessionCycleCallback
    {
      Machine(hartState, mem.View(), CurrentIo(), env, args)
    }

    /** The host's end of the guest's input: data only ever joins the end of standard input. */
    method Write(fd: u32, data: seq<byte>) returns (ok: bool)
      modifies this`stdin
      ensures ok == (fd == STDIN)
      ensures stdin == if ok then old(stdin) + data else old(stdin)
    {
      ok := fd == STDIN;
      if ok {
        stdin := stdin + data;
      }
    }

    // ---------- Guest memory ----------

    method ReadGuestBytes(ptr: u32, len: nat) returns (bytes: Option<seq<byte>>)
      requires Wired()
      modifies mem, sessionCycleCount
      ensures Wired()
      ensures (bytes, mem.View()) == ReadBytes(old(mem.View()), ptr, len)
    {
      var buf: seq<byte> := [];
      ghost var loads, replies: seq<u32> := Loads(ptr, ByBytes, len, Byte), [];
      NothingPerformed(mem.View(), loads);
      hide Perform, Loads, ReadMem;
      for i := 0 to len
        invariant Wired() && |replies| == i && buf == LowBytes(replies)
        invariant Perform(old(mem.View()), loads[..i]) == (replies, mem.View())
      {
        NextLoad(old(mem.View()), ptr, ByBytes, len, Byte, i);
        var b := mem.ReadMemWithPrivileges(Wrap(ptr + i), Byte, false);
        if b.None? {
          return None;
        }
        buf := buf + [b.value % 0x100];
        replies := replies + [b.value];
      }
      assert loads[..len] == loads;
      bytes := Some(buf);
    }

    method ReadGuestWords(ptr: u32, count: nat) returns (words: Option<seq<u32>>)
      requires Wired()
      modifies mem, sessionCycleCount
      ensures Wired()
      ensures (words, mem.View()) == ReadWords(old(mem.View()), ptr, count)
    {
      var buf: seq<u32> := [];
      ghost var loads := Loads(ptr, ByWords, count, Word);
      NothingPerformed(mem.View(), loads);
      hide Perform, Loads, ReadMem;
      for i := 0 to count
        invariant Wired() && |buf| == i
        invariant Perform(old(mem.View()), loads[..i]) == (buf, mem.View())
      {
        NextLoad(old(mem.View()), ptr, ByWords, count, Word, i);
        var w := mem.ReadMemWithPrivileges(Wrap(ptr + 4 * i), Word, false);
        if w.None? {
          return None;
        }
        buf := buf + [w.value];
      }
      assert loads[..count] == loads;
      words := Some(buf);
    }

    method WriteGuestBytes(ptr: u32, spacing: Spacing, data: seq<u32>) returns (ok: bool)
      requires Wired()
      modifies mem, sessionCycleCount
      ensures Wired()
      ensures (ok, mem.View()) == WriteBytes(old(mem.View()), ptr, spacing, data)
    {
      ghost var stores, replies: seq<u32> := Stores(ptr, spacing, data), [];
      NothingPerformed(mem.View(), stores);
      hide Perform, Stores, WriteMem, Apart;
      for i := 0 to |data|
        invariant Wired() && |replies| == i
        invariant Perform(old(mem.View()), stores[..i]) == (replies, mem.View())
      {
        NextStore(old(mem.View()), ptr, spacing, data, i);
        var written := mem.WriteMemWithPrivileges(Wrap(ptr + Apart(spacing, i)), Byte, data[i], false);
        if !written {
          return false;
        }
        replies := replies + [0];
      }
      assert stores[..|data|] == stores;
      ok := true;
    }

    method ReadGuestName(namePtr: u32) returns (name: Option<seq<byte>>)
      requires Wired()
      modifies mem, sessionCycleCount
      ensures Wired()
      ensures (name, mem.View()) == ReadName(old(mem.View()), namePtr)
    {
      var addr := namePtr;
      var s: seq<byte> := [];
      PrependedNothing(ReadName(mem.View(), addr));
      while true
        invariant Wired()
        invariant ReadName(old(mem.View()), namePtr) == Prepended(s, ReadName(mem.View(), addr))
        decreases if InGuest(addr) then GUEST_MAX_MEM + 1 - addr else 0
      {
        ghost var rest := ReadName(mem.View(), addr);
        var b := mem.ReadMemWithPrivileges(addr, Byte, false);
        if b.None? {
          return None;
        }
        if b.value % 0x100 == 0 {
          return Some(s + []);
        }
        PrependedTwice(s, b.value % 0x100, ReadName(mem.View(), addr + 1));
        s := s + [b.value % 0x100];
        addr := addr + 1;
      }
    }

    // ---------- System calls ----------

    /** The two results of a system call. */
    method SetResults(a0: u32, a1: u32)
      modifies this`hartState
      ensures View() == Return(old(View()), a0, a1)
    {
      hartState := hartState.(regs := hartState.regs[REG_A0 := a0]);
      hartState := hartState.(regs := hartState.regs[REG_A1 := a1]);
    }

    method Random(toGuest: array<byte>) returns (answer: Answer)
      modifies this, toGuest
      ensures (answer, View()) == DoRandom(host, toGuest.Length, old(View()))
      ensures answer.Filled? && toGuest[..] == answer.toGuest
    {
      for i := 0 to toGuest.Length
        invariant View() == old(View())
        invariant forall k | 0 <= k < i :: toGuest[k] == host.entropy(drawn + k)
      {
        toGuest[i] := host.entropy(drawn + i);
      }
      assert toGuest[..] == Entropy(host, drawn, toGuest.Length);
      drawn := drawn + toGuest.Length;
      SetResults(0, 0);
      answer := Filled(toGuest[..]);
    }

    /** `val` copied into the front of the zeroed buffer, as far as it goes. */
    static method CopyPrefix(val: seq<byte>, toGuest: array<byte>)
      requires toGuest[..] == Zeros(toGuest.Length)
      modifies toGuest
      ensures toGuest[..] == Padded(val, toGuest.Length)
    {
      var nbytes := if toGuest.Length <= |val| then toGuest.Length else |val|;
      for i := 0 to nbytes
        invariant forall k | 0 <= k < i :: toGuest[k] == val[k]
        invariant forall k | i <= k < toGuest.Length :: toGuest[k] == 0
      {
        assert i < nbytes;
        toGuest[i] := val[i];
      }
    }

    method Getenv(toGuest: array<byte>) returns (answer: Answer)
      requires Wired() && toGuest[..] == Zeros(toGuest.Length)
      modifies this, mem, sessionCycleCount, toGuest
      ensures Wired()
      ensures (answer, View()) == DoGetenv(host, toGuest.Length, old(View()))
      ensures answer.Filled? ==> toGuest[..] == answer.toGuest
    {
      var key := ReadGuestBytes(hartState.regs[REG_A3], hartState.regs[REG_A4]);
      if key.None? || !host.validUtf8(key.value) {
        return Refused;
      }
      if key.value in env {
        var val := env[key.value];
        CopyPrefix(val, toGuest);
        SetResults(Wrap(|val|), 0);
      } else {
        SetResults(0xFFFF_FFFF, 0);
      }
      answer := Filled(toGuest[..]);
    }

    /** Reads from standard input until the buffer is full or the input is used up. */
    method ReadAll(buf: array<byte>, want: nat) returns (nread: nat)
      requires want <= buf.Length
      modifies this`stdinPos, buf
      ensures nread == |Take(old(CurrentIo()), want)|
      ensures stdinPos == old(stdinPos) + nread
      ensures buf[..nread] == Take(old(CurrentIo()), want)
      ensures buf[nread..] == old(buf[..])[nread..]
    {
      nread := 0;
      while nread < want && stdinPos < |stdin|
        invariant nread <= want
        invariant stdinPos == old(stdinPos) + nread
        invariant nread > 0 ==> stdinPos <= |stdin|
        invariant forall k | 0 <= k < nread :: buf[k] == stdin[old(stdinPos) + k]
        invariant forall k | nread <= k < buf.Length :: buf[k] == old(buf[k])
      {
        buf[nread] := stdin[stdinPos];
        nread := nread + 1;
        stdinPos := stdinPos + 1;
      }
    }

    method ReadStdin(toGuest: array<byte>) returns (answer: Answer)
      requires toGuest[..] == Zeros(toGuest.Length)
      modifies this, toGuest
      ensures (answer, View()) == DoRead(toGuest.Length, old(View()))
      ensures answer.Filled? ==> toGuest[..] == answer.toGuest
    {
      hide Take, Padded, Compose;
      var fd := hartState.regs[REG_A3];
      var nbytes := hartState.regs[REG_A4];
      if nbytes < toGuest.Length {
        return Aborted;
      }
      if fd != STDIN {
        return Refused;
      }
      var nreadMain := ReadAll(toGuest, toGuest.Length);
      ghost var main := Take(old(CurrentIo()), toGuest.Length);
      assert toGuest[..nreadMain] == main;
      if nreadMain != toGuest.Length {
        return Aborted;
      }
      assert toGuest[..] == main;
      var unalignedEnd := nbytes - nreadMain;
      if unalignedEnd > 4 {
        return Aborted;
      }
      var nreadEnd, word := ReadTail(unalignedEnd);
      SetResults(Wrap(nreadMain + nreadEnd), word);
      answer := Filled(toGuest[..]);
    }

    /** The bytes beyond the last whole word, in a word of their own. */
    method ReadTail(want: nat) returns (nread: nat, word: u32)
      requires want <= 4
      modifies this`stdinPos
      ensures nread == |Take(old(CurrentIo()), want)| && stdinPos == old(stdinPos) + nread
      ensures var end := Padded(Take(old(CurrentIo()), want), 4); word == Compose(end[0], end[1], end[2], end[3])
    {
      hide Take, Compose;
      var toGuestEnd := new byte[4](_ => 0);
      nread := ReadAll(toGuestEnd, want);
      PaddedAt(Take(old(CurrentIo()), want), 4, toGuestEnd[..]);
      word := Compose(toGuestEnd[0], toGuestEnd[1], toGuestEnd[2], toGuestEnd[3]);
    }

    /** The body that SYS_WRITE and SYS_LOG share: collect the bytes, then append them. */
    method EmitBytes(toGuest: array<byte>, fd: u32, ptr: u32, len: u32) returns (answer: Answer)
      requires Wired() && toGuest[..] == Zeros(toGuest.Length)
      modifies this, mem, sessionCycleCount
      ensures Wired()
      ensures (answer, View()) == DoEmit(toGuest.Length, old(View()), fd, ptr, len)
      ensures answer.Filled? ==> toGuest[..] == answer.toGuest
    {
      var bytes := ReadGuestBytes(ptr, len);
      if bytes.None? {
        return Refused;
      }
      if fd == STDOUT {
        stdout := stdout + bytes.value;
      } else if fd == STDERR {
        stderr := stderr + bytes.value;
      } else if fd == JOURNAL {
        journal := journal + bytes.value;
      } else {
        return Refused;
      }
      SetResults(0, 0);
      answer := Filled(toGuest[..]);
    }

    method HandleSyscall(name: seq<byte>, toGuest: array<byte>) returns (answer: Answer)
      requires Wired() && toGuest[..] == Zeros(toGuest.Length)
      modifies this, mem, sessionCycleCount, toGuest
      ensures Wired()
      ensures (answer, View()) == M.HandleSyscall(host, SyscallOf(name), toGuest.Length, old(View()))
      ensures answer.Filled? ==> toGuest[..] == answer.toGuest
    {
      hide SyscallOf, DoRandom, DoGetenv, DoRead, DoEmit, ReadBytes, Return;
      answer := Filled(toGuest[..]);
      match SyscallOf(name)
      case SysRandom =>
        answer := Random(toGuest);
      case SysCycleCount =>
        var cycles := sessionCycleCount.GetSessionCycle();
        SetResults(Wrap(cycles), 0);
      case SysPanic =>
        var message := ReadGuestBytes(hartState.regs[REG_A3], hartState.regs[REG_A4]);
        answer := Refused;
      case SysGetenv =>
        answer := Getenv(toGuest);
      case SysRead =>
        answer := ReadStdin(toGuest);
      case SysReadAvail =>
        if hartState.regs[REG_A3] != STDIN {
          return Refused;
        }
        SetResults(Wrap(|stdin| - stdinPos), 0);
      case SysWrite =>
        answer := EmitBytes(toGuest, hartState.regs[REG_A3], hartState.regs[REG_A4], hartState.regs[REG_A5]);
      case SysLog =>
        answer := EmitBytes(toGuest, STDOUT, hartState.regs[REG_A3], hartState.regs[REG_A4]);
      case SysVerify =>
        SetResults(0, 0);
      case SysArgc =>
        SetResults(Wrap(|args|), 0);
      case SysArgs =>
        var index := hartState.regs[REG_A3];
        if index >= |args| {
          return Refused;
        }
        CopyPrefix(args[index], toGuest);
        SetResults(Wrap(|args[index]|), 0);
        answer := Filled(toGuest[..]);
      case SysUnknown =>
    }

    // ---------- Environment calls ----------

    method EcallHalt() returns (outcome: Outcome)
      ensures (outcome, View()) == M.EcallHalt(old(View()))
    {
      var totReg := hartState.regs[REG_A0];
      var haltType := totReg % 0x100;
      var userExit := totReg / 0x100 % 0x100;
      if haltType == 0 {
        return Proceed(hartState.pc, Some(Halted(userExit)), 0);
      } else if haltType == 1 {
        return Proceed(hartState.pc, Some(Paused(userExit)), 0);
      } else {
        return Fail;
      }
    }

    method EcallSoftware() returns (outcome: Outcome)
      requires Wired()
      modifies this, mem, sessionCycleCount
      ensures Wired()
      ensures (outcome, View()) == M.EcallSoftware(host, old(View()))
    {
      hide SyscallOf, M.HandleSyscall, ReadName, M.CopyOut;
      var toGuestPtr := hartState.regs[REG_A0];
      if (toGuestPtr < GUEST_MIN_MEM || toGuestPtr > GUEST_MAX_MEM) && toGuestPtr != 0 {
        return Fail;
      }
      var toGuestWords: nat := hartState.regs[REG_A1];
      var namePtr := hartState.regs[REG_A2];
      var name := ReadGuestName(namePtr);
      if name.None? || !host.validUtf8(name.value) {
        return Fail;
      }
      var toGuest := new byte[4 * toGuestWords](_ => 0);
      assert toGuest[..] == Zeros(toGuest.Length);
      var answer := HandleSyscall(name.value, toGuest);
      match answer
      case Refused => return Fail;
      case Aborted => return Panic;
      case Filled(_) =>
        outcome := CopyOut(toGuestPtr, toGuest[..], toGuestWords);
    }

    method CopyOut(toGuestPtr: u32, data: seq<byte>, toGuestWords: u32) returns (outcome: Outcome)
      requires Wired()
      modifies this, mem, sessionCycleCount
      ensures Wired()
      ensures (outcome, View()) == M.CopyOut(old(View()), toGuestPtr, data, toGuestWords)
    {
      hide WriteBytes;
      if toGuestPtr != 0 {
        var ok := WriteGuestBytes(toGuestPtr, ByBytes, data);
        if !ok {
          return Fail;
        }
      }
      var chunks := AlignUp(toGuestWords);
      outcome := Proceed(Wrap(hartState.pc + 4), None, 1 + chunks + 1);
    }

    method EcallSha() returns (outcome: Outcome)
      requires Wired()
      modifies this, mem, sessionCycleCount
      ensures Wired()
      ensures (outcome, View()) == M.EcallSha(host, old(View()))
    {
      hide ReadBytes, WriteBytes, ShaBlocks, FromBigEndian, BigEndian;
      var outStatePtr := hartState.regs[REG_A0];
      var inStatePtr := hartState.regs[REG_A1];
      var count: nat := hartState.regs[REG_A4];
      var inState := ReadGuestBytes(inStatePtr, 32);
      if inState.None? {
        return Fail;
      }
      var state := FromBigEndian(inState.value);
      var folded := FoldBlocks(state, hartState.regs[REG_A2], hartState.regs[REG_A3], count);
      if folded.None? {
        return Fail;
      }
      var ok := WriteGuestBytes(outStatePtr, ByBytes, BigEndian(folded.value));
      if !ok {
        return Fail;
      }
      outcome := Proceed(Wrap(hartState.pc + 4), None, Wrap(73 * count));
    }

    method FoldBlocks(state0: Digest, block1: u32, block2: u32, count: nat) returns (folded: Option<Digest>)
      requires Wired()
      modifies mem, sessionCycleCount
      ensures Wired()
      ensures (folded, mem.View()) == ShaBlocks(host, old(mem.View()), state0, block1, block2, count)
    {
      hide ReadWords;
      var state, block1Ptr, block2Ptr := state0, block1, block2;
      for k := 0 to count
        invariant Wired()
        invariant ShaBlocks(host, old(mem.View()), state0, block1, block2, count) ==
                  ShaBlocks(host, mem.View(), state, block1Ptr, block2Ptr, count - k)
      {
        var half1 := ReadGuestWords(block1Ptr, 8);
        if half1.None? {
          return None;
        }
        var half2 := ReadGuestWords(block2Ptr, 8);
        if half2.None? {
          return None;
        }
        state := host.compress(state, LittleEndian(half1.value + half2.value));
        block1Ptr := Wrap(block1Ptr as int + 64);
        block2Ptr := Wrap(block2Ptr as int + 64);
      }
      folded := Some(state);
    }

    method EcallBigint() returns (outcome: Outcome)
      requires Wired()
      modifies this, mem, sessionCycleCount
      ensures Wired()
      ensures (outcome, View()) == M.EcallBigint(host, old(View()))
    {
      hide ReadWords, WriteBytes;
      if hartState.regs[REG_A1] != 0 {
        return Fail;
      }
      var x := ReadGuestWords(hartState.regs[REG_A2], 8);
      if x.None? {
        return Fail;
      }
      var y := ReadGuestWords(hartState.regs[REG_A3], 8);
      if y.None? {
        return Fail;
      }
      var n := ReadGuestWords(hartState.regs[REG_A4], 8);
      if n.None? {
        return Fail;
      }
      var z := host.modMul(x.value, y.value, n.value);
      if z.None? {
        return Panic;
      }
      var ok := WriteGuestBytes(hartState.regs[REG_A0], ByWords, z.value);
      if !ok {
        return Fail;
      }
      outcome := Proceed(Wrap(hartState.pc + 4), None, 9);
    }

    method Ecall() returns (outcome: Outcome)
      requires Wired()
      modifies this, mem, sessionCycleCount
      ensures Wired()
      ensures (outcome, View()) == M.Ecall(host, old(View()))
    {
      hide M.EcallHalt, M.EcallSoftware, M.EcallSha, M.EcallBigint;
      var call := hartState.regs[REG_T0];
      if call == 0 {
        outcome := EcallHalt();
      } else if call == 1 {
        outcome := Proceed(Wrap(hartState.pc + 4), None, 0);
      } else if call == 2 {
        outcome := EcallSoftware();
      } else if call == 3 {
        outcome := EcallSha();
      } else if call == 4 {
        outcome := EcallBigint();
      } else {
        outcome := Fail;
      }
    }

    // ---------- One step ----------

    /** The executor's own step: a second fetch and at most one data access. */
    method Execute() returns (ok: bool)
      requires Wired()
      modifies this, mem, sessionCycleCount
      ensures Wired()
      ensures (ok, View()) == M.Execute(host, old(View()))
    {
      var insn := mem.ReadMemWithPrivileges(hartState.pc, Word, false);
      if insn.None? {
        return false;
      }
      match host.decode(hartState, insn.value)
      case Retire(hart) =>
        hartState := hart;
        ok := true;
      case Trap(hart) =>
        hartState := hart;
        ok := false;
      case LoadThen(addr, size, resume, fault) =>
        var value := None;
        if Aligned(addr, size) {
          value := mem.ReadMemWithPrivileges(addr, size, false);
        }
        ok := value.Some?;
        hartState := if ok then resume(value.value) else fault;
      case StoreThen(addr, size, data, done, fault) =>
        ok := false;
        if Aligned(addr, size) {
          ok := mem.WriteMemWithPrivileges(addr, size, data, false);
        }
        hartState := if ok then done else fault;
    }

    /** The precondition leaves out only the steps whose charge is retried for ever. */
    method Step() returns (result: StepResult)
      requires Valid() && M.Step(host, View()).0 != Hung
      modifies this, mem, sessionCycleCount
      ensures Valid()
      ensures (result, View()) == M.Step(host, old(View()))
    {
      hide OpcodeCycle, M.Body, Settle, Follows, Sound;
      var insn := mem.ReadMemWithPrivileges(hartState.pc, Word, false);
      ghost var fetched := mem.View();
      assert SameBooks(old(mem.View()), fetched) by {
        ReadFollows(old(mem.View()), hartState.pc, Word);
        FollowsKeepsBooks(old(mem.View()), fetched);
      }
      SameBooksSound(old(mem.View()), fetched);
      if insn.None? {
        return Failed;
      }
      mem.ClearTrigger();
      assert View() == Cleared(old(View()), fetched);
      var opcodeCycle := OpcodeCycle(insn.value);
      if opcodeCycle.None? {
        return Failed;
      }
      var outcome := RunBody(insn.value);
      match outcome
      case Fail => return Failed;
      case Panic => return Panicked;
      case Proceed(_, exit, extra) => result := Charge(opcodeCycle.value, extra, exit);
    }

    method RunBody(insn: u32) returns (outcome: Outcome)
      requires Valid()
      modifies this, mem, sessionCycleCount
      ensures Valid()
      ensures (outcome, View()) == M.Body(host, old(View()), insn)
    {
      hide M.Ecall, M.Execute, Follows, Sound;
      if IsEcall(insn) {
        outcome := Ecall();
        EcallFollows(host, old(View()));
        FollowsKeepsBooks(old(mem.View()), mem.View());
        SameBooksSound(old(mem.View()), mem.View());
        if outcome.Proceed? {
          hartState := hartState.(pc := outcome.pc);
        }
      } else {
        var ok := Execute();
        ExecuteFollows(host, old(View()));
        FollowsKeepsBooks(old(mem.View()), mem.View());
        SameBooksSound(old(mem.View()), mem.View());
        outcome := if ok then Proceed(hartState.pc, None, 0) else Fail;
      }
    }

    /** The end of a step: the accountant's callback, then the exit code or the watch trigger. */
    method Charge(opcodeCycle: nat, extraCycle: nat, exit: Option<Exit>) returns (result: StepResult)
      requires Valid() && Finish(View(), exit, opcodeCycle + extraCycle).0 != Hung
      modifies this, mem, sessionCycleCount
      ensures Valid()
      ensures (result, View()) == Finish(old(View()), exit, opcodeCycle + extraCycle)
    {
      hide Settle, Sound;
      sessionCycleCount.CallbackStep(opcodeCycle, extraCycle);
      if exit.None? && mem.watchTrigger.Some? {
        return Ran(Some(HwWatchPoint(mem.watchTrigger.value)));
      } else {
        return Ran(exit);
      }
    }
  }

  lemma SameBooksSound(m: Mem, m': Mem)
    requires SameBooks(m, m') && m.ledger.Some? && Sound(m.ledger.value)
    ensures m'.ledger.Some? && Sound(m'.ledger.value)
  {
  }

  lemma PaddedAt(bytes: seq<byte>, size: nat, buffer: seq<byte>)
    requires |bytes| <= size == |buffer| && bytes == buffer[..|bytes|]
    requires forall k | |bytes| <= k < size :: buffer[k] == 0
    ensures buffer == Padded(bytes, size)
  {
  }

  lemma NothingPerformed(m: Mem, accesses: seq<Access>)
    ensures Perform(m, accesses[..0]) == ([], m)
  {
  }

  /** One more load of a run. */
  lemma NextLoad(m: Mem, addr: u32, spacing: Spacing, count: nat, size: Size, i: nat)
    requires i < count && |Perform(m, Loads(addr, spacing, count, size)[..i]).0| == i
    ensures var loads := Loads(addr, spacing, count, size);
            var (rs, mi) := Perform(m, loads[..i]);
            var (reply, m') := ReadMem(mi, Wrap(addr + Apart(spacing, i)), size, false);
            && (reply.None? ==> Perform(m, loads) == (rs, m'))
            && (reply.Some? ==> Perform(m, loads[..i + 1]) == (rs + [reply.value], m'))
  {
    hide Perform, ReadMem;
    PerformNext(m, Loads(addr, spacing, count, size), i);
  }

  /** One more store of a run. */
  lemma NextStore(m: Mem, addr: u32, spacing: Spacing, data: seq<u32>, i: nat)
    requires i < |data| && |Perform(m, Stores(addr, spacing, data)[..i]).0| == i
    ensures var stores := Stores(addr, spacing, data);
            var (rs, mi) := Perform(m, stores[..i]);
            var (ok, m') := WriteMem(mi, Wrap(addr + Apart(spacing, i)), Byte, data[i], false);
            && (!ok ==> Perform(m, stores) == (rs, m'))
            && (ok ==> Perform(m, stores[..i + 1]) == (rs + [0], m'))
  {
    hide Perform, WriteMem;
    PerformNext(m, Stores(addr, spacing, data), i);
  }

  /** A name whose first bytes were read already. */
  ghost function Prepended(s: seq<byte>, rest: (Option<seq<byte>>, Mem)): (Option<seq<byte>>, Mem) {
    (if rest.0.None? then None else Some(s + rest.0.value), rest.1)
  }

  lemma PrependedNothing(rest: (Option<seq<byte>>, Mem))
    ensures Prepended([], rest) == rest
  {
    if rest.0.Some? { assert [] + rest.0.value == rest.0.value; }
  }

  lemma PrependedTwice(s: seq<byte>, b: byte, rest: (Option<seq<byte>>, Mem))
    ensures Prepended(s + [b], rest) ==
            Prepended(s, (if rest.0.None? then None else Some([b] + rest.0.value), rest.1))
  {
    if rest.0.Some? { assert s + [b] + rest.0.value == s + ([b] + rest.0.value); }
  }
}
