/**
 Debugging is transparent, step by step: machines that differ only in watchpoints, in the
 watch trigger and in pages of zeros that one of them has allocated compute the same.
 */
module Transparency {
  import opened Words
  import opened SessionCycle
  import opened PagedMemory
  import opened FlatMemory
  import opened Machine

  ghost predicate SameWords(a: Mem, b: Mem) {
    forall p: Page, i: nat | i < 256 :: WordAt(a, p, i) == WordAt(b, p, i)
  }

  /** The same words, books and history; watchpoints, trigger and allocation may differ. */
  ghost predicate Related(a: Mem, b: Mem) {
    SameWords(a, b) && a.ledger == b.ledger && a.log == b.log
  }

  ghost predicate Twins(a: Machine, b: Machine) {
    b == a.(mem := b.mem) && Related(a.mem, b.mem)
  }

  lemma SamePages(a: Mem, b: Mem, c: Mem, d: Mem)
    requires SameWords(a, b) && c.pages == a.pages && d.pages == b.pages
    ensures SameWords(c, d)
  {
    forall p: Page, i: nat | i < 256 ensures WordAt(c, p, i) == WordAt(d, p, i) {
      assert WordAt(c, p, i) == WordAt(a, p, i) && WordAt(d, p, i) == WordAt(b, p, i);
    }
  }

  lemma SameWordsSelf(m: Mem)
    ensures SameWords(m, m)
  {
  }

  lemma SameWordsThrough(a: Mem, b: Mem, c: Mem)
    requires SameWords(a, b) && SameWords(b, c)
    ensures SameWords(a, c)
  {
    forall p: Page, i: nat | i < 256 ensures WordAt(a, p, i) == WordAt(c, p, i) {
      assert WordAt(a, p, i) == WordAt(b, p, i);
    }
  }

  lemma SameWordsByte(a: Mem, b: Mem, addr: u32)
    requires SameWords(a, b)
    ensures ByteAt(a, addr) == ByteAt(b, addr)
  {
  }

  // ---------- Memory ----------

  lemma ReadRelated(a: Mem, b: Mem, addr: u32, size: Size, privileged: bool)
    requires Related(a, b)
    ensures ReadMem(a, addr, size, privileged).0 == ReadMem(b, addr, size, privileged).0
    ensures Related(ReadMem(a, addr, size, privileged).1, ReadMem(b, addr, size, privileged).1)
  {
    var a', b' := ReadMem(a, addr, size, privileged).1, ReadMem(b, addr, size, privileged).1;
    forall p: Page, i: nat | i < 256 ensures WordAt(a', p, i) == WordAt(b', p, i) {
      WordsAfterRead(a, addr, size, privileged, p, i);
      WordsAfterRead(b, addr, size, privileged, p, i);
    }
    WordsAfterRead(a, addr, size, privileged, 0, 0);
    WordsAfterRead(b, addr, size, privileged, 0, 0);
    hide WordAt, FirstMatch, Fetched;
    assert a'.ledger == b'.ledger && a'.log == b'.log;
  }

  lemma WriteRelated(a: Mem, b: Mem, addr: u32, size: Size, data: u32, privileged: bool)
    requires Related(a, b)
    ensures WriteMem(a, addr, size, data, privileged).0 == WriteMem(b, addr, size, data, privileged).0
    ensures Related(WriteMem(a, addr, size, data, privileged).1, WriteMem(b, addr, size, data, privileged).1)
  {
    var a', b' := WriteMem(a, addr, size, data, privileged).1, WriteMem(b, addr, size, data, privileged).1;
    forall p: Page, i: nat | i < 256 ensures WordAt(a', p, i) == WordAt(b', p, i) {
      WordsAfterWrite(a, addr, size, data, privileged, p, i);
      WordsAfterWrite(b, addr, size, data, privileged, p, i);
    }
    hide WordAt, FirstMatch, Fetched, Stored;
    assert a'.ledger == b'.ledger && a'.log == b'.log;
  }

  lemma {:induction false} PerformRelated(a: Mem, b: Mem, accesses: seq<Access>)
    requires Related(a, b)
    ensures Perform(a, accesses).0 == Perform(b, accesses).0
    ensures Related(Perform(a, accesses).1, Perform(b, accesses).1)
    decreases accesses
  {
    hide Related, ReadMem, WriteMem;
    if accesses != [] {
      match accesses[0] {
        case Load(addr, size) => ReadRelated(a, b, addr, size, false);
        case Store(addr, size, data) => WriteRelated(a, b, addr, size, data, false);
      }
      PerformRelated(Do(a, accesses[0]).1, Do(b, accesses[0]).1, accesses[1..]);
    }
  }

  lemma NameBounded(m: Mem, addr: u32)
    ensures ReadMem(m, addr, Byte, false).0.Some? <==> InGuest(addr)
  {
  }

  lemma {:induction false} ReadNameRelated(a: Mem, b: Mem, addr: u32)
    requires Related(a, b)
    ensures ReadName(a, addr).0 == ReadName(b, addr).0
    ensures Related(ReadName(a, addr).1, ReadName(b, addr).1)
    decreases if InGuest(addr) then GUEST_MAX_MEM + 1 - addr else 0
  {
    hide Related, ReadMem;
    ReadRelated(a, b, addr, Byte, false);
    NameBounded(a, addr);
    var (c, a1) := ReadMem(a, addr, Byte, false);
    if c.Some? && c.value % 0x100 != 0 {
      ReadNameRelated(a1, ReadMem(b, addr, Byte, false).1, addr + 1);
    }
  }

  lemma {:induction false} ShaBlocksRelated(host: Host, a: Mem, b: Mem, state: Digest, block1: u32, block2: u32,
                                            count: nat)
    requires Related(a, b)
    ensures ShaBlocks(host, a, state, block1, block2, count).0 == ShaBlocks(host, b, state, block1, block2, count).0
    ensures Related(ShaBlocks(host, a, state, block1, block2, count).1,
                    ShaBlocks(host, b, state, block1, block2, count).1)
    decreases count
  {
    hide Related, Perform;
    if count > 0 {
      PerformRelated(a, b, Loads(block1, ByWords, 8, Word));
      var (half1, a1) := ReadWords(a, block1, 8);
      var b1 := ReadWords(b, block1, 8).1;
      if half1.Some? {
        PerformRelated(a1, b1, Loads(block2, ByWords, 8, Word));
        var (half2, a2) := ReadWords(a1, block2, 8);
        var b2 := ReadWords(b1, block2, 8).1;
        if half2.Some? {
          var next := host.compress(state, LittleEndian(half1.value + half2.value));
          ShaBlocksRelated(host, a2, b2, next, Wrap(block1 + 64), Wrap(block2 + 64), count - 1);
        }
      }
    }
  }

  // ---------- System and environment calls ----------

  lemma ReadBytesTwins(a: Machine, b: Machine, addr: u32, count: nat)
    requires Twins(a, b)
    ensures ReadBytes(a.mem, addr, count).0 == ReadBytes(b.mem, addr, count).0
    ensures Twins(a.(mem := ReadBytes(a.mem, addr, count).1), b.(mem := ReadBytes(b.mem, addr, count).1))
  {
    hide Related, Perform, Loads;
    PerformRelated(a.mem, b.mem, Loads(addr, ByBytes, count, Byte));
  }

  lemma WriteBytesTwins(a: Machine, b: Machine, addr: u32, spacing: Spacing, data: seq<u32>)
    requires Twins(a, b)
    ensures WriteBytes(a.mem, addr, spacing, data).0 == WriteBytes(b.mem, addr, spacing, data).0
    ensures Twins(a.(mem := WriteBytes(a.mem, addr, spacing, data).1),
                  b.(mem := WriteBytes(b.mem, addr, spacing, data).1))
  {
    hide Related, Perform, Stores;
    PerformRelated(a.mem, b.mem, Stores(addr, spacing, data));
  }

  lemma ReadWordsTwins(a: Machine, b: Machine, addr: u32)
    requires Twins(a, b)
    ensures ReadWords(a.mem, addr, 8).0 == ReadWords(b.mem, addr, 8).0
    ensures Twins(a.(mem := ReadWords(a.mem, addr, 8).1), b.(mem := ReadWords(b.mem, addr, 8).1))
  {
    hide Related, Perform, Loads;
    PerformRelated(a.mem, b.mem, Loads(addr, ByWords, 8, Word));
  }

  lemma GetenvTwins(host: Host, size: nat, a: Machine, b: Machine)
    requires Twins(a, b)
    ensures DoGetenv(host, size, a).0 == DoGetenv(host, size, b).0
    ensures Twins(DoGetenv(host, size, a).1, DoGetenv(host, size, b).1)
  {
    hide Related, ReadBytes, Padded, Zeros;
    ReadBytesTwins(a, b, Reg(a, REG_A3), Reg(a, REG_A4));
  }

  lemma EmitTwins(size: nat, a: Machine, b: Machine, fd: u32, addr: u32, len: u32)
    requires Twins(a, b)
    ensures DoEmit(size, a, fd, addr, len).0 == DoEmit(size, b, fd, addr, len).0
    ensures Twins(DoEmit(size, a, fd, addr, len).1, DoEmit(size, b, fd, addr, len).1)
  {
    hide Related, ReadBytes, Emit, Zeros;
    ReadBytesTwins(a, b, addr, len);
  }

  /** The remaining calls do not touch memory. */
  lemma QuietTwins(host: Host, size: nat, a: Machine, b: Machine)
    requires Twins(a, b)
    ensures DoRandom(host, size, a).0 == DoRandom(host, size, b).0 &&
            Twins(DoRandom(host, size, a).1, DoRandom(host, size, b).1)
    ensures DoCycleCount(size, a).0 == DoCycleCount(size, b).0 &&
            Twins(DoCycleCount(size, a).1, DoCycleCount(size, b).1)
    ensures DoReadAvail(size, a).0 == DoReadAvail(size, b).0 && Twins(DoReadAvail(size, a).1, DoReadAvail(size, b).1)
    ensures DoArgs(size, a).0 == DoArgs(size, b).0 && Twins(DoArgs(size, a).1, DoArgs(size, b).1)
  {
    hide SameWords, Padded, Zeros, Entropy, SessionCycles;
  }

  lemma ReadInTwins(size: nat, a: Machine, b: Machine)
    requires Twins(a, b)
    ensures DoRead(size, a).0 == DoRead(size, b).0 && Twins(DoRead(size, a).1, DoRead(size, b).1)
  {
    hide Related, Take, Padded, Compose;
  }

  lemma SyscallTwins(host: Host, call: Syscall, size: nat, a: Machine, b: Machine)
    requires Twins(a, b)
    ensures HandleSyscall(host, call, size, a).0 == HandleSyscall(host, call, size, b).0
    ensures Twins(HandleSyscall(host, call, size, a).1, HandleSyscall(host, call, size, b).1)
  {
    hide Related, ReadBytes, DoRandom, DoCycleCount, DoReadAvail, DoArgs, DoRead, DoGetenv, DoEmit, Zeros;
    QuietTwins(host, size, a, b);
    ReadInTwins(size, a, b);
    GetenvTwins(host, size, a, b);
    EmitTwins(size, a, b, Reg(a, REG_A3), Reg(a, REG_A4), Reg(a, REG_A5));
    EmitTwins(size, a, b, STDOUT, Reg(a, REG_A3), Reg(a, REG_A4));
    ReadBytesTwins(a, b, Reg(a, REG_A3), Reg(a, REG_A4));
  }

  lemma CopyOutTwins(a: Machine, b: Machine, toGuest: u32, bytes: seq<byte>, words: u32)
    requires Twins(a, b)
    ensures CopyOut(a, toGuest, bytes, words).0 == CopyOut(b, toGuest, bytes, words).0
    ensures Twins(CopyOut(a, toGuest, bytes, words).1, CopyOut(b, toGuest, bytes, words).1)
  {
    hide Related, WriteBytes;
    WriteBytesTwins(a, b, toGuest, ByBytes, bytes);
  }

  lemma SoftwareTwins(host: Host, a: Machine, b: Machine)
    requires Twins(a, b)
    ensures EcallSoftware(host, a).0 == EcallSoftware(host, b).0
    ensures Twins(EcallSoftware(host, a).1, EcallSoftware(host, b).1)
  {
    hide Related, ReadName, HandleSyscall, CopyOut, SyscallOf;
    var toGuest, words: nat := Reg(a, REG_A0), Reg(a, REG_A1);
    ReadNameRelated(a.mem, b.mem, Reg(a, REG_A2));
    var (name, mem) := ReadName(a.mem, Reg(a, REG_A2));
    if name.Some? {
      var call := SyscallOf(name.value);
      var a0, b0 := a.(mem := mem), b.(mem := ReadName(b.mem, Reg(b, REG_A2)).1);
      SyscallTwins(host, call, 4 * words, a0, b0);
      var (answer, a1) := HandleSyscall(host, call, 4 * words, a0);
      if answer.Filled? {
        CopyOutTwins(a1, HandleSyscall(host, call, 4 * words, b0).1, toGuest, answer.toGuest, words);
      }
    }
  }

  lemma ShaTwins(host: Host, a: Machine, b: Machine)
    requires Twins(a, b)
    ensures EcallSha(host, a).0 == EcallSha(host, b).0
    ensures Twins(EcallSha(host, a).1, EcallSha(host, b).1)
  {
    hide Related, ReadBytes, ShaBlocks, WriteBytes, FromBigEndian, BigEndian;
    var count: nat := Reg(a, REG_A4);
    ReadBytesTwins(a, b, Reg(a, REG_A1), 32);
    var (bytes, mem) := ReadBytes(a.mem, Reg(a, REG_A1), 32);
    var mem' := ReadBytes(b.mem, Reg(b, REG_A1), 32).1;
    if bytes.Some? {
      var start := FromBigEndian(bytes.value);
      ShaBlocksRelated(host, mem, mem', start, Reg(a, REG_A2), Reg(a, REG_A3), count);
      var (state, mem1) := ShaBlocks(host, mem, start, Reg(a, REG_A2), Reg(a, REG_A3), count);
      var mem1' := ShaBlocks(host, mem', start, Reg(a, REG_A2), Reg(a, REG_A3), count).1;
      if state.Some? {
        WriteBytesTwins(a.(mem := mem1), b.(mem := mem1'), Reg(a, REG_A0), ByBytes, BigEndian(state.value));
      }
    }
  }

  lemma BigintTwins(host: Host, a: Machine, b: Machine)
    requires Twins(a, b)
    ensures EcallBigint(host, a).0 == EcallBigint(host, b).0
    ensures Twins(EcallBigint(host, a).1, EcallBigint(host, b).1)
  {
    hide Related, ReadWords, WriteBytes;
    ReadWordsTwins(a, b, Reg(a, REG_A2));
    var (x, mem1) := ReadWords(a.mem, Reg(a, REG_A2), 8);
    var a1, b1 := a.(mem := mem1), b.(mem := ReadWords(b.mem, Reg(b, REG_A2), 8).1);
    ReadWordsTwins(a1, b1, Reg(a, REG_A3));
    var (y, mem2) := ReadWords(a1.mem, Reg(a, REG_A3), 8);
    var a2, b2 := a.(mem := mem2), b.(mem := ReadWords(b1.mem, Reg(b, REG_A3), 8).1);
    ReadWordsTwins(a2, b2, Reg(a, REG_A4));
    var (n, mem3) := ReadWords(a2.mem, Reg(a, REG_A4), 8);
    var a3, b3 := a.(mem := mem3), b.(mem := ReadWords(b2.mem, Reg(b, REG_A4), 8).1);
    if x.Some? && y.Some? && n.Some? {
      var z := host.modMul(x.value, y.value, n.value);
      if z.Some? {
        WriteBytesTwins(a3, b3, Reg(a, REG_A0), ByWords, z.value);
      }
    }
  }

  lemma EcallTwins(host: Host, a: Machine, b: Machine)
    requires Twins(a, b)
    ensures Ecall(host, a).0 == Ecall(host, b).0
    ensures Twins(Ecall(host, a).1, Ecall(host, b).1)
  {
    hide Related, EcallSoftware, EcallSha, EcallBigint;
    SoftwareTwins(host, a, b);
    ShaTwins(host, a, b);
    BigintTwins(host, a, b);
  }

  // ---------- Instructions and steps ----------

  lemma ExecuteTwins(host: Host, a: Machine, b: Machine)
    requires Twins(a, b)
    ensures Execute(host, a).0 == Execute(host, b).0
    ensures Twins(Execute(host, a).1, Execute(host, b).1)
  {
    hide Related, ReadMem, WriteMem;
    ReadRelated(a.mem, b.mem, a.hart.pc, Word, false);
    var (insn, mem) := ReadMem(a.mem, a.hart.pc, Word, false);
    var mem' := ReadMem(b.mem, a.hart.pc, Word, false).1;
    if insn.Some? {
      match host.decode(a.hart, insn.value)
      case Retire(_) =>
      case Trap(_) =>
      case LoadThen(addr, size, _, _) => ReadRelated(mem, mem', addr, size, false);
      case StoreThen(addr, size, data, _, _) => WriteRelated(mem, mem', addr, size, data, false);
    }
  }

  lemma BodyTwins(host: Host, a: Machine, b: Machine, insn: u32)
    requires Twins(a, b)
    ensures Body(host, a, insn).0 == Body(host, b, insn).0
    ensures Twins(Body(host, a, insn).1, Body(host, b, insn).1)
  {
    hide Related, Ecall, Execute;
    EcallTwins(host, a, b);
    ExecuteTwins(host, a, b);
  }

  /** What a step returns, but for a watchpoint report. */
  function Unwatched(r: StepResult): StepResult {
    if r.Ran? && r.exit.Some? && r.exit.value.HwWatchPoint? then Ran(None) else r
  }

  lemma ChargeTwins(outcome: Outcome, a: Machine, b: Machine, cycles: nat)
    requires Twins(a, b)
    ensures Unwatched(Charge(outcome, a, cycles).0) == Unwatched(Charge(outcome, b, cycles).0)
    ensures Twins(Charge(outcome, a, cycles).1, Charge(outcome, b, cycles).1)
  {
    hide Settle, SameWords;
    SamePages(a.mem, b.mem, Charge(outcome, a, cycles).1.mem, Charge(outcome, b, cycles).1.mem);
  }

  /** One step of twins returns the same, watchpoint reports apart, and leaves twins. */
  lemma StepTwins(host: Host, a: Machine, b: Machine)
    requires Twins(a, b)
    ensures Unwatched(Step(host, a).0) == Unwatched(Step(host, b).0)
    ensures Twins(Step(host, a).1, Step(host, b).1)
  {
    hide Related, ReadMem, Body, Charge, OpcodeCycle;
    ReadRelated(a.mem, b.mem, a.hart.pc, Word, false);
    var (insn, mem) := ReadMem(a.mem, a.hart.pc, Word, false);
    var mem' := ReadMem(b.mem, a.hart.pc, Word, false).1;
    if insn.Some? {
      ClearedTwins(a, b, mem, mem');
      if OpcodeCycle(insn.value).Some? {
        var a1, b1 := Cleared(a, mem), Cleared(b, mem');
        BodyTwins(host, a1, b1, insn.value);
        ChargeTwins(Body(host, a1, insn.value).0, Body(host, a1, insn.value).1, Body(host, b1, insn.value).1,
                    OpcodeCycle(insn.value).value);
      }
    }
  }

  lemma ClearedTwins(a: Machine, b: Machine, mem: Mem, mem': Mem)
    requires Twins(a, b) && Related(mem, mem')
    ensures Twins(Cleared(a, mem), Cleared(b, mem'))
  {
    SamePages(mem, mem', Cleared(a, mem).mem, Cleared(b, mem').mem);
  }

  // ---------- What a debugger may do between steps ----------

  /** Watchpoints, the watch trigger and privileged reads make no twin less of a twin. */
  lemma DebuggingTwins(a: Machine, b: Machine, watches: seq<Watch>, trigger: Option<Hit>, addr: u32, size: Size)
    requires Twins(a, b)
    ensures Twins(a, b.(mem := b.mem.(watches := watches, trigger := trigger)))
    ensures Twins(a, b.(mem := ReadMem(b.mem, addr, size, true).1))
  {
    SamePages(a.mem, b.mem, a.mem, b.mem.(watches := watches, trigger := trigger));
    forall p: Page, i: nat | i < 256
      ensures WordAt(ReadMem(b.mem, addr, size, true).1, p, i) == WordAt(b.mem, p, i)
    {
      WordsAfterRead(b.mem, addr, size, true, p, i);
    }
  }
}
