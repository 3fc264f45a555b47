/** What a step leaves in the registers, the program counter, memory and the streams, for every
    instruction. Registers are named by number: 5 is T0, and 10 to 15 are A0 to A5. */
module Effects {
  import opened Words
  import opened SessionCycle
  import opened PagedMemory
  import opened FlatMemory
  import opened Machine
  import opened Transparency
  import opened ByteRuns
  import opened Steps
  import opened Streams
  import opened Outputs
  import opened Hashing
  import opened Bigint
  import opened Hanging
  import opened Calls
  import opened Opcodes
  import Halting
  import Trace

  // ---------- From the body to the step ----------

  /** What a step leaves besides its books is what its body leaves. */
  lemma RanLeaves(host: Host, m: Machine)
    requires Step(host, m).0.Ran?
    ensures Insn(m).Some? && OpcodeCycle(Insn(m).value).Some?
    ensures var (outcome, mid) := Settling(host, m);
            && outcome.Proceed?
            && Step(host, m).1 == mid.(mem := Step(host, m).1.mem)
            && Step(host, m).1.mem.pages == mid.mem.pages
            && StepBase(host, m) == OpcodeCycle(Insn(m).value).value + outcome.extra
  {
    RanIsCharged(host, m);
    hide Body, OpcodeCycle, Trace.Follows, Settle, ReadMem;
  }

  /** Neither registers nor streams nor what the host gave have changed when the body starts. */
  lemma StartLeaves(m: Machine)
    ensures Start(m) == m.(mem := Start(m).mem) && SameWords(m.mem, Start(m).mem)
  {
    StartSame(m);
    hide ReadMem;
  }

  /** The same bytes everywhere. */
  ghost predicate SameBytes(m: Mem, m': Mem) {
    forall a: u32 :: ByteAt(m', a) == ByteAt(m, a)
  }

  lemma SameWordsSameBytes(a: Mem, b: Mem)
    requires SameWords(a, b)
    ensures SameBytes(a, b)
  {
    hide ByteAt, SameWords;
    forall x: u32 ensures ByteAt(b, x) == ByteAt(a, x) {
      SameWordsByte(a, b, x);
    }
  }

  lemma PagesSameWords(a: Mem, b: Mem)
    requires a.pages == b.pages
    ensures SameWords(a, b)
  {
  }

  /** `m'` is `m` but for memory and, if need be, the registers. */
  predicate KeepsRest(m: Machine, m': Machine) {
    m'.io == m.io && m'.env == m.env && m'.args == m.args
  }

  // ---------- Environment calls ----------

  /** The step at `m` is the environment call with this number. */
  predicate CallsNumber(m: Machine, call: u32) {
    Insn(m).Some? && IsEcall(Insn(m).value) && m.hart.regs[5] == call
  }

  lemma EcallLeaves(host: Host, m: Machine)
    requires Step(host, m).0.Ran? && Insn(m).Some? && IsEcall(Insn(m).value)
    ensures var (outcome, end) := Ecall(host, Start(m));
            && outcome.Proceed?
            && Step(host, m).1 == end.(hart := end.hart.(pc := outcome.pc), mem := Step(host, m).1.mem)
            && Step(host, m).1.mem.pages == end.mem.pages
            && StepBase(host, m) == 1 + outcome.extra
  {
    RanLeaves(host, m);
    EcallIsLegal(Insn(m).value);
    hide Step, Ecall, Start, OpcodeCycle, IsEcall, Execute;
  }

  /** Which call a number is. */
  lemma CallNumber(host: Host, m: Machine)
    ensures var call := m.hart.regs[5];
            && (call == 0 ==> Ecall(host, m) == EcallHalt(m))
            && (call == 1 ==> Ecall(host, m) == (Proceed((m.hart.pc + 4) % 0x1_0000_0000, None, 0), m))
            && (call == 2 ==> Ecall(host, m) == EcallSoftware(host, m))
            && (call == 3 ==> Ecall(host, m) == EcallSha(host, m))
            && (call == 4 ==> Ecall(host, m) == EcallBigint(host, m))
            && (call > 4 ==> Ecall(host, m) == (Fail, m))
  {
    hide EcallHalt, EcallSoftware, EcallSha, EcallBigint;
  }

  lemma StartBytes(m: Machine, end: Mem)
    requires end.pages == Start(m).mem.pages
    ensures SameBytes(m.mem, end)
  {
    hide Start, SameWords, SameBytes;
    StartLeaves(m);
    PagesSameWords(Start(m).mem, end);
    SameWordsThrough(m.mem, Start(m).mem, end);
    SameWordsSameBytes(m.mem, end);
  }

  /** A halt or a pause leaves the machine where it is. */
  lemma HaltEffect(host: Host, m: Machine)
    requires Step(host, m).0.Ran? && CallsNumber(m, 0)
    ensures var m' := Step(host, m).1;
            && m'.hart == m.hart && KeepsRest(m, m') && SameBytes(m.mem, m'.mem)
            && StepBase(host, m) == 1
  {
    hide Step, Start, IsEcall, SameWords, SameBytes, Ecall, StepBase;
    EcallLeaves(host, m);
    StartLeaves(m);
    CallNumber(host, Start(m));
    StartBytes(m, Step(host, m).1.mem);
  }

  /** The input call does nothing but go on. */
  lemma InputEffect(host: Host, m: Machine)
    requires Step(host, m).0.Ran? && CallsNumber(m, 1)
    ensures var m' := Step(host, m).1;
            && m'.hart == Hart((m.hart.pc + 4) % 0x1_0000_0000, m.hart.regs)
            && KeepsRest(m, m') && SameBytes(m.mem, m'.mem)
            && StepBase(host, m) == 1
  {
    hide Step, Start, IsEcall, SameWords, SameBytes, Ecall, StepBase;
    EcallLeaves(host, m);
    StartLeaves(m);
    CallNumber(host, Start(m));
    StartBytes(m, Step(host, m).1.mem);
  }

  lemma ResultSame(host: Host, a: Mem, b: Mem, input: u32, block1: u32, block2: u32, count: nat)
    requires SameWords(a, b) && RunFits(input, ByBytes, 32) && BlocksFit(block1, block2, count)
    ensures Result(host, a, input, block1, block2, count) == Result(host, b, input, block1, block2, count)
  {
    hide SameWords, MemBytes, Fold, BlocksFit, FromBigEndian;
    SameWordsMemBytes(a, b, input, 32);
    SameWordsFold(host, a, b, FromBigEndian(MemBytes(a, input, 32)), block1, block2, count);
  }

  lemma OverwrittenSame(a: Mem, b: Mem, addr: u32, bytes: seq<byte>, c: Mem, d: Mem)
    requires SameWords(a, b) && Overwritten(b, addr, bytes, c) && c.pages == d.pages
    ensures Overwritten(a, addr, bytes, d)
  {
    PagesSameWords(c, d);
    SameWordsSameBytes(a, b);
    SameWordsSameBytes(c, d);
    hide ByteAt, SameWords;
  }

  /** The SHA call goes on with the registers as they were; 32 bytes of memory at A0 are now the
      fold of the blocks at A2 and A3 into the state at A1, as they all were before. */
  lemma ShaEffect(host: Host, m: Machine)
    requires Step(host, m).0.Ran? && CallsNumber(m, 3)
    ensures ShaFits(m.hart.regs[10], m.hart.regs[11], m.hart.regs[12], m.hart.regs[13], m.hart.regs[14])
    ensures var m', regs := Step(host, m).1, m.hart.regs;
            && m'.hart == Hart((m.hart.pc + 4) % 0x1_0000_0000, regs) && KeepsRest(m, m')
            && Overwritten(m.mem, regs[10],
                           BigEndian(Result(host, m.mem, regs[11], regs[12], regs[13], regs[14])), m'.mem)
            && StepBase(host, m) == 1 + 73 * regs[14]
  {
    hide Step, Start, IsEcall, SameWords, Ecall, EcallSha, Overwritten, BigEndian, Result, ShaFits;
    EcallLeaves(host, m);
    StartLeaves(m);
    CallNumber(host, Start(m));
    var start, regs, m' := Start(m), m.hart.regs, Step(host, m).1;
    ShaCallEffect(host, start);
    assert BlocksFit(regs[12], regs[13], regs[14]) && RunFits(regs[11], ByBytes, 32) by { ShaFitsParts(regs); }
    ResultSame(host, m.mem, start.mem, regs[11], regs[12], regs[13], regs[14]);
    OverwrittenSame(m.mem, start.mem, regs[10], BigEndian(Result(host, m.mem, regs[11], regs[12], regs[13], regs[14])),
                    EcallSha(host, start).1.mem, m'.mem);
  }

  lemma ShaFitsParts(regs: Registers)
    requires ShaFits(regs[10], regs[11], regs[12], regs[13], regs[14])
    ensures RunFits(regs[11], ByBytes, 32) && BlocksFit(regs[12], regs[13], regs[14])
  {
  }

  lemma ShaCallEffect(host: Host, m: Machine)
    requires EcallSha(host, m).0.Proceed?
    ensures var (outcome, m') := EcallSha(host, m); var regs := m.hart.regs;
            && ShaFits(regs[10], regs[11], regs[12], regs[13], regs[14])
            && outcome.pc == (m.hart.pc + 4) % 0x1_0000_0000 && outcome.extra == 73 * regs[14]
            && m' == m.(mem := m'.mem)
            && Overwritten(m.mem, regs[10],
                           BigEndian(Result(host, m.mem, regs[11], regs[12], regs[13], regs[14])), m'.mem)
  {
    hide EcallSha, ShaFits, Result, Overwritten, BigEndian;
    ShaGoesOn(host, m);
    ShaCycles(host, m);
    var regs := m.hart.regs;
    ShaIsFold(host, m.mem, regs[10], regs[11], regs[12], regs[13], regs[14]);
  }

  lemma ShaGoesOn(host: Host, m: Machine)
    requires EcallSha(host, m).0.Proceed?
    ensures var (outcome, m') := EcallSha(host, m); var regs := m.hart.regs;
            && outcome.pc == (m.hart.pc + 4) % 0x1_0000_0000 && m' == m.(mem := m'.mem)
            && (true, m'.mem) == Sha(host, m.mem, regs[10], regs[11], regs[12], regs[13], regs[14])
  {
    hide Sha;
  }

  /** The low bytes of eight words, one every four bytes from `addr` on. */
  ghost predicate LowBytesStored(m: Mem, addr: u32, words: Digest, m': Mem) {
    forall a: u32 ::
      ByteAt(m', a) ==
      if addr <= a < addr + 32 && (a - addr) % 4 == 0 then words[(a - addr) / 4] % 0x100 else ByteAt(m, a)
  }

  lemma ProductSame(host: Host, m: Machine, n: Machine)
    requires n.hart == m.hart && SameWords(m.mem, n.mem) && OperandsFit(m)
    ensures Product(host, n) == Product(host, m)
  {
    OperandSame(m.mem, n.mem, Reg(m, REG_A2));
    OperandSame(m.mem, n.mem, Reg(m, REG_A3));
    OperandSame(m.mem, n.mem, Reg(m, REG_A4));
    hide Operand, SameWords;
  }

  lemma OperandSame(a: Mem, b: Mem, addr: u32)
    requires SameWords(a, b) && RunFits(addr, ByWords, 8)
    ensures Operand(a, addr) == Operand(b, addr)
  {
    hide LoadValue, SameWords;
    forall i | 0 <= i < 8 ensures Operand(a, addr)[i] == Operand(b, addr)[i] {
      SameLoadValue(a, b, Load(addr + 4 * i, Word));
    }
  }

  /** The big-integer call goes on with the registers as they were, and stores the low byte of each
      word of the product at A0 of the operands at A2 and A3, modulo the one at A4. */
  lemma BigintEffect(host: Host, m: Machine)
    requires Step(host, m).0.Ran? && CallsNumber(m, 4)
    ensures var regs := m.hart.regs;
            && regs[11] == 0
            && RunFits(regs[12], ByWords, 8) && RunFits(regs[13], ByWords, 8) && RunFits(regs[14], ByWords, 8)
            && var z := host.modMul(Operand(m.mem, regs[12]), Operand(m.mem, regs[13]), Operand(m.mem, regs[14]));
               var m' := Step(host, m).1;
               && z.Some? && LowBytesStored(m.mem, regs[10], z.value, m'.mem)
               && m'.hart == Hart((m.hart.pc + 4) % 0x1_0000_0000, regs) && KeepsRest(m, m')
               && StepBase(host, m) == 10
  {
    hide Step, Start, IsEcall, SameWords, Ecall, EcallBigint, LowBytesStored, Operand, RunFits;
    EcallLeaves(host, m);
    StartLeaves(m);
    CallNumber(host, Start(m));
    var start, m' := Start(m), Step(host, m).1;
    BigintCallEffect(host, start);
    var end := EcallBigint(host, start).1;
    ProductSame(host, m, start);
    LowBytesSame(m.mem, start.mem, m.hart.regs[10], Product(host, m).value, end.mem, m'.mem);
  }

  lemma LowBytesSame(a: Mem, b: Mem, addr: u32, words: Digest, c: Mem, d: Mem)
    requires SameWords(a, b) && LowBytesStored(b, addr, words, c) && c.pages == d.pages
    ensures LowBytesStored(a, addr, words, d)
  {
    PagesSameWords(c, d);
    SameWordsSameBytes(a, b);
    SameWordsSameBytes(c, d);
    hide ByteAt, SameWords;
  }

  lemma BigintCallEffect(host: Host, m: Machine)
    requires EcallBigint(host, m).0.Proceed?
    ensures var (outcome, m') := EcallBigint(host, m);
            && Reg(m, REG_A1) == 0 && OperandsFit(m) && Product(host, m).Some?
            && outcome.pc == (m.hart.pc + 4) % 0x1_0000_0000 && outcome.extra == 9
            && m' == m.(mem := m'.mem)
            && LowBytesStored(m.mem, m.hart.regs[10], Product(host, m).value, m'.mem)
  {
    hide EcallBigint, Product, OperandsFit, WriteBytes, SameWords, RunFits, LowBytesStored;
    BigintGoesOn(host, m);
    BigintCompletesIff(host, m);
    var read := BigintIsStore(host, m);
    StoreIsLowBytes(m.mem, read, m.hart.regs[10], Product(host, m).value);
  }

  lemma StoreIsLowBytes(m: Mem, read: Mem, addr: u32, z: Digest)
    requires SameWords(m, read) && WriteBytes(read, addr, ByWords, z).0
    ensures LowBytesStored(m, addr, z, WriteBytes(read, addr, ByWords, z).1)
  {
    hide WriteBytes, SameWords, ByteAt;
    WriteBytesLands(read, addr, ByWords, z);
    SameWordsSameBytes(m, read);
    var m' := WriteBytes(read, addr, ByWords, z).1;
    forall a: u32
      ensures ByteAt(m', a) ==
              if addr <= a < addr + 32 && (a - addr) % 4 == 0 then z[(a - addr) / 4] % 0x100 else ByteAt(m, a)
    {
      assert ByteAt(m', a) == StoredByte(read, addr, ByWords, z, a);
    }
  }

  lemma BigintGoesOn(host: Host, m: Machine)
    requires EcallBigint(host, m).0.Proceed?
    ensures var (outcome, m') := EcallBigint(host, m);
            && outcome.pc == (m.hart.pc + 4) % 0x1_0000_0000 && outcome.extra == 9 && m' == m.(mem := m'.mem)
  {
    hide ReadWords, WriteBytes;
  }

  /** No other number is a call. */
  lemma CallNumbers(host: Host, m: Machine)
    requires Step(host, m).0.Ran? && Insn(m).Some? && IsEcall(Insn(m).value)
    ensures m.hart.regs[5] in {0, 1, 2, 3, 4}
  {
    hide Step, Start, IsEcall, SameWords, Ecall;
    EcallLeaves(host, m);
    StartLeaves(m);
    CallNumber(host, Start(m));
  }

  // ---------- Other instructions ----------

  /** The instruction of an aligned program counter is the word there. */
  lemma FetchIsFlat(m: Machine, f: Bytes)
    requires Represents(m.mem, f) && m.hart.pc % 4 == 0
    ensures Insn(m) == if InGuest(m.hart.pc) then Some(FlatRead(f, m.hart.pc, Word)) else None
  {
    hide Represents, FlatRead, InGuest, ReadMem;
    ReadIsFlat(m.mem, f, m.hart.pc, Word, false);
  }

  /** The plan goes through: it does not trap, and its access is aligned and in guest memory. */
  predicate GoesThrough(plan: Plan) {
    match plan
    case Retire(_) => true
    case Trap(_) => false
    case LoadThen(addr, size, _, _) => Aligned(addr, size) && InGuest(addr)
    case StoreThen(addr, size, _, _, _) => Aligned(addr, size) && InGuest(addr)
  }

  /** The registers that a plan leaves, over the bytes of memory. */
  function PlanHart(plan: Plan, f: Bytes): Hart {
    match plan
    case Retire(hart) => hart
    case Trap(hart) => hart
    case LoadThen(addr, size, resume, fault) => if GoesThrough(plan) then resume(FlatRead(f, addr, size)) else fault
    case StoreThen(_, _, _, done, fault) => if GoesThrough(plan) then done else fault
  }

  /** The bytes that it leaves. */
  function PlanBytes(plan: Plan, f: Bytes): Bytes {
    match plan
    case StoreThen(addr, size, data, _, _) => if GoesThrough(plan) then FlatWrite(f, addr, size, data) else f
    case _ => f
  }

  lemma ExecuteEffect(host: Host, m: Machine, f: Bytes)
    requires Represents(m.mem, f) && Insn(m).Some?
    ensures var (ok, m') := Execute(host, m);
            var plan := host.decode(m.hart, Insn(m).value);
            && ok == GoesThrough(plan) && m'.hart == PlanHart(plan, f) && Represents(m'.mem, PlanBytes(plan, f))
            && KeepsRest(m, m')
  {
    var mem := ReadMem(m.mem, m.hart.pc, Word, false).1;
    ReadKeepsBytes(m.mem, f, m.hart.pc, Word);
    hide ReadMem, WriteMem, Represents, FlatRead, FlatWrite, Aligned;
    match host.decode(m.hart, Insn(m).value)
    case Retire(_) =>
    case Trap(_) =>
    case LoadThen(addr, size, _, _) => if Aligned(addr, size) { ReadIsFlat(mem, f, addr, size, false); }
    case StoreThen(addr, size, data, _, _) => if Aligned(addr, size) { WriteIsFlat(mem, f, addr, size, data, false); }
  }

  lemma ExecuteStep(host: Host, m: Machine)
    requires Insn(m).Some? && OpcodeCycle(Insn(m).value).Some? && !IsEcall(Insn(m).value)
    ensures var (ok, end) := Execute(host, Start(m));
            var m' := Step(host, m).1;
            && (Step(host, m).0 == Failed <==> !ok)
            && m'.hart == end.hart && m'.io == end.io && m'.env == end.env && m'.args == end.args
            && m'.mem.pages == end.mem.pages
    ensures Step(host, m).0.Ran? ==> StepBase(host, m) == OpcodeCycle(Insn(m).value).value
  {
    hide Start, ReadMem, Execute, OpcodeCycle, IsEcall, Settle;
    StartIs(m);
  }

  lemma StartIs(m: Machine)
    requires Insn(m).Some?
    ensures Start(m) == Cleared(m, ReadMem(m.mem, m.hart.pc, Word, false).1)
  {
  }

  /** An instruction other than an environment call fails exactly when its plan does not go through.
      The registers are then those of the plan: after a load that goes through, resumed with the
      little-endian bytes at its address; and memory changes by its store alone. */
  lemma InstructionEffect(host: Host, m: Machine, f: Bytes)
    requires Represents(m.mem, f)
    requires Insn(m).Some? && OpcodeCycle(Insn(m).value).Some? && !IsEcall(Insn(m).value)
    ensures var plan, m' := host.decode(m.hart, Insn(m).value), Step(host, m).1;
            && (Step(host, m).0 == Failed <==> !GoesThrough(plan))
            && m'.hart == PlanHart(plan, f) && Represents(m'.mem, PlanBytes(plan, f)) && KeepsRest(m, m')
    ensures Step(host, m).0.Ran? ==> StepBase(host, m) == OpcodeCycle(Insn(m).value).value
  {
    hide Step, Start, ReadMem, Execute, OpcodeCycle, IsEcall, Represents, PlanHart, PlanBytes, GoesThrough, SameWords;
    ExecuteStep(host, m);
    StartLeaves(m);
    StartInsn(m);
    SameWordsRepresent(m.mem, Start(m).mem, f);
    ExecuteEffect(host, Start(m), f);
    var plan := host.decode(m.hart, Insn(m).value);
    SamePagesRepresent(Execute(host, Start(m)).1.mem, Step(host, m).1.mem, PlanBytes(plan, f));
  }

  /** The cycles of a completed step of an instruction other than an environment call. */
  lemma InstructionCycles(host: Host, m: Machine, opcode: nat, rd: nat, funct3: nat, rs1: nat, rs2: nat, funct7: nat)
    requires opcode < 0x80 && rd < 0x20 && funct3 < 8 && rs1 < 0x20 && rs2 < 0x20 && funct7 < 0x80
    requires Step(host, m).0.Ran? && Insn(m) == Some(Encoding(opcode, rd, funct3, rs1, rs2, funct7))
    requires !(opcode == 0x73 && funct3 == 0 && rs2 in {0, 1} && funct7 == 0)
    ensures StepBase(host, m) ==
            if (opcode == 0x13 && funct3 in {4, 5, 6, 7}) || (opcode == 0x33 && (funct3, funct7) in SLOW) then 2 else 1
  {
    hide Step, Encoding, OpcodeCycle, IsEcall, StepBase, Execute, Start;
    RanLeaves(host, m);
    EcallWords(opcode, rd, funct3, rs1, rs2, funct7);
    CycleTable(opcode, rd, funct3, rs1, rs2, funct7);
    ExecuteStep(host, m);
    OpcodeCycleBound(Insn(m).value);
  }

  lemma StartInsn(m: Machine)
    ensures Insn(Start(m)) == Insn(m)
  {
    hide Start, SameWords;
    StartLeaves(m);
    Halting.SameInsn(m, Start(m));
  }

  lemma SameWordsRepresent(a: Mem, b: Mem, f: Bytes)
    requires SameWords(a, b) && Represents(a, f)
    ensures Represents(b, f)
  {
    SameWordsSameBytes(a, b);
    hide ByteAt, SameWords;
    forall x: u32 ensures ByteAt(b, x) == f(x) {
      assert ByteAt(a, x) == f(x);
    }
  }
}
