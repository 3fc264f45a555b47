/**
 The machine as a value, and one step of it as a function: fetch, decode, execute or ecall,
 charge. The classes in `Simulator` are proved to compute these functions in place; the
 theorems about runs are about these functions.
 */
module Machine {
  import opened Words
  import opened SessionCycle
  import opened PagedMemory

  // ---------- State ----------

  type Registers = r: seq<u32> | |r| == 32 witness seq(32, _ => 0)

  type Digest = d: seq<u32> | |d| == 8 witness seq(8, _ => 0)

  datatype Hart = Hart(pc: u32, regs: Registers)

  datatype Io = Io(
    stdin: seq<byte>,
    cursor: nat,
    stdout: seq<byte>,
    stderr: seq<byte>,
    journal: seq<byte>,
    drawn: nat)

  datatype Machine = Machine(
    hart: Hart,
    mem: Mem,
    io: Io,
    env: map<seq<byte>, seq<byte>>,
    args: seq<seq<byte>>)

  /** What the RV32IM executor does with an instruction: at most one access to memory, refused
      when it is misaligned, and the registers it leaves. */
  datatype Plan =
    | Retire(hart: Hart)
    | Trap(hart: Hart)
    | LoadThen(addr: u32, size: Size, resume: u32 -> Hart, fault: Hart)
    | StoreThen(addr: u32, size: Size, data: u32, done: Hart, fault: Hart)

  /** Code the program calls but does not contain. `entropy` is the random source, by the
      number of bytes drawn before. */
  datatype Host = Host(
    decode: (Hart, u32) -> Plan,
    compress: (Digest, seq<byte>) -> Digest,
    modMul: (seq<u32>, seq<u32>, seq<u32>) -> Option<Digest>,
    validUtf8: seq<byte> -> bool,
    entropy: nat -> byte)

  datatype Exit = Paused(code: u32) | Halted(code: u32) | HwWatchPoint(hit: Hit)

  /** `Fail` is an error return, `Panic` an assertion of the program that does not hold. */
  datatype Outcome = Proceed(pc: u32, exit: Option<Exit>, extra: nat) | Fail | Panic

  datatype Answer = Filled(toGuest: seq<byte>) | Refused | Aborted

  datatype StepResult = Ran(exit: Option<Exit>) | Failed | Panicked | Hung

  // Register numbers of the calling convention.
  const REG_T0 := 5
  const REG_A0 := 10
  const REG_A1 := 11
  const REG_A2 := 12
  const REG_A3 := 13
  const REG_A4 := 14
  const REG_A5 := 15

  function Reg(m: Machine, r: nat): u32
    requires r < 32
  {
    m.hart.regs[r]
  }

  function SetReg(m: Machine, r: nat, v: u32): Machine
    requires r < 32
  {
    m.(hart := m.hart.(regs := m.hart.regs[r := v]))
  }

  /** The two results of a system call. */
  function Return(m: Machine, a0: u32, a1: u32): Machine {
    SetReg(SetReg(m, REG_A0, a0), REG_A1, a1)
  }

  function LedgerOf(m: Machine): Ledger {
    match m.mem.ledger
    case Some(l) => l
    case None => EMPTY
  }

  // ---------- Instruction words ----------

  function OpcodeOf(insn: u32): nat { insn % 0x80 }

  function Funct3Of(insn: u32): nat { insn / 0x1000 % 8 }

  function Rs2Of(insn: u32): nat { insn / 0x10_0000 % 0x20 }

  function Funct7Of(insn: u32): nat { insn / 0x200_0000 }

  /** The cycles of an instruction, or `None` for one that is illegal. */
  function OpcodeCycle(insn: u32): Option<nat> {
    var opcode, funct3, funct7 := OpcodeOf(insn), Funct3Of(insn), Funct7Of(insn);
    if opcode == 0x03 then Some(1)
    else if opcode == 0x13 then Some(if funct3 < 4 then 1 else 2)
    else if opcode == 0x17 || opcode == 0x23 then Some(1)
    else if opcode == 0x33 then
      if funct7 == 0x00 || funct7 == 0x01 then Some(if funct3 < 4 then 1 else 2)
      else if funct7 == 0x20 && funct3 == 0 then Some(1)
      else if funct7 == 0x20 && funct3 == 5 then Some(2)
      else None
    else if opcode == 0x37 || opcode == 0x63 || opcode == 0x67 || opcode == 0x6F || opcode == 0x73 then Some(1)
    else None
  }

  predicate IsEcall(insn: u32) {
    OpcodeOf(insn) == 0x73 && Funct3Of(insn) == 0 && Rs2Of(insn) <= 1 && Funct7Of(insn) == 0
  }

  // ---------- Bytes and words ----------

  function LowBytes(words: seq<u32>): (bytes: seq<byte>)
    ensures |bytes| == |words|
  {
    seq(|words|, (i: nat) requires i < |words| => words[i] % 0x100)
  }

  function Zeros(n: nat): (bytes: seq<byte>)
    ensures |bytes| == n
  {
    seq(n, _ => 0)
  }

  /** `bytes` copied over the front of a zeroed buffer of `size` bytes, as far as it goes. */
  function Padded(bytes: seq<byte>, size: nat): (buffer: seq<byte>)
    ensures |buffer| == size
  {
    if |bytes| <= size then bytes + Zeros(size - |bytes|) else bytes[..size]
  }

  function LittleEndian(words: seq<u32>): (bytes: seq<byte>)
    ensures |bytes| == 4 * |words|
  {
    seq(4 * |words|, (i: nat) requires i < 4 * |words| => ByteOf(words[i / 4], i % 4))
  }

  function BigEndian(words: seq<u32>): (bytes: seq<byte>)
    ensures |bytes| == 4 * |words|
  {
    seq(4 * |words|, (i: nat) requires i < 4 * |words| => ByteOf(words[i / 4], 3 - i % 4))
  }

  function FromBigEndian(bytes: seq<byte>): Digest
    requires |bytes| == 32
  {
    seq(8, (i: nat) requires i < 8 => Compose(bytes[4 * i + 3], bytes[4 * i + 2], bytes[4 * i + 1], bytes[4 * i]))
  }

  /** The bytes at `addr`, read one by one. */
  function ReadBytes(m: Mem, addr: u32, count: nat): (r: (Option<seq<byte>>, Mem))
    ensures r.0.Some? ==> |r.0.value| == count
  {
    var (replies, m') := Perform(m, Loads(addr, ByBytes, count, Byte));
    (if |replies| == count then Some(LowBytes(replies)) else None, m')
  }

  function ReadWords(m: Mem, addr: u32, count: nat): (r: (Option<seq<u32>>, Mem))
    ensures r.0.Some? ==> |r.0.value| == count
  {
    var (replies, m') := Perform(m, Loads(addr, ByWords, count, Word));
    (if |replies| == count then Some(replies) else None, m')
  }

  /** A byte store per element of `data`, evenly spaced; true when all were granted. */
  function WriteBytes(m: Mem, addr: u32, spacing: Spacing, data: seq<u32>): (r: (bool, Mem)) {
    var (replies, m') := Perform(m, Stores(addr, spacing, data));
    (|replies| == |data|, m')
  }

  /** The zero-terminated name at `addr`. The loop of the program has no bound of its own: it
      ends because the address leaves guest memory. */
  function ReadName(m: Mem, addr: u32): (r: (Option<seq<byte>>, Mem))
    decreases if InGuest(addr) then GUEST_MAX_MEM + 1 - addr else 0
  {
    var (b, m1) := ReadMem(m, addr, Byte, false);
    if b.None? then (None, m1)
    else if b.value % 0x100 == 0 then (Some([]), m1)
    else
      var (rest, m2) := ReadName(m1, addr + 1);
      (if rest.None? then None else Some([b.value % 0x100] + rest.value), m2)
  }

  // ---------- System calls ----------

  datatype Syscall =
    | SysRandom | SysCycleCount | SysPanic | SysGetenv | SysRead | SysReadAvail | SysWrite | SysLog
    | SysVerify | SysArgc | SysArgs | SysUnknown

  function Ascii(s: string): seq<byte> {
    seq(|s|, (i: nat) requires i < |s| => s[i] as int % 0x100)
  }

  function SyscallName(s: string): seq<byte> {
    Ascii("risc0_zkvm_platform::syscall::nr::") + Ascii(s)
  }

  function SyscallOf(name: seq<byte>): Syscall {
    if name == SyscallName("SYS_RANDOM") then SysRandom
    else if name == SyscallName("SYS_CYCLE_COUNT") then SysCycleCount
    else if name == SyscallName("SYS_PANIC") then SysPanic
    else if name == SyscallName("SYS_GETENV") then SysGetenv
    else if name == SyscallName("SYS_READ") then SysRead
    else if name == SyscallName("SYS_READ_AVAIL") then SysReadAvail
    else if name == SyscallName("SYS_WRITE") then SysWrite
    else if name == SyscallName("SYS_LOG") then SysLog
    else if name == SyscallName("SYS_VERIFY") || name == SyscallName("SYS_VERIFY_INTEGRITY") then SysVerify
    else if name == SyscallName("SYS_ARGC") then SysArgc
    else if name == SyscallName("SYS_ARGS") then SysArgs
    else SysUnknown
  }

  const STDIN: u32 := 0
  const STDOUT: u32 := 1
  const STDERR: u32 := 2
  const JOURNAL: u32 := 3

  /** What a read of up to `want` bytes takes from standard input. */
  function Take(io: Io, want: nat): (bytes: seq<byte>)
    ensures |bytes| <= want
  {
    if io.cursor <= |io.stdin| then io.stdin[io.cursor..io.cursor + Min(want, |io.stdin| - io.cursor)] else []
  }

  function Entropy(host: Host, drawn: nat, size: nat): (bytes: seq<byte>)
    ensures |bytes| == size
  {
    seq<byte>(size, (i: nat) => host.entropy(drawn + i))
  }

  function DoRandom(host: Host, size: nat, m: Machine): (Answer, Machine) {
    (Filled(Entropy(host, m.io.drawn, size)), Return(m.(io := m.io.(drawn := m.io.drawn + size)), 0, 0))
  }

  function DoCycleCount(size: nat, m: Machine): (Answer, Machine) {
    (Filled(Zeros(size)), Return(m, Wrap(SessionCycles(LedgerOf(m))), 0))
  }

  function DoPanic(m: Machine): (Answer, Machine) {
    (Refused, m.(mem := ReadBytes(m.mem, Reg(m, REG_A3), Reg(m, REG_A4)).1))
  }

  function DoGetenv(host: Host, size: nat, m: Machine): (Answer, Machine) {
    var (key, mem) := ReadBytes(m.mem, Reg(m, REG_A3), Reg(m, REG_A4));
    var m1 := m.(mem := mem);
    if key.None? || !host.validUtf8(key.value) then (Refused, m1)
    else if key.value in m.env then
      (Filled(Padded(m.env[key.value], size)), Return(m1, Wrap(|m.env[key.value]|), 0))
    else (Filled(Zeros(size)), Return(m1, 0xFFFF_FFFF, 0))
  }

  /** SYS_READ: the word-aligned part fills the buffer, up to four bytes more go to A1. */
  function DoRead(size: nat, m: Machine): (Answer, Machine) {
    var nbytes := Reg(m, REG_A4);
    if nbytes < size then (Aborted, m)
    else if Reg(m, REG_A3) != STDIN then (Refused, m)
    else
      var main := Take(m.io, size);
      var m1 := m.(io := m.io.(cursor := m.io.cursor + |main|));
      if |main| != size || nbytes - size > 4 then (Aborted, m1)
      else
        var tail := Take(m1.io, nbytes - size);
        var end := Padded(tail, 4);
        var m2 := m1.(io := m1.io.(cursor := m1.io.cursor + |tail|));
        (Filled(main), Return(m2, Wrap(|main| + |tail|), Compose(end[0], end[1], end[2], end[3])))
  }

  function DoReadAvail(size: nat, m: Machine): (Answer, Machine) {
    if Reg(m, REG_A3) != STDIN then (Refused, m)
    else (Filled(Zeros(size)), Return(m, Wrap(|m.io.stdin| - m.io.cursor), 0))
  }

  /** `bytes` appended to the output with descriptor `fd`, if there is one. */
  function Emit(io: Io, fd: u32, bytes: seq<byte>): Option<Io> {
    if fd == STDOUT then Some(io.(stdout := io.stdout + bytes))
    else if fd == STDERR then Some(io.(stderr := io.stderr + bytes))
    else if fd == JOURNAL then Some(io.(journal := io.journal + bytes))
    else None
  }

  function DoEmit(size: nat, m: Machine, fd: u32, addr: u32, len: u32): (Answer, Machine) {
    var (bytes, mem) := ReadBytes(m.mem, addr, len);
    var m1 := m.(mem := mem);
    if bytes.None? then (Refused, m1)
    else
      match Emit(m.io, fd, bytes.value)
      case None => (Refused, m1)
      case Some(io) => (Filled(Zeros(size)), Return(m1.(io := io), 0, 0))
  }

  function DoArgs(size: nat, m: Machine): (Answer, Machine) {
    var k := Reg(m, REG_A3);
    if k >= |m.args| then (Refused, m)
    else (Filled(Padded(m.args[k], size)), Return(m, Wrap(|m.args[k]|), 0))
  }

  /** The system call `call` with a reply buffer of `size` bytes. */
  function HandleSyscall(host: Host, call: Syscall, size: nat, m: Machine): (Answer, Machine) {
    match call
    case SysRandom => DoRandom(host, size, m)
    case SysCycleCount => DoCycleCount(size, m)
    case SysPanic => DoPanic(m)
    case SysGetenv => DoGetenv(host, size, m)
    case SysRead => DoRead(size, m)
    case SysReadAvail => DoReadAvail(size, m)
    case SysWrite => DoEmit(size, m, Reg(m, REG_A3), Reg(m, REG_A4), Reg(m, REG_A5))
    case SysLog => DoEmit(size, m, STDOUT, Reg(m, REG_A3), Reg(m, REG_A4))
    case SysVerify => (Filled(Zeros(size)), Return(m, 0, 0))
    case SysArgc => (Filled(Zeros(size)), Return(m, Wrap(|m.args|), 0))
    case SysArgs => DoArgs(size, m)
    case SysUnknown => (Filled(Zeros(size)), m)
  }

  // ---------- Environment calls ----------

  function NextPc(m: Machine): u32 {
    Wrap(m.hart.pc + 4)
  }

  function EcallHalt(m: Machine): (Outcome, Machine) {
    var kind, code := Reg(m, REG_A0) % 0x100, Reg(m, REG_A0) / 0x100 % 0x100;
    if kind == 0 then (Proceed(m.hart.pc, Some(Halted(code)), 0), m)
    else if kind == 1 then (Proceed(m.hart.pc, Some(Paused(code)), 0), m)
    else (Fail, m)
  }

  function EcallSoftware(host: Host, m: Machine): (Outcome, Machine) {
    var toGuest, words := Reg(m, REG_A0), Reg(m, REG_A1);
    if !InGuest(toGuest) && toGuest != 0 then (Fail, m)
    else
      var (name, mem) := ReadName(m.mem, Reg(m, REG_A2));
      if name.None? || !host.validUtf8(name.value) then (Fail, m.(mem := mem))
      else
        var (answer, m1) := HandleSyscall(host, SyscallOf(name.value), 4 * words, m.(mem := mem));
        match answer
        case Refused => (Fail, m1)
        case Aborted => (Panic, m1)
        case Filled(bytes) => CopyOut(m1, toGuest, bytes, words)
  }

  /** The reply goes to guest memory byte by byte, unless the guest passed a null pointer. */
  function CopyOut(m: Machine, toGuest: u32, bytes: seq<byte>, words: u32): (Outcome, Machine) {
    var done := Proceed(NextPc(m), None, 1 + AlignUp(words) + 1);
    if toGuest == 0 then (done, m)
    else
      var (ok, mem) := WriteBytes(m.mem, toGuest, ByBytes, bytes);
      (if ok then done else Fail, m.(mem := mem))
  }

  /** `count` blocks folded into `state`; a block is two runs of eight words. */
  function ShaBlocks(host: Host, m: Mem, state: Digest, block1: u32, block2: u32, count: nat):
      (r: (Option<Digest>, Mem))
    decreases count
  {
    if count == 0 then (Some(state), m)
    else
      var (half1, m1) := ReadWords(m, block1, 8);
      if half1.None? then (None, m1)
      else
        var (half2, m2) := ReadWords(m1, block2, 8);
        if half2.None? then (None, m2)
        else
          var next := host.compress(state, LittleEndian(half1.value + half2.value));
          ShaBlocks(host, m2, next, Wrap(block1 + 64), Wrap(block2 + 64), count - 1)
  }

  /** The state at `input`, with `count` blocks folded in, stored at `output`. */
  function Sha(host: Host, m: Mem, output: u32, input: u32, block1: u32, block2: u32, count: nat): (bool, Mem) {
    var (bytes, mem) := ReadBytes(m, input, 32);
    if bytes.None? then (false, mem)
    else
      var (state, mem1) := ShaBlocks(host, mem, FromBigEndian(bytes.value), block1, block2, count);
      if state.None? then (false, mem1) else WriteBytes(mem1, output, ByBytes, BigEndian(state.value))
  }

  function EcallSha(host: Host, m: Machine): (Outcome, Machine) {
    var count := Reg(m, REG_A4);
    var (ok, mem) := Sha(host, m.mem, Reg(m, REG_A0), Reg(m, REG_A1), Reg(m, REG_A2), Reg(m, REG_A3), count);
    (if ok then Proceed(NextPc(m), None, Wrap(73 * count)) else Fail, m.(mem := mem))
  }

  /** The result is stored with byte-sized writes, one for the low byte of each word. */
  function EcallBigint(host: Host, m: Machine): (Outcome, Machine) {
    if Reg(m, REG_A1) != 0 then (Fail, m)
    else
      var (x, mem1) := ReadWords(m.mem, Reg(m, REG_A2), 8);
      if x.None? then (Fail, m.(mem := mem1))
      else
        var (y, mem2) := ReadWords(mem1, Reg(m, REG_A3), 8);
        if y.None? then (Fail, m.(mem := mem2))
        else
          var (n, mem3) := ReadWords(mem2, Reg(m, REG_A4), 8);
          if n.None? then (Fail, m.(mem := mem3))
          else
            var z := host.modMul(x.value, y.value, n.value);
            if z.None? then (Panic, m.(mem := mem3))
            else
              var (ok, mem4) := WriteBytes(mem3, Reg(m, REG_A0), ByWords, z.value);
              (if ok then Proceed(NextPc(m), None, 9) else Fail, m.(mem := mem4))
  }

  function Ecall(host: Host, m: Machine): (Outcome, Machine) {
    var call := Reg(m, REG_T0);
    if call == 0 then EcallHalt(m)
    else if call == 1 then (Proceed(NextPc(m), None, 0), m)
    else if call == 2 then EcallSoftware(host, m)
    else if call == 3 then EcallSha(host, m)
    else if call == 4 then EcallBigint(host, m)
    else (Fail, m)
  }

  // ---------- Other instructions ----------

  /** The executor fetches the instruction again, then carries out its plan. */
  function Execute(host: Host, m: Machine): (bool, Machine) {
    var (insn, mem) := ReadMem(m.mem, m.hart.pc, Word, false);
    if insn.None? then (false, m.(mem := mem))
    else
      match host.decode(m.hart, insn.value)
      case Retire(hart) => (true, m.(mem := mem, hart := hart))
      case Trap(hart) => (false, m.(mem := mem, hart := hart))
      case LoadThen(addr, size, resume, fault) =>
        var (value, mem1) := if Aligned(addr, size) then ReadMem(mem, addr, size, false) else (None, mem);
        if value.None? then (false, m.(mem := mem1, hart := fault))
        else (true, m.(mem := mem1, hart := resume(value.value)))
      case StoreThen(addr, size, data, done, fault) =>
        var (ok, mem1) := if Aligned(addr, size) then WriteMem(mem, addr, size, data, false) else (false, mem);
        (ok, m.(mem := mem1, hart := if ok then done else fault))
  }

  // ---------- One step ----------

  /** Charges a finished step and reports its exit code, or else the watch trigger. */
  function Finish(m: Machine, exit: Option<Exit>, base: nat): (StepResult, Machine) {
    match Settle(LedgerOf(m), base)
    case None => (Hung, m)
    case Some(l) =>
      var result := if exit.None? && m.mem.trigger.Some? then Some(HwWatchPoint(m.mem.trigger.value)) else exit;
      (Ran(result), m.(mem := m.mem.(ledger := Some(l))))
  }

  /** The machine after the fetch, when the watch trigger has been cleared. */
  function Cleared(m: Machine, mem: Mem): Machine {
    m.(mem := mem.(trigger := None, log := []))
  }

  /** What an instruction does before it is charged; the program counter is in place. */
  function Body(host: Host, m: Machine, insn: u32): (Outcome, Machine) {
    if IsEcall(insn) then
      var (outcome, m1) := Ecall(host, m);
      (outcome, if outcome.Proceed? then m1.(hart := m1.hart.(pc := outcome.pc)) else m1)
    else
      var (ok, m1) := Execute(host, m);
      (if ok then Proceed(m1.hart.pc, None, 0) else Fail, m1)
  }

  function Charge(outcome: Outcome, m: Machine, cycles: nat): (StepResult, Machine) {
    match outcome
    case Fail => (Failed, m)
    case Panic => (Panicked, m)
    case Proceed(_, exit, extra) => Finish(m, exit, cycles + extra)
  }

  function Step(host: Host, m: Machine): (StepResult, Machine) {
    var (insn, mem) := ReadMem(m.mem, m.hart.pc, Word, false);
    if insn.None? then (Failed, m.(mem := mem))
    else if OpcodeCycle(insn.value).None? then (Failed, Cleared(m, mem))
    else
      var (outcome, m1) := Body(host, Cleared(m, mem), insn.value);
      Charge(outcome, m1, OpcodeCycle(insn.value).value)
  }
}
