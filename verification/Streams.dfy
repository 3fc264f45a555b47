/** The guest's streams: standard input is consumed in order and delivered exactly, and the
    outputs only ever grow, by the bytes of memory that a call names. */
module Streams {
  import opened Words
  import opened SessionCycle
  import opened PagedMemory
  import opened FlatMemory
  import opened Machine
  import opened Transparency
  import opened ByteRuns
  import opened Steps
  import opened Runs

  // ---------- Streams only grow ----------

  ghost predicate IoGrows(a: Io, b: Io) {
    && b.stdin == a.stdin && a.cursor <= b.cursor
    && (a.cursor <= |a.stdin| ==> b.cursor <= |b.stdin|)
    && a.stdout <= b.stdout && a.stderr <= b.stderr && a.journal <= b.journal
  }

  ghost predicate SameHostData(a: Machine, b: Machine) {
    IoGrows(a.io, b.io) && b.env == a.env && b.args == a.args
  }

  lemma ReadGrows(size: nat, m: Machine)
    ensures SameHostData(m, DoRead(size, m).1)
  {
    hide Padded, Compose;
  }

  lemma SyscallGrows(host: Host, call: Syscall, size: nat, m: Machine)
    ensures SameHostData(m, HandleSyscall(host, call, size, m).1)
  {
    hide ReadBytes, Padded, Zeros, Entropy, Compose, DoRead, SessionCycles, Take;
    ReadGrows(size, m);
  }

  lemma EcallGrows(host: Host, m: Machine)
    ensures SameHostData(m, Ecall(host, m).1)
  {
    hide ReadBytes, ReadWords, WriteBytes, ShaBlocks, HandleSyscall, ReadName, SyscallOf;
    if Reg(m, REG_T0) == 2 {
      var (name, mem) := ReadName(m.mem, Reg(m, REG_A2));
      if name.Some? {
        var words: nat := Reg(m, REG_A1);
        SyscallGrows(host, SyscallOf(name.value), 4 * words, m.(mem := mem));
      }
    }
  }

  /** Every step, completed or not, leaves the input data alone, reads it forwards, and only
      appends to the outputs. */
  lemma StepGrows(host: Host, m: Machine)
    ensures SameHostData(m, Step(host, m).1)
  {
    hide Ecall, ReadMem, WriteMem, Settle, OpcodeCycle, IsEcall;
    if Insn(m).Some? {
      EcallGrows(host, Start(m));
    }
  }

  lemma {:induction false} RunGrows(host: Host, m: Machine, n: nat)
    ensures SameHostData(m, After(host, m, n))
  {
    hide Step;
    if n > 0 {
      RunGrows(host, m, n - 1);
      StepGrows(host, After(host, m, n - 1));
    }
  }

  // ---------- Output ----------

  /** SYS_WRITE and SYS_LOG are granted exactly when the bytes lie in guest memory and the
      descriptor is an output; then that output grows by those bytes and nothing else. */
  lemma EmitsMemory(size: nat, m: Machine, fd: u32, addr: u32, len: u32)
    ensures DoEmit(size, m, fd, addr, len).0.Filled? <==> RunFits(addr, ByBytes, len) && fd in {STDOUT, STDERR, JOURNAL}
    ensures var (answer, m') := DoEmit(size, m, fd, addr, len);
            if answer.Filled? then
              exists bytes :: |bytes| == len && Shows(m.mem, addr, bytes) && Emit(m.io, fd, bytes) == Some(m'.io)
            else m'.io == m.io
    ensures SameWords(m.mem, DoEmit(size, m, fd, addr, len).1.mem)
  {
    hide ReadBytes, Shows, RunFits, SameWords, Zeros;
    ReadBytesSees(m.mem, addr, len);
    var bytes := ReadBytes(m.mem, addr, len).0;
    if bytes.Some? {
      assert Shows(m.mem, addr, bytes.value);
    }
  }

  ghost predicate SameOutputs(a: Io, b: Io) {
    a.stdout == b.stdout && a.stderr == b.stderr && a.journal == b.journal
  }

  /** No other call touches an output. */
  lemma OtherCallsSilent(host: Host, call: Syscall, size: nat, m: Machine)
    requires call != SysWrite && call != SysLog
    ensures SameOutputs(m.io, HandleSyscall(host, call, size, m).1.io)
  {
    hide ReadBytes, Padded, Zeros, Entropy, Compose, Take;
  }

  // ---------- Input ----------

  /** The step at `m` is the system call `call`. */
  predicate IsCall(host: Host, m: Machine, call: Syscall) {
    && Insn(m).Some? && IsEcall(Insn(m).value) && Reg(m, REG_T0) == 2
    && var name := ReadName(Start(m).mem, Reg(m, REG_A2)).0;
       name.Some? && SyscallOf(name.value) == call
  }

  /** Where SYS_READ put its bytes can be seen by the guest: the pointer is not null, or no
      whole word was asked for. */
  predicate Visible(m: Machine) {
    Reg(m, REG_A0) != 0 || Reg(m, REG_A1) == 0
  }

  /** What the guest has in hand after SYS_READ: the buffer in memory, and as many bytes of A1
      as A0 says beyond it. */
  function InHand(m: Machine, m': Machine): seq<byte> {
    var toGuest, size, total := Reg(m, REG_A0), 4 * (Reg(m, REG_A1) as nat), Reg(m', REG_A0);
    var tail := LittleEndian([Reg(m', REG_A1)]);
    if toGuest + size <= 0x1_0000_0000 && size <= total <= size + 4 then
      MemBytes(m'.mem, toGuest, size) + tail[..total - size]
    else []
  }

  lemma TakeIsSlice(io: Io, want: nat)
    requires io.cursor <= |io.stdin|
    ensures Take(io, want) == io.stdin[io.cursor..io.cursor + |Take(io, want)|]
    ensures io.cursor + |Take(io, want)| <= |io.stdin|
  {
  }

  lemma LittleEndianOne(bytes: seq<byte>)
    requires |bytes| == 4
    ensures LittleEndian([Compose(bytes[0], bytes[1], bytes[2], bytes[3])]) == bytes
  {
    WordBytes(bytes[0], bytes[1], bytes[2], bytes[3]);
    hide ByteOf, Compose;
    var w := Compose(bytes[0], bytes[1], bytes[2], bytes[3]);
    forall i | 0 <= i < 4 ensures LittleEndian([w])[i] == bytes[i] {
      assert i / 4 == 0 && i % 4 == i;
    }
  }

  /** The call itself: what it takes from standard input is the buffer and the tail in A1. */
  lemma ReadTakes(size: nat, m: Machine)
    requires DoRead(size, m).0.Filled? && m.io.cursor <= |m.io.stdin|
    ensures var (answer, m') := DoRead(size, m);
            var total := Reg(m', REG_A0);
            && |answer.toGuest| == size <= total <= size + 4
            && m'.io == m.io.(cursor := m.io.cursor + total) && m'.io.cursor <= |m.io.stdin|
            && m'.mem == m.mem
            && answer.toGuest + LittleEndian([Reg(m', REG_A1)])[..total - size] == m.io.stdin[m.io.cursor..m'.io.cursor]
  {
    hide Take, Padded, Compose, LittleEndian;
    var nbytes := Reg(m, REG_A4);
    var main := Take(m.io, size);
    TakeIsSlice(m.io, size);
    var m1 := m.(io := m.io.(cursor := m.io.cursor + |main|));
    var tail := Take(m1.io, nbytes - size);
    TakeIsSlice(m1.io, nbytes - size);
    var end := Padded(tail, 4);
    assert end[..|tail|] == tail by { PaddedPrefix(tail, 4); }
    LittleEndianOne(end);
    var m' := DoRead(size, m).1;
    assert Reg(m', REG_A1) == Compose(end[0], end[1], end[2], end[3]);
    assert Reg(m', REG_A0) == |main| + |tail|;
    SliceSplit(m.io.stdin, m.io.cursor, m1.io.cursor, m1.io.cursor + |tail|);
  }

  lemma PaddedPrefix(bytes: seq<byte>, size: nat)
    requires |bytes| <= size
    ensures Padded(bytes, size)[..|bytes|] == bytes
  {
  }

  lemma SliceSplit<T>(s: seq<T>, i: nat, j: nat, k: nat)
    requires i <= j <= k <= |s|
    ensures s[i..j] + s[j..k] == s[i..k]
  {
  }

  /** A reply that is copied out is in memory, byte for byte. */
  lemma CopyOutLands(m: Machine, toGuest: u32, bytes: seq<byte>, words: u32)
    requires CopyOut(m, toGuest, bytes, words).0.Proceed?
    ensures var m' := CopyOut(m, toGuest, bytes, words).1;
            && m' == m.(mem := m'.mem)
            && (toGuest != 0 ==> toGuest + |bytes| <= 0x1_0000_0000 && MemBytes(m'.mem, toGuest, |bytes|) == bytes)
  {
    hide WriteBytes, ByteAt;
    if toGuest != 0 {
      WriteBytesLands(m.mem, toGuest, ByBytes, bytes);
      var mem := WriteBytes(m.mem, toGuest, ByBytes, bytes).1;
      forall i | 0 <= i < |bytes| ensures MemBytes(mem, toGuest, |bytes|)[i] == bytes[i] {
        assert ByteAt(mem, toGuest + i) == StoredByte(m.mem, toGuest, ByBytes, bytes, toGuest + i);
      }
    }
  }

  /** A SYS_READ that returns has delivered: what the guest has in hand is what was consumed. */
  lemma SoftwareDelivers(host: Host, m: Machine)
    requires EcallSoftware(host, m).0.Proceed? && Visible(m) && m.io.cursor <= |m.io.stdin|
    requires ReadName(m.mem, Reg(m, REG_A2)).0.Some?
    requires SyscallOf(ReadName(m.mem, Reg(m, REG_A2)).0.value) == SysRead
    ensures var m' := EcallSoftware(host, m).1;
            && m.io.cursor <= m'.io.cursor <= |m.io.stdin|
            && InHand(m, m') == m.io.stdin[m.io.cursor..m'.io.cursor]
            && Reg(m', REG_A0) == m'.io.cursor - m.io.cursor
  {
    hide ReadName, SyscallOf, CopyOut, DoRead, LittleEndian, MemBytes;
    var toGuest, words := Reg(m, REG_A0), Reg(m, REG_A1);
    var size: nat := 4 * (words as nat);
    var m0 := m.(mem := ReadName(m.mem, Reg(m, REG_A2)).1);
    var (answer, m1) := DoRead(size, m0);
    assert HandleSyscall(host, SysRead, size, m0) == DoRead(size, m0);
    assert answer.Filled?;
    ReadTakes(size, m0);
    CopyOutLands(m1, toGuest, answer.toGuest, words);
    var m' := CopyOut(m1, toGuest, answer.toGuest, words).1;
    if toGuest == 0 {
      assert answer.toGuest == [];
      assert MemBytes(m'.mem, toGuest, 0) == [];
    }
  }

  lemma InHandSamePages(m: Machine, m': Machine, n: Machine, n': Machine)
    requires n.hart == m.hart && n'.hart.regs == m'.hart.regs && n'.mem.pages == m'.mem.pages
    ensures InHand(n, n') == InHand(m, m')
  {
    var toGuest, size := Reg(m, REG_A0), 4 * (Reg(m, REG_A1) as nat);
    if toGuest + size <= 0x1_0000_0000 {
      assert MemBytes(n'.mem, toGuest, size) == MemBytes(m'.mem, toGuest, size) by {
        forall i | 0 <= i < size ensures MemBytes(n'.mem, toGuest, size)[i] == MemBytes(m'.mem, toGuest, size)[i] {
          assert ByteAt(n'.mem, toGuest + i) == ByteAt(m'.mem, toGuest + i);
        }
      }
    }
  }

  /** Delivery over a whole step: what a SYS_READ consumes is in the guest's hands afterwards,
      and A0 counts it. */
  lemma StepDelivers(host: Host, m: Machine)
    requires Step(host, m).0.Ran? && IsCall(host, m, SysRead) && Visible(m) && m.io.cursor <= |m.io.stdin|
    ensures var m' := Step(host, m).1;
            && m.io.cursor <= m'.io.cursor <= |m.io.stdin|
            && InHand(m, m') == m.io.stdin[m.io.cursor..m'.io.cursor]
            && Reg(m', REG_A0) == m'.io.cursor - m.io.cursor
  {
    RanIsCharged(host, m);
    var start := Start(m);
    var mid := EcallSoftware(host, start).1;
    hide ReadMem, Step, EcallSoftware, EcallSha, EcallBigint, ReadName, SyscallOf, InHand, OpcodeCycle, IsEcall,
      Settle, Trace.Follows;
    SoftwareDelivers(host, start);
    InHandSamePages(start, mid, m, Step(host, m).1);
  }

  lemma OtherCallsKeepCursor(host: Host, call: Syscall, size: nat, m: Machine)
    requires call != SysRead
    ensures HandleSyscall(host, call, size, m).1.io.cursor == m.io.cursor
  {
    hide ReadBytes, Padded, Zeros, Entropy, Compose, Take;
  }

  /** Nothing but SYS_READ consumes input. */
  lemma OtherStepsKeepCursor(host: Host, m: Machine)
    requires !IsCall(host, m, SysRead)
    ensures Step(host, m).1.io.cursor == m.io.cursor
  {
    hide ReadMem, WriteMem, EcallSha, EcallBigint, ReadName, SyscallOf, OpcodeCycle, IsEcall, Settle, HandleSyscall,
      WriteBytes;
    if Insn(m).Some? && IsEcall(Insn(m).value) && Reg(m, REG_T0) == 2 {
      var start := Start(m);
      var (name, mem) := ReadName(start.mem, Reg(m, REG_A2));
      if name.Some? {
        OtherCallsKeepCursor(host, SyscallOf(name.value), 4 * (Reg(m, REG_A1) as nat), start.(mem := mem));
      }
    }
    QuietEcalls(host, Start(m));
  }

  lemma QuietEcalls(host: Host, m: Machine)
    ensures EcallSha(host, m).1.io == m.io && EcallBigint(host, m).1.io == m.io
  {
    hide ReadBytes, ReadWords, ShaBlocks, WriteBytes;
  }

  /** SYS_READ_AVAIL returns the length of what is left of standard input, unless that does
      not fit a register. */
  lemma AvailIsRest(size: nat, m: Machine)
    requires Reg(m, REG_A3) == STDIN && m.io.cursor <= |m.io.stdin|
    ensures Reg(DoReadAvail(size, m).1, REG_A0) == |m.io.stdin| - m.io.cursor
       <==> |m.io.stdin| - m.io.cursor < 0x1_0000_0000
  {
  }
}
