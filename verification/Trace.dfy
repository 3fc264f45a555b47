/**
 Replay: whatever a step does to memory, it does by granted accesses, and the history that
 the memory keeps is the list of them. So what holds of replaying any list of accesses holds
 of every system call, environment call and instruction.
 */
module Trace {
  import opened Words
  import opened SessionCycle
  import opened PagedMemory
  import opened Machine

  ghost predicate AlignedStores(accesses: seq<Access>) {
    forall a | a in accesses && a.Store? :: Aligned(a.addr, a.size)
  }

  /** `m'` results from `m` by the accesses that its history has gained, all granted and none
      of them a misaligned store. */
  ghost predicate Follows(m: Mem, m': Mem) {
    && m.log <= m'.log
    && AlignedStores(m'.log[|m.log|..])
    && Perform(m, m'.log[|m.log|..]).1 == m'
    && |Perform(m, m'.log[|m.log|..]).0| == |m'.log| - |m.log|
  }

  lemma FollowsSelf(m: Mem)
    ensures Follows(m, m)
  {
    assert m.log[|m.log|..] == [];
  }

  lemma FollowsThen(m: Mem, m1: Mem, m2: Mem)
    requires Follows(m, m1) && Follows(m1, m2)
    ensures Follows(m, m2)
  {
    var a, b := m1.log[|m.log|..], m2.log[|m1.log|..];
    PerformAppend(m, a, b);
    assert m2.log[|m.log|..] == a + b;
  }

  /** A granted access is recorded, a refused one changes nothing. */
  lemma DoLogs(m: Mem, a: Access)
    ensures Do(m, a).0.Some? <==> InGuest(a.addr)
    ensures Do(m, a).1.log == if InGuest(a.addr) then m.log + [a] else m.log
    ensures !InGuest(a.addr) ==> Do(m, a).1 == m
  {
  }

  lemma DoFollows(m: Mem, a: Access)
    requires a.Store? ==> Aligned(a.addr, a.size)
    ensures Follows(m, Do(m, a).1)
  {
    var (reply, m') := Do(m, a);
    DoLogs(m, a);
    if InGuest(a.addr) {
      assert m'.log[|m.log|..] == [a];
      assert [a][1..] == [];
      assert Perform(m', []) == ([], m');
    } else {
      FollowsSelf(m);
    }
  }

  lemma {:induction false} PerformFollows(m: Mem, accesses: seq<Access>)
    requires AlignedStores(accesses)
    ensures Follows(m, Perform(m, accesses).1)
    decreases accesses
  {
    if accesses == [] {
      FollowsSelf(m);
    } else {
      var (reply, m1) := Do(m, accesses[0]);
      assert accesses[0] in accesses;
      DoFollows(m, accesses[0]);
      DoLogs(m, accesses[0]);
      if reply.Some? {
        PerformFollows(m1, accesses[1..]);
        FollowsThen(m, m1, Perform(m1, accesses[1..]).1);
      }
    }
  }

  lemma ReadFollows(m: Mem, addr: u32, size: Size)
    ensures Follows(m, ReadMem(m, addr, size, false).1)
  {
    DoFollows(m, Load(addr, size));
  }

  lemma {:induction false} ReadNameFollows(m: Mem, addr: u32)
    ensures Follows(m, ReadName(m, addr).1)
    decreases if InGuest(addr) then GUEST_MAX_MEM + 1 - addr else 0
  {
    var (b, m1) := ReadMem(m, addr, Byte, false);
    ReadFollows(m, addr, Byte);
    if b.Some? && b.value % 0x100 != 0 {
      ReadNameFollows(m1, addr + 1);
      FollowsThen(m, m1, ReadName(m1, addr + 1).1);
    }
  }

  lemma {:induction false} ShaBlocksFollow(host: Host, m: Mem, state: Digest, block1: u32, block2: u32, count: nat)
    ensures Follows(m, ShaBlocks(host, m, state, block1, block2, count).1)
    decreases count
  {
    if count == 0 {
      FollowsSelf(m);
    } else {
      var (half1, m1) := ReadWords(m, block1, 8);
      PerformFollows(m, Loads(block1, ByWords, 8, Word));
      if half1.Some? {
        var (half2, m2) := ReadWords(m1, block2, 8);
        PerformFollows(m1, Loads(block2, ByWords, 8, Word));
        FollowsThen(m, m1, m2);
        if half2.Some? {
          var next := host.compress(state, LittleEndian(half1.value + half2.value));
          ShaBlocksFollow(host, m2, next, Wrap(block1 + 64), Wrap(block2 + 64), count - 1);
          FollowsThen(m, m2, ShaBlocks(host, m2, next, Wrap(block1 + 64), Wrap(block2 + 64), count - 1).1);
        }
      }
    }
  }

  lemma SyscallFollows(host: Host, call: Syscall, size: nat, m: Machine)
    ensures Follows(m.mem, HandleSyscall(host, call, size, m).1.mem)
  {
    FollowsSelf(m.mem);
    PerformFollows(m.mem, Loads(Reg(m, REG_A3), ByBytes, Reg(m, REG_A4), Byte));
    PerformFollows(m.mem, Loads(Reg(m, REG_A4), ByBytes, Reg(m, REG_A5), Byte));
  }

  lemma SoftwareFollows(host: Host, m: Machine)
    ensures Follows(m.mem, EcallSoftware(host, m).1.mem)
  {
    hide Follows, HandleSyscall, ReadName, SyscallOf, Perform;
    var toGuest, words: nat := Reg(m, REG_A0), Reg(m, REG_A1);
    FollowsSelf(m.mem);
    var (name, mem) := ReadName(m.mem, Reg(m, REG_A2));
    ReadNameFollows(m.mem, Reg(m, REG_A2));
    if name.Some? && host.validUtf8(name.value) && (InGuest(toGuest) || toGuest == 0) {
      var m0 := m.(mem := mem);
      var (answer, m1) := HandleSyscall(host, SyscallOf(name.value), 4 * words, m0);
      SyscallFollows(host, SyscallOf(name.value), 4 * words, m0);
      FollowsThen(m.mem, mem, m1.mem);
      if answer.Filled? {
        PerformFollows(m1.mem, Stores(toGuest, ByBytes, answer.toGuest));
        FollowsThen(m.mem, m1.mem, WriteBytes(m1.mem, toGuest, ByBytes, answer.toGuest).1);
      }
    }
  }

  lemma ShaFollows(host: Host, m: Machine)
    ensures Follows(m.mem, EcallSha(host, m).1.mem)
  {
    var count := Reg(m, REG_A4);
    var (bytes, mem) := ReadBytes(m.mem, Reg(m, REG_A1), 32);
    PerformFollows(m.mem, Loads(Reg(m, REG_A1), ByBytes, 32, Byte));
    if bytes.Some? {
      var start := FromBigEndian(bytes.value);
      var (state, mem1) := ShaBlocks(host, mem, start, Reg(m, REG_A2), Reg(m, REG_A3), count);
      ShaBlocksFollow(host, mem, start, Reg(m, REG_A2), Reg(m, REG_A3), count);
      FollowsThen(m.mem, mem, mem1);
      if state.Some? {
        PerformFollows(mem1, Stores(Reg(m, REG_A0), ByBytes, BigEndian(state.value)));
        FollowsThen(m.mem, mem1, WriteBytes(mem1, Reg(m, REG_A0), ByBytes, BigEndian(state.value)).1);
      }
    }
  }

  lemma ReadWordsFollows(m: Mem, m1: Mem, addr: u32)
    requires Follows(m, m1)
    ensures Follows(m, ReadWords(m1, addr, 8).1)
  {
    PerformFollows(m1, Loads(addr, ByWords, 8, Word));
    FollowsThen(m, m1, ReadWords(m1, addr, 8).1);
  }

  lemma BigintFollows(host: Host, m: Machine)
    ensures Follows(m.mem, EcallBigint(host, m).1.mem)
  {
    FollowsSelf(m.mem);
    var (x, mem1) := ReadWords(m.mem, Reg(m, REG_A2), 8);
    ReadWordsFollows(m.mem, m.mem, Reg(m, REG_A2));
    var (y, mem2) := ReadWords(mem1, Reg(m, REG_A3), 8);
    ReadWordsFollows(m.mem, mem1, Reg(m, REG_A3));
    var (n, mem3) := ReadWords(mem2, Reg(m, REG_A4), 8);
    ReadWordsFollows(m.mem, mem2, Reg(m, REG_A4));
    if x.Some? && y.Some? && n.Some? {
      var z := host.modMul(x.value, y.value, n.value);
      if z.Some? {
        PerformFollows(mem3, Stores(Reg(m, REG_A0), ByWords, z.value));
        FollowsThen(m.mem, mem3, WriteBytes(mem3, Reg(m, REG_A0), ByWords, z.value).1);
      }
    }
  }

  lemma EcallFollows(host: Host, m: Machine)
    ensures Follows(m.mem, Ecall(host, m).1.mem)
  {
    hide EcallSoftware, EcallSha, EcallBigint, Perform, Follows;
    FollowsSelf(m.mem);
    SoftwareFollows(host, m);
    ShaFollows(host, m);
    BigintFollows(host, m);
  }

  lemma ExecuteFollows(host: Host, m: Machine)
    ensures Follows(m.mem, Execute(host, m).1.mem)
  {
    var (insn, mem) := ReadMem(m.mem, m.hart.pc, Word, false);
    ReadFollows(m.mem, m.hart.pc, Word);
    if insn.Some? {
      match host.decode(m.hart, insn.value)
      case Retire(_) =>
      case Trap(_) =>
      case LoadThen(addr, size, _, _) =>
        ReadFollows(mem, addr, size);
        FollowsThen(m.mem, mem, ReadMem(mem, addr, size, false).1);
      case StoreThen(addr, size, data, _, _) =>
        if Aligned(addr, size) {
          DoFollows(mem, Store(addr, size, data));
          FollowsThen(m.mem, mem, WriteMem(mem, addr, size, data, false).1);
        }
    }
  }

  // ---------- What a list of granted accesses does ----------

  /** The pages that the loads (or the stores) among `accesses` touch. */
  function Touched(accesses: seq<Access>, loads: bool): set<Page> {
    set a | a in accesses && a.Load? == loads :: PageOf(a.addr)
  }

  /** The watch hit of the first access that matches a watchpoint. */
  function FirstHit(watches: seq<Watch>, accesses: seq<Access>): Option<Hit> {
    if accesses == [] then None
    else
      var hit := FirstMatch(watches, accesses[0].addr, Width(accesses[0].size), accesses[0].Store?);
      if hit.Some? then hit else FirstHit(watches, accesses[1..])
  }

  /** The pages of `accesses` entered in the books of the step under way. */
  function Billed(l: Ledger, accesses: seq<Access>): Ledger {
    l.(read := l.read + Touched(accesses, true), written := l.written + Touched(accesses, false))
  }

  lemma BilledThen(l: Ledger, a: seq<Access>, b: seq<Access>)
    ensures Billed(Billed(l, a), b) == Billed(l, a + b)
    ensures Billed(l, []) == l
  {
    TouchedAppend(a, b);
    assert l.read + Touched(a, true) + Touched(b, true) == l.read + Touched(a + b, true);
    assert l.written + Touched(a, false) + Touched(b, false) == l.written + Touched(a + b, false);
    assert l.read + Touched([], true) == l.read && l.written + Touched([], false) == l.written;
  }

  lemma BilledOne(l: Ledger, a: Access)
    ensures Billed(l, [a]) == Charged(l, a)
  {
    assert Touched([a], a.Load?) == {PageOf(a.addr)} by { assert a in [a]; }
    assert Touched([a], !a.Load?) == {};
    assert l.read + {} == l.read && l.written + {} == l.written;
  }

  /** `m'` as `accesses` leave it, but for the words. */
  ghost predicate Recorded(m: Mem, accesses: seq<Access>, m': Mem) {
    && m'.watches == m.watches
    && m'.log == m.log + accesses
    && m'.trigger == (if m.trigger.Some? then m.trigger else FirstHit(m.watches, accesses))
    && m'.ledger == (if m.ledger.None? then None else Some(Billed(m.ledger.value, accesses)))
    && forall a | a in accesses :: InGuest(a.addr)
  }

  lemma DoRecords(m: Mem, a: Access)
    requires InGuest(a.addr)
    ensures Recorded(m, [a], Do(m, a).1)
  {
    hide Billed;
    assert [a][1..] == [];
    assert FirstHit(m.watches, []) == None;
    assert FirstHit(m.watches, [a]) == FirstMatch(m.watches, a.addr, Width(a.size), a.Store?);
    if m.ledger.Some? { BilledOne(m.ledger.value, a); }
  }

  lemma RecordedThen(m: Mem, a: seq<Access>, m1: Mem, b: seq<Access>, m2: Mem)
    requires Recorded(m, a, m1) && Recorded(m1, b, m2)
    ensures Recorded(m, a + b, m2)
  {
    hide Billed, FirstHit;
    if m.ledger.Some? { BilledThen(m.ledger.value, a, b); }
    FirstHitAppend(m.watches, a, b);
  }

  lemma TouchedAppend(a: seq<Access>, b: seq<Access>)
    ensures Touched(a + b, true) == Touched(a, true) + Touched(b, true)
    ensures Touched(a + b, false) == Touched(a, false) + Touched(b, false)
  {
  }

  lemma {:induction false} FirstHitAppend(watches: seq<Watch>, a: seq<Access>, b: seq<Access>)
    ensures FirstHit(watches, a + b) ==
            if FirstHit(watches, a).Some? then FirstHit(watches, a) else FirstHit(watches, b)
  {
    if a == [] {
      assert a + b == b;
    } else {
      assert (a + b)[1..] == a[1..] + b;
      FirstHitAppend(watches, a[1..], b);
    }
  }

  /** Performing accesses records exactly those that were granted. */
  lemma {:induction false} PerformRecords(m: Mem, accesses: seq<Access>)
    ensures Recorded(m, accesses[..|Perform(m, accesses).0|], Perform(m, accesses).1)
    decreases accesses
  {
    hide FirstHit, Billed;
    if accesses == [] {
      NothingRecorded(m);
    } else {
      var a := accesses[0];
      DoLogs(m, a);
      if InGuest(a.addr) {
        DoRecords(m, a);
        var m1 := Do(m, a).1;
        PerformRecords(m1, accesses[1..]);
        var k := |Perform(m1, accesses[1..]).0|;
        RecordedThen(m, [a], m1, accesses[1..][..k], Perform(m1, accesses[1..]).1);
        assert [a] + accesses[1..][..k] == accesses[..k + 1];
      } else {
        NothingRecorded(m);
        assert accesses[..0] == [];
      }
    }
  }

  lemma NothingRecorded(m: Mem)
    ensures Recorded(m, [], m)
  {
    if m.ledger.Some? { BilledThen(m.ledger.value, [], []); }
  }

  /** So the history of a change made by accesses says what they did to the books, and that
      the watch trigger is the first match among them. */
  lemma FollowsRecords(m: Mem, m': Mem)
    requires Follows(m, m')
    ensures Recorded(m, m'.log[|m.log|..], m')
  {
    var accesses := m'.log[|m.log|..];
    PerformRecords(m, accesses);
    assert accesses[..|accesses|] == accesses;
  }

  // ---------- The books ----------

  /** Accesses only extend the sets of pages of the step under way. */
  ghost predicate SameBooks(m: Mem, m': Mem) {
    && m'.watches == m.watches
    && m'.ledger.Some? == m.ledger.Some?
    && (m.ledger.Some? ==>
        m'.ledger.value == m.ledger.value.(read := m'.ledger.value.read, written := m'.ledger.value.written))
  }

  lemma FollowsKeepsBooks(m: Mem, m': Mem)
    requires Follows(m, m')
    ensures SameBooks(m, m')
  {
    FollowsRecords(m, m');
  }
}
