/** What the software call and the SHA call will do, foreseen from the machine before them:
    whether they complete, which pages and cycles they are charged for, and whether they hang. */
module Calls {
  import opened Words
  import opened SessionCycle
  import opened PagedMemory
  import opened FlatMemory
  import opened Machine
  import opened Transparency
  import opened Trace
  import opened ByteRuns
  import opened Steps
  import opened Runs
  import opened Outputs
  import opened Hashing
  import opened Hanging
  import P = Packing

  // ---------- Pages of a run of accesses ----------

  /** The pages of `count` places, evenly spaced. */
  function PagesOf(addr: u32, spacing: Spacing, count: nat): set<Page> {
    set i | 0 <= i < count :: PageOf(Place(addr, spacing, i))
  }

  /** `l` with pages added to the step under way. */
  function Noted(l: Ledger, loaded: set<Page>, stored: set<Page>): Ledger {
    l.(read := l.read + loaded, written := l.written + stored)
  }

  /** The books of `m'` are those of `m` with these pages added. */
  ghost predicate Books(m: Mem, m': Mem, loaded: set<Page>, stored: set<Page>) {
    m.ledger.Some? ==> m'.ledger == Some(Noted(m.ledger.value, loaded, stored))
  }

  lemma BooksSelf(m: Mem)
    ensures Books(m, m, {}, {})
  {
    if m.ledger.Some? {
      assert m.ledger.value.read + {} == m.ledger.value.read && m.ledger.value.written + {} == m.ledger.value.written;
    }
  }

  lemma ReadsThenReads(a: Mem, b: Mem, c: Mem, r1: set<Page>, r2: set<Page>)
    requires Books(a, b, r1, {}) && Books(b, c, r2, {})
    ensures Books(a, c, r1 + r2, {})
  {
    if a.ledger.Some? {
      var l := a.ledger.value;
      assert l.read + r1 + r2 == l.read + (r1 + r2) && l.written + {} + {} == l.written + {};
    }
  }

  lemma ReadsThenWrites(a: Mem, b: Mem, c: Mem, loaded: set<Page>, stored: set<Page>)
    requires Books(a, b, loaded, {}) && Books(b, c, {}, stored)
    ensures Books(a, c, loaded, stored)
  {
    if a.ledger.Some? {
      var l := a.ledger.value;
      assert l.read + loaded + {} == l.read + loaded && l.written + {} + stored == l.written + stored;
    }
  }

  lemma GrantedBooks(m: Mem, accesses: seq<Access>)
    requires |Perform(m, accesses).0| == |accesses|
    ensures Books(m, Perform(m, accesses).1, Touched(accesses, true), Touched(accesses, false))
  {
    PerformRecords(m, accesses);
    assert accesses[..|accesses|] == accesses;
  }

  lemma LoadsBooks(m: Mem, addr: u32, spacing: Spacing, count: nat, size: Size)
    requires RunFits(addr, spacing, count)
    ensures Books(m, Perform(m, Loads(addr, spacing, count, size)).1, PagesOf(addr, spacing, count), {})
  {
    hide Books, RunFits, Perform;
    var loads := Loads(addr, spacing, count, size);
    RunReplies(m, addr, spacing, count, size);
    GrantedBooks(m, loads);
    LoadsTouch(addr, spacing, count, size);
  }

  lemma LoadsTouch(addr: u32, spacing: Spacing, count: nat, size: Size)
    ensures Touched(Loads(addr, spacing, count, size), true) == PagesOf(addr, spacing, count)
    ensures Touched(Loads(addr, spacing, count, size), false) == {}
  {
    var loads := Loads(addr, spacing, count, size);
    hide Place, Loads, PageOf;
    LoadPlaces(addr, spacing, count, size);
    forall p ensures p in Touched(loads, true) <==> p in PagesOf(addr, spacing, count) {
      if p in PagesOf(addr, spacing, count) {
        var i :| 0 <= i < count && p == PageOf(Place(addr, spacing, i));
        assert loads[i] in loads;
      }
    }
  }

  lemma StoresBooks(m: Mem, addr: u32, spacing: Spacing, data: seq<u32>)
    requires RunFits(addr, spacing, |data|)
    ensures Books(m, WriteBytes(m, addr, spacing, data).1, {}, PagesOf(addr, spacing, |data|))
  {
    hide Books, RunFits, Perform;
    WriteBytesGranted(m, addr, spacing, data);
    GrantedBooks(m, Stores(addr, spacing, data));
    StoresTouch(addr, spacing, data);
  }

  lemma StoresTouch(addr: u32, spacing: Spacing, data: seq<u32>)
    ensures Touched(Stores(addr, spacing, data), false) == PagesOf(addr, spacing, |data|)
    ensures Touched(Stores(addr, spacing, data), true) == {}
  {
    var stores := Stores(addr, spacing, data);
    assert forall i | 0 <= i < |data| :: stores[i] == Store(Place(addr, spacing, i), Byte, data[i]);
    hide Place, Stores, PageOf;
    forall p ensures p in Touched(stores, false) <==> p in PagesOf(addr, spacing, |data|) {
      if p in PagesOf(addr, spacing, |data|) {
        var i :| 0 <= i < |data| && p == PageOf(Place(addr, spacing, i));
        assert stores[i] in stores;
      }
    }
  }

  // ---------- The name ----------

  lemma NamePages(addr: u32, count: nat)
    requires count > 0 && addr < GUEST_MAX_MEM
    ensures PagesOf(addr, ByBytes, count) == {PageOf(addr)} + PagesOf(addr + 1, ByBytes, count - 1)
  {
    assert Place(addr, ByBytes, 0) == addr;
    forall i | 0 < i < count ensures Place(addr, ByBytes, i) == Place(addr + 1, ByBytes, i - 1) {
    }
    hide Place, PageOf;
    forall p ensures p in PagesOf(addr, ByBytes, count)
                <==> p in {PageOf(addr)} + PagesOf(addr + 1, ByBytes, count - 1)
    {
      if p in PagesOf(addr + 1, ByBytes, count - 1) {
        var i :| 0 <= i < count - 1 && p == PageOf(Place(addr + 1, ByBytes, i));
        assert Place(addr, ByBytes, i + 1) == Place(addr + 1, ByBytes, i);
      }
    }
  }

  lemma ReadBooks(m: Mem, addr: u32)
    requires InGuest(addr)
    ensures Books(m, ReadMem(m, addr, Byte, false).1, {PageOf(addr)}, {})
  {
    if m.ledger.Some? {
      assert m.ledger.value.written + {} == m.ledger.value.written;
    }
  }

  /** Reading a name touches the pages of its characters and of the zero behind it. */
  lemma {:induction false} NameBooks(m: Mem, addr: u32)
    requires ReadName(m, addr).0.Some?
    ensures Books(m, ReadName(m, addr).1, PagesOf(addr, ByBytes, |ReadName(m, addr).0.value| + 1), {})
    decreases if InGuest(addr) then GUEST_MAX_MEM + 1 - addr else 0
  {
    NameStep(m, addr);
    ReadBooks(m, addr);
    var (b, m1) := ReadMem(m, addr, Byte, false);
    hide ReadMem, ByteAt, SameWords, Books, PageOf;
    if b.value % 0x100 == 0 {
      OnePage(addr);
    } else {
      NameBooks(m1, addr + 1);
      var rest := ReadName(m1, addr + 1);
      ReadsThenReads(m, m1, rest.1, {PageOf(addr)}, PagesOf(addr + 1, ByBytes, |rest.0.value| + 1));
      NextInGuest(m1, addr);
      NamePages(addr, |rest.0.value| + 2);
    }
  }

  lemma OnePage(addr: u32)
    ensures PagesOf(addr, ByBytes, 1) == {PageOf(addr)}
  {
    assert Place(addr, ByBytes, 0) == addr;
    assert PageOf(Place(addr, ByBytes, 0)) in PagesOf(addr, ByBytes, 1);
  }

  lemma NextInGuest(m: Mem, addr: u32)
    requires addr <= GUEST_MAX_MEM && ReadName(m, addr + 1).0.Some?
    ensures addr < GUEST_MAX_MEM
  {
    hide ByteAt;
    NameStep(m, addr + 1);
  }

  // ---------- System calls ----------

  /** What is left of standard input. */
  function Available(io: Io): nat {
    if io.cursor <= |io.stdin| then |io.stdin| - io.cursor else 0
  }

  /** The bytes lie in guest memory and are valid text. */
  predicate ValidText(host: Host, m: Mem, addr: u32, len: u32) {
    RunFits(addr, ByBytes, len) && host.validUtf8(MemBytes(m, addr, len))
  }

  /** The call has an answer. */
  predicate Grants(host: Host, call: Syscall, size: nat, m: Machine) {
    match call
    case SysPanic => false
    case SysGetenv => ValidText(host, m.mem, Reg(m, REG_A3), Reg(m, REG_A4))
    case SysRead =>
      && Reg(m, REG_A3) == STDIN
      && size <= Reg(m, REG_A4) <= size + 4 && size <= Available(m.io)
    case SysReadAvail => Reg(m, REG_A3) == STDIN
    case SysWrite => RunFits(Reg(m, REG_A4), ByBytes, Reg(m, REG_A5)) && IsOutput(Reg(m, REG_A3))
    case SysLog => RunFits(Reg(m, REG_A3), ByBytes, Reg(m, REG_A4))
    case SysArgs => Reg(m, REG_A3) < |m.args|
    case _ => true
  }

  /** The pages that it reads. */
  function CallPages(call: Syscall, m: Machine): set<Page> {
    match call
    case SysGetenv => PagesOf(Reg(m, REG_A3), ByBytes, Reg(m, REG_A4))
    case SysWrite => PagesOf(Reg(m, REG_A4), ByBytes, Reg(m, REG_A5))
    case SysLog => PagesOf(Reg(m, REG_A3), ByBytes, Reg(m, REG_A4))
    case _ => {}
  }

  lemma ReadBytesBooks(m: Mem, addr: u32, count: nat)
    ensures var (bytes, m') := ReadBytes(m, addr, count);
            && (bytes.Some? <==> RunFits(addr, ByBytes, count))
            && (bytes.Some? ==>
                  bytes.value == MemBytes(m, addr, count) && Books(m, m', PagesOf(addr, ByBytes, count), {}))
  {
    hide Books, RunFits, PagesOf, ByteAt;
    ReadBytesSees(m, addr, count);
    if RunFits(addr, ByBytes, count) {
      LoadsBooks(m, addr, ByBytes, count, Byte);
      ShowsMemBytes(m, addr, ReadBytes(m, addr, count).0.value);
    }
  }

  lemma ReadGrants(size: nat, m: Machine)
    ensures DoRead(size, m).0.Filled? <==>
            && Reg(m, REG_A3) == STDIN && size <= Reg(m, REG_A4) <= size + 4 && size <= Available(m.io)
    ensures DoRead(size, m).1.mem == m.mem && (DoRead(size, m).0.Filled? ==> |DoRead(size, m).0.toGuest| == size)
  {
    hide Padded, Compose;
  }

  lemma SyscallGrants(host: Host, call: Syscall, size: nat, m: Machine)
    ensures var (answer, m') := HandleSyscall(host, call, size, m);
            && (answer.Filled? <==> Grants(host, call, size, m))
            && (answer.Filled? ==> |answer.toGuest| == size && Books(m.mem, m'.mem, CallPages(call, m), {}))
  {
    hide ReadBytes, RunFits, Books, PagesOf, MemBytes, Padded, Zeros, Entropy, Compose, DoRead, SessionCycles;
    BooksSelf(m.mem);
    match call
    case SysGetenv => ReadBytesBooks(m.mem, Reg(m, REG_A3), Reg(m, REG_A4));
    case SysRead => ReadGrants(size, m);
    case SysWrite => ReadBytesBooks(m.mem, Reg(m, REG_A4), Reg(m, REG_A5));
    case SysLog => ReadBytesBooks(m.mem, Reg(m, REG_A3), Reg(m, REG_A4));
    case _ =>
  }

  // ---------- The software call ----------

  /** The name of the call, or `None` when there is none. */
  function NameAt(m: Machine): Option<seq<byte>> {
    ReadName(m.mem, Reg(m, REG_A2)).0
  }

  /** The software call at `m` carries out `call`: its reply pointer is null or in guest memory, and
      its name is that of `call` and valid text. */
  predicate CarriesOut(host: Host, m: Machine, call: Syscall) {
    && (InGuest(Reg(m, REG_A0)) || Reg(m, REG_A0) == 0)
    && NameAt(m).Some? && host.validUtf8(NameAt(m).value) && SyscallOf(NameAt(m).value) == call
  }

  /** The bytes of the reply. */
  function ReplySize(m: Machine): nat {
    4 * (Reg(m, REG_A1) as nat)
  }

  /** The reply can be stored: nowhere, or in guest memory. */
  predicate ReplyFits(m: Machine) {
    Reg(m, REG_A0) == 0 || RunFits(Reg(m, REG_A0), ByBytes, ReplySize(m))
  }

  /** The software call at `m` gets as far as its charge. */
  predicate SoftwareCompletes(host: Host, m: Machine) {
    && NameAt(m).Some?
    && var call := SyscallOf(NameAt(m).value);
       CarriesOut(host, m, call) && Grants(host, call, ReplySize(m), m) && ReplyFits(m)
  }

  /** The pages that it reads after the fetch: those of its name and those that `call` reads. */
  function SoftwareReads(m: Machine, call: Syscall, name: seq<byte>): set<Page> {
    PagesOf(Reg(m, REG_A2), ByBytes, |name| + 1) + CallPages(call, m)
  }

  function SoftwareWrites(m: Machine): set<Page> {
    if Reg(m, REG_A0) == 0 then {} else PagesOf(Reg(m, REG_A0), ByBytes, ReplySize(m))
  }

  /** Whether a call is granted depends on the bytes of memory alone. */
  lemma GrantsSame(host: Host, call: Syscall, size: nat, m: Machine, mem: Mem)
    requires SameWords(m.mem, mem)
    ensures Grants(host, call, size, m.(mem := mem)) == Grants(host, call, size, m)
  {
    hide SameWords, MemBytes, RunFits;
    if call == SysGetenv && RunFits(Reg(m, REG_A3), ByBytes, Reg(m, REG_A4)) {
      RunEnds(Reg(m, REG_A3), Reg(m, REG_A4));
      SameWordsMemBytes(m.mem, mem, Reg(m, REG_A3), Reg(m, REG_A4));
    }
  }

  lemma RunEnds(addr: u32, count: nat)
    requires RunFits(addr, ByBytes, count)
    ensures addr + count <= 0x1_0000_0000
  {
  }

  lemma CopyOutBooks(m: Machine, toGuest: u32, bytes: seq<byte>, words: u32)
    requires |bytes| == 4 * words
    ensures var (outcome, m') := CopyOut(m, toGuest, bytes, words);
            var pages := if toGuest == 0 then {} else PagesOf(toGuest, ByBytes, |bytes|);
            && (outcome.Proceed? <==> toGuest == 0 || RunFits(toGuest, ByBytes, |bytes|))
            && (outcome.Proceed? ==> Books(m.mem, m'.mem, {}, pages) && outcome.extra == AlignUp(words) + 2)
  {
    hide WriteBytes, RunFits, Books, PagesOf, AlignUp;
    BooksSelf(m.mem);
    WriteBytesGranted(m.mem, toGuest, ByBytes, bytes);
    if toGuest != 0 && RunFits(toGuest, ByBytes, |bytes|) {
      StoresBooks(m.mem, toGuest, ByBytes, bytes);
    }
  }

  /** A software call completes exactly when it is foreseen to, and touches the pages and takes the
      cycles foreseen. */
  lemma SoftwareForeseen(host: Host, m: Machine)
    ensures var (outcome, m') := EcallSoftware(host, m);
            && (outcome.Proceed? <==> SoftwareCompletes(host, m))
            && (outcome.Proceed? ==>
                  && outcome.extra == AlignUp(Reg(m, REG_A1)) + 2
                  && var name := NameAt(m).value;
                     Books(m.mem, m'.mem, SoftwareReads(m, SyscallOf(name), name), SoftwareWrites(m)))
  {
    hide ReadName, SyscallOf, HandleSyscall, CopyOut, Grants, Books, PagesOf, CallPages, RunFits, SameWords, AlignUp;
    var (name, mem) := ReadName(m.mem, Reg(m, REG_A2));
    if name.Some? {
      var size, m0, call := ReplySize(m), m.(mem := mem), SyscallOf(name.value);
      NameMissingIff(m.mem, Reg(m, REG_A2));
      NameBooks(m.mem, Reg(m, REG_A2));
      GrantsSame(host, call, size, m, mem);
      SyscallGrants(host, call, size, m0);
      SameCallPages(call, m, mem);
      var (answer, m1) := HandleSyscall(host, call, size, m0);
      if answer.Filled? {
        CopyOutBooks(m1, Reg(m, REG_A0), answer.toGuest, Reg(m, REG_A1));
        var m2 := CopyOut(m1, Reg(m, REG_A0), answer.toGuest, Reg(m, REG_A1)).1;
        if ReplyFits(m) {
          SoftwareBooks(m, mem, m1.mem, m2.mem, call, name.value);
        }
      }
    }
  }

  lemma SameCallPages(call: Syscall, m: Machine, mem: Mem)
    ensures CallPages(call, m.(mem := mem)) == CallPages(call, m)
  {
    hide PagesOf;
  }

  lemma SoftwareBooks(m: Machine, a: Mem, b: Mem, c: Mem, call: Syscall, name: seq<byte>)
    requires Books(m.mem, a, PagesOf(Reg(m, REG_A2), ByBytes, |name| + 1), {})
    requires Books(a, b, CallPages(call, m), {}) && Books(b, c, {}, SoftwareWrites(m))
    ensures Books(m.mem, c, SoftwareReads(m, call, name), SoftwareWrites(m))
  {
    hide PagesOf, CallPages, SoftwareWrites, Books;
    var named, called, stored := PagesOf(Reg(m, REG_A2), ByBytes, |name| + 1), CallPages(call, m), SoftwareWrites(m);
    ReadsThenReads(m.mem, a, b, named, called);
    ReadsThenWrites(m.mem, b, c, named + called, stored);
  }

  // ---------- The SHA call ----------

  /** The pages of the blocks. */
  function BlockPages(block1: nat, block2: nat, count: nat): set<Page>
    requires BlocksFit(block1, block2, count)
    decreases count
  {
    if count == 0 then {}
    else
      PagesOf(block1, ByWords, 8) + PagesOf(block2, ByWords, 8) + BlockPages(block1 + 64, block2 + 64, count - 1)
  }

  lemma ReadWordsBooks(m: Mem, addr: u32)
    requires RunFits(addr, ByWords, 8)
    ensures ReadWords(m, addr, 8).0.Some? && Books(m, ReadWords(m, addr, 8).1, PagesOf(addr, ByWords, 8), {})
  {
    hide Books, RunFits, PagesOf;
    ReadWordsSees(m, addr, 8);
    LoadsBooks(m, addr, ByWords, 8, Word);
  }

  lemma {:induction false} BlocksBooks(host: Host, m: Mem, state: Digest, block1: u32, block2: u32, count: nat)
    requires BlocksFit(block1, block2, count)
    ensures Books(m, ShaBlocks(host, m, state, block1, block2, count).1, BlockPages(block1, block2, count), {})
    decreases count
  {
    hide Books, ReadWords, PagesOf, LittleEndian;
    if count == 0 {
      BooksSelf(m);
    } else {
      HalvesFit(block1, block2, count);
      ReadWordsBooks(m, block1);
      var (half1, m1) := ReadWords(m, block1, 8);
      ReadWordsBooks(m1, block2);
      var (half2, m2) := ReadWords(m1, block2, 8);
      var first, second := PagesOf(block1, ByWords, 8), PagesOf(block2, ByWords, 8);
      ReadsThenReads(m, m1, m2, first, second);
      var next := host.compress(state, LittleEndian(half1.value + half2.value));
      var m3 := ShaBlocks(host, m2, next, block1 + 64, block2 + 64, count - 1).1;
      BlocksBooks(host, m2, next, block1 + 64, block2 + 64, count - 1);
      ReadsThenReads(m, m2, m3, first + second, BlockPages(block1 + 64, block2 + 64, count - 1));
      hide BlocksFit, Wrap;
    }
  }

  lemma HalvesFit(block1: u32, block2: u32, count: nat)
    requires count > 0 && BlocksFit(block1, block2, count)
    ensures RunFits(block1, ByWords, 8) && RunFits(block2, ByWords, 8)
    ensures Wrap(block1 + 64) == block1 + 64 && Wrap(block2 + 64) == block2 + 64
    ensures BlocksFit(block1 + 64, block2 + 64, count - 1)
  {
  }

  function ShaReads(m: Machine): set<Page>
    requires BlocksFit(Reg(m, REG_A2), Reg(m, REG_A3), Reg(m, REG_A4))
  {
    PagesOf(Reg(m, REG_A1), ByBytes, 32) + BlockPages(Reg(m, REG_A2), Reg(m, REG_A3), Reg(m, REG_A4))
  }

  predicate ShaCompletes(m: Machine) {
    ShaFits(Reg(m, REG_A0), Reg(m, REG_A1), Reg(m, REG_A2), Reg(m, REG_A3), Reg(m, REG_A4))
  }

  /** So does a SHA call. */
  lemma ShaForeseen(host: Host, m: Machine)
    ensures var (outcome, m') := EcallSha(host, m);
            && (outcome.Proceed? <==> ShaCompletes(m))
            && (outcome.Proceed? ==>
                  && outcome.extra == 73 * Reg(m, REG_A4)
                  && Books(m.mem, m'.mem, ShaReads(m), PagesOf(Reg(m, REG_A0), ByBytes, 32)))
  {
    var output, input, count := Reg(m, REG_A0), Reg(m, REG_A1), Reg(m, REG_A4);
    ShaCompletesIff(host, m);
    if ShaCompletes(m) {
      ShaCycles(host, m);
      ShaBooks(host, m.mem, output, input, Reg(m, REG_A2), Reg(m, REG_A3), count);
    }
    hide Sha, ShaFits, Books, PagesOf, BlockPages;
  }

  lemma ShaCompletesIff(host: Host, m: Machine)
    ensures EcallSha(host, m).0.Proceed? <==> ShaCompletes(m)
  {
    hide Sha, ShaFits, Result, Overwritten;
    ShaIsFold(host, m.mem, Reg(m, REG_A0), Reg(m, REG_A1), Reg(m, REG_A2), Reg(m, REG_A3), Reg(m, REG_A4));
  }

  lemma ShaBooks(host: Host, m: Mem, output: u32, input: u32, block1: u32, block2: u32, count: nat)
    requires ShaFits(output, input, block1, block2, count)
    ensures Books(m, Sha(host, m, output, input, block1, block2, count).1,
                  PagesOf(input, ByBytes, 32) + BlockPages(block1, block2, count), PagesOf(output, ByBytes, 32))
  {
    hide ReadBytes, ShaBlocks, WriteBytes, FromBigEndian, BigEndian, Books, PagesOf, BlockPages, BlocksFit, RunFits,
      Fold;
    ReadBytesBooks(m, input, 32);
    var (bytes, mem) := ReadBytes(m, input, 32);
    var start := FromBigEndian(bytes.value);
    var (state, mem1) := ShaBlocks(host, mem, start, block1, block2, count);
    ShaBlocksFold(host, mem, start, block1, block2, count);
    BlocksBooks(host, mem, start, block1, block2, count);
    var digest := BigEndian(state.value);
    StoresBooks(mem1, output, ByBytes, digest);
    var loaded, stored := PagesOf(input, ByBytes, 32), PagesOf(output, ByBytes, 32);
    var blocks := BlockPages(block1, block2, count);
    ReadsThenReads(m, mem, mem1, loaded, blocks);
    ReadsThenWrites(m, mem1, WriteBytes(mem1, output, ByBytes, digest).1, loaded + blocks, stored);
  }

  // ---------- Which calls hang ----------

  /** Neither what is left of the current segment nor an empty one has room for the charge. */
  predicate NoRoom(l: Ledger, c: P.Charge) {
    var l' := Noted(l, c.pagesRead, c.pagesWritten);
    l'.cycle + PassCharge(l', c.base) > BUDGET && ColdCharge(l', c.base) > BUDGET
  }

  /** What a software call at `m` is charged for, besides what waits in the books. */
  function SoftwareCharge(m: Machine, name: seq<byte>): P.Charge {
    P.Charge({PageOf(m.hart.pc)} + SoftwareReads(m, SyscallOf(name), name), SoftwareWrites(m),
             AlignUp(Reg(m, REG_A1)) + 3)
  }

  function ShaCharge(m: Machine): P.Charge
    requires ShaCompletes(m)
  {
    P.Charge({PageOf(m.hart.pc)} + ShaReads(m), PagesOf(Reg(m, REG_A0), ByBytes, 32), 73 * Reg(m, REG_A4) + 1)
  }

  lemma NameSame(a: Mem, b: Mem, addr: u32)
    requires SameWords(a, b)
    ensures ReadName(a, addr).0 == ReadName(b, addr).0
  {
    hide SameWords, ReadName, ByteAt;
    var x, y := ReadName(a, addr).0, ReadName(b, addr).0;
    if x.Some? {
      NameFoundIff(a, addr, x.value);
      NameFoundIff(b, addr, x.value);
      TerminatedSame(a, b, addr, x.value);
    } else if y.Some? {
      NameFoundIff(a, addr, y.value);
      NameFoundIff(b, addr, y.value);
      TerminatedSame(a, b, addr, y.value);
    }
  }

  lemma TerminatedSame(a: Mem, b: Mem, addr: u32, name: seq<byte>)
    requires SameWords(a, b)
    ensures Terminated(a, addr, name) == Terminated(b, addr, name)
  {
    hide SameWords, ByteAt;
    if addr + |name| <= GUEST_MAX_MEM {
      forall i | 0 <= i <= |name| ensures CharAt(a, addr, name, i) == CharAt(b, addr, name, i) {
        SameWordsByte(a, b, addr + i);
      }
    }
  }

  /** The fetch changes nothing of what is foreseen. */
  lemma ForeseenAtStart(host: Host, m: Machine)
    ensures NameAt(Start(m)) == NameAt(m)
    ensures SoftwareCompletes(host, Start(m)) == SoftwareCompletes(host, m)
    ensures ShaCompletes(Start(m)) == ShaCompletes(m)
    ensures forall call :: CarriesOut(host, Start(m), call) == CarriesOut(host, m, call)
    ensures forall call, name :: SoftwareReads(Start(m), call, name) == SoftwareReads(m, call, name)
    ensures SoftwareWrites(Start(m)) == SoftwareWrites(m)
  {
    StartSame(m);
    NameSame(m.mem, Start(m).mem, Reg(m, REG_A2));
    hide ReadMem, SyscallOf, ReadName, SameWords, PagesOf, Grants;
    if NameAt(m).Some? {
      GrantsSame(host, SyscallOf(NameAt(m).value), ReplySize(m), m, Start(m).mem);
      GrantsRegisters(host, SyscallOf(NameAt(m).value), ReplySize(m), m);
    }
  }

  lemma GrantsRegisters(host: Host, call: Syscall, size: nat, m: Machine)
    ensures Grants(host, call, size, Start(m)) == Grants(host, call, size, m.(mem := Start(m).mem))
  {
    hide ReadMem;
  }

  /** Once the body of a call is known to add these pages to the books, the charge is known. */
  lemma ChargeForeseen(host: Host, m: Machine, loaded: set<Page>, stored: set<Page>)
    requires m.mem.ledger.Some? && Proceeds(host, m)
    requires Books(Start(m).mem, Settling(host, m).1.mem, loaded, stored)
    ensures var c := P.Charge({PageOf(m.hart.pc)} + loaded, stored, StepBase(host, m));
            Step(host, m).0 == Hung <==> NoRoom(m.mem.ledger.value, c)
  {
    hide Step, Settling, StepBase, PassCharge, ColdCharge, OpcodeCycle, ReadMem, Touched;
    SettlingBooks(host, m);
    StartBooks(m);
    ChargeOrHang(host, m);
    HungIff(host, m);
    var l := m.mem.ledger.value;
    assert l.read + {PageOf(m.hart.pc)} + loaded == l.read + ({PageOf(m.hart.pc)} + loaded);
  }

  lemma SoftwareStep(host: Host, m: Machine)
    requires IsEcallOf(m, 2)
    ensures Proceeds(host, m) <==> EcallSoftware(host, Start(m)).0.Proceed?
    ensures Proceeds(host, m) ==>
              && StepBase(host, m) == 1 + EcallSoftware(host, Start(m)).0.extra
              && Settling(host, m).1.mem == EcallSoftware(host, Start(m)).1.mem
  {
    EcallIsLegal(Insn(m).value);
    hide ReadMem, OpcodeCycle, IsEcall, EcallSoftware;
  }

  lemma SoftwareStepForeseen(host: Host, m: Machine)
    requires IsEcallOf(m, 2)
    ensures Proceeds(host, m) <==> SoftwareCompletes(host, m)
    ensures Proceeds(host, m) ==>
              var c := SoftwareCharge(m, NameAt(m).value);
              && c.base == StepBase(host, m)
              && Books(Start(m).mem, Settling(host, m).1.mem,
                       SoftwareReads(m, SyscallOf(NameAt(m).value), NameAt(m).value), c.pagesWritten)
  {
    SoftwareStep(host, m);
    SoftwareForeseen(host, Start(m));
    ForeseenAtStart(host, m);
    StartRegisters(m);
    hide EcallSoftware, SoftwareReads, SoftwareWrites, Books, SyscallOf, Proceeds, StepBase, Settling, IsEcallOf, Start,
      AlignUp, CarriesOut, Grants, ReplyFits, ReadName;
  }

  /** A software call hangs exactly when it gets as far as its charge and there is no room for the
      pages of the instruction, the name, the call and the reply, with the cycles of the reply. */
  lemma SoftwareHungIff(host: Host, m: Machine)
    requires m.mem.ledger.Some? && IsEcallOf(m, 2)
    ensures Step(host, m).0 == Hung
       <==> SoftwareCompletes(host, m) && NoRoom(m.mem.ledger.value, SoftwareCharge(m, NameAt(m).value))
    ensures Step(host, m).0.Ran?
       <==> SoftwareCompletes(host, m) && !NoRoom(m.mem.ledger.value, SoftwareCharge(m, NameAt(m).value))
  {
    RanIff(host, m);
    hide Step, SoftwareCompletes, NoRoom, SoftwareReads, SoftwareWrites, Books, SyscallOf, NameAt, Proceeds, StepBase,
      Settling, IsEcallOf, Start, AlignUp;
    SoftwareStepForeseen(host, m);
    ChargeOrHang(host, m);
    if Proceeds(host, m) {
      ChargeForeseen(host, m, SoftwareReads(m, SyscallOf(NameAt(m).value), NameAt(m).value), SoftwareWrites(m));
    }
  }

  lemma RanIff(host: Host, m: Machine)
    ensures Step(host, m).0.Ran? <==> Proceeds(host, m) && Step(host, m).0 != Hung
    ensures SoftwareCompletes(host, m) ==> NameAt(m).Some?
  {
    hide ReadMem, Body, OpcodeCycle, Settle, ReadName;
  }

  lemma ShaStepForeseen(host: Host, m: Machine)
    requires IsEcallOf(m, 3)
    ensures Proceeds(host, m) <==> ShaCompletes(m)
    ensures Proceeds(host, m) ==>
              && ShaCharge(m).base == StepBase(host, m)
              && Books(Start(m).mem, Settling(host, m).1.mem, ShaReads(m), PagesOf(Reg(m, REG_A0), ByBytes, 32))
  {
    ShaStep(host, m);
    ShaForeseen(host, Start(m));
    StartRegisters(m);
    hide EcallSha, Books, Proceeds, StepBase, Settling, IsEcallOf, Start, PagesOf, BlockPages, BlocksFit, RunFits;
  }

  /** And a SHA call, when there is no room for the pages of the instruction, the two states and
      the blocks, with 73 cycles for each block. */
  lemma ShaHungIff(host: Host, m: Machine)
    requires m.mem.ledger.Some? && IsEcallOf(m, 3)
    ensures Step(host, m).0 == Hung <==> ShaCompletes(m) && NoRoom(m.mem.ledger.value, ShaCharge(m))
    ensures Step(host, m).0.Ran? <==> ShaCompletes(m) && !NoRoom(m.mem.ledger.value, ShaCharge(m))
  {
    RanIff(host, m);
    hide Step, NoRoom, Books, Proceeds, StepBase, Settling, IsEcallOf, Start, PagesOf, BlockPages, BlocksFit, RunFits;
    ShaStepForeseen(host, m);
    ChargeOrHang(host, m);
    if Proceeds(host, m) {
      ChargeForeseen(host, m, ShaReads(m), PagesOf(Reg(m, REG_A0), ByBytes, 32));
    }
  }

  lemma StartRegisters(m: Machine)
    ensures Start(m).hart == m.hart
  {
    hide ReadMem;
  }

  /** After a completed run the current segment does not matter: there is no room exactly when the
      charge alone is too much for a segment. */
  lemma NoRoomAfterRun(host: Host, m: Machine, n: nat, c: P.Charge)
    requires m.mem.ledger == Some(EMPTY) && Completed(host, m, n)
    ensures After(host, m, n).mem.ledger.Some?
    ensures NoRoom(After(host, m, n).mem.ledger.value, c) <==> P.SegmentCost([c]) > BUDGET
  {
    hide Step, P.After, P.SegmentCost, PassCharge, ColdCharge, Settle, P.Segments, P.Open, P.Reads, P.Writes, P.Bases,
      Cost, Closure, ParentClosed;
    RunIsPacked(host, m, n);
    P.Conservation(Charges(host, m, n));
    var l := After(host, m, n).mem.ledger.value;
    NextCharge(Charges(host, m, n), c);
    assert {} + c.pagesRead == c.pagesRead && {} + c.pagesWritten == c.pagesWritten;
    assert Noted(l, c.pagesRead, c.pagesWritten) == l.(read := c.pagesRead, written := c.pagesWritten);
    RetryStopsIff(Noted(l, c.pagesRead, c.pagesWritten), c.base);
  }

  /** The exact thresholds, from registers and memory alone: after a completed run a call hangs
      exactly when it completes and costs more than a segment holds, where each page that it walks
      to costs 1094 cycles (the root 754) for reading and as much for writing. */
  lemma CallHungAfterRunIff(host: Host, m: Machine, n: nat)
    requires m.mem.ledger == Some(EMPTY) && Completed(host, m, n)
    ensures var at := After(host, m, n);
            && (IsEcallOf(at, 2) ==>
                  (ResultOf(host, m, n) == Hung
                   <==> SoftwareCompletes(host, at) && P.SegmentCost([SoftwareCharge(at, NameAt(at).value)]) > BUDGET))
            && (IsEcallOf(at, 3) ==>
                  (ResultOf(host, m, n) == Hung <==> ShaCompletes(at) && P.SegmentCost([ShaCharge(at)]) > BUDGET))
  {
    hide Step, SoftwareCompletes, ShaCompletes, NoRoom, SoftwareCharge, ShaCharge, IsEcallOf, NameAt, P.SegmentCost;
    var at := After(host, m, n);
    RanIff(host, at);
    NoRoomAfterRun(host, m, n, P.Charge({}, {}, 0));
    if IsEcallOf(at, 2) {
      SoftwareHungIff(host, at);
      if SoftwareCompletes(host, at) { NoRoomAfterRun(host, m, n, SoftwareCharge(at, NameAt(at).value)); }
    }
    if IsEcallOf(at, 3) {
      ShaHungIff(host, at);
      if ShaCompletes(at) { NoRoomAfterRun(host, m, n, ShaCharge(at)); }
    }
  }

  /** So a software call that completes hangs, whatever the books, when it asks for a reply of more
      words than a segment has cycles. */
  lemma SoftwareHangs(host: Host, m: Machine)
    requires m.mem.ledger.Some? && IsEcallOf(m, 2)
    requires SoftwareCompletes(host, m) && AlignUp(Reg(m, REG_A1)) + 3 > BUDGET
    ensures Step(host, m).0 == Hung
  {
    hide Step, SoftwareCompletes, SoftwareReads, SoftwareWrites, Closure, Cost, IsEcallOf, NameAt;
    RanIff(host, m);
    SoftwareHungIff(host, m);
  }

  /** Such a machine: an ECALL at 0x400, the empty name at 0x800, a null pointer for the reply. */
  function Asker(): Machine {
    var regs: Registers := seq(32, _ => 0)[REG_T0 := 2][REG_A1 := 1046853][REG_A2 := 0x800];
    var mem := BLANK.(pages := map[1 := ZeroPage()[0 := 0x73]], ledger := Some(EMPTY));
    Machine(Hart(0x400, regs), mem, Io([], 0, [], [], [], 0), map[], [])
  }

  lemma SoftwareCanHang(host: Host)
    requires host.validUtf8([])
    ensures Step(host, Asker()).0 == Hung
  {
    AskerFetches();
    AskerNames();
    hide Step, ReadMem, ReadName;
    assert SoftwareCompletes(host, Asker());
    SoftwareHangs(host, Asker());
  }

  lemma AskerFetches()
    ensures Insn(Asker()) == Some(0x73) && IsEcall(0x73)
  {
  }

  lemma AskerNames()
    ensures NameAt(Asker()) == Some([]) && SyscallOf([]) == SysUnknown
  {
    hide ByteAt, ReadName;
    assert ByteAt(Asker().mem, 0x800) == 0 by { AskerByte(); }
    assert CharAt(Asker().mem, 0x800, [], 0);
    NameFoundIff(Asker().mem, 0x800, []);
  }

  lemma AskerByte()
    ensures ByteAt(Asker().mem, 0x800) == 0
  {
  }
}
