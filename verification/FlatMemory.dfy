/**
 Paged memory refines a flat, zero-initialised memory of bytes: any sequence of aligned
 accesses of mixed sizes gets the replies, and leaves the bytes, that the flat memory gives.
 */
module FlatMemory {
  import opened Words
  import opened SessionCycle
  import opened PagedMemory

  type Bytes = u32 -> byte

  function WordAt(m: Mem, page: Page, i: nat): u32
    requires i < 256
  {
    if page in m.pages then m.pages[page][i] else 0
  }

  function ByteAt(m: Mem, a: u32): byte {
    ByteOf(WordAt(m, PageOf(a), OffsetOf(a) / 4), OffsetOf(a) % 4)
  }

  ghost predicate Represents(m: Mem, f: Bytes) {
    forall a: u32 :: ByteAt(m, a) == f(a)
  }

  // ---------- The flat memory ----------

  /** The bytes at `addr`, little-endian. */
  function FlatRead(f: Bytes, addr: u32, size: Size): u32 {
    match size
    case Byte => f(addr)
    case HalfWord => Compose(f(addr), f(Wrap(addr + 1)), 0, 0)
    case Word => Compose(f(addr), f(Wrap(addr + 1)), f(Wrap(addr + 2)), f(Wrap(addr + 3)))
  }

  /** Exactly the 1, 2 or 4 bytes at `addr` change, to the low bytes of `data`. */
  function FlatWrite(f: Bytes, addr: u32, size: Size, data: u32): Bytes {
    (a: u32) => if addr <= a < addr + Width(size) then ByteOf(data, a - addr) else f(a)
  }

  function FlatDo(f: Bytes, a: Access): (Option<u32>, Bytes) {
    if !InGuest(a.addr) then (None, f)
    else
      match a
      case Load(addr, size) => (Some(FlatRead(f, addr, size)), f)
      case Store(addr, size, data) => (Some(0), FlatWrite(f, addr, size, data))
  }

  function FlatPerform(f: Bytes, accesses: seq<Access>): (seq<u32>, Bytes)
    decreases accesses
  {
    if accesses == [] then ([], f)
    else
      var (reply, f1) := FlatDo(f, accesses[0]);
      if reply.None? then ([], f)
      else
        var (replies, f2) := FlatPerform(f1, accesses[1..]);
        ([reply.value] + replies, f2)
  }

  /** Guest memory, with both bounds included, and pages of 1024 bytes. */
  lemma GuestMemory(addr: u32)
    ensures InGuest(addr) <==> 0x400 <= addr <= 0x0C00_0000
    ensures PageOf(addr) == addr / 1024 && OffsetOf(addr) == addr % 1024
  {
  }

  // ---------- One access ----------

  lemma AddressParts(a: u32)
    ensures a == 1024 * PageOf(a) + OffsetOf(a)
    ensures OffsetOf(a) == 4 * (OffsetOf(a) / 4) + OffsetOf(a) % 4
    ensures OffsetOf(a) % 4 == a % 4
  {
  }

  /** Two addresses lie in one word of one page exactly when they agree but for the low two bits. */
  lemma SameWord(a: u32, b: u32)
    ensures PageOf(a) == PageOf(b) && OffsetOf(a) / 4 == OffsetOf(b) / 4
       <==> a - a % 4 == b - b % 4
  {
    AddressParts(a);
    AddressParts(b);
  }

  /** The bytes of a word, for an offset within it. */
  lemma StoredBytes(word: u32, offset: nat, size: Size, data: u32, j: nat)
    requires Aligned(offset, size) && j < 4
    ensures var k := offset % 4;
            ByteOf(Stored(word, offset, size, data), j) ==
            if k <= j < k + Width(size) then ByteOf(data, j - k) else ByteOf(word, j)
  {
    match size
    case Byte => PutByteAt(word, offset % 4, data % 0x100, j);
    case HalfWord => StoredHalf(word, offset, data, j);
    case Word =>
  }

  lemma HalfParts(w: u32)
    ensures w == 0x1_0000 * (w / 0x1_0000) + w % 0x1_0000
    ensures w % 0x1_0000 == ByteOf(w, 0) + 0x100 * ByteOf(w, 1)
    ensures w / 0x1_0000 == ByteOf(w, 2) + 0x100 * ByteOf(w, 3)
  {
    BytesWord(w);
  }

  /** A halfword store replaces the two bytes of its half. */
  lemma StoredHalfComposes(word: u32, offset: nat, data: u32)
    requires offset % 2 == 0
    ensures Stored(word, offset, HalfWord, data) ==
            if offset % 4 == 2 then Compose(ByteOf(word, 0), ByteOf(word, 1), ByteOf(data, 0), ByteOf(data, 1))
            else Compose(ByteOf(data, 0), ByteOf(data, 1), ByteOf(word, 2), ByteOf(word, 3))
  {
    HalfParts(word);
    HalfParts(data);
    hide ByteOf;
  }

  lemma StoredHalf(word: u32, offset: nat, data: u32, j: nat)
    requires offset % 2 == 0 && j < 4
    ensures var k := offset % 4;
            ByteOf(Stored(word, offset, HalfWord, data), j) ==
            if k <= j < k + 2 then ByteOf(data, j - k) else ByteOf(word, j)
  {
    EvenParts(offset);
    StoredHalfComposes(word, offset, data);
    hide Stored, ByteOf, Compose;
    if offset % 4 == 2 {
      WordBytes(ByteOf(word, 0), ByteOf(word, 1), ByteOf(data, 0), ByteOf(data, 1));
    } else {
      WordBytes(ByteOf(data, 0), ByteOf(data, 1), ByteOf(word, 2), ByteOf(word, 3));
    }
  }

  lemma FetchedBytes(word: u32, offset: nat, size: Size)
    requires Aligned(offset, size)
    ensures var k := offset % 4;
            Fetched(word, offset, size) ==
            match size
            case Byte => ByteOf(word, k)
            case HalfWord => ByteOf(word, k) + 0x100 * ByteOf(word, k + 1)
            case Word => Compose(ByteOf(word, 0), ByteOf(word, 1), ByteOf(word, 2), ByteOf(word, 3))
  {
    match size
    case Byte =>
    case HalfWord => HalfParts(word);
    case Word => BytesWord(word);
  }

  /** Neither allocating a page nor noting an access can be seen in the words. */
  lemma AllocationInvisible(m: Mem, page: Page, a: Access)
    ensures forall p: Page, i: nat | i < 256 :: WordAt(Allocate(m, page), p, i) == WordAt(m, p, i)
    ensures forall p: Page, i: nat | i < 256 :: WordAt(Observe(m, a), p, i) == WordAt(m, p, i)
  {
  }

  /** The words after an access. */
  lemma WordsAfterRead(m: Mem, addr: u32, size: Size, privileged: bool, p: Page, i: nat)
    requires i < 256
    ensures WordAt(ReadMem(m, addr, size, privileged).1, p, i) == WordAt(m, p, i)
    ensures ReadMem(m, addr, size, privileged).0 ==
            if InGuest(addr) then Some(Fetched(WordAt(m, PageOf(addr), OffsetOf(addr) / 4), OffsetOf(addr), size))
            else None
  {
    AllocationInvisible(m, PageOf(addr), Load(addr, size));
  }

  lemma WordsAfterWrite(m: Mem, addr: u32, size: Size, data: u32, privileged: bool, p: Page, i: nat)
    requires i < 256
    ensures WriteMem(m, addr, size, data, privileged).0 == InGuest(addr)
    ensures WordAt(WriteMem(m, addr, size, data, privileged).1, p, i) ==
            if InGuest(addr) && p == PageOf(addr) && i == OffsetOf(addr) / 4
            then Stored(WordAt(m, p, i), OffsetOf(addr), size, data)
            else WordAt(m, p, i)
  {
    AllocationInvisible(m, PageOf(addr), Store(addr, size, data));
  }

  lemma ReadIsFlat(m: Mem, f: Bytes, addr: u32, size: Size, privileged: bool)
    requires Represents(m, f) && Aligned(addr, size)
    ensures Represents(ReadMem(m, addr, size, privileged).1, f)
    ensures ReadMem(m, addr, size, privileged).0 == if InGuest(addr) then Some(FlatRead(f, addr, size)) else None
  {
    forall a: u32 ensures ByteAt(ReadMem(m, addr, size, privileged).1, a) == f(a) {
      WordsAfterRead(m, addr, size, privileged, PageOf(a), OffsetOf(a) / 4);
      assert ByteAt(m, a) == f(a);
    }
    WordsAfterRead(m, addr, size, privileged, 0, 0);
    if InGuest(addr) { AlignedFetch(m, f, addr, size); }
  }

  lemma AlignedFetch(m: Mem, f: Bytes, addr: u32, size: Size)
    requires Represents(m, f) && Aligned(addr, size) && InGuest(addr)
    ensures Fetched(WordAt(m, PageOf(addr), OffsetOf(addr) / 4), OffsetOf(addr), size) == FlatRead(f, addr, size)
  {
    AlignedWithin(addr, size);
    var word := WordAt(m, PageOf(addr), OffsetOf(addr) / 4);
    ByteInWord(m, f, addr, 0);
    if size != Byte { ByteInWord(m, f, addr, 1); }
    if size == Word {
      ByteInWord(m, f, addr, 2);
      ByteInWord(m, f, addr, 3);
    }
    FetchComposes(word, f, addr, size);
  }

  lemma FetchComposes(word: u32, f: Bytes, addr: u32, size: Size)
    requires Aligned(addr, size) && InGuest(addr)
    requires f(addr) == ByteOf(word, addr % 4)
    requires size != Byte ==> addr % 4 <= 2 && f(addr + 1) == ByteOf(word, addr % 4 + 1)
    requires size == Word ==> addr % 4 == 0 && f(addr + 2) == ByteOf(word, 2) && f(addr + 3) == ByteOf(word, 3)
    ensures Fetched(word, OffsetOf(addr), size) == FlatRead(f, addr, size)
  {
    AlignedWithin(addr, size);
    FetchedBytes(word, OffsetOf(addr), size);
    assert Wrap(addr + 1) == addr + 1 && Wrap(addr + 2) == addr + 2 && Wrap(addr + 3) == addr + 3;
  }

  lemma ByteInWord(m: Mem, f: Bytes, addr: u32, j: nat)
    requires Represents(m, f) && addr % 4 + j < 4 && addr + j < 0x1_0000_0000
    ensures Wrap(addr + j) == addr + j
    ensures f(addr + j) == ByteOf(WordAt(m, PageOf(addr), OffsetOf(addr) / 4), addr % 4 + j)
  {
    WithinQuad(addr, j);
    SameWord(addr, addr + j);
    AddressParts(addr + j);
    assert ByteAt(m, addr + j) == f(addr + j);
  }

  lemma WithinQuad(addr: nat, j: nat)
    requires addr % 4 + j < 4
    ensures (addr + j) % 4 == addr % 4 + j
    ensures (addr + j) - (addr + j) % 4 == addr - addr % 4
  {
    assert addr == 4 * (addr / 4) + addr % 4;
    assert (addr + j) / 4 == addr / 4;
  }

  lemma WriteIsFlat(m: Mem, f: Bytes, addr: u32, size: Size, data: u32, privileged: bool)
    requires Represents(m, f) && Aligned(addr, size)
    ensures WriteMem(m, addr, size, data, privileged).0 == InGuest(addr)
    ensures InGuest(addr) ==> Represents(WriteMem(m, addr, size, data, privileged).1, FlatWrite(f, addr, size, data))
    ensures !InGuest(addr) ==> Represents(WriteMem(m, addr, size, data, privileged).1, f)
  {
    WordsAfterWrite(m, addr, size, data, privileged, 0, 0);
    hide WriteMem, Aligned, InGuest;
    if InGuest(addr) {
      forall a: u32
        ensures ByteAt(WriteMem(m, addr, size, data, privileged).1, a) == FlatWrite(f, addr, size, data)(a)
      {
        assert ByteAt(m, a) == f(a);
        ByteAfterWrite(m, addr, size, data, privileged, a);
      }
    }
  }

  /** The byte at `a` after an aligned write at `addr`. */
  lemma ByteAfterWrite(m: Mem, addr: u32, size: Size, data: u32, privileged: bool, a: u32)
    requires Aligned(addr, size) && InGuest(addr)
    ensures ByteAt(WriteMem(m, addr, size, data, privileged).1, a) ==
            if addr <= a < addr + Width(size) then ByteOf(data, a - addr) else ByteAt(m, a)
  {
    WordsAfterWrite(m, addr, size, data, privileged, PageOf(a), OffsetOf(a) / 4);
    WriteHits(addr, size, a);
    SameWord(a, addr);
    hide WriteMem, Aligned, InGuest, WordAt, Stored, PageOf, Width, ByteOf;
    if a - a % 4 == addr - addr % 4 {
      StoredBytes(WordAt(m, PageOf(a), OffsetOf(a) / 4), OffsetOf(addr), size, data, a % 4);
    }
  }

  /** A byte store changes the one byte that it names. */
  lemma ByteStore(m: Mem, addr: u32, data: u32, privileged: bool)
    requires InGuest(addr)
    ensures forall a: u32 ::
              ByteAt(WriteMem(m, addr, Byte, data, privileged).1, a) == if a == addr then data % 0x100 else ByteAt(m, a)
  {
    hide WriteMem, ByteAt, InGuest;
    forall a: u32
      ensures ByteAt(WriteMem(m, addr, Byte, data, privileged).1, a) == if a == addr then data % 0x100 else ByteAt(m, a)
    {
      ByteAfterWrite(m, addr, Byte, data, privileged, a);
    }
  }

  /** An aligned access stays within one word. */
  lemma AlignedWithin(addr: u32, size: Size)
    requires Aligned(addr, size)
    ensures addr % 4 + Width(size) <= 4
    ensures Aligned(OffsetOf(addr), size) && OffsetOf(addr) % 4 == addr % 4
  {
    AddressParts(addr);
    if size == HalfWord {
      EvenParts(addr);
      EvenParts(OffsetOf(addr));
    }
  }

  lemma EvenParts(n: nat)
    ensures n % 2 == 0 <==> n % 4 == 0 || n % 4 == 2
  {
    assert n == 4 * (n / 4) + n % 4;
  }

  lemma WriteHits(addr: u32, size: Size, a: u32)
    requires Aligned(addr, size)
    ensures OffsetOf(a) % 4 == a % 4 && OffsetOf(addr) % 4 == addr % 4
    ensures Aligned(OffsetOf(addr), size)
    ensures addr <= a < addr + Width(size)
       <==> a - a % 4 == addr - addr % 4 && addr % 4 <= a % 4 < addr % 4 + Width(size)
    ensures a - a % 4 == addr - addr % 4 ==> a - addr == a % 4 - addr % 4
  {
    AddressParts(a);
    AlignedWithin(addr, size);
    Within(addr, Width(size), a);
  }

  lemma Within(addr: int, width: int, a: int)
    requires addr % 4 + width <= 4
    ensures addr <= a < addr + width
       <==> a - a % 4 == addr - addr % 4 && addr % 4 <= a % 4 < addr % 4 + width
  {
    var q, r := addr / 4, a / 4;
    assert addr == 4 * q + addr % 4 && a == 4 * r + a % 4;
    if addr <= a < addr + width { assert q == r; }
  }

  // ---------- Any sequence of accesses ----------

  /** The refinement. Pages are invisible: the replies and the final bytes of any sequence of
      aligned accesses are those of the flat memory that the paged one represents. */
  lemma {:induction false} PerformIsFlat(m: Mem, f: Bytes, accesses: seq<Access>)
    requires Represents(m, f) && forall a | a in accesses :: Aligned(a.addr, a.size)
    ensures Perform(m, accesses).0 == FlatPerform(f, accesses).0
    ensures Represents(Perform(m, accesses).1, FlatPerform(f, accesses).1)
    decreases accesses
  {
    if accesses != [] {
      match accesses[0]
      case Load(addr, size) =>
        ReadIsFlat(m, f, addr, size, false);
        if InGuest(addr) { PerformIsFlat(Do(m, accesses[0]).1, f, accesses[1..]); }
      case Store(addr, size, data) =>
        WriteIsFlat(m, f, addr, size, data, false);
        if InGuest(addr) {
          PerformIsFlat(Do(m, accesses[0]).1, FlatWrite(f, addr, size, data), accesses[1..]);
        }
    }
  }

  /** The bytes after the stores among `accesses`; loads change none. */
  function FlatStores(f: Bytes, accesses: seq<Access>): Bytes
    decreases accesses
  {
    if accesses == [] then f
    else
      match accesses[0]
      case Load(_, _) => FlatStores(f, accesses[1..])
      case Store(addr, size, data) => FlatStores(FlatWrite(f, addr, size, data), accesses[1..])
  }

  /** For the bytes alone, only the stores need be aligned. */
  lemma {:induction false} StoresAreFlat(m: Mem, f: Bytes, accesses: seq<Access>)
    requires Represents(m, f) && |Perform(m, accesses).0| == |accesses|
    requires forall a | a in accesses && a.Store? :: Aligned(a.addr, a.size)
    ensures Represents(Perform(m, accesses).1, FlatStores(f, accesses))
    decreases accesses
  {
    hide Represents, ReadMem, WriteMem, InGuest, FlatWrite;
    if accesses != [] {
      assert accesses[0] in accesses;
      match accesses[0]
      case Load(addr, size) =>
        ReadKeepsBytes(m, f, addr, size);
        StoresAreFlat(Do(m, accesses[0]).1, f, accesses[1..]);
      case Store(addr, size, data) =>
        WriteIsFlat(m, f, addr, size, data, false);
        StoresAreFlat(Do(m, accesses[0]).1, FlatWrite(f, addr, size, data), accesses[1..]);
    }
  }

  lemma ReadKeepsBytes(m: Mem, f: Bytes, addr: u32, size: Size)
    requires Represents(m, f)
    ensures Represents(ReadMem(m, addr, size, false).1, f)
  {
    forall a: u32 ensures ByteAt(ReadMem(m, addr, size, false).1, a) == f(a) {
      WordsAfterRead(m, addr, size, false, PageOf(a), OffsetOf(a) / 4);
      assert ByteAt(m, a) == f(a);
    }
  }

  /** `m'` is `m` with `bytes` at `addr`. */
  ghost predicate Overwritten(m: Mem, addr: u32, bytes: seq<byte>, m': Mem) {
    forall a: u32 :: ByteAt(m', a) == if addr <= a < addr + |bytes| then bytes[a - addr] else ByteAt(m, a)
  }

  /** Memory starts out all zero. */
  lemma BlankIsZero()
    ensures Represents(BLANK, (a: u32) => 0)
  {
  }

  /** Misaligned accesses do not read their bytes: a halfword at an odd address reads the low
      half of its word, and a word access drops the low two bits. So a load agrees with the
      flat memory on every state exactly when it is aligned. */
  lemma ReadsBytesIffAligned(addr: u32, size: Size)
    requires InGuest(addr)
    ensures (forall m: Mem :: ReadMem(m, addr, size, true).0 == Some(FlatRead(a => ByteAt(m, a), addr, size)))
       <==> Aligned(addr, size)
  {
    if Aligned(addr, size) {
      forall m: Mem ensures ReadMem(m, addr, size, true).0 == Some(FlatRead(a => ByteAt(m, a), addr, size)) {
        ReadIsFlat(m, a => ByteAt(m, a), addr, size, true);
      }
    } else {
      MisalignedRead(addr, size);
      assert ReadMem(OneByte(addr), addr, size, true).0 == Some(1);
    }
  }

  lemma MisalignedRead(addr: u32, size: Size)
    requires InGuest(addr) && !Aligned(addr, size)
    ensures ReadMem(OneByte(addr), addr, size, true).0 == Some(1)
    ensures FlatRead(a => ByteAt(OneByte(addr), a), addr, size) == 0
  {
    MisalignedFetch(addr, size);
    MisalignedZeros(addr, size);
    hide ReadMem, ByteAt, OneByte, Aligned, InGuest, Wrap;
    ReadOfZeros(a => ByteAt(OneByte(addr), a), addr, size);
  }

  lemma MisalignedZeros(addr: u32, size: Size)
    requires InGuest(addr) && !Aligned(addr, size)
    ensures ByteAt(OneByte(addr), addr) == 0
    ensures ByteAt(OneByte(addr), Wrap(addr + 1)) == 0
    ensures ByteAt(OneByte(addr), Wrap(addr + 2)) == 0
    ensures ByteAt(OneByte(addr), Wrap(addr + 3)) == 0
  {
    MisalignedMod(addr, size);
    hide ByteAt, OneByte, Aligned, InGuest, Wrap;
    OneByteAt(addr, addr);
    ZeroBeside(addr, 1);
    ZeroBeside(addr, 2);
    ZeroBeside(addr, 3);
  }

  lemma ReadOfZeros(f: Bytes, addr: u32, size: Size)
    requires f(addr) == f(Wrap(addr + 1)) == f(Wrap(addr + 2)) == f(Wrap(addr + 3)) == 0
    ensures FlatRead(f, addr, size) == 0
  {
  }

  lemma ZeroBeside(addr: u32, j: nat)
    requires InGuest(addr) && addr % 4 != 0 && j < 4
    ensures ByteAt(OneByte(addr), Wrap(addr + j)) == 0
  {
    assert Wrap(addr + j) == addr + j > addr - addr % 4;
    OneByteAt(addr, addr + j);
  }

  lemma MisalignedMod(addr: u32, size: Size)
    requires !Aligned(addr, size)
    ensures size != Byte && addr % 4 != 0 && (size == HalfWord ==> addr % 4 != 2)
  {
    if size == HalfWord { EvenParts(addr); }
  }

  lemma MisalignedFetch(addr: u32, size: Size)
    requires InGuest(addr) && !Aligned(addr, size)
    ensures ReadMem(OneByte(addr), addr, size, true).0 == Some(1)
  {
    MisalignedMod(addr, size);
    AddressParts(addr);
    WordsAfterRead(OneByte(addr), addr, size, true, 0, 0);
    hide ReadMem;
    assert Fetched(1, OffsetOf(addr), size) == 1;
    assert WordAt(OneByte(addr), PageOf(addr), OffsetOf(addr) / 4) == 1;
  }

  /** A memory that holds 1 in the first byte of the word of `addr`, and zeros. */
  function OneByte(addr: u32): Mem {
    BLANK.(pages := map[PageOf(addr) := ZeroPage()[OffsetOf(addr) / 4 := 1]])
  }

  lemma OneByteAt(addr: u32, a: u32)
    ensures ByteAt(OneByte(addr), a) == if a == addr - addr % 4 then 1 else 0
  {
    SameWord(a, addr);
    AddressParts(a);
    var word := WordAt(OneByte(addr), PageOf(a), OffsetOf(a) / 4);
    assert word == if a - a % 4 == addr - addr % 4 then 1 else 0;
    assert ByteOf(word, OffsetOf(a) % 4) == if word == 1 && a % 4 == 0 then 1 else 0;
  }
}
