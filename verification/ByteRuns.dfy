/** Runs of evenly spaced loads and byte stores, in terms of the bytes of memory. */
module ByteRuns {
  import opened Words
  import opened SessionCycle
  import opened PagedMemory
  import opened FlatMemory
  import opened Machine
  import opened Transparency

  /** `count` places, evenly spaced, lie in guest memory. */
  predicate RunFits(addr: u32, spacing: Spacing, count: nat) {
    count == 0 || (GUEST_MIN_MEM <= addr && addr + Apart(spacing, count - 1) <= GUEST_MAX_MEM)
  }

  /** Place `i` of a run, as the program computes it. */
  function Place(addr: u32, spacing: Spacing, i: nat): u32 {
    Wrap(addr + Apart(spacing, i))
  }

  /** A run in guest memory does not wrap around; it is in guest memory when each place is. */
  lemma {:induction false} RunFitsIff(addr: u32, spacing: Spacing, count: nat)
    ensures RunFits(addr, spacing, count) <==> forall i | 0 <= i < count :: InGuest(Place(addr, spacing, i))
    ensures RunFits(addr, spacing, count) ==>
            forall i | 0 <= i < count :: Place(addr, spacing, i) == addr + Apart(spacing, i)
  {
    if count == 1 {
      assert Place(addr, spacing, 0) == addr;
    } else if count > 1 {
      RunFitsIff(addr, spacing, count - 1);
      if RunFits(addr, spacing, count - 1) {
        NextPlace(addr, spacing, count - 1);
      } else {
        var i :| 0 <= i < count - 1 && !InGuest(Place(addr, spacing, i));
        assert Apart(spacing, count - 2) <= Apart(spacing, count - 1);
      }
    }
  }

  lemma NextPlace(addr: u32, spacing: Spacing, i: nat)
    requires i > 0 && RunFits(addr, spacing, i)
    ensures Place(addr, spacing, i) == addr + Apart(spacing, i)
    ensures InGuest(Place(addr, spacing, i)) <==> RunFits(addr, spacing, i + 1)
  {
    assert Apart(spacing, i) == Apart(spacing, i - 1) + Apart(spacing, 1);
  }

  /** What a granted load replies. */
  function LoadValue(m: Mem, a: Access): u32 {
    Fetched(WordAt(m, PageOf(a.addr), OffsetOf(a.addr) / 4), OffsetOf(a.addr), a.size)
  }

  lemma {:induction false} LoadsReply(m: Mem, accesses: seq<Access>)
    requires forall a | a in accesses :: a.Load?
    ensures var (replies, m') := Perform(m, accesses);
            && SameWords(m, m')
            && (|replies| == |accesses| <==> forall i | 0 <= i < |accesses| :: InGuest(accesses[i].addr))
            && (forall i | 0 <= i < |replies| :: replies[i] == LoadValue(m, accesses[i]))
    decreases accesses
  {
    if accesses != [] {
      var a := accesses[0];
      var (reply, m1) := Do(m, a);
      assert a in accesses;
      hide ReadMem, WriteMem, SameWords, LoadValue, WordAt, InGuest;
      LoadReplies(m, a);
      if reply.Some? {
        LoadsReply(m1, accesses[1..]);
        var (replies, m2) := Perform(m1, accesses[1..]);
        SameWordsThrough(m, m1, m2);
        forall i | 0 < i <= |replies| ensures LoadValue(m1, accesses[i]) == LoadValue(m, accesses[i]) {
          SameLoadValue(m, m1, accesses[i]);
        }
        assert forall i | 0 < i < |accesses| :: accesses[i] == accesses[1..][i - 1];
        assert (forall i | 0 <= i < |accesses| :: InGuest(accesses[i].addr)) <==>
               InGuest(a.addr) && forall i | 0 <= i < |accesses[1..]| :: InGuest(accesses[1..][i].addr) by {
          forall i | 0 <= i < |accesses[1..]| ensures accesses[1..][i] == accesses[i + 1] {
          }
        }
      }
    }
  }

  lemma LoadReplies(m: Mem, a: Access)
    requires a.Load?
    ensures Do(m, a).0 == (if InGuest(a.addr) then Some(LoadValue(m, a)) else None)
    ensures SameWords(m, Do(m, a).1)
  {
    forall p: Page, i: nat | i < 256 ensures WordAt(Do(m, a).1, p, i) == WordAt(m, p, i) {
      WordsAfterRead(m, a.addr, a.size, false, p, i);
    }
    WordsAfterRead(m, a.addr, a.size, false, 0, 0);
  }

  lemma SameLoadValue(a: Mem, b: Mem, x: Access)
    requires SameWords(a, b)
    ensures LoadValue(a, x) == LoadValue(b, x)
  {
  }

  lemma LoadsInGuest(addr: u32, spacing: Spacing, count: nat, size: Size)
    ensures (forall i | 0 <= i < count :: InGuest(Loads(addr, spacing, count, size)[i].addr)) <==>
            RunFits(addr, spacing, count)
    ensures RunFits(addr, spacing, count) ==> forall i | 0 <= i < count ::
              addr + Apart(spacing, i) <= GUEST_MAX_MEM &&
                  Loads(addr, spacing, count, size)[i] == Load(addr + Apart(spacing, i), size)
  {
    hide RunFits, InGuest, Place, Loads;
    RunFitsIff(addr, spacing, count);
    LoadPlaces(addr, spacing, count, size);
    var loads := Loads(addr, spacing, count, size);
    assert (forall i | 0 <= i < count :: InGuest(loads[i].addr)) <==>
           (forall i | 0 <= i < count :: InGuest(Place(addr, spacing, i))) by {
      forall i | 0 <= i < count ensures loads[i].addr == Place(addr, spacing, i) {
      }
    }
    if RunFits(addr, spacing, count) {
      forall i | 0 <= i < count
        ensures addr + Apart(spacing, i) <= GUEST_MAX_MEM && loads[i] == Load(addr + Apart(spacing, i), size)
      {
        InGuestBound(Place(addr, spacing, i));
      }
    }
  }

  lemma LoadPlaces(addr: u32, spacing: Spacing, count: nat, size: Size)
    ensures forall i | 0 <= i < count :: Loads(addr, spacing, count, size)[i] == Load(Place(addr, spacing, i), size)
  {
  }

  lemma InGuestBound(addr: u32)
    requires InGuest(addr)
    ensures addr <= GUEST_MAX_MEM
  {
  }

  /** Reply `i` of a run of loads is what is there. */
  predicate ReplyAt(replies: seq<u32>, m: Mem, addr: u32, spacing: Spacing, size: Size, i: nat)
    requires i < |replies|
  {
    addr + Apart(spacing, i) <= GUEST_MAX_MEM && replies[i] == LoadValue(m, Load(addr + Apart(spacing, i), size))
  }

  /** A run of loads succeeds exactly when it lies in guest memory, and yields what is there. */
  lemma RunReplies(m: Mem, addr: u32, spacing: Spacing, count: nat, size: Size)
    ensures var (replies, m') := Perform(m, Loads(addr, spacing, count, size));
            && SameWords(m, m')
            && (|replies| == count <==> RunFits(addr, spacing, count))
            && (|replies| == count ==> forall i | 0 <= i < count :: ReplyAt(replies, m, addr, spacing, size, i))
  {
    LoadsInGuest(addr, spacing, count, size);
    hide SameWords, Perform, LoadValue, RunFits;
    LoadsReply(m, Loads(addr, spacing, count, size));
  }

  /** `bytes` are the bytes of memory from `addr` on. */
  ghost predicate Shows(m: Mem, addr: u32, bytes: seq<byte>) {
    forall i | 0 <= i < |bytes| :: ShowsAt(m, addr, bytes, i)
  }

  ghost predicate ShowsAt(m: Mem, addr: u32, bytes: seq<byte>, i: nat)
    requires i < |bytes|
  {
    addr + i <= GUEST_MAX_MEM && bytes[i] == ByteAt(m, addr + i)
  }

  /** The bytes of memory from `addr` on. */
  function MemBytes(m: Mem, addr: u32, count: nat): (bytes: seq<byte>)
    requires addr + count <= 0x1_0000_0000
    ensures |bytes| == count
  {
    seq<byte>(count, (i: nat) requires i < count => ByteAt(m, addr + i))
  }

  lemma ShowsMemBytes(m: Mem, addr: u32, bytes: seq<byte>)
    requires Shows(m, addr, bytes)
    ensures addr + |bytes| <= 0x1_0000_0000 && MemBytes(m, addr, |bytes|) == bytes
  {
    hide ByteAt;
    if bytes != [] {
      assert ShowsAt(m, addr, bytes, |bytes| - 1);
      forall i | 0 <= i < |bytes| ensures MemBytes(m, addr, |bytes|)[i] == bytes[i] {
        assert ShowsAt(m, addr, bytes, i);
      }
    }
  }

  lemma SameWordsMemBytes(a: Mem, b: Mem, addr: u32, count: nat)
    requires SameWords(a, b) && addr + count <= 0x1_0000_0000
    ensures MemBytes(a, addr, count) == MemBytes(b, addr, count)
  {
    forall i | 0 <= i < count ensures MemBytes(a, addr, count)[i] == MemBytes(b, addr, count)[i] {
      assert ByteAt(a, addr + i) == ByteAt(b, addr + i);
    }
  }

  /** Reading bytes succeeds exactly when they lie in guest memory, and yields them. */
  lemma ReadBytesSees(m: Mem, addr: u32, count: nat)
    ensures var (bytes, m') := ReadBytes(m, addr, count);
            && SameWords(m, m')
            && (bytes.Some? <==> RunFits(addr, ByBytes, count))
            && (bytes.Some? ==> Shows(m, addr, bytes.value))
  {
    RunReplies(m, addr, ByBytes, count, Byte);
    hide SameWords, Perform, LoadValue, RunFits, ByteAt, Loads;
    var replies := Perform(m, Loads(addr, ByBytes, count, Byte)).0;
    if |replies| == count {
      forall i | 0 <= i < count ensures ShowsAt(m, addr, LowBytes(replies), i) {
        assert ReplyAt(replies, m, addr, ByBytes, Byte, i);
        ByteLoadValue(m, addr + i);
      }
    }
  }

  lemma ByteLoadValue(m: Mem, addr: u32)
    ensures LoadValue(m, Load(addr, Byte)) == ByteAt(m, addr)
  {
  }

  /** Reading words succeeds exactly when their addresses lie in guest memory, and yields what
      word loads there yield. */
  lemma ReadWordsSees(m: Mem, addr: u32, count: nat)
    ensures var (words, m') := ReadWords(m, addr, count);
            && SameWords(m, m')
            && (words.Some? <==> RunFits(addr, ByWords, count))
            && (words.Some? ==> forall i | 0 <= i < count :: ReplyAt(words.value, m, addr, ByWords, Word, i))
  {
    RunReplies(m, addr, ByWords, count, Word);
    hide SameWords, Perform, LoadValue, RunFits, Loads;
  }

  /** The byte at `a` after `data` is stored from `addr` on, evenly spaced. */
  function StoredByte(m: Mem, addr: u32, spacing: Spacing, data: seq<u32>, a: u32): byte
  {
    if a < addr then ByteAt(m, a)
    else
      match spacing
      case ByBytes => if a - addr < |data| then data[a - addr] % 0x100 else ByteAt(m, a)
      case ByWords =>
        if (a - addr) % 4 == 0 && (a - addr) / 4 < |data| then data[(a - addr) / 4] % 0x100 else ByteAt(m, a)
  }

  /** Byte stores that are all granted change exactly the bytes they name. */
  lemma {:induction false} WriteBytesLands(m: Mem, addr: u32, spacing: Spacing, data: seq<u32>)
    requires WriteBytes(m, addr, spacing, data).0
    ensures RunFits(addr, spacing, |data|)
    ensures forall a: u32 :: ByteAt(WriteBytes(m, addr, spacing, data).1, a) == StoredByte(m, addr, spacing, data, a)
    decreases data
  {
    if data != [] {
      WriteBytesHead(m, addr, spacing, data);
      ByteLands(m, addr, data[0]);
      var m1 := Do(m, Store(addr, Byte, data[0])).1;
      hide WriteBytes, Do, ByteAt, StoredByte;
      WriteBytesLands(m1, addr + Apart(spacing, 1), spacing, data[1..]);
      forall a: u32 ensures ByteAt(WriteBytes(m, addr, spacing, data).1, a) == StoredByte(m, addr, spacing, data, a) {
        StoredByteTail(m, m1, addr, spacing, data, a);
      }
      if |data| > 1 { assert Apart(spacing, |data| - 1) == Apart(spacing, |data| - 2) + Apart(spacing, 1); }
    } else {
      assert WriteBytes(m, addr, spacing, data).1 == m;
    }
  }

  /** Byte stores are all granted exactly when they lie in guest memory. */
  lemma WriteBytesGranted(m: Mem, addr: u32, spacing: Spacing, data: seq<u32>)
    ensures WriteBytes(m, addr, spacing, data).0 <==> RunFits(addr, spacing, |data|)
  {
    StoresGranted(m, Stores(addr, spacing, data));
    RunFitsIff(addr, spacing, |data|);
    StorePlaces(addr, spacing, data);
    hide InGuest, Perform, Stores, Place, RunFits;
  }

  lemma StorePlaces(addr: u32, spacing: Spacing, data: seq<u32>)
    ensures (forall i | 0 <= i < |data| :: InGuest(Stores(addr, spacing, data)[i].addr)) <==>
            (forall i | 0 <= i < |data| :: InGuest(Place(addr, spacing, i)))
  {
    hide InGuest, Apart;
    forall i | 0 <= i < |data| ensures Stores(addr, spacing, data)[i].addr == Place(addr, spacing, i) {
    }
  }

  lemma {:induction false} StoresGranted(m: Mem, accesses: seq<Access>)
    ensures |Perform(m, accesses).0| == |accesses| <==> forall i | 0 <= i < |accesses| :: InGuest(accesses[i].addr)
    decreases accesses
  {
    if accesses != [] {
      DoGranted(m, accesses[0]);
      hide InGuest, ReadMem, WriteMem;
      if InGuest(accesses[0].addr) {
        StoresGranted(Do(m, accesses[0]).1, accesses[1..]);
        assert forall i | 0 <= i < |accesses| - 1 :: accesses[1..][i] == accesses[i + 1];
        assert forall i | 0 < i < |accesses| :: accesses[i] == accesses[1..][i - 1];
      }
    }
  }

  lemma DoGranted(m: Mem, a: Access)
    ensures Do(m, a).0.Some? <==> InGuest(a.addr)
  {
  }

  lemma WriteBytesHead(m: Mem, addr: u32, spacing: Spacing, data: seq<u32>)
    requires data != [] && WriteBytes(m, addr, spacing, data).0
    ensures InGuest(addr)
    ensures WriteBytes(m, addr, spacing, data) ==
            WriteBytes(Do(m, Store(addr, Byte, data[0])).1, addr + Apart(spacing, 1), spacing, data[1..])
  {
    hide WriteMem, ReadMem, ByteAt, Stores, InGuest;
    FirstStore(addr, spacing, data);
    ByteLands(m, addr, data[0]);
    assert InGuest(addr);
    InGuestBound(addr);
    StoresTail(addr, spacing, data);
  }

  lemma FirstStore(addr: u32, spacing: Spacing, data: seq<u32>)
    requires data != []
    ensures Stores(addr, spacing, data)[0] == Store(addr, Byte, data[0])
  {
    assert Apart(spacing, 0) == 0 && Wrap(addr) == addr;
  }

  lemma ByteLands(m: Mem, addr: u32, data: u32)
    ensures Do(m, Store(addr, Byte, data)).0.Some? == InGuest(addr)
    ensures InGuest(addr) ==> forall a: u32 ::
              ByteAt(Do(m, Store(addr, Byte, data)).1, a) == if a == addr then data % 0x100 else ByteAt(m, a)
  {
    hide ByteAt;
    if InGuest(addr) {
      ByteStore(m, addr, data, false);
    }
  }

  lemma StoresTail(addr: u32, spacing: Spacing, data: seq<u32>)
    requires data != [] && addr + Apart(spacing, 1) < 0x1_0000_0000
    ensures Stores(addr, spacing, data)[1..] == Stores(addr + Apart(spacing, 1), spacing, data[1..])
  {
    forall i | 0 <= i < |data| - 1
      ensures Stores(addr, spacing, data)[1..][i] == Stores(addr + Apart(spacing, 1), spacing, data[1..])[i]
    {
      assert Apart(spacing, i + 1) == Apart(spacing, 1) + Apart(spacing, i);
    }
  }

  lemma StoredByteTail(m: Mem, m1: Mem, addr: u32, spacing: Spacing, data: seq<u32>, a: u32)
    requires data != [] && addr + Apart(spacing, 1) < 0x1_0000_0000
    requires ByteAt(m1, a) == if a == addr then data[0] % 0x100 else ByteAt(m, a)
    ensures StoredByte(m1, addr + Apart(spacing, 1), spacing, data[1..], a) == StoredByte(m, addr, spacing, data, a)
  {
    if spacing == ByWords && a >= addr + 4 {
      assert (a - addr) / 4 == (a - addr - 4) / 4 + 1;
    }
  }
}
