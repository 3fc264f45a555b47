/** The ELF loader, over headers that are parsed already: memory ends up as the overlay, in
    order, of the loadable segments. */
module Loader {
  import opened Words
  import opened PagedMemory
  import opened FlatMemory

  /** A program header; `loadable` says that its type is PT_LOAD. */
  datatype Segment = Segment(loadable: bool, fileSize: nat, memSize: nat, vaddr: nat, offset: nat)

  /** What the loader accepts of a segment: sizes below the top of memory, an aligned address,
      every word below the top of memory, and every file byte that it copies in the input. */
  predicate Acceptable(s: Segment, input: seq<byte>) {
    && s.fileSize < GUEST_MAX_MEM && s.memSize < GUEST_MAX_MEM
    && s.vaddr < 0x1_0000_0000 && s.vaddr % 4 == 0 && s.offset < 0x1_0000_0000
    && (s.memSize > 0 ==> s.vaddr + AlignUp(s.memSize) - 4 < GUEST_MAX_MEM)
    && InputCovers(s, input, AlignUp(s.memSize))
  }

  /** The file bytes among the first `n` bytes of the segment are in the input. */
  predicate InputCovers(s: Segment, input: seq<byte>, n: nat) {
    forall k | 0 <= k < n && k < s.fileSize :: InInput(s, input, k)
  }

  predicate InInput(s: Segment, input: seq<byte>, k: nat) {
    Wrap(s.offset + k) < |input|
  }

  /** Byte `k` of a segment: from the file, then zeros. */
  function SegmentByte(s: Segment, input: seq<byte>, k: nat): byte {
    if k < s.fileSize && InInput(s, input, k) then input[Wrap(s.offset + k)] else 0
  }

  /** `f` under the first `n` bytes of a segment; what would lie below guest memory is dropped. */
  function Overlay(f: Bytes, s: Segment, input: seq<byte>, n: nat): Bytes {
    (a: u32) => if s.vaddr <= a < s.vaddr + n && a >= GUEST_MIN_MEM then SegmentByte(s, input, a - s.vaddr) else f(a)
  }

  /** `f` under the loadable segments, later ones on top. */
  function Image(f: Bytes, segments: seq<Segment>, input: seq<byte>): Bytes
    decreases |segments|
  {
    if segments == [] then f
    else
      var under := Image(f, segments[..|segments| - 1], input);
      var s := segments[|segments| - 1];
      if s.loadable then Overlay(under, s, input, AlignUp(s.memSize)) else under
  }

  predicate Loads(entry: nat, segments: Option<seq<Segment>>, input: seq<byte>) {
    && entry < GUEST_MAX_MEM && entry % 4 == 0
    && segments.Some? && |segments.value| <= 256
    && forall s | s in segments.value && s.loadable :: Acceptable(s, input)
  }

  /** What that comes to, word by word and byte by byte: every word of the segment lies at an aligned
      address below the top of memory, and every byte of it that is to come from the file does. */
  lemma AcceptableIff(s: Segment, input: seq<byte>)
    ensures Acceptable(s, input) <==>
            && s.fileSize < 0x0C00_0000 && s.memSize < 0x0C00_0000 && s.vaddr < 0x1_0000_0000 &&
                s.offset < 0x1_0000_0000
            && s.vaddr % 4 == 0
            && (forall i | 0 <= i < s.memSize && i % 4 == 0 :: WordBelowTop(s, i))
            && (forall i, j | 0 <= i < s.memSize && i % 4 == 0 && 0 <= j < 4 && i + j < s.fileSize ::
                ByteInFile(s, input, i, j))
  {
    hide InInput;
    var size := s.memSize;
    if size > 0 {
      LastWord(size);
      assert WordBelowTop(s, AlignUp(size) - 4) <==> s.vaddr + AlignUp(size) - 4 < GUEST_MAX_MEM;
    }
    FileCovered(s, input);
  }

  lemma FileCovered(s: Segment, input: seq<byte>)
    ensures InputCovers(s, input, AlignUp(s.memSize)) <==>
            forall i, j | 0 <= i < s.memSize && i % 4 == 0 && 0 <= j < 4 && i + j < s.fileSize ::
                ByteInFile(s, input, i, j)
  {
    hide InInput;
    forall i, j | 0 <= i < s.memSize && i % 4 == 0 && 0 <= j < 4 && i + j < s.fileSize &&
        InputCovers(s, input, AlignUp(s.memSize))
      ensures ByteInFile(s, input, i, j)
    {
      LastWord(s.memSize);
      assert InInput(s, input, i + j);
    }
    if forall i, j | 0 <= i < s.memSize && i % 4 == 0 && 0 <= j < 4 && i + j < s.fileSize ::
        ByteInFile(s, input, i, j) {
      forall k | 0 <= k < AlignUp(s.memSize) && k < s.fileSize ensures InInput(s, input, k) {
        WordOf(k, s.memSize);
        assert ByteInFile(s, input, k - k % 4, k % 4);
      }
    }
  }

  /** And of the whole file: up to 256 program headers, the loadable ones acceptable, and an aligned
      entry point below the top of memory. */
  lemma LoadsIff(entry: nat, segments: Option<seq<Segment>>, input: seq<byte>)
    ensures Loads(entry, segments, input) <==>
            && entry < 0x0C00_0000 && entry % 4 == 0 && segments.Some? && |segments.value| <= 256
            && forall k | 0 <= k < |segments.value| && segments.value[k].loadable ::
                 Acceptable(segments.value[k], input)
  {
    hide Acceptable;
  }

  predicate WordBelowTop(s: Segment, i: nat) {
    s.vaddr + i < 0x0C00_0000
  }

  predicate ByteInFile(s: Segment, input: seq<byte>, i: nat, j: nat) {
    InInput(s, input, i + j)
  }

  lemma LastWord(n: nat)
    requires n > 0
    ensures (AlignUp(n) - 4) % 4 == 0 && 0 <= AlignUp(n) - 4 < n
    ensures forall i | 0 <= i < n && i % 4 == 0 :: i <= AlignUp(n) - 4
  {
    forall i: nat | i < n && i % 4 == 0 ensures i <= AlignUp(n) - 4 {
      WordSteps(i, n);
    }
  }

  lemma WordOf(k: nat, n: nat)
    requires k < AlignUp(n)
    ensures (k - k % 4) % 4 == 0 && 0 <= k - k % 4 < n
  {
    assert k - k % 4 == 4 * (k / 4);
    if n > 0 { LastWord(n); }
  }

  /**
   Loads the segments and returns the entry point, exactly when everything is acceptable; the
   bytes of memory are then those it had before, `f`, under the image of the segments.
   */
  method LoadElf(mem: Memory, entry: nat, segments: Option<seq<Segment>>, input: seq<byte>, ghost f: Bytes)
    returns (r: Option<u32>)
    requires Represents(mem.View(), f)
    modifies mem, mem.sessionCycleCallback
    ensures mem.sessionCycleCallback == old(mem.sessionCycleCallback)
    ensures r.Some? <==> Loads(entry, segments, input)
    ensures r.Some? ==> r.value < 0x0C00_0000 && r.value % 4 == 0
    ensures r.Some? ==> r.value == entry && Represents(mem.View(), Image(f, segments.value, input))
  {
    if entry >= 0x1_0000_0000 || entry >= GUEST_MAX_MEM || entry % 4 != 0 {
      return None;
    }
    if segments.None? {
      return None;
    }
    var headers := segments.value;
    if |headers| > 256 {
      return None;
    }
    assert headers[..0] == [];
    hide Represents, Acceptable, Overlay;
    for n := 0 to |headers|
      invariant mem.sessionCycleCallback == old(mem.sessionCycleCallback)
      invariant forall k | 0 <= k < n && headers[k].loadable :: Acceptable(headers[k], input)
      invariant Represents(mem.View(), Image(f, headers[..n], input))
    {
      assert headers[..n + 1][..n] == headers[..n];
      if headers[n].loadable {
        var ok := LoadSegment(mem, headers[n], input, Image(f, headers[..n], input));
        if !ok {
          assert headers[n] in headers;
          return None;
        }
      }
    }
    assert headers[..|headers|] == headers;
    r := Some(entry);
  }

  method LoadSegment(mem: Memory, s: Segment, input: seq<byte>, ghost f: Bytes) returns (ok: bool)
    requires Represents(mem.View(), f)
    modifies mem, mem.sessionCycleCallback
    ensures mem.sessionCycleCallback == old(mem.sessionCycleCallback)
    ensures ok <==> Acceptable(s, input)
    ensures ok ==> Represents(mem.View(), Overlay(f, s, input, AlignUp(s.memSize)))
  {
    if s.fileSize >= GUEST_MAX_MEM || s.memSize >= GUEST_MAX_MEM {
      return false;
    }
    if s.vaddr >= 0x1_0000_0000 || s.vaddr % 4 != 0 || s.offset >= 0x1_0000_0000 {
      return false;
    }
    OverlayNothing(mem.View(), f, s, input);
    hide Represents, Overlay, InInput;
    var i := 0;
    while i < s.memSize
      invariant i % 4 == 0 && i <= AlignUp(s.memSize) && (i > 0 ==> s.vaddr + i - 4 < GUEST_MAX_MEM)
      invariant mem.sessionCycleCallback == old(mem.sessionCycleCallback)
      invariant InputCovers(s, input, i)
      invariant Represents(mem.View(), Overlay(f, s, input, i))
    {
      WordSteps(i, s.memSize);
      var loaded := LoadWord(mem, s, input, i, f);
      if !loaded {
        return false;
      }
      i := i + 4;
    }
    assert i == AlignUp(s.memSize);
    ok := true;
  }

  /** The word at byte `i` of a segment, copied to memory. */
  method LoadWord(mem: Memory, s: Segment, input: seq<byte>, i: nat, ghost f: Bytes) returns (ok: bool)
    requires s.vaddr % 4 == 0 && i % 4 == 0
    requires Represents(mem.View(), Overlay(f, s, input, i)) && InputCovers(s, input, i)
    modifies mem, mem.sessionCycleCallback
    ensures mem.sessionCycleCallback == old(mem.sessionCycleCallback)
    ensures ok <==> s.vaddr + i < GUEST_MAX_MEM && InputCovers(s, input, i + 4)
    ensures ok ==> Represents(mem.View(), Overlay(f, s, input, i + 4))
  {
    hide Represents, Overlay, InInput, WriteMem;
    var addr := s.vaddr + i;
    if addr >= 0x1_0000_0000 || addr >= GUEST_MAX_MEM {
      return false;
    }
    var word := Some(0);
    if i < s.fileSize {
      word := SegmentWord(s, input, i);
    } else {
      ZeroTail(s, input, i);
    }
    if word.None? {
      return false;
    }
    OverlayWord(mem.View(), f, s, input, i, word.value);
    var written := mem.WriteMemWithPrivileges(addr, Word, word.value, false);
    ok := true;
  }

  /** The word at byte `i` of a segment, or `None` when the input is too short for it. */
  method SegmentWord(s: Segment, input: seq<byte>, i: nat) returns (word: Option<u32>)
    requires i < s.fileSize
    ensures word.Some? <==> forall k | i <= k < i + 4 && k < s.fileSize :: InInput(s, input, k)
    ensures word.Some? ==> forall j | 0 <= j < 4 :: ByteOf(word.value, j) == SegmentByte(s, input, i + j)
  {
    hide ByteOf, PutByte;
    ZeroWord();
    var w: u32 := 0;
    var len := if s.fileSize - i <= 4 then s.fileSize - i else 4;
    for j := 0 to len
      invariant forall k | i <= k < i + j :: InInput(s, input, k)
      invariant forall k | 0 <= k < 4 :: ByteOf(w, k) == if k < j then SegmentByte(s, input, i + k) else 0
    {
      var offset := Wrap(s.offset + i + j);
      if offset >= |input| {
        assert !InInput(s, input, i + j);
        return None;
      }
      PutByteEach(w, j, input[offset]);
      assert InInput(s, input, i + j) && SegmentByte(s, input, i + j) == input[offset];
      w := PutByte(w, j, input[offset]);
    }
    word := Some(w);
  }

  lemma ZeroWord()
    ensures forall k | 0 <= k < 4 :: ByteOf(0, k) == 0
  {
  }

  lemma PutByteEach(w: u32, k: nat, b: byte)
    requires k < 4
    ensures forall j | 0 <= j < 4 :: ByteOf(PutByte(w, k, b), j) == if j == k then b else ByteOf(w, j)
  {
    forall j | 0 <= j < 4 ensures ByteOf(PutByte(w, k, b), j) == if j == k then b else ByteOf(w, j) {
      PutByteAt(w, k, b, j);
    }
  }

  lemma ZeroTail(s: Segment, input: seq<byte>, i: nat)
    requires i >= s.fileSize
    ensures forall j | 0 <= j < 4 :: ByteOf(0, j) == SegmentByte(s, input, i + j)
  {
  }

  lemma WordSteps(i: nat, n: nat)
    requires i % 4 == 0 && i < n
    ensures (i + 4) % 4 == 0 && i + 4 <= AlignUp(n)
    ensures i + 4 >= n ==> i + 4 == AlignUp(n)
  {
    assert i == 4 * (i / 4);
  }

  lemma OverlayNothing(m: Mem, f: Bytes, s: Segment, input: seq<byte>)
    requires Represents(m, f)
    ensures Represents(m, Overlay(f, s, input, 0))
  {
  }

  /** One more word of the segment. */
  lemma OverlayWord(m: Mem, f: Bytes, s: Segment, input: seq<byte>, i: nat, word: u32)
    requires Represents(m, Overlay(f, s, input, i))
    requires s.vaddr % 4 == 0 && i % 4 == 0 && s.vaddr + i < GUEST_MAX_MEM
    requires forall j | 0 <= j < 4 :: ByteOf(word, j) == SegmentByte(s, input, i + j)
    ensures Represents(WriteMem(m, s.vaddr + i, Word, word, false).1, Overlay(f, s, input, i + 4))
  {
    var addr: u32 := s.vaddr + i;
    var g, h := Overlay(f, s, input, i), Overlay(f, s, input, i + 4);
    WordAligned(s.vaddr, i);
    hide ByteAt, WriteMem, FlatWrite, Overlay, InGuest, ByteOf, SegmentByte, Represents;
    WriteIsFlat(m, g, addr, Word, word, false);
    var m' := WriteMem(m, addr, Word, word, false).1;
    var now := if InGuest(addr) then FlatWrite(g, addr, Word, word) else g;
    forall a: u32 ensures now(a) == h(a) {
      OverlayByte(f, s, input, i, word, addr, a);
    }
    SameBytesRepresent(m', now, h);
  }

  lemma WordAligned(a: nat, b: nat)
    requires a % 4 == 0 && b % 4 == 0
    ensures Aligned(a + b, Word)
  {
    assert a + b == 4 * (a / 4 + b / 4);
  }

  lemma SameBytesRepresent(m: Mem, f: Bytes, g: Bytes)
    requires Represents(m, f) && forall a: u32 :: f(a) == g(a)
    ensures Represents(m, g)
  {
  }

  lemma OverlayByte(f: Bytes, s: Segment, input: seq<byte>, i: nat, word: u32, addr: u32, a: u32)
    requires s.vaddr % 4 == 0 && i % 4 == 0 && addr == s.vaddr + i < GUEST_MAX_MEM
    requires forall j | 0 <= j < 4 :: ByteOf(word, j) == SegmentByte(s, input, i + j)
    ensures Overlay(f, s, input, i + 4)(a) ==
            if InGuest(addr)
              then FlatWrite(Overlay(f, s, input, i), addr, Word, word)(a) else Overlay(f, s, input, i)(a)
  {
    hide ByteOf, SegmentByte;
    var before, after := Overlay(f, s, input, i), Overlay(f, s, input, i + 4);
    var written := FlatWrite(before, addr, Word, word);
    assert Width(Word) == 4;
    if addr <= a < addr + 4 {
      assert ByteOf(word, a - addr) == SegmentByte(s, input, i + (a - addr));
      BelowGuest(addr, a);
      assert written(a) == ByteOf(word, a - addr);
      assert after(a) == if InGuest(addr) then SegmentByte(s, input, i + (a - addr)) else f(a);
      assert before(a) == f(a);
    } else {
      assert written(a) == before(a);
      assert after(a) == before(a);
    }
  }

  /** A word lies wholly below guest memory or not at all. */
  lemma BelowGuest(addr: u32, a: u32)
    requires addr % 4 == 0 && addr <= a < addr + 4
    ensures a >= GUEST_MIN_MEM <==> addr >= GUEST_MIN_MEM
  {
  }
}
