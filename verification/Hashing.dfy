/** The SHA environment call as a fold of the compression function over the blocks of memory. */
module Hashing {
  import opened Words
  import opened PagedMemory
  import opened FlatMemory
  import opened Machine
  import opened Transparency
  import opened ByteRuns

  // ---------- The fold over flat memory ----------

  /** `count` blocks, each two runs of 32 bytes, lie in guest memory. */
  predicate BlocksFit(block1: nat, block2: nat, count: nat) {
    count == 0 ||
    (&& GUEST_MIN_MEM <= block1 && block1 + 64 * (count - 1) + 28 <= GUEST_MAX_MEM
     && GUEST_MIN_MEM <= block2 && block2 + 64 * (count - 1) + 28 <= GUEST_MAX_MEM)
  }

  /** The start of the word that a word access at `addr` reads. */
  function WordStart(addr: nat): nat {
    addr - addr % 4
  }

  /** The bytes of a block: those at its pointers, which for word access lose their low two bits. */
  function BlockBytes(m: Mem, block1: nat, block2: nat): seq<byte>
    requires BlocksFit(block1, block2, 1)
  {
    MemBytes(m, WordStart(block1), 32) + MemBytes(m, WordStart(block2), 32)
  }

  function Fold(host: Host, m: Mem, state: Digest, block1: nat, block2: nat, count: nat): Digest
    requires BlocksFit(block1, block2, count)
    decreases count
  {
    if count == 0 then state
    else Fold(host, m, host.compress(state, BlockBytes(m, block1, block2)), block1 + 64, block2 + 64, count - 1)
  }

  // ---------- The call computes the fold ----------

  /** Eight words are the 32 bytes from the start of the first, in order. */
  lemma WordsAreBytes(m: Mem, addr: u32, words: seq<u32>)
    requires |words| == 8
    requires forall i | 0 <= i < 8 :: ReplyAt(words, m, addr, ByWords, Word, i)
    ensures WordStart(addr) + 32 <= 0x1_0000_0000 && LittleEndian(words) == MemBytes(m, WordStart(addr), 32)
  {
    assert ReplyAt(words, m, addr, ByWords, Word, 7);
    hide ByteAt, LoadValue, ByteOf;
    forall k | 0 <= k < 32 ensures LittleEndian(words)[k] == MemBytes(m, WordStart(addr), 32)[k] {
      WordByte(m, addr, words, k / 4, k % 4);
    }
  }

  lemma WordByte(m: Mem, addr: u32, words: seq<u32>, q: nat, j: nat)
    requires q < |words| && j < 4 && ReplyAt(words, m, addr, ByWords, Word, q)
    ensures WordStart(addr) + 4 * q + j < 0x1_0000_0000
    ensures ByteOf(words[q], j) == ByteAt(m, WordStart(addr) + 4 * q + j)
  {
    hide ByteAt, LoadValue, ByteOf, WordStart;
    NextWordStart(addr, q);
    ByteOfLoadedWord(m, addr + 4 * q, j);
  }

  lemma NextWordStart(addr: nat, q: nat)
    ensures WordStart(addr + 4 * q) == WordStart(addr) + 4 * q
  {
    assert addr + 4 * q == 4 * (addr / 4 + q) + addr % 4;
  }

  lemma ByteOfLoadedWord(m: Mem, addr: u32, j: nat)
    requires j < 4 && addr <= GUEST_MAX_MEM
    ensures WordStart(addr) + j < 0x1_0000_0000
    ensures ByteOf(LoadValue(m, Load(addr, Word)), j) == ByteAt(m, WordStart(addr) + j)
  {
    var start: u32 := WordStart(addr);
    StartIsAligned(addr);
    SameWord(addr, start);
    hide WordStart;
    ByteInWord(m, (a: u32) => ByteAt(m, a), start, j);
  }

  lemma StartIsAligned(addr: nat)
    ensures WordStart(addr) % 4 == 0
  {
    assert WordStart(addr) == 4 * (addr / 4);
  }

  lemma LittleEndianAppend(a: seq<u32>, b: seq<u32>)
    ensures LittleEndian(a + b) == LittleEndian(a) + LittleEndian(b)
  {
    hide ByteOf;
    forall i | 0 <= i < 4 * |a + b| ensures LittleEndian(a + b)[i] == (LittleEndian(a) + LittleEndian(b))[i] {
      if i >= 4 * |a| {
        assert (i - 4 * |a|) / 4 == i / 4 - |a| && (i - 4 * |a|) % 4 == i % 4;
      }
    }
  }

  /** One block: it is read exactly when it lies in guest memory, and as its bytes. */
  lemma BlockRead(m: Mem, block1: u32, block2: u32)
    ensures var (half1, m1) := ReadWords(m, block1, 8);
            var (half2, m2) := ReadWords(m1, block2, 8);
            && SameWords(m, m1) && SameWords(m, m2)
            && (half1.Some? && half2.Some? <==> BlocksFit(block1, block2, 1))
            && (half1.Some? && half2.Some? ==> LittleEndian(half1.value + half2.value) == BlockBytes(m, block1, block2))
  {
    hide ReadWords, SameWords, LittleEndian, MemBytes, LoadValue;
    var (half1, m1) := ReadWords(m, block1, 8);
    ReadWordsSees(m, block1, 8);
    var (half2, m2) := ReadWords(m1, block2, 8);
    ReadWordsSees(m1, block2, 8);
    SameWordsThrough(m, m1, m2);
    if half1.Some? && half2.Some? {
      WordsAreBytes(m, block1, half1.value);
      WordsAreBytes(m1, block2, half2.value);
      SameWordsMemBytes(m, m1, WordStart(block2), 32);
      LittleEndianAppend(half1.value, half2.value);
    }
  }

  lemma {:induction false} SameWordsFold(host: Host, a: Mem, b: Mem, state: Digest, block1: nat, block2: nat,
                                         count: nat)
    requires SameWords(a, b) && BlocksFit(block1, block2, count)
    ensures Fold(host, a, state, block1, block2, count) == Fold(host, b, state, block1, block2, count)
    decreases count
  {
    hide SameWords, MemBytes;
    if count > 0 {
      SameWordsMemBytes(a, b, WordStart(block1), 32);
      SameWordsMemBytes(a, b, WordStart(block2), 32);
      var next := host.compress(state, BlockBytes(a, block1, block2));
      SameWordsFold(host, a, b, next, block1 + 64, block2 + 64, count - 1);
    }
  }

  lemma BlocksTail(block1: u32, block2: u32, count: nat)
    requires count > 0
    ensures BlocksFit(block1, block2, count) ==> BlocksFit(block1, block2, 1)
    ensures BlocksFit(block1, block2, 1) ==>
              && Wrap(block1 + 64) == block1 + 64 && Wrap(block2 + 64) == block2 + 64
              && (BlocksFit(block1, block2, count) <==> BlocksFit(block1 + 64, block2 + 64, count - 1))
  {
  }

  /** The first round of the block loop. */
  lemma FirstBlock(host: Host, m: Mem, state: Digest, block1: u32, block2: u32, count: nat) returns (m2: Mem)
    requires count > 0
    ensures SameWords(m, m2)
    ensures var r := ShaBlocks(host, m, state, block1, block2, count);
            if BlocksFit(block1, block2, 1) then
              r == ShaBlocks(host, m2, host.compress(state, BlockBytes(m, block1, block2)),
                             Wrap(block1 + 64), Wrap(block2 + 64), count - 1)
            else r.0.None? && SameWords(m, r.1)
  {
    hide ReadWords, SameWords, LittleEndian, BlockBytes, BlocksFit, Wrap;
    BlockRead(m, block1, block2);
    m2 := ReadWords(ReadWords(m, block1, 8).1, block2, 8).1;
  }

  /** The block loop succeeds exactly when all blocks lie in guest memory, and then computes
      the fold; the pointers never wrap around. */
  lemma {:induction false} ShaBlocksFold(host: Host, m: Mem, state: Digest, block1: u32, block2: u32, count: nat)
    ensures var (r, m') := ShaBlocks(host, m, state, block1, block2, count);
            && SameWords(m, m')
            && (r.Some? <==> BlocksFit(block1, block2, count))
            && (r.Some? ==> r.value == Fold(host, m, state, block1, block2, count))
    decreases count
  {
    hide ShaBlocks, Fold, SameWords, BlockBytes, BlocksFit, Wrap;
    if count == 0 {
      NoBlocks(host, m, state, block1, block2);
    } else {
      BlocksTail(block1, block2, count);
      var m2 := FirstBlock(host, m, state, block1, block2, count);
      if BlocksFit(block1, block2, 1) {
        var next := host.compress(state, BlockBytes(m, block1, block2));
        ShaBlocksFold(host, m2, next, block1 + 64, block2 + 64, count - 1);
        SameWordsThrough(m, m2, ShaBlocks(host, m2, next, block1 + 64, block2 + 64, count - 1).1);
        if BlocksFit(block1, block2, count) {
          SameWordsFold(host, m, m2, next, block1 + 64, block2 + 64, count - 1);
          FoldFirst(host, m, state, block1, block2, count);
        }
      }
    }
  }

  lemma NoBlocks(host: Host, m: Mem, state: Digest, block1: u32, block2: u32)
    ensures ShaBlocks(host, m, state, block1, block2, 0) == (Some(state), m) && SameWords(m, m)
    ensures BlocksFit(block1, block2, 0) && Fold(host, m, state, block1, block2, 0) == state
  {
  }

  lemma FoldFirst(host: Host, m: Mem, state: Digest, block1: u32, block2: u32, count: nat)
    requires count > 0 && BlocksFit(block1, block2, count)
    ensures BlocksFit(block1, block2, 1) && BlocksFit(block1 + 64, block2 + 64, count - 1)
    ensures Fold(host, m, state, block1, block2, count) ==
            Fold(host, m, host.compress(state, BlockBytes(m, block1, block2)), block1 + 64, block2 + 64, count - 1)
  {
  }

  predicate ShaFits(output: u32, input: u32, block1: u32, block2: u32, count: nat) {
    RunFits(input, ByBytes, 32) && BlocksFit(block1, block2, count) && RunFits(output, ByBytes, 32)
  }

  /** The digest that the call leaves: the blocks folded into the state at `input`. */
  function Result(host: Host, m: Mem, input: u32, block1: u32, block2: u32, count: nat): Digest
    requires RunFits(input, ByBytes, 32) && BlocksFit(block1, block2, count)
  {
    Fold(host, m, FromBigEndian(MemBytes(m, input, 32)), block1, block2, count)
  }

  /**
   The SHA call completes exactly when the state, the blocks and the output lie in guest memory.
   It then stores, big-endian, the fold of the compression function over the blocks as they were
   before the call, so the output may lie on the input state or on the blocks; no other byte
   changes.
   */
  lemma ShaIsFold(host: Host, m: Mem, output: u32, input: u32, block1: u32, block2: u32, count: nat)
    ensures Sha(host, m, output, input, block1, block2, count).0 <==> ShaFits(output, input, block1, block2, count)
    ensures ShaFits(output, input, block1, block2, count) ==>
              Overwritten(m, output, BigEndian(Result(host, m, input, block1, block2, count)),
                          Sha(host, m, output, input, block1, block2, count).1)
  {
    hide ReadBytes, ShaBlocks, WriteBytes, FromBigEndian, BigEndian, SameWords, MemBytes, Fold, ByteAt, BlocksFit,
      Shows;
    var (bytes, mem) := ReadBytes(m, input, 32);
    ReadBytesSees(m, input, 32);
    if bytes.Some? {
      ShowsMemBytes(m, input, bytes.value);
      var start := FromBigEndian(bytes.value);
      var (state, mem1) := ShaBlocks(host, mem, start, block1, block2, count);
      ShaBlocksFold(host, mem, start, block1, block2, count);
      SameWordsThrough(m, mem, mem1);
      if state.Some? {
        SameWordsFold(host, m, mem, start, block1, block2, count);
        WriteBytesGranted(mem1, output, ByBytes, BigEndian(state.value));
        if RunFits(output, ByBytes, 32) {
          OverwriteLands(m, mem1, output, BigEndian(state.value));
        }
      }
    }
  }

  lemma OverwriteLands(m: Mem, m1: Mem, addr: u32, bytes: seq<byte>)
    requires SameWords(m, m1) && WriteBytes(m1, addr, ByBytes, bytes).0
    ensures Overwritten(m, addr, bytes, WriteBytes(m1, addr, ByBytes, bytes).1)
  {
    hide WriteBytes;
    WriteBytesLands(m1, addr, ByBytes, bytes);
    var m2 := WriteBytes(m1, addr, ByBytes, bytes).1;
    forall a: u32 ensures ByteAt(m2, a) == if addr <= a < addr + |bytes| then bytes[a - addr] else ByteAt(m, a) {
      assert ByteAt(m2, a) == StoredByte(m1, addr, ByBytes, bytes, a);
      assert ByteAt(m1, a) == ByteAt(m, a);
    }
  }

  /** The cycles of the call: a block count that passes the bounds cannot overflow. */
  lemma ShaCycles(host: Host, m: Machine)
    requires EcallSha(host, m).0.Proceed?
    ensures EcallSha(host, m).0.extra == 73 * Reg(m, REG_A4)
  {
    hide Sha, Overwritten, Result, BigEndian, RunFits, ByteAt;
    ShaIsFold(host, m.mem, Reg(m, REG_A0), Reg(m, REG_A1), Reg(m, REG_A2), Reg(m, REG_A3), Reg(m, REG_A4));
  }

  // ---------- Calls compose ----------

  /** A digest survives being stored and read back. */
  lemma BigEndianRoundTrip(d: Digest)
    ensures FromBigEndian(BigEndian(d)) == d
  {
    hide FromBigEndian, BigEndian;
    forall i | 0 <= i < 8 ensures FromBigEndian(BigEndian(d))[i] == d[i] {
      WordBack(d, i);
    }
  }

  lemma WordBack(d: Digest, i: nat)
    requires i < 8
    ensures FromBigEndian(BigEndian(d))[i] == d[i]
  {
    hide ByteOf, Compose;
    BytesWord(d[i]);
    BigEndianWord(d, i);
  }

  lemma BigEndianWord(d: Digest, i: nat)
    requires i < 8
    ensures var bytes := BigEndian(d);
            && bytes[4 * i] == ByteOf(d[i], 3) && bytes[4 * i + 1] == ByteOf(d[i], 2)
            && bytes[4 * i + 2] == ByteOf(d[i], 1) && bytes[4 * i + 3] == ByteOf(d[i], 0)
  {
    hide ByteOf;
    assert (4 * i) / 4 == i && (4 * i + 1) / 4 == i && (4 * i + 2) / 4 == i && (4 * i + 3) / 4 == i;
  }

  lemma {:induction false} FoldAppend(host: Host, m: Mem, state: Digest, block1: nat, block2: nat, n: nat, k: nat)
    requires BlocksFit(block1, block2, n + k)
    ensures BlocksFit(block1, block2, n) && BlocksFit(block1 + 64 * n, block2 + 64 * n, k)
    ensures Fold(host, m, state, block1, block2, n + k) ==
            Fold(host, m, Fold(host, m, state, block1, block2, n), block1 + 64 * n, block2 + 64 * n, k)
    decreases n
  {
    if n > 0 {
      FoldAppend(host, m, host.compress(state, BlockBytes(m, block1, block2)), block1 + 64, block2 + 64, n - 1, k);
    }
  }

  /** `[addr, addr + 32)` shares no byte with what is read of the first `count` half-blocks from `block` on. */
  predicate ClearOfBlocks(addr: u32, block: nat, count: nat) {
    forall i | 0 <= i < count :: ClearOf(addr, block + 64 * i)
  }

  predicate ClearOf(addr: u32, half: nat) {
    addr + 32 <= WordStart(half) || WordStart(half) + 32 <= addr
  }

  lemma OverwriteSpares(m: Mem, m': Mem, addr: u32, bytes: seq<byte>, half: u32)
    requires |bytes| == 32 && Overwritten(m, addr, bytes, m') && ClearOf(addr, half) && half + 32 <= 0x1_0000_0000
    ensures MemBytes(m', WordStart(half), 32) == MemBytes(m, WordStart(half), 32)
  {
    var start: u32 := WordStart(half);
    hide ByteAt;
    forall i | 0 <= i < 32 ensures MemBytes(m', start, 32)[i] == MemBytes(m, start, 32)[i] {
      assert ByteAt(m', start + i) == ByteAt(m, start + i);
    }
  }

  lemma {:induction false} OverwriteSparesFold(host: Host, m: Mem, m': Mem, addr: u32, bytes: seq<byte>,
                                              state: Digest, block1: nat, block2: nat, count: nat)
    requires |bytes| == 32 && Overwritten(m, addr, bytes, m') && BlocksFit(block1, block2, count)
    requires ClearOfBlocks(addr, block1, count) && ClearOfBlocks(addr, block2, count)
    ensures Fold(host, m', state, block1, block2, count) == Fold(host, m, state, block1, block2, count)
    decreases count
  {
    hide Overwritten, MemBytes, WordStart, ClearOf;
    if count > 0 {
      assert ClearOf(addr, block1 + 64 * 0) && ClearOf(addr, block2 + 64 * 0);
      OverwriteSpares(m, m', addr, bytes, block1);
      OverwriteSpares(m, m', addr, bytes, block2);
      forall i | 0 <= i < count - 1 ensures ClearOf(addr, block1 + 64 + 64 * i) && ClearOf(addr, block2 + 64 + 64 * i) {
        assert ClearOf(addr, block1 + 64 * (i + 1)) && ClearOf(addr, block2 + 64 * (i + 1));
      }
      OverwriteSparesFold(host, m, m', addr, bytes, host.compress(state, BlockBytes(m, block1, block2)),
                          block1 + 64, block2 + 64, count - 1);
    }
  }

  lemma ReadBack(m: Mem, m': Mem, addr: u32, bytes: seq<byte>)
    requires Overwritten(m, addr, bytes, m') && addr + |bytes| <= 0x1_0000_0000
    ensures MemBytes(m', addr, |bytes|) == bytes
  {
    hide ByteAt;
    forall i | 0 <= i < |bytes| ensures MemBytes(m', addr, |bytes|)[i] == bytes[i] {
      assert ByteAt(m', addr + i) == bytes[i];
    }
  }

  /** The digest after `n` blocks, stored at `middle` and read back, is the right start for the
      other `k`. */
  lemma DigestsCompose(host: Host, m: Mem, m1: Mem, middle: u32, input: u32, block1: u32, block2: u32, n: nat, k: nat)
    requires RunFits(input, ByBytes, 32) && RunFits(middle, ByBytes, 32) && BlocksFit(block1, block2, n + k)
    requires BlocksFit(block1, block2, n) && BlocksFit(block1 + 64 * n, block2 + 64 * n, k)
    requires block1 + 64 * n < 0x1_0000_0000 && block2 + 64 * n < 0x1_0000_0000
    requires ClearOfBlocks(middle, block1 + 64 * n, k) && ClearOfBlocks(middle, block2 + 64 * n, k)
    requires Overwritten(m, middle, BigEndian(Result(host, m, input, block1, block2, n)), m1)
    ensures Result(host, m1, middle, block1 + 64 * n, block2 + 64 * n, k) ==
            Result(host, m, input, block1, block2, n + k)
  {
    hide Overwritten, Fold, BlocksFit, ClearOfBlocks, BigEndian, FromBigEndian, MemBytes, RunFits;
    DigestEnds(input);
    FoldAppend(host, m, FromBigEndian(MemBytes(m, input, 32)), block1, block2, n, k);
    var first := Result(host, m, input, block1, block2, n);
    BigEndianRoundTrip(first);
    DigestEnds(middle);
    ReadBack(m, m1, middle, BigEndian(first));
    OverwriteSparesFold(host, m, m1, middle, BigEndian(first), first, block1 + 64 * n, block2 + 64 * n, k);
  }

  lemma DigestEnds(addr: u32)
    requires RunFits(addr, ByBytes, 32)
    ensures addr + 32 <= 0x1_0000_0000
  {
  }

  /** What is found at `output` after a call that fits. */
  lemma ShaLeaves(host: Host, m: Mem, output: u32, input: u32, block1: u32, block2: u32, count: nat)
    requires ShaFits(output, input, block1, block2, count)
    ensures MemBytes(Sha(host, m, output, input, block1, block2, count).1, output, 32) ==
            BigEndian(Result(host, m, input, block1, block2, count))
  {
    hide Sha, Overwritten, BigEndian, MemBytes, Result, BlocksFit;
    ShaIsFold(host, m, output, input, block1, block2, count);
    ReadBack(m, Sha(host, m, output, input, block1, block2, count).1, output,
             BigEndian(Result(host, m, input, block1, block2, count)));
  }

  /**
   Calls compose: hashing `n` blocks into `middle` and then `k` more from there into `output`
   leaves the digest that hashing `n + k` blocks at once leaves, as long as `middle` lies clear
   of the blocks that are still to be read. (It may lie on the blocks already read, on the
   input state, and on the output.)
   */
  lemma ShaComposes(host: Host, m: Mem, m1: Mem, middle: u32, output: u32, input: u32,
                    block1: u32, block2: u32, n: nat, k: nat, next1: u32, next2: u32)
    requires next1 == block1 + 64 * n && next2 == block2 + 64 * n
    requires ShaFits(output, input, block1, block2, n + k) && RunFits(middle, ByBytes, 32)
    requires ClearOfBlocks(middle, next1, k) && ClearOfBlocks(middle, next2, k)
    requires Sha(host, m, middle, input, block1, block2, n) == (true, m1)
    ensures Sha(host, m, output, input, block1, block2, n + k).0 && Sha(host, m1, output, middle, next1, next2, k).0
    ensures MemBytes(Sha(host, m1, output, middle, next1, next2, k).1, output, 32) ==
            MemBytes(Sha(host, m, output, input, block1, block2, n + k).1, output, 32)
  {
    hide Sha, Overwritten, Fold, BlocksFit, ClearOfBlocks, BigEndian, FromBigEndian, MemBytes, Result, RunFits,
      BlockBytes;
    BlocksSplit(block1, block2, n, k);
    ShaIsFold(host, m, middle, input, block1, block2, n);
    DigestsCompose(host, m, m1, middle, input, block1, block2, n, k);
    ShaLeaves(host, m, output, input, block1, block2, n + k);
    ShaLeaves(host, m1, output, middle, next1, next2, k);
    ShaIsFold(host, m, output, input, block1, block2, n + k);
    ShaIsFold(host, m1, output, middle, next1, next2, k);
  }

  lemma BlocksSplit(block1: nat, block2: nat, n: nat, k: nat)
    requires BlocksFit(block1, block2, n + k)
    ensures BlocksFit(block1, block2, n) && BlocksFit(block1 + 64 * n, block2 + 64 * n, k)
  {
  }
}
