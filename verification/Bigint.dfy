/** What the big-integer call leaves in memory. */
module Bigint {
  import opened Words
  import opened PagedMemory
  import opened FlatMemory
  import opened Machine
  import opened Transparency
  import opened ByteRuns
  import opened Hashing

  // ---------- What the call reads ----------

  /** The eight words of an operand. */
  function Operand(m: Mem, addr: u32): (words: seq<u32>)
    requires RunFits(addr, ByWords, 8)
    ensures |words| == 8
  {
    seq(8, (i: nat) requires i < 8 => LoadValue(m, Load(addr + 4 * i, Word)))
  }

  /** They are the 32 bytes of memory at the operand's word, in order. */
  lemma OperandBytes(m: Mem, addr: u32)
    requires RunFits(addr, ByWords, 8)
    ensures LittleEndian(Operand(m, addr)) == MemBytes(m, WordStart(addr), 32)
  {
    hide LoadValue;
    var words := Operand(m, addr);
    forall i | 0 <= i < 8 ensures ReplyAt(words, m, addr, ByWords, Word, i) {
    }
    hide Operand;
    WordsAreBytes(m, addr, words);
  }

  lemma ReadsOperand(m: Mem, now: Mem, addr: u32)
    requires SameWords(m, now)
    ensures var (words, mem) := ReadWords(now, addr, 8);
            && SameWords(m, mem)
            && words == if RunFits(addr, ByWords, 8) then Some(Operand(m, addr)) else None
  {
    hide ReadWords, SameWords, LoadValue;
    var (words, mem) := ReadWords(now, addr, 8);
    ReadWordsSees(now, addr, 8);
    SameWordsThrough(m, now, mem);
    if words.Some? {
      forall i | 0 <= i < 8 ensures words.value[i] == Operand(m, addr)[i] {
        assert ReplyAt(words.value, now, addr, ByWords, Word, i);
        SameLoadValue(m, now, Load(addr + 4 * i, Word));
      }
      assert words.value == Operand(m, addr);
    }
  }

  predicate OperandsFit(m: Machine) {
    RunFits(Reg(m, REG_A2), ByWords, 8) && RunFits(Reg(m, REG_A3), ByWords, 8) && RunFits(Reg(m, REG_A4), ByWords, 8)
  }

  /** The product of the operands in memory, or `None` when the program has none to give. */
  function Product(host: Host, m: Machine): Option<Digest>
    requires OperandsFit(m)
  {
    host.modMul(Operand(m.mem, Reg(m, REG_A2)), Operand(m.mem, Reg(m, REG_A3)), Operand(m.mem, Reg(m, REG_A4)))
  }

  /** The call computes the product of its operands and stores it, having changed nothing. */
  lemma BigintIsStore(host: Host, m: Machine) returns (read: Mem)
    ensures SameWords(m.mem, read)
    ensures var (outcome, m') := EcallBigint(host, m);
            if Reg(m, REG_A1) != 0 || !OperandsFit(m) then outcome.Fail?
            else if Product(host, m).None? then outcome.Panic?
            else
              && outcome.Proceed? == WriteBytes(read, Reg(m, REG_A0), ByWords, Product(host, m).value).0
              && outcome.Panic? == false
              && m'.mem == WriteBytes(read, Reg(m, REG_A0), ByWords, Product(host, m).value).1
  {
    hide ReadWords, WriteBytes, Operand, RunFits, SameWords;
    SameWordsSelf(m.mem);
    ReadsOperand(m.mem, m.mem, Reg(m, REG_A2));
    var mem1 := ReadWords(m.mem, Reg(m, REG_A2), 8).1;
    ReadsOperand(m.mem, mem1, Reg(m, REG_A3));
    var mem2 := ReadWords(mem1, Reg(m, REG_A3), 8).1;
    ReadsOperand(m.mem, mem2, Reg(m, REG_A4));
    read := ReadWords(mem2, Reg(m, REG_A4), 8).1;
  }

  /** The call completes exactly when the operation is 0, the operands lie in guest memory and
      have a product, and the places to store it lie in guest memory. */
  lemma BigintCompletesIff(host: Host, m: Machine)
    ensures EcallBigint(host, m).0.Proceed?
       <==> && Reg(m, REG_A1) == 0 && OperandsFit(m) && Product(host, m).Some?
            && RunFits(Reg(m, REG_A0), ByWords, 8)
  {
    hide EcallBigint, Product, WriteBytes, RunFits, SameWords;
    var read := BigintIsStore(host, m);
    if OperandsFit(m) && Product(host, m).Some? {
      WriteBytesGranted(read, Reg(m, REG_A0), ByWords, Product(host, m).value);
    }
  }

  // ---------- What it leaves ----------

  /** The words of memory at an address, by the bytes. */
  ghost predicate HoldsWords(m: Mem, addr: u32, words: seq<u32>) {
    addr + 4 * |words| <= 0x1_0000_0000 && MemBytes(m, addr, 4 * |words|) == LittleEndian(words)
  }

  /** The upper three bytes of each word of memory are those of `words` already. */
  ghost predicate UpperBytesMatch(m: Mem, addr: u32, words: seq<u32>) {
    addr + 4 * |words| <= 0x1_0000_0000 &&
    forall i | 0 <= i < 4 * |words| && i % 4 != 0 :: MemBytes(m, addr, 4 * |words|)[i] == LittleEndian(words)[i]
  }

  lemma StoreHoldsIff(m: Mem, addr: u32, z: Digest)
    requires WriteBytes(m, addr, ByWords, z).0
    ensures HoldsWords(WriteBytes(m, addr, ByWords, z).1, addr, z) <==> UpperBytesMatch(m, addr, z)
  {
    hide WriteBytes, ByteAt;
    WriteBytesLands(m, addr, ByWords, z);
    var m' := WriteBytes(m, addr, ByWords, z).1;
    forall i | 0 <= i < 32
      ensures MemBytes(m', addr, 32)[i] == if i % 4 == 0 then LittleEndian(z)[i] else MemBytes(m, addr, 32)[i]
    {
      assert ByteAt(m', addr + i) == StoredByte(m, addr, ByWords, z, addr + i);
    }
    hide MemBytes, LittleEndian;
    if UpperBytesMatch(m, addr, z) {
      assert MemBytes(m', addr, 32) == LittleEndian(z);
    }
  }

  /**
   The product is stored with byte-sized writes, one every four bytes, so only the low byte of
   each word is stored. After a call that completes, memory holds the product of the operands
   exactly when the other bytes were right before the call.
   */
  lemma BigintHoldsIff(host: Host, m: Machine)
    requires EcallBigint(host, m).0.Proceed?
    ensures OperandsFit(m) && Product(host, m).Some?
    ensures var z, addr := Product(host, m).value, Reg(m, REG_A0);
            HoldsWords(EcallBigint(host, m).1.mem, addr, z) <==> UpperBytesMatch(m.mem, addr, z)
  {
    hide EcallBigint, Product, WriteBytes, OperandsFit, HoldsWords, SameWords, MemBytes, LittleEndian;
    var read := BigintIsStore(host, m);
    var z, addr := Product(host, m).value, Reg(m, REG_A0);
    StoreHoldsIff(read, addr, z);
    if addr as int + 32 <= 0x1_0000_0000 {
      SameWordsMemBytes(m.mem, read, addr, 32);
    }
  }

  // ---------- A product that is lost ----------

  const SIXTEEN: Digest := [16, 0, 0, 0, 0, 0, 0, 0]
  const ZERO: Digest := [0, 0, 0, 0, 0, 0, 0, 0]
  const PRODUCT: Digest := [0x100, 0, 0, 0, 0, 0, 0, 0]

  /** 16 at 0x400 and at 0x420, zeros everywhere else. */
  function Squaring(): Mem {
    BLANK.(pages := map[1 := ZeroPage()[0 := 16][8 := 16]])
  }

  /** A machine about to multiply 16 by 16, with no modulus, into 0x460. */
  function SquaringMachine(): Machine {
    var regs: Registers := seq(32, _ => 0)[REG_A0 := 0x460][REG_A2 := 0x400][REG_A3 := 0x420][REG_A4 := 0x440];
    Machine(Hart(0x800, regs), Squaring(), Io([], 0, [], [], [], 0), map[], [])
  }

  lemma SquaringWord(addr: u32)
    requires 0x400 <= addr < 0x800 && addr % 4 == 0
    ensures LoadValue(Squaring(), Load(addr, Word)) == if addr == 0x400 || addr == 0x420 then 16 else 0
  {
    assert addr / 1024 == 1;
  }

  lemma SquaringOperands()
    ensures Operand(Squaring(), 0x400) == SIXTEEN == Operand(Squaring(), 0x420)
    ensures Operand(Squaring(), 0x440) == ZERO
  {
    hide LoadValue, Squaring;
    forall i | 0 <= i < 8
      ensures Operand(Squaring(), 0x400)[i] == SIXTEEN[i] == Operand(Squaring(), 0x420)[i]
      ensures Operand(Squaring(), 0x440)[i] == ZERO[i]
    {
      SquaringWord(0x400 + 4 * i);
      SquaringWord(0x420 + 4 * i);
      SquaringWord(0x440 + 4 * i);
    }
  }

  /** It completes, and 256 is not in memory afterwards: its one byte that is not zero is not
      the low one. */
  lemma BigintCanLoseBytes(host: Host)
    requires host.modMul(SIXTEEN, SIXTEEN, ZERO) == Some(PRODUCT)
    ensures var (outcome, m') := EcallBigint(host, SquaringMachine());
            outcome.Proceed? && !HoldsWords(m'.mem, 0x460, PRODUCT)
  {
    var m := SquaringMachine();
    SquaringOperands();
    hide EcallBigint, Squaring, Operand, HoldsWords, MemBytes, LittleEndian;
    BigintCompletesIff(host, m);
    BigintHoldsIff(host, m);
    assert !UpperBytesMatch(m.mem, 0x460, PRODUCT) by {
      SecondByte();
      assert MemBytes(m.mem, 0x460, 4 * |PRODUCT|)[1] != LittleEndian(PRODUCT)[1];
    }
  }

  lemma SecondByte()
    ensures MemBytes(Squaring(), 0x460, 32)[1] == 0 && LittleEndian(PRODUCT)[1] == 1
  {
    assert LittleEndian(PRODUCT)[1] == ByteOf(PRODUCT[0], 1);
    assert MemBytes(Squaring(), 0x460, 32)[1] == ByteAt(Squaring(), 0x461);
  }
}
