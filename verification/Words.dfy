/** Machine words, bytes and the little-endian view that ties them together. */
module Words {

  datatype Option<+T> = None | Some(value: T)

  /** A word of the host, as wide as its `usize`. */
  type u64 = x: int | 0 <= x < 0x1_0000_0000_0000_0000

  type u32 = x: int | 0 <= x < 0x1_0000_0000
  type byte = x: int | 0 <= x < 0x100

  function Min(a: nat, b: nat): nat {
    if a <= b then a else b
  }

  /** `n` rounded up to a multiple of four. */
  function AlignUp(n: nat): (r: nat)
    ensures n <= r < n + 4 && r % 4 == 0
  {
    (n + 3) / 4 * 4
  }

  /** No element occurs twice. */
  ghost predicate Distinct<T>(s: seq<T>) {
    forall i, j | 0 <= i < j < |s| :: s[i] != s[j]
  }

  /** Address arithmetic as the release profile performs it. */
  function Wrap(x: int): u32 {
    x % 0x1_0000_0000
  }

  /** Byte `k` of a word, counted from the least significant end. */
  function ByteOf(w: u32, k: nat): byte
    requires k < 4
  {
    if k == 0 then w % 0x100
    else if k == 1 then w / 0x100 % 0x100
    else if k == 2 then w / 0x1_0000 % 0x100
    else w / 0x100_0000
  }

  function Compose(b0: byte, b1: byte, b2: byte, b3: byte): u32 {
    b0 + 0x100 * b1 + 0x1_0000 * b2 + 0x100_0000 * b3
  }

  /** `w` with byte `k` replaced: the mask-and-or of a byte store. */
  function PutByte(w: u32, k: nat, b: byte): u32
    requires k < 4
  {
    if k == 0 then Compose(b, ByteOf(w, 1), ByteOf(w, 2), ByteOf(w, 3))
    else if k == 1 then Compose(ByteOf(w, 0), b, ByteOf(w, 2), ByteOf(w, 3))
    else if k == 2 then Compose(ByteOf(w, 0), ByteOf(w, 1), b, ByteOf(w, 3))
    else Compose(ByteOf(w, 0), ByteOf(w, 1), ByteOf(w, 2), b)
  }

  lemma WordBytes(b0: byte, b1: byte, b2: byte, b3: byte)
    ensures ByteOf(Compose(b0, b1, b2, b3), 0) == b0
    ensures ByteOf(Compose(b0, b1, b2, b3), 1) == b1
    ensures ByteOf(Compose(b0, b1, b2, b3), 2) == b2
    ensures ByteOf(Compose(b0, b1, b2, b3), 3) == b3
  {
    var w := Compose(b0, b1, b2, b3);
    assert w / 0x100 == b1 + 0x100 * b2 + 0x1_0000 * b3;
    assert w / 0x1_0000 == b2 + 0x100 * b3;
    assert w / 0x100_0000 == b3;
  }

  lemma BytesWord(w: u32)
    ensures Compose(ByteOf(w, 0), ByteOf(w, 1), ByteOf(w, 2), ByteOf(w, 3)) == w
  {
    var q := w / 0x100;
    var r := q / 0x100;
    assert w / 0x1_0000 == r && w / 0x100_0000 == r / 0x100;
    assert w == 0x100 * q + w % 0x100 && q == 0x100 * r + q % 0x100;
  }

  /** A byte store changes its own byte of the word and no other. */
  lemma PutByteAt(w: u32, k: nat, b: byte, j: nat)
    requires k < 4 && j < 4
    ensures ByteOf(PutByte(w, k, b), j) == if j == k then b else ByteOf(w, j)
  {
    var b0, b1, b2, b3 := ByteOf(w, 0), ByteOf(w, 1), ByteOf(w, 2), ByteOf(w, 3);
    if k == 0 { WordBytes(b, b1, b2, b3); }
    else if k == 1 { WordBytes(b0, b, b2, b3); }
    else if k == 2 { WordBytes(b0, b1, b, b3); }
    else { WordBytes(b0, b1, b2, b); }
  }
}
