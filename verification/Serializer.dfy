/**
 The word serializer: values to streams of 32-bit words, in place, and the type-directed
 decoder that inverts it.
 */
module Serializer {
  import opened Words

  // ---------- Values and types ----------

  /** The kinds of integer. Floating-point numbers are serialized as their bits, so they are
      unsigned integers here. */
  datatype IntKind = U8 | U16 | U32 | U64 | U128 | I8 | I16 | I32 | I64 | I128

  /**
   What is serialized. A tuple also stands for structs and unit; an entry of a map is a tuple of
   key and value. `sized` says that the number of elements is announced beforehand.
   */
  datatype Val =
    | VBool(b: bool)
    | VInt(kind: IntKind, n: int)
    | VChar(code: u32)
    | VStr(bytes: seq<byte>)
    | VBytes(bytes: seq<byte>)
    | VNone
    | VSome(value: Val)
    | VSeq(sized: bool, elems: seq<Val>)
    | VMap(sized: bool, entries: seq<Val>)
    | VTuple(fields: seq<Val>)
    | VVariant(index: u32, payload: Val)

  datatype Ty =
    | TBool
    | TInt(kind: IntKind)
    | TChar
    | TStr
    | TBytes
    | TOption(ty: Ty)
    | TSeq(ty: Ty)
    | TMap(key: Ty, value: Ty)
    | TTuple(tys: seq<Ty>)
    | TEnum(variants: seq<Ty>)

  /** The words an integer takes. */
  function WordCount(kind: IntKind): nat {
    match kind
    case U64 => 2
    case I64 => 2
    case U128 => 4
    case I128 => 4
    case _ => 1
  }

  const TWO32: nat := 0x1_0000_0000
  const TWO64: nat := 0x1_0000_0000_0000_0000
  const TWO128: nat := 0x1_0000_0000_0000_0000_0000_0000_0000_0000

  /** The number of values of `k` words. */
  function Modulus(k: nat): nat {
    if k == 1 then TWO32 else if k == 2 then TWO64 else TWO128
  }

  predicate InRange(kind: IntKind, n: int) {
    match kind
    case U8 => 0 <= n < 0x100
    case U16 => 0 <= n < 0x1_0000
    case U32 => 0 <= n < TWO32
    case U64 => 0 <= n < TWO64
    case U128 => 0 <= n < TWO128
    case I8 => -0x80 <= n < 0x80
    case I16 => -0x8000 <= n < 0x8000
    case I32 => -0x8000_0000 <= n < 0x8000_0000
    case I64 => -0x8000_0000_0000_0000 <= n < 0x8000_0000_0000_0000
    case I128 => -0x8000_0000_0000_0000_0000_0000_0000_0000 <= n < 0x8000_0000_0000_0000_0000_0000_0000_0000
  }

  predicate HasType(v: Val, ty: Ty)
    decreases v
  {
    match (v, ty)
    case (VBool(_), TBool) => true
    case (VInt(kind, n), TInt(k)) => kind == k && InRange(kind, n)
    case (VChar(code), TChar) => code < 0x11_0000
    case (VStr(_), TStr) => true
    case (VBytes(_), TBytes) => true
    case (VNone, TOption(_)) => true
    case (VSome(x), TOption(t)) => HasType(x, t)
    case (VSeq(_, elems), TSeq(t)) => forall i | 0 <= i < |elems| :: HasType(elems[i], t)
    case (VMap(_, entries), TMap(k, t)) => forall i | 0 <= i < |entries| :: HasType(entries[i], TTuple([k, t]))
    case (VTuple(fields), TTuple(tys)) =>
      |fields| == |tys| && forall i | 0 <= i < |fields| :: HasType(fields[i], tys[i])
    case (VVariant(index, payload), TEnum(variants)) => index < |variants| && HasType(payload, variants[index])
    case _ => false
  }

  // ---------- Words ----------

  /** `n` in `k` words, least significant first. */
  function Digits(n: nat, k: nat): (words: seq<u32>)
    ensures |words| == k
    decreases k
  {
    if k == 0 then [] else [n % 0x1_0000_0000] + Digits(n / 0x1_0000_0000, k - 1)
  }

  function Undigits(words: seq<u32>): nat {
    if words == [] then 0 else words[0] + 0x1_0000_0000 * Undigits(words[1..])
  }

  /** Bytes in words, four by four, the last word padded with zeros. */
  function PaddedWords(bytes: seq<byte>): (words: seq<u32>)
    ensures |words| == (|bytes| + 3) / 4
    decreases |bytes|
  {
    if bytes == [] then []
    else [Compose(ByteOr0(bytes, 0), ByteOr0(bytes, 1), ByteOr0(bytes, 2), ByteOr0(bytes, 3))]
         + PaddedWords(if |bytes| <= 4 then [] else bytes[4..])
  }

  function ByteOr0(bytes: seq<byte>, i: nat): byte {
    if i < |bytes| then bytes[i] else 0
  }

  // ---------- The encoding ----------

  /** An encoding, or the reason that there is none: an unannounced length is an error, and a
      length of 2^32 or more elements an assertion that does not hold. */
  datatype Encoded = Ok(words: seq<u32>) | NotSupported | LengthPanic

  /** `first`, then `second` unless the first was refused. */
  function Then(first: Encoded, second: Encoded): Encoded {
    if first.Ok? && second.Ok? then Ok(first.words + second.words)
    else if first.Ok? then second else first
  }

  /** The length of a sequence or map. */
  function EncodeLength(sized: bool, count: nat): Encoded {
    if !sized then NotSupported else if count >= 0x1_0000_0000 then LengthPanic else Ok([count])
  }

  /** A string or byte string; its length is truncated to a word. */
  function EncodeBytes(bytes: seq<byte>): (e: Encoded)
    ensures e.Ok?
  {
    Ok([Wrap(|bytes|)] + PaddedWords(bytes))
  }

  function Encode(v: Val): Encoded
    decreases v, 0
  {
    match v
    case VBool(b) => Ok([if b then 1 else 0])
    case VInt(kind, n) => Ok(Digits(n % Modulus(WordCount(kind)), WordCount(kind)))
    case VChar(code) => Ok([code])
    case VStr(bytes) => EncodeBytes(bytes)
    case VBytes(bytes) => EncodeBytes(bytes)
    case VNone => Ok([0])
    case VSome(x) => Then(Ok([1]), Encode(x))
    case VSeq(sized, elems) => Then(EncodeLength(sized, |elems|), EncodeAll(elems))
    case VMap(sized, entries) => Then(EncodeLength(sized, |entries|), EncodeAll(entries))
    case VTuple(fields) => EncodeAll(fields)
    case VVariant(index, payload) => Then(Ok([index]), Encode(payload))
  }

  function EncodeAll(vs: seq<Val>): Encoded
    decreases vs, 1
  {
    if vs == [] then Ok([]) else Then(Encode(vs[0]), EncodeAll(vs[1..]))
  }

  // ---------- The decoder ----------

  datatype ParseResult<+T> = Failure | Success(value: T, rest: seq<u32>)

  /** The integer of `kind` that `n`, the value of its words, stands for. */
  function Signed(kind: IntKind, n: nat): int {
    var m := Modulus(WordCount(kind));
    if (kind == I8 || kind == I16 || kind == I32 || kind == I64 || kind == I128) && 2 * n >= m then n - m else n
  }

  /** The first `count` bytes of padded words. */
  function Unpad(words: seq<u32>, count: nat): (bytes: seq<byte>)
    requires 4 * |words| >= count
    ensures |bytes| == count
  {
    seq<byte>(count, (i: nat) requires i < count => ByteOf(words[i / 4], i % 4))
  }

  function DecodeBytes(words: seq<u32>): ParseResult<seq<byte>> {
    if words == [] then Failure
    else
      var count: nat := words[0];
      var k := (count + 3) / 4;
      if |words| - 1 < k then Failure else Success(Unpad(words[1..1 + k], count), words[1 + k..])
  }

  function Decode(ty: Ty, words: seq<u32>): ParseResult<Val>
    decreases ty, 2, 0
  {
    match ty
    case TBool => if |words| > 0 && words[0] <= 1 then Success(VBool(words[0] == 1), words[1..]) else Failure
    case TInt(kind) =>
      var k := WordCount(kind);
      if |words| < k then Failure
      else
        var n := Signed(kind, Undigits(words[..k]));
        if InRange(kind, n) then Success(VInt(kind, n), words[k..]) else Failure
    case TChar => if |words| > 0 && words[0] < 0x11_0000 then Success(VChar(words[0]), words[1..]) else Failure
    case TStr => (match DecodeBytes(words) case Failure => Failure case Success(b, rest) => Success(VStr(b), rest))
    case TBytes => (match DecodeBytes(words) case Failure => Failure case Success(b, rest) => Success(VBytes(b), rest))
    case TOption(t) =>
      if words == [] || words[0] > 1 then Failure
      else if words[0] == 0 then Success(VNone, words[1..])
      else (match Decode(t, words[1..]) case Failure => Failure case Success(x, rest) => Success(VSome(x), rest))
    case TSeq(t) =>
      if words == [] then Failure
      else
        (match DecodeMany(t, words[0], words[1..])
         case Failure => Failure
         case Success(xs, rest) => Success(VSeq(true, xs), rest))
    case TMap(k, t) =>
      if words == [] then Failure
      else
        (match DecodePairs(k, t, words[0], words[1..])
         case Failure => Failure
         case Success(xs, rest) => Success(VMap(true, xs), rest))
    case TTuple(tys) =>
      (match DecodeEach(tys, words) case Failure => Failure case Success(xs, rest) => Success(VTuple(xs), rest))
    case TEnum(variants) =>
      if words == [] || words[0] >= |variants| then Failure
      else
        var index := words[0];
        (match Decode(variants[index], words[1..])
         case Failure => Failure
         case Success(x, rest) => Success(VVariant(index, x), rest))
  }

  function DecodeMany(ty: Ty, count: nat, words: seq<u32>): ParseResult<seq<Val>>
    decreases ty, 3, count
  {
    if count == 0 then Success([], words)
    else
      match Decode(ty, words)
      case Failure => Failure
      case Success(x, rest) =>
        match DecodeMany(ty, count - 1, rest)
        case Failure => Failure
        case Success(xs, end) => Success([x] + xs, end)
  }

  function DecodePairs(key: Ty, value: Ty, count: nat, words: seq<u32>): ParseResult<seq<Val>>
    decreases TMap(key, value), 1, count
  {
    if count == 0 then Success([], words)
    else
      match Decode(key, words)
      case Failure => Failure
      case Success(k, rest) =>
        match Decode(value, rest)
        case Failure => Failure
        case Success(x, more) =>
          match DecodePairs(key, value, count - 1, more)
          case Failure => Failure
          case Success(xs, end) => Success([VTuple([k, x])] + xs, end)
  }

  function DecodeEach(tys: seq<Ty>, words: seq<u32>): ParseResult<seq<Val>>
    decreases tys, 0, 0
  {
    if tys == [] then Success([], words)
    else
      match Decode(tys[0], words)
      case Failure => Failure
      case Success(x, rest) =>
        match DecodeEach(tys[1..], rest)
        case Failure => Failure
        case Success(xs, end) => Success([x] + xs, end)
  }

  // ---------- Digits and padding ----------

  function Cap(k: nat): nat {
    if k == 0 then 1 else 0x1_0000_0000 * Cap(k - 1)
  }

  lemma {:induction false} UndigitsDigits(n: nat, k: nat)
    requires n < Cap(k)
    ensures Undigits(Digits(n, k)) == n
    decreases k
  {
    if k > 0 {
      UndigitsDigits(n / 0x1_0000_0000, k - 1);
      assert Digits(n, k)[1..] == Digits(n / 0x1_0000_0000, k - 1);
    }
  }

  lemma CapIsModulus(kind: IntKind)
    ensures Cap(WordCount(kind)) == Modulus(WordCount(kind))
  {
    assert Cap(1) == TWO32;
    assert Cap(2) == 0x1_0000_0000 * Cap(1) == TWO64;
    assert Cap(3) == 0x1_0000_0000 * Cap(2);
    assert Cap(4) == 0x1_0000_0000 * Cap(3) == TWO128;
  }

  /** An integer is recovered from its two's complement words. */
  lemma SignedOfWrapped(kind: IntKind, n: int)
    requires InRange(kind, n)
    ensures 0 <= n % Modulus(WordCount(kind)) < Modulus(WordCount(kind))
    ensures Signed(kind, n % Modulus(WordCount(kind))) == n
  {
    WrapNegative(n);
    match WordCount(kind)
    case 1 => assert n % TWO32 == if n >= 0 then n else n + TWO32;
    case 2 => assert n % TWO64 == if n >= 0 then n else n + TWO64;
    case _ => assert n % TWO128 == if n >= 0 then n else n + TWO128;
  }

  lemma WrapNegative(n: int)
    ensures 0 <= n + TWO32 < TWO32 ==> n % TWO32 == n + TWO32
    ensures 0 <= n + TWO64 < TWO64 ==> n % TWO64 == n + TWO64
    ensures 0 <= n + TWO128 < TWO128 ==> n % TWO128 == n + TWO128
  {
  }

  lemma {:induction false} PaddedAt(bytes: seq<byte>, i: nat)
    requires i < |bytes|
    ensures ByteOf(PaddedWords(bytes)[i / 4], i % 4) == bytes[i]
    decreases |bytes|
  {
    if i < 4 {
      WordBytes(ByteOr0(bytes, 0), ByteOr0(bytes, 1), ByteOr0(bytes, 2), ByteOr0(bytes, 3));
    } else {
      PaddedAt(bytes[4..], i - 4);
      assert (i - 4) / 4 == i / 4 - 1 && (i - 4) % 4 == i % 4;
    }
  }

  lemma UnpadPadded(bytes: seq<byte>)
    ensures Unpad(PaddedWords(bytes), |bytes|) == bytes
  {
    forall i | 0 <= i < |bytes| ensures Unpad(PaddedWords(bytes), |bytes|)[i] == bytes[i] {
      PaddedAt(bytes, i);
    }
  }

  // ---------- Decoding inverts encoding ----------

  /** Every string and byte string in `v` is shorter than 2^32 bytes. */
  predicate LengthsFit(v: Val)
    decreases v
  {
    match v
    case VStr(bytes) => |bytes| < 0x1_0000_0000
    case VBytes(bytes) => |bytes| < 0x1_0000_0000
    case VSome(x) => LengthsFit(x)
    case VSeq(_, elems) => forall i | 0 <= i < |elems| :: LengthsFit(elems[i])
    case VMap(_, entries) => forall i | 0 <= i < |entries| :: LengthsFit(entries[i])
    case VTuple(fields) => forall i | 0 <= i < |fields| :: LengthsFit(fields[i])
    case VVariant(_, payload) => LengthsFit(payload)
    case _ => true
  }

  lemma DecodeEncodeBytes(bytes: seq<byte>, rest: seq<u32>)
    requires |bytes| < 0x1_0000_0000
    ensures DecodeBytes(EncodeBytes(bytes).words + rest) == Success(bytes, rest)
  {
    var words := EncodeBytes(bytes).words + rest;
    var k := (|bytes| + 3) / 4;
    assert words[0] == |bytes|;
    assert words[1..1 + k] == PaddedWords(bytes);
    assert words[1 + k..] == rest;
    UnpadPadded(bytes);
  }

  lemma DecodeEncodeInt(kind: IntKind, n: int, rest: seq<u32>)
    requires InRange(kind, n)
    ensures Decode(TInt(kind), Encode(VInt(kind, n)).words + rest) == Success(VInt(kind, n), rest)
  {
    var k := WordCount(kind);
    var words := Encode(VInt(kind, n)).words;
    SignedOfWrapped(kind, n);
    CapIsModulus(kind);
    UndigitsDigits(n % Modulus(k), k);
    assert (words + rest)[..k] == words && (words + rest)[k..] == rest;
  }

  /**
   A type-directed decoder inverts the encoding, whatever follows it in the stream: so encodings
   of values of one type can be laid end to end and told apart.
   */
  lemma {:induction false} DecodeEncode(v: Val, ty: Ty, rest: seq<u32>)
    requires HasType(v, ty) && LengthsFit(v) && Encode(v).Ok?
    ensures Decode(ty, Encode(v).words + rest) == Success(v, rest)
    decreases v, 0
  {
    hide EncodeBytes, DecodeBytes, Digits, Undigits, InRange, Signed, Modulus, DecodeMany, DecodePairs, DecodeEach,
      EncodeAll;
    match v {
      case VSome(x) =>
        DecodeEncode(x, ty.ty, rest);
        TagThen(1, Encode(x).words, rest);
      case VSeq(_, elems) =>
        DecodeManyEncodes(elems, ty.ty, rest);
        TagThen(|elems|, EncodeAll(elems).words, rest);
      case VMap(_, entries) =>
        DecodePairsEncodes(entries, ty.key, ty.value, rest);
        TagThen(|entries|, EncodeAll(entries).words, rest);
      case VTuple(fields) =>
        DecodeEachEncodes(fields, ty.tys, rest);
      case VVariant(index, payload) =>
        DecodeEncode(payload, ty.variants[index], rest);
        TagThen(index, Encode(payload).words, rest);
      case _ =>
        DecodeEncodeLeaf(v, ty, rest);
    }
  }

  /** A leading word comes off the front of the stream. */
  lemma TagThen(tag: u32, words: seq<u32>, rest: seq<u32>)
    ensures var stream := [tag] + words + rest; stream[0] == tag && stream[1..] == words + rest
  {
  }

  lemma DecodeEncodeLeaf(v: Val, ty: Ty, rest: seq<u32>)
    requires v.VBool? || v.VInt? || v.VChar? || v.VStr? || v.VBytes? || v.VNone?
    requires HasType(v, ty) && LengthsFit(v)
    ensures Encode(v).Ok? && Decode(ty, Encode(v).words + rest) == Success(v, rest)
  {
    hide EncodeBytes, DecodeBytes, Digits, Undigits, Signed, Modulus;
    if v.VInt? {
      DecodeEncodeInt(v.kind, v.n, rest);
    } else if v.VStr? || v.VBytes? {
      DecodeEncodeBytes(v.bytes, rest);
    } else {
      assert (Encode(v).words + rest)[1..] == rest;
    }
  }

  lemma EncodeAllHead(vs: seq<Val>, rest: seq<u32>)
    requires vs != [] && EncodeAll(vs).Ok?
    ensures Encode(vs[0]).Ok? && EncodeAll(vs[1..]).Ok?
    ensures EncodeAll(vs).words + rest == Encode(vs[0]).words + (EncodeAll(vs[1..]).words + rest)
  {
    var head, tail := Encode(vs[0]), EncodeAll(vs[1..]);
    assert EncodeAll(vs) == Then(head, tail);
    ThenAppend(head, tail, rest);
  }

  lemma ThenAppend(first: Encoded, second: Encoded, rest: seq<u32>)
    requires Then(first, second).Ok?
    ensures first.Ok? && second.Ok? && Then(first, second).words + rest == first.words + (second.words + rest)
  {
    assert first.words + second.words + rest == first.words + (second.words + rest);
  }

  lemma {:induction false} DecodeManyEncodes(vs: seq<Val>, ty: Ty, rest: seq<u32>)
    requires forall i | 0 <= i < |vs| :: HasType(vs[i], ty) && LengthsFit(vs[i])
    requires EncodeAll(vs).Ok?
    ensures DecodeMany(ty, |vs|, EncodeAll(vs).words + rest) == Success(vs, rest)
    decreases vs, 1
  {
    hide Encode, Decode, HasType, LengthsFit;
    if vs == [] {
      assert [] + rest == rest;
    } else {
      EncodeAllHead(vs, rest);
      DecodeEncode(vs[0], ty, EncodeAll(vs[1..]).words + rest);
      DecodeManyEncodes(vs[1..], ty, rest);
      assert [vs[0]] + vs[1..] == vs;
    }
  }

  lemma {:induction false} DecodePairsEncodes(vs: seq<Val>, key: Ty, value: Ty, rest: seq<u32>)
    requires forall i | 0 <= i < |vs| :: HasType(vs[i], TTuple([key, value])) && LengthsFit(vs[i])
    requires EncodeAll(vs).Ok?
    ensures DecodePairs(key, value, |vs|, EncodeAll(vs).words + rest) == Success(vs, rest)
    decreases vs, 1
  {
    hide Encode, Decode, HasType, LengthsFit;
    if vs == [] {
      assert [] + rest == rest;
    } else {
      EncodeAllHead(vs, rest);
      var tail := EncodeAll(vs[1..]).words + rest;
      var k, x := Unpair(vs[0], key, value);
      hide EncodeAll, DecodePairs;
      assert Encode(vs[0]).words + tail == Encode(k).words + (Encode(x).words + tail);
      DecodeEncode(k, key, Encode(x).words + tail);
      DecodeEncode(x, value, tail);
      DecodePairsEncodes(vs[1..], key, value, rest);
      PairsStep(key, value, |vs|, EncodeAll(vs).words + rest, k, x, Encode(x).words + tail, tail, vs[1..], rest);
      assert [VTuple([k, x])] + vs[1..] == vs;
    }
  }

  /** The key and value of a map entry. */
  lemma Unpair(v: Val, key: Ty, value: Ty) returns (k: Val, x: Val)
    requires HasType(v, TTuple([key, value])) && LengthsFit(v) && Encode(v).Ok?
    ensures v == VTuple([k, x]) && k < v && x < v
    ensures HasType(k, key) && LengthsFit(k) && HasType(x, value) && LengthsFit(x)
    ensures Encode(k).Ok? && Encode(x).Ok? && Encode(v).words == Encode(k).words + Encode(x).words
  {
    k, x := v.fields[0], v.fields[1];
    assert v.fields == [k, x];
    EncodePair(k, x);
  }

  lemma PairsStep(key: Ty, value: Ty, count: nat, words: seq<u32>, k: Val, x: Val,
                  afterKey: seq<u32>, afterValue: seq<u32>, xs: seq<Val>, end: seq<u32>)
    requires count > 0 && Decode(key, words) == Success(k, afterKey) &&
            Decode(value, afterKey) == Success(x, afterValue)
    requires DecodePairs(key, value, count - 1, afterValue) == Success(xs, end)
    ensures DecodePairs(key, value, count, words) == Success([VTuple([k, x])] + xs, end)
  {
    hide Decode;
  }

  /** A key and a value, one after the other. */
  lemma EncodePair(k: Val, x: Val)
    ensures Encode(VTuple([k, x])) == Then(Encode(k), Encode(x))
    ensures Encode(VTuple([k, x])).Ok? ==>
              Encode(k).Ok? && Encode(x).Ok? && Encode(VTuple([k, x])).words == Encode(k).words + Encode(x).words
  {
    assert [k, x][1..] == [x] && [x][1..] == [];
    assert EncodeAll([x]) == Then(Encode(x), Ok([]));
    if Encode(x).Ok? { assert Encode(x).words + [] == Encode(x).words; }
  }

  lemma {:induction false} DecodeEachEncodes(vs: seq<Val>, tys: seq<Ty>, rest: seq<u32>)
    requires |vs| == |tys| && forall i | 0 <= i < |vs| :: HasType(vs[i], tys[i]) && LengthsFit(vs[i])
    requires EncodeAll(vs).Ok?
    ensures DecodeEach(tys, EncodeAll(vs).words + rest) == Success(vs, rest)
    decreases vs, 1
  {
    hide Encode, Decode, HasType, LengthsFit;
    if vs == [] {
      assert [] + rest == rest;
    } else {
      EncodeAllHead(vs, rest);
      DecodeEncode(vs[0], tys[0], EncodeAll(vs[1..]).words + rest);
      DecodeEachEncodes(vs[1..], tys[1..], rest);
      assert [vs[0]] + vs[1..] == vs;
    }
  }

  /** Unique decodability: of one type, no encoding can be mistaken for another, or for the start
      of another, in any stream. */
  lemma UniqueDecoding(a: Val, b: Val, ty: Ty, r: seq<u32>, s: seq<u32>)
    requires HasType(a, ty) && HasType(b, ty) && LengthsFit(a) && LengthsFit(b)
    requires Encode(a).Ok? && Encode(b).Ok? && Encode(a).words + r == Encode(b).words + s
    ensures a == b && r == s
  {
    DecodeEncode(a, ty, r);
    DecodeEncode(b, ty, s);
  }

  // ---------- Where it fails ----------

  lemma DecodedBytesFit(words: seq<u32>)
    ensures DecodeBytes(words).Success? ==> |DecodeBytes(words).value| < 0x1_0000_0000
  {
  }

  /** A decoder never yields a string of 2^32 bytes or more, since it has read its length. */
  lemma {:induction false} DecodedFits(ty: Ty, words: seq<u32>)
    ensures Decode(ty, words).Success? ==> LengthsFit(Decode(ty, words).value)
    decreases ty, 2, 0
  {
    match ty
    case TStr => DecodedBytesFit(words);
    case TBytes => DecodedBytesFit(words);
    case TOption(t) => if words != [] { DecodedFits(t, words[1..]); }
    case TSeq(t) => if words != [] { DecodedManyFit(t, words[0], words[1..]); }
    case TMap(k, t) => if words != [] { DecodedPairsFit(k, t, words[0], words[1..]); }
    case TTuple(tys) => DecodedEachFit(tys, words);
    case TEnum(variants) => if words != [] && words[0] < |variants| { DecodedFits(variants[words[0]], words[1..]); }
    case _ =>
  }

  predicate AllFit(vs: seq<Val>) {
    forall i | 0 <= i < |vs| :: LengthsFit(vs[i])
  }

  lemma {:induction false} DecodedManyFit(ty: Ty, count: nat, words: seq<u32>)
    ensures DecodeMany(ty, count, words).Success? ==> AllFit(DecodeMany(ty, count, words).value)
    decreases ty, 3, count
  {
    if count > 0 {
      DecodedFits(ty, words);
      if Decode(ty, words).Success? { DecodedManyFit(ty, count - 1, Decode(ty, words).rest); }
    }
  }

  lemma {:induction false} DecodedPairsFit(key: Ty, value: Ty, count: nat, words: seq<u32>)
    ensures DecodePairs(key, value, count, words).Success? ==> AllFit(DecodePairs(key, value, count, words).value)
    decreases TMap(key, value), 1, count
  {
    if count > 0 {
      DecodedFits(key, words);
      if Decode(key, words).Success? {
        var rest := Decode(key, words).rest;
        DecodedFits(value, rest);
        if Decode(value, rest).Success? { DecodedPairsFit(key, value, count - 1, Decode(value, rest).rest); }
      }
    }
  }

  lemma {:induction false} DecodedEachFit(tys: seq<Ty>, words: seq<u32>)
    ensures DecodeEach(tys, words).Success? ==> AllFit(DecodeEach(tys, words).value)
    decreases tys, 0, 0
  {
    if tys != [] {
      DecodedFits(tys[0], words);
      if Decode(tys[0], words).Success? { DecodedEachFit(tys[1..], Decode(tys[0], words).rest); }
    }
  }

  /** Exactly when the round trip holds: string lengths are truncated to a word on the way out,
      so a value comes back if and only if no string in it has 2^32 bytes or more. */
  lemma RoundTripIff(v: Val, ty: Ty, rest: seq<u32>)
    requires HasType(v, ty) && Encode(v).Ok?
    ensures Decode(ty, Encode(v).words + rest) == Success(v, rest) <==> LengthsFit(v)
  {
    if LengthsFit(v) { DecodeEncode(v, ty, rest); }
    DecodedFits(ty, Encode(v).words + rest);
  }

  lemma {:induction false} ZerosPadded(bytes: seq<byte>)
    requires forall i | 0 <= i < |bytes| :: bytes[i] == 0
    ensures forall i | 0 <= i < |PaddedWords(bytes)| :: PaddedWords(bytes)[i] == 0
    decreases |bytes|
  {
    if |bytes| > 4 {
      ZerosPadded(bytes[4..]);
    } else {
      assert PaddedWords([]) == [];
    }
  }

  /** And a clash: 2^32 zero bytes are encoded as the empty byte string and zeros behind it. */
  lemma TruncationClash(bytes: seq<byte>)
    requires |bytes| == 0x1_0000_0000 && forall i | 0 <= i < |bytes| :: bytes[i] == 0
    ensures bytes != []
    ensures Encode(VBytes(bytes)).words == Encode(VBytes([])).words + seq(0x4000_0000, _ => 0)
  {
    ZerosPadded(bytes);
    var words := PaddedWords(bytes);
    assert |words| == 0x4000_0000;
    assert words == seq(0x4000_0000, _ => 0);
    assert PaddedWords([]) == [];
  }

  /** Encoding is refused for an unannounced or oversized sequence, wherever it occurs. */
  predicate Encodable(v: Val)
    decreases v
  {
    match v
    case VSome(x) => Encodable(x)
    case VSeq(sized, elems) => sized && |elems| < 0x1_0000_0000 && forall i | 0 <= i < |elems| :: Encodable(elems[i])
    case VMap(sized, entries) =>
      sized && |entries| < 0x1_0000_0000 && forall i | 0 <= i < |entries| :: Encodable(entries[i])
    case VTuple(fields) => forall i | 0 <= i < |fields| :: Encodable(fields[i])
    case VVariant(_, payload) => Encodable(payload)
    case _ => true
  }

  lemma {:induction false} EncodeOkIff(v: Val)
    ensures Encode(v).Ok? <==> Encodable(v)
    decreases v, 0
  {
    match v
    case VSome(x) => EncodeOkIff(x);
    case VSeq(_, elems) => EncodeAllOkIff(elems);
    case VMap(_, entries) => EncodeAllOkIff(entries);
    case VTuple(fields) => EncodeAllOkIff(fields);
    case VVariant(_, payload) => EncodeOkIff(payload);
    case _ =>
  }

  lemma {:induction false} EncodeAllOkIff(vs: seq<Val>)
    ensures EncodeAll(vs).Ok? <==> forall i | 0 <= i < |vs| :: Encodable(vs[i])
    decreases vs, 1
  {
    if vs != [] {
      EncodeOkIff(vs[0]);
      EncodeAllOkIff(vs[1..]);
      assert forall i | 0 <= i < |vs| - 1 :: vs[1..][i] == vs[i + 1];
      assert forall i | 0 < i < |vs| :: vs[i] == vs[1..][i - 1];
    }
  }

  /** Every length in `v` is announced. */
  predicate Announced(v: Val)
    decreases v
  {
    match v
    case VSome(x) => Announced(x)
    case VSeq(sized, elems) => sized && forall i | 0 <= i < |elems| :: Announced(elems[i])
    case VMap(sized, entries) => sized && forall i | 0 <= i < |entries| :: Announced(entries[i])
    case VTuple(fields) => forall i | 0 <= i < |fields| :: Announced(fields[i])
    case VVariant(_, payload) => Announced(payload)
    case _ => true
  }

  /** No sequence or map in `v` has 2^32 elements or more. */
  predicate Countable(v: Val)
    decreases v
  {
    match v
    case VSome(x) => Countable(x)
    case VSeq(_, elems) => |elems| < 0x1_0000_0000 && forall i | 0 <= i < |elems| :: Countable(elems[i])
    case VMap(_, entries) => |entries| < 0x1_0000_0000 && forall i | 0 <= i < |entries| :: Countable(entries[i])
    case VTuple(fields) => forall i | 0 <= i < |fields| :: Countable(fields[i])
    case VVariant(_, payload) => Countable(payload)
    case _ => true
  }

  /** The two ways to refuse: an error only for want of an announced length, an assertion that does
      not hold only for too many elements. */
  lemma {:induction false} RefusalReasons(v: Val)
    ensures Announced(v) ==> StatusOf(Encode(v)) != ErrNotSupported
    ensures Countable(v) ==> StatusOf(Encode(v)) != Panicked
    decreases v, 0
  {
    match v
    case VSome(x) => RefusalReasons(x);
    case VSeq(_, elems) => RefusalReasonsAll(elems);
    case VMap(_, entries) => RefusalReasonsAll(entries);
    case VTuple(fields) => RefusalReasonsAll(fields);
    case VVariant(_, payload) => RefusalReasons(payload);
    case _ =>
  }

  lemma {:induction false} RefusalReasonsAll(vs: seq<Val>)
    ensures (forall i | 0 <= i < |vs| :: Announced(vs[i])) ==> StatusOf(EncodeAll(vs)) != ErrNotSupported
    ensures (forall i | 0 <= i < |vs| :: Countable(vs[i])) ==> StatusOf(EncodeAll(vs)) != Panicked
    decreases vs, 1
  {
    if vs != [] {
      RefusalReasons(vs[0]);
      RefusalReasonsAll(vs[1..]);
      assert forall i | 0 <= i < |vs| - 1 :: vs[1..][i] == vs[i + 1];
    }
  }

  // ---------- The format ----------

  /** The number whose words, least significant first, these are. */
  function FourWords(a: int, b: int, c: int, d: int): int {
    a + 0x1_0000_0000 * (b + 0x1_0000_0000 * (c + 0x1_0000_0000 * d))
  }

  /** Integers are two's complement, in one word up to 32 bits, else least significant word first. */
  lemma IntegerFormat(kind: IntKind, n: int)
    requires InRange(kind, n)
    ensures var words := Encode(VInt(kind, n)).words;
            && (kind in {U8, U16, U32, I8, I16, I32} ==> words == [if n < 0 then n + 0x1_0000_0000 else n])
            && (kind in {U64, I64} ==>
                  && |words| == 2
                  && FourWords(words[0], words[1], 0, 0) == if n < 0 then n + 0x1_0000_0000_0000_0000 else n)
            && (kind in {U128, I128} ==>
                  && |words| == 4
                  && FourWords(words[0], words[1], words[2], words[3])
                     == if n < 0 then n + 0x1_0000_0000_0000_0000_0000_0000_0000_0000 else n)
  {
    SignedOfWrapped(kind, n);
    WrapNegative(n);
    var k, words := WordCount(kind), Encode(VInt(kind, n)).words;
    CapIsModulus(kind);
    UndigitsDigits(n % Modulus(k), k);
    UndigitsByWord(words);
    if k == 1 { OneDigit(n % Modulus(k)); }
  }

  lemma UndigitsByWord(words: seq<u32>)
    ensures |words| == 2 ==> Undigits(words) == FourWords(words[0], words[1], 0, 0)
    ensures |words| == 4 ==> Undigits(words) == FourWords(words[0], words[1], words[2], words[3])
  {
    if |words| == 2 {
      assert Undigits(words[1..][1..]) == 0;
    }
    if |words| == 4 {
      var rest := words[1..];
      assert rest[1..][1..][1..] == [];
      assert Undigits(rest[1..][1..]) == words[3];
    }
  }

  /** Strings are the length in a word, and the bytes four to a word, least significant first, with
      zeros to fill the last. */
  lemma {:induction false} BytesFormat(bytes: seq<byte>, k: nat)
    requires k < 4 * |PaddedWords(bytes)|
    ensures EncodeBytes(bytes).words == [|bytes| % 0x1_0000_0000] + PaddedWords(bytes)
    ensures ByteOf(PaddedWords(bytes)[k / 4], k % 4) == if k < |bytes| then bytes[k] else 0
    decreases |bytes|
  {
    hide ByteOf, Compose;
    if k < 4 {
      WordBytes(ByteOr0(bytes, 0), ByteOr0(bytes, 1), ByteOr0(bytes, 2), ByteOr0(bytes, 3));
    } else {
      assert |bytes| > 4;
      BytesFormat(bytes[4..], k - 4);
      assert (k - 4) / 4 == k / 4 - 1 && (k - 4) % 4 == k % 4;
    }
  }

  // ---------- The serializer in place ----------

  datatype Status = Done | ErrNotSupported | Panicked

  function StatusOf(e: Encoded): Status {
    match e
    case Ok(_) => Done
    case NotSupported => ErrNotSupported
    case LengthPanic => Panicked
  }

  /** Serializing to a vector of words. */
  method ToVec(v: Val) returns (status: Status, words: seq<u32>)
    ensures status == StatusOf(Encode(v))
    ensures status == Done ==> words == Encode(v).words
  {
    var serializer := new Serializer();
    status := serializer.SerializeValue(v);
    words := serializer.stream;
  }

  class Serializer {
    var stream: seq<u32>

    constructor ()
      ensures stream == []
    {
      stream := [];
    }

    method WritePaddedBytes(bytes: seq<byte>)
      modifies this
      ensures stream == old(stream) + PaddedWords(bytes)
    {
      var i := 0;
      assert bytes[0..] == bytes;
      hide PaddedWords, Compose;
      while i + 4 <= |bytes|
        invariant i <= |bytes|
        invariant old(stream) + PaddedWords(bytes) == stream + PaddedWords(bytes[i..])
      {
        PaddedStep(bytes, i);
        var word := Compose(bytes[i], bytes[i + 1], bytes[i + 2], bytes[i + 3]);
        stream := stream + [word];
        i := i + 4;
      }
      var lastWord := bytes[i..];
      PaddedEnd(lastWord);
      if |lastWord| != 0 {
        var lastWordBytes: seq<byte> := [0, 0, 0, 0];
        for k := 0 to |lastWord|
          invariant |lastWordBytes| == 4
          invariant forall j | 0 <= j < 4 :: lastWordBytes[j] == if j < k then lastWord[j] else 0
        {
          lastWordBytes := lastWordBytes[k := lastWord[k]];
        }
        stream := stream + [Compose(lastWordBytes[0], lastWordBytes[1], lastWordBytes[2], lastWordBytes[3])];
      }
    }

    method SerializeU32(v: u32)
      modifies this
      ensures stream == old(stream) + [v]
    {
      stream := stream + [v];
    }

    method SerializeU64(v: nat)
      requires v < TWO64
      modifies this
      ensures stream == old(stream) + Digits(v, 2)
    {
      TwoDigits(v);
      SerializeU32(v % 0x1_0000_0000);
      SerializeU32(v / 0x1_0000_0000 % 0x1_0000_0000);
    }

    method SerializeU128(v: nat)
      requires v < TWO128
      modifies this
      ensures stream == old(stream) + Digits(v, 4)
    {
      BytesOfDigits(v, 4);
      WritePaddedBytes(LeBytes(v, 16));
    }

    /** Integers are widened to 32, 64 or 128 bits, with their sign. */
    method SerializeInt(kind: IntKind, n: int)
      modifies this
      ensures stream == old(stream) + Encode(VInt(kind, n)).words
    {
      var k := WordCount(kind);
      var wide := n % Modulus(k);
      if k == 1 {
        OneDigit(wide);
        SerializeU32(wide);
      } else if k == 2 {
        SerializeU64(wide);
      } else {
        SerializeU128(wide);
      }
    }

    method SerializeBytes(v: seq<byte>)
      modifies this
      ensures stream == old(stream) + EncodeBytes(v).words
    {
      ghost var before := stream;
      SerializeU32(Wrap(|v|));
      WritePaddedBytes(v);
      hide PaddedWords;
      assert before + [Wrap(|v|)] + PaddedWords(v) == before + ([Wrap(|v|)] + PaddedWords(v));
    }

    method SerializeLength(sized: bool, count: nat) returns (status: Status)
      modifies this
      ensures status == StatusOf(EncodeLength(sized, count))
      ensures status == Done ==> stream == old(stream) + EncodeLength(sized, count).words
    {
      if !sized {
        return ErrNotSupported;
      }
      if count >= 0x1_0000_0000 {
        return Panicked;
      }
      SerializeU32(count);
      status := Done;
    }

    /** The calls that a value makes on the serializer. */
    method SerializeValue(v: Val) returns (status: Status)
      modifies this
      ensures status == StatusOf(Encode(v))
      ensures status == Done ==> stream == old(stream) + Encode(v).words
      decreases v, 0
    {
      hide EncodeBytes, EncodeLength, Digits;
      status := Done;
      match v {
        case VBool(b) => SerializeU32(if b then 1 else 0);
        case VInt(kind, n) => SerializeInt(kind, n);
        case VChar(code) => SerializeU32(code);
        case VStr(bytes) => SerializeBytes(bytes);
        case VBytes(bytes) => SerializeBytes(bytes);
        case VNone => SerializeU32(0);
        case VSome(x) =>
          SerializeU32(1);
          status := SerializeValue(x);
        case VSeq(sized, elems) =>
          status := SerializeLength(sized, |elems|);
          if status == Done {
            status := SerializeAll(elems);
          }
        case VMap(sized, entries) =>
          status := SerializeLength(sized, |entries|);
          if status == Done {
            status := SerializeAll(entries);
          }
        case VTuple(fields) => status := SerializeAll(fields);
        case VVariant(index, payload) =>
          SerializeU32(index);
          status := SerializeValue(payload);
      }
    }

    /** One element after the other, up to the first that is refused. */
    method SerializeAll(vs: seq<Val>) returns (status: Status)
      modifies this
      ensures status == StatusOf(EncodeAll(vs))
      ensures status == Done ==> stream == old(stream) + EncodeAll(vs).words
      decreases vs, 1
    {
      hide Encode;
      assert vs[0..] == vs;
      ghost var done: seq<u32> := [];
      for i := 0 to |vs|
        invariant stream == old(stream) + done
        invariant EncodeAll(vs) == Then(Ok(done), EncodeAll(vs[i..]))
      {
        assert vs[i..][1..] == vs[i + 1..];
        ghost var e := Encode(vs[i]);
        status := SerializeValue(vs[i]);
        if status != Done {
          return;
        }
        ThenThen(done, e.words, EncodeAll(vs[i + 1..]));
        done := done + e.words;
      }
      assert EncodeAll(vs[|vs|..]) == Ok([]);
      assert done + [] == done;
      status := Done;
    }
  }

  /** A full chunk is one word. */
  lemma PaddedStep(bytes: seq<byte>, i: nat)
    requires i + 4 <= |bytes|
    ensures forall s: seq<u32> :: s + PaddedWords(bytes[i..]) ==
              s + [Compose(bytes[i], bytes[i + 1], bytes[i + 2], bytes[i + 3])] + PaddedWords(bytes[i + 4..])
  {
    var rest := bytes[i..];
    assert (if |rest| <= 4 then [] else rest[4..]) == bytes[i + 4..];
    var word := Compose(bytes[i], bytes[i + 1], bytes[i + 2], bytes[i + 3]);
    assert PaddedWords(rest) == [word] + PaddedWords(bytes[i + 4..]);
    hide PaddedWords;
    forall s: seq<u32> ensures s + PaddedWords(rest) == s + [word] + PaddedWords(bytes[i + 4..]) {
    }
  }

  /** What is left is at most one word, padded. */
  lemma PaddedEnd(last: seq<byte>)
    requires |last| < 4
    ensures PaddedWords(last) ==
            if last == [] then []
            else [Compose(ByteOr0(last, 0), ByteOr0(last, 1), ByteOr0(last, 2), ByteOr0(last, 3))]
  {
    assert PaddedWords([]) == [];
  }

  lemma ThenThen(a: seq<u32>, b: seq<u32>, e: Encoded)
    ensures Then(Ok(a), Then(Ok(b), e)) == Then(Ok(a + b), e)
  {
    if e.Ok? { assert a + (b + e.words) == a + b + e.words; }
  }

  lemma OneDigit(v: u32)
    ensures Digits(v, 1) == [v]
  {
    assert Digits(0, 0) == [];
  }

  lemma TwoDigits(v: nat)
    requires v < TWO64
    ensures Digits(v, 2) == [v % 0x1_0000_0000, v / 0x1_0000_0000 % 0x1_0000_0000]
  {
    var q := v / 0x1_0000_0000;
    assert Digits(v, 2) == [v % 0x1_0000_0000] + Digits(q, 1);
    assert Digits(q, 1) == [q % 0x1_0000_0000] + Digits(q / 0x1_0000_0000, 0);
  }

  /** The bytes of a number, least significant first. */
  function LeBytes(v: nat, count: nat): (bytes: seq<byte>)
    ensures |bytes| == count
    decreases count
  {
    if count == 0 then [] else [v % 0x100] + LeBytes(v / 0x100, count - 1)
  }

  /** The little-endian bytes of a number, in words, are its words. */
  lemma {:induction false} BytesOfDigits(v: nat, k: nat)
    ensures PaddedWords(LeBytes(v, 4 * k)) == Digits(v, k)
    decreases k
  {
    if k > 0 {
      var v1 := v / 0x100;
      var v2 := v1 / 0x100;
      var v3 := v2 / 0x100;
      var v4 := v3 / 0x100;
      assert v4 == v / 0x1_0000_0000;
      var bytes := LeBytes(v, 4 * k);
      assert LeBytes(v, 4 * k) == [v % 0x100] + LeBytes(v1, 4 * k - 1);
      assert LeBytes(v1, 4 * k - 1) == [v1 % 0x100] + LeBytes(v2, 4 * k - 2);
      assert LeBytes(v2, 4 * k - 2) == [v2 % 0x100] + LeBytes(v3, 4 * k - 3);
      assert LeBytes(v3, 4 * k - 3) == [v3 % 0x100] + LeBytes(v4, 4 * k - 4);
      assert bytes[4..] == LeBytes(v4, 4 * (k - 1));
      LowWord(v);
      BytesOfDigits(v4, k - 1);
      if k == 1 { assert bytes[4..] == []; }
    }
  }

  lemma LowWord(v: nat)
    ensures Compose(v % 0x100, v / 0x100 % 0x100, v / 0x100 / 0x100 % 0x100, v / 0x100 / 0x100 / 0x100 % 0x100)
            == v % 0x1_0000_0000
  {
    var v1 := v / 0x100;
    var v2 := v1 / 0x100;
    var v3 := v2 / 0x100;
    LowByte(v);
    LowByte(v1);
    LowByte(v2);
    LowByte(v3);
    hide Compose;
    FourBytes(v % 0x100, v1 % 0x100, v2 % 0x100, v3 % 0x100, v3 / 0x100);
  }

  lemma FourBytes(b0: byte, b1: byte, b2: byte, b3: byte, rest: nat)
    ensures (b0 + 0x100 * (b1 + 0x100 * (b2 + 0x100 * (b3 + 0x100 * rest)))) % 0x1_0000_0000 == Compose(b0, b1, b2, b3)
  {
    var low := Compose(b0, b1, b2, b3);
    assert b0 + 0x100 * (b1 + 0x100 * (b2 + 0x100 * (b3 + 0x100 * rest))) == low + 0x1_0000_0000 * rest;
  }

  lemma LowByte(v: nat)
    ensures v == v % 0x100 + 0x100 * (v / 0x100)
  {
  }
}
