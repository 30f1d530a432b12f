/**
 * Typed register values and the codec between them and Modbus words.
 *
 * Decoding renders each word as its two big-endian bytes, in the order the
 * words were read, reverses the whole byte string, and reads the result as a
 * little-endian number of the width the tag asks for: the first word is the
 * most significant one. Encoding renders the value's little-endian bytes,
 * reads them two at a time as little-endian words and reverses the word
 * order, which undoes the decoding.
 */
module Types {
  import opened Wrappers
  import opened Register
  import opened Errors

  type u8 = x: int | 0 <= x < 0x100
  type u32 = x: int | 0 <= x < 0x1_0000_0000
  type u64 = x: int | 0 <= x < 0x1_0000_0000_0000_0000
  type u128 = x: int | 0 <= x < 0x1_0000_0000_0000_0000_0000_0000_0000_0000
  type i32 = x: int | -0x8000_0000 <= x < 0x8000_0000

  /** The 66-byte payload of a `Sized` register. */
  type Blob66 = s: seq<u8> | |s| == 66 witness seq(66, i => 0)

  /** The two address spaces of a Modbus device. */
  datatype ModBusRegisters = Input | Holding

  /** A decoded register value; `Float32` is kept as its 32-bit pattern. */
  datatype RegisterValue =
    | U16(val16: u16)
    | U32(val32: u32)
    | U64(val64: u64)
    | U128(val128: u128)
    | S32(sval: i32)
    | Enum16(code: u16)
    | Sized(bytes: Blob66)
    | Float32(bits: u32)
    | Boolean(flag: bool)

  /** The tag a value decodes from. */
  function Tag(v: RegisterValue): DataType
  {
    match v
    case U16(_) => UInt16
    case U32(_) => UInt32
    case U64(_) => UInt64
    case U128(_) => UInt128
    case S32(_) => Int32
    case Enum16(_) => DataType.Enum16
    case Sized(_) => DataType.Sized
    case Float32(_) => DataType.Float32
    case Boolean(_) => DataType.Boolean
  }

  /** The number of bytes a tag stands for. */
  function Width(kind: DataType): nat
  {
    match kind
    case UInt16 => 2
    case UInt32 => 4
    case UInt64 => 8
    case UInt128 => 16
    case Int32 => 4
    case Enum16 => 2
    case Sized => 66
    case Float32 => 4
    case Boolean => 2
  }

  // ---------------------------------------------------------------------
  // Byte-level helpers

  function Reverse<T>(s: seq<T>): (r: seq<T>)
    ensures |r| == |s|
    ensures forall i :: 0 <= i < |s| ==> r[i] == s[|s| - 1 - i]
  {
    seq(|s|, i requires 0 <= i < |s| => s[|s| - 1 - i])
  }

  /** Every word as its big-endian byte pair, in word order. */
  function BeBytes(ws: seq<u16>): (bs: seq<u8>)
    ensures |bs| == 2 * |ws|
  {
    seq(2 * |ws|, j requires 0 <= j < 2 * |ws| =>
      if j % 2 == 0 then ws[j / 2] / 0x100 else ws[j / 2] % 0x100)
  }

  /** The byte string decoding works on: the big-endian bytes, reversed. */
  function WireBytes(ws: seq<u16>): (bs: seq<u8>)
    ensures |bs| == 2 * |ws|
  {
    Reverse(BeBytes(ws))
  }

  /** Split bytes into 2-byte chunks read as little-endian words; an odd tail does not convert. */
  function ChunkWordsLe(bs: seq<u8>): (r: Result<seq<u16>, TryFromSliceError>)
    ensures r.Success? <==> |bs| % 2 == 0
    ensures r.Success? ==> |r.value| == |bs| / 2
    ensures r.Success? ==> forall k :: 0 <= k < |r.value| ==> r.value[k] == (bs[2 * k] as int) + 0x100 * (bs[2 * k + 1] as int)
  {
    if |bs| % 2 != 0 then Failure(TryFromSliceError.TryFromSliceError)
    else
      var ws: seq<u16> := seq(|bs| / 2, k requires 0 <= k < |bs| / 2 => (bs[2 * k] as int) + 0x100 * (bs[2 * k + 1] as int));
      Success(ws)
  }

  function Pow256(n: nat): (p: nat)
    ensures p >= 1
  {
    if n == 0 then 1 else 0x100 * Pow256(n - 1)
  }

  /** A byte string read as a little-endian unsigned number. */
  function FromLe(bs: seq<u8>): (n: nat)
    ensures n < Pow256(|bs|)
  {
    if bs == [] then 0 else bs[0] + 0x100 * FromLe(bs[1..])
  }

  /** The `n` little-endian bytes of `v` (taken modulo 256^n). */
  function LeBytes(v: nat, n: nat): (bs: seq<u8>)
    ensures |bs| == n
  {
    if n == 0 then [] else [v % 0x100] + LeBytes(v / 0x100, n - 1)
  }

  /** A 32-bit pattern read as a two's-complement signed number. */
  function ToI32(u: u32): i32
  {
    if u < 0x8000_0000 then u else u - 0x1_0000_0000
  }

  /** The bitwise NOT of a 16-bit word (`!w` on a `u16`). */
  function BitNot16(w: u16): u16
  {
    0xFFFF - w
  }

  /** Words read as one unsigned number, the first word most significant. */
  function WordsValue(ws: seq<u16>): nat
  {
    if ws == [] then 0 else WordsValue(ws[..|ws| - 1]) * 0x1_0000 + ws[|ws| - 1]
  }

  // ---------------------------------------------------------------------
  // Decode and encode

  /**
   * `TryFrom<(Vec<u16>, DataType)>`: decode the words of one register. The
   * fixed-width tags fail, with the reversed byte string as error, when the
   * bytes do not have the tag's width; UInt16 and Enum16 take the first word
   * and ignore the others; Boolean is true exactly when the first word is
   * 0xFFFF (the code compares the bitwise NOT of the word with zero).
   */
  function Decode(raw: seq<u16>, kind: DataType): (r: Result<RegisterValue, seq<u8>>)
    requires ReadsFirstWord(kind) ==> |raw| >= 1
    ensures !ReadsFirstWord(kind) ==> (r.Success? <==> 2 * |raw| == Width(kind))
    ensures ReadsFirstWord(kind) ==> r.Success?
  {
    var rawB := WireBytes(raw);
    PowersOf256();
    match kind
    case UInt16 => Success(U16(raw[0]))
    case UInt32 => if |rawB| == 4 then Success(U32(FromLe(rawB))) else Failure(rawB)
    case UInt64 => if |rawB| == 8 then Success(U64(FromLe(rawB))) else Failure(rawB)
    case UInt128 => if |rawB| == 16 then Success(U128(FromLe(rawB))) else Failure(rawB)
    case Int32 => if |rawB| == 4 then Success(S32(ToI32(FromLe(rawB)))) else Failure(rawB)
    case Enum16 => Success(RegisterValue.Enum16(raw[0]))
    case Sized => if |rawB| == 66 then Success(RegisterValue.Sized(rawB)) else Failure(rawB)
    case Float32 => if |rawB| == 4 then Success(RegisterValue.Float32(FromLe(rawB))) else Failure(rawB)
    case Boolean => Success(RegisterValue.Boolean(BitNot16(raw[0]) == 0))
  }

  /** The little-endian bytes of a value, before they are cut into words. */
  function EncodeBytes(v: RegisterValue): (bs: seq<u8>)
    ensures |bs| == Width(Tag(v))
  {
    match v
    case U16(x) => LeBytes(x, 2)
    case U32(x) => LeBytes(x, 4)
    case U64(x) => LeBytes(x, 8)
    case U128(x) => LeBytes(x, 16)
    case S32(x) => LeBytes(x % 0x1_0000_0000, 4)
    case Enum16(x) => LeBytes(x, 2)
    case Sized(b) => b
    case Float32(x) => LeBytes(x, 4)
    case Boolean(b) => LeBytes(if b then 1 else 0, 2)
  }

  /**
   * `TryInto<Vec<u16>>`: encode a value as words, the most significant word
   * first. It never fails, and it yields half as many words as the tag has
   * bytes.
   */
  function Encode(v: RegisterValue): (r: Result<seq<u16>, TryFromSliceError>)
    ensures r.Success? && |r.value| == Width(Tag(v)) / 2
  {
    match ChunkWordsLe(EncodeBytes(v))
    case Success(ws) => Success(Reverse(ws))
    case Failure(e) => Failure(e)
  }

  // ---------------------------------------------------------------------
  // Arithmetic and byte-string lemmas

  lemma PowersOf256()
    ensures Pow256(2) == 0x1_0000
    ensures Pow256(4) == 0x1_0000_0000
    ensures Pow256(8) == 0x1_0000_0000_0000_0000
    ensures Pow256(16) == 0x1_0000_0000_0000_0000_0000_0000_0000_0000
  {
  }

  lemma ByteJoin(lo: u8, hi: nat)
    ensures (lo + 0x100 * hi) % 0x100 == lo && (lo + 0x100 * hi) / 0x100 == hi
  {
  }

  lemma BeBytesAt(ws: seq<u16>, i: nat)
    requires i < |ws|
    ensures BeBytes(ws)[2 * i] == ws[i] / 0x100 && BeBytes(ws)[2 * i + 1] == ws[i] % 0x100
  {
  }

  lemma ReverseReverse<T>(s: seq<T>)
    ensures Reverse(Reverse(s)) == s
  {
  }

  /** Cutting the wire bytes of some words back into little-endian chunks gives the words reversed. */
  lemma ChunksOfWire(ws: seq<u16>)
    ensures ChunkWordsLe(WireBytes(ws)) == Success(Reverse(ws))
  {
    var bs := WireBytes(ws);
    var be := BeBytes(ws);
    var m := |ws|;
    var cw := ChunkWordsLe(bs).value;
    forall k | 0 <= k < m
      ensures cw[k] == Reverse(ws)[k]
    {
      WireBytesAt(ws, k);
      ByteJoin(ws[m - 1 - k] % 0x100, ws[m - 1 - k] / 0x100);
    }
    assert cw == Reverse(ws);
  }

  /** Positions `2k` and `2k+1` of the wire bytes hold the little-endian pair of the `k`-th word from the end. */
  lemma WireBytesAt(ws: seq<u16>, k: nat)
    requires k < |ws|
    ensures WireBytes(ws)[2 * k] == ws[|ws| - 1 - k] % 0x100
    ensures WireBytes(ws)[2 * k + 1] == ws[|ws| - 1 - k] / 0x100
  {
    var j := |ws| - 1 - k;
    BeBytesAt(ws, j);
    assert WireBytes(ws)[2 * k] == BeBytes(ws)[2 * j + 1];
    assert WireBytes(ws)[2 * k + 1] == BeBytes(ws)[2 * j];
  }

  lemma ChunkAt(bs: seq<u8>, k: nat)
    requires |bs| % 2 == 0 && 2 * k < |bs|
    ensures k < |ChunkWordsLe(bs).value|
    ensures ChunkWordsLe(bs).value[k] % 0x100 == bs[2 * k]
    ensures ChunkWordsLe(bs).value[k] / 0x100 == bs[2 * k + 1]
  {
    ByteJoin(bs[2 * k], bs[2 * k + 1]);
  }

  /** Chunk `i/2` of `bs`, for even `i`, lands as its big-endian pair at positions `i` and `i+1` of the wire bytes. */
  lemma WireOfChunksAt(bs: seq<u8>, i: nat)
    requires |bs| % 2 == 0 && i % 2 == 0 && i < |bs|
    ensures WireBytes(Reverse(ChunkWordsLe(bs).value))[i] == bs[i]
    ensures WireBytes(Reverse(ChunkWordsLe(bs).value))[i + 1] == bs[i + 1]
  {
    var k := i / 2;
    assert i == 2 * k;
    var cw := ChunkWordsLe(bs).value;
    ChunkAt(bs, k);
    var r := Reverse(cw);
    assert r[|r| - 1 - k] == cw[k];
    WireBytesAt(r, k);
  }

  /** Rendering reversed little-endian chunks as wire bytes gives the original even-length byte string back. */
  lemma WireOfChunks(bs: seq<u8>)
    requires |bs| % 2 == 0
    ensures WireBytes(Reverse(ChunkWordsLe(bs).value)) == bs
  {
    var wire := WireBytes(Reverse(ChunkWordsLe(bs).value));
    forall t | 0 <= t < |bs|
      ensures wire[t] == bs[t]
    {
      if t % 2 == 0 {
        WireOfChunksAt(bs, t);
      } else {
        WireOfChunksAt(bs, t - 1);
      }
    }
  }

  lemma {:induction false} LeBytesFromLe(v: nat, n: nat)
    requires v < Pow256(n)
    ensures FromLe(LeBytes(v, n)) == v
  {
    if n > 0 {
      var rest := LeBytes(v / 0x100, n - 1);
      assert LeBytes(v, n)[1..] == rest;
      LeBytesFromLe(v / 0x100, n - 1);
    }
  }

  lemma {:induction false} FromLeLeBytes(bs: seq<u8>)
    ensures LeBytes(FromLe(bs), |bs|) == bs
  {
    if bs != [] {
      ByteJoin(bs[0], FromLe(bs[1..]));
      FromLeLeBytes(bs[1..]);
    }
  }

  lemma WireOfLastWord(ws: seq<u16>)
    requires |ws| >= 1
    ensures WireBytes(ws) == [ws[|ws| - 1] % 0x100, ws[|ws| - 1] / 0x100] + WireBytes(ws[..|ws| - 1])
  {
    var m := |ws|;
    var init := ws[..m - 1];
    var lhs := WireBytes(ws);
    var rhs := [ws[m - 1] % 0x100, ws[m - 1] / 0x100] + WireBytes(init);
    BeBytesAt(ws, m - 1);
    forall t | 2 <= t < 2 * m
      ensures lhs[t] == rhs[t]
    {
      var j := 2 * m - 1 - t;
      var i := j / 2;
      assert rhs[t] == BeBytes(init)[j];
      BeBytesAt(init, i);
      BeBytesAt(ws, i);
    }
  }

  /** The wire bytes, read little-endian, are the words read most significant word first. */
  lemma {:induction false} WireValue(ws: seq<u16>)
    ensures FromLe(WireBytes(ws)) == WordsValue(ws)
  {
    if ws != [] {
      var m := |ws|;
      var rest := WireBytes(ws[..m - 1]);
      WireOfLastWord(ws);
      var a, b := ws[m - 1] % 0x100, ws[m - 1] / 0x100;
      assert ([a, b] + rest)[1..] == [b] + rest;
      assert ([b] + rest)[1..] == rest;
      WireValue(ws[..m - 1]);
    }
  }

  // ---------------------------------------------------------------------
  // Lemmas


  // ---------------------------------------------------------------------
  // Properties of the codec

  /** A successful decode yields a value of the requested tag. */
  lemma DecodeTag(raw: seq<u16>, kind: DataType)
    requires ReadsFirstWord(kind) ==> |raw| >= 1
    ensures Decode(raw, kind).Success? ==> Tag(Decode(raw, kind).value) == kind
  {
    match kind
    case UInt16 =>
    case UInt32 =>
    case UInt64 =>
    case UInt128 =>
    case Int32 =>
    case Enum16 =>
    case Sized =>
    case Float32 =>
    case Boolean =>
  }

  /** A failed decode carries the words' big-endian bytes in reverse order. */
  lemma DecodeErrorPayload(raw: seq<u16>, kind: DataType)
    requires ReadsFirstWord(kind) ==> |raw| >= 1
    ensures Decode(raw, kind).Failure? ==> Reverse(Decode(raw, kind).error) == BeBytes(raw)
  {
    ReverseReverse(BeBytes(raw));
  }

  /**
   * The unsigned and bit-pattern tags read the words as one number whose
   * first word is the most significant.
   */
  lemma DecodeUnsigned(raw: seq<u16>, kind: DataType)
    requires kind.UInt32? || kind.UInt64? || kind.UInt128? || kind.Float32?
    requires 2 * |raw| == Width(kind)
    ensures Decode(raw, kind).Success?
    ensures kind.UInt32? ==> Decode(raw, kind).value.val32 == WordsValue(raw)
    ensures kind.UInt64? ==> Decode(raw, kind).value.val64 == WordsValue(raw)
    ensures kind.UInt128? ==> Decode(raw, kind).value.val128 == WordsValue(raw)
    ensures kind.Float32? ==> Decode(raw, kind).value.bits == WordsValue(raw)
  {
    WireValue(raw);
  }

  /** Int32 reads the two words as a 32-bit two's-complement number, first word most significant. */
  lemma DecodeSigned(raw: seq<u16>)
    requires |raw| == 2
    ensures Decode(raw, Int32).Success?
    ensures Decode(raw, Int32).value.sval
      == if WordsValue(raw) < 0x8000_0000 then WordsValue(raw) else WordsValue(raw) - 0x1_0000_0000
  {
    WireValue(raw);
  }

  /** UInt16 and Enum16 decode to the first word and ignore the words after it. */
  lemma DecodeFirstWord(raw: seq<u16>, kind: DataType)
    requires kind.UInt16? || kind.Enum16?
    requires |raw| >= 1
    ensures Decode(raw, kind) == Decode(raw[..1], kind)
    ensures kind.UInt16? ==> Decode(raw, kind) == Success(U16(raw[0]))
    ensures kind.Enum16? ==> Decode(raw, kind) == Success(RegisterValue.Enum16(raw[0]))
  {
  }

  /** Boolean decodes to true exactly when the first word is 0xFFFF; further words are ignored. */
  lemma DecodeBoolean(raw: seq<u16>)
    requires |raw| >= 1
    ensures Decode(raw, DataType.Boolean) == Success(RegisterValue.Boolean(raw[0] == 0xFFFF))
  {
  }

  /** Sized decodes 33 words to their 66 big-endian bytes in fully reversed order. */
  lemma DecodeSized(raw: seq<u16>)
    requires |raw| == 33
    ensures Decode(raw, DataType.Sized).Success?
    ensures Reverse(Decode(raw, DataType.Sized).value.bytes) == BeBytes(raw)
  {
    ReverseReverse(BeBytes(raw));
  }

  /** The words an encoding yields render back, as wire bytes, to the value's little-endian bytes. */
  lemma WireOfEncode(v: RegisterValue)
    ensures WireBytes(Encode(v).value) == EncodeBytes(v)
  {
    WireOfChunks(EncodeBytes(v));
  }

  lemma ToI32OfPattern(x: i32)
    ensures ToI32(x % 0x1_0000_0000) == x
  {
  }

  lemma PatternOfToI32(u: u32)
    ensures ToI32(u) % 0x1_0000_0000 == u
  {
  }

  /** A 16-bit value encodes to the single word holding it. */
  lemma EncodeWord(x: u16)
    ensures Encode(U16(x)).value == [x]
    ensures Encode(RegisterValue.Enum16(x)).value == [x]
  {
    var bs := LeBytes(x, 2);
    assert LeBytes(x / 0x100, 1) == [(x / 0x100) % 0x100] + LeBytes(x / 0x0100 / 0x100, 0);
    assert bs == [x % 0x100, (x / 0x100) % 0x100];
    assert (x / 0x100) % 0x100 == x / 0x100;
    var cw := ChunkWordsLe(bs).value;
    assert cw == [x];
    assert Reverse(cw) == [x];
  }

  lemma RoundTripWord(v: RegisterValue)
    requires v.U16? || v.Enum16?
    ensures Decode(Encode(v).value, Tag(v)) == Success(v)
  {
    EncodeWord(if v.U16? then v.val16 else v.code);
  }

  lemma RoundTripUnsigned(v: RegisterValue)
    requires v.U32? || v.U64? || v.U128? || v.Float32?
    ensures Decode(Encode(v).value, Tag(v)) == Success(v)
  {
    match v
    case U32(x) =>
      assert Decode(Encode(v).value, UInt32) == Success(v) by { PowersOf256(); WireOfUnsigned(v, x, 4); }
    case U64(x) =>
      assert Decode(Encode(v).value, UInt64) == Success(v) by { PowersOf256(); WireOfUnsigned(v, x, 8); }
    case U128(x) =>
      assert Decode(Encode(v).value, UInt128) == Success(v) by { PowersOf256(); WireOfUnsigned(v, x, 16); }
    case Float32(x) =>
      assert Decode(Encode(v).value, DataType.Float32) == Success(v) by { PowersOf256(); WireOfUnsigned(v, x, 4); }
  }

  /** The wire bytes of a value encoded as `n` little-endian bytes read back, little-endian, as the value. */
  lemma WireOfUnsigned(v: RegisterValue, x: nat, n: nat)
    requires EncodeBytes(v) == LeBytes(x, n) && x < Pow256(n)
    ensures |WireBytes(Encode(v).value)| == n
    ensures FromLe(WireBytes(Encode(v).value)) == x
  {
    WireOfEncode(v);
    LeBytesFromLe(x, n);
  }

  lemma SignedWire(x: i32)
    ensures FromLe(WireBytes(Encode(S32(x)).value)) == x % 0x1_0000_0000
  {
    var u: u32 := x % 0x1_0000_0000;
    WireOfEncode(S32(x));
    PowersOf256();
    LeBytesFromLe(u, 4);
  }

  lemma DecodeInt32Wire(raw: seq<u16>)
    requires |raw| == 2
    ensures Decode(raw, Int32).Success?
    ensures var u := FromLe(WireBytes(raw));
      Decode(raw, Int32).value == S32(if u < 0x8000_0000 then u else u - 0x1_0000_0000)
  {
  }

  lemma RoundTripSigned(x: i32)
    ensures Decode(Encode(S32(x)).value, Int32) == Success(S32(x))
  {
    SignedWire(x);
    DecodeInt32Wire(Encode(S32(x)).value);
    ToI32OfPattern(x);
  }

  /** Decoding an encoded value gives the value back, for every tag but Boolean. */
  lemma RoundTrip(v: RegisterValue)
    requires !v.Boolean?
    ensures Decode(Encode(v).value, Tag(v)) == Success(v)
  {
    match v
    case U16(_) => RoundTripWord(v);
    case Enum16(_) => RoundTripWord(v);
    case S32(x) => RoundTripSigned(x);
    case Sized(_) => WireOfEncode(v);
    case _ => RoundTripUnsigned(v);
  }

  /** The bytes a decoded value encodes to are the wire bytes it was decoded from. */
  lemma EncodeBytesOfDecode(raw: seq<u16>, kind: DataType)
    requires !kind.Boolean? && 2 * |raw| == Width(kind)
    ensures Decode(raw, kind).Success?
    ensures EncodeBytes(Decode(raw, kind).value) == WireBytes(raw)
  {
    if kind.UInt16? || kind.Enum16? {
      EncodeBytesOfWord(raw, kind);
    } else {
      var rawB := WireBytes(raw);
      FromLeLeBytes(rawB);
      if kind.Int32? {
        PatternOfToI32(FromLe(rawB));
      }
    }
  }

  /** The one-word case: UInt16 and Enum16 encode the word they decoded to its wire bytes. */
  lemma EncodeBytesOfWord(raw: seq<u16>, kind: DataType)
    requires (kind.UInt16? || kind.Enum16?) && |raw| == 1
    ensures Decode(raw, kind).Success?
    ensures EncodeBytes(Decode(raw, kind).value) == WireBytes(raw)
  {
    FromLeLeBytes(WireBytes(raw));
    WireValue(raw);
    assert raw[..0] == [];
  }

  /**
   * Encoding a decoded value gives the words back, for every tag but Boolean,
   * whenever the words have the tag's width.
   */
  lemma EncodeAfterDecode(raw: seq<u16>, kind: DataType)
    requires !kind.Boolean? && 2 * |raw| == Width(kind)
    ensures Decode(raw, kind).Success?
    ensures Encode(Decode(raw, kind).value) == Success(raw)
  {
    EncodeBytesOfDecode(raw, kind);
    ChunksOfWire(raw);
    ReverseReverse(raw);
  }

  /** Boolean encodes true as the word 1 and false as the word 0. */
  lemma BooleanEncoding(b: bool)
    ensures Encode(RegisterValue.Boolean(b)) == Success([if b then 1 else 0])
  {
    var w := if b then 1 else 0;
    var bs := EncodeBytes(RegisterValue.Boolean(b));
    assert bs == [w as u8, 0];
    var cw := ChunkWordsLe(bs).value;
    assert cw == [w];
    assert Reverse(cw) == [w];
  }

  /** Boolean does not round-trip: whatever is encoded decodes to false. */
  lemma BooleanDoesNotRoundTrip(b: bool)
    ensures Decode(Encode(RegisterValue.Boolean(b)).value, DataType.Boolean) == Success(RegisterValue.Boolean(false))
  {
    BooleanEncoding(b);
  }

  /**
   * The decoding the Boolean encoding calls for: a Boolean is true exactly
   * when its first word is not zero, so that the words 1 and 0 the encoder
   * writes read back as true and false. Every other tag decodes as `Decode`.
   */
  function DecodeIntended(raw: seq<u16>, kind: DataType): Result<RegisterValue, seq<u8>>
    requires ReadsFirstWord(kind) ==> |raw| >= 1
  {
    if kind.Boolean? then Success(RegisterValue.Boolean(raw[0] != 0)) else Decode(raw, kind)
  }

  /** With the intended Boolean decoding, every value, Booleans included, decodes back to itself after encoding. */
  lemma RoundTripIntended(v: RegisterValue)
    ensures DecodeIntended(Encode(v).value, Tag(v)) == Success(v)
  {
    if v.Boolean? {
      BooleanEncoding(v.flag);
    } else {
      RoundTrip(v);
    }
  }

  /** The intended decoding differs from `Decode` only on Boolean words other than 0 and 0xFFFF, which it reads as true. */
  lemma DecodeIntendedAgrees(raw: seq<u16>, kind: DataType)
    requires ReadsFirstWord(kind) ==> |raw| >= 1
    ensures DecodeIntended(raw, kind) == Decode(raw, kind) <==> !(kind.Boolean? && raw[0] != 0 && raw[0] != 0xFFFF)
  {
    if kind.Boolean? {
      DecodeBoolean(raw);
    }
  }

  /** The test vector: words [0x0001, 0x0002] decode as UInt32 to 0x00010002. */
  lemma DecodeExample()
    ensures Decode([0x0001, 0x0002], UInt32) == Success(U32(0x0001_0002))
  {
    DecodeUnsigned([0x0001, 0x0002], UInt32);
    assert [0x0001, 0x0002][..1] == [0x0001];
    assert [0x0001][..0] == [];
  }
}
