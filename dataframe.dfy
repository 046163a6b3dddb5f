/*
 * The WebSocket data frame of section 5.2 of RFC 6455 as the server's
 * DataFrame class handles it: decoding of the two-byte base header,
 * unmasking (section 5.3), accumulation of payload chunks, and serialisation
 * of outbound frames.
 *
 * The class keeps the source's quirks: the extended-length markers 126 and
 * 127 only move the payload offset (the extended length itself is never
 * read, so 126 or 127 bytes are taken), and ToBytes writes only the low
 * seven bits of the payload length.
 */
module Frames {
  import opened Prelude
  import Utf8

  datatype DataState = Empty | Receiving | Complete

  /**
   * Every field of a DataFrame object. `payload` is None while the Payload
   * property is null; a null raw frame and an empty one behave alike
   * (Length 0, ToString ""), so both are the empty sequence.
   */
  datatype FrameView = FrameView(
    isFinished: bool, isMasked: bool,
    reserved1: bool, reserved2: bool, reserved3: bool,
    opcode: int, offsetBytes: int,
    payload: Option<string>, rawFrame: seq<byte>, state: DataState)

  /** What every code path of the class keeps true of a frame. */
  predicate WellFormed(v: FrameView)
  {
    0 <= v.opcode < 16 && v.offsetBytes in {2, 4, 6, 8, 10, 14}
  }

  /** The fields SetDefaults assigns: a final, unmasked text frame with a two-byte header. */
  function WithDefaults(v: FrameView): FrameView
  {
    v.(isFinished := true, reserved1 := false, reserved2 := false, reserved3 := false,
       opcode := 1, isMasked := false, offsetBytes := 2)
  }

  /** A frame made by `new DataFrame()`: defaults set, Payload still null, state Empty. */
  const NewFrame: FrameView := WithDefaults(FrameView(false, false, false, false, false, 0, 0, None, [], Empty))

  /** Getters of the Payload-derived properties; the source throws on a null Payload. */
  function PayloadBytes(v: FrameView): seq<byte>
    requires v.payload.Some?
  {
    Utf8.Encode(v.payload.value)
  }

  function PayloadLength(v: FrameView): nat
    requires v.payload.Some?
  {
    |PayloadBytes(v)|
  }

  function TotalLength(v: FrameView): int
    requires v.payload.Some?
  {
    v.offsetBytes + PayloadLength(v)
  }

  function TotalLengthBits(v: FrameView): int
    requires v.payload.Some?
  {
    TotalLength(v) * 8
  }

  /** The Length property: how many payload bytes have accumulated. */
  function Length(v: FrameView): nat
  {
    |v.rawFrame|
  }

  /** ToString(): the accumulated payload as text. */
  function Text(v: FrameView): string
  {
    Utf8.Decode(v.rawFrame)
  }

  // ---------------------------------------------------------------------
  // The base header

  /** The fields of the two-byte base header (FIN, RSV1-3, opcode, MASK, 7-bit length). */
  datatype BaseHeader = BaseHeader(fin: bool, rsv1: bool, rsv2: bool, rsv3: bool, opcode: int, mask: bool, length: int)

  predicate HeaderInRange(h: BaseHeader)
  {
    0 <= h.opcode < 16 && 0 <= h.length < 128
  }

  /** The header as Append reads it: bits 7..4 and the low nibble of byte 0, bit 7 and the low seven bits of byte 1. */
  function DecodeHeader(b0: byte, b1: byte): BaseHeader
  {
    BaseHeader(b0 >= 128, (b0 / 64) % 2 == 1, (b0 / 32) % 2 == 1, (b0 / 16) % 2 == 1, b0 % 16, b1 >= 128, b1 % 128)
  }

  function EncodeByte0(fin: bool, rsv1: bool, rsv2: bool, rsv3: bool, opcode: int): byte
  {
    (if fin then 128 else 0) + (if rsv1 then 64 else 0) + (if rsv2 then 32 else 0) + (if rsv3 then 16 else 0) + opcode % 16
  }

  function EncodeByte1(mask: bool, length: int): byte
  {
    (if mask then 128 else 0) + length % 128
  }

  /** A byte is the sum of its top four bits and its low nibble. */
  lemma ByteParts(b: byte)
    ensures b == 128 * (b / 128) + 64 * ((b / 64) % 2) + 32 * ((b / 32) % 2) + 16 * ((b / 16) % 2) + b % 16
  {
    var q := b / 16;
    assert b == 16 * q + b % 16;
    assert b / 32 == q / 2;
    assert b / 64 == q / 4;
    assert b / 128 == q / 8;
    assert q / 4 == 2 * (q / 8) + (q / 4) % 2;
    assert q / 2 == 2 * (q / 4) + (q / 2) % 2;
    assert q == 2 * (q / 2) + q % 2;
  }

  /** Decoding recovers every field of an in-range header. */
  lemma DecodeEncodeHeader(h: BaseHeader)
    requires HeaderInRange(h)
    ensures DecodeHeader(EncodeByte0(h.fin, h.rsv1, h.rsv2, h.rsv3, h.opcode), EncodeByte1(h.mask, h.length)) == h
  {
    var b0 := EncodeByte0(h.fin, h.rsv1, h.rsv2, h.rsv3, h.opcode);
    var f, r1, r2, r3 := if h.fin then 1 else 0, if h.rsv1 then 1 else 0, if h.rsv2 then 1 else 0, if h.rsv3 then 1 else 0;
    assert b0 == 128 * f + 64 * r1 + 32 * r2 + 16 * r3 + h.opcode;
    assert b0 / 16 == 8 * f + 4 * r1 + 2 * r2 + r3;
    assert b0 / 32 == 4 * f + 2 * r1 + r2;
    assert b0 / 64 == 2 * f + r1;
  }

  /** Encoding the decoded header gives back the two bytes: the two maps are inverse. */
  lemma EncodeDecodeHeader(b0: byte, b1: byte)
    ensures var h := DecodeHeader(b0, b1);
      HeaderInRange(h) && EncodeByte0(h.fin, h.rsv1, h.rsv2, h.rsv3, h.opcode) == b0 && EncodeByte1(h.mask, h.length) == b1
  {
    ByteParts(b0);
    assert b0 >= 128 <==> b0 / 128 == 1;
  }

  /** Where the payload starts for a given length field and mask bit (2, +2 for 126, +8 for 127, +4 if masked). */
  function PayloadOffset(lengthField: int, masked: bool): int
  {
    2 + (if lengthField == 126 then 2 else if lengthField == 127 then 8 else 0) + (if masked then 4 else 0)
  }

  // ---------------------------------------------------------------------
  // Masking

  /** `out[i] = in[i] XOR key[i mod 4]`. */
  function Unmask(p: seq<byte>, key: seq<byte>): (r: seq<byte>)
    requires |key| == 4
  {
    seq(|p|, i requires 0 <= i < |p| => Xor(p[i], key[i % 4]))
  }

  /** Masking is its own inverse: applying the same key twice gives the input back. */
  lemma UnmaskTwice(p: seq<byte>, key: seq<byte>)
    requires |key| == 4
    ensures Unmask(Unmask(p, key), key) == p
  {
    var u := Unmask(p, key);
    forall i | 0 <= i < |p|
      ensures Unmask(u, key)[i] == p[i]
    {
      XorTwice(p[i], key[i % 4]);
    }
  }

  /** An all-zero key leaves the payload as it is. */
  lemma UnmaskZeroKey(p: seq<byte>)
    ensures Unmask(p, [0, 0, 0, 0]) == p
  {
    forall i | 0 <= i < |p|
      ensures Unmask(p, [0, 0, 0, 0])[i] == p[i]
    {
      XorZero(p[i]);
    }
  }

  // ---------------------------------------------------------------------
  // Append

  /** The frame after Append and whether Append returned normally (false: it threw midway). */
  datatype Appended = Appended(frame: FrameView, ok: bool)

  /**
   * Append(data, receivedByteCount). The whole array `data` is read; the
   * count only decides whether anything happens. Fields assigned before an
   * index error stay assigned, as in the source.
   */
  function AppendSpec(v: FrameView, data: seq<byte>, count: int): Appended
  {
    if count <= 0 then Appended(v, true)
    else if |data| == 0 then Appended(v, false)
    else
      var v1 := WithFlags(v, data[0]);
      if |data| == 1 then Appended(v1, false)
      else ReadFrame(v1, data)
  }

  /** The first assignments of Append: FIN and RSV1-3 from byte 0. */
  function WithFlags(v: FrameView, b0: byte): FrameView
  {
    var h := DecodeHeader(b0, 0);
    v.(isFinished := h.fin, reserved1 := h.rsv1, reserved2 := h.rsv2, reserved3 := h.rsv3)
  }

  /** The rest of Append once both header bytes are present. */
  function ReadFrame(v: FrameView, data: seq<byte>): Appended
    requires |data| >= 2
  {
    var h := DecodeHeader(data[0], data[1]);
    var start := PayloadOffset(h.length, false);
    var v2 := v.(isMasked := h.mask, opcode := h.opcode,
                 state := if v.isFinished then Complete else Receiving, offsetBytes := start);
    if h.mask && start + 4 > |data| then Appended(v2, false)
    else
      TakePayload(v2.(offsetBytes := PayloadOffset(h.length, h.mask)), data,
                  if h.mask then Some(data[start..start + 4]) else None)
  }

  /** The last step of Append: length-field bytes from OffsetBytes, unmasked when there is a key. */
  function TakePayload(v: FrameView, data: seq<byte>, key: Option<seq<byte>>): Appended
    requires |data| >= 2 && v.offsetBytes >= 0
    requires key.Some? ==> |key.value| == 4
  {
    var length := data[1] % 128;
    if v.offsetBytes + length > |data| then Appended(v, false)
    else
      var chunk := data[v.offsetBytes..v.offsetBytes + length];
      var p := if key.Some? then Unmask(chunk, key.value) else chunk;
      Appended(v.(payload := Some(Utf8.Decode(p)), rawFrame := v.rawFrame + p), true)
  }

  /** A receivedByteCount of zero or less changes nothing. */
  lemma AppendIgnoresEmpty(v: FrameView, data: seq<byte>, count: int)
    requires count <= 0
    ensures AppendSpec(v, data, count) == Appended(v, true)
  {
  }

  /**
   * With at least two bytes, the header fields come from the base header
   * and the state is Complete exactly when FIN is set.
   */
  lemma AppendDecodesHeader(v: FrameView, data: seq<byte>, count: int)
    requires count > 0 && |data| >= 2
    ensures var f := AppendSpec(v, data, count).frame;
      f.isFinished == (data[0] >= 128) && f.reserved1 == ((data[0] / 64) % 2 == 1) &&
      f.reserved2 == ((data[0] / 32) % 2 == 1) && f.reserved3 == ((data[0] / 16) % 2 == 1) &&
      f.opcode == data[0] % 16 && f.isMasked == (data[1] >= 128) &&
      (f.state == Complete <==> f.isFinished) && (f.state != Complete ==> f.state == Receiving)
  {
  }

  /**
   * A successful Append took exactly length-field bytes from the payload
   * offset, unmasked them with the four bytes before them, appended them to
   * the raw frame and made them the (latest) payload. Lengths 126 and 127
   * are used literally.
   */
  lemma AppendPayload(v: FrameView, data: seq<byte>, count: int)
    requires count > 0
    requires AppendSpec(v, data, count).ok
    ensures |data| >= 2
    ensures var f := AppendSpec(v, data, count).frame;
      var len := data[1] % 128;
      var masked := data[1] >= 128;
      f.offsetBytes == PayloadOffset(len, masked) && f.offsetBytes + len <= |data| &&
      var chunk := data[f.offsetBytes..f.offsetBytes + len];
      var p := if masked then Unmask(chunk, data[f.offsetBytes - 4..f.offsetBytes]) else chunk;
      f.rawFrame == v.rawFrame + p && f.payload == Some(Utf8.Decode(p)) &&
      Length(f) == Length(v) + len
  {
    var v1 := WithFlags(v, data[0]);
    assert AppendSpec(v, data, count) == ReadFrame(v1, data);
    ReadFramePayload(v1, data);
  }

  lemma ReadFramePayload(v: FrameView, data: seq<byte>)
    requires |data| >= 2 && ReadFrame(v, data).ok
    ensures var f := ReadFrame(v, data).frame;
      var len := data[1] % 128;
      var masked := data[1] >= 128;
      f.offsetBytes == PayloadOffset(len, masked) && f.offsetBytes + len <= |data| &&
      var chunk := data[f.offsetBytes..f.offsetBytes + len];
      var p := if masked then Unmask(chunk, data[f.offsetBytes - 4..f.offsetBytes]) else chunk;
      f.rawFrame == v.rawFrame + p && f.payload == Some(Utf8.Decode(p))
  {
    var h := DecodeHeader(data[0], data[1]);
    assert h.length == data[1] % 128 && h.mask == (data[1] >= 128);
  }

  /** Append only fails when the array is too short for the header, the key or the payload. */
  lemma AppendFailsOnlyWhenShort(v: FrameView, data: seq<byte>, count: int)
    requires !AppendSpec(v, data, count).ok
    ensures count > 0
    ensures |data| < 2 || PayloadOffset(data[1] % 128, data[1] >= 128) + data[1] % 128 > |data|
  {
  }

  /** The largest offset plus length is 14 + 127: a 512-byte receive buffer never makes Append throw. */
  lemma {:induction false} AppendNeverFailsOnLongBuffer(v: FrameView, data: seq<byte>, count: int)
    requires |data| >= 141
    ensures AppendSpec(v, data, count).ok
  {
    if count > 0 {
      var len := data[1] % 128;
      assert PayloadOffset(len, data[1] >= 128) <= 14;
    }
  }

  /** Append keeps a well-formed frame well formed, whatever the data. */
  lemma AppendKeepsWellFormed(v: FrameView, data: seq<byte>, count: int)
    requires WellFormed(v)
    ensures WellFormed(AppendSpec(v, data, count).frame)
  {
  }

  // ---------------------------------------------------------------------
  // Bits, as the source handles them with BitArray

  /** Bit `j` of `n`, least significant first (the order of `new BitArray(bytes)`). */
  function Bit(n: nat, j: nat): bool
  {
    if j == 0 then n % 2 == 1 else Bit(n / 2, j - 1)
  }

  function BitsOf(n: nat, k: nat): (r: seq<bool>)
    ensures |r| == k && forall j :: 0 <= j < k ==> r[j] == Bit(n, j)
  {
    seq(k, j requires 0 <= j => Bit(n, j))
  }

  /** `n` shifted right by `k` bits. */
  function Shr(n: nat, k: nat): nat
  {
    if k == 0 then n else Shr(n / 2, k - 1)
  }

  /** The number whose bits, least significant first, are `s`. */
  function FromBits(s: seq<bool>): nat
  {
    if s == [] then 0 else (if s[0] then 1 else 0) + 2 * FromBits(s[1..])
  }

  lemma {:induction false} FromBitsBound(s: seq<bool>)
    ensures FromBits(s) < Pow2(|s|)
  {
    if s != [] {
      FromBitsBound(s[1..]);
    }
  }

  /** The low `k` bits of `n` and the bits above them make up `n`. */
  lemma {:induction false} FromBitsOf(n: nat, k: nat)
    ensures n == FromBits(BitsOf(n, k)) + Pow2(k) * Shr(n, k)
  {
    if k > 0 {
      var s := BitsOf(n, k);
      assert s[1..] == BitsOf(n / 2, k - 1);
      FromBitsOf(n / 2, k - 1);
      assert 2 * (Pow2(k - 1) * Shr(n / 2, k - 1)) == Pow2(k) * Shr(n, k);
    }
  }

  lemma {:induction false} ShrSmall(n: nat, k: nat)
    requires n < Pow2(k)
    ensures Shr(n, k) == 0
  {
    if k > 0 {
      ShrSmall(n / 2, k - 1);
    }
  }

  /** Splitting a byte into eight bits and packing them again gives the byte back. */
  lemma BitsOfByte(n: nat)
    requires n < 256
    ensures FromBits(BitsOf(n, 8)) == n
  {
    FromBitsOf(n, 8);
    assert Pow2(8) == 256;
    ShrSmall(n, 8);
  }

  /** Packing bits into a number and splitting it again gives the bits back. */
  lemma {:induction false} FromBitsBits(s: seq<bool>)
    ensures BitsOf(FromBits(s), |s|) == s
  {
    if s != [] {
      var n := FromBits(s);
      assert n / 2 == FromBits(s[1..]) && Bit(n, 0) == s[0];
      FromBitsBits(s[1..]);
      var r := BitsOf(n, |s|);
      assert r[1..] == BitsOf(n / 2, |s| - 1);
      assert r == [r[0]] + r[1..];
    }
  }

  lemma {:induction false} FromBitsAppend(s: seq<bool>, t: seq<bool>)
    ensures FromBits(s + t) == FromBits(s) + Pow2(|s|) * FromBits(t)
  {
    if s != [] {
      var h := if s[0] then 1 else 0;
      assert (s + t)[0] == s[0] && (s + t)[1..] == s[1..] + t;
      FromBitsAppend(s[1..], t);
      Regroup(h, FromBits(s[1..]), Pow2(|s| - 1), FromBits(t));
    } else {
      assert s + t == t;
    }
  }

  lemma Regroup(h: nat, a: nat, p: nat, b: nat)
    ensures h + 2 * (a + p * b) == (h + 2 * a) + (2 * p) * b
  {
  }

  lemma {:induction false} FromBitsZero(s: seq<bool>)
    requires forall i :: 0 <= i < |s| ==> !s[i]
    ensures FromBits(s) == 0
  {
    if s != [] {
      FromBitsZero(s[1..]);
    }
  }

  /** A byte from eight bits. */
  function ByteOfBits(s: seq<bool>): byte
    requires |s| == 8
  {
    FromBitsBound(s);
    assert Pow2(8) == 256;
    FromBits(s)
  }

  /** Byte 0 as ToBytes packs it: four opcode bits, then RSV3, RSV2, RSV1, FIN. */
  lemma PackByte0(opcode: nat, fin: bool, rsv1: bool, rsv2: bool, rsv3: bool)
    requires opcode < 16
    ensures ByteOfBits(BitsOf(opcode, 4) + [rsv3, rsv2, rsv1, fin]) == EncodeByte0(fin, rsv1, rsv2, rsv3, opcode)
  {
    var flags := [rsv3, rsv2, rsv1, fin];
    FromBitsAppend(BitsOf(opcode, 4), flags);
    FromBitsOf(opcode, 4);
    assert Pow2(4) == 16;
    ShrSmall(opcode, 4);
    assert flags[1..] == [rsv2, rsv1, fin];
    assert flags[1..][1..] == [rsv1, fin];
    assert flags[1..][1..][1..] == [fin];
    assert flags[1..][1..][1..][1..] == [];
    assert FromBits([fin]) == if fin then 1 else 0;
    assert FromBits([rsv1, fin]) == (if rsv1 then 1 else 0) + 2 * FromBits([fin]);
    assert FromBits([rsv2, rsv1, fin]) == (if rsv2 then 1 else 0) + 2 * FromBits([rsv1, fin]);
    assert FromBits(flags) == (if rsv3 then 1 else 0) + 2 * FromBits([rsv2, rsv1, fin]);
  }

  /** Byte 1 as ToBytes packs it: the low seven length bits, then MASK. */
  lemma PackByte1(length: nat, mask: bool)
    ensures ByteOfBits(BitsOf(length, 7) + [mask]) == EncodeByte1(mask, length)
  {
    var bits := BitsOf(length, 7);
    FromBitsAppend(bits, [mask]);
    FromBitsOf(length, 7);
    FromBitsBound(bits);
    assert Pow2(7) == 128;
    assert [mask][1..] == [];
    assert FromBits([mask]) == if mask then 1 else 0;
    LowPart(length, FromBits(bits), Shr(length, 7));
  }

  lemma LowPart(n: nat, low: nat, high: nat)
    requires low < 128 && n == low + 128 * high
    ensures n % 128 == low
  {
  }

  /** `bits.CopyTo(bytes, 0)`: byte `m` packs bits `8m .. 8m+7`, least significant first. */
  function Pack(bits: seq<bool>): (r: seq<byte>)
    requires |bits| % 8 == 0
    ensures |r| == |bits| / 8
  {
    if bits == [] then [] else [ByteOfBits(bits[..8])] + Pack(bits[8..])
  }

  lemma {:induction false} PackAt(bits: seq<bool>, m: nat)
    requires |bits| % 8 == 0 && m < |bits| / 8
    ensures Pack(bits)[m] == ByteOfBits(bits[8 * m..8 * m + 8])
  {
    if m > 0 {
      PackAt(bits[8..], m - 1);
      assert bits[8..][8 * (m - 1)..8 * (m - 1) + 8] == bits[8 * m..8 * m + 8];
    }
  }

  lemma {:induction false} PackFalse(n: nat)
    ensures Pack(seq(8 * n, _ => false)) == Zeros(n)
  {
    if n > 0 {
      var s := seq(8 * n, _ => false);
      assert s[8..] == seq(8 * (n - 1), _ => false);
      PackFalse(n - 1);
      FromBitsZero(s[..8]);
    }
  }

  /** The bits ToBytes sets before packing: opcode and flag bits, length and mask bits, then zeros. */
  function HeaderBits(v: FrameView, length: nat, total: nat): (r: seq<bool>)
    requires WellFormed(v) && total >= 2
    ensures |r| == 8 * total
  {
    BitsOf(v.opcode, 4) + [v.reserved3, v.reserved2, v.reserved1, v.isFinished]
    + BitsOf(length, 7) + [v.isMasked] + seq(8 * total - 16, _ => false)
  }

  /** Packed, those bits are the two header bytes and zeros. */
  lemma PackHeaderBits(v: FrameView, length: nat, total: nat)
    requires WellFormed(v) && total >= 2
    ensures Pack(HeaderBits(v, length, total)) ==
      [EncodeByte0(v.isFinished, v.reserved1, v.reserved2, v.reserved3, v.opcode), EncodeByte1(v.isMasked, length)] + Zeros(total - 2)
  {
    var bits := HeaderBits(v, length, total);
    var byte0 := BitsOf(v.opcode, 4) + [v.reserved3, v.reserved2, v.reserved1, v.isFinished];
    var byte1 := BitsOf(length, 7) + [v.isMasked];
    var rest := seq(8 * total - 16, _ => false);
    assert bits == byte0 + byte1 + rest;
    assert bits[..8] == byte0 && bits[8..][..8] == byte1 && bits[8..][8..] == rest;
    PackByte0(v.opcode, v.isFinished, v.reserved1, v.reserved2, v.reserved3);
    PackByte1(length, v.isMasked);
    assert rest == seq(8 * (total - 2), _ => false);
    PackFalse(total - 2);
  }

  // ---------------------------------------------------------------------
  // ToBytes

  /**
   * ToBytes(): the two header bytes, zeros up to OffsetBytes, then the
   * payload unmasked. None when the source throws: a null Payload, or a
   * payload longer than 255 bytes (`Convert.ToByte` of the length).
   */
  function FrameBytes(v: FrameView): Option<seq<byte>>
    requires WellFormed(v)
  {
    if v.payload.None? then None
    else
      var p := PayloadBytes(v);
      if |p| > 255 then None
      else Some([EncodeByte0(v.isFinished, v.reserved1, v.reserved2, v.reserved3, v.opcode),
                 EncodeByte1(v.isMasked, |p|)] + Zeros(v.offsetBytes - 2) + p)
  }

  /** Copying the payload over the packed header bits at OffsetBytes gives FrameBytes. */
  lemma SplicePayload(v: FrameView, header: seq<byte>)
    requires WellFormed(v) && v.payload.Some? && PayloadLength(v) <= 255
    requires header == Pack(HeaderBits(v, PayloadLength(v), TotalLength(v)))
    ensures header[..v.offsetBytes] + PayloadBytes(v) + header[v.offsetBytes + PayloadLength(v)..] == FrameBytes(v).value
  {
    var p := PayloadBytes(v);
    PackHeaderBits(v, |p|, TotalLength(v));
    var b0 := EncodeByte0(v.isFinished, v.reserved1, v.reserved2, v.reserved3, v.opcode);
    var b1 := EncodeByte1(v.isMasked, |p|);
    assert header[..v.offsetBytes] == [b0, b1] + Zeros(v.offsetBytes - 2);
    assert header[v.offsetBytes + |p|..] == [];
  }

  /**
   * The layout of ToBytes: TotalLength bytes, whose base header carries the
   * frame's flags, opcode and the low seven bits of the payload length, and
   * whose tail from OffsetBytes is the payload. It fails exactly for a null
   * Payload or one over 255 bytes.
   */
  lemma FrameBytesLayout(v: FrameView)
    requires WellFormed(v)
    ensures FrameBytes(v).Some? <==> v.payload.Some? && PayloadLength(v) <= 255
    ensures FrameBytes(v).Some? ==>
      var b := FrameBytes(v).value;
      |b| == TotalLength(v) &&
      DecodeHeader(b[0], b[1]) == BaseHeader(v.isFinished, v.reserved1, v.reserved2, v.reserved3, v.opcode, v.isMasked, PayloadLength(v) % 128) &&
      b[v.offsetBytes..] == PayloadBytes(v)
  {
    if FrameBytes(v).Some? {
      var b := FrameBytes(v).value;
      DecodeEncodeHeader(BaseHeader(v.isFinished, v.reserved1, v.reserved2, v.reserved3, v.opcode, v.isMasked, PayloadLength(v) % 128));
      assert b[v.offsetBytes..] == PayloadBytes(v);
    }
  }

  /**
   * The round trip the frame tests check: a frame with the default header
   * (unmasked, two-byte header) and a payload under 126 bytes, serialised and
   * read back by FromRawBytes, has the same flags, opcode and payload.
   */
  lemma {:induction false} RoundTrip(v: FrameView)
    requires WellFormed(v) && v.payload.Some? && !v.isMasked && v.offsetBytes == 2
    requires PayloadLength(v) < 126
    ensures FrameBytes(v).Some?
    ensures var back := AppendSpec(NewFrame, FrameBytes(v).value, |FrameBytes(v).value|);
      back.ok &&
      back.frame.isFinished == v.isFinished && back.frame.reserved1 == v.reserved1 &&
      back.frame.reserved2 == v.reserved2 && back.frame.reserved3 == v.reserved3 &&
      back.frame.opcode == v.opcode && !back.frame.isMasked && back.frame.offsetBytes == 2 &&
      back.frame.payload == v.payload && PayloadBytes(back.frame) == PayloadBytes(v) &&
      back.frame.rawFrame == PayloadBytes(v)
  {
    var p := PayloadBytes(v);
    var b := FrameBytes(v).value;
    var h := BaseHeader(v.isFinished, v.reserved1, v.reserved2, v.reserved3, v.opcode, false, |p|);
    DecodeEncodeHeader(h);
    assert b == [b[0], b[1]] + p;
    assert b[2..2 + |p|] == p;
    Utf8.DecodeEncode(v.payload.value);
  }

  /** A 126-byte payload is announced with the marker 126, so reading it back fails. */
  lemma {:induction false} NoRoundTripAt126(v: FrameView)
    requires WellFormed(v) && v.payload.Some? && !v.isMasked && v.offsetBytes == 2
    requires PayloadLength(v) == 126
    ensures FrameBytes(v).Some?
    ensures !AppendSpec(NewFrame, FrameBytes(v).value, |FrameBytes(v).value|).ok
  {
    var b := FrameBytes(v).value;
    DecodeEncodeHeader(BaseHeader(v.isFinished, v.reserved1, v.reserved2, v.reserved3, v.opcode, false, 126));
    assert |b| == 128;
  }

  /**
   * A frame made from bytes that are the UTF-8 encoding of some text has
   * exactly those bytes as PayloadBytes, as the frame tests check.
   */
  lemma FromBytesPayload(text: string)
    ensures var v := NewFrame.(payload := Some(Utf8.Decode(Utf8.Encode(text))));
      PayloadBytes(v) == Utf8.Encode(text) && v.payload == Some(text)
  {
    Utf8.DecodeEncode(text);
  }

  /** SetDefaults and every constructor leave a well-formed final, unmasked text frame. */
  lemma DefaultsWellFormed(v: FrameView)
    ensures var d := WithDefaults(v);
      WellFormed(d) && d.isFinished && !d.isMasked && d.opcode == 1 && d.offsetBytes == 2 &&
      !d.reserved1 && !d.reserved2 && !d.reserved3 && d.payload == v.payload && d.rawFrame == v.rawFrame
  {
  }

  // ---------------------------------------------------------------------
  // The class

  /** `Array.Copy(src, srcIndex, dst, dstIndex, length)` with in-range indices. */
  method CopyInto(src: seq<byte>, srcIndex: nat, dst: array<byte>, dstIndex: nat, length: nat)
    requires srcIndex + length <= |src| && dstIndex + length <= dst.Length
    modifies dst
    ensures dst[..] == old(dst[..dstIndex]) + src[srcIndex..srcIndex + length] + old(dst[dstIndex + length..])
  {
    for k := dstIndex to dstIndex + length
      invariant forall m :: 0 <= m < dstIndex ==> dst[m] == old(dst[m])
      invariant forall m :: dstIndex <= m < k ==> dst[m] == src[srcIndex + (m - dstIndex)]
      invariant forall m :: k <= m < dst.Length ==> dst[m] == old(dst[m])
    {
      dst[k] := src[srcIndex + (k - dstIndex)];
    }
  }

  class DataFrame {
    var isFinished: bool
    var isMasked: bool
    var reserved1: bool
    var reserved2: bool
    var reserved3: bool
    var opcode: int
    var offsetBytes: int
    var payload: Option<string>
    var rawFrame: seq<byte>
    var state: DataState

    function View(): FrameView
      reads this
    {
      FrameView(isFinished, isMasked, reserved1, reserved2, reserved3, opcode, offsetBytes, payload, rawFrame, state)
    }

    /** `new DataFrame()`. */
    constructor ()
      ensures View() == NewFrame
    {
      isFinished, isMasked, reserved1, reserved2, reserved3 := false, false, false, false, false;
      opcode, offsetBytes := 0, 0;
      payload, rawFrame, state := None, [], Empty;
      new;
      SetDefaults();
    }

    /** `new DataFrame(bytes)`: the payload is the bytes read as UTF-8. */
    constructor FromBytes(bytes: seq<byte>)
      ensures View() == NewFrame.(payload := Some(Utf8.Decode(bytes)))
    {
      isFinished, isMasked, reserved1, reserved2, reserved3 := false, false, false, false, false;
      opcode, offsetBytes := 0, 0;
      payload, rawFrame, state := None, [], Empty;
      new;
      SetDefaults();
      payload := Some(Utf8.Decode(bytes));
    }

    /** `new DataFrame(text)`. */
    constructor FromText(text: string)
      ensures View() == NewFrame.(payload := Some(text))
    {
      isFinished, isMasked, reserved1, reserved2, reserved3 := false, false, false, false, false;
      opcode, offsetBytes := 0, 0;
      payload, rawFrame, state := None, [], Empty;
      new;
      SetDefaults();
      payload := Some(text);
    }

    method SetDefaults()
      modifies this
      ensures View() == WithDefaults(old(View()))
    {
      isFinished := true;
      reserved1, reserved2, reserved3 := false, false, false;
      opcode := 1;
      isMasked := false;
      offsetBytes := 2;
    }

    /** Appends a received frame (or continuation) read from the start of `data`; false when the source throws. */
    method Append(data: array<byte>, receivedByteCount: int) returns (ok: bool)
      modifies this
      ensures Appended(View(), ok) == AppendSpec(old(View()), data[..], receivedByteCount)
    {
      if receivedByteCount <= 0 {
        return true;
      }
      if data.Length == 0 {
        return false;
      }
      isFinished := data[0] >= 128;
      reserved1 := (data[0] / 64) % 2 == 1;
      reserved2 := (data[0] / 32) % 2 == 1;
      reserved3 := (data[0] / 16) % 2 == 1;
      if data.Length == 1 {
        return false;
      }
      ok := ReadFrameFrom(data);
    }

    /** Append from the second header bit on. */
    method ReadFrameFrom(data: array<byte>) returns (ok: bool)
      requires data.Length >= 2
      modifies this
      ensures Appended(View(), ok) == ReadFrame(old(View()), data[..])
    {
      ghost var v := View();
      ghost var d := data[..];
      ReadBaseHeader(data);
      var start := offsetBytes;
      var maskingKey := new byte[4](_ => 0);
      if isMasked {
        if start + 4 > data.Length {
          return false;
        }
        CopyInto(data[..], start, maskingKey, 0, 4);
        offsetBytes := start + 4;
        assert maskingKey[..] == d[start..start + 4];
      }
      ghost var k := if isMasked then Some(maskingKey[..]) else None;
      ghost var result := TakePayload(View(), d, k);
      assert ReadFrame(v, d) == result;
      ok := TakePayloadFrom(data, maskingKey);
      assert Appended(View(), ok) == result;
      assert data[..] == d;
    }

    /** Mask bit, opcode, state and the offset past the extended length field. */
    method ReadBaseHeader(data: array<byte>)
      requires data.Length >= 2
      modifies this
      ensures var h := DecodeHeader(data[0], data[1]);
        View() == old(View()).(isMasked := h.mask, opcode := h.opcode,
                               state := if old(isFinished) then Complete else Receiving,
                               offsetBytes := PayloadOffset(h.length, false))
    {
      isMasked := data[1] >= 128;
      opcode := data[0] % 16;
      var payloadLength := data[1] % 128;
      state := if isFinished then Complete else Receiving;
      offsetBytes := 2;
      if payloadLength == 126 {
        offsetBytes := offsetBytes + 2;
      } else if payloadLength == 127 {
        offsetBytes := offsetBytes + 8;
      }
    }

    /** Copies out the payload, unmasks it when the frame is masked, and appends it. */
    method TakePayloadFrom(data: array<byte>, maskingKey: array<byte>) returns (ok: bool)
      requires data.Length >= 2 && offsetBytes >= 0 && maskingKey.Length == 4 && maskingKey != data
      modifies this
      ensures Appended(View(), ok) == TakePayload(old(View()), data[..], if old(isMasked) then Some(maskingKey[..]) else None)
    {
      var payloadLength := data[1] % 128;
      if offsetBytes + payloadLength > data.Length {
        return false;
      }
      ghost var v := View();
      ghost var key := if isMasked then Some(maskingKey[..]) else None;
      ghost var chunk := data[offsetBytes..offsetBytes + payloadLength];
      ghost var p := if key.Some? then Unmask(chunk, key.value) else chunk;
      assert TakePayload(v, data[..], key) == Appended(v.(payload := Some(Utf8.Decode(p)), rawFrame := v.rawFrame + p), true);
      var truncatedData := CopyPayload(data, offsetBytes, payloadLength, isMasked, maskingKey);
      assert truncatedData[..] == p;
      payload := Some(Utf8.Decode(truncatedData[..]));
      AppendDataToFrame(truncatedData);
      ok := true;
    }

    /** The `length` bytes of `data` from `offset`, copied into a new array and unmasked when `masked`. */
    static method CopyPayload(data: array<byte>, offset: nat, length: nat, masked: bool, maskingKey: array<byte>)
      returns (chunk: array<byte>)
      requires offset + length <= data.Length && maskingKey.Length == 4
      ensures fresh(chunk)
      ensures chunk[..] == if masked then Unmask(data[offset..offset + length], maskingKey[..])
                           else data[offset..offset + length]
    {
      chunk := new byte[length](_ => 0);
      ghost var src := data[offset..offset + length];
      ghost var key := maskingKey[..];
      CopyInto(data[..], offset, chunk, 0, length);
      assert chunk[..] == src by {
        assert chunk[..] == [] + data[..][offset..offset + length] + [];
      }
      if masked {
        UnmaskData(chunk, maskingKey);
        assert maskingKey[..] == key;
      }
    }

    /** XORs `data` in place with the four-byte key. */
    static method UnmaskData(data: array<byte>, maskingKey: array<byte>)
      requires maskingKey.Length == 4 && data != maskingKey
      modifies data
      ensures data[..] == Unmask(old(data[..]), maskingKey[..])
    {
      for i := 0 to data.Length
        invariant forall k :: 0 <= k < i ==> data[k] == Xor(old(data[k]), maskingKey[k % 4])
        invariant forall k :: i <= k < data.Length ==> data[k] == old(data[k])
      {
        data[i] := Xor(data[i], maskingKey[i % 4]);
      }
    }

    /** Replaces the raw frame by a new array holding the old bytes followed by `data`. */
    method AppendDataToFrame(data: array<byte>)
      modifies this
      ensures View() == old(View()).(rawFrame := old(rawFrame) + data[..])
    {
      var length := |rawFrame|;
      var newFrame := new byte[length + data.Length](_ => 0);
      if length > 0 {
        CopyInto(rawFrame, 0, newFrame, 0, length);
      }
      CopyInto(data[..], 0, newFrame, length, data.Length);
      rawFrame := newFrame[..];
    }

    /** Empties the raw frame and sets the state back to Empty. */
    method Clear()
      modifies this
      ensures View() == old(View()).(rawFrame := [], state := Empty)
    {
      rawFrame := [];
      state := Empty;
    }

    /** `new BitArray(new[] { Convert.ToByte(integer) })`; None when the conversion overflows. */
    static method BitArrayFromInteger(integer: int) returns (r: Option<array<bool>>)
      ensures r.Some? <==> 0 <= integer < 256
      ensures r.Some? ==> fresh(r.value) && r.value[..] == BitsOf(integer, 8)
    {
      if integer < 0 || integer > 255 {
        return None;
      }
      var bits := new bool[8](_ => false);
      for j := 0 to 8
        invariant forall m :: 0 <= m < j ==> bits[m] == Bit(integer, m)
      {
        bits[j] := Bit(integer, j);
      }
      return Some(bits);
    }

    /** Copies `length` bits from `source` at `sourceIndex` into `destination` at `destinationIndex`. */
    static method CopyBits(source: array<bool>, sourceIndex: nat, destination: array<bool>, destinationIndex: nat, length: nat)
      requires sourceIndex + length <= source.Length && destinationIndex + length <= destination.Length
      requires source != destination
      modifies destination
      ensures forall m :: 0 <= m < destination.Length ==>
        destination[m] == if destinationIndex <= m < destinationIndex + length
                          then source[sourceIndex + (m - destinationIndex)] else old(destination[m])
    {
      var i, j := destinationIndex, sourceIndex;
      while i < destinationIndex + length
        invariant destinationIndex <= i <= destinationIndex + length && j == sourceIndex + (i - destinationIndex)
        invariant forall m :: 0 <= m < destination.Length ==>
          destination[m] == if destinationIndex <= m < i then source[sourceIndex + (m - destinationIndex)] else old(destination[m])
      {
        destination[i] := source[j];
        i, j := i + 1, j + 1;
      }
    }

    /** The bit-setting part of ToBytes, on an all-false array of TotalLengthBits bits. */
    method FillHeaderBits(bits: array<bool>, length: nat)
      requires WellFormed(View()) && length < 256
      requires bits.Length >= 16 && bits.Length % 8 == 0 && forall i :: 0 <= i < bits.Length ==> !bits[i]
      modifies bits
      ensures bits[..] == HeaderBits(View(), length, bits.Length / 8)
    {
      bits[7] := isFinished;
      bits[6] := reserved1;
      bits[5] := reserved2;
      bits[4] := reserved3;
      bits[15] := isMasked;
      var opcodeBits := BitArrayFromInteger(opcode);
      var payloadLengthBits := BitArrayFromInteger(length);
      CopyBits(opcodeBits.value, 0, bits, 0, 4);
      CopyBits(payloadLengthBits.value, 0, bits, 8, 7);
      var expected := HeaderBits(View(), length, bits.Length / 8);
      forall i | 0 <= i < bits.Length
        ensures bits[i] == expected[i]
      {
        if i < 4 {
          assert opcodeBits.value[..][i] == Bit(opcode, i);
        } else if 8 <= i < 15 {
          assert payloadLengthBits.value[..][i - 8] == Bit(length, i - 8);
        }
      }
    }

    /** Serialises the frame; None when the source throws. */
    method ToBytes() returns (r: Option<seq<byte>>)
      requires WellFormed(View())
      ensures r == FrameBytes(View())
    {
      if payload.None? {
        return None;
      }
      var p := Utf8.Encode(payload.value);
      if |p| > 255 {
        // BitArrayFromInteger(PayloadLength) overflows in Convert.ToByte
        return None;
      }
      var total := offsetBytes + |p|;
      assert p == PayloadBytes(View()) && total == TotalLength(View());
      var bits := new bool[total * 8](_ => false);
      assert bits.Length / 8 == total;
      FillHeaderBits(bits, |p|);
      var bytes := PackBits(bits);
      ghost var header := bytes[..];
      assert header == Pack(HeaderBits(View(), PayloadLength(View()), TotalLength(View())));
      CopyInto(p, 0, bytes, offsetBytes, |p|);
      assert p[0..|p|] == p;
      assert bytes[..] == header[..offsetBytes] + p + header[offsetBytes + |p|..];
      SplicePayload(View(), header);
      r := Some(bytes[..]);
    }
  }

  /** `bits.CopyTo(bytes, 0)` into a fresh array of `bits.Length / 8` bytes. */
  method PackBits(bits: array<bool>) returns (bytes: array<byte>)
    requires bits.Length % 8 == 0
    ensures fresh(bytes) && bytes[..] == Pack(bits[..])
  {
    bytes := new byte[bits.Length / 8](_ => 0);
    for k := 0 to bytes.Length
      invariant forall m :: 0 <= m < k ==> bytes[m] == Pack(bits[..])[m]
    {
      PackAt(bits[..], k);
      assert bits[..][8 * k..8 * k + 8] == bits[8 * k..8 * k + 8];
      bytes[k] := ByteOfBits(bits[8 * k..8 * k + 8]);
    }
  }

  /** `DataFrame.FromRawBytes(rawBytes)`: a new frame with the bytes appended; false when Append throws. */
  method FromRawBytes(rawBytes: array<byte>) returns (frame: DataFrame, ok: bool)
    ensures fresh(frame)
    ensures Appended(frame.View(), ok) == AppendSpec(NewFrame, rawBytes[..], rawBytes.Length)
  {
    frame := new DataFrame();
    ok := frame.Append(rawBytes, rawBytes.Length);
  }
}
