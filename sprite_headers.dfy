/** DDASpriteHeader: 28 bytes at the head of each sprite in a data file, ten
    16-bit and two 32-bit little-endian fields, each XOR-masked with its own constant. */
module SpriteHeaders {
  import opened Bytes
  import opened Outcomes
  import opened Streams

  const SPRITE_HEADER_SIZE: nat := 10 * 2 + 2 * 4

  /** The masks of the ten 16-bit fields, in field order. */
  const MASKS16: seq<u16> := [0xAAAA, 0x1458, 0x1234, 0x6242, 0x2355, 0xF6C3, 0xAAF3, 0xAAAA, 0x4321, 0x1234]
  const UNPACK_MASK: u32 := 0xDDCCBBAA
  const PACK_MASK: u32 := 0xAABBCCDD

  /** Compression types. */
  const COMP_DD: u16 := 1
  const COMP_NCK: u16 := 2
  const COMP_NULL: u16 := 3
  const COMP_ZIP: u16 := 9

  datatype SpriteHeader = SpriteHeader(
    dwCompType: u16,
    flag1: u16,
    dwWidth: u16,
    dwHeight: u16,
    shOffX1: i16,
    shOffY1: i16,
    shOffX2: i16,
    shOffY2: i16,
    ushTransparency: u16,
    ushTransColor: u16,
    dwDataUnpack: u32,
    dwDataPack: u32)

  /** The 16-bit field `k` of a raw header, unmasked. */
  function Field16(b: seq<u8>, k: nat): u16
    requires |b| == SPRITE_HEADER_SIZE && k < 10
  {
    Xor16(LE16(b[2 * k..2 * k + 2]), MASKS16[k])
  }

  /** The header from its 28 raw bytes: each field's little-endian pattern XORed with
      its mask; the four offsets are the signed reading of their 16 bits. */
  function DecodeSpriteHeader(b: seq<u8>): SpriteHeader
    requires |b| == SPRITE_HEADER_SIZE
  {
    SpriteHeader(
      Field16(b, 0), Field16(b, 1), Field16(b, 2), Field16(b, 3),
      ToSigned16(Field16(b, 4)), ToSigned16(Field16(b, 5)), ToSigned16(Field16(b, 6)), ToSigned16(Field16(b, 7)),
      Field16(b, 8), Field16(b, 9),
      Xor32(LE32(b[20..24]), UNPACK_MASK),
      Xor32(LE32(b[24..28]), PACK_MASK))
  }

  /** Reads header field `k` off the stream: two bytes (readBytes), BitConverter.ToUInt16,
      then the field's mask. */
  method ReadField(s: ByteStream, k: nat) returns (v: u16)
    requires |s.data| == SPRITE_HEADER_SIZE && k < 10 && s.pos == 2 * k
    modifies s
    ensures v == Field16(s.data, k) && s.pos == 2 * k + 2
  {
    var bytes := ReadBytes(s, 0, 2);
    v := Xor16(LE16(bytes.value), MASKS16[k]);
  }

  /** Reads one of the two 32-bit sizes off the stream, then applies its mask. */
  method ReadSize(s: ByteStream, mask: u32) returns (d: u32)
    requires s.pos + 4 <= |s.data|
    modifies s
    ensures d == Xor32(LE32(s.data[old(s.pos)..old(s.pos) + 4]), mask) && s.pos == old(s.pos) + 4
  {
    var bytes := ReadBytes(s, 0, 4);
    d := Xor32(LE32(bytes.value), mask);
  }

  /** The header parse of internalLoadSprite: twelve reads through a stream over the segment. */
  method ReadSpriteHeader(segment: seq<u8>) returns (h: SpriteHeader)
    requires |segment| == SPRITE_HEADER_SIZE
    ensures h == DecodeSpriteHeader(segment)
  {
    var s := new ByteStream(segment);
    var compType, flag1, width, height := ReadShape(s);
    var offX1, offY1, offX2, offY2 := ReadOffsets(s);
    var transparency, transColor, unpack, pack := ReadTail(s);
    h := SpriteHeader(compType, flag1, width, height, offX1, offY1, offX2, offY2,
      transparency, transColor, unpack, pack);
  }

  /** dwCompType, flag1, dwWidth, dwHeight: fields 0 to 3. */
  method ReadShape(s: ByteStream) returns (compType: u16, flag1: u16, width: u16, height: u16)
    requires |s.data| == SPRITE_HEADER_SIZE && s.pos == 0
    modifies s
    ensures compType == Field16(s.data, 0) && flag1 == Field16(s.data, 1)
    ensures width == Field16(s.data, 2) && height == Field16(s.data, 3)
    ensures s.pos == 8
  {
    compType := ReadField(s, 0);
    flag1 := ReadField(s, 1);
    width := ReadField(s, 2);
    height := ReadField(s, 3);
  }

  /** The four offsets, fields 4 to 7, read as signed 16-bit values. */
  method ReadOffsets(s: ByteStream) returns (offX1: i16, offY1: i16, offX2: i16, offY2: i16)
    requires |s.data| == SPRITE_HEADER_SIZE && s.pos == 8
    modifies s
    ensures offX1 == ToSigned16(Field16(s.data, 4)) && offY1 == ToSigned16(Field16(s.data, 5))
    ensures offX2 == ToSigned16(Field16(s.data, 6)) && offY2 == ToSigned16(Field16(s.data, 7))
    ensures s.pos == 16
  {
    var x1 := ReadField(s, 4);
    var y1 := ReadField(s, 5);
    var x2 := ReadField(s, 6);
    var y2 := ReadField(s, 7);
    offX1, offY1, offX2, offY2 := ToSigned16(x1), ToSigned16(y1), ToSigned16(x2), ToSigned16(y2);
  }

  /** ushTransparency, ushTransColor (fields 8 and 9), then the two masked sizes. */
  method ReadTail(s: ByteStream) returns (transparency: u16, transColor: u16, unpack: u32, pack: u32)
    requires |s.data| == SPRITE_HEADER_SIZE && s.pos == 16
    modifies s
    ensures transparency == Field16(s.data, 8) && transColor == Field16(s.data, 9)
    ensures unpack == Xor32(LE32(s.data[20..24]), UNPACK_MASK)
    ensures pack == Xor32(LE32(s.data[24..28]), PACK_MASK)
    ensures s.pos == SPRITE_HEADER_SIZE
  {
    transparency := ReadField(s, 8);
    transColor := ReadField(s, 9);
    unpack := ReadSize(s, UNPACK_MASK);
    pack := ReadSize(s, PACK_MASK);
  }

  /** The ten 16-bit fields as the bit patterns they are stored with, before masking. */
  function Words(h: SpriteHeader): (ws: seq<u16>)
    ensures |ws| == 10
  {
    [h.dwCompType, h.flag1, h.dwWidth, h.dwHeight,
     FromSigned16(h.shOffX1), FromSigned16(h.shOffY1), FromSigned16(h.shOffX2), FromSigned16(h.shOffY2),
     h.ushTransparency, h.ushTransColor]
  }

  /** The words masked, each with the mask of its position. */
  function MaskWords(ws: seq<u16>): (ms: seq<u16>)
    requires |ws| == 10
    ensures |ms| == 10 && forall k :: 0 <= k < 10 ==> ms[k] == Xor16(ws[k], MASKS16[k])
  {
    seq(10, k requires 0 <= k < 10 => Xor16(ws[k], MASKS16[k]))
  }

  /** Consecutive little-endian words. */
  function WordBytes(ws: seq<u16>): (b: seq<u8>)
    ensures |b| == 2 * |ws|
  {
    if ws == [] then [] else EncodeLE16(ws[0]) + WordBytes(ws[1..])
  }

  /** Word `k` occupies bytes [2 k, 2 k + 2). */
  lemma {:induction false} WordBytesAt(ws: seq<u16>, k: nat)
    requires k < |ws|
    ensures WordBytes(ws)[2 * k..2 * k + 2] == EncodeLE16(ws[k])
  {
    if k > 0 {
      WordBytesAt(ws[1..], k - 1);
      assert WordBytes(ws)[2 * k..2 * k + 2] == WordBytes(ws[1..])[2 * (k - 1)..2 * (k - 1) + 2];
    }
  }

  /** A buffer whose every pair is the encoding of the matching word is their WordBytes. */
  lemma {:induction false} WordBytesOfPairs(ws: seq<u16>, b: seq<u8>)
    requires |b| == 2 * |ws|
    requires forall k :: 0 <= k < |ws| ==> b[2 * k..2 * k + 2] == EncodeLE16(ws[k])
    ensures WordBytes(ws) == b
  {
    if ws != [] {
      forall k | 0 <= k < |ws| - 1
        ensures b[2..][2 * k..2 * k + 2] == EncodeLE16(ws[1..][k])
      {
        assert b[2..][2 * k..2 * k + 2] == b[2 * (k + 1)..2 * (k + 1) + 2];
      }
      WordBytesOfPairs(ws[1..], b[2..]);
      assert b[0..2] == EncodeLE16(ws[0]);
      assert b == b[0..2] + b[2..];
    }
  }

  /** The 28 bytes that store a header: the ten masked words, then the two masked
      32-bit sizes, all little-endian. */
  function EncodeSpriteHeader(h: SpriteHeader): (b: seq<u8>)
    ensures |b| == SPRITE_HEADER_SIZE
  {
    WordBytes(MaskWords(Words(h)))
      + EncodeLE32(Xor32(h.dwDataUnpack, UNPACK_MASK)) + EncodeLE32(Xor32(h.dwDataPack, PACK_MASK))
  }

  /** The words of an encoded header unmask to the header's own words. */
  lemma EncodedFields(h: SpriteHeader, k: nat)
    requires k < 10
    ensures Field16(EncodeSpriteHeader(h), k) == Words(h)[k]
  {
    var b := EncodeSpriteHeader(h);
    var ms := MaskWords(Words(h));
    WordBytesAt(ms, k);
    assert b[..20] == WordBytes(ms);
    assert b[2 * k..2 * k + 2] == b[..20][2 * k..2 * k + 2];
    LE16RoundTrip(ms[k], [0, 0]);
    Xor16Involutive(Words(h)[k], MASKS16[k]);
  }

  lemma Masked32RoundTrip(v: u32, mask: u32)
    ensures Xor32(LE32(EncodeLE32(Xor32(v, mask))), mask) == v
  {
    LE32RoundTrip(Xor32(v, mask), [0, 0, 0, 0]);
    Xor32Involutive(v, mask);
  }

  /** Every field masked and then unmasked comes back unchanged. */
  lemma SpriteHeaderRoundTrip(h: SpriteHeader)
    ensures DecodeSpriteHeader(EncodeSpriteHeader(h)) == h
  {
    var b := EncodeSpriteHeader(h);
    EncodedWords(h);
    EncodedSizes(h);
    assert Field16(b, 4) == FromSigned16(h.shOffX1) && Field16(b, 5) == FromSigned16(h.shOffY1);
    assert Field16(b, 6) == FromSigned16(h.shOffX2) && Field16(b, 7) == FromSigned16(h.shOffY2);
  }

  /** The ten words of an encoded header unmask to the header's own words. */
  lemma EncodedWords(h: SpriteHeader)
    ensures forall k :: 0 <= k < 10 ==> Field16(EncodeSpriteHeader(h), k) == Words(h)[k]
  {
    forall k | 0 <= k < 10
      ensures Field16(EncodeSpriteHeader(h), k) == Words(h)[k]
    {
      EncodedFields(h, k);
    }
  }

  /** The two sizes of an encoded header unmask to the header's sizes. */
  lemma EncodedSizes(h: SpriteHeader)
    ensures Xor32(LE32(EncodeSpriteHeader(h)[20..24]), UNPACK_MASK) == h.dwDataUnpack
    ensures Xor32(LE32(EncodeSpriteHeader(h)[24..28]), PACK_MASK) == h.dwDataPack
  {
    var b := EncodeSpriteHeader(h);
    assert b[20..24] == EncodeLE32(Xor32(h.dwDataUnpack, UNPACK_MASK));
    assert b[24..28] == EncodeLE32(Xor32(h.dwDataPack, PACK_MASK));
    Masked32RoundTrip(h.dwDataUnpack, UNPACK_MASK);
    Masked32RoundTrip(h.dwDataPack, PACK_MASK);
  }

  /** The words a raw header decodes to, before the signed reading of the offsets. */
  function RawFields(b: seq<u8>): (ws: seq<u16>)
    requires |b| == SPRITE_HEADER_SIZE
    ensures |ws| == 10 && forall k :: 0 <= k < 10 ==> ws[k] == Field16(b, k)
  {
    seq(10, k requires 0 <= k < 10 => Field16(b, k))
  }

  /** Every 28-byte pattern is the encoding of the header it decodes to: the masking is a bijection. */
  lemma SpriteHeaderBytesRoundTrip(b: seq<u8>)
    requires |b| == SPRITE_HEADER_SIZE
    ensures EncodeSpriteHeader(DecodeSpriteHeader(b)) == b
  {
    var h := DecodeSpriteHeader(b);
    var ws := RawFields(b);
    SignedRoundTrip(ws[4]);
    SignedRoundTrip(ws[5]);
    SignedRoundTrip(ws[6]);
    SignedRoundTrip(ws[7]);
    assert Words(h) == ws;
    RawWordsRemask(b);
    RawSizesRemask(b);
    assert b == b[0..20] + b[20..24] + b[24..28];
  }

  /** The first 20 bytes are the raw fields masked again, little-endian. */
  lemma RawWordsRemask(b: seq<u8>)
    requires |b| == SPRITE_HEADER_SIZE
    ensures WordBytes(MaskWords(RawFields(b))) == b[0..20]
  {
    var ms := MaskWords(RawFields(b));
    forall k | 0 <= k < 10
      ensures b[0..20][2 * k..2 * k + 2] == EncodeLE16(ms[k])
    {
      var w := LE16(b[2 * k..2 * k + 2]);
      Xor16Involutive(w, MASKS16[k]);
      LE16RoundTrip(w, b[2 * k..2 * k + 2]);
      assert b[0..20][2 * k..2 * k + 2] == b[2 * k..2 * k + 2];
    }
    WordBytesOfPairs(ms, b[0..20]);
  }

  /** The last 8 bytes are the two decoded sizes masked again, little-endian. */
  lemma RawSizesRemask(b: seq<u8>)
    requires |b| == SPRITE_HEADER_SIZE
    ensures EncodeLE32(Xor32(Xor32(LE32(b[20..24]), UNPACK_MASK), UNPACK_MASK)) == b[20..24]
    ensures EncodeLE32(Xor32(Xor32(LE32(b[24..28]), PACK_MASK), PACK_MASK)) == b[24..28]
  {
    Xor32Involutive(LE32(b[20..24]), UNPACK_MASK);
    LE32RoundTrip(LE32(b[20..24]), b[20..24]);
    Xor32Involutive(LE32(b[24..28]), PACK_MASK);
    LE32RoundTrip(LE32(b[24..28]), b[24..28]);
  }
}
