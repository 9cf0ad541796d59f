/** The generic game-file envelope (V2GamefilesDecryptionUtils): a 41-byte header
    carrying an MD5 digest and two sizes, a zlib payload and a one-byte additive
    ("uch") checksum over the payload. */
module Envelope {
  import opened Bytes
  import opened Outcomes
  import opened Streams

  /** V2GameFile, and its copy DIDIndexFileHeader: the decoded header fields and,
      where the decoder stores it, the verified uncompressed data. */
  datatype GameFile = GameFile(
    strChksumMd5: string,
    ulUnpackSize: u32,
    ulPackSize: u32,
    uchChksum: u8,
    indicesCount: int,
    uncompressedData: Option<seq<u8>>)

  /** Header offsets: digest part A, unpackSize, packSize, digest part B (17 bytes). */
  const UNPACK_AT: nat := 16
  const PACK_AT: nat := 20
  const DIGEST_B_AT: nat := 24
  const PAYLOAD_AT: nat := 41

  // ---------------------------------------------------------------- inner checksum

  /** The bytes the checksum adds up: all but the last one. */
  function SummedPart(p: seq<u8>): (s: seq<u8>)
    ensures |p| > 0 ==> s == p[..|p| - 1]
    ensures |p| == 0 ==> s == []
  {
    if |p| == 0 then [] else p[..|p| - 1]
  }

  /** The inner checksum of a payload: the byte that brings the sum of all its
      bytes but the last to zero, modulo 256. */
  function UchVal(p: seq<u8>): (r: u8)
  {
    ((0x100 - Sum(SummedPart(p)) % 0x100) % 0x100) as u8
  }

  /** calculateUchVal: a one-byte accumulator over every byte but the last, then negated. */
  method CalculateUchVal(compressedData: seq<u8>) returns (r: u8)
    ensures r == UchVal(compressedData)
  {
    var chkSumResult: u8 := 0;
    var i := 0;
    while i < |compressedData| - 1
      invariant 0 <= i <= |SummedPart(compressedData)|
      invariant chkSumResult as int == Sum(compressedData[..i]) % 0x100
    {
      PrefixSumStep(compressedData, i);
      chkSumResult := ((chkSumResult as int + compressedData[i] as int) % 0x100) as u8;
      i := i + 1;
    }
    assert compressedData[..i] == SummedPart(compressedData);
    r := ((0x100 - chkSumResult as int) % 0x100) as u8;
  }

  /** Adding byte `i` to the prefix sum, also modulo 256. */
  lemma PrefixSumStep(p: seq<u8>, i: nat)
    requires i < |p|
    ensures Sum(p[..i + 1]) == Sum(p[..i]) + p[i] as int
    ensures (Sum(p[..i]) % 0x100 + p[i] as int) % 0x100 == Sum(p[..i + 1]) % 0x100
  {
    assert p[..i + 1][..i] == p[..i];
  }

  /** The checksum is the one byte that makes the summed part add up to 0 mod 256. */
  lemma UchValCharacterized(p: seq<u8>, c: u8)
    ensures (Sum(SummedPart(p)) + UchVal(p) as int) % 0x100 == 0
    ensures (Sum(SummedPart(p)) + c as int) % 0x100 == 0 <==> c == UchVal(p)
  {
    ByteComplement(Sum(SummedPart(p)), c as int);
  }

  /** `(256 - s % 256) % 256` is the one byte value that brings `s` to 0 mod 256. */
  lemma ByteComplement(s: nat, c: int)
    requires 0 <= c < 0x100
    ensures (s + (0x100 - s % 0x100) % 0x100) % 0x100 == 0
    ensures (s + c) % 0x100 == 0 <==> c == (0x100 - s % 0x100) % 0x100
  {
    var q, m := s / 0x100, s % 0x100;
    assert s == 0x100 * q + m && 0 <= m < 0x100;
    if m == 0 {
      assert (0x100 - m) % 0x100 == 0;
      assert (s + c) % 0x100 == c;
    } else {
      assert (0x100 - m) % 0x100 == 0x100 - m;
      assert s + (0x100 - m) == 0x100 * (q + 1);
      assert (s + c) % 0x100 == (m + c) % 0x100;
      assert 0 < m + c < 0x200;
    }
  }

  /** The last byte never contributes; payloads of length 0 or 1 give 0. */
  lemma UchValIgnoresLast(p: seq<u8>, x: u8, y: u8)
    ensures UchVal(p + [x]) == UchVal(p + [y])
    ensures |p| == 0 ==> UchVal(p) == 0 && UchVal(p + [x]) == 0
  {
    assert SummedPart(p + [x]) == p == SummedPart(p + [y]);
  }

  // ---------------------------------------------------------------- digest text

  function HexDigit(n: nat): (c: char)
    requires n < 16
    ensures '0' <= c <= '9' || 'a' <= c <= 'f'
  {
    if n < 10 then (('0' as int) + n) as char else (('a' as int) + n - 10) as char
  }

  /** `ToString("x2")` of each digest byte, joined: two lowercase hex digits per byte. */
  function Hex(d: seq<u8>): (s: string)
    ensures |s| == 2 * |d|
  {
    if d == [] then "" else [HexDigit(d[0] as nat / 16), HexDigit(d[0] as nat % 16)] + Hex(d[1..])
  }

  function HexValue(c: char): (r: Option<nat>)
    ensures r.Some? ==> r.value < 16
  {
    if '0' <= c <= '9' then Some(c as int - '0' as int)
    else if 'a' <= c <= 'f' then Some(c as int - 'a' as int + 10)
    else None
  }

  /** Reads lowercase hex text back into bytes: the inverse of Hex. */
  function ParseHex(s: string): (r: Option<seq<u8>>)
    decreases |s|
  {
    if s == [] then Some([])
    else if |s| == 1 then None
    else match (HexValue(s[0]), HexValue(s[1]), ParseHex(s[2..]))
      case (Some(hi), Some(lo), Some(rest)) => Some([(16 * hi + lo) as u8] + rest)
      case _ => None
  }

  /** The digest text determines the digest: parsing Hex gives the bytes back. */
  lemma {:induction false} HexRoundTrip(d: seq<u8>)
    ensures ParseHex(Hex(d)) == Some(d)
  {
    if d != [] {
      var h := Hex(d);
      assert h[2..] == Hex(d[1..]);
      HexRoundTrip(d[1..]);
      var b := d[0] as nat;
      assert HexValue(HexDigit(b / 16)) == Some(b / 16);
      assert HexValue(HexDigit(b % 16)) == Some(b % 16);
      assert [d[0]] + d[1..] == d;
    }
  }

  // ---------------------------------------------------------------- the envelope

  /** The stored digest text: `A.Concat(B).Take(32)` ASCII-decoded. */
  function StoredDigest(file: seq<u8>): (s: string)
    requires |file| >= PAYLOAD_AT
    ensures |s| == 32
  {
    AsciiString((file[0..UNPACK_AT] + file[DIGEST_B_AT..PAYLOAD_AT])[..32])
  }

  /** The envelope decoder as a function of the file's bytes, with each check in
      the order the decoder runs it. */
  function DecodeEnvelope(file: seq<u8>, inflate: Inflater, md5: Digest): Result<GameFile>
  {
    if |file| < UNPACK_AT then Failure(ShortRead(DigestPart1))
    else if |file| < PACK_AT then Failure(ShortRead(UnpackSizeField))
    else if |file| < DIGEST_B_AT then Failure(ShortRead(PackSizeField))
    else if |file| < PAYLOAD_AT then Failure(ShortRead(DigestPart2))
    else
      var digest := StoredDigest(file);
      var unpack := LE32(file[UNPACK_AT..PACK_AT]);
      var pack := LE32(file[PACK_AT..DIGEST_B_AT]);
      if pack as int > INT32_MAX then Failure(Overflow)
      else if |file| < PAYLOAD_AT + pack as int then Failure(ShortRead(Payload))
      else if |file| < PAYLOAD_AT + pack as int + 1 then Failure(ShortRead(InnerChecksum))
      else
        var payload := file[PAYLOAD_AT..PAYLOAD_AT + pack as int];
        var stored := file[PAYLOAD_AT + pack as int];
        if stored != UchVal(payload) then Failure(ChecksumMismatch(stored, UchVal(payload) as int))
        else if unpack as int > INT32_MAX then Failure(Overflow)
        else
          var inflated := inflate(payload);
          if |inflated| < unpack as int then Failure(ShortRead(Inflated))
          else
            var data := inflated[..unpack];
            var computed := Hex(md5(data));
            if computed != digest then Failure(DigestMismatch(digest, computed))
            else Success(GameFile(digest, unpack, pack, stored, 0, Some(data)))
  }

  /** DecryptV2Gamefile: sequential reads through the file stream, the checksum,
      the inflation of exactly unpackSize bytes and the MD5 comparison. */
  method DecryptV2Gamefile(file: seq<u8>, inflate: Inflater, md5: Digest) returns (r: Result<GameFile>)
    ensures r == DecodeEnvelope(file, inflate, md5)
  {
    var src := new ByteStream(file);
    var chkSumMd5Part1 := src.Read(16);
    if |chkSumMd5Part1| != 16 { return Failure(ShortRead(DigestPart1)); }
    var unpackSize := src.Read(4);
    if |unpackSize| != 4 { return Failure(ShortRead(UnpackSizeField)); }
    var packSize := src.Read(4);
    if |packSize| != 4 { return Failure(ShortRead(PackSizeField)); }
    var chkSumMd5Part2 := src.Read(17);
    if |chkSumMd5Part2| != 17 { return Failure(ShortRead(DigestPart2)); }

    var strChksumMd5 := AsciiString((chkSumMd5Part1 + chkSumMd5Part2)[..32]);
    var ulUnpackSize := LE32(unpackSize);
    var ulPackSize := LE32(packSize);

    var len :- ToInt32(ulPackSize);
    var compressedData := src.Read(len);
    if |compressedData| != len { return Failure(ShortRead(Payload)); }
    var uchChksum := src.Read(1);
    if |uchChksum| != 1 { return Failure(ShortRead(InnerChecksum)); }

    var uchVal := CalculateUchVal(compressedData);
    if uchChksum[0] != uchVal {
      return Failure(ChecksumMismatch(uchChksum[0], uchVal as int));
    }

    var deflatedStream := new ByteStream(inflate(compressedData));
    var unpackLen :- ToInt32(ulUnpackSize);
    var uncompressedData := deflatedStream.Read(unpackLen);
    if |uncompressedData| != unpackLen { return Failure(ShortRead(Inflated)); }

    var computedHash := Hex(md5(uncompressedData));
    if computedHash != strChksumMd5 {
      return Failure(DigestMismatch(strChksumMd5, computedHash));
    }
    r := Success(GameFile(strChksumMd5, ulUnpackSize, ulPackSize, uchChksum[0], 0, Some(uncompressedData)));
  }

  /** What a successful decode guarantees, field by field, about the file's bytes. */
  lemma DecodeEnvelopeLayout(file: seq<u8>, inflate: Inflater, md5: Digest)
    requires DecodeEnvelope(file, inflate, md5).Success?
    ensures var g := DecodeEnvelope(file, inflate, md5).value;
      var pack := g.ulPackSize as int;
      && |file| >= PAYLOAD_AT + pack + 1
      && g.strChksumMd5 == AsciiString(file[0..16] + file[24..40])
      && g.ulUnpackSize == LE32(file[16..20])
      && g.ulPackSize == LE32(file[20..24])
      && g.uchChksum == file[41 + pack] == UchVal(file[41..41 + pack])
      && g.indicesCount == 0
      && g.uncompressedData.Some?
      && |g.uncompressedData.value| == g.ulUnpackSize as int
      && g.uncompressedData.value == inflate(file[41..41 + pack])[..g.ulUnpackSize]
      && ParseHex(g.strChksumMd5) == Some(md5(g.uncompressedData.value))
  {
    var g := DecodeEnvelope(file, inflate, md5).value;
    assert (file[0..16] + file[24..41])[..32] == file[0..16] + file[24..40];
    HexRoundTrip(md5(g.uncompressedData.value));
  }

  /** The inner checksum is checked before anything is inflated: a mismatch fails
      the same way whatever the inflater and the hash do. */
  lemma ChecksumBeforeInflate(file: seq<u8>, i1: Inflater, m1: Digest, i2: Inflater, m2: Digest)
    requires |file| >= PAYLOAD_AT
    requires LE32(file[PACK_AT..DIGEST_B_AT]) as int <= INT32_MAX
    requires var pack := LE32(file[PACK_AT..DIGEST_B_AT]) as int;
      |file| > PAYLOAD_AT + pack && file[PAYLOAD_AT + pack] != UchVal(file[PAYLOAD_AT..PAYLOAD_AT + pack])
    ensures DecodeEnvelope(file, i1, m1) == DecodeEnvelope(file, i2, m2)
    ensures DecodeEnvelope(file, i1, m1).Failure? && DecodeEnvelope(file, i1, m1).error.ChecksumMismatch?
  {
  }

  /** The digest is compared only once exactly unpackSize bytes were inflated:
      a short inflation fails whatever the hash returns. */
  lemma InflateBeforeDigest(file: seq<u8>, inflate: Inflater, m1: Digest, m2: Digest)
    requires |file| >= PAYLOAD_AT
    requires LE32(file[PACK_AT..DIGEST_B_AT]) as int <= INT32_MAX
    requires LE32(file[UNPACK_AT..PACK_AT]) as int <= INT32_MAX
    requires var pack := LE32(file[PACK_AT..DIGEST_B_AT]) as int;
      |file| > PAYLOAD_AT + pack && file[PAYLOAD_AT + pack] == UchVal(file[PAYLOAD_AT..PAYLOAD_AT + pack])
      && |inflate(file[PAYLOAD_AT..PAYLOAD_AT + pack])| < LE32(file[UNPACK_AT..PACK_AT]) as int
    ensures DecodeEnvelope(file, inflate, m1) == DecodeEnvelope(file, inflate, m2) == Failure(ShortRead(Inflated))
  {
  }

  // ---------------------------------------------------------------- building an envelope

  /** The ASCII codes of the digest text. */
  function HexBytes(d: seq<u8>): (b: seq<u8>)
    ensures |b| == 2 * |d|
    ensures AsciiString(b) == Hex(d)
  {
    if d == [] then []
    else [(HexDigit(d[0] as nat / 16) as int) as u8, (HexDigit(d[0] as nat % 16) as int) as u8] + HexBytes(d[1..])
  }

  /** A file the decoder accepts: digest text split 16/16 around the sizes, one
      filler byte, the payload and its checksum. */
  function EncodeEnvelope(data: seq<u8>, payload: seq<u8>, md5: Digest, filler: u8): (file: seq<u8>)
    requires |data| <= INT32_MAX && |payload| <= INT32_MAX
    requires |md5(data)| == 16
    ensures |file| == PAYLOAD_AT + |payload| + 1
  {
    var text := HexBytes(md5(data));
    text[..16] + EncodeLE32(|data| as u32) + EncodeLE32(|payload| as u32) + text[16..] + [filler]
      + payload + [UchVal(payload)]
  }

  /** Round trip: when the payload inflates to (at least) the data, decoding the
      built envelope returns exactly that data, its sizes and its digest. */
  lemma EnvelopeRoundTrip(data: seq<u8>, payload: seq<u8>, inflate: Inflater, md5: Digest, filler: u8)
    requires |data| <= INT32_MAX && |payload| <= INT32_MAX
    requires |md5(data)| == 16
    requires |inflate(payload)| >= |data| && inflate(payload)[..|data|] == data
    ensures DecodeEnvelope(EncodeEnvelope(data, payload, md5, filler), inflate, md5)
         == Success(GameFile(Hex(md5(data)), |data| as u32, |payload| as u32, UchVal(payload), 0, Some(data)))
  {
    var file := EncodeEnvelope(data, payload, md5, filler);
    var text := HexBytes(md5(data));
    assert file[UNPACK_AT..PACK_AT] == EncodeLE32(|data| as u32);
    assert file[PACK_AT..DIGEST_B_AT] == EncodeLE32(|payload| as u32);
    LE32RoundTrip(|data| as u32, file[UNPACK_AT..PACK_AT]);
    LE32RoundTrip(|payload| as u32, file[PACK_AT..DIGEST_B_AT]);
    assert file[PAYLOAD_AT..PAYLOAD_AT + |payload|] == payload;
    assert file[PAYLOAD_AT + |payload|] == UchVal(payload);
    assert file[0..UNPACK_AT] == text[..16];
    assert file[DIGEST_B_AT..PAYLOAD_AT] == text[16..] + [filler];
    assert text[..16] + text[16..] == text;
    assert (text[..16] + (text[16..] + [filler]))[..32] == text;
  }
}
