/** DDAExtractor: the TypeScript port of the index loader. It slices the same envelope
    out of the index file with `subarray` and checks the inner checksum with its own
    one-byte accumulator; what it does after the check (compression, hashing) has no
    visible result. */
module DdaExtractor {
  import opened Bytes
  import opened Outcomes
  import opened Envelope

  const DDI_FILE: string := "./gamefiles/v2datai.did"

  /** `Buffer.alloc(1, packBuf.at(i))`: the byte at `i`, and 0 past the end, where
      `at` yields undefined and the fresh buffer stays zero-filled. */
  function At(buf: seq<u8>, i: nat): u8 {
    if i < |buf| then buf[i] else 0
  }

  /** The first `n` bytes the loop reads, zeros past the buffer's end. */
  function Summed(buf: seq<u8>, n: nat): (s: seq<u8>)
    ensures |s| == n && forall i :: 0 <= i < n ==> s[i] == At(buf, i)
  {
    seq(n, i requires 0 <= i < n => At(buf, i))
  }

  /** A checksum routine: a buffer that may be missing and the size to check. */
  type ChecksumFn = (Option<seq<u8>>, int) -> Result<int>

  /** calculateChecksum as written: `256 - sum`, where the sum of the first `size - 1`
      bytes is kept to one byte by the mask. */
  function TsChecksum(packBuf: Option<seq<u8>>, size: int): (r: Result<int>)
  {
    if packBuf.None? || size <= 0 then Failure(NoDataToRead)
    else Success(0x100 - Sum(Summed(packBuf.value, size - 1)) % 0x100)
  }

  /** calculateChecksum: a one-byte buffer updated in place, masked back to a byte after
      every addition. */
  method CalculateChecksum(packBuf: Option<seq<u8>>, size: int) returns (r: Result<int>)
    ensures r == TsChecksum(packBuf, size)
  {
    if packBuf.None? || size <= 0 {
      return Failure(NoDataToRead);
    }
    var buf := packBuf.value;
    var chkSum := new u8[1](_ => 0);
    var i := 0;
    while i < size - 1
      invariant 0 <= i <= size - 1
      invariant chkSum[0] as int == Sum(Summed(buf, i)) % 0x100
    {
      var cChkSum := chkSum[0];
      var dat := At(buf, i);
      var res := cChkSum as int + dat as int;
      SummedStep(buf, i);
      chkSum[0] := (res % 0x100) as u8;
      i := i + 1;
    }
    r := Success(0x100 - chkSum[0] as int);
  }

  /** One more byte read adds that byte to the running sum, also modulo 256. */
  lemma SummedStep(buf: seq<u8>, i: nat)
    ensures Sum(Summed(buf, i + 1)) == Sum(Summed(buf, i)) + At(buf, i) as nat
    ensures (Sum(Summed(buf, i)) % 0x100 + At(buf, i) as int) % 0x100 == Sum(Summed(buf, i + 1)) % 0x100
  {
    assert Summed(buf, i + 1)[..i] == Summed(buf, i);
  }

  /** The result always lies in 1..256; it is 256 exactly when the sum is 0 mod 256. */
  lemma TsChecksumRange(packBuf: Option<seq<u8>>, size: int)
    requires TsChecksum(packBuf, size).Success?
    ensures 1 <= TsChecksum(packBuf, size).value <= 0x100
    ensures TsChecksum(packBuf, size).value == 0x100 <==> Sum(Summed(packBuf.value, size - 1)) % 0x100 == 0
  {
  }

  /** Over a whole payload the TypeScript value agrees with calculateUchVal modulo 256,
      and is 256 exactly where calculateUchVal gives 0. */
  lemma TsChecksumVersusUchVal(p: seq<u8>)
    requires |p| > 0
    ensures TsChecksum(Some(p), |p|).Success?
    ensures TsChecksum(Some(p), |p|).value % 0x100 == UchVal(p) as int
    ensures TsChecksum(Some(p), |p|).value == 0x100 <==> UchVal(p) == 0
  {
    assert Summed(p, |p| - 1) == SummedPart(p);
  }

  /** calculateChecksum with the result reduced to one byte, `(256 - sum) & 0xFF`. */
  function CorrectedChecksum(packBuf: Option<seq<u8>>, size: int): (r: Result<int>)
    ensures r.Success? ==> 0 <= r.value < 0x100
  {
    if packBuf.None? || size <= 0 then Failure(NoDataToRead)
    else Success((0x100 - Sum(Summed(packBuf.value, size - 1)) % 0x100) % 0x100)
  }

  /** The corrected checksum of a payload is calculateUchVal's. */
  lemma CorrectedChecksumIsUchVal(p: seq<u8>)
    requires |p| > 0
    ensures CorrectedChecksum(Some(p), |p|) == Success(UchVal(p) as int)
  {
    assert Summed(p, |p| - 1) == SummedPart(p);
  }

  // ---------------------------------------------------------------- loadIndexes

  /** Buffer.subarray(start, end), as typed-array `subarray` resolves its indices: a
      negative index counts back from the end, the result is clamped to the buffer,
      and it is empty when end <= start. */
  function Subarray(buf: seq<u8>, start: int, end: int): (s: seq<u8>)
    ensures 0 <= start <= end <= |buf| ==> s == buf[start..end]
    ensures -|buf| <= start < 0 && end >= |buf| ==> s == buf[|buf| + start..]
    ensures |s| <= |buf|
  {
    var lo := Index(|buf|, start);
    var hi := Index(|buf|, end);
    if hi <= lo then [] else buf[lo..hi]
  }

  /** One resolved `subarray` index: from the end when negative, then clamped to 0..len. */
  function Index(len: nat, i: int): (k: nat)
    ensures k <= len
    ensures 0 <= i <= len ==> k == i
    ensures i < 0 && 0 <= len + i ==> k == len + i
  {
    if i < 0 then (if len + i < 0 then 0 else len + i)
    else if i > len then len else i
  }

  /** The values loadIndexes takes from the index file before its checksum test. */
  datatype IndexFileSlices = IndexFileSlices(
    checkSum: seq<u8>,
    checkSumPart2: seq<u8>,
    unpackSize: u32,
    packSize: u32,
    compressed: seq<u8>,
    uchChecksum: u8)

  /** loadIndexes up to the checksum test, with the given checksum routine: a missing
      file throws, readUInt32LE throws on fewer than 4 bytes, readUInt8 on none, and a
      mismatch throws. */
  function LoadIndexesSpec(dir: GameDirectory, checksum: ChecksumFn): Result<IndexFileSlices>
  {
    if !dir.Exists(DDI_FILE) then Failure(FileNotFound(DDI_FILE))
    else
      var indexesBuf := dir.files[DDI_FILE];
      var checkSumBuf := Subarray(indexesBuf, 0, 16);
      var checkSumPart2Buf := Subarray(indexesBuf, 16 + 4 + 4, 16 + 4 + 4 + 16 + 1);
      var unpackSizeBuf := Subarray(indexesBuf, 16, 16 + 4);
      var packSizeBuf := Subarray(indexesBuf, 16 + 4, 16 + 4 + 4);
      if |packSizeBuf| < 4 then Failure(ShortRead(PackSizeField))
      else
        var packSize := LE32(packSizeBuf[..4]);
        var unpackSize := LE32(unpackSizeBuf[..4]);
        var compressedBuf := Subarray(indexesBuf, 16 + 4 + 4 + 16 + 1, packSize as int + 16 + 4 + 4 + 16 + 1);
        var uchChecksumBuf := Subarray(indexesBuf, packSize as int + 16 + 4 + 4 + 16 + 1,
                                       packSize as int + 16 + 4 + 4 + 16 + 1 + 1);
        if |uchChecksumBuf| < 1 then Failure(ShortRead(InnerChecksum))
        else
          var uchChecksum := uchChecksumBuf[0];
          var uchVal :- checksum(Some(compressedBuf), packSize as int);
          if uchVal != uchChecksum as int then Failure(ChecksumMismatch(uchChecksum, uchVal))
          else Success(IndexFileSlices(checkSumBuf, checkSumPart2Buf, unpackSize, packSize, compressedBuf, uchChecksum))
  }

  /** With the corrected checksum, the TypeScript slicing agrees with the C# decoder: a
      file whose non-empty payload passes the C# checksum passes here, with the same
      digest parts, sizes, payload and checksum byte. */
  lemma SlicesAgreeWithEnvelope(dir: GameDirectory)
    requires dir.Exists(DDI_FILE)
    requires var file := dir.files[DDI_FILE];
      && |file| >= PAYLOAD_AT
      && var pack := LE32(file[PACK_AT..DIGEST_B_AT]) as int;
      && 0 < pack && |file| >= PAYLOAD_AT + pack + 1
      && file[PAYLOAD_AT + pack] == UchVal(file[PAYLOAD_AT..PAYLOAD_AT + pack])
    ensures var file := dir.files[DDI_FILE];
      var pack := LE32(file[PACK_AT..DIGEST_B_AT]) as int;
      var r := LoadIndexesSpec(dir, CorrectedChecksum);
      && r.Success?
      && r.value.checkSum == file[0..UNPACK_AT]
      && r.value.checkSumPart2 == file[DIGEST_B_AT..PAYLOAD_AT]
      && r.value.unpackSize == LE32(file[UNPACK_AT..PACK_AT])
      && r.value.packSize as int == pack
      && r.value.compressed == file[PAYLOAD_AT..PAYLOAD_AT + pack]
      && r.value.uchChecksum == file[PAYLOAD_AT + pack]
  {
    var file := dir.files[DDI_FILE];
    var pack := LE32(file[PACK_AT..DIGEST_B_AT]) as int;
    assert Subarray(file, 20, 24)[..4] == file[PACK_AT..DIGEST_B_AT];
    assert Subarray(file, 16, 20)[..4] == file[UNPACK_AT..PACK_AT];
    CorrectedChecksumIsUchVal(file[PAYLOAD_AT..PAYLOAD_AT + pack]);
  }

  /** A 44-byte index file with a two-byte payload whose summed part is 0, as the C#
      decoder sees it: packSize 2, payload [0, 7], checksum byte 0. */
  function ZeroSumIndexFile(): (file: seq<u8>)
    ensures |file| == 44
  {
    Zeros16() + [0, 0, 0, 0] + [2, 0, 0, 0] + Zeros16() + [0] + [0, 7] + [0]
  }

  function Zeros16(): (z: seq<u8>)
    ensures |z| == 16
  {
    [0, 0, 0, 0, 0, 0, 0, 0, 0, 0, 0, 0, 0, 0, 0, 0]
  }

  /** As written, the TypeScript loader rejects that file, since its checksum is 256 and
      no stored byte equals 256; the C# checksum is 0 and matches, and so does the
      corrected one. */
  lemma ZeroSumChecksumRejected()
    ensures var dir := GameDirectory(map[DDI_FILE := ZeroSumIndexFile()]);
      var file := ZeroSumIndexFile();
      && LoadIndexesSpec(dir, TsChecksum) == Failure(ChecksumMismatch(0, 0x100))
      && file[PAYLOAD_AT + 2] == UchVal(file[PAYLOAD_AT..PAYLOAD_AT + 2]) == 0
      && LoadIndexesSpec(dir, CorrectedChecksum).Success?
  {
    var dir := GameDirectory(map[DDI_FILE := ZeroSumIndexFile()]);
    var file := ZeroSumIndexFile();
    assert file[20..24] == [2, 0, 0, 0];
    assert Subarray(file, 20, 24)[..4] == [2, 0, 0, 0];
    assert LE32([2, 0, 0, 0]) == 2;
    assert Subarray(file, 41, 43) == [0, 7];
    assert Summed([0, 7], 1) == [0];
    assert Sum([0]) == 0;
    assert file[41..43] == [0, 7];
    assert SummedPart([0, 7]) == [0];
  }

  /** An empty payload (packSize 0) is refused before any comparison: calculateChecksum
      throws "No data to read", in both the written and the corrected form, while the C#
      checksum of an empty payload is 0, so the C# decoder gets past its checksum test
      when the stored byte is 0. */
  lemma EmptyPayloadRejected(dir: GameDirectory, inflate: Inflater, md5: Digest)
    requires dir.Exists(DDI_FILE)
    requires var file := dir.files[DDI_FILE];
      |file| > PAYLOAD_AT && LE32(file[PACK_AT..DIGEST_B_AT]) == 0 && file[PAYLOAD_AT] == 0
    ensures LoadIndexesSpec(dir, TsChecksum) == Failure(NoDataToRead)
    ensures LoadIndexesSpec(dir, CorrectedChecksum) == Failure(NoDataToRead)
    ensures var file := dir.files[DDI_FILE];
      && file[PAYLOAD_AT] == UchVal(file[PAYLOAD_AT..PAYLOAD_AT])
      && !(DecodeEnvelope(file, inflate, md5).Failure? && DecodeEnvelope(file, inflate, md5).error.ChecksumMismatch?)
  {
    var file := dir.files[DDI_FILE];
    assert Subarray(file, 20, 24)[..4] == file[PACK_AT..DIGEST_B_AT];
    assert Subarray(file, 41, 42) == [file[PAYLOAD_AT]];
  }
}
