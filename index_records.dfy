/** The index (`.did`) file: the envelope's data XORed with 0x99, cut into
    332-byte records (DIDIndexHeader), and the name map built from them. */
module IndexRecords {
  import opened Bytes
  import opened Outcomes
  import opened Streams
  import opened Envelope

  const NAME_LENGTH: nat := 64
  const PATH_LENGTH: nat := 256
  const STRUCT_SIZE_BYTES: nat := NAME_LENGTH + PATH_LENGTH + 4 + 4 + 4
  const XOR_DECRYPTION_KEY: u8 := 0x99

  /** DIDIndexHeader: one named entry saying where a sprite's data lives. */
  datatype IndexRecord = IndexRecord(
    name: string,
    path: string,
    dwFileOffset: u32,
    dwDataFileIndex: u32,
    dwThisPosIndex: u32)

  /** One record from its 332 bytes: the non-zero bytes of the 64-byte name and the
      256-byte path, then three little-endian u32 at offsets 320, 324 and 328. */
  function ParseRecord(b: seq<u8>): IndexRecord
    requires |b| == STRUCT_SIZE_BYTES
  {
    IndexRecord(
      ConvertToAsciiString(b[0..64]),
      ConvertToAsciiString(b[64..320]),
      LE32(b[320..324]),
      LE32(b[324..328]),
      LE32(b[328..332]))
  }

  /** Record `i` of a buffer comes from bytes [332 i, 332 i + 332). */
  function ParseRecords(data: seq<u8>, count: nat): (rs: seq<IndexRecord>)
    requires STRUCT_SIZE_BYTES * count <= |data|
    ensures |rs| == count
  {
    seq(count, i requires 0 <= i < count =>
      ParseRecord(data[STRUCT_SIZE_BYTES * i..STRUCT_SIZE_BYTES * i + STRUCT_SIZE_BYTES]))
  }

  /** Record `i` of `count` lies inside data that holds `count` records. */
  lemma RecordFits(i: nat, count: nat, size: nat)
    requires i < count && STRUCT_SIZE_BYTES * count <= size
    ensures STRUCT_SIZE_BYTES * (i + 1) <= size
  {
  }

  /** One more record parsed extends the parse of the records before it. */
  lemma ParseRecordsStep(data: seq<u8>, i: nat)
    requires STRUCT_SIZE_BYTES * (i + 1) <= |data|
    ensures ParseRecords(data, i + 1)
      == ParseRecords(data, i) + [ParseRecord(data[STRUCT_SIZE_BYTES * i..STRUCT_SIZE_BYTES * i + STRUCT_SIZE_BYTES])]
  {
  }

  /** The map after one more record read. */
  lemma NameMapStep(data: seq<u8>, i: nat, names: map<string, IndexRecord>, r: IndexRecord)
    requires STRUCT_SIZE_BYTES * (i + 1) <= |data|
    requires names == NameMap(ParseRecords(data, i))
    requires r == ParseRecord(data[STRUCT_SIZE_BYTES * i..STRUCT_SIZE_BYTES * i + STRUCT_SIZE_BYTES])
    ensures names[r.name := r] == NameMap(ParseRecords(data, i + 1))
  {
    ParseRecordsStep(data, i);
    NameMapSnoc(ParseRecords(data, i), r);
  }

  /** Reads one record off the data stream, then its fields off a stream over the
      record's own bytes. */
  method ReadRecord(s: ByteStream) returns (r: Result<IndexRecord>)
    modifies s
    ensures old(s.pos) + STRUCT_SIZE_BYTES <= |s.data| ==>
      r == Success(ParseRecord(s.data[old(s.pos)..old(s.pos) + STRUCT_SIZE_BYTES]))
      && s.pos == old(s.pos) + STRUCT_SIZE_BYTES
    ensures old(s.pos) + STRUCT_SIZE_BYTES > |s.data| ==> r == Failure(ShortRead(IndexRecordBytes))
  {
    var indexBuf := s.Read(STRUCT_SIZE_BYTES);
    if |indexBuf| != STRUCT_SIZE_BYTES {
      return Failure(ShortRead(IndexRecordBytes));
    }
    var indexStream := new ByteStream(indexBuf);
    var nameBuf := indexStream.Read(NAME_LENGTH);
    var name := ConvertToAsciiString(nameBuf);
    var pathBuf := indexStream.Read(PATH_LENGTH);
    var path := ConvertToAsciiString(pathBuf);
    var offsetBuf := indexStream.Read(4);
    var fileIndexBuf := indexStream.Read(4);
    var thisPosBuf := indexStream.Read(4);
    r := Success(IndexRecord(name, path, LE32(offsetBuf), LE32(fileIndexBuf), LE32(thisPosBuf)));
  }

  /** `indicesMap[record.name] = record` for each record in file order. */
  function NameMap(rs: seq<IndexRecord>): map<string, IndexRecord>
  {
    if rs == [] then map[] else NameMap(rs[..|rs| - 1])[rs[|rs| - 1].name := rs[|rs| - 1]]
  }

  /** One more record enters the map under its name, replacing any earlier one. */
  lemma NameMapSnoc(rs: seq<IndexRecord>, r: IndexRecord)
    ensures NameMap(rs + [r]) == NameMap(rs)[r.name := r]
  {
    assert (rs + [r])[..|rs|] == rs;
  }

  /** The map holds exactly the names that occur, each bound to the LAST record carrying it. */
  lemma {:induction false} NameMapLastWins(rs: seq<IndexRecord>, k: string)
    ensures k in NameMap(rs) <==> exists i :: 0 <= i < |rs| && rs[i].name == k
    ensures k in NameMap(rs) ==>
      exists i :: 0 <= i < |rs| && rs[i].name == k && NameMap(rs)[k] == rs[i]
        && forall j :: i < j < |rs| ==> rs[j].name != k
  {
    if rs != [] {
      var init := rs[..|rs| - 1];
      var last := rs[|rs| - 1];
      NameMapLastWins(init, k);
      if last.name == k {
        assert rs[|rs| - 1].name == k;
      } else {
        if k in NameMap(rs) {
          var i :| 0 <= i < |init| && init[i].name == k && NameMap(init)[k] == init[i]
            && forall j :: i < j < |init| ==> init[j].name != k;
          assert rs[i] == init[i];
        }
        if exists i :: 0 <= i < |rs| && rs[i].name == k {
          var i :| 0 <= i < |rs| && rs[i].name == k;
          assert init[i] == rs[i];
        }
      }
    }
  }

  // ---------------------------------------------------------------- the index file

  /** The index file decoded: its header (indicesCount set, no data stored in it)
      and the XORed data buffer the loader returns beside it. */
  datatype LoadedIndex = LoadedIndex(header: GameFile, data: seq<u8>)

  /** loadIndexHeader / loadIndex: existence check, envelope decode, XOR with 0x99,
      and `indicesCount = Convert.ToInt32(unpackSize) / 332`. */
  function LoadIndexSpec(dir: GameDirectory, path: string, inflate: Inflater, md5: Digest): Result<LoadedIndex>
  {
    if !dir.Exists(path) then Failure(FileNotFound(path))
    else
      var decoded := DecodeEnvelope(dir.files[path], inflate, md5);
      if decoded.Failure? then Failure(decoded.error)
      else
        DecodeEnvelopeLayout(dir.files[path], inflate, md5);
        var g := decoded.value;
        var data := XorAll(g.uncompressedData.value, XOR_DECRYPTION_KEY);
        var unpack := ToInt32(g.ulUnpackSize);
        if unpack.Failure? then Failure(unpack.error)
        else Success(LoadedIndex(g.(indicesCount := unpack.value / STRUCT_SIZE_BYTES, uncompressedData := None), data))
  }

  method LoadIndexFile(dir: GameDirectory, path: string, inflate: Inflater, md5: Digest) returns (r: Result<LoadedIndex>)
    ensures r == LoadIndexSpec(dir, path, inflate, md5)
  {
    if !dir.Exists(path) {
      return Failure(FileNotFound(path));
    }
    var loadHeader :- DecryptV2Gamefile(dir.files[path], inflate, md5);
    DecodeEnvelopeLayout(dir.files[path], inflate, md5);
    var uncompressedData := XorAll(loadHeader.uncompressedData.value, XOR_DECRYPTION_KEY);
    var unpack :- ToInt32(loadHeader.ulUnpackSize);
    r := Success(LoadedIndex(loadHeader.(indicesCount := unpack / STRUCT_SIZE_BYTES, uncompressedData := None),
                             uncompressedData));
  }

  /** A loaded index: the buffer is the verified data XORed with 0x99 (same length),
      and the record count is unpackSize / 332 — so every record fits in the buffer. */
  lemma LoadIndexFacts(dir: GameDirectory, path: string, inflate: Inflater, md5: Digest)
    requires LoadIndexSpec(dir, path, inflate, md5).Success?
    ensures var li := LoadIndexSpec(dir, path, inflate, md5).value;
      && dir.Exists(path)
      && DecodeEnvelope(dir.files[path], inflate, md5).Success?
      && var g := DecodeEnvelope(dir.files[path], inflate, md5).value;
      && g.uncompressedData.Some?
      && li.data == XorAll(g.uncompressedData.value, XOR_DECRYPTION_KEY)
      && |li.data| == li.header.ulUnpackSize as int
      && li.header.indicesCount == li.header.ulUnpackSize as int / STRUCT_SIZE_BYTES
      && 0 <= li.header.indicesCount && STRUCT_SIZE_BYTES * li.header.indicesCount <= |li.data|
  {
    DecodeEnvelopeLayout(dir.files[path], inflate, md5);
    RecordCountFits(LoadIndexSpec(dir, path, inflate, md5).value.header.ulUnpackSize as int);
  }

  /** `n / 332` whole records take at most `n` bytes. */
  lemma RecordCountFits(n: nat)
    ensures 0 <= n / STRUCT_SIZE_BYTES && STRUCT_SIZE_BYTES * (n / STRUCT_SIZE_BYTES) <= n
  {
    assert STRUCT_SIZE_BYTES == 332;
  }

  /** The index file is missing: loading fails before anything is read. */
  lemma MissingIndexFile(dir: GameDirectory, path: string, inflate: Inflater, md5: Digest)
    requires !dir.Exists(path)
    ensures LoadIndexSpec(dir, path, inflate, md5) == Failure(FileNotFound(path))
  {
  }

  // ---------------------------------------------------------------- building records

  /** A record's bytes from its fields: NUL-padded name and path, then the three u32. */
  function EncodeRecord(name: seq<u8>, path: seq<u8>, fileOffset: u32, dataFileIndex: u32, thisPosIndex: u32): (b: seq<u8>)
    requires |name| <= NAME_LENGTH && |path| <= PATH_LENGTH
    ensures |b| == STRUCT_SIZE_BYTES
  {
    name + Zeros(NAME_LENGTH - |name|) + path + Zeros(PATH_LENGTH - |path|)
      + EncodeLE32(fileOffset) + EncodeLE32(dataFileIndex) + EncodeLE32(thisPosIndex)
  }

  /** Round trip: a record built from NUL-free ASCII text parses back to the same
      text (padding stripped) and the same three numbers. */
  lemma RecordRoundTrip(name: seq<u8>, path: seq<u8>, fileOffset: u32, dataFileIndex: u32, thisPosIndex: u32)
    requires |name| <= NAME_LENGTH && |path| <= PATH_LENGTH
    requires forall i :: 0 <= i < |name| ==> 0 < name[i] < 0x80
    requires forall i :: 0 <= i < |path| ==> 0 < path[i] < 0x80
    ensures var r := ParseRecord(EncodeRecord(name, path, fileOffset, dataFileIndex, thisPosIndex));
      && |r.name| == |name| && (forall i :: 0 <= i < |name| ==> r.name[i] as int == name[i] as int)
      && |r.path| == |path| && (forall i :: 0 <= i < |path| ==> r.path[i] as int == path[i] as int)
      && r.dwFileOffset == fileOffset && r.dwDataFileIndex == dataFileIndex && r.dwThisPosIndex == thisPosIndex
  {
    var b := EncodeRecord(name, path, fileOffset, dataFileIndex, thisPosIndex);
    assert b[0..64] == name + Zeros(NAME_LENGTH - |name|);
    assert b[64..320] == path + Zeros(PATH_LENGTH - |path|);
    ConvertPaddedAscii(name, NAME_LENGTH - |name|);
    ConvertPaddedAscii(path, PATH_LENGTH - |path|);
    LE32RoundTrip(fileOffset, b[320..324]);
    LE32RoundTrip(dataFileIndex, b[324..328]);
    LE32RoundTrip(thisPosIndex, b[328..332]);
  }
}
