/** TFCDDADatabase: the sprite database. The index file names every sprite and says
    in which data (`.dda`) file and at which offset it lives; the data files are
    loaded whole, and a sprite is its 28-byte masked header followed by its pixels. */
module DdaDatabase {
  import opened Bytes
  import opened Outcomes
  import opened Streams
  import opened Envelope
  import opened IndexRecords
  import opened RandomTables
  import opened SpriteHeaders

  const DID_FILE: string := "V2DataI.did"
  const DDA_FILE: string := "V2Data"
  const DDA_FILES_COUNT: nat := 20

  /** The key table: 4096 entries, rebuilt from seed 666666 with bounds [0, 255). */
  const KEY_TABLE_SIZE: nat := 4096
  const KEY_SEED: u32 := 666666
  const KEY_MIN: u32 := 0
  const KEY_MAX: u32 := 255

  /** A sprite once loaded: its index record, its header and its pixel bytes. The
      compression types without a loader leave the result at its default value. */
  datatype LoadedSprite =
    | DefaultSprite
    | Sprite(indexHeader: IndexRecord, spriteHeader: SpriteHeader, loadedChunk: seq<u8>)

  // ---------------------------------------------------------------- data file names

  function DigitChar(d: nat): (c: char)
    requires d < 10
    ensures '0' <= c <= '9'
  {
    ('0' as int + d) as char
  }

  predicate AllDigits(s: string) {
    forall i :: 0 <= i < |s| ==> '0' <= s[i] <= '9'
  }

  /** The decimal digits of `n`, most significant first, without leading zeros. */
  function Decimal(n: nat): (s: string)
    ensures 1 <= |s| && AllDigits(s)
    ensures n < 10 <==> |s| == 1
  {
    if n < 10 then [DigitChar(n)] else Decimal(n / 10) + [DigitChar(n % 10)]
  }

  /** The number a string of digits denotes. */
  function DecimalValue(s: string): nat
    requires AllDigits(s)
  {
    if s == [] then 0 else DecimalValue(s[..|s| - 1]) * 10 + (s[|s| - 1] as int - '0' as int)
  }

  /** The `D2` format: at least two digits, padded with a leading zero. */
  function D2(n: nat): (s: string)
    ensures 2 <= |s| && AllDigits(s)
    ensures n < 100 ==> |s| == 2
  {
    if n < 10 then ['0', DigitChar(n)] else Decimal(n)
  }

  /** `{0}{1:D2}.dda` with DDA_FILE: "V2Data00.dda", "V2Data01.dda", ... */
  function GenerateDDAFileFromIndex(i: nat): (name: string)
    ensures |name| == |DDA_FILE| + |D2(i)| + 4
    ensures name[..6] == DDA_FILE && name[|name| - 4..] == ".dda" && name[6..|name| - 4] == D2(i)
  {
    DDA_FILE + D2(i) + ".dda"
  }

  lemma {:induction false} DecimalRoundTrip(n: nat)
    ensures DecimalValue(Decimal(n)) == n
  {
    if n >= 10 {
      DecimalRoundTrip(n / 10);
      var s := Decimal(n);
      assert s[..|s| - 1] == Decimal(n / 10);
    }
  }

  lemma D2RoundTrip(n: nat)
    ensures DecimalValue(D2(n)) == n
  {
    if n < 10 {
      var s := D2(n);
      assert DecimalValue(['0']) == 0 by {
        assert ['0'][..0] == [];
      }
      assert s[..1] == ['0'];
      assert s[1] as int - '0' as int == n;
    } else {
      DecimalRoundTrip(n);
    }
  }

  /** The index can be read back from the name: the digits between "V2Data" and ".dda". */
  lemma DdaFileIndexRoundTrip(i: nat)
    ensures var name := GenerateDDAFileFromIndex(i); DecimalValue(name[6..|name| - 4]) == i
  {
    D2RoundTrip(i);
  }

  /** Distinct indices name distinct data files. */
  lemma DdaFileNamesDistinct(i: nat, j: nat)
    requires GenerateDDAFileFromIndex(i) == GenerateDDAFileFromIndex(j)
    ensures i == j
  {
    DdaFileIndexRoundTrip(i);
    DdaFileIndexRoundTrip(j);
  }

  /** The files loadDDAs looks for are 12 characters long, "V2Data00.dda" to "V2Data19.dda". */
  lemma DdaFileNameShape(i: nat)
    requires i < DDA_FILES_COUNT
    ensures |GenerateDDAFileFromIndex(i)| == 12
  {
  }

  // ---------------------------------------------------------------- the data file cache

  /** What loadDDAs has stored after examining the first `n` indices, one index at a
      time: each data file present in the game directory is added with its contents. */
  function DdaCacheUpTo(dir: GameDirectory, n: nat): map<string, seq<u8>>
  {
    if n == 0 then map[]
    else
      var name := GenerateDDAFileFromIndex(n - 1);
      if name in dir.files then DdaCacheUpTo(dir, n - 1)[name := dir.files[name]] else DdaCacheUpTo(dir, n - 1)
  }

  /** After `n` indices the cache holds exactly the data files among the first `n` names
      that exist, each with its whole contents. */
  lemma {:induction false} DdaCacheContents(dir: GameDirectory, n: nat, k: string)
    ensures k in DdaCacheUpTo(dir, n) <==>
      k in dir.files && exists i :: 0 <= i < n && GenerateDDAFileFromIndex(i) == k
    ensures k in DdaCacheUpTo(dir, n) ==> DdaCacheUpTo(dir, n)[k] == dir.files[k]
  {
    if n > 0 {
      DdaCacheContents(dir, n - 1, k);
      if k in dir.files && exists i :: 0 <= i < n && GenerateDDAFileFromIndex(i) == k {
        var i :| 0 <= i < n && GenerateDDAFileFromIndex(i) == k;
        if i < n - 1 {
          assert exists j :: 0 <= j < n - 1 && GenerateDDAFileFromIndex(j) == k;
        }
      }
      if k in DdaCacheUpTo(dir, n) && k == GenerateDDAFileFromIndex(n - 1) {
        assert GenerateDDAFileFromIndex(n - 1) == k;
      }
    }
  }

  function DdaCache(dir: GameDirectory): map<string, seq<u8>> {
    DdaCacheUpTo(dir, DDA_FILES_COUNT)
  }

  /** internalLoadSprite's lookup: Convert.ToInt32 of the data file index, the name,
      then the dictionary (never created: a null dereference; absent: the failed assertion). */
  function LookupDda(loadedDDAs: Option<map<string, seq<u8>>>, dataFileIndex: u32): (r: Result<seq<u8>>)
    ensures r.Success? ==>
      (loadedDDAs.Some? && dataFileIndex as int <= INT32_MAX
       && GenerateDDAFileFromIndex(dataFileIndex as nat) in loadedDDAs.value
       && r.value == loadedDDAs.value[GenerateDDAFileFromIndex(dataFileIndex as nat)])
  {
    var i :- ToInt32(dataFileIndex);
    var ddaFile := GenerateDDAFileFromIndex(i);
    if loadedDDAs.None? then Failure(NotLoaded)
    else if ddaFile !in loadedDDAs.value then Failure(KeyNotFound(ddaFile))
    else Success(loadedDDAs.value[ddaFile])
  }

  /** After loadDDAs, a record's data file is found exactly when its index is below 20
      and that file exists, and what is found is the file's contents. */
  lemma LookupLoadedDda(dir: GameDirectory, dataFileIndex: u32)
    ensures var r := LookupDda(Some(DdaCache(dir)), dataFileIndex);
      && (r.Success? <==> dataFileIndex as int < DDA_FILES_COUNT
                          && GenerateDDAFileFromIndex(dataFileIndex as nat) in dir.files)
      && (r.Success? ==> r.value == dir.files[GenerateDDAFileFromIndex(dataFileIndex as nat)])
  {
    var name := GenerateDDAFileFromIndex(dataFileIndex as nat);
    DdaCacheContents(dir, DDA_FILES_COUNT, name);
    if name in DdaCache(dir) {
      var i :| 0 <= i < DDA_FILES_COUNT && GenerateDDAFileFromIndex(i) == name;
      DdaFileNamesDistinct(i, dataFileIndex as nat);
    }
  }

  // ---------------------------------------------------------------- segments

  /** `(byte)XOR.Values[k]`: the low eight bits of a key. */
  function KeyByte(v: u16): u8 {
    (v as int % 0x100) as u8
  }

  /** Where getDDAFileSegment starts reading: unmasked reads skip a 4-byte prefix
      (in wrapping int arithmetic). */
  function SegmentStart(offset: i32, mXor: bool): i32 {
    if mXor then offset else Int32Wrap(offset + 4)
  }

  lemma DivMonotone(a: nat, b: nat)
    requires a <= b
    ensures a / KEY_TABLE_SIZE <= b / KEY_TABLE_SIZE
  {
  }

  /** getDDAFileSegment: `len` bytes from the data buffer at the start position; a
      negative position makes Seek throw, fewer bytes than asked fail the read assertion,
      and a masked read XORs byte i with the key of block (start + i) / 4096, where a
      block past the key table throws. */
  function FileSegment(ddaBuf: seq<u8>, offset: i32, len: nat, mXor: bool, keys: seq<u16>): (r: Result<seq<u8>>)
    ensures r.Success? ==> |r.value| == len
    ensures r.Failure? <==>
      (SegmentStart(offset, mXor) < 0
       || (len > 0 && SegmentStart(offset, mXor) + len > |ddaBuf|)
       || (len > 0 && mXor && (SegmentStart(offset, mXor) + len - 1) / KEY_TABLE_SIZE >= |keys|))
  {
    var start := SegmentStart(offset, mXor);
    if start < 0 then Failure(SeekBeforeBegin)
    else if len == 0 then Success([])
    else if start + len > |ddaBuf| then Failure(ShortRead(Segment))
    else if !mXor then Success(ddaBuf[start..start + len])
    else if (start + len - 1) / KEY_TABLE_SIZE >= |keys| then Failure(IndexOutOfRange)
    else Success(MaskedBytes(ddaBuf, start, len, keys))
  }

  /** `len` bytes from position `start`, each XORed with the key of its block. */
  function MaskedBytes(ddaBuf: seq<u8>, start: nat, len: nat, keys: seq<u16>): (m: seq<u8>)
    requires len == 0 || (start + len <= |ddaBuf| && (start + len - 1) / KEY_TABLE_SIZE < |keys|)
    ensures |m| == len
  {
    seq(len, i requires 0 <= i < len =>
      DivMonotone(start + i, start + len - 1);
      MaskByte(ddaBuf[start + i], start + i, keys))
  }

  /** The mask loop of getDDAFileSegment, in place over the segment's buffer: it stops
      with a failure at the first byte whose block lies past the key table. */
  method MaskSegment(segmentBuf: array<u8>, ddaBuf: seq<u8>, start: nat, keys: seq<u16>) returns (ok: bool)
    requires segmentBuf.Length == 0 || start + segmentBuf.Length <= |ddaBuf|
    requires forall k :: 0 <= k < segmentBuf.Length ==> segmentBuf[k] == ddaBuf[start + k]
    modifies segmentBuf
    ensures ok <==> segmentBuf.Length == 0 || (start + segmentBuf.Length - 1) / KEY_TABLE_SIZE < |keys|
    ensures ok ==> segmentBuf[..] == MaskedBytes(ddaBuf, start, segmentBuf.Length, keys)
  {
    var len := segmentBuf.Length;
    for i := 0 to len
      invariant forall k :: 0 <= k < i ==>
        (start + k) / KEY_TABLE_SIZE < |keys| && segmentBuf[k] == MaskByte(ddaBuf[start + k], start + k, keys)
      invariant forall k :: i <= k < len ==> segmentBuf[k] == ddaBuf[start + k]
      invariant i > 0 ==> (start + (i - 1)) / KEY_TABLE_SIZE < |keys|
    {
      var block := (start + i) / KEY_TABLE_SIZE;
      if block >= |keys| {
        DivMonotone(start + i, start + len - 1);
        return false;
      }
      segmentBuf[i] := Xor8(segmentBuf[i], KeyByte(keys[block]));
    }
    ok := true;
    assert segmentBuf[..] == MaskedBytes(ddaBuf, start, len, keys);
  }

  /** The byte at position `p` of a data file XORed with the key of its 4096-byte block. */
  function MaskByte(b: u8, p: nat, keys: seq<u16>): u8
    requires p / KEY_TABLE_SIZE < |keys|
  {
    Xor8(b, KeyByte(keys[p / KEY_TABLE_SIZE]))
  }

  /** An unmasked segment is a plain slice of the buffer, four bytes past the offset. */
  lemma PlainSegment(ddaBuf: seq<u8>, offset: i32, len: nat, keys: seq<u16>)
    requires 0 <= offset && offset + 4 <= INT32_MAX && offset + 4 + len <= |ddaBuf|
    ensures FileSegment(ddaBuf, offset, len, false, keys) == Success(ddaBuf[offset + 4..offset + 4 + len])
  {
  }

  /** Masking is its own inverse: XORing a masked segment with the same keys gives the bytes back. */
  lemma MaskedSegmentInvolutive(ddaBuf: seq<u8>, offset: i32, len: nat, keys: seq<u16>)
    requires FileSegment(ddaBuf, offset, len, true, keys).Success?
    ensures var masked := FileSegment(ddaBuf, offset, len, true, keys).value;
      forall i :: 0 <= i < len ==>
        Xor8(masked[i], KeyByte(keys[(offset + i) / KEY_TABLE_SIZE])) == ddaBuf[offset + i]
  {
    var masked := FileSegment(ddaBuf, offset, len, true, keys).value;
    forall i | 0 <= i < len
      ensures Xor8(masked[i], KeyByte(keys[(offset + i) / KEY_TABLE_SIZE])) == ddaBuf[offset + i]
    {
      DivMonotone(offset + i, offset + len - 1);
      assert masked[i] == MaskByte(ddaBuf[offset + i], offset + i, keys);
      Xor8Involutive(ddaBuf[offset + i], KeyByte(keys[(offset + i) / KEY_TABLE_SIZE]));
    }
  }

  // ---------------------------------------------------------------- sprites

  /** true when the sprite is stored compressed. */
  predicate IsLarge(h: SpriteHeader) {
    h.dwWidth > 180 || h.dwHeight > 180
  }

  /** loadSprite_Raw: the pixel bytes follow the header. Large sprites are inflated
      and cut to dwDataUnpack bytes; small ones are returned as the dwDataPack stored bytes. */
  function LoadSpriteRawSpec(loadedDDAs: Option<map<string, seq<u8>>>, keys: seq<u16>, inflate: Inflater,
                             indexHeader: IndexRecord, spriteHeader: SpriteHeader): (r: Result<LoadedSprite>)
    ensures r.Success? ==> r.value.Sprite? && r.value.indexHeader == indexHeader && r.value.spriteHeader == spriteHeader
    ensures r.Success? ==>
      && LookupDda(loadedDDAs, indexHeader.dwDataFileIndex).Success?
      && indexHeader.dwFileOffset as int <= INT32_MAX && spriteHeader.dwDataPack as int <= INT32_MAX
      && var segment := FileSegment(LookupDda(loadedDDAs, indexHeader.dwDataFileIndex).value,
                                    Int32Wrap(indexHeader.dwFileOffset as int + SPRITE_HEADER_SIZE),
                                    spriteHeader.dwDataPack as int, false, keys);
      && segment.Success?
      && SpritePixels(inflate, spriteHeader, segment.value) == Success(r.value.loadedChunk)
  {
    var ddaBuf :- LookupDda(loadedDDAs, indexHeader.dwDataFileIndex);
    var offset :- ToInt32(indexHeader.dwFileOffset);
    var pack :- ToInt32(spriteHeader.dwDataPack);
    var segment :- FileSegment(ddaBuf, Int32Wrap(offset + SPRITE_HEADER_SIZE), pack, false, keys);
    var chunk :- SpritePixels(inflate, spriteHeader, segment);
    Success(Sprite(indexHeader, spriteHeader, chunk))
  }

  /** The pixel bytes from the stored segment: a large sprite's segment is inflated and
      cut to dwDataUnpack bytes (an inflated stream too short fails the read assertion);
      a small sprite's segment is the pixels. */
  function SpritePixels(inflate: Inflater, spriteHeader: SpriteHeader, segment: seq<u8>): (r: Result<seq<u8>>)
    ensures r.Success? && IsLarge(spriteHeader) ==> |r.value| == spriteHeader.dwDataUnpack as int
    ensures !IsLarge(spriteHeader) ==> r == Success(segment)
  {
    if IsLarge(spriteHeader) then
      var unpack :- ToInt32(spriteHeader.dwDataUnpack);
      var inflated := inflate(segment);
      if |inflated| < unpack && unpack > 0 then Failure(ShortRead(Buffer))
      else Success(inflated[..unpack])
    else
      Success(segment)
  }

  /** internalLoadSprite: the header from the 28 bytes at the record's offset (past the
      4-byte prefix), then the loader of its compression type; only COMP_DD has one. */
  function InternalLoadSpriteSpec(loadedDDAs: Option<map<string, seq<u8>>>, keys: seq<u16>, inflate: Inflater,
                                  header: IndexRecord): (r: Result<LoadedSprite>)
    ensures r.Success? ==>
      && LookupDda(loadedDDAs, header.dwDataFileIndex).Success?
      && header.dwFileOffset as int <= INT32_MAX
      && FileSegment(LookupDda(loadedDDAs, header.dwDataFileIndex).value, header.dwFileOffset as int,
                     SPRITE_HEADER_SIZE, false, keys).Success?
    ensures r.Success? && r.value.Sprite? ==>
      var sh := DecodeSpriteHeader(FileSegment(LookupDda(loadedDDAs, header.dwDataFileIndex).value,
                                               header.dwFileOffset as int, SPRITE_HEADER_SIZE, false, keys).value);
      && sh.dwCompType == COMP_DD
      && r == LoadSpriteRawSpec(loadedDDAs, keys, inflate, header, sh)
  {
    var ddaBuf :- LookupDda(loadedDDAs, header.dwDataFileIndex);
    var offset :- ToInt32(header.dwFileOffset);
    var segment :- FileSegment(ddaBuf, offset, SPRITE_HEADER_SIZE, false, keys);
    var spriteHeader := DecodeSpriteHeader(segment);
    if spriteHeader.dwCompType == COMP_DD then LoadSpriteRawSpec(loadedDDAs, keys, inflate, header, spriteHeader)
    else Success(DefaultSprite)
  }

  /** LoadSprite: the record of that name, then internalLoadSprite. */
  function LoadSpriteSpec(indicesMap: Option<map<string, IndexRecord>>, loadedDDAs: Option<map<string, seq<u8>>>,
                          keys: seq<u16>, inflate: Inflater, index: string): Result<LoadedSprite>
  {
    if indicesMap.None? then Failure(NotLoaded)
    else if index !in indicesMap.value then Failure(KeyNotFound(index))
    else InternalLoadSpriteSpec(loadedDDAs, keys, inflate, indicesMap.value[index])
  }

  lemma WrapNonNegative(x: int)
    requires 0 <= x < 0x1_0000_0000
    ensures Int32Wrap(x) >= 0 ==> Int32Wrap(x) == x
  {
  }

  /** loadSprite_Raw reads its pixels right after the 28-byte header: for a small
      sprite they are the dwDataPack bytes at offset o + 32 (no bytes, and no bounds
      check, when dwDataPack is 0), for a large one the first dwDataUnpack inflated bytes. */
  lemma RawSpriteLayout(loadedDDAs: Option<map<string, seq<u8>>>, keys: seq<u16>, inflate: Inflater,
                        header: IndexRecord, spriteHeader: SpriteHeader)
    requires LoadSpriteRawSpec(loadedDDAs, keys, inflate, header, spriteHeader).Success?
    ensures var chunk := LoadSpriteRawSpec(loadedDDAs, keys, inflate, header, spriteHeader).value.loadedChunk;
      var ddaBuf := LookupDda(loadedDDAs, header.dwDataFileIndex).value;
      var o := header.dwFileOffset as int;
      var pack := spriteHeader.dwDataPack as int;
      && (!IsLarge(spriteHeader) ==> |chunk| == pack)
      && (!IsLarge(spriteHeader) && pack > 0 ==>
            o + 4 + SPRITE_HEADER_SIZE + pack <= |ddaBuf|
            && chunk == ddaBuf[o + 4 + SPRITE_HEADER_SIZE..o + 4 + SPRITE_HEADER_SIZE + pack])
      && (IsLarge(spriteHeader) ==> |chunk| == spriteHeader.dwDataUnpack as int)
  {
    var ddaBuf := LookupDda(loadedDDAs, header.dwDataFileIndex).value;
    var o := header.dwFileOffset as int;
    var pack := spriteHeader.dwDataPack as int;
    var start := Int32Wrap(o + SPRITE_HEADER_SIZE);
    WrapNonNegative(o + SPRITE_HEADER_SIZE);
    var segment := FileSegment(ddaBuf, start, pack, false, keys).value;
    if !IsLarge(spriteHeader) && pack > 0 {
      WrapNonNegative(start + 4);
      assert segment == ddaBuf[o + 4 + SPRITE_HEADER_SIZE..o + 4 + SPRITE_HEADER_SIZE + pack];
    }
  }

  /** The 28 header bytes of the sprite stored at offset `o`, past its 4-byte prefix. */
  function SpriteHeaderBytes(ddaBuf: seq<u8>, o: nat): (b: seq<u8>)
    requires o + 4 + SPRITE_HEADER_SIZE <= |ddaBuf|
    ensures |b| == SPRITE_HEADER_SIZE
  {
    ddaBuf[o + 4..o + 4 + SPRITE_HEADER_SIZE]
  }

  /** A sprite loaded from offset `o` of its data file: its header is bytes [o + 4, o + 32)
      decoded, its type is COMP_DD, and its pixels are laid out as RawSpriteLayout says. */
  lemma SpriteLayout(loadedDDAs: Option<map<string, seq<u8>>>, keys: seq<u16>, inflate: Inflater, header: IndexRecord,
                     s: LoadedSprite)
    requires InternalLoadSpriteSpec(loadedDDAs, keys, inflate, header) == Success(s) && s.Sprite?
    ensures LookupDda(loadedDDAs, header.dwDataFileIndex).Success?
    ensures var ddaBuf := LookupDda(loadedDDAs, header.dwDataFileIndex).value;
      var o := header.dwFileOffset as int;
      && o + 4 + SPRITE_HEADER_SIZE <= |ddaBuf|
      && s.indexHeader == header
      && s.spriteHeader == DecodeSpriteHeader(SpriteHeaderBytes(ddaBuf, o))
      && s.spriteHeader.dwCompType == COMP_DD
      && LoadSpriteRawSpec(loadedDDAs, keys, inflate, header, s.spriteHeader) == Success(s)
  {
    var ddaBuf := LookupDda(loadedDDAs, header.dwDataFileIndex).value;
    var o := header.dwFileOffset as int;
    var sh := DecodeSpriteHeader(FileSegment(ddaBuf, o, SPRITE_HEADER_SIZE, false, keys).value);
    assert Success(s) == LoadSpriteRawSpec(loadedDDAs, keys, inflate, header, sh);
    assert s.spriteHeader == sh;
    HeaderFromSegment(ddaBuf, o, keys, sh);
  }

  /** A header decoded from the unmasked segment at a non-negative offset is the decoding
      of the bytes four past that offset. */
  lemma HeaderFromSegment(ddaBuf: seq<u8>, offset: i32, keys: seq<u16>, sh: SpriteHeader)
    requires 0 <= offset
    requires FileSegment(ddaBuf, offset, SPRITE_HEADER_SIZE, false, keys).Success?
    requires sh == DecodeSpriteHeader(FileSegment(ddaBuf, offset, SPRITE_HEADER_SIZE, false, keys).value)
    ensures offset + 4 + SPRITE_HEADER_SIZE <= |ddaBuf|
    ensures sh == DecodeSpriteHeader(SpriteHeaderBytes(ddaBuf, offset))
  {
    HeaderSegmentAt(ddaBuf, offset, keys);
    SameBytesSameHeader(FileSegment(ddaBuf, offset, SPRITE_HEADER_SIZE, false, keys).value,
                        SpriteHeaderBytes(ddaBuf, offset));
  }

  /** Equal bytes decode to equal headers (stated apart so the decoder is not unfolded). */
  lemma SameBytesSameHeader(a: seq<u8>, b: seq<u8>)
    requires |a| == SPRITE_HEADER_SIZE && a == b
    ensures DecodeSpriteHeader(a) == DecodeSpriteHeader(b)
  {
  }

  /** The sprite header segment at a non-negative offset lies four bytes past it. */
  lemma HeaderSegmentAt(ddaBuf: seq<u8>, offset: i32, keys: seq<u16>)
    requires 0 <= offset
    requires FileSegment(ddaBuf, offset, SPRITE_HEADER_SIZE, false, keys).Success?
    ensures offset + 4 + SPRITE_HEADER_SIZE <= |ddaBuf|
    ensures FileSegment(ddaBuf, offset, SPRITE_HEADER_SIZE, false, keys).value
         == SpriteHeaderBytes(ddaBuf, offset)
  {
    WrapNonNegative(offset + 4);
  }

  /** Only COMP_DD sprites have a loader: every other type gives the default value. */
  lemma OnlyRawSpritesLoad(loadedDDAs: Option<map<string, seq<u8>>>, keys: seq<u16>, inflate: Inflater, header: IndexRecord)
    requires InternalLoadSpriteSpec(loadedDDAs, keys, inflate, header).Success?
    ensures var segment := FileSegment(LookupDda(loadedDDAs, header.dwDataFileIndex).value,
                                       header.dwFileOffset as int, SPRITE_HEADER_SIZE, false, keys).value;
      var loaded := InternalLoadSpriteSpec(loadedDDAs, keys, inflate, header).value;
      loaded.Sprite? <==> DecodeSpriteHeader(segment).dwCompType == COMP_DD
  {
  }

  /** The record loop of loadIndices: a stream over the data, one 332-byte read per
      record, each record stored in a fresh array and entered in the map by name. */
  method ReadIndexRecords(uncompressedData: seq<u8>, count: nat)
      returns (db: array<IndexRecord>, names: map<string, IndexRecord>)
    requires STRUCT_SIZE_BYTES * count <= |uncompressedData|
    ensures fresh(db)
    ensures db[..] == ParseRecords(uncompressedData, count)
    ensures names == NameMap(db[..])
  {
    var uncompressedDataStream := new ByteStream(uncompressedData);
    db := new IndexRecord[count];
    names := map[];
    for i := 0 to count
      invariant uncompressedDataStream.data == uncompressedData
      invariant uncompressedDataStream.pos == STRUCT_SIZE_BYTES * i
      invariant db[..i] == ParseRecords(uncompressedData, i)
      invariant names == NameMap(ParseRecords(uncompressedData, i))
    {
      ghost var prefix := db[..i];
      RecordFits(i, count, |uncompressedData|);
      var current := ReadRecord(uncompressedDataStream);
      db[i] := current.value;
      assert db[..i + 1] == prefix + [current.value];
      ParseRecordsStep(uncompressedData, i);
      NameMapStep(uncompressedData, i, names, current.value);
      names := names[current.value.name := current.value];
    }
    assert db[..count] == db[..];
  }

  /** The pixel reads of loadSprite_Raw: the `pack` stored bytes through a stream, and
      for a large sprite the first dwDataUnpack bytes of the inflated stream. */
  method ReadPixels(inflate: Inflater, spriteHeader: SpriteHeader, segment: seq<u8>, pack: nat)
      returns (r: Result<seq<u8>>)
    requires |segment| == pack
    ensures r == SpritePixels(inflate, spriteHeader, segment)
  {
    if IsLarge(spriteHeader) {
      var compressedStream := new ByteStream(segment);
      var compressed := ReadBytes(compressedStream, 0, pack);
      var compressedChunkBuf := compressed.value;
      assert compressedChunkBuf == segment[0..pack] == segment;
      var unpack :- ToInt32(spriteHeader.dwDataUnpack);
      var deflated := new ByteStream(inflate(compressedChunkBuf));
      r := ReadBytes(deflated, 0, unpack);
    } else {
      var segmentStream := new ByteStream(segment);
      var chunk := ReadBytes(segmentStream, 0, pack);
      assert chunk.value == segment[0..pack] == segment;
      r := Success(chunk.value);
    }
  }

  // ---------------------------------------------------------------- the database

  /** The key table the database builds: seed 666666, the default multiplier, values in [0, 255). */
  function DdaKeys(): (keys: seq<u16>)
    ensures |keys| == KEY_TABLE_SIZE
  {
    Table(KEY_SEED, DEFAULT_MULTIPLIER, KEY_MIN, KEY_MAX, KEY_TABLE_SIZE)
  }

  /** Every key is below 255, so the low byte used for masking is the key itself and never 0xFF. */
  lemma DdaKeysBelow255()
    ensures forall k :: 0 <= k < KEY_TABLE_SIZE ==> DdaKeys()[k] < 255 && KeyByte(DdaKeys()[k]) as int == DdaKeys()[k] as int
  {
    var keys := DdaKeys();
    TableBounds(KEY_SEED, DEFAULT_MULTIPLIER, KEY_MIN, KEY_MAX, KEY_TABLE_SIZE);
    assert forall k :: 0 <= k < |keys| ==> keys[k] < 255;
    SmallKeyBytes(keys);
  }

  /** A key below 256 is its own low byte. */
  lemma SmallKeyBytes(keys: seq<u16>)
    requires forall k :: 0 <= k < |keys| ==> keys[k] < 255
    ensures forall k :: 0 <= k < |keys| ==> KeyByte(keys[k]) as int == keys[k] as int
  {
  }

  class TFCDDADatabase {
    const gamefilePath: string
    const XOR: RandomTable
    var indexDatabase: array?<IndexRecord>
    var indicesMap: Option<map<string, IndexRecord>>
    var loadedDDAs: Option<map<string, seq<u8>>>

    ghost predicate Valid()
      reads XOR, XOR.Values
    {
      XOR.Valid() && XOR.Values[..] == DdaKeys()
    }

    /** The key table is built once: a 4096-entry table, then refilled from seed 666666
        with bounds [0, 255). Nothing is loaded yet. */
    constructor (gamefilePath: string)
      ensures Valid() && fresh(XOR) && fresh(XOR.Values)
      ensures this.gamefilePath == gamefilePath
      ensures indexDatabase == null && indicesMap.None? && loadedDDAs.None?
    {
      this.gamefilePath := gamefilePath;
      XOR := new RandomTable(KEY_TABLE_SIZE);
      indexDatabase := null;
      indicesMap := None;
      loadedDDAs := None;
      new;
      var filled := XOR.CreateRandom(KEY_MIN, KEY_MAX, KEY_SEED);
    }

    /** loadIndices: the map is created first, so a failed index load leaves it empty;
        on success the records are read in file order and each is entered under its
        name, a later record replacing an earlier one of the same name. */
    method LoadIndices(dir: GameDirectory, inflate: Inflater, md5: Digest) returns (r: Result<()>)
      requires Valid()
      modifies this
      ensures Valid() && loadedDDAs == old(loadedDDAs)
      ensures var loaded := LoadIndexSpec(dir, DID_FILE, inflate, md5);
        && (loaded.Failure? ==>
              r == Failure(loaded.error) && indicesMap == Some(map[]) && indexDatabase == old(indexDatabase))
        && (loaded.Success? ==>
              r == Success(())
              && indexDatabase != null && fresh(indexDatabase)
              && 0 <= loaded.value.header.indicesCount
              && STRUCT_SIZE_BYTES * loaded.value.header.indicesCount <= |loaded.value.data|
              && indexDatabase[..] == ParseRecords(loaded.value.data, loaded.value.header.indicesCount)
              && indicesMap == Some(NameMap(indexDatabase[..])))
    {
      indicesMap := Some(map[]);
      var loaded := LoadIndexFile(dir, DID_FILE, inflate, md5);
      if loaded.Failure? {
        return Failure(loaded.error);
      }
      LoadIndexFacts(dir, DID_FILE, inflate, md5);
      ReadIndices(loaded.value.data, loaded.value.header.indicesCount);
      r := Success(());
    }

    /** The record loop of loadIndices, stored in the database's two fields. */
    method ReadIndices(uncompressedData: seq<u8>, count: nat)
      requires Valid() && indicesMap == Some(map[])
      requires STRUCT_SIZE_BYTES * count <= |uncompressedData|
      modifies this
      ensures Valid() && loadedDDAs == old(loadedDDAs)
      ensures indexDatabase != null && fresh(indexDatabase)
      ensures indexDatabase[..] == ParseRecords(uncompressedData, count)
      ensures indicesMap == Some(NameMap(indexDatabase[..]))
    {
      var db, names := ReadIndexRecords(uncompressedData, count);
      indexDatabase := db;
      indicesMap := Some(names);
    }

    /** loadDDAs: a fresh cache holding each of the twenty data files that exists. */
    method LoadDDAs(dir: GameDirectory)
      requires Valid()
      modifies this
      ensures Valid() && indicesMap == old(indicesMap) && indexDatabase == old(indexDatabase)
      ensures loadedDDAs == Some(DdaCache(dir))
    {
      loadedDDAs := Some(map[]);
      for i := 0 to DDA_FILES_COUNT
        invariant indicesMap == old(indicesMap) && indexDatabase == old(indexDatabase)
        invariant loadedDDAs == Some(DdaCacheUpTo(dir, i))
      {
        var ddaFile := GenerateDDAFileFromIndex(i);
        if dir.Exists(ddaFile) {
          var ddaData := dir.files[ddaFile];
          loadedDDAs := Some(loadedDDAs.value[ddaFile := ddaData]);
        }
      }
    }

    /** Decrypt: the indices, then the data files; a failed index load stops before the
        data files are looked at. */
    method Decrypt(dir: GameDirectory, inflate: Inflater, md5: Digest) returns (r: Result<()>)
      requires Valid()
      modifies this
      ensures Valid()
      ensures var loaded := LoadIndexSpec(dir, DID_FILE, inflate, md5);
        && (loaded.Failure? ==>
              r == Failure(loaded.error) && indicesMap == Some(map[])
              && indexDatabase == old(indexDatabase) && loadedDDAs == old(loadedDDAs))
        && (loaded.Success? ==>
              r == Success(())
              && indexDatabase != null && fresh(indexDatabase)
              && 0 <= loaded.value.header.indicesCount
              && STRUCT_SIZE_BYTES * loaded.value.header.indicesCount <= |loaded.value.data|
              && indexDatabase[..] == ParseRecords(loaded.value.data, loaded.value.header.indicesCount)
              && indicesMap == Some(NameMap(indexDatabase[..]))
              && loadedDDAs == Some(DdaCache(dir)))
    {
      r := LoadIndices(dir, inflate, md5);
      if r.Failure? {
        return;
      }
      LoadDDAs(dir);
    }

    /** getDDAFileSegment over the database's key table. */
    method GetDDAFileSegment(ddaBuf: seq<u8>, offset: i32, len: nat, mXor: bool) returns (r: Result<seq<u8>>)
      requires Valid()
      ensures r == FileSegment(ddaBuf, offset, len, mXor, XOR.Values[..])
    {
      var start := offset;
      if !mXor {
        start := Int32Wrap(offset + 4);
      }
      var ddaStream := new ByteStream(ddaBuf);
      var ok := ddaStream.Seek(start);
      if !ok {
        assert FileSegment(ddaBuf, offset, len, mXor, XOR.Values[..]) == Failure(SeekBeforeBegin);
        return Failure(SeekBeforeBegin);
      }
      var chunk := ddaStream.Read(len);
      if |chunk| != len {
        assert FileSegment(ddaBuf, offset, len, mXor, XOR.Values[..]) == Failure(ShortRead(Segment));
        return Failure(ShortRead(Segment));
      }
      var segmentBuf := new u8[len](i requires 0 <= i < len => chunk[i]);
      assert len > 0 ==> chunk == ddaBuf[start..start + len];
      if mXor {
        var ok := MaskSegment(segmentBuf, ddaBuf, start, XOR.Values[..]);
        if !ok {
          return Failure(IndexOutOfRange);
        }
      } else {
        assert segmentBuf[..] == chunk;
      }
      r := Success(segmentBuf[..]);
    }

    /** loadSprite_Raw. */
    method LoadSpriteRaw(inflate: Inflater, indexHeader: IndexRecord, spriteHeader: SpriteHeader)
      returns (r: Result<LoadedSprite>)
      requires Valid()
      ensures r == LoadSpriteRawSpec(loadedDDAs, XOR.Values[..], inflate, indexHeader, spriteHeader)
    {
      var ddaBuf :- LookupDda(loadedDDAs, indexHeader.dwDataFileIndex);
      var offset :- ToInt32(indexHeader.dwFileOffset);
      var pack :- ToInt32(spriteHeader.dwDataPack);
      var ddaSegmentBuf :- GetDDAFileSegment(ddaBuf, Int32Wrap(offset + SPRITE_HEADER_SIZE), pack, false);
      var uncompressedChunkBuf :- ReadPixels(inflate, spriteHeader, ddaSegmentBuf, pack);
      r := Success(Sprite(indexHeader, spriteHeader, uncompressedChunkBuf));
    }

    /** internalLoadSprite. */
    method InternalLoadSprite(inflate: Inflater, header: IndexRecord) returns (r: Result<LoadedSprite>)
      requires Valid()
      ensures r == InternalLoadSpriteSpec(loadedDDAs, XOR.Values[..], inflate, header)
    {
      var ddaBuf :- LookupDda(loadedDDAs, header.dwDataFileIndex);
      var offset :- ToInt32(header.dwFileOffset);
      var ddaSegmentBuf :- GetDDAFileSegment(ddaBuf, offset, SPRITE_HEADER_SIZE, false);
      var spriteHeader := ReadSpriteHeader(ddaSegmentBuf);
      if spriteHeader.dwCompType == COMP_DD {
        r := LoadSpriteRaw(inflate, header, spriteHeader);
      } else {
        r := Success(DefaultSprite);
      }
    }

    /** LoadSprite, up to the bitmap export. */
    method LoadSprite(inflate: Inflater, index: string) returns (r: Result<LoadedSprite>)
      requires Valid()
      ensures r == LoadSpriteSpec(indicesMap, loadedDDAs, XOR.Values[..], inflate, index)
    {
      if indicesMap.None? {
        return Failure(NotLoaded);
      }
      if index !in indicesMap.value {
        return Failure(KeyNotFound(index));
      }
      var indexHeader := indicesMap.value[index];
      r := InternalLoadSprite(inflate, indexHeader);
    }
  }
}
