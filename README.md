# T4C game-file decoding, modelled in Dafny

This project models the decoding core of the T4C game-file decryptor. The game
ships its assets in containers that are checksummed, zlib-compressed and
XOR-obfuscated. The model covers the following parts:

- **The container envelope** (`Envelope`). It is a 41-byte header holding:
  - the first half of an MD5 digest;
  - the two little-endian sizes;
  - the second half of the digest, plus one discarded byte.

  The zlib payload comes next, then a one-byte additive ("uch") checksum over
  every payload byte but the last. The decoder runs its checks in a fixed order:
  the header reads, then the payload and checksum reads, then the checksum,
  then inflation of exactly `unpackSize` bytes, and finally the MD5 comparison.
  It is modelled once. Three loaders use it:
  - the sprite database's index loader;
  - the stand-alone index loader;
  - the palette loader.
- **The keystream generator** `RandomTable` (`RandomTables`). It is a 32-bit
  linear congruential generator that fills a table of unsigned 16-bit
  values. The class keeps its two entry points and the upper-bound
  conventions they disagree on: the constructor stores `max + 1`, while
  `CreateRandom` stores `max` as given.
- **Index records** (`IndexRecords`, `DidDatabase`). Each record is 332 bytes.
  Its name and path are the NUL-stripped ASCII contents of fixed-width
  fields, followed by three little-endian `u32` fields. The records form an
  array in file order and a name map in which a later record replaces an
  earlier one of the same name.
- **The sprite database** (`DdaDatabase`, `SpriteHeaders`). It covers:
  - data file names `V2Data00.dda` … `V2Data19.dda`, and the cache of the files
    that exist;
  - segment extraction from a data file. A plain read skips a 4-byte prefix.
    A masked read XORs each byte with the key of its 4096-byte block;
  - the 28-byte sprite header, whose fields are each XOR-masked with their
    own constant;
  - dispatch on the compression type. Only type 1 (raw) has a loader;
  - the raw sprite loader.
- **The palette loader** (`Palette`). It runs the envelope and then an XOR with
  0x66. Its record count divides by the declared record size 0, so a palette
  load never completes.
- **The stream helpers** (`Streams`): `readBytes` and `convertToASCIIString`.
- **The TypeScript checksum port** (`DdaExtractor`): `calculateChecksum` and the
  offset slicing of `loadIndexes`.

Stateful code is modelled as classes and methods with `modifies` clauses:
- the stream cursor (`ByteStream`);
- the generator's table;
- the database and the palette manager with their fields.

Each method is proved equal to a specification function, for example
`DecryptV2Gamefile` against `DecodeEnvelope`. The lemmas state the
properties of those functions:
- layout and round trips;
- check order;
- bounds;
- last-wins in the name map.

Outside inputs become parameters:
- The game directory is a map from file names to contents (`GameDirectory`).
  `File.Exists` is key membership.
- zlib inflation (`Inflater`) and MD5 (`Digest`) are function-typed parameters.

Every thrown exception and every failing `Debug.Assert` becomes a `Failure`
with an `Error` that names it: a short read, a checksum or digest mismatch,
an overflow, a missing key, and so on.

.NET integer behaviour is written out explicitly:
- `Convert.ToInt32` of a value above `Int32.MaxValue` fails with `Overflow` (`ToInt32`);
- unchecked `int` additions wrap (`Int32Wrap`);
- `uint` arithmetic in the generator is reduced modulo 2^32.

Some behaviour of the code that the model keeps as written:
- The sprite header is 28 bytes, `10 * 2 + 2 * 4` (TFCDDADatabase.cs:40).
- The palette record size is declared 0, and the palette code has no record
  parser (TFCPaletteManager.cs:12, 42). The load therefore ends in a division
  by zero.
- A sprite name absent from the index map throws (TFCDDADatabase.cs:107-108).
  The model returns a KeyNotFound failure.
- `loadIndices` creates the empty map before loading (TFCDDADatabase.cs:257).
  After a failed load the map exists and is empty.
- The TypeScript `calculateChecksum` throws "No data to read" on an empty
  payload (packSize 0), while the C# checksum of an empty payload is 0 and a
  stored 0 passes the C# test. `DdaExtractor.EmptyPayloadRejected` states
  this.

## Model

| member | source | states |
|---|---|---|
| Bytes.Int32Wrap | utils/decryption/TFCGameFilesDecryption/TFCDDADatabase.cs:185 | the unchecked C# `int` sum: a value in the 32-bit two's complement range, congruent to the exact sum modulo 2^32, and equal to it when it is in range |
| Bytes.XorBitsInvolutive | utils/decryption/TFCGameFilesDecryption/TFCDDADatabase.cs:128-139 | XORing the low `width` bits twice with the same key restores any value below 2^width |
| Bytes.Xor8Involutive | utils/decryption/TFCGameFilesDecryption/TFCDDADatabase.cs:220 | a byte XORed twice with the same key byte is unchanged |
| Bytes.Xor16Involutive | utils/decryption/TFCGameFilesDecryption/TFCDDADatabase.cs:128-137 | a 16-bit field masked twice with its constant is unchanged |
| Bytes.Xor32Involutive | utils/decryption/TFCGameFilesDecryption/TFCDDADatabase.cs:138-139 | a 32-bit field masked twice with its constant is unchanged |
| Bytes.XorAll | utils/decryption/TFCGameFilesDecryption/TFCDDADatabase.cs:378 | the whole-buffer XOR keeps the length, and byte i is the input byte i XORed with the key |
| Bytes.XorAllInvolutive | utils/decryption/TFCGameFilesDecryption/TFCPaletteManager.cs:40 | XORing a whole buffer twice with one key gives the buffer back |
| Bytes.LE16RoundTrip | utils/decryption/TFCGameFilesDecryption/TFCDDADatabase.cs:128 | BitConverter.ToUInt16 and the two-byte little-endian encoding are mutual inverses |
| Bytes.LE32RoundTrip | utils/decryption/TFCGameFilesDecryption/decrypt-utils/V2GamefilesDecryptionUtils.cs:54-56 | BitConverter.ToUInt32 and the four-byte little-endian encoding are mutual inverses |
| Bytes.ToSigned16 | utils/decryption/TFCGameFilesDecryption/TFCDDADatabase.cs:132-135 | BitConverter.ToInt16 reads the same 16 bits: the signed value is congruent to the pattern modulo 2^16 |
| Bytes.FromSigned16 | utils/decryption/TFCGameFilesDecryption/TFCDDADatabase.cs:132-135 | the bit pattern of a signed value reads back as that value |
| Bytes.SignedRoundTrip | utils/decryption/TFCGameFilesDecryption/TFCDDADatabase.cs:132-135 | every 16-bit pattern read as signed and re-encoded is the same pattern |
| Bytes.AsciiChar | utils/decryption/TFCGameFilesDecryption/utils/StreamUtils.cs:24 | ASCII decoding maps a byte below 0x80 to the character with that code and any other byte to '?' |
| Bytes.AsciiString | utils/decryption/TFCGameFilesDecryption/decrypt-utils/V2GamefilesDecryptionUtils.cs:52 | Encoding.ASCII.GetString yields one character per byte, character i decoding byte i |
| Outcomes.ToInt32 | utils/decryption/TFCGameFilesDecryption/decrypt-utils/V2GamefilesDecryptionUtils.cs:60 | Convert.ToInt32 of a `uint` succeeds exactly when the value is at most Int32.MaxValue, returning it unchanged; otherwise it fails with Overflow |
| Streams.Window | utils/decryption/TFCGameFilesDecryption/utils/StreamUtils.cs:16 | one Stream.Read yields at most `count` bytes. It yields exactly the next `count` bytes when that many remain, and the full count only then (or when the count is 0) |
| Streams.ByteStream.constructor | utils/decryption/TFCGameFilesDecryption/TFCDDADatabase.cs:124 | a new MemoryStream over a buffer starts at position 0 |
| Streams.ByteStream.Read | utils/decryption/TFCGameFilesDecryption/decrypt-utils/V2GamefilesDecryptionUtils.cs:33 | Read returns the bytes available from the cursor and advances the cursor past exactly those |
| Streams.ByteStream.Seek | utils/decryption/TFCGameFilesDecryption/TFCDDADatabase.cs:213 | Seek from the beginning succeeds exactly for a non-negative target and then sets the cursor to it; otherwise the cursor stays |
| Streams.ReadBytes | utils/decryption/TFCGameFilesDecryption/utils/StreamUtils.cs:13-20 | readBytes has three outcomes. An offset other than 0 throws and leaves the cursor. With offset 0 and enough bytes left it returns exactly the next `bufSize` bytes and advances by `bufSize`. A short read fails its assertion. A success always has length `bufSize` |
| Streams.NonZero | utils/decryption/TFCGameFilesDecryption/utils/StreamUtils.cs:24 | the `Where(s => s > 0)` filter keeps no zero byte, and never lengthens the buffer |
| Streams.ConvertToAsciiString | utils/decryption/TFCGameFilesDecryption/utils/StreamUtils.cs:22-25 | convertToASCIIString has one character per non-zero byte, character i decoding the i-th kept byte |
| Streams.NonZeroCount | utils/decryption/TFCGameFilesDecryption/utils/StreamUtils.cs:24 | the kept bytes number the length minus the zeros; as a multiset they are the input without its zeros |
| Streams.NonZeroAppend | utils/decryption/TFCGameFilesDecryption/utils/StreamUtils.cs:24 | zeros are removed wherever they stand and the kept bytes stay in order: the filter distributes over concatenation |
| Streams.NonZeroOfNoZeros | utils/decryption/TFCGameFilesDecryption/utils/StreamUtils.cs:24 | a buffer without zero bytes is kept whole |
| Streams.ConvertZeros | utils/decryption/TFCGameFilesDecryption/utils/StreamUtils.cs:24 | an all-zero field converts to the empty string |
| Streams.ConvertPaddedAscii | utils/decryption/TFCGameFilesDecryption/utils/StreamUtils.cs:24 | a NUL-padded field of bytes in 1..0x7F converts to exactly its text, character by character |
| Envelope.SummedPart | utils/decryption/TFCGameFilesDecryption/decrypt-utils/V2GamefilesDecryptionUtils.cs:100 | the bytes the checksum loop adds: all but the last, none for an empty payload |
| Envelope.CalculateUchVal | utils/decryption/TFCGameFilesDecryption/decrypt-utils/V2GamefilesDecryptionUtils.cs:97-106 | the one-byte accumulator loop over all bytes but the last, then `(byte)(256 - sum)`, computes UchVal |
| Envelope.UchValCharacterized | utils/decryption/TFCGameFilesDecryption/decrypt-utils/V2GamefilesDecryptionUtils.cs:104 | the checksum is the unique byte that brings the summed part to 0 modulo 256 (both directions) |
| Envelope.UchValIgnoresLast | utils/decryption/TFCGameFilesDecryption/decrypt-utils/V2GamefilesDecryptionUtils.cs:100 | the last payload byte never changes the checksum; payloads of length 0 or 1 give 0 |
| Envelope.Hex | utils/decryption/TFCGameFilesDecryption/decrypt-utils/V2GamefilesDecryptionUtils.cs:87 | the joined `x2` formatting has two characters per digest byte |
| Envelope.HexRoundTrip | utils/decryption/TFCGameFilesDecryption/decrypt-utils/V2GamefilesDecryptionUtils.cs:87 | the lowercase hex text of a digest parses back to the digest, so the text comparison is a comparison of digests |
| Envelope.StoredDigest | utils/decryption/TFCGameFilesDecryption/decrypt-utils/V2GamefilesDecryptionUtils.cs:52 | the stored digest text is 32 characters long; its content, bytes 0..16 followed by bytes 24..40 as ASCII, is stated by `Envelope.DecodeEnvelopeLayout` |
| Envelope.DecryptV2Gamefile | utils/decryption/TFCGameFilesDecryption/decrypt-utils/V2GamefilesDecryptionUtils.cs:24-95 | the sequential stream decoder computes DecodeEnvelope, including every failure and the order of the checks |
| Envelope.DecodeEnvelopeLayout | utils/decryption/TFCGameFilesDecryption/decrypt-utils/V2GamefilesDecryptionUtils.cs:31-93 | a successful decode proves the whole layout, listed after this table |
| Envelope.ChecksumBeforeInflate | utils/decryption/TFCGameFilesDecryption/decrypt-utils/V2GamefilesDecryptionUtils.cs:72-81 | a checksum mismatch fails with ChecksumMismatch, identically for every inflater and hash: the checksum is checked before any inflation |
| Envelope.InflateBeforeDigest | utils/decryption/TFCGameFilesDecryption/decrypt-utils/V2GamefilesDecryptionUtils.cs:76-89 | when fewer than unpackSize bytes inflate, the decode fails with a short read whatever the hash returns: the digest is compared only after a full inflation |
| Envelope.HexBytes | utils/decryption/TFCGameFilesDecryption/decrypt-utils/V2GamefilesDecryptionUtils.cs:87 | the ASCII bytes of a digest's hex text decode to that text |
| Envelope.EncodeEnvelope | utils/decryption/TFCGameFilesDecryption/decrypt-utils/V2GamefilesDecryptionUtils.cs:31-70 | a built envelope is 41 header bytes, the payload and one checksum byte |
| Envelope.EnvelopeRoundTrip | utils/decryption/TFCGameFilesDecryption/decrypt-utils/V2GamefilesDecryptionUtils.cs:24-95 | decoding a built envelope whose payload inflates to the data returns exactly that data, its two sizes, its checksum and its digest text |
| IndexRecords.ParseRecords | utils/decryption/TFCGameFilesDecryption/TFCDDADatabase.cs:266-304 | the record array holds exactly `count` records; that record i comes from bytes [332 i, 332 i + 332) is stated through `IndexRecords.ParseRecordsStep` and the array methods `DidDatabase.ReadRecords` and `DdaDatabase.ReadIndexRecords` |
| IndexRecords.ParseRecordsStep | utils/decryption/TFCGameFilesDecryption/TFCDDADatabase.cs:267-304 | reading one more record appends the parse of the next 332 bytes |
| IndexRecords.NameMapStep | utils/decryption/TFCGameFilesDecryption/TFCDDADatabase.cs:305 | the map after storing record i is the map of the first i + 1 records |
| IndexRecords.ReadRecord | utils/decryption/TFCGameFilesDecryption/TFCDDADatabase.cs:270-301 | with 332 bytes left, one record read returns ParseRecord of exactly those bytes and advances 332. The name and path are NUL-stripped ASCII, and the three fields are little-endian u32 at 320, 324 and 328. Fewer bytes fail the read assertion |
| IndexRecords.NameMapSnoc | utils/decryption/TFCGameFilesDecryption/TFCDDADatabase.cs:305 | a record entered under its name replaces any earlier entry of that name |
| IndexRecords.NameMapLastWins | utils/decryption/TFCGameFilesDecryption/TFCDDADatabase.cs:304-305 | a name is in the map exactly when some record carries it, and it is bound to a record carrying it after which no record carries it: the last one |
| IndexRecords.LoadIndexFile | utils/decryption/TFCGameFilesDecryption/TFCDDADatabase.cs:311-383 | loadIndexHeader (and loadIndex) computes LoadIndexSpec: existence, envelope, XOR with 0x99, `Convert.ToInt32(unpackSize) / 332` |
| IndexRecords.LoadIndexFacts | utils/decryption/TFCGameFilesDecryption/TFCDDADatabase.cs:364-380 | a loaded index buffer is the verified inflated data XORed with 0x99, of length unpackSize. The record count is unpackSize / 332, so every record lies inside the buffer |
| IndexRecords.MissingIndexFile | utils/decryption/TFCGameFilesDecryption/TFCDIDDatabase.cs:102 | a missing index file fails with FileNotFound before anything is read |
| IndexRecords.EncodeRecord | utils/decryption/TFCGameFilesDecryption/TFCDIDDatabase.cs:64-92 | a built record is 332 bytes |
| IndexRecords.RecordRoundTrip | utils/decryption/TFCGameFilesDecryption/TFCDIDDatabase.cs:69-92 | a record built from NUL-free ASCII name and path and three numbers parses back to the same text (padding stripped) and the same three numbers |
| DidDatabase.TFCDIDDatabase.constructor | utils/decryption/TFCGameFilesDecryption/TFCDIDDatabase.cs:45-49 | the two paths are stored and no database exists yet |
| DidDatabase.TFCDIDDatabase.Decrypt | utils/decryption/TFCGameFilesDecryption/TFCDIDDatabase.cs:51-99 | a failed index load is returned and leaves the database as it was. On success a fresh array holds exactly indicesCount records in file order, record i from bytes [332 i, 332 i + 332) of the XORed data |
| DidDatabase.ReadRecords | utils/decryption/TFCGameFilesDecryption/TFCDIDDatabase.cs:56-97 | the record loop fills a fresh array with ParseRecords of the data |
| RandomTables.NextSeed | utils/decryption/TFCGameFilesDecryption/RandomTable.cs:46 | `Seed * Multiplier + 1` in uint arithmetic: the exact value reduced modulo 2^32 |
| RandomTables.Span | utils/decryption/TFCGameFilesDecryption/RandomTable.cs:47 | `MaxValue - MinValue` in uint arithmetic: below 2^32, and the plain difference when MinValue <= MaxValue |
| RandomTables.Table | utils/decryption/TFCGameFilesDecryption/RandomTable.cs:44-49 | a fill of n entries produces n entries |
| RandomTables.RandomTable.constructor | utils/decryption/TFCGameFilesDecryption/RandomTable.cs:22-32 | stores `newMaxVaue + 1` (wrapping) as MaxValue and the other parameters, allocates `size` entries, and fills them. The table is Table of the initial seed, and Seed is the last generated seed |
| RandomTables.RandomTable.CreateRandom | utils/decryption/TFCGameFilesDecryption/RandomTable.cs:34-42 | stores NewMaxValue as given, and keeps the multiplier when the new one is 0. A fillable span refills every entry from InitSeed. A zero span fails with DivideByZero after one seed step, with no entry written |
| RandomTables.RandomTable.CreateTable | utils/decryption/TFCGameFilesDecryption/RandomTable.cs:44-49 | the loop overwrites entry i with the cell of the (i+1)-th seed and leaves Seed at the last one. With a zero span the first `%` throws after the first seed step and before any entry is written |
| RandomTables.RandomTable.Randomize | utils/decryption/TFCGameFilesDecryption/RandomTable.cs:51-53 | returns 0 |
| RandomTables.TableBounds | utils/decryption/TFCGameFilesDecryption/RandomTable.cs:47 | when MinValue < MaxValue <= 65536 every entry lies in [MinValue, MaxValue) |
| RandomTables.CellBounds | utils/decryption/TFCGameFilesDecryption/RandomTable.cs:47 | without wrap-around an entry is `seed % (MaxValue - MinValue) + MinValue` and lies in [MinValue, MaxValue) |
| RandomTables.FirstEntryFromZeroSeed | utils/decryption/TFCGameFilesDecryption/RandomTable.cs:46-47 | from seed 0 the first generated seed is 1, so entry 0 is `1 % (MaxValue - MinValue) + MinValue` |
| RandomTables.TableExtends | utils/decryption/TFCGameFilesDecryption/RandomTable.cs:44-49 | a longer fill from the same seed extends a shorter one: the extra entries are a fill from the seed the shorter one ends on |
| RandomTables.SeedAtAdd | utils/decryption/TFCGameFilesDecryption/RandomTable.cs:46 | j generator steps after n steps are n + j steps |
| SpriteHeaders.ReadField | utils/decryption/TFCGameFilesDecryption/TFCDDADatabase.cs:128-137 | reading 16-bit field k off the header stream gives the unmasked field k and advances two bytes |
| SpriteHeaders.ReadSize | utils/decryption/TFCGameFilesDecryption/TFCDDADatabase.cs:138-139 | reading a 32-bit size gives the next four bytes little-endian, XORed with the mask, and advances four bytes |
| SpriteHeaders.ReadSpriteHeader | utils/decryption/TFCGameFilesDecryption/TFCDDADatabase.cs:124-139 | the twelve stream reads compute DecodeSpriteHeader of the segment |
| SpriteHeaders.ReadShape | utils/decryption/TFCGameFilesDecryption/TFCDDADatabase.cs:128-131 | dwCompType, flag1, dwWidth and dwHeight are fields 0 to 3 unmasked with 0xAAAA, 0x1458, 0x1234 and 0x6242 |
| SpriteHeaders.ReadOffsets | utils/decryption/TFCGameFilesDecryption/TFCDDADatabase.cs:132-135 | the four offsets are fields 4 to 7, unmasked with 0x2355, 0xF6C3, 0xAAF3 and 0xAAAA, read as signed |
| SpriteHeaders.ReadTail | utils/decryption/TFCGameFilesDecryption/TFCDDADatabase.cs:136-139 | ushTransparency and ushTransColor (masks 0x4321, 0x1234), then the sizes from bytes 20..24 and 24..28 unmasked with 0xDDCCBBAA and 0xAABBCCDD |
| SpriteHeaders.EncodeSpriteHeader | utils/decryption/TFCGameFilesDecryption/TFCDDADatabase.cs:40 | a stored header is 28 bytes |
| SpriteHeaders.EncodedFields | utils/decryption/TFCGameFilesDecryption/TFCDDADatabase.cs:128-137 | each 16-bit field of an encoded header unmasks to the header's own field |
| SpriteHeaders.EncodedWords | utils/decryption/TFCGameFilesDecryption/TFCDDADatabase.cs:128-137 | all ten 16-bit fields of an encoded header unmask to the header's fields |
| SpriteHeaders.EncodedSizes | utils/decryption/TFCGameFilesDecryption/TFCDDADatabase.cs:138-139 | both 32-bit sizes of an encoded header unmask to the header's sizes |
| SpriteHeaders.Masked32RoundTrip | utils/decryption/TFCGameFilesDecryption/TFCDDADatabase.cs:138-139 | a 32-bit size masked, stored and read back unmasks to itself |
| SpriteHeaders.SpriteHeaderRoundTrip | utils/decryption/TFCGameFilesDecryption/TFCDDADatabase.cs:128-139 | decoding the encoding of any header gives the header back |
| SpriteHeaders.SpriteHeaderBytesRoundTrip | utils/decryption/TFCGameFilesDecryption/TFCDDADatabase.cs:128-139 | every 28-byte pattern is the encoding of what it decodes to, so header decoding is a bijection |
| SpriteHeaders.RawWordsRemask | utils/decryption/TFCGameFilesDecryption/TFCDDADatabase.cs:128-137 | the first 20 bytes are the ten decoded fields masked again |
| SpriteHeaders.RawSizesRemask | utils/decryption/TFCGameFilesDecryption/TFCDDADatabase.cs:138-139 | the last 8 bytes are the two decoded sizes masked again |
| DdaDatabase.Decimal | utils/decryption/TFCGameFilesDecryption/TFCDDADatabase.cs:253 | the decimal digits of a number are digits only, and a single one exactly below 10 |
| DdaDatabase.D2 | utils/decryption/TFCGameFilesDecryption/TFCDDADatabase.cs:253 | the `D2` format is at least two digits, exactly two below 100 |
| DdaDatabase.GenerateDDAFileFromIndex | utils/decryption/TFCGameFilesDecryption/TFCDDADatabase.cs:252-254 | the name is "V2Data", the two-or-more-digit index, then ".dda" |
| DdaDatabase.DecimalRoundTrip | utils/decryption/TFCGameFilesDecryption/TFCDDADatabase.cs:253 | the digits of a number denote that number |
| DdaDatabase.D2RoundTrip | utils/decryption/TFCGameFilesDecryption/TFCDDADatabase.cs:253 | the zero-padded digits denote the number |
| DdaDatabase.DdaFileIndexRoundTrip | utils/decryption/TFCGameFilesDecryption/TFCDDADatabase.cs:252-254 | the index can be read back from the digits of the name |
| DdaDatabase.DdaFileNamesDistinct | utils/decryption/TFCGameFilesDecryption/TFCDDADatabase.cs:252-254 | distinct indices give distinct data file names |
| DdaDatabase.DdaFileNameShape | utils/decryption/TFCGameFilesDecryption/TFCDDADatabase.cs:240-253 | the names loadDDAs tries are 12 characters long |
| DdaDatabase.DdaCacheContents | utils/decryption/TFCGameFilesDecryption/TFCDDADatabase.cs:236-250 | after the first n indices the cache holds exactly the existing files among the first n names, each with its whole contents |
| DdaDatabase.LookupDda | utils/decryption/TFCGameFilesDecryption/TFCDDADatabase.cs:117-118 | a lookup succeeds only with a loaded cache, an index within Int32 and the generated name present, and it returns that file |
| DdaDatabase.LookupLoadedDda | utils/decryption/TFCGameFilesDecryption/TFCDDADatabase.cs:117-118 | when the cache comes from loadDDAs, a record's data file is found exactly when its index is below 20 and the file exists, and what is found is the file's contents |
| DdaDatabase.FileSegment | utils/decryption/TFCGameFilesDecryption/TFCDDADatabase.cs:206-226 | a segment has exactly `len` bytes. It fails exactly for a negative start, a short read, or a masked block past the key table |
| DdaDatabase.MaskedBytes | utils/decryption/TFCGameFilesDecryption/TFCDDADatabase.cs:217-222 | a masked segment has `len` bytes |
| DdaDatabase.MaskSegment | utils/decryption/TFCGameFilesDecryption/TFCDDADatabase.cs:217-222 | the in-place mask loop completes exactly when the last block has a key, and byte i is then the data byte at start + i XORed with the key of block (start + i) / 4096 |
| DdaDatabase.PlainSegment | utils/decryption/TFCGameFilesDecryption/TFCDDADatabase.cs:207-215 | an unmasked segment is the plain slice four bytes past the offset |
| DdaDatabase.MaskedSegmentInvolutive | utils/decryption/TFCGameFilesDecryption/TFCDDADatabase.cs:217-222 | XORing a masked segment's byte i with the key of its block gives the data byte back |
| DdaDatabase.LoadSpriteRawSpec | utils/decryption/TFCGameFilesDecryption/TFCDDADatabase.cs:177-200 | a loaded raw sprite keeps both headers. Its pixels are SpritePixels of the dwDataPack-byte plain segment at offset + 28 (file position offset + 32), after the lookup and both Int32 conversions succeed |
| DdaDatabase.SpritePixels | utils/decryption/TFCGameFilesDecryption/TFCDDADatabase.cs:186-196 | a large sprite's pixels are dwDataUnpack bytes. A small sprite's pixels are its stored segment, unexpanded |
| DdaDatabase.InternalLoadSpriteSpec | utils/decryption/TFCGameFilesDecryption/TFCDDADatabase.cs:116-159 | a success needs the lookup, the offset conversion and the header segment. A loaded sprite has type COMP_DD and is the raw loader's result on the decoded header |
| DdaDatabase.RawSpriteLayout | utils/decryption/TFCGameFilesDecryption/TFCDDADatabase.cs:185-198 | a small sprite's pixels are the dwDataPack bytes at file position offset + 32, of length dwDataPack (not dwDataUnpack). A large sprite's are dwDataUnpack bytes |
| DdaDatabase.SpriteLayout | utils/decryption/TFCGameFilesDecryption/TFCDDADatabase.cs:121-144 | a loaded sprite's header is the decoding of bytes [offset + 4, offset + 32) of its data file. Its type is COMP_DD and it is the raw loader's result |
| DdaDatabase.HeaderFromSegment | utils/decryption/TFCGameFilesDecryption/TFCDDADatabase.cs:121-139 | the header decoded from the unmasked 28-byte segment is the decoding of the bytes four past the offset |
| DdaDatabase.HeaderSegmentAt | utils/decryption/TFCGameFilesDecryption/TFCDDADatabase.cs:121 | the header segment at a non-negative offset is the 28 bytes four past it |
| DdaDatabase.OnlyRawSpritesLoad | utils/decryption/TFCGameFilesDecryption/TFCDDADatabase.cs:141-157 | a sprite is populated exactly when the decoded type is COMP_DD; types 2, 3, 9 and all others give the default value |
| DdaDatabase.ReadIndexRecords | utils/decryption/TFCGameFilesDecryption/TFCDDADatabase.cs:264-308 | the record loop fills a fresh array with the records in file order, and builds the name map of that array |
| DdaDatabase.ReadPixels | utils/decryption/TFCGameFilesDecryption/TFCDDADatabase.cs:187-196 | the readBytes calls of both branches compute SpritePixels |
| DdaDatabase.DdaKeys | utils/decryption/TFCGameFilesDecryption/TFCDDADatabase.cs:87-88 | the key table has 4096 entries |
| DdaDatabase.DdaKeysBelow255 | utils/decryption/TFCGameFilesDecryption/TFCDDADatabase.cs:87-88 | after `CreateRandom(0, 255, 666666)` every key is at most 254, and its low byte is the key itself |
| DdaDatabase.TFCDDADatabase.constructor | utils/decryption/TFCGameFilesDecryption/TFCDDADatabase.cs:84-91 | the key table is `RandomTable(4096)` refilled from seed 666666 with bounds [0, 255) and multiplier 7563921. Nothing is loaded |
| DdaDatabase.TFCDDADatabase.LoadIndices | utils/decryption/TFCGameFilesDecryption/TFCDDADatabase.cs:256-309 | a failed index load is returned, leaving an empty map and the old array. On success the array holds indicesCount records in file order, and the map is their name map |
| DdaDatabase.TFCDDADatabase.ReadIndices | utils/decryption/TFCGameFilesDecryption/TFCDDADatabase.cs:263-308 | the record loop stores the parsed array and its name map |
| DdaDatabase.TFCDDADatabase.LoadDDAs | utils/decryption/TFCGameFilesDecryption/TFCDDADatabase.cs:236-250 | the cache is rebuilt as exactly the existing data files among the twenty names |
| DdaDatabase.TFCDDADatabase.Decrypt | utils/decryption/TFCGameFilesDecryption/TFCDDADatabase.cs:93-99 | a failed index load stops before the data files. Otherwise the indices and then the data files are loaded |
| DdaDatabase.TFCDDADatabase.GetDDAFileSegment | utils/decryption/TFCGameFilesDecryption/TFCDDADatabase.cs:206-226 | seek, read and in-place mask compute FileSegment over the key table |
| DdaDatabase.TFCDDADatabase.LoadSpriteRaw | utils/decryption/TFCGameFilesDecryption/TFCDDADatabase.cs:177-200 | loadSprite_Raw computes LoadSpriteRawSpec |
| DdaDatabase.TFCDDADatabase.InternalLoadSprite | utils/decryption/TFCGameFilesDecryption/TFCDDADatabase.cs:116-159 | internalLoadSprite computes InternalLoadSpriteSpec |
| DdaDatabase.TFCDDADatabase.LoadSprite | utils/decryption/TFCGameFilesDecryption/TFCDDADatabase.cs:101-114 | LoadSprite fails with NotLoaded without a map and KeyNotFound for an absent name; otherwise it loads the record's sprite |
| Palette.PaletteUnmasks | utils/decryption/TFCGameFilesDecryption/TFCPaletteManager.cs:35-40 | a decoded palette keeps the envelope's fields, and its buffer has length unpackSize. XORed with 0x66 again, the buffer is the verified inflated data whose MD5 the stored digest names |
| Palette.TFCPaletteManager.constructor | utils/decryption/TFCGameFilesDecryption/TFCPaletteManager.cs:26-28 | stores the path; no palette is loaded |
| Palette.TFCPaletteManager.LoadGamefile | utils/decryption/TFCGameFilesDecryption/TFCPaletteManager.cs:35-43 | the load always fails. A missing file or failed decode leaves the field. Otherwise the XORed file is stored, and then the Int32 conversion overflows or the count divides by zero |
| Palette.TFCPaletteManager.DecryptPalette | utils/decryption/TFCGameFilesDecryption/TFCPaletteManager.cs:30-33 | DecryptPalette is the palette load |
| DdaExtractor.Summed | client/packages/dda-extractor/src/dda-extractor.ts:50 | the bytes the loop reads: `n` of them, zero past the buffer's end |
| DdaExtractor.CalculateChecksum | client/packages/dda-extractor/src/dda-extractor.ts:42-57 | the masked one-byte loop computes TsChecksum, including the "no data to read" guard |
| DdaExtractor.SummedStep | client/packages/dda-extractor/src/dda-extractor.ts:49-53 | masking after every addition keeps the running sum modulo 256 |
| DdaExtractor.TsChecksumRange | client/packages/dda-extractor/src/dda-extractor.ts:56 | the result lies in 1..256, and is 256 exactly when the sum is 0 modulo 256 |
| DdaExtractor.TsChecksumVersusUchVal | client/packages/dda-extractor/src/dda-extractor.ts:56 | over a payload the TypeScript value agrees with calculateUchVal modulo 256, and is 256 exactly where calculateUchVal is 0 |
| DdaExtractor.CorrectedChecksum | client/packages/dda-extractor/src/dda-extractor.ts:56 | the checksum reduced to one byte lies in 0..255 |
| DdaExtractor.CorrectedChecksumIsUchVal | client/packages/dda-extractor/src/dda-extractor.ts:56 | the one-byte checksum equals calculateUchVal on every non-empty payload |
| DdaExtractor.Subarray | client/packages/dda-extractor/src/dda-extractor.ts:15-24 | `subarray` within bounds is the plain slice, a negative start counts back from the end, and the result is never longer than the buffer |
| DdaExtractor.SlicesAgreeWithEnvelope | client/packages/dda-extractor/src/dda-extractor.ts:13-30 | the slicing agrees with the C# decoder, with the corrected checksum: a file whose non-empty payload passes the C# checksum passes here with the same digest parts, sizes, payload and checksum byte |
| DdaExtractor.ZeroSumChecksumRejected | client/packages/dda-extractor/src/dda-extractor.ts:26-30 | as written, a valid file whose summed part is 0 is rejected. The computed 256 matches no stored byte, while the C# value and the corrected one are 0 and match |
| DdaExtractor.EmptyPayloadRejected | client/packages/dda-extractor/src/dda-extractor.ts:43-45 | an index file with packSize 0 and stored checksum byte 0 is refused with "No data to read" by both the written and the corrected checksum, while the C# checksum of the empty payload is 0, so the C# decoder does not fail its checksum test on that file |

The layout that `Envelope.DecodeEnvelopeLayout` proves for a successful decode:
- the file holds the header, the payload and the checksum byte;
- the digest text is bytes 0..16 followed by bytes 24..40;
- unpackSize is bytes 16..20 and packSize is bytes 20..24, both little-endian;
- the checksum byte at 41 + packSize equals UchVal of the payload;
- indicesCount is 0;
- the data is the first unpackSize inflated bytes, not XORed;
- the digest text names the MD5 of that data.

## Left out

- The bitmap export (`exportSprite`, System.Drawing) is left out, as is the
  `Program.cs` wiring. `LoadSprite` returns the loaded sprite instead of
  exporting it.
- Logging (NLog, `console.log`) is left out: it has no effect on results.
- `loadSprite_NoColorKey`, `loadSprite_Zip` and `loadSprite_Null` have empty
  bodies, so their types yield the default sprite, as `OnlyRawSpritesLoad` states.
- MD5 and zlib inflation are parameters (`Digest`, `Inflater`). Their algorithms
  are not modelled.
- The TypeScript `deflateSync` (which compresses) and `createHash` run after the
  checksum test and have no visible result, so they are left out.
  `LoadIndexesSpec` stops at the checksum test.
- The file system is a map from names to contents. `Path.Combine` with the game
  directory is not modelled: names are relative to it. The TypeScript
  `readFileSync` of a missing file becomes a FileNotFound failure.
- Stream.Read is modelled as returning every byte that is available, which is
  what MemoryStream does. A FileStream or inflater stream that returns fewer
  bytes in one call is not modelled.
- A `Debug.Assert` that fails is modelled as a Failure. It is never a silent
  continuation, although release builds compile these asserts out.
- Allocation failures of `new byte[...]` with sizes from the file are not
  modelled (the unpack-sized buffer allocated at TFCDDADatabase.cs:186 is
  immediately replaced).
- Palette.TFCPaletteManager.LoadGamefile: the C# compiler rejects an integer
  division by a constant zero (error CS0020). The model treats the division as
  a runtime DivideByZero, so the load never completes.
- DdaDatabase.InternalLoadSpriteSpec: `new DDALoadedSprite;` at
  TFCDDADatabase.cs:141 has no parentheses and does not compile as written.
  The model reads it as the default sprite value (`DefaultSprite`), which the
  non-raw compression types return.
- RandomTables.RandomTable.constructor: requires a non-zero span. In the source
  a zero span (`newMaxVaue + 1` wrapping onto MinValue) makes the constructor
  throw, and no object results.
- Streams.ReadBytes: `Stream.Read` with a non-zero offset into a buffer of
  exactly bufSize bytes throws ArgumentException. This is modelled as an
  InvalidArgument failure without distinguishing the offset and count cases.
- The C# sources declare `DIDIndexFileHeader` and `DIDIndexHeader` twice. Each
  is modelled once, as `GameFile` and `IndexRecord`.

## Findings

| source | as written | input that shows it | evidently intended | confidence | as-written member | corrected member |
|---|---|---|---|---|---|---|
| client/packages/dda-extractor/src/dda-extractor.ts:56 | returns `256 - chkSum`, which is 256 when the summed bytes add up to 0 mod 256 | an index file with packSize 2, payload [0, 7] and stored checksum byte 0: the computed 256 never equals a stored byte, so loadIndexes throws | the C# checksum `(byte)(256 - sum)`, 0 in that case, so the file is accepted | not executed | DdaExtractor.ZeroSumChecksumRejected | DdaExtractor.CorrectedChecksumIsUchVal |
