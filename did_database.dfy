/** TFCDIDDatabase: the stand-alone index loader, which fills an array of records
    in file order and keeps no name map. */
module DidDatabase {
  import opened Bytes
  import opened Outcomes
  import opened Streams
  import opened IndexRecords

  class TFCDIDDatabase {
    const indexDatabasePath: string
    const databaseDataPrefixPath: string
    var indexDatabase: array?<IndexRecord>

    constructor (indexDatabasePath: string, databaseDataPrefix: string)
      ensures this.indexDatabasePath == indexDatabasePath
      ensures databaseDataPrefixPath == databaseDataPrefix
      ensures indexDatabase == null
    {
      this.indexDatabasePath := indexDatabasePath;
      databaseDataPrefixPath := databaseDataPrefix;
      indexDatabase := null;
    }

    /** Decrypt: load the index file, then read exactly indicesCount records from
        its XORed data, record i from bytes [332 i, 332 i + 332). A failed load
        leaves the database as it was. */
    method Decrypt(dir: GameDirectory, inflate: Inflater, md5: Digest) returns (r: Result<()>)
      modifies this
      ensures var loaded := LoadIndexSpec(dir, indexDatabasePath, inflate, md5);
        && (loaded.Failure? ==> r == Failure(loaded.error) && indexDatabase == old(indexDatabase))
        && (loaded.Success? ==>
              r == Success(())
              && indexDatabase != null && fresh(indexDatabase)
              && 0 <= loaded.value.header.indicesCount
              && STRUCT_SIZE_BYTES * loaded.value.header.indicesCount <= |loaded.value.data|
              && indexDatabase[..] == ParseRecords(loaded.value.data, loaded.value.header.indicesCount))
    {
      var loaded := LoadIndexFile(dir, indexDatabasePath, inflate, md5);
      if loaded.Failure? {
        return Failure(loaded.error);
      }
      LoadIndexFacts(dir, indexDatabasePath, inflate, md5);
      indexDatabase := ReadRecords(loaded.value.data, loaded.value.header.indicesCount);
      r := Success(());
    }
  }

  /** The record loop: a stream over the data, one 332-byte read per record,
      into a fresh array of exactly `count` records. */
  method ReadRecords(uncompressedData: seq<u8>, count: nat) returns (db: array<IndexRecord>)
    requires STRUCT_SIZE_BYTES * count <= |uncompressedData|
    ensures fresh(db)
    ensures db[..] == ParseRecords(uncompressedData, count)
  {
    var uncompressedDataStream := new ByteStream(uncompressedData);
    db := new IndexRecord[count];
    for i := 0 to count
      invariant uncompressedDataStream.data == uncompressedData
      invariant uncompressedDataStream.pos == STRUCT_SIZE_BYTES * i
      invariant forall k :: 0 <= k < i ==>
        db[k] == ParseRecord(uncompressedData[STRUCT_SIZE_BYTES * k..STRUCT_SIZE_BYTES * k + STRUCT_SIZE_BYTES])
    {
      var current := ReadRecord(uncompressedDataStream);
      db[i] := current.value;
    }
  }
}
