/** Failures, optional values and the outside world the decoders depend on:
    the game directory's files, the zlib inflater and the MD5 hash. */
module Outcomes {
  import opened Bytes

  datatype Option<T> = None | Some(value: T)

  /** Where a read came up short: each is one `Debug.Assert` on a read count. */
  datatype ReadSite =
    | DigestPart1 | UnpackSizeField | PackSizeField | DigestPart2
    | Payload | InnerChecksum | Inflated | IndexRecordBytes | Segment | Buffer

  /** The ways a decode or lookup can stop: a failed assertion or a thrown exception. */
  datatype Error =
    | FileNotFound(name: string)                // File.Exists was false
    | ShortRead(site: ReadSite)                 // a read returned fewer bytes than asked for
    | ChecksumMismatch(stored: u8, computed: int)
    | DigestMismatch(storedDigest: string, computedDigest: string)
    | Overflow                                  // Convert.ToInt32 of a value above Int32.MaxValue
    | DivideByZero
    | KeyNotFound(key: string)                  // a dictionary lookup of an absent key
    | NotLoaded                                 // the dictionary was never created
    | IndexOutOfRange
    | InvalidArgument                           // Stream.Read with an offset outside its buffer
    | SeekBeforeBegin                           // MemoryStream.Seek to a negative position
    | NoDataToRead                              // the TypeScript checksum's guard

  datatype Result<T> = Success(value: T) | Failure(error: Error) {
    predicate IsFailure() {
      Failure?
    }

    function PropagateFailure<U>(): Result<U>
      requires Failure?
    {
      Failure(error)
    }

    function Extract(): T
      requires Success?
    {
      value
    }
  }

  /** The game directory: file name to file contents. File.Exists is key membership,
      File.ReadAllBytes and File.OpenRead read the stored contents. */
  datatype GameDirectory = GameDirectory(files: map<string, seq<u8>>) {
    predicate Exists(name: string) {
      name in files
    }
  }

  /** The zlib stream over a compressed buffer: every byte it would yield, in order. */
  type Inflater = seq<u8> -> seq<u8>

  /** MD5.ComputeHash: the digest bytes of a buffer. */
  type Digest = seq<u8> -> seq<u8>

  /** Convert.ToInt32 of an unsigned 32-bit value. */
  function ToInt32(x: u32): (r: Result<nat>)
    ensures r.Success? <==> x as int <= INT32_MAX
    ensures r.Success? ==> r.value == x as nat
    ensures r.Failure? ==> r.error == Overflow
  {
    if x as int <= INT32_MAX then Success(x as nat) else Failure(Overflow)
  }
}
