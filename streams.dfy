/** Cursor-based reading (System.IO streams as the decoders use them) and
    the StreamUtils helpers readBytes and convertToASCIIString. */
module Streams {
  import opened Bytes
  import opened Outcomes

  /** What one `Read(buf, 0, count)` yields from position `pos`:
      as many bytes as remain, at most `count`. */
  function Window(data: seq<u8>, pos: nat, count: nat): (w: seq<u8>)
    ensures |w| <= count
    ensures pos + count <= |data| ==> w == data[pos..pos + count]
    ensures |w| == count <==> count == 0 || pos + count <= |data|
  {
    if pos >= |data| then []
    else if pos + count <= |data| then data[pos..pos + count]
    else data[pos..]
  }

  /** A readable, seekable stream over fixed contents (a MemoryStream, or a
      FileStream opened on a file's bytes). The position may lie past the end. */
  class ByteStream {
    const data: seq<u8>
    var pos: nat

    constructor (contents: seq<u8>)
      ensures data == contents && pos == 0
    {
      data := contents;
      pos := 0;
    }

    /** Stream.Read into a fresh buffer: returns the bytes actually read and advances past them. */
    method Read(count: nat) returns (chunk: seq<u8>)
      modifies this
      ensures chunk == Window(data, old(pos), count)
      ensures pos == old(pos) + |chunk|
    {
      chunk := Window(data, pos, count);
      pos := pos + |chunk|;
    }

    /** Stream.Seek from the beginning; a negative target throws. */
    method Seek(offset: int) returns (ok: bool)
      modifies this
      ensures ok <==> offset >= 0
      ensures pos == if ok then offset else old(pos)
    {
      ok := offset >= 0;
      if ok {
        pos := offset;
      }
    }
  }

  function Zeros(n: nat): (z: seq<u8>)
    ensures |z| == n && forall i :: 0 <= i < n ==> z[i] == 0
  {
    seq(n, i => 0)
  }

  /** readBytes(s, offset, bufSize): a zero-filled buffer of `bufSize` bytes that the
      stream fills from `offset` on. The buffer is exactly `bufSize` long, so any
      offset but 0 makes Stream.Read throw; a short read fails its assertion. */
  method ReadBytes(s: ByteStream, offset: int, bufSize: nat) returns (r: Result<seq<u8>>)
    modifies s
    ensures offset != 0 ==> r == Failure(InvalidArgument) && s.pos == old(s.pos)
    ensures offset == 0 && old(s.pos) + bufSize <= |s.data| ==>
              r == Success(s.data[old(s.pos)..old(s.pos) + bufSize]) && s.pos == old(s.pos) + bufSize
    ensures offset == 0 && old(s.pos) + bufSize > |s.data| && bufSize > 0 ==>
              r == Failure(ShortRead(Buffer)) && s.pos == old(s.pos) + |Window(s.data, old(s.pos), bufSize)|
    ensures offset == 0 && bufSize == 0 ==> r == Success([]) && s.pos == old(s.pos)
    ensures r.Success? ==> |r.value| == bufSize
  {
    if offset != 0 {
      return Failure(InvalidArgument);
    }
    var chunk := s.Read(bufSize);
    var resultBuf := chunk + Zeros(bufSize - |chunk|);
    if |chunk| != bufSize {
      return Failure(ShortRead(Buffer));
    }
    assert resultBuf == chunk;
    r := Success(resultBuf);
  }

  /** `buf.Where(s => s > 0x0)`: the non-zero bytes, in their original order. */
  function NonZero(buf: seq<u8>): (r: seq<u8>)
    ensures |r| <= |buf|
    ensures forall i :: 0 <= i < |r| ==> r[i] != 0
  {
    if buf == [] then []
    else (if buf[0] != 0 then [buf[0]] else []) + NonZero(buf[1..])
  }

  /** convertToASCIIString: the non-zero bytes of a fixed-width field, ASCII-decoded. */
  function ConvertToAsciiString(buf: seq<u8>): (s: string)
    ensures |s| == |NonZero(buf)|
    ensures forall i :: 0 <= i < |s| ==> s[i] == AsciiChar(NonZero(buf)[i])
  {
    AsciiString(NonZero(buf))
  }

  /** Exactly the zero bytes are dropped: the kept count is the length minus the number of zeros. */
  lemma {:induction false} NonZeroCount(buf: seq<u8>)
    ensures |NonZero(buf)| == |buf| - multiset(buf)[0]
    ensures multiset(NonZero(buf)) == multiset(buf)[0 := 0]
  {
    if buf != [] {
      NonZeroCount(buf[1..]);
      assert buf == [buf[0]] + buf[1..];
      assert multiset(buf) == multiset([buf[0]]) + multiset(buf[1..]);
    }
  }

  /** Zeros are removed wherever they stand, and the kept bytes stay in order. */
  lemma {:induction false} NonZeroAppend(a: seq<u8>, b: seq<u8>)
    ensures NonZero(a + b) == NonZero(a) + NonZero(b)
  {
    if a != [] {
      assert (a + b)[1..] == a[1..] + b;
      NonZeroAppend(a[1..], b);
    } else {
      assert a + b == b;
    }
  }

  /** A buffer without zero bytes is kept whole. */
  lemma {:induction false} NonZeroOfNoZeros(buf: seq<u8>)
    requires forall i :: 0 <= i < |buf| ==> buf[i] != 0
    ensures NonZero(buf) == buf
  {
    if buf != [] {
      NonZeroOfNoZeros(buf[1..]);
    }
  }

  /** An all-zero buffer gives the empty string. */
  lemma {:induction false} ConvertZeros(n: nat)
    ensures ConvertToAsciiString(Zeros(n)) == ""
  {
    if n > 0 {
      assert Zeros(n) == Zeros(n - 1) + [0];
      NonZeroAppend(Zeros(n - 1), [0]);
      ConvertZeros(n - 1);
    }
  }

  /** A NUL-padded ASCII field decodes back to its text: each byte in 1..0x7F
      becomes the character with that code, and the padding vanishes. */
  lemma ConvertPaddedAscii(text: seq<u8>, pad: nat)
    requires forall i :: 0 <= i < |text| ==> 0 < text[i] < 0x80
    ensures |ConvertToAsciiString(text + Zeros(pad))| == |text|
    ensures forall i :: 0 <= i < |text| ==> ConvertToAsciiString(text + Zeros(pad))[i] as int == text[i] as int
  {
    NonZeroAppend(text, Zeros(pad));
    NonZeroOfNoZeros(text);
    ConvertZeros(pad);
    assert NonZero(text + Zeros(pad)) == text;
  }
}
