/** Fixed-width integers of the .NET and Node runtimes, little-endian
    decoding and encoding, and the byte-wise XOR used by every file kind. */
module Bytes {

  newtype u8 = x: int | 0 <= x < 0x100
  newtype u16 = x: int | 0 <= x < 0x1_0000
  newtype u32 = x: int | 0 <= x < 0x1_0000_0000
  newtype i16 = x: int | -0x8000 <= x < 0x8000

  /** Int32.MaxValue: the largest value Convert.ToInt32 accepts. */
  const INT32_MAX: int := 0x7FFF_FFFF

  /** A C# `int`. */
  type i32 = x: int | -INT32_MAX - 1 <= x <= INT32_MAX

  /** C# unchecked int arithmetic: reduce an int result to the 32-bit two's complement range. */
  function Int32Wrap(x: int): (r: i32)
    ensures -INT32_MAX - 1 <= r <= INT32_MAX
    ensures (r - x) % 0x1_0000_0000 == 0
    ensures -INT32_MAX - 1 <= x <= INT32_MAX ==> r == x
  {
    var m := x % 0x1_0000_0000;
    if m <= INT32_MAX then m else m - 0x1_0000_0000
  }

  /** Bitwise XOR of the low `width` bits of two naturals, bit by bit. */
  function XorBits(a: nat, b: nat, width: nat): (r: nat)
    ensures r < Pow2(width)
  {
    if width == 0 then 0
    else (if a % 2 == b % 2 then 0 else 1) + 2 * XorBits(a / 2, b / 2, width - 1)
  }

  function Pow2(n: nat): (r: nat)
    ensures r >= 1
  {
    if n == 0 then 1 else 2 * Pow2(n - 1)
  }

  /** XORing twice with the same key restores every value below 2^width. */
  lemma {:induction false} XorBitsInvolutive(a: nat, k: nat, width: nat)
    requires a < Pow2(width)
    ensures XorBits(XorBits(a, k, width), k, width) == a
  {
    if width > 0 {
      var x := XorBits(a, k, width);
      assert x / 2 == XorBits(a / 2, k / 2, width - 1);
      XorBitsInvolutive(a / 2, k / 2, width - 1);
    }
  }

  lemma Pow2Widths()
    ensures Pow2(8) == 0x100 && Pow2(16) == 0x1_0000 && Pow2(32) == 0x1_0000_0000
  {
    assert Pow2(8) == 0x100;
    assert Pow2(16) == Pow2(8) * 0x100 by { Pow2Split(8, 8); }
    assert Pow2(32) == Pow2(16) * Pow2(16) by { Pow2Split(16, 16); }
  }

  lemma {:induction false} Pow2Split(m: nat, n: nat)
    ensures Pow2(m + n) == Pow2(m) * Pow2(n)
  {
    if m > 0 {
      Pow2Split(m - 1, n);
    }
  }

  function Xor8(a: u8, b: u8): u8 {
    Pow2Widths();
    XorBits(a as nat, b as nat, 8) as u8
  }

  function Xor16(a: u16, b: u16): u16 {
    Pow2Widths();
    XorBits(a as nat, b as nat, 16) as u16
  }

  function Xor32(a: u32, b: u32): u32 {
    Pow2Widths();
    XorBits(a as nat, b as nat, 32) as u32
  }

  lemma Xor8Involutive(a: u8, k: u8)
    ensures Xor8(Xor8(a, k), k) == a
  {
    Pow2Widths();
    XorBitsInvolutive(a as nat, k as nat, 8);
  }

  lemma Xor16Involutive(a: u16, k: u16)
    ensures Xor16(Xor16(a, k), k) == a
  {
    Pow2Widths();
    XorBitsInvolutive(a as nat, k as nat, 16);
  }

  lemma Xor32Involutive(a: u32, k: u32)
    ensures Xor32(Xor32(a, k), k) == a
  {
    Pow2Widths();
    XorBitsInvolutive(a as nat, k as nat, 32);
  }

  /** `buf.Select(b => (byte)(b ^ key))`: every byte XORed with one key. */
  function XorAll(buf: seq<u8>, key: u8): (r: seq<u8>)
    ensures |r| == |buf|
    ensures forall i :: 0 <= i < |buf| ==> r[i] == Xor8(buf[i], key)
  {
    seq(|buf|, i requires 0 <= i < |buf| => Xor8(buf[i], key))
  }

  /** Applying the same full-buffer XOR twice gives back the buffer. */
  lemma XorAllInvolutive(buf: seq<u8>, key: u8)
    ensures XorAll(XorAll(buf, key), key) == buf
  {
    var once := XorAll(buf, key);
    var twice := XorAll(once, key);
    forall i | 0 <= i < |buf|
      ensures twice[i] == buf[i]
    {
      Xor8Involutive(buf[i], key);
    }
  }

  /** BitConverter.ToUInt16 / readUInt16LE on two bytes. */
  function LE16(b: seq<u8>): (r: u16)
    requires |b| == 2
  {
    (b[0] as int + 0x100 * b[1] as int) as u16
  }

  /** BitConverter.ToUInt32 / readUInt32LE on four bytes. */
  function LE32(b: seq<u8>): (r: u32)
    requires |b| == 4
  {
    (b[0] as int + 0x100 * (b[1] as int + 0x100 * (b[2] as int + 0x100 * b[3] as int))) as u32
  }

  /** The two little-endian bytes of a 16-bit value (the inverse of LE16). */
  function EncodeLE16(x: u16): (b: seq<u8>)
    ensures |b| == 2
  {
    [(x as int % 0x100) as u8, (x as int / 0x100) as u8]
  }

  /** The four little-endian bytes of a 32-bit value (the inverse of LE32). */
  function EncodeLE32(x: u32): (b: seq<u8>)
    ensures |b| == 4
  {
    var n := x as int;
    [(n % 0x100) as u8, (n / 0x100 % 0x100) as u8,
     (n / 0x100 / 0x100 % 0x100) as u8, (n / 0x100 / 0x100 / 0x100) as u8]
  }

  lemma LE16RoundTrip(x: u16, b: seq<u8>)
    requires |b| == 2
    ensures LE16(EncodeLE16(x)) == x
    ensures EncodeLE16(LE16(b)) == b
  {
  }

  lemma LE32RoundTrip(x: u32, b: seq<u8>)
    requires |b| == 4
    ensures LE32(EncodeLE32(x)) == x
    ensures EncodeLE32(LE32(b)) == b
  {
    var n := x as int;
    var q1, q2 := n / 0x100, n / 0x100 / 0x100;
    assert n == n % 0x100 + 0x100 * (q1 % 0x100 + 0x100 * (q2 % 0x100 + 0x100 * (q2 / 0x100)));
    var c := b[1] as int + 0x100 * (b[2] as int + 0x100 * b[3] as int);
    DivModByte(b[0] as int, c);
    DivModByte(b[1] as int, b[2] as int + 0x100 * b[3] as int);
    DivModByte(b[2] as int, b[3] as int);
  }

  lemma DivModByte(lo: int, hi: int)
    requires 0 <= lo < 0x100
    ensures (lo + 0x100 * hi) / 0x100 == hi && (lo + 0x100 * hi) % 0x100 == lo
  {
  }

  /** BitConverter.ToInt16: the same 16 bits read as a two's complement value. */
  function ToSigned16(x: u16): (r: i16)
    ensures r as int % 0x1_0000 == x as int
  {
    if x < 0x8000 then x as int as i16 else (x as int - 0x1_0000) as i16
  }

  /** The 16-bit pattern of a signed value (the inverse of ToSigned16). */
  function FromSigned16(v: i16): (r: u16)
    ensures ToSigned16(r) == v
  {
    if v >= 0 then v as int as u16 else (v as int + 0x1_0000) as u16
  }

  lemma SignedRoundTrip(x: u16)
    ensures FromSigned16(ToSigned16(x)) == x
  {
  }

  /** The sum of all bytes, as an unbounded integer. */
  function Sum(s: seq<u8>): (r: nat)
    ensures r <= 255 * |s|
  {
    if s == [] then 0 else Sum(s[..|s| - 1]) + s[|s| - 1] as nat
  }

  /** A byte as a character of System.Text.Encoding.ASCII: bytes above 0x7F become '?'. */
  function AsciiChar(b: u8): (c: char)
    ensures b < 0x80 ==> c as int == b as int
    ensures b >= 0x80 ==> c == '?'
  {
    if b < 0x80 then b as int as char else '?'
  }

  /** Encoding.ASCII.GetString: one character per byte. */
  function AsciiString(b: seq<u8>): (s: string)
    ensures |s| == |b|
    ensures forall i :: 0 <= i < |b| ==> s[i] == AsciiChar(b[i])
  {
    seq(|b|, i requires 0 <= i < |b| => AsciiChar(b[i]))
  }
}
