/** TFCPaletteManager: the palette file is a game-file envelope whose data is XORed
    with 0x66. Its record size is declared as 0, so computing the record count
    divides by zero: a palette load never completes. */
module Palette {
  import opened Bytes
  import opened Outcomes
  import opened Envelope

  const PALETTE_XOR_KEY: u8 := 0x66
  const PALETTE_FILE: string := "V2ColorI.dpd"
  /** DPDIndexHeader.STRUCT_SIZE_BYTES, the divisor of the record count. */
  const PALETTE_STRUCT_SIZE: nat := 0

  /** The palette game file as loadGamefile leaves it before the record count:
      the decoded envelope with its data XORed with 0x66. */
  function PaletteFile(dir: GameDirectory, inflate: Inflater, md5: Digest): Result<GameFile>
  {
    if !dir.Exists(PALETTE_FILE) then Failure(FileNotFound(PALETTE_FILE))
    else
      var g :- DecodeEnvelope(dir.files[PALETTE_FILE], inflate, md5);
      DecodeEnvelopeLayout(dir.files[PALETTE_FILE], inflate, md5);
      Success(g.(uncompressedData := Some(XorAll(g.uncompressedData.value, PALETTE_XOR_KEY))))
  }

  /** A loaded palette keeps the envelope's header fields; its buffer has the length
      unpackSize and XORed with 0x66 again it is the verified inflated data, the data
      whose MD5 the stored digest names. */
  lemma PaletteUnmasks(dir: GameDirectory, inflate: Inflater, md5: Digest)
    requires PaletteFile(dir, inflate, md5).Success?
    ensures var p := PaletteFile(dir, inflate, md5).value;
      var file := dir.files[PALETTE_FILE];
      var pack := p.ulPackSize as int;
      && dir.Exists(PALETTE_FILE)
      && p.uncompressedData.Some?
      && |p.uncompressedData.value| == p.ulUnpackSize as int
      && p.ulUnpackSize == LE32(file[16..20]) && p.ulPackSize == LE32(file[20..24])
      && |file| >= PAYLOAD_AT + pack + 1
      && XorAll(p.uncompressedData.value, PALETTE_XOR_KEY) == inflate(file[41..41 + pack])[..p.ulUnpackSize]
      && ParseHex(p.strChksumMd5) == Some(md5(XorAll(p.uncompressedData.value, PALETTE_XOR_KEY)))
  {
    var file := dir.files[PALETTE_FILE];
    DecodeEnvelopeLayout(file, inflate, md5);
    var g := DecodeEnvelope(file, inflate, md5).value;
    XorAllInvolutive(g.uncompressedData.value, PALETTE_XOR_KEY);
  }

  class TFCPaletteManager {
    const gamefilePath: string
    var paletteGameFile: Option<GameFile>

    constructor (gamefilePath: string)
      ensures this.gamefilePath == gamefilePath && paletteGameFile.None?
    {
      this.gamefilePath := gamefilePath;
      paletteGameFile := None;
    }

    /** loadGamefile: a missing file or a failed decode throws with the field as it
        was; otherwise the XORed file is stored, and then Convert.ToInt32 of its
        unpackSize overflows or the division by the zero record size throws. */
    method LoadGamefile(dir: GameDirectory, inflate: Inflater, md5: Digest) returns (r: Result<()>)
      modifies this
      ensures r.Failure?
      ensures var p := PaletteFile(dir, inflate, md5);
        && (p.Failure? ==> r.error == p.error && paletteGameFile == old(paletteGameFile))
        && (p.Success? ==>
              paletteGameFile == Some(p.value)
              && r.error == if p.value.ulUnpackSize as int > INT32_MAX then Overflow else DivideByZero)
    {
      if !dir.Exists(PALETTE_FILE) {
        return Failure(FileNotFound(PALETTE_FILE));
      }
      var decoded :- DecryptV2Gamefile(dir.files[PALETTE_FILE], inflate, md5);
      DecodeEnvelopeLayout(dir.files[PALETTE_FILE], inflate, md5);
      paletteGameFile := Some(decoded);
      paletteGameFile := Some(decoded.(uncompressedData := Some(XorAll(decoded.uncompressedData.value, PALETTE_XOR_KEY))));
      var unpack :- ToInt32(paletteGameFile.value.ulUnpackSize);
      // indicesCount := unpack / PALETTE_STRUCT_SIZE, with PALETTE_STRUCT_SIZE == 0
      r := Failure(DivideByZero);
    }

    /** DecryptPalette: the palette load, which never completes. */
    method DecryptPalette(dir: GameDirectory, inflate: Inflater, md5: Digest) returns (r: Result<()>)
      modifies this
      ensures r.Failure?
      ensures var p := PaletteFile(dir, inflate, md5);
        && (p.Failure? ==> r.error == p.error && paletteGameFile == old(paletteGameFile))
        && (p.Success? ==>
              paletteGameFile == Some(p.value)
              && r.error == if p.value.ulUnpackSize as int > INT32_MAX then Overflow else DivideByZero)
    {
      r := LoadGamefile(dir, inflate, md5);
    }
  }
}
