/** The fixed-layout decoders of the program: the 48-byte packed cartridge
    header, the key blob holding the 1042-word table, the ARM9 boot code at
    ROM offset 0x4000 with its secure-area flags, and the secure-area CRC
    comparison. Every byte source (the ROM file, the key file) is an
    in-memory `seq<u8>`, and a read past its end is a `TruncatedInput`
    failure instead of a panic. */
module Cartridge {
  import opened Words
  import opened Blowfish

  /** Size of the packed header record: the sum of its field sizes. */
  const HeaderBytes := 48

  /** The ROM offset the boot code must start at. */
  const Arm9Start := 0x4000

  /** The first boot-code word of a secure area that is already decrypted. */
  const DecryptedMarker: u64 := 0xE7FF_DEFF_E7FF_DEFF

  /** Length of the secure-area region the CRC covers (0x10..0x800). */
  const CrcSliceBytes := 0x7F0

  // ---------------------------------------------------------------------
  // The cartridge header

  /** `NDSCartridgeHeader`: fields in declaration order, all little-endian,
      with no padding between them. */
  datatype NdsHeader = NdsHeader(
    gameTitle: seq<u8>,   // 12 bytes at 0
    gameCode: u32,        // at 12
    makerCode: u16,       // at 16
    unitCode: u8,         // at 18
    encrSeedSel: u8,      // at 19
    deviceCaps: u8,       // at 20
    reserved0: seq<u8>,   // 8 bytes at 21
    ndsRegion: u8,        // at 29
    romVersion: u8,       // at 30
    autostart: u8,        // at 31
    arm9Off: u32,         // at 32
    arm9Entry: u32,       // at 36
    arm9RamAddr: u32,     // at 40
    arm9Size: u32)        // at 44

  /** The byte arrays of a header have their declared lengths. */
  predicate WellFormed(h: NdsHeader) {
    |h.gameTitle| == 12 && |h.reserved0| == 8
  }

  /** The in-memory byte image of a header record (what `transmute` exposes). */
  function EncodeHeader(h: NdsHeader): (b: seq<u8>)
    ensures |b| == |h.gameTitle| + |h.reserved0| + 28
    ensures WellFormed(h) ==> |b| == HeaderBytes
  {
    h.gameTitle + Le32Bytes(h.gameCode) + Le16Bytes(h.makerCode)
    + [h.unitCode, h.encrSeedSel, h.deviceCaps] + h.reserved0
    + [h.ndsRegion, h.romVersion, h.autostart]
    + Le32Bytes(h.arm9Off) + Le32Bytes(h.arm9Entry)
    + Le32Bytes(h.arm9RamAddr) + Le32Bytes(h.arm9Size)
  }

  /** `parse_nds`: the first 48 bytes of the image, read into the packed
      record. `read_exact` fails on an image shorter than the record. */
  function ParseNds(image: seq<u8>): (r: Result<NdsHeader>)
    ensures r.Failure? <==> |image| < HeaderBytes
    ensures r.Failure? ==> r.error == TruncatedInput
    ensures r.Success? ==> WellFormed(r.value)
  {
    if |image| < HeaderBytes then Failure(TruncatedInput)
    else Success(NdsHeader(
      image[0..12], LeU32(image, 12), LeU16(image, 16),
      image[18], image[19], image[20], image[21..29],
      image[29], image[30], image[31],
      LeU32(image, 32), LeU32(image, 36), LeU32(image, 40), LeU32(image, 44)))
  }

  /** The fields the program goes on to use sit at the offsets the packed
      layout gives them. */
  lemma HeaderFieldOffsets(image: seq<u8>)
    requires |image| >= HeaderBytes
    ensures ParseNds(image).Success?
    ensures ParseNds(image).value.gameTitle == image[..12]
    ensures ParseNds(image).value.gameCode == LeU32(image, 12)
    ensures ParseNds(image).value.arm9Off == LeU32(image, 32)
    ensures ParseNds(image).value.arm9Size == LeU32(image, 44)
  {
  }

  /** Parsing reads exactly the first 48 bytes: writing the parsed record
      back gives them unchanged. */
  lemma EncodeParseNds(image: seq<u8>)
    requires |image| >= HeaderBytes
    ensures EncodeHeader(ParseNds(image).value) == image[..HeaderBytes]
  {
    var h := ParseNds(image).value;
    BytesOfLeU32(image, 12);
    BytesOfLeU16(image, 16);
    BytesOfLeU32(image, 32);
    BytesOfLeU32(image, 36);
    BytesOfLeU32(image, 40);
    BytesOfLeU32(image, 44);
    assert image[..HeaderBytes] == image[0..12] + image[12..16] + image[16..18]
      + [image[18], image[19], image[20]] + image[21..29]
      + [image[29], image[30], image[31]]
      + image[32..36] + image[36..40] + image[40..44] + image[44..48];
  }

  /** Parsing the byte image of a header, whatever follows it, gives the
      header back. */
  lemma ParseEncodeHeader(h: NdsHeader, rest: seq<u8>)
    requires WellFormed(h)
    ensures ParseNds(EncodeHeader(h) + rest) == Success(h)
  {
    var s := EncodeHeader(h) + rest;
    assert s[0..12] == h.gameTitle;
    assert s[21..29] == h.reserved0;
    LeU32OfBytes(s, 12, h.gameCode);
    LeU16OfBytes(s, 16, h.makerCode);
    LeU32OfBytes(s, 32, h.arm9Off);
    LeU32OfBytes(s, 36, h.arm9Entry);
    LeU32OfBytes(s, 40, h.arm9RamAddr);
    LeU32OfBytes(s, 44, h.arm9Size);
  }

  // ---------------------------------------------------------------------
  // The key blob

  /** `load_encr_data`: fills a 1042-word table with consecutive
      little-endian words read from the start of the blob; the first read
      that runs past the end fails. */
  method LoadEncrData(blob: seq<u8>) returns (r: Result<seq<u32>>)
    ensures r.Success? <==> |blob| >= 4 * TableWords
    ensures r.Failure? ==> r.error == TruncatedInput
    ensures r.Success? ==> r.value == DecodeWords32(blob, TableWords)
  {
    var contents := new u32[TableWords](_ => 0);
    for i := 0 to TableWords
      invariant 4 * i <= |blob|
      invariant contents[..i] == DecodeWords32(blob, i)
    {
      if |blob| < 4 * i + 4 {
        return Failure(TruncatedInput);
      }
      contents[i] := LeU32(blob, 4 * i);
      assert contents[..i + 1] == contents[..i] + [contents[i]];
    }
    assert contents[..] == contents[..TableWords];
    return Success(contents[..]);
  }

  /** A key table stored as its little-endian byte image loads back
      unchanged. */
  lemma EncrDataRoundTrip(table: seq<u32>)
    requires |table| == TableWords
    ensures DecodeWords32(EncodeWords32(table), TableWords) == table
  {
    DecodeEncodeWords32(table);
  }

  // ---------------------------------------------------------------------
  // The ARM9 boot code

  /** `ARM9Bootcode`: the boot code as 64-bit words, and what is known about
      its secure area. */
  datatype Arm9Bootcode = Arm9Bootcode(
    rawData: seq<u64>,
    secureAreaPresent: bool,
    secureAreaEncrypted: bool)

  /** `ARM9Bootcode::new`: insists on the boot code starting at 0x4000,
      reads `arm9Size` little-endian 64-bit words from there, and classifies
      the secure area by the first of them. The assertion on the offset comes
      first, then the reads, then the access to word 0 (which fails on an
      empty boot code, whether or not the image reaches 0x4000). */
  method NewBootcode(image: seq<u8>, hdr: NdsHeader) returns (r: Result<Arm9Bootcode>)
    ensures hdr.arm9Off != Arm9Start ==> r == Failure(UnsupportedLayout)
    ensures hdr.arm9Off == Arm9Start && hdr.arm9Size == 0 ==> r == Failure(EmptyBootcode)
    ensures hdr.arm9Off == Arm9Start && hdr.arm9Size > 0 && |image| < Arm9Start + 8 * hdr.arm9Size
      ==> r == Failure(TruncatedInput)
    ensures r.Success? <==>
      hdr.arm9Off == Arm9Start && hdr.arm9Size > 0 && Arm9Start + 8 * hdr.arm9Size <= |image|
    ensures r.Success? ==> r.value.rawData == DecodeWords64(image[Arm9Start..], hdr.arm9Size)
    ensures r.Success? ==>
      EncodeWords64(r.value.rawData) == image[Arm9Start..Arm9Start + 8 * hdr.arm9Size]
    ensures r.Success? ==>
      (r.value.secureAreaEncrypted <==> LeU64(image, Arm9Start) != DecryptedMarker)
    ensures r.Success? ==> r.value.secureAreaPresent
  {
    if hdr.arm9Off != Arm9Start {
      return Failure(UnsupportedLayout);
    }
    var off: nat := hdr.arm9Off;
    var contents: seq<u64> := [];
    for i := 0 to hdr.arm9Size
      invariant off + 8 * i <= |image| || i == 0
      invariant |contents| == i
      invariant forall j :: 0 <= j < i ==> contents[j] == LeU64(image, off + 8 * j)
    {
      if |image| < off + 8 * i + 8 {
        return Failure(TruncatedInput);
      }
      contents := contents + [LeU64(image, off + 8 * i)];
    }
    if |contents| == 0 {
      return Failure(EmptyBootcode);
    }
    BootcodeBytes(image, contents);
    LeU64Shift(image, contents);
    var secureAreaEncrypted := contents[0] != DecryptedMarker;
    return Success(Arm9Bootcode(
      contents,
      0x4000 <= hdr.arm9Off < 0x8000,
      secureAreaEncrypted));
  }

  /** The boot-code words are the 64-bit little-endian view of the image
      bytes from 0x4000 on. */
  lemma BootcodeBytes(image: seq<u8>, raw: seq<u64>)
    requires Arm9Start + 8 * |raw| <= |image|
    requires forall j :: 0 <= j < |raw| ==> raw[j] == LeU64(image, Arm9Start + 8 * j)
    ensures EncodeWords64(raw) == image[Arm9Start..Arm9Start + 8 * |raw|]
  {
    forall i | 0 <= i < |raw|
      ensures EncodeWords64(raw)[8 * i..8 * i + 8] == image[Arm9Start + 8 * i..Arm9Start + 8 * i + 8]
    {
      EncodeWords64At(raw, i);
      BytesOfLeU64(image, Arm9Start + 8 * i);
    }
    forall b | 0 <= b < 8 * |raw|
      ensures EncodeWords64(raw)[b] == image[Arm9Start + b]
    {
      var i := b / 8;
      assert EncodeWords64(raw)[8 * i..8 * i + 8][b - 8 * i] == EncodeWords64(raw)[b];
      assert image[Arm9Start + 8 * i..Arm9Start + 8 * i + 8][b - 8 * i] == image[Arm9Start + b];
    }
  }

  /** The same boot-code words, as a decoding of the image from 0x4000 on. */
  lemma LeU64Shift(image: seq<u8>, raw: seq<u64>)
    requires Arm9Start + 8 * |raw| <= |image|
    requires forall j :: 0 <= j < |raw| ==> raw[j] == LeU64(image, Arm9Start + 8 * j)
    ensures raw == DecodeWords64(image[Arm9Start..], |raw|)
  {
    var tail := image[Arm9Start..];
    forall j | 0 <= j < |raw| ensures LeU64(tail, 8 * j) == LeU64(image, Arm9Start + 8 * j) {
      assert tail[8 * j..8 * j + 8] == image[Arm9Start + 8 * j..Arm9Start + 8 * j + 8];
    }
  }

  // ---------------------------------------------------------------------
  // The secure-area CRC

  /** `check_secure_area_crc`: the slice must be exactly 0x7F0 bytes; the
      result says whether `crc` matches the CRC16 of the slice, and carries
      that recomputed CRC16. `crc16` stands for the BIOS CRC routine. */
  function CheckSecureAreaCrc(crc16: seq<u8> -> u16, crc: u16, slice: seq<u8>): (r: Result<(bool, u16)>)
    ensures r.Success? <==> |slice| == CrcSliceBytes
    ensures r.Failure? ==> r.error == BadSliceLength
    ensures r.Success? ==> r.value.1 == crc16(slice)
    ensures r.Success? ==> (r.value.0 <==> crc == crc16(slice))
  {
    if |slice| != CrcSliceBytes then Failure(BadSliceLength)
    else var correct := crc16(slice); Success((correct == crc, correct))
  }

  /** The CRC returned does not depend on the CRC being checked. */
  lemma ReturnedCrcIgnoresClaim(crc16: seq<u8> -> u16, crc: u16, crc': u16, slice: seq<u8>)
    requires |slice| == CrcSliceBytes
    ensures CheckSecureAreaCrc(crc16, crc, slice).value.1 == CheckSecureAreaCrc(crc16, crc', slice).value.1
  {
  }

  /** Writing back the CRC the check returns makes the check pass, and it is
      the only value that does. */
  lemma ReturnedCrcPasses(crc16: seq<u8> -> u16, crc: u16, slice: seq<u8>)
    requires |slice| == CrcSliceBytes
    ensures var fixed := CheckSecureAreaCrc(crc16, crc, slice).value.1;
      CheckSecureAreaCrc(crc16, fixed, slice) == Success((true, fixed))
    ensures forall c: u16 {:trigger CheckSecureAreaCrc(crc16, c, slice)} ::
      CheckSecureAreaCrc(crc16, c, slice).value.0 ==> c == CheckSecureAreaCrc(crc16, crc, slice).value.1
  {
  }
}
