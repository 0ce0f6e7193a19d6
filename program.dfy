/** What the program's entry point computes from a ROM image and a key
    blob: the keycode seed built from the game code, the CRC16 stored in
    the secure-area header, the region of the boot code that CRC covers,
    and the report the program prints and the boot-code dump it writes. */
module Program {
  import opened Words
  import opened Blowfish
  import opened Cartridge

  // ---------------------------------------------------------------------
  // The keycode seed

  /** The initial keycode `[gamecode, gamecode >> 1, gamecode << 1]`, each
      word a `u32`, so the left shift drops bit 31. */
  function KeycodeSeed(gameCode: u32): (k: seq<u32>)
    ensures |k| == 3
  {
    [gameCode, gameCode / 2, (2 * gameCode) % W32]
  }

  /** The seed words are the game code, the game code without its lowest
      bit, and the game code without its highest bit, shifted one place. */
  lemma KeycodeSeedBits(gameCode: u32)
    ensures KeycodeSeed(gameCode)[0] == gameCode
    ensures 2 * KeycodeSeed(gameCode)[1] + gameCode % 2 == gameCode
    ensures KeycodeSeed(gameCode)[1] < 0x8000_0000
    ensures KeycodeSeed(gameCode)[2] == 2 * (gameCode % 0x8000_0000)
    ensures KeycodeSeed(gameCode)[2] % 2 == 0
  {
    var g := gameCode;
    if g < 0x8000_0000 {
      assert (2 * g) % W32 == 2 * g;
    } else {
      assert (2 * g) % W32 == 2 * g - W32;
      assert g % 0x8000_0000 == g - 0x8000_0000;
    }
  }

  // ---------------------------------------------------------------------
  // The CRC field and the region it covers

  /** The CRC16 stored in the secure-area header: the little-endian `u16`
      at byte 0xE of the boot code's byte view. */
  function EmbeddedCrc(raw: seq<u64>): (r: Result<u16>)
    ensures r.Success? <==> |raw| >= 2
    ensures r.Failure? ==> r.error == TruncatedInput
  {
    var bytes := EncodeWords64(raw);
    if |bytes| < 0x10 then Failure(TruncatedInput) else Success(LeU16(bytes, 0xE))
  }

  /** The bytes 0x10..0x800 of the boot code's byte view. */
  function CrcSlice(raw: seq<u64>): (r: Result<seq<u8>>)
    ensures r.Success? <==> |raw| >= 0x100
    ensures r.Failure? ==> r.error == TruncatedInput
    ensures r.Success? ==> |r.value| == CrcSliceBytes
  {
    var bytes := EncodeWords64(raw);
    if |bytes| < 0x800 then Failure(TruncatedInput) else Success(bytes[0x10..0x800])
  }

  /** The stored CRC is bits 48..63 of the second boot-code word. */
  lemma EmbeddedCrcIsTopOfWord1(raw: seq<u64>)
    requires |raw| >= 2
    ensures EmbeddedCrc(raw) == Success(raw[1] / 0x1_0000_0000_0000)
  {
    var bytes := EncodeWords64(raw);
    assert bytes[0xE] == Byte64(raw[1], 6) && bytes[0xF] == Byte64(raw[1], 7);
    Top16(raw[1]);
  }

  /** The CRC covers exactly the boot-code words 2..255. */
  lemma CrcSliceIsWords2To256(raw: seq<u64>)
    requires |raw| >= 0x100
    ensures CrcSlice(raw) == Success(EncodeWords64(raw[2..0x100]))
  {
    var bytes := EncodeWords64(raw);
    var tail := EncodeWords64(raw[2..0x100]);
    forall b | 0 <= b < CrcSliceBytes ensures bytes[0x10 + b] == tail[b] {
      assert (0x10 + b) / 8 == 2 + b / 8 && (0x10 + b) % 8 == b % 8;
    }
    assert bytes[0x10..0x800] == tail;
  }

  /** The CRC check of `main`: the stored CRC against the CRC16 of bytes
      0x10..0x800 of the boot code. Either index fails on a boot code
      shorter than 0x800 bytes. */
  function CheckBootcodeCrc(crc16: seq<u8> -> u16, raw: seq<u64>): (r: Result<(bool, u16)>)
    ensures r.Success? <==> |raw| >= 0x100
    ensures r.Failure? ==> r.error == TruncatedInput
  {
    var romCrc := EmbeddedCrc(raw);
    if romCrc.Failure? then Failure(romCrc.error)
    else
      var slice := CrcSlice(raw);
      if slice.Failure? then Failure(slice.error)
      else CheckSecureAreaCrc(crc16, romCrc.value, slice.value)
  }

  /** What the CRC check of `main` decides, in terms of the boot-code words:
      the recomputed CRC is that of words 2..255, and it passes exactly when
      it equals the top 16 bits of word 1. The slice length is always right,
      so `BadSliceLength` never reaches `main`. */
  lemma CheckBootcodeCrcMeaning(crc16: seq<u8> -> u16, raw: seq<u64>)
    requires |raw| >= 0x100
    ensures CheckBootcodeCrc(crc16, raw).Success?
    ensures CheckBootcodeCrc(crc16, raw).value.1 == crc16(EncodeWords64(raw[2..0x100]))
    ensures CheckBootcodeCrc(crc16, raw).value.0 <==>
      raw[1] / 0x1_0000_0000_0000 == crc16(EncodeWords64(raw[2..0x100]))
  {
    EmbeddedCrcIsTopOfWord1(raw);
    CrcSliceIsWords2To256(raw);
  }

  /** For a boot code read from a ROM image, the CRC check of `main` in
      terms of the image: the stored CRC is the `u16` at 0x400E and the
      slice is the image bytes 0x4010..0x4800. */
  lemma CheckBootcodeCrcOfImage(crc16: seq<u8> -> u16, rom: seq<u8>, raw: seq<u64>)
    requires 0x100 <= |raw| && Arm9Start + 8 * |raw| <= |rom|
    requires EncodeWords64(raw) == rom[Arm9Start..Arm9Start + 8 * |raw|]
    ensures EmbeddedCrc(raw) == Success(LeU16(rom, Arm9Start + 0xE))
    ensures var actual := crc16(rom[Arm9Start + 0x10..Arm9Start + 0x800]);
      CheckBootcodeCrc(crc16, raw) == Success((LeU16(rom, Arm9Start + 0xE) == actual, actual))
  {
    var bin := EncodeWords64(raw);
    assert bin[0xE] == rom[Arm9Start + 0xE] && bin[0xF] == rom[Arm9Start + 0xF];
    assert bin[0x10..0x800] == rom[Arm9Start + 0x10..Arm9Start + 0x800];
  }

  // ---------------------------------------------------------------------
  // The byte view as the program builds it

  /** The byte view `main` obtains by transmuting the `&[u64]` slice
      reference into a `&[u8]` one. A slice reference carries its element
      count, which the transmute keeps, so the view covers the first
      `|raw|` bytes of the words' memory rather than all `8 * |raw|`. */
  function ByteViewAsWritten(raw: seq<u64>): (b: seq<u8>)
    ensures |b| == |raw|
  {
    EncodeWords64(raw)[..|raw|]
  }

  /** The slice `arm9u8ref[0x10..0x800]` over that view. */
  function CrcSliceAsWritten(raw: seq<u64>): (r: Result<seq<u8>>)
    ensures r.Success? <==> |raw| >= 0x800
    ensures r.Failure? ==> r.error == TruncatedInput
  {
    var bytes := ByteViewAsWritten(raw);
    if |bytes| < 0x800 then Failure(TruncatedInput) else Success(bytes[0x10..0x800])
  }

  /** The view as written is the start of the boot code's bytes, so where
      its slice exists it agrees with the slice over the whole byte view. */
  lemma CrcSliceAsWrittenAgrees(raw: seq<u64>)
    requires |raw| >= 0x800
    ensures CrcSliceAsWritten(raw) == CrcSlice(raw)
  {
    var bytes := EncodeWords64(raw);
    assert ByteViewAsWritten(raw)[0x10..0x800] == bytes[0x10..0x800];
  }

  /** A boot code of 0x100 words holds the whole 0x800-byte region the CRC
      covers, yet the slice as written cannot be taken from it. */
  lemma CrcSliceAsWrittenRejectsWholeRegion()
    ensures exists raw: seq<u64> ::
      |raw| == 0x100 && CrcSlice(raw).Success? && CrcSliceAsWritten(raw).Failure?
  {
    var raw: seq<u64> := seq(0x100, _ => 0);
    assert CrcSlice(raw).Success? && CrcSliceAsWritten(raw).Failure?;
  }

  /** The dump as written holds an eighth of the boot code's bytes: every
      non-empty boot code loses its last `7 * |raw|` bytes. */
  lemma DumpAsWrittenTruncated(raw: seq<u64>)
    requires |raw| > 0
    ensures |ByteViewAsWritten(raw)| * 8 == |EncodeWords64(raw)|
    ensures ByteViewAsWritten(raw) != EncodeWords64(raw)
  {
  }

  // ---------------------------------------------------------------------
  // The whole run

  /** What the program prints, and the boot-code dump it writes to
      `arm9.bin`. The keycode is computed but, with the key schedule calls
      disabled, nothing uses it. */
  datatype Report = Report(
    gameTitle: seq<u8>,
    gameCode: u32,
    arm9Off: u32,
    secureAreaPresent: bool,
    secureAreaEncrypted: bool,
    keycode: seq<u32>,
    romCrc: u16,
    actualCrc: u16,
    crcOk: bool,
    arm9Bin: seq<u8>)

  /** The ROM images the run accepts: a whole header, boot code at 0x4000,
      at least the 0x800 bytes the CRC check indexes, all inside the image. */
  predicate RomAccepted(rom: seq<u8>) {
    |rom| >= HeaderBytes &&
    LeU32(rom, 32) == Arm9Start && 0x100 <= LeU32(rom, 44) &&
    Arm9Start + 8 * LeU32(rom, 44) <= |rom|
  }

  /** What the report of an accepted ROM holds, in terms of the image bytes. */
  predicate Describes(rep: Report, rom: seq<u8>, crc16: seq<u8> -> u16)
    requires RomAccepted(rom)
  {
    rep.gameTitle == rom[..12] && rep.gameCode == LeU32(rom, 12) &&
    rep.arm9Off == Arm9Start && rep.secureAreaPresent &&
    (rep.secureAreaEncrypted <==> LeU64(rom, Arm9Start) != DecryptedMarker) &&
    rep.keycode == KeycodeSeed(rep.gameCode) &&
    rep.arm9Bin == rom[Arm9Start..Arm9Start + 8 * LeU32(rom, 44)] &&
    rep.romCrc == LeU16(rom, Arm9Start + 0xE) &&
    rep.actualCrc == crc16(rom[Arm9Start + 0x10..Arm9Start + 0x800]) &&
    (rep.crcOk <==> rep.romCrc == rep.actualCrc)
  }

  /** The report on a parsed header and boot code: seed the keycode, check
      the CRC, and take the byte view of the boot code for the dump. */
  function MakeReport(hdr: NdsHeader, code: Arm9Bootcode, crc16: seq<u8> -> u16): (r: Result<Report>)
    ensures r.Success? <==> |code.rawData| >= 0x100
    ensures r.Failure? ==> r.error == TruncatedInput
  {
    var check := CheckBootcodeCrc(crc16, code.rawData);
    if check.Failure? then Failure(check.error)
    else Success(Report(
      hdr.gameTitle, hdr.gameCode, hdr.arm9Off,
      code.secureAreaPresent, code.secureAreaEncrypted, KeycodeSeed(hdr.gameCode),
      EmbeddedCrc(code.rawData).value, check.value.1, check.value.0,
      EncodeWords64(code.rawData)))
  }

  /** The report on a header parsed from an accepted ROM, and on the boot
      code read from that ROM, describes the ROM. */
  lemma MakeReportDescribes(rom: seq<u8>, code: Arm9Bootcode, crc16: seq<u8> -> u16, r: Result<Report>)
    requires RomAccepted(rom)
    requires r == MakeReport(ParseNds(rom).value, code, crc16)
    requires |code.rawData| == LeU32(rom, 44)
    requires EncodeWords64(code.rawData) == rom[Arm9Start..Arm9Start + 8 * |code.rawData|]
    requires code.secureAreaPresent
    requires code.secureAreaEncrypted <==> LeU64(rom, Arm9Start) != DecryptedMarker
    ensures r.Success? && Describes(r.value, rom, crc16)
  {
    HeaderFieldOffsets(rom);
    CheckBootcodeCrcOfImage(crc16, rom, code.rawData);
  }

  /** The part of `main` that works on the ROM image: parse the header, read
      the boot code, then report. Each step that fails ends the run. */
  method InspectRom(rom: seq<u8>, crc16: seq<u8> -> u16) returns (r: Result<Report>)
    ensures |rom| < HeaderBytes ==> r == Failure(TruncatedInput)
    ensures r.Success? <==> RomAccepted(rom)
    ensures r.Success? ==> Describes(r.value, rom, crc16)
  {
    var hdr := ParseNds(rom);
    if hdr.Failure? {
      r := Failure(hdr.error);
    } else {
      HeaderFieldOffsets(rom);
      var arm9 := NewBootcode(rom, hdr.value);
      if arm9.Failure? {
        r := Failure(arm9.error);
      } else {
        r := MakeReport(hdr.value, arm9.value, crc16);
        if r.Success? {
          MakeReportDescribes(rom, arm9.value, crc16, r);
        }
      }
    }
  }

  /** The run of `main` on a ROM image and a key blob: the key table is
      loaded first, then the ROM is inspected. `crc16` stands for the BIOS
      CRC routine. */
  method Inspect(rom: seq<u8>, encrBlob: seq<u8>, crc16: seq<u8> -> u16) returns (r: Result<Report>)
    ensures |encrBlob| < 4 * TableWords || |rom| < HeaderBytes ==> r == Failure(TruncatedInput)
    ensures r.Success? <==> |encrBlob| >= 4 * TableWords && RomAccepted(rom)
    ensures r.Success? ==> Describes(r.value, rom, crc16)
  {
    var encr := LoadEncrData(encrBlob);
    if encr.Failure? {
      return Failure(encr.error);
    }
    r := InspectRom(rom, crc16);
  }
}
