# NDS secure-area tool: key table engine and cartridge decoders in Dafny

The program inspects a Nintendo DS cartridge image. It makes four calls:

- It loads a 1042-word key table from a key blob.
- It decodes the 48-byte packed cartridge header.
- It reads the ARM9 boot code from ROM offset 0x4000. It classifies the boot code's secure area as present and as encrypted or not.
- It checks the CRC16 stored in the secure-area header against the CRC16 of boot-code bytes 0x10..0x800.

It also contains the "KEY1" engine that cartridge titles use:

- `blowfish_nds` is a Blowfish-family 64-bit block transform. It runs 16 Feistel rounds over the key table: P-array at words 0..17 and four S-boxes at 0x12, 0x112, 0x212 and 0x312.
- `apply_keycode` rewrites a three-word title keycode and the key table in place.

This project models those parts and proves their properties.

The model has five modules, one file each:

- `Words` (words.dfy): the Rust integer widths as integer subranges and the operations the program uses on them. These cover XOR, wrapping addition, 64-bit packing, byte swap and the little-endian byte codecs. It also holds the shared `Error` and `Result` types.
- `Blowfish` (blowfish.dfy): `Cipher`, the specification of the block transform. `BlowfishNds` is the program's loop, proved equal to `Cipher`. The module proves that the transform:
  - reads only table words 0..1041 and never writes the table;
  - is a bijection on blocks for either direction, with an explicit inverse;
  - has a decrypt direction that does not undo its encrypt direction. A lemma gives the exact residue when the S-boxes are zero, and another lemma gives a concrete counterexample.
- `Keycode` (keycode.dfy): `apply_keycode` as three array-mutating methods, each proved against a specification function.
  - The two overlapping keycode encryptions, `EncryptKeycode`. They are invertible.
  - The sequential byte-swap XOR pass, `XorPass`. It has a closed form per word.
  - The 66 chained scratch encryptions, `Chain`. Which words they write is proved, and words 132 and up are untouched.
  - `ApplyKeycode` proves that the new table is `DeriveTable` of the old one, so it does not depend on the keycode.
- `Cartridge` (cartridge.dfy): the decoders over in-memory byte sequences.
  - The header codec, with round trips both ways.
  - `load_encr_data` as a loop filling an array.
  - `ARM9Bootcode::new` as a loop pushing words, with every error case and both secure-area flags.
  - `check_secure_area_crc`.
- `Program` (program.dfy): what `main` computes.
  - The keycode seed `[g, g >> 1, g << 1]` truncated to 32 bits.
  - The stored CRC, which turns out to be the top 16 bits of boot-code word 1.
  - The CRC slice, which is exactly the byte image of boot-code words 2..255.
  - The whole run, `Inspect`, which ties each reported item to bytes of the ROM image.

The program's panics become `Failure` results. These are an `unwrap` of a short read, the `assert!` on the boot-code offset and out-of-range slice indexing. The two exceptions are the table indexing of `blowfish_nds` and `apply_keycode`. There a table of at least 1042 words is a precondition, which every caller meets.

Several things the code does differ from what its comments or a first reading suggest. The model follows the code:

- The first keycode encryption uses keycode word 2, as the high half of the block (words 1, 2). The second uses the overlapping block (words 0, 1). The high half of each block is a real keycode word.
- The XOR pass mixes each of table words 0..11 with the byte swap of table word `i % 2`, not of a keycode word.
- The scratch block is zeroed once and chained through all 66 encryptions.
- The decrypt direction does not invert the encrypt direction. `Blowfish.DecryptDoesNotInvertEncrypt` exhibits a table and a block for which it fails. The exact inverse of either direction is `Blowfish.Uncipher`.
- Any boot-code offset other than 0x4000 is refused, so a boot code that is read always has its secure area flagged present.
- The CRC is checked on the boot code exactly as read from the image. The calls that would transform it are disabled in the program.

## Model

| member | source | states |
|---|---|---|
| Words.Add32 | src/main.rs:95-97 | `wrapping_add` is a `u32` that is either the plain sum or the sum less 2^32: the carry out of bit 31 is dropped |
| Words.Xor32Cancel | src/main.rs:93-98 | XORing the same word twice restores the original word |
| Words.Xor32Comm | src/main.rs:93-98 | 32-bit XOR is commutative |
| Words.Xor32Assoc | src/main.rs:93-98 | 32-bit XOR is associative |
| Words.Xor32Zero | src/main.rs:93-98 | 0 is the identity of 32-bit XOR |
| Words.Xor32Self | src/main.rs:93-98 | a word XORed with itself is 0 |
| Words.XorBound | src/main.rs:93 | the XOR of two numbers below 2^n is below 2^n, so `^` on `u32` stays a `u32` |
| Words.Pack64 | src/main.rs:82-83 | the 64-bit block built from two halves has exactly those halves as its low and high 32 bits |
| Words.UnpackPack | src/main.rs:110 | every 64-bit block is the packing of its own low and high halves |
| Words.Pack64Injective | src/main.rs:110 | distinct pairs of halves pack to distinct blocks |
| Words.Word32Bytes | src/main.rs:126 | a word composed from four bytes has those bytes at positions 0..3 |
| Words.Word32OfBytes | src/main.rs:126 | every word is the composition of its own four bytes |
| Words.Bswap32Bytes | src/main.rs:126 | `swap_bytes` puts byte 3 - j of the word at position j |
| Words.Bswap32Involutive | src/main.rs:126 | swapping the bytes twice gives the word back |
| Words.Top16 | src/main.rs:201 | bytes 6 and 7 of a 64-bit word, read little-endian, are its top 16 bits |
| Words.LeU32OfBytes | src/main.rs:144 | reading a little-endian `u32` from the four bytes of a word gives that word |
| Words.BytesOfLeU32 | src/main.rs:144 | the four bytes a `u32` read consumes are the little-endian bytes of the value read |
| Words.LeU16OfBytes | src/main.rs:201 | reading a little-endian `u16` from the two bytes of a value gives that value |
| Words.BytesOfLeU16 | src/main.rs:201 | the two bytes a `u16` read consumes are the little-endian bytes of the value read |
| Words.LeU64OfBytes | src/main.rs:33 | reading a little-endian `u64` from the eight bytes of a word gives that word |
| Words.BytesOfLeU64 | src/main.rs:33 | the eight bytes a `u64` read consumes are the little-endian bytes of the value read |
| Words.EncodeWords32At | src/main.rs:142-145 | word i of a table occupies bytes 4i..4i+4 of its byte image, little-endian |
| Words.EncodeWords64At | src/main.rs:200 | word i of the boot code occupies bytes 8i..8i+8 of its byte view, little-endian |
| Words.DecodeEncodeWords32 | src/main.rs:142-145 | decoding the byte image of a word table gives the table back |
| Words.EncodeDecodeWords32 | src/main.rs:142-145 | re-encoding n decoded words gives exactly the first 4n bytes they were read from |
| Words.DecodeEncodeWords64 | src/main.rs:31-34 | decoding the byte image of a 64-bit word sequence gives the sequence back |
| Blowfish.SubkeyIndex | src/main.rs:86-90 | round r uses word r when encrypting and word 17 - r (so 17 down to 2) when decrypting |
| Blowfish.BlowfishNds | src/main.rs:81-111 | the loop computes `Cipher` of the block under the table: 16 rounds (x, y) := (y ^ F(p ^ x), p ^ x) with the direction's subkeys, then the direction's finalisation; the table is only read |
| Blowfish.RoundsReadPrefix | src/main.rs:92-100 | any number of rounds depends only on table words 0..1041 |
| Blowfish.CipherReadsPrefix | src/main.rs:81-111 | the transform gives the same block for the table and for its first 1042 words |
| Blowfish.Unround | src/main.rs:93-99 | a round is undone by a closed-form inverse round (the inverse's ensures applies the round to it) |
| Blowfish.UnroundRound | src/main.rs:93-99 | undoing a round after doing it restores the state |
| Blowfish.UnroundsRounds | src/main.rs:92-100 | undoing the first n rounds, last first, after doing them restores the state |
| Blowfish.RoundsUnrounds | src/main.rs:92-100 | doing the first n rounds after undoing them restores the state |
| Blowfish.Unfinish | src/main.rs:103-110 | the finalisation of either direction is onto: every block is the finalisation of the returned halves |
| Blowfish.UnfinishFinish | src/main.rs:103-110 | undoing the finalisation after doing it restores the halves |
| Blowfish.UncipherCipher | src/main.rs:81-111 | `Uncipher` is a left inverse of the transform for either direction |
| Blowfish.CipherUncipher | src/main.rs:81-111 | `Uncipher` is a right inverse of the transform for either direction |
| Blowfish.CipherInjective | src/main.rs:81-111 | under any table, distinct blocks transform to distinct blocks |
| Blowfish.FZero | src/main.rs:94-97 | with zero S-boxes the round function is 0 |
| Blowfish.OneRoundWithZeroSboxes | src/main.rs:93-99 | with zero S-boxes a round swaps the halves and XORs its subkey into the half that moves up |
| Blowfish.PairWithZeroSboxes | src/main.rs:92-100 | with zero S-boxes two consecutive rounds XOR their subkeys into the low and the high half |
| Blowfish.RoundsWithZeroSboxes | src/main.rs:92-100 | with zero S-boxes, after 2m rounds the low half has absorbed the even-round subkeys and the high half the odd-round subkeys |
| Blowfish.EncEvens | src/main.rs:86-87 | encryption's even rounds use words 0, 2, ..., 2m - 2 |
| Blowfish.EncOdds | src/main.rs:86-87 | encryption's odd rounds use words 1, 3, ..., 2m - 1 |
| Blowfish.DecOdds | src/main.rs:88-89 | decryption's odd rounds use words 16, 14, ..., 18 - 2m |
| Blowfish.DecEvens | src/main.rs:88-89 | decryption's even rounds use words 17, 15, ..., 19 - 2m |
| Blowfish.EncEvensDecOdds | src/main.rs:86-90 | encryption's even-round subkeys and decryption's odd-round subkeys cancel to P[0] ^ P[16] |
| Blowfish.EncOddsDecEvens | src/main.rs:86-90 | encryption's odd-round subkeys and decryption's even-round subkeys cancel to P[17] ^ P[1] |
| Blowfish.ResidueSymmetric | src/main.rs:103-109 | the four whitening words XOR to the same residue in either grouping |
| Blowfish.DecryptAfterEncryptWithZeroSboxes | src/main.rs:81-111 | with zero S-boxes, decrypting an encrypted block yields the block with P[0] ^ P[1] ^ P[16] ^ P[17] XORed into both halves |
| Blowfish.DecryptDoesNotInvertEncrypt | src/main.rs:81-111 | some table and block exist for which decrypting the encrypted block does not give it back |
| Keycode.EncryptKeycode | src/main.rs:117-123 | the encrypted keycode has three words |
| Keycode.DecryptKeycode | src/main.rs:117-123 | the decrypted keycode has three words |
| Keycode.DecryptEncryptKeycode | src/main.rs:117-123 | the two overlapping keycode encryptions lose no information: `DecryptKeycode` undoes them |
| Keycode.EncryptKeycodeInjective | src/main.rs:117-123 | under a fixed table, distinct keycodes encrypt to distinct keycodes |
| Keycode.EncryptKeycodeInPlace | src/main.rs:117-123 | encrypting (low tk[1], high tk[2]) into tk[1], tk[2] and then (low tk[0], high the new tk[1]) into tk[0], tk[1], under the entry table, leaves `EncryptKeycode` of the old keycode; the table is unchanged |
| Keycode.Sweep | src/main.rs:125-127 | a pass of n sequential steps keeps the table length |
| Keycode.SweepAt | src/main.rs:125-127 | after n sequential steps, words 0 and 1 are mixed with themselves, words 2..n-1 with the new word i % 2, and words from n on are unchanged |
| Keycode.XorPass | src/main.rs:125-127 | the XOR pass keeps the table length |
| Keycode.XorPassAt | src/main.rs:125-127 | after the pass, words 0 and 1 are XORed with their own byte swap, words 2..11 with the byte swap of the new word i % 2, and words 12 and up are unchanged |
| Keycode.XorPassInPlace | src/main.rs:125-127 | the in-place loop leaves exactly `XorPass` of the table |
| Keycode.Store | src/main.rs:131-132 | storing the scratch block keeps the table length |
| Keycode.StoreAt | src/main.rs:131-132 | proof step, unfolding `Store`: the high half of the scratch block goes to word 2j and the low half to word 2j + 1 |
| Keycode.StoreFrame | src/main.rs:131-132 | proof step, unfolding `Store`: no other word changes |
| Keycode.EncryptStep | src/main.rs:130 | definition of one iteration's step, used by the proofs: on a full key table it encrypts the scratch block under the table as it stands |
| Keycode.Chain | src/main.rs:129-133 | the chained iterations keep the table length |
| Keycode.ChainNext | src/main.rs:129-133 | proof step, unfolding `Chain` once: iteration n encrypts the scratch block left by iteration n - 1 under the table it left, then stores the result |
| Keycode.ChainFrame | src/main.rs:129-133 | after n iterations no word at or after 2n has changed |
| Keycode.ChainStores | src/main.rs:129-133 | after n iterations, words 2j and 2j + 1 (j < n) hold the high and low halves of iteration j's scratch block |
| Keycode.ChainScratch | src/main.rs:120-133 | proof step, unfolding `Chain` with `EncryptStep`: the scratch block starts at 0 and each one is the encryption of the previous one under the table as the earlier iterations left it |
| Keycode.DeriveTable | src/main.rs:125-133 | the derived table has the length of the table on entry |
| Keycode.DeriveTableFrame | src/main.rs:125-133 | `apply_keycode` leaves words 132 and up unchanged |
| Keycode.EncryptAndStore | src/main.rs:130-132 | one iteration: the new scratch block is the step applied to the table and the old block, and the table becomes `Store` of it |
| Keycode.ChainInPlace | src/main.rs:129-133 | the in-place loop over i = 0, 2, ..., 130 leaves exactly the table of 66 chained iterations |
| Keycode.ApplyKeycode | src/main.rs:116-134 | the keycode becomes `EncryptKeycode` of the old keycode under the entry table, and the table becomes `DeriveTable` of the entry table, a function of the table alone |
| Cartridge.EncodeHeader | src/main.rs:47-63 | the packed record of a well-formed header is 48 bytes |
| Cartridge.ParseNds | src/main.rs:66-78 | parsing fails, as a short read, exactly when the image is shorter than 48 bytes, and otherwise gives a well-formed header |
| Cartridge.HeaderFieldOffsets | src/main.rs:47-63 | proof step, unfolding `ParseNds`: the title is bytes 0..12, the game code the `u32` at 12, the boot-code offset the `u32` at 32 and its size the `u32` at 44 |
| Cartridge.EncodeParseNds | src/main.rs:66-78 | the parsed header's byte image is exactly the first 48 bytes of the image |
| Cartridge.ParseEncodeHeader | src/main.rs:66-78 | parsing the byte image of a well-formed header, whatever follows it, gives the header back |
| Cartridge.LoadEncrData | src/main.rs:136-148 | loading succeeds exactly when the blob holds 4 * 1042 bytes, and then yields word i = the little-endian `u32` at byte 4i; otherwise it fails as a short read |
| Cartridge.EncrDataRoundTrip | src/main.rs:142-145 | a table stored as its little-endian byte image loads back unchanged |
| Cartridge.NewBootcode | src/main.rs:21-43 | it fails on an offset other than 0x4000, then on a short image, then on an empty boot code; otherwise it reads exactly `arm9size` little-endian `u64` words from 0x4000, whose byte view is the image bytes there; the area is encrypted exactly when word 0 is not 0xE7FFDEFFE7FFDEFF, and always present |
| Cartridge.BootcodeBytes | src/main.rs:31-34 | the byte view of words read from 0x4000 is the image bytes from 0x4000 on |
| Cartridge.LeU64Shift | src/main.rs:31-34 | the words read from 0x4000 are the decoding of the image from 0x4000 on |
| Cartridge.CheckSecureAreaCrc | src/main.rs:154-159 | it fails exactly when the slice is not 0x7F0 bytes; otherwise it returns the slice's CRC16 and whether that equals the given CRC |
| Cartridge.ReturnedCrcIgnoresClaim | src/main.rs:154-159 | the returned CRC does not depend on the CRC being checked |
| Cartridge.ReturnedCrcPasses | src/main.rs:150-159 | writing back the returned CRC makes the check pass, and it is the only value that does |
| Program.KeycodeSeed | src/main.rs:172 | the keycode seed has three words |
| Program.KeycodeSeedBits | src/main.rs:172 | the seed is the game code, the game code without bit 0 shifted down, and the game code without bit 31 shifted up |
| Program.EmbeddedCrc | src/main.rs:200-201 | over the corrected byte view, the stored CRC can be read exactly when the boot code has at least two words |
| Program.CrcSlice | src/main.rs:200-203 | over the corrected byte view, the slice exists exactly when the boot code has at least 256 words, and is then 0x7F0 bytes |
| Program.EmbeddedCrcIsTopOfWord1 | src/main.rs:200-201 | the stored CRC is bits 48..63 of boot-code word 1 |
| Program.CrcSliceIsWords2To256 | src/main.rs:200-203 | the CRC slice is the byte image of boot-code words 2..255 |
| Program.ByteViewAsWritten | src/main.rs:200 | the byte view produced by the slice transmute has as many bytes as the boot code has words |
| Program.CrcSliceAsWritten | src/main.rs:200-203 | over that view the CRC slice exists only when the boot code has at least 0x800 words |
| Program.CrcSliceAsWrittenAgrees | src/main.rs:200-203 | when the slice over that view exists it is the same bytes as the slice over the whole byte view |
| Program.CrcSliceAsWrittenRejectsWholeRegion | src/main.rs:200-203 | a boot code of 0x100 words covers the CRC region, yet the slice over that view cannot be taken |
| Program.DumpAsWrittenTruncated | src/main.rs:223-225 | the dump written through that view is an eighth of the boot code's bytes, and so differs from them for any non-empty boot code |
| Program.CheckBootcodeCrc | src/main.rs:200-203 | over the corrected byte view, the check of `main` succeeds exactly when the boot code has at least 256 words, otherwise it fails as a short read |
| Program.CheckBootcodeCrcMeaning | src/main.rs:200-203 | the recomputed CRC is that of words 2..255, and the check passes exactly when it equals the top 16 bits of word 1; the slice length is never wrong |
| Program.CheckBootcodeCrcOfImage | src/main.rs:200-203 | for a boot code read from an image, the stored CRC is the `u16` at ROM byte 0x400E and the slice is ROM bytes 0x4010..0x4800 |
| Program.MakeReport | src/main.rs:170-214 | over the corrected byte view, the report exists exactly when the boot code has at least 256 words |
| Program.MakeReportDescribes | src/main.rs:167-214 | the report on an accepted image states its title, game code, offset, secure-area flags, keycode seed, dump, stored and recomputed CRC in terms of the image bytes |
| Program.InspectRom | src/main.rs:167-214 | over the corrected byte view, the ROM part of `main` succeeds exactly on accepted images and then reports what `MakeReportDescribes` states |
| Program.Inspect | src/main.rs:161-225 | the run fails on a short key blob or header; over the corrected byte view it succeeds exactly when the blob is complete and the image is accepted, and then its report describes the image |

## Findings

| source | as written | input that shows it | evidently intended | confidence | as-written member | corrected member |
|---|---|---|---|---|---|---|
| src/main.rs:200-203 | `transmute::<&[u64], &[u8]>` keeps the slice's element count, so the byte view has `arm9size` bytes and `arm9u8ref[0x10..0x800]` panics unless the boot code has at least 0x800 words | a boot code of 0x100 words, which holds the whole region 0x0..0x800 | the view covers all `8 * arm9size` bytes, so 0x100 words suffice for the CRC check | high, not executed | Program.CrcSliceAsWrittenRejectsWholeRegion | Program.CrcSliceIsWords2To256 |
| src/main.rs:223-225 | the dump goes through the same transmute, so `arm9.bin` receives only the first `arm9size` bytes of the boot code | any non-empty boot code | the dump is the whole boot code as little-endian words, byte for byte | high, not executed | Program.DumpAsWrittenTruncated | Program.MakeReportDescribes |

The rest of the model uses the corrected byte view, `EncodeWords64` of all the boot-code words. The view as written is `Program.ByteViewAsWritten`; `Program.CrcSliceAsWritten` takes the CRC slice over it.

## Left out

- File and console I/O: opening files, seeking, `println!`, coloured output and writing `arm9.bin`. The byte sources are in-memory sequences. `Program.Inspect` returns the report and the dump bytes instead of printing and writing them. A seek failure in `load_encr_data` is I/O and is not modelled.
- `crc::bios_get_crc16`: src/crc.rs is not part of this model. The CRC16 is a function parameter `crc16: seq<u8> -> u16`, about which nothing is assumed.
- The commented-out key-schedule and block-transform calls in `main` (src/main.rs:174-178). They are never executed. The keycode seed is computed and reported but used by nothing, as in the program.
- `String::from_utf8_lossy` of the title (src/main.rs:168): the title stays as its 12 bytes.
- The `unsafe transmute` views are modelled by their little-endian meaning, not by pointer aliasing:
  - the two overlapping `&mut u64` views of the keycode;
  - the `u32` halves of the scratch block;
  - the header copy;
  - the byte view of the boot code.
  `Keycode.EncryptKeycodeInPlace` writes the two halves of each block explicitly. The one exception is the length the boot-code view keeps, which is a finding above.
- `apply_keycode` is one Rust function. Here it is `Keycode.ApplyKeycode` calling three methods, one per part, with `Keycode.EncryptAndStore` as the loop body. The scratch loop is proved for any step that agrees with encryption (`Keycode.EncryptsUnder`), which keeps the cipher out of the loop's proof.
- Keycode.EncryptStep: on a table shorter than 1042 words it leaves the block unchanged. The loop never reaches that case, because every table it sees is a full key table.
- `blowfish_nds` takes a table of any length. It panics only when a read goes past the end, and which S-box entries it reads depends on the data (src/main.rs:94-97). `Blowfish.BlowfishNds` and `Keycode.ApplyKeycode` instead require a table of at least 1042 words. This holds for every table the program builds, because `load_encr_data` returns a `[u32; 1042]` (src/main.rs:136, 142, 165). The model does not cover calls on a shorter table that happen not to read past its end.
- Program.EmbeddedCrc, Program.CrcSlice, Program.CheckBootcodeCrc, Program.MakeReport, Program.InspectRom, Program.Inspect: their success conditions hold over the corrected byte view. As written, `main` panics on a shorter boot code. `&arm9u8ref[0xE]` needs at least 15 words, and the slice needs at least 0x800 words (see "## Findings").
- Rust's integer widths are integer subranges. `^` is a recursive XOR on naturals whose algebra is proved, wrapping addition is addition modulo 2^32, and shifts and masks are division and remainder by powers of two.
