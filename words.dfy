/** Machine words, their bitwise operations, little-endian byte codecs and
    the error kinds shared by the decoders.

    A Rust `u8`/`u16`/`u32`/`u64` is an integer in its range. The operations
    the program uses are written out explicitly on these integers:
    `wrapping_add` is addition modulo 2^32, `x >> n` and `x & mask` are
    division and remainder by powers of two, and `^` is the bitwise XOR
    `Xor` defined below, with its algebra proved once by induction. */
module Words {

  const W8: int := 0x100
  const W16: int := 0x1_0000
  const W32: int := 0x1_0000_0000
  const W64: int := 0x1_0000_0000_0000_0000

  type u8 = x: int | 0 <= x < 0x100
  type u16 = x: int | 0 <= x < 0x1_0000
  type u32 = x: int | 0 <= x < 0x1_0000_0000
  type u64 = x: int | 0 <= x < 0x1_0000_0000_0000_0000

  /** The ways a decoder of the cartridge image, the key blob or the boot
      code can fail. In the program each of these is a panic (an `unwrap`,
      an `assert!` or an out-of-range index). */
  datatype Error =
    | TruncatedInput      // a read ran past the end of its byte source
    | UnsupportedLayout   // the boot code does not start at 0x4000
    | EmptyBootcode       // the boot code has no first word to classify
    | BadSliceLength      // the CRC slice is not 0x7F0 bytes long

  datatype Result<T> = Success(value: T) | Failure(error: Error)

  // ---------------------------------------------------------------------
  // Bitwise XOR on naturals

  function Pow2(n: nat): (p: nat)
    ensures p >= 1
  {
    if n == 0 then 1 else 2 * Pow2(n - 1)
  }

  /** The lowest bit of `a ^ b`. */
  function LowBit(a: nat, b: nat): nat {
    if a % 2 == b % 2 then 0 else 1
  }

  /** Bitwise exclusive or: bit i of the result is set exactly when bit i of
      one operand, and not the other, is set. */
  function Xor(a: nat, b: nat): nat
    decreases a + b, 1
  {
    XorStep(a, b)
  }

  /** One bit of `Xor`: the low bit, and `Xor` of the remaining bits. Kept
      apart from `Xor` so that a term `Xor(a, b)` unfolds one level at a time. */
  function XorStep(a: nat, b: nat): nat
    decreases a + b, 0
  {
    if a == 0 then b
    else if b == 0 then a
    else 2 * Xor(a / 2, b / 2) + LowBit(a, b)
  }

  lemma XorHalves(a: nat, b: nat)
    ensures Xor(a, b) / 2 == Xor(a / 2, b / 2)
    ensures Xor(a, b) % 2 == LowBit(a, b)
  {
  }

  lemma EqualHalves(l: nat, r: nat)
    requires l / 2 == r / 2 && l % 2 == r % 2
    ensures l == r
  {
  }

  lemma XorZero(a: nat)
    ensures Xor(a, 0) == a && Xor(0, a) == a
  {
  }

  lemma {:induction false} XorComm(a: nat, b: nat)
    ensures Xor(a, b) == Xor(b, a)
    decreases a + b
  {
    if a != 0 && b != 0 {
      XorComm(a / 2, b / 2);
    }
  }

  lemma {:induction false} XorSelf(a: nat)
    ensures Xor(a, a) == 0
  {
    if a != 0 {
      XorSelf(a / 2);
    }
  }

  lemma {:induction false} XorAssoc(a: nat, b: nat, c: nat)
    ensures Xor(Xor(a, b), c) == Xor(a, Xor(b, c))
    decreases a + b + c
  {
    if a != 0 && b != 0 && c != 0 {
      XorAssoc(a / 2, b / 2, c / 2);
      var l, r := Xor(Xor(a, b), c), Xor(a, Xor(b, c));
      XorHalves(Xor(a, b), c);
      XorHalves(a, b);
      XorHalves(a, Xor(b, c));
      XorHalves(b, c);
      assert l / 2 == r / 2;
      assert l % 2 == r % 2;
      EqualHalves(l, r);
    }
  }

  /** XOR never sets a bit above the operands' width. */
  lemma {:induction false} XorBound(a: nat, b: nat, n: nat)
    requires a < Pow2(n) && b < Pow2(n)
    ensures Xor(a, b) < Pow2(n)
  {
    if n > 0 && a != 0 && b != 0 {
      XorBound(a / 2, b / 2, n - 1);
    }
  }

  lemma Pow2Is32()
    ensures Pow2(32) == W32
  {
    assert Pow2(8) == W8;
    assert Pow2(16) == W16;
    assert Pow2(24) == 0x100_0000;
  }

  // ---------------------------------------------------------------------
  // 32-bit operations

  /** Rust's `a ^ b` on `u32`. */
  function Xor32(a: u32, b: u32): u32 {
    Pow2Is32();
    XorBound(a, b, 32);
    Xor(a, b)
  }

  /** Rust's `a.wrapping_add(b)` on `u32`. */
  function Add32(a: u32, b: u32): (r: u32)
    ensures r == a + b || r == a + b - W32
  {
    (a + b) % W32
  }

  /** XOR with the same key twice is the identity, on either side. */
  lemma Xor32Cancel(a: u32, b: u32)
    ensures Xor32(Xor32(a, b), b) == a
    ensures Xor32(b, Xor32(b, a)) == a
  {
    XorAssoc(a, b, b);
    XorSelf(b);
    XorZero(a);
    XorAssoc(b, b, a);
  }

  lemma Xor32Comm(a: u32, b: u32)
    ensures Xor32(a, b) == Xor32(b, a)
  {
    XorComm(a, b);
  }

  lemma Xor32Assoc(a: u32, b: u32, c: u32)
    ensures Xor32(Xor32(a, b), c) == Xor32(a, Xor32(b, c))
  {
    XorAssoc(a, b, c);
  }

  lemma Xor32Zero(a: u32)
    ensures Xor32(a, 0) == a && Xor32(0, a) == a
  {
    XorZero(a);
  }

  lemma Xor32Self(a: u32)
    ensures Xor32(a, a) == 0
  {
    XorSelf(a);
  }

  // ---------------------------------------------------------------------
  // 64-bit values as pairs of 32-bit halves

  /** Bits 0..31 of `v` (Rust's `v as u32`). */
  function Lo32(v: u64): u32 {
    v % W32
  }

  /** Bits 32..63 of `v` (Rust's `(v >> 32) as u32`). */
  function Hi32(v: u64): u32 {
    v / W32
  }

  /** The 64-bit value whose low half is `lo` and whose high half is `hi`:
      `(lo as u64) | ((hi as u64) << 32)`, the value a little-endian u64
      view of two consecutive u32 words holds. */
  function Pack64(lo: u32, hi: u32): (v: u64)
    ensures Lo32(v) == lo && Hi32(v) == hi
  {
    lo + hi * W32
  }

  lemma UnpackPack(v: u64)
    ensures Pack64(Lo32(v), Hi32(v)) == v
  {
  }

  lemma Pack64Injective(lo: u32, hi: u32, lo': u32, hi': u32)
    requires Pack64(lo, hi) == Pack64(lo', hi')
    ensures lo == lo' && hi == hi'
  {
    assert Lo32(Pack64(lo, hi)) == lo && Lo32(Pack64(lo', hi')) == lo';
  }

  // ---------------------------------------------------------------------
  // Bytes of words

  /** Byte `j` (0 = least significant) of a 32-bit word:
      `(w >> (8 * j)) & 0xFF`. */
  function Byte32(w: u32, j: nat): u8
    requires j < 4
  {
    if j == 0 then w % W8
    else if j == 1 then w / W8 % W8
    else if j == 2 then w / W16 % W8
    else w / 0x100_0000
  }

  /** Byte `j` (0 = least significant) of a 64-bit word. */
  function Byte64(w: u64, j: nat): u8
    requires j < 8
  {
    if j < 4 then Byte32(Lo32(w), j) else Byte32(Hi32(w), j - 4)
  }

  /** Bytes 6 and 7 of a 64-bit word, read as a little-endian `u16`, are
      its top 16 bits. */
  lemma Top16(w: u64)
    ensures Byte64(w, 6) + W8 * Byte64(w, 7) == w / 0x1_0000_0000_0000
  {
    var h := Hi32(w);
    assert Byte64(w, 6) == h / W16 % W8 && Byte64(w, 7) == h / 0x100_0000;
    assert h / W16 == h / W16 % W8 + W8 * (h / 0x100_0000);
    assert w / 0x1_0000_0000_0000 == h / W16;
  }

  /** The word whose bytes, least significant first, are `b0`..`b3`. */
  function Word32(b0: u8, b1: u8, b2: u8, b3: u8): u32 {
    b0 + W8 * b1 + W16 * b2 + 0x100_0000 * b3
  }

  /** The bytes of a composed word are the bytes it was composed of. Kept
      apart from `Word32` so that the division arithmetic enters a proof
      only where the proof asks for it. */
  lemma Word32Bytes(b0: u8, b1: u8, b2: u8, b3: u8)
    ensures Byte32(Word32(b0, b1, b2, b3), 0) == b0
    ensures Byte32(Word32(b0, b1, b2, b3), 1) == b1
    ensures Byte32(Word32(b0, b1, b2, b3), 2) == b2
    ensures Byte32(Word32(b0, b1, b2, b3), 3) == b3
  {
    var w := Word32(b0, b1, b2, b3);
    assert w / W8 == b1 + W8 * b2 + W16 * b3;
    assert w / W16 == b2 + W8 * b3;
  }

  /** Every word is the composition of its four bytes. */
  lemma Word32OfBytes(w: u32)
    ensures Word32(Byte32(w, 0), Byte32(w, 1), Byte32(w, 2), Byte32(w, 3)) == w
  {
    var q1 := w / W8;
    var q2 := q1 / W8;
    assert w == Byte32(w, 0) + W8 * q1;
    assert q1 == Byte32(w, 1) + W8 * q2;
    assert w / W16 == q2;
    assert q2 == Byte32(w, 2) + W8 * Byte32(w, 3);
  }

  /** Rust's `u32::swap_bytes`. */
  function Bswap32(w: u32): u32 {
    Word32(Byte32(w, 3), Byte32(w, 2), Byte32(w, 1), Byte32(w, 0))
  }

  /** Swapping the bytes of a word trades byte 0 with byte 3 and byte 1 with
      byte 2. */
  lemma Bswap32Bytes(w: u32)
    ensures forall j :: 0 <= j < 4 ==> Byte32(Bswap32(w), j) == Byte32(w, 3 - j)
  {
    Word32Bytes(Byte32(w, 3), Byte32(w, 2), Byte32(w, 1), Byte32(w, 0));
  }

  lemma Bswap32Involutive(w: u32)
    ensures Bswap32(Bswap32(w)) == w
  {
    var r := Bswap32(Bswap32(w));
    Bswap32Bytes(w);
    Bswap32Bytes(Bswap32(w));
    assert Byte32(r, 0) == Byte32(w, 0) && Byte32(r, 1) == Byte32(w, 1);
    assert Byte32(r, 2) == Byte32(w, 2) && Byte32(r, 3) == Byte32(w, 3);
    Word32OfBytes(w);
    Word32OfBytes(r);
  }

  // ---------------------------------------------------------------------
  // Little-endian decoding at a byte offset

  /** `u16::from_le_bytes` of the two bytes at `off`. */
  function LeU16(s: seq<u8>, off: nat): u16
    requires off + 2 <= |s|
  {
    s[off] + W8 * s[off + 1]
  }

  /** `u32::from_le_bytes` of the four bytes at `off`. */
  function LeU32(s: seq<u8>, off: nat): u32
    requires off + 4 <= |s|
  {
    Word32(s[off], s[off + 1], s[off + 2], s[off + 3])
  }

  /** `u64::from_le_bytes` of the eight bytes at `off`. */
  function LeU64(s: seq<u8>, off: nat): u64
    requires off + 8 <= |s|
  {
    Pack64(LeU32(s, off), LeU32(s, off + 4))
  }

  // ---------------------------------------------------------------------
  // Little-endian encoding

  function Le16Bytes(w: u16): (b: seq<u8>)
    ensures |b| == 2
  {
    [w % W8, w / W8]
  }

  function Le32Bytes(w: u32): (b: seq<u8>)
    ensures |b| == 4
    ensures forall j :: 0 <= j < 4 ==> b[j] == Byte32(w, j)
  {
    [Byte32(w, 0), Byte32(w, 1), Byte32(w, 2), Byte32(w, 3)]
  }

  function Le64Bytes(w: u64): (b: seq<u8>)
    ensures |b| == 8
    ensures forall j :: 0 <= j < 8 ==> b[j] == Byte64(w, j)
  {
    [Byte64(w, 0), Byte64(w, 1), Byte64(w, 2), Byte64(w, 3),
     Byte64(w, 4), Byte64(w, 5), Byte64(w, 6), Byte64(w, 7)]
  }

  /** Decoding the four bytes of a word gives the word back. */
  lemma LeU32OfBytes(s: seq<u8>, off: nat, w: u32)
    requires off + 4 <= |s| && s[off..off + 4] == Le32Bytes(w)
    ensures LeU32(s, off) == w
  {
    assert s[off] == Byte32(w, 0) && s[off + 1] == Byte32(w, 1);
    assert s[off + 2] == Byte32(w, 2) && s[off + 3] == Byte32(w, 3);
    Word32OfBytes(w);
  }

  /** Encoding a decoded word gives the four bytes back. */
  lemma BytesOfLeU32(s: seq<u8>, off: nat)
    requires off + 4 <= |s|
    ensures Le32Bytes(LeU32(s, off)) == s[off..off + 4]
  {
    Word32Bytes(s[off], s[off + 1], s[off + 2], s[off + 3]);
  }

  lemma LeU16OfBytes(s: seq<u8>, off: nat, w: u16)
    requires off + 2 <= |s| && s[off..off + 2] == Le16Bytes(w)
    ensures LeU16(s, off) == w
  {
    assert s[off] == w % W8 && s[off + 1] == w / W8;
  }

  lemma BytesOfLeU16(s: seq<u8>, off: nat)
    requires off + 2 <= |s|
    ensures Le16Bytes(LeU16(s, off)) == s[off..off + 2]
  {
  }

  lemma LeU64OfBytes(s: seq<u8>, off: nat, w: u64)
    requires off + 8 <= |s| && s[off..off + 8] == Le64Bytes(w)
    ensures LeU64(s, off) == w
  {
    assert s[off..off + 4] == Le32Bytes(Lo32(w));
    assert s[off + 4..off + 8] == Le32Bytes(Hi32(w));
    LeU32OfBytes(s, off, Lo32(w));
    LeU32OfBytes(s, off + 4, Hi32(w));
    UnpackPack(w);
  }

  /** Encoding a decoded 64-bit word gives the eight bytes back. */
  lemma BytesOfLeU64(s: seq<u8>, off: nat)
    requires off + 8 <= |s|
    ensures Le64Bytes(LeU64(s, off)) == s[off..off + 8]
  {
    var w := LeU64(s, off);
    assert Lo32(w) == LeU32(s, off) && Hi32(w) == LeU32(s, off + 4);
    BytesOfLeU32(s, off);
    BytesOfLeU32(s, off + 4);
  }

  // ---------------------------------------------------------------------
  // Sequences of words and their byte images

  /** `n` little-endian 32-bit words read back to back from the start of `s`. */
  function DecodeWords32(s: seq<u8>, n: nat): (ws: seq<u32>)
    requires 4 * n <= |s|
    ensures |ws| == n
  {
    seq(n, i requires 0 <= i < n => LeU32(s, 4 * i))
  }

  /** The byte image of a sequence of 32-bit words, each little-endian. */
  function EncodeWords32(ws: seq<u32>): (s: seq<u8>)
    ensures |s| == 4 * |ws|
  {
    seq(4 * |ws|, b requires 0 <= b < 4 * |ws| => Byte32(ws[b / 4], b % 4))
  }

  /** `n` little-endian 64-bit words read back to back from the start of `s`. */
  function DecodeWords64(s: seq<u8>, n: nat): (ws: seq<u64>)
    requires 8 * n <= |s|
    ensures |ws| == n
  {
    seq(n, i requires 0 <= i < n => LeU64(s, 8 * i))
  }

  /** The byte image of a sequence of 64-bit words, each little-endian: the
      view a `&[u8]` over a `&[u64]` gives on a little-endian machine. */
  function EncodeWords64(ws: seq<u64>): (s: seq<u8>)
    ensures |s| == 8 * |ws|
  {
    seq(8 * |ws|, b requires 0 <= b < 8 * |ws| => Byte64(ws[b / 8], b % 8))
  }

  lemma DivMod8(i: nat, j: nat)
    requires j < 8
    ensures (8 * i + j) / 8 == i && (8 * i + j) % 8 == j
  {
  }

  lemma EncodeWords32At(ws: seq<u32>, i: nat)
    requires i < |ws|
    ensures EncodeWords32(ws)[4 * i..4 * i + 4] == Le32Bytes(ws[i])
  {
    var a, b := EncodeWords32(ws)[4 * i..4 * i + 4], Le32Bytes(ws[i]);
    forall j | 0 <= j < 4 ensures a[j] == b[j] {
      assert (4 * i + j) / 4 == i && (4 * i + j) % 4 == j;
    }
    assert a == b;
  }

  lemma EncodeWords64At(ws: seq<u64>, i: nat)
    requires i < |ws|
    ensures EncodeWords64(ws)[8 * i..8 * i + 8] == Le64Bytes(ws[i])
  {
    var a, b := EncodeWords64(ws)[8 * i..8 * i + 8], Le64Bytes(ws[i]);
    forall j | 0 <= j < 8 ensures a[j] == b[j] {
      DivMod8(i, j);
    }
    assert a == b;
  }

  /** Decoding the byte image of a word sequence gives the words back. */
  lemma DecodeEncodeWords32(ws: seq<u32>)
    ensures DecodeWords32(EncodeWords32(ws), |ws|) == ws
  {
    forall i | 0 <= i < |ws| ensures LeU32(EncodeWords32(ws), 4 * i) == ws[i] {
      EncodeWords32At(ws, i);
      LeU32OfBytes(EncodeWords32(ws), 4 * i, ws[i]);
    }
  }

  /** Re-encoding decoded words gives exactly the bytes they came from. */
  lemma EncodeDecodeWords32(s: seq<u8>, n: nat)
    requires 4 * n <= |s|
    ensures EncodeWords32(DecodeWords32(s, n)) == s[..4 * n]
  {
    var ws := DecodeWords32(s, n);
    forall b | 0 <= b < 4 * n ensures EncodeWords32(ws)[b] == s[b] {
      var i := b / 4;
      EncodeWords32At(ws, i);
      BytesOfLeU32(s, 4 * i);
      assert EncodeWords32(ws)[b] == Le32Bytes(ws[i])[b - 4 * i];
    }
  }

  lemma DecodeEncodeWords64(ws: seq<u64>)
    ensures DecodeWords64(EncodeWords64(ws), |ws|) == ws
  {
    forall i | 0 <= i < |ws| ensures LeU64(EncodeWords64(ws), 8 * i) == ws[i] {
      EncodeWords64At(ws, i);
      LeU64OfBytes(EncodeWords64(ws), 8 * i, ws[i]);
    }
  }
}
