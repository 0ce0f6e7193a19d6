/** The 64-bit block transform of `blowfish_nds`: a 16-round Feistel network
    over a key table of 1042 words, P-array at 0..17 and four 256-entry
    S-boxes at 0x12, 0x112, 0x212 and 0x312.

    The functions below are the specification; `BlowfishNds` is the loop of
    the program, proved equal to `Cipher`. */
module Blowfish {
  import opened Words

  /** Number of words of a key table: 18 P-array words and 4 * 256 S-box words. */
  const TableWords := 1042

  /** The two 32-bit halves the rounds work on. */
  datatype Halves = Halves(x: u32, y: u32)

  /** The table index of the subkey used by round `r` (0-based): ascending
      0, 1, ..., 15 when encrypting, descending 17, 16, ..., 2 when decrypting. */
  function SubkeyIndex(enc: bool, r: nat): (i: nat)
    requires r < 16
    ensures enc ==> i == r
    ensures !enc ==> 2 <= i <= 17 && i + r == 17
  {
    if enc then r else 17 - r
  }

  /** The round function. The four bytes of `z`, most significant first,
      select an entry of S-box 0, 1, 2 and 3; the entries are combined by
      wrapping addition, exclusive or and wrapping addition, each new entry
      on the left as the program writes it. The largest index read is
      0x312 + 0xFF = 1041. */
  function F(k: seq<u32>, z: u32): u32
    requires |k| >= TableWords
  {
    var x := k[0x12 + Byte32(z, 3)];
    var x := Add32(k[0x112 + Byte32(z, 2)], x);
    var x := Xor32(k[0x212 + Byte32(z, 1)], x);
    Add32(k[0x312 + Byte32(z, 0)], x)
  }

  /** One round with subkey `p`: `z = p ^ x; x = y ^ F(z); y = z`. */
  function Round(k: seq<u32>, p: u32, s: Halves): Halves
    requires |k| >= TableWords
  {
    var z := Xor32(p, s.x);
    Halves(Xor32(s.y, F(k, z)), z)
  }

  /** The state after the first `n` rounds in direction `enc`. */
  function Rounds(k: seq<u32>, enc: bool, n: nat, s: Halves): Halves
    requires n <= 16 && |k| >= TableWords
    decreases n, 1
  {
    if n == 0 then s else LastRound(k, enc, n, s)
  }

  /** The state after the first `n` rounds, `n > 0`: round `n - 1` applied to
      the state after the rounds before it. */
  function LastRound(k: seq<u32>, enc: bool, n: nat, s: Halves): Halves
    requires 1 <= n <= 16 && |k| >= TableWords
    decreases n, 0
  {
    Round(k, k[SubkeyIndex(enc, n - 1)], Rounds(k, enc, n - 1, s))
  }

  /** The halves a block enters the rounds as: `x` is the low half of `v`,
      `y` the high half. */
  function Split(v: u64): Halves {
    Halves(Lo32(v), Hi32(v))
  }

  /** The finalisation: `y ^= P[16]; x ^= P[17]` when encrypting and
      `y ^= P[1]; x ^= P[0]` when decrypting; then `y` becomes the low half of
      the block and `x` the high half. */
  function Finish(k: seq<u32>, enc: bool, s: Halves): u64
    requires |k| >= TableWords
  {
    if enc then Pack64(Xor32(s.y, k[16]), Xor32(s.x, k[17]))
    else Pack64(Xor32(s.y, k[1]), Xor32(s.x, k[0]))
  }

  /** The block transform `blowfish_nds` computes. */
  function Cipher(k: seq<u32>, v: u64, enc: bool): u64
    requires |k| >= TableWords
  {
    Finish(k, enc, Rounds(k, enc, 16, Split(v)))
  }

  // ---------------------------------------------------------------------
  // The loop of the program

  /** `blowfish_nds(v, kbuf, enc)`: `*v` is the in/out block, passed in as
      `v` and returned as `r`. The table is only read (there is no
      `modifies` clause), and only at indices below 1042. */
  method BlowfishNds(v: u64, kbuf: array<u32>, enc: bool) returns (r: u64)
    requires kbuf.Length >= TableWords
    ensures r == Cipher(kbuf[..], v, enc)
  {
    ghost var k := kbuf[..];
    var x: u32 := Lo32(v);
    var y: u32 := Hi32(v);
    var z: u32;
    for j := 0 to 16
      invariant Halves(x, y) == Rounds(k, enc, j, Split(v))
    {
      var i := if enc then j else 17 - j;
      assert i == SubkeyIndex(enc, j);
      z := Xor32(kbuf[i], x);
      x := kbuf[0x12 + Byte32(z, 3)];
      x := Add32(kbuf[0x112 + Byte32(z, 2)], x);
      x := Xor32(kbuf[0x212 + Byte32(z, 1)], x);
      x := Add32(kbuf[0x312 + Byte32(z, 0)], x);
      assert x == F(k, z);
      x := Xor32(y, x);
      y := z;
    }
    if enc {
      y := Xor32(y, kbuf[16]);
      x := Xor32(x, kbuf[17]);
    } else {
      y := Xor32(y, kbuf[1]);
      x := Xor32(x, kbuf[0]);
    }
    r := Pack64(y, x);
  }

  // ---------------------------------------------------------------------
  // The transform reads only the first 1042 words of the table

  lemma {:induction false} RoundsReadPrefix(k: seq<u32>, enc: bool, n: nat, s: Halves)
    requires n <= 16 && |k| >= TableWords
    ensures Rounds(k, enc, n, s) == Rounds(k[..TableWords], enc, n, s)
  {
    if n > 0 {
      RoundsReadPrefix(k, enc, n - 1, s);
      var p := k[SubkeyIndex(enc, n - 1)];
      var t := Rounds(k, enc, n - 1, s);
      var z := Xor32(p, t.x);
      assert F(k, z) == F(k[..TableWords], z);
    }
  }

  /** Only words 0..1041 of the table matter: anything after them is never
      read. */
  lemma CipherReadsPrefix(k: seq<u32>, v: u64, enc: bool)
    requires |k| >= TableWords
    ensures Cipher(k, v, enc) == Cipher(k[..TableWords], v, enc)
  {
    RoundsReadPrefix(k, enc, 16, Split(v));
  }

  // ---------------------------------------------------------------------
  // The transform is a bijection on 64-bit blocks

  /** Undoes one round with subkey `p`. */
  function Unround(k: seq<u32>, p: u32, s: Halves): (u: Halves)
    requires |k| >= TableWords
    ensures Round(k, p, u) == s
  {
    Xor32Cancel(s.y, p);
    Xor32Cancel(s.x, F(k, s.y));
    Halves(Xor32(p, s.y), Xor32(s.x, F(k, s.y)))
  }

  lemma UnroundRound(k: seq<u32>, p: u32, s: Halves)
    requires |k| >= TableWords
    ensures Unround(k, p, Round(k, p, s)) == s
  {
    var z := Xor32(p, s.x);
    Xor32Cancel(s.x, p);
    Xor32Cancel(s.y, F(k, z));
  }

  /** Undoes the first `n` rounds, the last one first. */
  function Unrounds(k: seq<u32>, enc: bool, n: nat, s: Halves): Halves
    requires n <= 16 && |k| >= TableWords
  {
    if n == 0 then s else Unrounds(k, enc, n - 1, Unround(k, k[SubkeyIndex(enc, n - 1)], s))
  }

  lemma {:induction false} UnroundsRounds(k: seq<u32>, enc: bool, n: nat, s: Halves)
    requires n <= 16 && |k| >= TableWords
    ensures Unrounds(k, enc, n, Rounds(k, enc, n, s)) == s
  {
    if n > 0 {
      UnroundRound(k, k[SubkeyIndex(enc, n - 1)], Rounds(k, enc, n - 1, s));
      UnroundsRounds(k, enc, n - 1, s);
    }
  }

  lemma {:induction false} RoundsUnrounds(k: seq<u32>, enc: bool, n: nat, s: Halves)
    requires n <= 16 && |k| >= TableWords
    ensures Rounds(k, enc, n, Unrounds(k, enc, n, s)) == s
  {
    if n > 0 {
      var p := k[SubkeyIndex(enc, n - 1)];
      RoundsUnrounds(k, enc, n - 1, Unround(k, p, s));
    }
  }

  /** The halves the finalisation of direction `enc` turned into `c`. */
  function Unfinish(k: seq<u32>, enc: bool, c: u64): (s: Halves)
    requires |k| >= TableWords
    ensures Finish(k, enc, s) == c
  {
    var i, j := if enc then 17 else 0, if enc then 16 else 1;
    Xor32Cancel(Hi32(c), k[i]);
    Xor32Cancel(Lo32(c), k[j]);
    UnpackPack(c);
    Halves(Xor32(Hi32(c), k[i]), Xor32(Lo32(c), k[j]))
  }

  lemma UnfinishFinish(k: seq<u32>, enc: bool, s: Halves)
    requires |k| >= TableWords
    ensures Unfinish(k, enc, Finish(k, enc, s)) == s
  {
    var i, j := if enc then 17 else 0, if enc then 16 else 1;
    Xor32Cancel(s.x, k[i]);
    Xor32Cancel(s.y, k[j]);
  }

  /** The inverse of `Cipher(k, _, enc)`: undo the finalisation, then the
      rounds. It is not the program's other direction (see
      `DecryptAfterEncryptWithZeroSboxes`). */
  function Uncipher(k: seq<u32>, v: u64, enc: bool): u64
    requires |k| >= TableWords
  {
    var u := Unrounds(k, enc, 16, Unfinish(k, enc, v));
    Pack64(u.x, u.y)
  }

  lemma UncipherCipher(k: seq<u32>, v: u64, enc: bool)
    requires |k| >= TableWords
    ensures Uncipher(k, Cipher(k, v, enc), enc) == v
  {
    var s := Rounds(k, enc, 16, Split(v));
    UnfinishFinish(k, enc, s);
    UnroundsRounds(k, enc, 16, Split(v));
    UnpackPack(v);
  }

  lemma CipherUncipher(k: seq<u32>, v: u64, enc: bool)
    requires |k| >= TableWords
    ensures Cipher(k, Uncipher(k, v, enc), enc) == v
  {
    var s := Unfinish(k, enc, v);
    var u := Unrounds(k, enc, 16, s);
    RoundsUnrounds(k, enc, 16, s);
    assert Split(Pack64(u.x, u.y)) == u;
  }

  /** For every table and direction, distinct blocks have distinct images. */
  lemma CipherInjective(k: seq<u32>, v: u64, w: u64, enc: bool)
    requires |k| >= TableWords
    requires Cipher(k, v, enc) == Cipher(k, w, enc)
    ensures v == w
  {
    UncipherCipher(k, v, enc);
    UncipherCipher(k, w, enc);
  }

  // ---------------------------------------------------------------------
  // The decrypt direction does not invert the encrypt direction

  /** All four S-boxes hold zero. */
  ghost predicate ZeroSboxes(k: seq<u32>)
    requires |k| >= TableWords
  {
    forall i :: 0x12 <= i < TableWords ==> k[i] == 0
  }

  lemma FZero(k: seq<u32>, z: u32)
    requires |k| >= TableWords && ZeroSboxes(k)
    ensures F(k, z) == 0
  {
    Xor32Zero(0);
  }

  /** XOR of the subkeys of the even-numbered rounds among the first `2m`
      (rounds 0, 2, ..., 2m - 2). */
  function Evens(k: seq<u32>, enc: bool, m: nat): u32
    requires m <= 8 && |k| >= TableWords
  {
    if m == 0 then 0 else Xor32(Evens(k, enc, m - 1), k[SubkeyIndex(enc, 2 * m - 2)])
  }

  /** XOR of the subkeys of the odd-numbered rounds among the first `2m`
      (rounds 1, 3, ..., 2m - 1). */
  function Odds(k: seq<u32>, enc: bool, m: nat): u32
    requires m <= 8 && |k| >= TableWords
  {
    if m == 0 then 0 else Xor32(Odds(k, enc, m - 1), k[SubkeyIndex(enc, 2 * m - 1)])
  }

  /** `(a ^ b) ^ c == a ^ (b ^ c)` read the other way round, with `c` an
      accumulated subkey: `p ^ (a ^ e) == a ^ (e ^ p)`. */
  lemma Xor32Absorb(p: u32, a: u32, e: u32)
    ensures Xor32(p, Xor32(a, e)) == Xor32(a, Xor32(e, p))
  {
    Xor32Comm(p, Xor32(a, e));
    Xor32Assoc(a, e, p);
  }

  /** With zero S-boxes a round only swaps the halves and XORs its subkey
      into the half that moves up. */
  lemma OneRoundWithZeroSboxes(k: seq<u32>, p: u32, t: Halves)
    requires |k| >= TableWords && ZeroSboxes(k)
    ensures Round(k, p, t) == Halves(t.y, Xor32(p, t.x))
  {
    FZero(k, Xor32(p, t.x));
    Xor32Zero(t.y);
  }

  /** With zero S-boxes, rounds `2m - 2` and `2m - 1` XOR their subkeys into
      the low and the high half. */
  lemma PairWithZeroSboxes(k: seq<u32>, enc: bool, m: nat, s: Halves)
    requires 1 <= m <= 8 && |k| >= TableWords && ZeroSboxes(k)
    ensures var t := Rounds(k, enc, 2 * m - 2, s);
      Rounds(k, enc, 2 * m, s) ==
        Halves(Xor32(k[SubkeyIndex(enc, 2 * m - 2)], t.x), Xor32(k[SubkeyIndex(enc, 2 * m - 1)], t.y))
  {
    var p0, p1 := k[SubkeyIndex(enc, 2 * m - 2)], k[SubkeyIndex(enc, 2 * m - 1)];
    var t := Rounds(k, enc, 2 * m - 2, s);
    assert Rounds(k, enc, 2 * m - 1, s) == Round(k, p0, t);
    OneRoundWithZeroSboxes(k, p0, t);
    OneRoundWithZeroSboxes(k, p1, Round(k, p0, t));
  }

  /** With zero S-boxes the rounds only XOR subkeys into the halves: after
      `2m` rounds the low half has absorbed the subkeys of the even-numbered
      rounds and the high half those of the odd-numbered ones. */
  lemma {:induction false} RoundsWithZeroSboxes(k: seq<u32>, enc: bool, m: nat, s: Halves)
    requires m <= 8 && |k| >= TableWords && ZeroSboxes(k)
    ensures Rounds(k, enc, 2 * m, s) ==
      Halves(Xor32(s.x, Evens(k, enc, m)), Xor32(s.y, Odds(k, enc, m)))
  {
    if m == 0 {
      Xor32Zero(s.x);
      Xor32Zero(s.y);
    } else {
      RoundsWithZeroSboxes(k, enc, m - 1, s);
      PairWithZeroSboxes(k, enc, m, s);
      Xor32Absorb(k[SubkeyIndex(enc, 2 * m - 2)], s.x, Evens(k, enc, m - 1));
      Xor32Absorb(k[SubkeyIndex(enc, 2 * m - 1)], s.y, Odds(k, enc, m - 1));
    }
  }

  /** XOR of the table words 2, 4, ..., 2m (`Even`) or 1, 3, ..., 2m - 1
      (`Odd`): the subkeys grouped by parity of index. */
  function EvenWords(k: seq<u32>, m: nat): u32
    requires m <= 8 && |k| >= TableWords
  {
    if m == 0 then 0 else Xor32(EvenWords(k, m - 1), k[2 * m])
  }

  function OddWords(k: seq<u32>, m: nat): u32
    requires m <= 9 && |k| >= TableWords
  {
    if m == 0 then 0 else Xor32(OddWords(k, m - 1), k[2 * m - 1])
  }

  /** Encryption's even rounds use words 0, 2, ..., 2m - 2. */
  lemma {:induction false} EncEvens(k: seq<u32>, m: nat)
    requires 1 <= m <= 8 && |k| >= TableWords
    ensures Evens(k, true, m) == Xor32(k[0], EvenWords(k, m - 1))
  {
    if m == 1 {
      Xor32Zero(k[0]);
    } else {
      EncEvens(k, m - 1);
      Xor32Assoc(k[0], EvenWords(k, m - 2), k[2 * m - 2]);
    }
  }

  /** Encryption's odd rounds use words 1, 3, ..., 2m - 1. */
  lemma {:induction false} EncOdds(k: seq<u32>, m: nat)
    requires m <= 8 && |k| >= TableWords
    ensures Odds(k, true, m) == OddWords(k, m)
  {
    if m > 0 {
      EncOdds(k, m - 1);
    }
  }

  /** `(g ^ h) ^ w == g ^ h'` when `h == h' ^ w`. */
  lemma Xor32Peel(g: u32, h: u32, h': u32, w: u32)
    requires h == Xor32(h', w)
    ensures Xor32(Xor32(g, h), w) == Xor32(g, h')
  {
    Xor32Assoc(g, h, w);
    Xor32Cancel(h', w);
  }

  /** Decryption's odd rounds use words 16, 14, ..., 18 - 2m. */
  lemma {:induction false} DecOdds(k: seq<u32>, m: nat)
    requires m <= 8 && |k| >= TableWords
    ensures Odds(k, false, m) == Xor32(EvenWords(k, 8), EvenWords(k, 8 - m))
  {
    if m == 0 {
      Xor32Self(EvenWords(k, 8));
    } else {
      DecOdds(k, m - 1);
      Xor32Peel(EvenWords(k, 8), EvenWords(k, 9 - m), EvenWords(k, 8 - m), k[18 - 2 * m]);
    }
  }

  /** Decryption's even rounds use words 17, 15, ..., 19 - 2m. */
  lemma {:induction false} DecEvens(k: seq<u32>, m: nat)
    requires m <= 8 && |k| >= TableWords
    ensures Evens(k, false, m) == Xor32(OddWords(k, 9), OddWords(k, 9 - m))
  {
    if m == 0 {
      Xor32Self(OddWords(k, 9));
    } else {
      DecEvens(k, m - 1);
      Xor32Peel(OddWords(k, 9), OddWords(k, 10 - m), OddWords(k, 9 - m), k[19 - 2 * m]);
    }
  }

  /** `(((a ^ e) ^ p) ^ o) ^ q == a ^ (((e ^ o) ^ p) ^ q)`: moving the
      accumulated subkeys next to each other. */
  lemma Xor32Regroup(a: u32, e: u32, p: u32, o: u32, q: u32)
    ensures Xor32(Xor32(Xor32(Xor32(a, e), p), o), q)
         == Xor32(a, Xor32(Xor32(Xor32(e, o), p), q))
  {
    Xor32Assoc(a, e, p);
    Xor32Comm(e, p);
    Xor32Assoc(p, e, o);
    Xor32Assoc(a, Xor32(p, e), o);
    Xor32Assoc(a, Xor32(p, Xor32(e, o)), q);
    Xor32Comm(p, Xor32(e, o));
  }

  /** The XOR of two accumulated subkey sums that share all but one word on
      each side: `(w ^ g) ^ (g ^ v) == w ^ v`. */
  lemma Xor32Meet(w: u32, g: u32, v: u32)
    ensures Xor32(Xor32(w, g), Xor32(g, v)) == Xor32(w, v)
  {
    Xor32Assoc(w, g, Xor32(g, v));
    Xor32Cancel(v, g);
  }

  /** The word by which decrypting an encrypted block differs from it when
      the S-boxes are zero: `P[0] ^ P[1] ^ P[16] ^ P[17]`. */
  function WhiteningResidue(k: seq<u32>): u32
    requires |k| >= TableWords
  {
    Xor32(Xor32(Xor32(k[0], k[16]), k[17]), k[1])
  }

  /** `(k0 ^ k16) ^ k17 ^ k1` and `(k17 ^ k1) ^ k16 ^ k0` are the same word. */
  lemma ResidueSymmetric(k: seq<u32>)
    requires |k| >= TableWords
    ensures Xor32(Xor32(Xor32(k[17], k[1]), k[16]), k[0]) == WhiteningResidue(k)
  {
    var a, b, c, d := k[0], k[16], k[17], k[1];
    Xor32Assoc(a, b, c);
    Xor32Comm(a, Xor32(b, c));
    Xor32Assoc(Xor32(b, c), a, d);
    Xor32Comm(a, d);
    Xor32Assoc(Xor32(b, c), d, a);
    Xor32Assoc(b, c, d);
    Xor32Comm(b, Xor32(c, d));
  }

  /** Encryption's even-round subkeys and decryption's odd-round subkeys
      together cancel to `P[0] ^ P[16]`. */
  lemma EncEvensDecOdds(k: seq<u32>)
    requires |k| >= TableWords
    ensures Xor32(Evens(k, true, 8), Odds(k, false, 8)) == Xor32(k[0], k[16])
  {
    EncEvens(k, 8);
    DecOdds(k, 8);
    Xor32Zero(EvenWords(k, 8));
    Xor32Meet(k[0], EvenWords(k, 7), k[16]);
  }

  /** Encryption's odd-round subkeys and decryption's even-round subkeys
      together cancel to `P[17] ^ P[1]`. */
  lemma EncOddsDecEvens(k: seq<u32>)
    requires |k| >= TableWords
    ensures Xor32(Odds(k, true, 8), Evens(k, false, 8)) == Xor32(k[17], k[1])
  {
    EncOdds(k, 8);
    DecEvens(k, 8);
    var h8 := OddWords(k, 8);
    Xor32Zero(k[1]);
    assert OddWords(k, 1) == k[1];
    Xor32Assoc(h8, Xor32(h8, k[17]), k[1]);
    Xor32Cancel(k[17], h8);
  }

  /** With zero S-boxes, decrypting an encrypted block gives the block back
      with `K = P[0] ^ P[1] ^ P[16] ^ P[17]` XORed into both halves: the
      decrypt direction takes its round variable from the low half, where
      encryption left `y ^ P[16]`. */
  lemma DecryptAfterEncryptWithZeroSboxes(k: seq<u32>, v: u64)
    requires |k| >= TableWords && ZeroSboxes(k)
    ensures var kk := WhiteningResidue(k);
            Cipher(k, Cipher(k, v, true), false) == Pack64(Xor32(Lo32(v), kk), Xor32(Hi32(v), kk))
  {
    var lo, hi := Lo32(v), Hi32(v);
    var ee, oe := Evens(k, true, 8), Odds(k, true, 8);
    var ed, od := Evens(k, false, 8), Odds(k, false, 8);
    RoundsWithZeroSboxes(k, true, 8, Split(v));
    var c := Cipher(k, v, true);
    var lo', hi' := Xor32(Xor32(hi, oe), k[16]), Xor32(Xor32(lo, ee), k[17]);
    assert Split(c) == Halves(lo', hi');
    RoundsWithZeroSboxes(k, false, 8, Split(c));
    assert Cipher(k, c, false) == Pack64(Xor32(Xor32(hi', od), k[1]), Xor32(Xor32(lo', ed), k[0]));
    EncEvensDecOdds(k);
    Xor32Regroup(lo, ee, k[17], od, k[1]);
    EncOddsDecEvens(k);
    Xor32Regroup(hi, oe, k[16], ed, k[0]);
    ResidueSymmetric(k);
  }

  /** A table and a block for which decryption does not undo encryption:
      every word zero except `P[16] = 1`, and the block 0. */
  lemma DecryptDoesNotInvertEncrypt()
    ensures exists k: seq<u32>, v: u64 :: |k| >= TableWords && Cipher(k, Cipher(k, v, true), false) != v
  {
    var k: seq<u32> := seq(TableWords, i => if i == 16 then 1 else 0);
    DecryptAfterEncryptWithZeroSboxes(k, 0);
    Xor32Zero(1);
    Xor32Zero(0);
    assert WhiteningResidue(k) == 1;
    assert Cipher(k, Cipher(k, 0, true), false) == Pack64(1, 1);
  }
}
