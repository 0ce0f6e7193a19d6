/** `apply_keycode`: encrypts the three-word title keycode in place and then
    rewrites the key table in place, first by a byte-swap XOR pass over its
    first 12 words and then by 66 chained encryptions of one scratch block
    whose results overwrite words 0..131.

    The functions below state what the keycode and the table become;
    `ApplyKeycode` is the procedure of the program, proved to produce them. */
module Keycode {
  import opened Words
  import opened Blowfish

  /** Number of words the byte-swap XOR pass rewrites. */
  const XorPassWords := 12

  /** Number of scratch encryptions: `(0..131).step_by(2)` yields
      0, 2, ..., 130. */
  const ChainSteps := 66

  // ---------------------------------------------------------------------
  // The keycode

  /** The keycode after the two overlapping encryptions, both under the
      table `k` as it was on entry: first the block with low half `tk[1]`
      and high half `tk[2]` is encrypted and written back to `tk[1]` and
      `tk[2]`; then the block with low half `tk[0]` and high half the
      updated `tk[1]` is encrypted and written back to `tk[0]` and `tk[1]`. */
  function EncryptKeycode(tk: seq<u32>, k: seq<u32>): (r: seq<u32>)
    requires |tk| == 3 && |k| >= TableWords
    ensures |r| == 3
  {
    var v1 := Cipher(k, Pack64(tk[1], tk[2]), true);
    var v0 := Cipher(k, Pack64(tk[0], Lo32(v1)), true);
    [Lo32(v0), Hi32(v0), Hi32(v1)]
  }

  /** The keycode before the two encryptions, given the keycode after them. */
  function DecryptKeycode(r: seq<u32>, k: seq<u32>): (tk: seq<u32>)
    requires |r| == 3 && |k| >= TableWords
    ensures |tk| == 3
  {
    var v0 := Uncipher(k, Pack64(r[0], r[1]), true);
    var v1 := Uncipher(k, Pack64(Hi32(v0), r[2]), true);
    [Lo32(v0), Lo32(v1), Hi32(v1)]
  }

  /** No information in the keycode is lost: the encryption is undone by
      `DecryptKeycode`. */
  lemma DecryptEncryptKeycode(tk: seq<u32>, k: seq<u32>)
    requires |tk| == 3 && |k| >= TableWords
    ensures DecryptKeycode(EncryptKeycode(tk, k), k) == tk
  {
    var v1 := Cipher(k, Pack64(tk[1], tk[2]), true);
    var v0 := Cipher(k, Pack64(tk[0], Lo32(v1)), true);
    UnpackPack(v0);
    UncipherCipher(k, Pack64(tk[0], Lo32(v1)), true);
    UnpackPack(v1);
    UncipherCipher(k, Pack64(tk[1], tk[2]), true);
  }

  /** Under a fixed table, distinct keycodes encrypt to distinct keycodes. */
  lemma EncryptKeycodeInjective(tk: seq<u32>, tk': seq<u32>, k: seq<u32>)
    requires |tk| == 3 && |tk'| == 3 && |k| >= TableWords
    requires EncryptKeycode(tk, k) == EncryptKeycode(tk', k)
    ensures tk == tk'
  {
    DecryptEncryptKeycode(tk, k);
    DecryptEncryptKeycode(tk', k);
  }

  // ---------------------------------------------------------------------
  // The byte-swap XOR pass

  /** One step of the pass: `w ^ v.swap_bytes()`. */
  function SwapXor(w: u32, v: u32): u32
  {
    Xor32(w, Bswap32(v))
  }

  /** The table after the first `n` steps of a pass in which step `i`
      replaces word `i` by `mix` of itself and of word `i % 2`, on the table
      as the earlier steps left it. The program's pass is `Sweep(SwapXor, k,
      12)`; where each step reads and writes holds whatever `mix` is. */
  function Sweep(mix: (u32, u32) -> u32, k: seq<u32>, n: nat): (r: seq<u32>)
    requires n <= XorPassWords <= |k|
    ensures |r| == |k|
  {
    if n == 0 then k
    else
      var p := Sweep(mix, k, n - 1);
      p[n - 1 := mix(p[n - 1], p[(n - 1) % 2])]
  }

  /** The words the first `n` steps produce: steps 0 and 1 mix words 0 and 1
      with themselves; every later step `i` mixes word `i` with the already
      rewritten word `i % 2`; words from `n` on keep their values. */
  lemma {:induction false} SweepAt(mix: (u32, u32) -> u32, k: seq<u32>, n: nat, i: nat)
    requires n <= XorPassWords <= |k| && i < |k|
    ensures Sweep(mix, k, n)[i] ==
      if i >= n then k[i]
      else if i < 2 then mix(k[i], k[i])
      else mix(k[i], mix(k[i % 2], k[i % 2]))
  {
    if n > 0 {
      SweepAt(mix, k, n - 1, i);
      SweepAt(mix, k, n - 1, (n - 1) % 2);
    }
  }

  /** The table after the whole XOR pass. */
  function XorPass(k: seq<u32>): (r: seq<u32>)
    requires XorPassWords <= |k|
    ensures |r| == |k|
  {
    Sweep(SwapXor, k, XorPassWords)
  }

  /** Word `i` after step 0 or 1 of the pass, which reads the word it
      rewrites. */
  function SelfSwapped(k: seq<u32>, i: nat): u32
    requires i < 2 <= |k|
  {
    Xor32(k[i], Bswap32(k[i]))
  }

  /** Every word of the table after the pass as a function of the table
      before it: words 0 and 1 are XORed with their own byte swap, words 2..11
      with the byte swap of the new word 0 or 1, and the rest are kept. */
  lemma XorPassAt(k: seq<u32>, i: nat)
    requires XorPassWords <= |k| && i < |k|
    ensures XorPass(k)[i] ==
      if i >= XorPassWords then k[i]
      else if i < 2 then SelfSwapped(k, i)
      else Xor32(k[i], Bswap32(SelfSwapped(k, i % 2)))
  {
    SweepAt(SwapXor, k, XorPassWords, i);
  }

  // ---------------------------------------------------------------------
  // The chained scratch encryptions

  /** What the scratch loop has produced after `n` iterations: the table and
      the scratch block. */
  datatype ChainState = ChainState(table: seq<u32>, scratch: u64)

  /** The table with the high half of `s` stored at word `2j` and its low
      half at word `2j + 1`, the two stores at the end of every iteration. */
  function Store(t: seq<u32>, j: nat, s: u64): (r: seq<u32>)
    requires 2 * j + 1 < |t|
    ensures |r| == |t|
  {
    t[2 * j := Hi32(s)][2 * j + 1 := Lo32(s)]
  }

  lemma StoreAt(t: seq<u32>, j: nat, s: u64)
    requires 2 * j + 1 < |t|
    ensures Store(t, j, s)[2 * j] == Hi32(s) && Store(t, j, s)[2 * j + 1] == Lo32(s)
  {
  }

  /** `Store` leaves every other word as it was. */
  lemma StoreFrame(t: seq<u32>, j: nat, s: u64, i: nat)
    requires 2 * j + 1 < |t| && i < |t| && i != 2 * j && i != 2 * j + 1
    ensures Store(t, j, s)[i] == t[i]
  {
  }

  /** The transform one iteration applies to the scratch block: encryption
      under the table as it stands. Every table the loop sees is a full key
      table; a shorter one leaves the block as it is. */
  function EncryptStep(t: seq<u32>, s: u64): (r: u64)
    ensures |t| >= TableWords ==> r == Cipher(t, s, true)
  {
    if |t| >= TableWords then Cipher(t, s, true) else s
  }

  /** The state after the first `n` iterations of a loop that starts from
      `k` and a scratch block of 0, where iteration `j` replaces the scratch
      block by `step` of the table as it stands and the block, then stores
      its high half at `2j` and its low half at `2j + 1`. The loop of the
      program is `Chain(EncryptStep, k, n)`; the facts about which words the
      loop writes hold whatever the step is. */
  function Chain(step: (seq<u32>, u64) -> u64, k: seq<u32>, n: nat): (c: ChainState)
    requires n <= ChainSteps && |k| >= TableWords
    ensures |c.table| == |k|
  {
    if n == 0 then ChainState(k, 0)
    else
      var prev := Chain(step, k, n - 1);
      var s := step(prev.table, prev.scratch);
      ChainState(Store(prev.table, n - 1, s), s)
  }

  /** One more iteration: the step applied to the state so far, then the
      two stores. */
  lemma ChainNext(step: (seq<u32>, u64) -> u64, k: seq<u32>, n: nat)
    requires n < ChainSteps && |k| >= TableWords
    ensures var c := Chain(step, k, n); var s := step(c.table, c.scratch);
      Chain(step, k, n + 1) == ChainState(Store(c.table, n, s), s)
  {
  }

  /** The scratch loop writes nothing at or after word `2n`. */
  lemma {:induction false} ChainFrame(step: (seq<u32>, u64) -> u64, k: seq<u32>, n: nat, i: nat)
    requires n <= ChainSteps && |k| >= TableWords && 2 * n <= i < |k|
    ensures Chain(step, k, n).table[i] == k[i]
  {
    if n > 0 {
      var prev := Chain(step, k, n - 1);
      ChainFrame(step, k, n - 1, i);
      StoreFrame(prev.table, n - 1, step(prev.table, prev.scratch), i);
    }
  }

  /** After `n` iterations, words `2j` and `2j + 1` for `j < n` hold the high
      and low halves of the scratch block of iteration `j`: later iterations
      never overwrite them. */
  lemma {:induction false} ChainStores(step: (seq<u32>, u64) -> u64, k: seq<u32>, n: nat, j: nat)
    requires n <= ChainSteps && |k| >= TableWords && j < n
    ensures Chain(step, k, n).table[2 * j] == Hi32(Chain(step, k, j + 1).scratch)
    ensures Chain(step, k, n).table[2 * j + 1] == Lo32(Chain(step, k, j + 1).scratch)
  {
    var prev := Chain(step, k, n - 1);
    var s := step(prev.table, prev.scratch);
    if n == j + 1 {
      StoreAt(prev.table, j, s);
    } else {
      ChainStores(step, k, n - 1, j);
      StoreFrame(prev.table, n - 1, s, 2 * j);
      StoreFrame(prev.table, n - 1, s, 2 * j + 1);
    }
  }

  /** Each scratch block of the program's loop is the encryption of the
      previous one under the table the earlier iterations left, and the first
      block encrypted is 0. */
  lemma ChainScratch(k: seq<u32>, n: nat)
    requires n < ChainSteps && |k| >= TableWords
    ensures Chain(EncryptStep, k, n + 1).scratch ==
      Cipher(Chain(EncryptStep, k, n).table, Chain(EncryptStep, k, n).scratch, true)
    ensures Chain(EncryptStep, k, 0).scratch == 0
  {
  }

  /** The table `apply_keycode` leaves, given the table on entry. The keycode
      is not an argument: the new table does not depend on it. */
  function DeriveTable(k: seq<u32>): (r: seq<u32>)
    requires |k| >= TableWords
    ensures |r| == |k|
  {
    Chain(EncryptStep, XorPass(k), ChainSteps).table
  }

  /** Words 132 and later keep their value; words 0..131 are all rewritten
      by the scratch loop, so the XOR pass only influences them through the
      encryptions. */
  lemma DeriveTableFrame(k: seq<u32>, i: nat)
    requires |k| >= TableWords && 2 * ChainSteps <= i < |k|
    ensures DeriveTable(k)[i] == k[i]
  {
    var p := XorPass(k);
    ChainFrame(EncryptStep, p, ChainSteps, i);
    XorPassAt(k, i);
  }

  // ---------------------------------------------------------------------
  // The procedure of the program

  /** The first part of `apply_keycode`: the two encryptions of the keycode,
      through 64-bit views of words (1, 2) and then (0, 1), under the table
      as it is. The table is only read. */
  method EncryptKeycodeInPlace(tk: array<u32>, kbuf: array<u32>)
    requires tk.Length == 3 && kbuf.Length >= TableWords && tk != kbuf
    modifies tk
    ensures tk[..] == EncryptKeycode(old(tk[..]), kbuf[..])
  {
    var v1 := BlowfishNds(Pack64(tk[1], tk[2]), kbuf, true);
    tk[1], tk[2] := Lo32(v1), Hi32(v1);
    var v0 := BlowfishNds(Pack64(tk[0], tk[1]), kbuf, true);
    tk[0], tk[1] := Lo32(v0), Hi32(v0);
  }

  /** The second part: the byte-swap XOR pass over words 0..11. */
  method XorPassInPlace(kbuf: array<u32>)
    requires kbuf.Length >= TableWords
    modifies kbuf
    ensures kbuf[..] == XorPass(old(kbuf[..]))
  {
    ghost var k0 := kbuf[..];
    for i := 0 to XorPassWords
      invariant kbuf[..] == Sweep(SwapXor, k0, i)
    {
      kbuf[i] := SwapXor(kbuf[i], kbuf[i % 2]);
    }
  }

  /** `step` is the loop's transform of the scratch block. The loop below is
      proved for any such `step`, its trigger keeping the encryption itself
      out of the loop's reasoning. */
  ghost predicate EncryptsUnder(step: (seq<u32>, u64) -> u64)
  {
    forall t: seq<u32>, s: u64 {:trigger EncryptStep(t, s)} :: step(t, s) == EncryptStep(t, s)
  }

  /** One iteration of the scratch loop, for `i = 2j`: encrypt the scratch
      block under the table as it stands, then store its high half at word
      `i` and its low half at word `i + 1`. */
  method EncryptAndStore(kbuf: array<u32>, i: nat, ghost j: nat, ghost step: (seq<u32>, u64) -> u64, s0: u64) returns (s: u64)
    requires kbuf.Length >= TableWords && j < ChainSteps && i == 2 * j && EncryptsUnder(step)
    modifies kbuf
    ensures s == step(old(kbuf[..]), s0)
    ensures kbuf[..] == Store(old(kbuf[..]), j, s)
  {
    ghost var t := kbuf[..];
    s := BlowfishNds(s0, kbuf, true);
    assert s == EncryptStep(t, s0);
    kbuf[i] := Hi32(s);
    kbuf[i + 1] := Lo32(s);
  }

  /** The third part: 66 chained encryptions of the scratch block, which
      starts at 0 and is never reset, for `i` = 0, 2, ..., 130. */
  method ChainInPlace(kbuf: array<u32>, ghost step: (seq<u32>, u64) -> u64)
    requires kbuf.Length >= TableWords && EncryptsUnder(step)
    modifies kbuf
    ensures kbuf[..] == Chain(step, old(kbuf[..]), ChainSteps).table
  {
    ghost var k1 := kbuf[..];
    var scratch: u64 := 0;
    // `i` runs over 0, 2, ..., 130; `j` counts the iterations done.
    var i := 0;
    ghost var j := 0;
    while i < 131
      invariant i == 2 * j && j <= ChainSteps
      invariant ChainState(kbuf[..], scratch) == Chain(step, k1, j)
    {
      ChainNext(step, k1, j);
      scratch := EncryptAndStore(kbuf, i, j, step, scratch);
      i, j := i + 2, j + 1;
    }
    assert j == ChainSteps;
  }

  /** `apply_keycode(tk, kbuf)`: the three parts in order. The two arrays
      are distinct, as Rust's borrows of `tk` and `kbuf` guarantee; `kbuf`
      holds at least a full key table, as the indexing of `blowfish_nds`
      demands. */
  method ApplyKeycode(tk: array<u32>, kbuf: array<u32>)
    requires tk.Length == 3 && kbuf.Length >= TableWords && tk != kbuf
    modifies tk, kbuf
    ensures tk[..] == EncryptKeycode(old(tk[..]), old(kbuf[..]))
    ensures kbuf[..] == DeriveTable(old(kbuf[..]))
  {
    EncryptKeycodeInPlace(tk, kbuf);
    XorPassInPlace(kbuf);
    ChainInPlace(kbuf, EncryptStep);
  }
}
