/** SHA-256 as FIPS 180-4 defines it. */
module Fips180 {
  import opened Words
  import opened Streaming

  // section 4.1.2
  function Ch(x: Word, y: Word, z: Word): Word { Xor(And(x, y), And(Not(x), z)) }
  function Maj(x: Word, y: Word, z: Word): Word { Xor(Xor(And(x, y), And(x, z)), And(y, z)) }
  function BigSigma0(x: Word): Word { Xor(Xor(Rotr(x, 2), Rotr(x, 13)), Rotr(x, 22)) }
  function BigSigma1(x: Word): Word { Xor(Xor(Rotr(x, 6), Rotr(x, 11)), Rotr(x, 25)) }
  function Sigma0(x: Word): Word { Xor(Xor(Rotr(x, 7), Rotr(x, 18)), Shr(x, 3)) }
  function Sigma1(x: Word): Word { Xor(Xor(Rotr(x, 17), Rotr(x, 19)), Shr(x, 10)) }

  // section 4.2.2
  const K0: seq<nat> := [0x428a2f98, 0x71374491, 0xb5c0fbcf, 0xe9b5dba5, 0x3956c25b, 0x59f111f1, 0x923f82a4, 0xab1c5ed5]
  const K1: seq<nat> := [0xd807aa98, 0x12835b01, 0x243185be, 0x550c7dc3, 0x72be5d74, 0x80deb1fe, 0x9bdc06a7, 0xc19bf174]
  const K2: seq<nat> := [0xe49b69c1, 0xefbe4786, 0x0fc19dc6, 0x240ca1cc, 0x2de92c6f, 0x4a7484aa, 0x5cb0a9dc, 0x76f988da]
  const K3: seq<nat> := [0x983e5152, 0xa831c66d, 0xb00327c8, 0xbf597fc7, 0xc6e00bf3, 0xd5a79147, 0x06ca6351, 0x14292967]
  const K4: seq<nat> := [0x27b70a85, 0x2e1b2138, 0x4d2c6dfc, 0x53380d13, 0x650a7354, 0x766a0abb, 0x81c2c92e, 0x92722c85]
  const K5: seq<nat> := [0xa2bfe8a1, 0xa81a664b, 0xc24b8b70, 0xc76c51a3, 0xd192e819, 0xd6990624, 0xf40e3585, 0x106aa070]
  const K6: seq<nat> := [0x19a4c116, 0x1e376c08, 0x2748774c, 0x34b0bcb5, 0x391c0cb3, 0x4ed8aa4a, 0x5b9cca4f, 0x682e6ff3]
  const K7: seq<nat> := [0x748f82ee, 0x78a5636f, 0x84c87814, 0x8cc70208, 0x90befffa, 0xa4506ceb, 0xbef9a3f7, 0xc67178f2]
  const K: seq<nat> := K0 + K1 + K2 + K3 + K4 + K5 + K6 + K7

  const ROUNDS: nat := 64

  function Constant(t: nat): Word
    requires t < 64
  {
    OfNat(K[t])
  }

  /** The working variables, and the words of a hash value. */
  datatype Regs = Regs(a: Word, b: Word, c: Word, d: Word, e: Word, f: Word, g: Word, h: Word)

  // section 5.3.3
  const H: seq<nat> := [
    0x6a09e667, 0xbb67ae85, 0x3c6ef372, 0xa54ff53a, 0x510e527f, 0x9b05688c, 0x1f83d9ab, 0x5be0cd19
  ]

  function IV(): Regs {
    Regs(OfNat(H[0]), OfNat(H[1]), OfNat(H[2]), OfNat(H[3]), OfNat(H[4]), OfNat(H[5]), OfNat(H[6]), OfNat(H[7]))
  }

  const LENGTH_BYTES: nat := 8
  const WORD_BYTES: nat := 4

  /** Section 5.1.1. */
  function Padded(msg: seq<Byte>): (r: seq<Byte>)
    ensures |r| % 64 == 0
  {
    PaddedWith(msg, BytesOf(8 * |msg|, LENGTH_BYTES))
  }

  /** The message schedule, step 1 of section 6.2.2. */
  function W(block: Block, t: nat): Word {
    if t < 16 then OfNat(BigEndian(block[4 * t], block[4 * t + 1], block[4 * t + 2], block[4 * t + 3]))
    else NextWord(W(block, t - 2), W(block, t - 7), W(block, t - 15), W(block, t - 16))
  }

  function NextWord(w2: Word, w7: Word, w15: Word, w16: Word): Word {
    Add(Add(Add(Sigma1(w2), w7), Sigma0(w15)), w16)
  }

  function T1(e: Word, f: Word, g: Word, h: Word, k: Word, w: Word): Word {
    Add(Add(Add(Add(h, BigSigma1(e)), Ch(e, f, g)), k), w)
  }

  function T2(a: Word, b: Word, c: Word): Word {
    Add(BigSigma0(a), Maj(a, b, c))
  }

  /** One iteration of step 3. */
  function Round(r: Regs, k: Word, w: Word): Regs {
    var t1 := T1(r.e, r.f, r.g, r.h, k, w);
    Regs(Add(t1, T2(r.a, r.b, r.c)), r.a, r.b, r.c, Add(r.d, t1), r.e, r.f, r.g)
  }

  function Rounds(r: Regs, block: Block, n: nat): Regs
    requires n <= 64
  {
    if n == 0 then r else Round(Rounds(r, block, n - 1), Constant(n - 1), W(block, n - 1))
  }

  function Plus(r: Regs, h: Regs): Regs {
    Regs(Add(r.a, h.a), Add(r.b, h.b), Add(r.c, h.c), Add(r.d, h.d),
         Add(r.e, h.e), Add(r.f, h.f), Add(r.g, h.g), Add(r.h, h.h))
  }

  /** Steps 2 to 4. */
  function Compress(h: Regs, block: Block): Regs {
    Plus(Rounds(h, block, ROUNDS), h)
  }

  function AsList(h: Regs): seq<Word> {
    [h.a, h.b, h.c, h.d, h.e, h.f, h.g, h.h]
  }

  /** The words of a hash value in bytes, most significant first. */
  function Digest(words: seq<Word>): (r: seq<Byte>)
    ensures |r| == WORD_BYTES * |words|
  {
    if words == [] then [] else BytesOf(Val(words[0]), WORD_BYTES) + Digest(words[1..])
  }

  function Sha256(msg: seq<Byte>): seq<Byte> {
    Digest(AsList(Fold(Compress, IV(), Padded(msg))))
  }
}

/** The SHA-256 code of mkhash. */
module Sha256Code {
  import opened Words
  import opened Streaming
  import F = Fips180
  import opened Sequences

  // ---------- the elementary functions ----------

  function Ch(x: Word, y: Word, z: Word): Word { Xor(And(x, Xor(y, z)), z) }
  function Maj(x: Word, y: Word, z: Word): Word { Or(And(x, Or(y, z)), And(y, z)) }

  function S0(x: Word): Word { Xor(Xor(Rotr(x, 2), Rotr(x, 13)), Rotr(x, 22)) }
  function S1(x: Word): Word { Xor(Xor(Rotr(x, 6), Rotr(x, 11)), Rotr(x, 25)) }
  function SmallS0(x: Word): Word { Xor(Xor(Rotr(x, 7), Rotr(x, 18)), Shr(x, 3)) }
  function SmallS1(x: Word): Word { Xor(Xor(Rotr(x, 17), Rotr(x, 19)), Shr(x, 10)) }

  lemma SigmasAreStandard(x: Word)
    ensures S0(x) == F.BigSigma0(x) && S1(x) == F.BigSigma1(x)
    ensures SmallS0(x) == F.Sigma0(x) && SmallS1(x) == F.Sigma1(x)
  {
  }

  /** The round constants of SHA256_Transform. */
  const K0: seq<nat> := [0x428a2f98, 0x71374491, 0xb5c0fbcf, 0xe9b5dba5, 0x3956c25b, 0x59f111f1, 0x923f82a4, 0xab1c5ed5]
  const K1: seq<nat> := [0xd807aa98, 0x12835b01, 0x243185be, 0x550c7dc3, 0x72be5d74, 0x80deb1fe, 0x9bdc06a7, 0xc19bf174]
  const K2: seq<nat> := [0xe49b69c1, 0xefbe4786, 0x0fc19dc6, 0x240ca1cc, 0x2de92c6f, 0x4a7484aa, 0x5cb0a9dc, 0x76f988da]
  const K3: seq<nat> := [0x983e5152, 0xa831c66d, 0xb00327c8, 0xbf597fc7, 0xc6e00bf3, 0xd5a79147, 0x06ca6351, 0x14292967]
  const K4: seq<nat> := [0x27b70a85, 0x2e1b2138, 0x4d2c6dfc, 0x53380d13, 0x650a7354, 0x766a0abb, 0x81c2c92e, 0x92722c85]
  const K5: seq<nat> := [0xa2bfe8a1, 0xa81a664b, 0xc24b8b70, 0xc76c51a3, 0xd192e819, 0xd6990624, 0xf40e3585, 0x106aa070]
  const K6: seq<nat> := [0x19a4c116, 0x1e376c08, 0x2748774c, 0x34b0bcb5, 0x391c0cb3, 0x4ed8aa4a, 0x5b9cca4f, 0x682e6ff3]
  const K7: seq<nat> := [0x748f82ee, 0x78a5636f, 0x84c87814, 0x8cc70208, 0x90befffa, 0xa4506ceb, 0xbef9a3f7, 0xc67178f2]
  const K: seq<nat> := K0 + K1 + K2 + K3 + K4 + K5 + K6 + K7

  lemma ConstantsAreStandard()
    ensures K == F.K
  {
  }

  /** The words that SHA256_Init stores. */
  function InitialState(): F.Regs {
    F.Regs(OfNat(0x6A09E667), OfNat(0xBB67AE85), OfNat(0x3C6EF372), OfNat(0xA54FF53A),
           OfNat(0x510E527F), OfNat(0x9B05688C), OfNat(0x1F83D9AB), OfNat(0x5BE0CD19))
  }

  lemma InitialStateIsStandard()
    ensures InitialState() == F.IV()
  {
  }

  lemma ChIsStandard(x: Word, y: Word, z: Word)
    ensures Ch(x, y, z) == F.Ch(x, y, z)
  {
  }

  lemma MajIsStandard(x: Word, y: Word, z: Word)
    ensures Maj(x, y, z) == F.Maj(x, y, z)
  {
  }

  /** What the first line of RND adds to h. */
  function Mixed(e: Word, f: Word, g: Word, h: Word, k: Word): Word {
    Add(h, Add(Add(S1(e), Ch(e, f, g)), k))
  }

  /** What the last line of RND adds to h. */
  function Mixed2(a: Word, b: Word, c: Word): Word {
    Add(S0(a), Maj(a, b, c))
  }

  lemma RoundStep(r: F.Regs, k: Word, w: Word)
    ensures var h := Mixed(r.e, r.f, r.g, r.h, Add(w, k));
      F.Round(r, k, w) == F.Regs(Add(h, Mixed2(r.a, r.b, r.c)), r.a, r.b, r.c, Add(r.d, h), r.e, r.f, r.g)
  {
    MixedIsT1(r.e, r.f, r.g, r.h, k, w);
    MajIsStandard(r.a, r.b, r.c);
    SigmasAreStandard(r.a);
  }

  lemma SumOrder(h: Word, s: Word, c: Word, k: Word, w: Word)
    ensures Add(h, Add(Add(s, c), Add(w, k))) == Add(Add(Add(Add(h, s), c), k), w)
  {
    var hs := Add(h, s);
    assert Add(h, Add(Add(s, c), Add(w, k))) == Add(Add(hs, c), Add(w, k)) by {
      AddAssociates(h, Add(s, c), Add(w, k));
      AddAssociates(h, s, c);
    }
    AddCommutes(w, k);
    AddAssociates(Add(hs, c), k, w);
  }

  lemma MixedIsT1(e: Word, f: Word, g: Word, h: Word, k: Word, w: Word)
    ensures Mixed(e, f, g, h, Add(w, k)) == F.T1(e, f, g, h, k, w)
  {
    ChIsStandard(e, f, g);
    SigmasAreStandard(e);
    SumOrder(h, S1(e), Ch(e, f, g), k, w);
  }

  /** be16dec and be32dec. */
  function Be16dec(p: seq<Byte>): Word
    requires |p| >= 2
  {
    Or(Shl(OfNat(p[0]), 8), OfNat(p[1]))
  }

  function Be32dec(p: seq<Byte>): Word
    requires |p| >= 4
  {
    Or(Shl(Be16dec(p), 16), Be16dec(p[2..]))
  }

  lemma Join16(b0: nat, b1: nat)
    requires b1 < 256
    ensures Or(Shl(OfNat(b0), 8), OfNat(b1)) == OfNat(b0 * 256 + b1)
  {
    PowersOfTwo();
    ShiftOr(b0, b1, 8);
  }

  lemma Join32(h0: nat, h1: nat)
    requires h1 < 0x1_0000
    ensures Or(Shl(OfNat(h0), 16), OfNat(h1)) == OfNat(h0 * 0x1_0000 + h1)
  {
    PowersOfTwo();
    ShiftOr(h0, h1, 16);
  }

  lemma Be32decIsBigEndian(p: seq<Byte>)
    requires |p| >= 4
    ensures Be32dec(p) == OfNat(BigEndian(p[0], p[1], p[2], p[3]))
  {
    var (b0: nat, b1: nat, b2: nat, b3: nat) := (p[0], p[1], p[2], p[3]);
    Join16(b0, b1);
    Join16(b2, b3);
    Join32(b0 * 256 + b1, b2 * 256 + b3);
  }

  // ---------- the rounds ----------

  /** The array S with its first name at slot j. */
  function ViewFrom(s: seq<Word>, j: nat): F.Regs
    requires |s| == 8 && j < 8
  {
    F.Regs(s[j], s[(j + 1) % 8], s[(j + 2) % 8], s[(j + 3) % 8],
           s[(j + 4) % 8], s[(j + 5) % 8], s[(j + 6) % 8], s[(j + 7) % 8])
  }

  /** The working variables before round i: the names rotate instead of the contents. */
  function View(s: seq<Word>, i: nat): F.Regs
    requires |s| == 8 && i <= 16
  {
    ViewFrom(s, (64 - i) % 8)
  }

  /** Writing two words and rotating the names. */
  lemma ViewStep(s: seq<Word>, j: nat, d: Word, h: Word)
    requires |s| == 8 && j < 8
    ensures Rotated(s, j, d, h)
  {
    if j < 4 {
      ViewStepLow(s, j, d, h);
    } else {
      ViewStepHigh(s, j, d, h);
    }
  }

  lemma ViewStepLow(s: seq<Word>, j: nat, d: Word, h: Word)
    requires |s| == 8 && j < 4
    ensures Rotated(s, j, d, h)
  {
    if j < 2 {
      assert j == 0 || j == 1;
    } else {
      assert j == 2 || j == 3;
    }
  }

  lemma ViewStepHigh(s: seq<Word>, j: nat, d: Word, h: Word)
    requires |s| == 8 && 4 <= j < 8
    ensures Rotated(s, j, d, h)
  {
    if j < 6 {
      assert j == 4 || j == 5;
    } else {
      assert j == 6 || j == 7;
    }
  }

  ghost predicate Rotated(s: seq<Word>, j: nat, d: Word, h: Word)
    requires |s| == 8 && j < 8
  {
    var (r, t) := (ViewFrom(s, j), s[(j + 3) % 8 := d]);
    ViewFrom(t[(j + 7) % 8 := h], (j + 7) % 8) == F.Regs(h, r.a, r.b, r.c, d, r.e, r.f, r.g)
  }

  /** The three sums of RND, and what they are in the standard. */
  method Sums(r: F.Regs, k: Word, w: Word) returns (t1: Word, d1: Word, h1: Word)
    ensures F.Round(r, k, w) == F.Regs(h1, r.a, r.b, r.c, d1, r.e, r.f, r.g)
  {
    RoundStep(r, k, w);
    t1 := Mixed(r.e, r.f, r.g, r.h, Add(w, k));
    d1 := Add(r.d, t1);
    h1 := Add(t1, Mixed2(r.a, r.b, r.c));
  }

  /** The macro RNDr writes two of the eight words. */
  method Rnd(S: array<Word>, i: nat, k: Word, w: Word)
    requires S.Length == 8 && i < 16
    modifies S
    ensures View(S[..], i + 1) == F.Round(View(old(S[..]), i), k, w)
  {
    var (a, b, c, d) := ((64 - i) % 8, (65 - i) % 8, (66 - i) % 8, (67 - i) % 8);
    var (e, f, g, h) := ((68 - i) % 8, (69 - i) % 8, (70 - i) % 8, (71 - i) % 8);
    Slots(i);
    var t1, d1, h1 := Sums(F.Regs(S[a], S[b], S[c], S[d], S[e], S[f], S[g], S[h]), k, w);
    Write(S, i, t1, d1, h1);
  }

  /** The words that change, in the order of the writes. */
  method Write(S: array<Word>, i: nat, t1: Word, d1: Word, h1: Word)
    requires S.Length == 8 && i < 16
    modifies S
    ensures var r := View(old(S[..]), i); View(S[..], i + 1) == F.Regs(h1, r.a, r.b, r.c, d1, r.e, r.f, r.g)
  {
    var (a, d, h) := ((64 - i) % 8, (67 - i) % 8, (71 - i) % 8);
    Slots(i);
    ghost var s: seq<Word> := S[..];
    S[h] := t1;
    S[d] := d1;
    S[h] := h1;
    Written(s, d, h, d1, t1, h1, S[..]);
    ViewStep(s, a, d1, h1);
  }

  lemma Slots(i: nat)
    requires i < 16
    ensures var j := (64 - i) % 8;
      && (65 - i) % 8 == (j + 1) % 8 && (66 - i) % 8 == (j + 2) % 8 && (67 - i) % 8 == (j + 3) % 8
      && (68 - i) % 8 == (j + 4) % 8 && (69 - i) % 8 == (j + 5) % 8 && (70 - i) % 8 == (j + 6) % 8
      && (71 - i) % 8 == (j + 7) % 8 == (64 - (i + 1)) % 8
  {
    var (q, j) := ((64 - i) / 8, (64 - i) % 8);
    assert 64 - i == 8 * q + j;
  }

  lemma Written(s: seq<Word>, d: nat, h: nat, d1: Word, t1: Word, h1: Word, t: seq<Word>)
    requires |s| == 8 && d < 8 && h < 8 && d != h
    requires var s1: seq<Word> := s[h := t1]; var s2: seq<Word> := s1[d := d1]; t == s2[h := h1]
    ensures var s1: seq<Word> := s[d := d1]; t == s1[h := h1]
  {
  }

  // ---------- what a whole run of the compression computes ----------

  /** Names the rounds that a proof looks into. */
  ghost predicate Wanted(t: nat) { true }

  ghost predicate IsSchedule(w: seq<Word>) {
    |w| == 64 && forall t: nat {:trigger Wanted(t)} :: Wanted(t) && t < 48 ==> Follows(w, t)
  }

  ghost predicate Follows(w: seq<Word>, t: nat)
    requires |w| == 64 && t < 48
  {
    w[t + 16] == F.NextWord(w[t + 14], w[t + 9], w[t + 1], w[t])
  }

  /** The working variables before and after every round. */
  ghost predicate IsRun(rs: seq<F.Regs>, w: seq<Word>, k: seq<Word>) {
    |rs| == 65 && |w| == 64 && |k| == 64 && forall t: nat {:trigger Wanted(t)} :: Wanted(t) && t < 64 ==>
      rs[t + 1] == F.Round(rs[t], k[t], w[t])
  }

  ghost function ScheduleOf(block: Block): (w: seq<Word>)
    ensures |w| == 64
  {
    seq(64, t requires 0 <= t < 64 => F.W(block, t))
  }

  ghost function RunOf(h: F.Regs, block: Block): (rs: seq<F.Regs>)
    ensures |rs| == 65
  {
    seq(65, n requires 0 <= n < 65 => F.Rounds(h, block, n))
  }

  /** The table of round constants, as words. */
  function Constants(): (k: seq<Word>)
    ensures |k| == 64
  {
    seq(64, t requires 0 <= t < 64 => OfNat(K[t]))
  }

  lemma ConstantAt(t: nat)
    requires t < 64
    ensures Constants()[t] == F.Constant(t)
  {
    ConstantsAreStandard();
  }

  lemma Scheduled(block: Block, t: nat)
    requires t < 48
    ensures Follows(ScheduleOf(block), t)
  {
    assert F.W(block, t + 16) == F.NextWord(F.W(block, t + 14), F.W(block, t + 9), F.W(block, t + 1), F.W(block, t));
  }

  lemma ScheduleIsSchedule(block: Block)
    ensures IsSchedule(ScheduleOf(block))
  {
    var w := ScheduleOf(block);
    forall t: nat | t < 48
      ensures Follows(w, t)
    {
      Scheduled(block, t);
    }
  }

  lemma RunStep(h: F.Regs, block: Block, t: nat)
    requires t < 64
    ensures F.Rounds(h, block, t + 1) == F.Round(F.Rounds(h, block, t), F.Constant(t), F.W(block, t))
  {
  }

  lemma RunIsRun(h: F.Regs, block: Block)
    ensures IsRun(RunOf(h, block), ScheduleOf(block), Constants())
  {
    var (rs, w, k) := (RunOf(h, block), ScheduleOf(block), Constants());
    forall t: nat | t < 64
      ensures rs[t + 1] == F.Round(rs[t], k[t], w[t])
    {
      RunStep(h, block, t);
      ConstantAt(t);
    }
  }

  lemma RunCompresses(h: F.Regs, block: Block)
    ensures RunOf(h, block)[0] == h && F.Compress(h, block) == F.Plus(RunOf(h, block)[64], h)
  {
  }

  // ---------- the compression function ----------

  /** be32dec_vect. */
  method Decode(W: array<Word>, block: Block)
    requires W.Length == 64
    modifies W
    ensures W[..16] == ScheduleOf(block)[..16]
  {
    for t := 0 to 16
      invariant forall x :: 0 <= x < t ==> W[x] == ScheduleOf(block)[x]
    {
      Be32decIsBigEndian(block[4 * t..]);
      W[t] := Be32dec(block[4 * t..]);
      Loaded(block, t);
    }
  }

  lemma Loaded(block: Block, t: nat)
    requires t < 16
    ensures ScheduleOf(block)[t] ==
      OfNat(BigEndian(block[4 * t..][0], block[4 * t..][1], block[4 * t..][2], block[4 * t..][3]))
  {
  }

  /** The sixteen lines of MSCH after a batch of rounds. */
  method Schedule(W: array<Word>, ii: nat, ghost w: seq<Word>)
    requires W.Length == 64 && ii <= 32 && IsSchedule(w) && W[..ii + 16] == w[..ii + 16]
    modifies W
    ensures W[..ii + 32] == w[..ii + 32]
  {
    for i := 0 to 16
      invariant W[..i + ii + 16] == w[..i + ii + 16]
    {
      Msch(W, i + ii, w);
    }
  }

  /** The right-hand side of MSCH. */
  function MixWords(w14: Word, w9: Word, w1: Word, w0: Word): Word {
    Add(Add(Add(SmallS1(w14), w9), SmallS0(w1)), w0)
  }

  lemma MixWordsIsStandard(w14: Word, w9: Word, w1: Word, w0: Word)
    ensures MixWords(w14, w9, w1, w0) == F.NextWord(w14, w9, w1, w0)
  {
    SigmasAreStandard(w14);
    SigmasAreStandard(w1);
  }

  /** The macro MSCH. */
  method Msch(W: array<Word>, t: nat, ghost w: seq<Word>)
    requires W.Length == 64 && t < 48 && IsSchedule(w) && W[..t + 16] == w[..t + 16]
    modifies W
    ensures W[..t + 17] == w[..t + 17]
  {
    assert Wanted(t);
    ghost var before := W[..t + 16];
    assert before[t + 14] == w[t + 14] && before[t + 9] == w[t + 9] && before[t + 1] == w[t + 1] && before[t] == w[t];
    MixWordsIsStandard(W[t + 14], W[t + 9], W[t + 1], W[t]);
    W[t + 16] := MixWords(W[t + 14], W[t + 9], W[t + 1], W[t]);
    assert W[..t + 17] == before + [W[t + 16]];
    assert w[..t + 17] == w[..t + 16] + [w[t + 16]];
  }

  /** The sixteen lines of RNDr. */
  method Batch(S: array<Word>, W: array<Word>, K: seq<Word>, ii: nat, ghost w: seq<Word>, ghost rs: seq<F.Regs>)
    requires S.Length == 8 && W.Length == 64 && S != W && ii <= 48 && IsRun(rs, w, K)
    requires W[..ii + 16] == w[..ii + 16] && View(S[..], 0) == rs[ii]
    modifies S
    ensures View(S[..], 0) == rs[ii + 16]
  {
    for i := 0 to 16
      invariant View(S[..], i) == rs[ii + i]
      invariant W[..ii + 16] == w[..ii + 16]
    {
      assert W[..ii + 16][i + ii] == w[..ii + 16][i + ii];
      assert Wanted(ii + i);
      Rnd(S, i, K[i + ii], W[i + ii]);
    }
    SameView(S[..]);
  }

  lemma SameView(s: seq<Word>)
    requires |s| == 8
    ensures View(s, 16) == View(s, 0) == AsRegs(s)
  {
  }

  function AsRegs(s: seq<Word>): F.Regs
    requires |s| == 8
  {
    F.Regs(s[0], s[1], s[2], s[3], s[4], s[5], s[6], s[7])
  }

  /** Preparing the schedule and mixing, for a schedule w and a run rs that the caller knows to be right. */
  method Mix(S: array<Word>, block: Block, K: seq<Word>, ghost w: seq<Word>, ghost rs: seq<F.Regs>)
    requires S.Length == 8 && IsSchedule(w) && IsRun(rs, w, K) && w == ScheduleOf(block) && View(S[..], 0) == rs[0]
    modifies S
    ensures View(S[..], 0) == rs[64]
  {
    var W := new Word[64];
    Decode(W, block);
    var i := 0;
    while true
      invariant i <= 48 && i % 16 == 0
      invariant fresh(W) && W[..i + 16] == w[..i + 16] && View(S[..], 0) == rs[i]
      decreases 64 - i
    {
      Batch(S, W, K, i, w, rs);
      if i == 48 {
        break;
      }
      Schedule(W, i, w);
      i := i + 16;
    }
  }

  /** SHA256_Transform. */
  method Transform(state: array<Word>, block: Block)
    requires state.Length == 8
    modifies state
    ensures AsRegs(state[..]) == F.Compress(AsRegs(old(state[..])), block)
  {
    ghost var h := AsRegs(state[..]);
    ghost var (w, rs) := (ScheduleOf(block), RunOf(h, block));
    ScheduleIsSchedule(block);
    RunIsRun(h, block);
    RunCompresses(h, block);
    TransformBy(state, block, Constants(), w, rs);
    AddedIsPlus(rs[64], old(state[..]), state[..]);
  }

  method TransformBy(state: array<Word>, block: Block, K: seq<Word>, ghost w: seq<Word>, ghost rs: seq<F.Regs>)
    requires state.Length == 8 && IsSchedule(w) && IsRun(rs, w, K) && w == ScheduleOf(block)
    requires rs[0] == AsRegs(state[..])
    modifies state
    ensures AddedTo(F.AsList(rs[64]), old(state[..]), state[..])
  {
    var S := Copy(state);
    SameView(S[..]);
    Mix(S, block, K, w, rs);
    SameView(S[..]);
    AddTo(state, S);
  }

  /** memcpy of the state. */
  method Copy(state: array<Word>) returns (S: array<Word>)
    requires state.Length == 8
    ensures fresh(S) && S[..] == state[..]
  {
    S := new Word[8];
    for i := 0 to 8
      invariant forall x :: 0 <= x < i ==> S[x] == state[x]
    {
      S[i] := state[i];
    }
  }

  lemma AddedIsPlus(r: F.Regs, s: seq<Word>, t: seq<Word>)
    requires AddedTo(F.AsList(r), s, t)
    ensures AsRegs(t) == F.Plus(r, AsRegs(s))
  {
  }

  /** t is s with r added. */
  ghost predicate AddedTo(r: seq<Word>, s: seq<Word>, t: seq<Word>) {
    |r| == 8 && |s| == 8 && |t| == 8 && forall x :: 0 <= x < 8 ==> t[x] == Add(r[x], s[x])
  }

  /** The final loop of SHA256_Transform. */
  method AddTo(state: array<Word>, S: array<Word>)
    requires state.Length == 8 && S.Length == 8 && state != S
    modifies state
    ensures AddedTo(S[..], old(state[..]), state[..])
  {
    for i := 0 to 8
      invariant forall x :: i <= x < 8 ==> state[x] == old(state[x])
      invariant forall x :: 0 <= x < i ==> state[x] == Add(S[x], old(state[x]))
    {
      AddCommutes(state[i], S[i]);
      state[i] := Add(state[i], S[i]);
    }
  }

  // ---------- the stream ----------

  const PAD: seq<Byte> := [0x80] + Zeros(63)

  class Context {
    const state: array<Word>
    const buf: array<Byte>
    var count: nat                          // in bits, modulo 2^64
    ghost var msg: seq<Byte>                // everything added so far
    ghost const iv: F.Regs
    ghost const f: (F.Regs, Block) -> F.Regs

    ghost predicate Shaped()
      reads this
    {
      state.Length == 8 && buf.Length == 64 && count < TWO64 && Computes(f, F.Compress)
    }

    ghost predicate Valid()
      reads this, state, buf
    {
      && Shaped()
      && count == 8 * |msg| % TWO64
      && AsRegs(state[..]) == Fold(f, iv, Whole(msg))
      && buf[..|msg| % 64] == Rest(msg)
    }

    /** SHA256_Init, for the initial words that the caller names. */
    constructor (initial: F.Regs, ghost g: (F.Regs, Block) -> F.Regs)
      requires Computes(g, F.Compress)
      ensures Valid() && msg == [] && iv == initial && f == g && fresh(state) && fresh(buf)
    {
      state, buf, count, msg, iv, f := new Word[8], new Byte[64], 0, [], initial, g;
      new;
      Store(state, F.AsList(initial));
    }

    /** The state is that after whole blocks. */
    ghost predicate Absorbed(done: seq<Byte>)
      reads this, state, buf
    {
      Shaped() && |done| % 64 == 0 && AsRegs(state[..]) == Fold(f, iv, done)
    }

    /** One block more is mixed in. */
    method Absorb(b: Block, ghost done: seq<Byte>)
      requires Absorbed(done)
      modifies state
      ensures Absorbed(done + b)
    {
      assert Due(AsRegs(state[..]), b);
      FoldBlock(f, iv, done, b);
      Transform(state, b);
    }

    /** Counts the bits of new bytes, and returns the number of bytes buffered before. */
    method Count(len: nat) returns (r: nat)
      requires Shaped() && count == 8 * |msg| % TWO64
      modifies this`count
      ensures Shaped() && count == 8 * (|msg| + len) % TWO64 && r == |msg| % 64
    {
      r := count / 8 % 64;
      CountedBytes(msg);
      CountGrows(|msg|, len);
      count := (count + 8 * len % TWO64) % TWO64;
    }

    /** Finishes the current block with the first of the new bytes. */
    method FinishBlock(r: nat, next: seq<Byte>, ghost m: seq<Byte>)
      requires Absorbed(Whole(m)) && r == |m| % 64 && buf[..r] == Rest(m) && |next| == 64 - r
      modifies state, buf
      ensures Absorbed(m + next)
    {
      RestFills(m, next);
      CopyInto(buf, r, next);
      assert buf[..] == Rest(m) + next;
      Absorb(buf[..], Whole(m));
      assert Whole(m + next) == m + next;
    }

    /** The loop over complete blocks. */
    method AbsorbAll(src: seq<Byte>, first: nat, ghost m: seq<Byte>) returns (p: nat)
      requires first <= |src| && Absorbed(m + src[..first])
      modifies state
      ensures first <= p <= |src| < p + 64 && Absorbed(m + src[..p])
    {
      p := first;
      while |src| - p >= 64
        invariant first <= p <= |src| && Absorbed(m + src[..p])
      {
        Absorb(src[p..p + 64], m + src[..p]);
        assert m + src[..p] + src[p..p + 64] == m + src[..p + 64];
        p := p + 64;
      }
    }

    /** SHA256_Update. */
    method Update(src: seq<Byte>)
      requires Valid()
      modifies this`count, this`msg, state, buf
      ensures Valid() && msg == old(msg) + src
    {
      var r := Count(|src|);
      if |src| < 64 - r {
        RestGrows(msg, src);
        CopyInto(buf, r, src);
        msg := msg + src;
      } else {
        FinishBlock(r, src[..64 - r], msg);
        var p := AbsorbAll(src, 64 - r, msg);
        Keep(p, src);
      }
    }

    /** The bytes after the last complete block stay in the buffer. */
    method Keep(p: nat, src: seq<Byte>)
      requires p <= |src| < p + 64 && Absorbed(msg + src[..p]) && count == 8 * (|msg| + |src|) % TWO64
      modifies this`msg, buf
      ensures Valid() && msg == old(msg) + src
    {
      SplitAt(msg, src, p);
      CopyInto(buf, 0, src[p..]);
      msg := msg + src;
    }

    /** SHA256_Pad. */
    method Pad()
      requires Valid()
      modifies state, buf
      ensures AsRegs(state[..]) == Fold(f, iv, F.Padded(msg)) && state.Length == 8
    {
      var r := count / 8 % 64;
      CountedBytes(msg);
      var length := EncodeLength(msg, count);
      if r < 56 {
        PadOne(r, length);
      } else {
        PadTwo(r, length);
      }
    }

    /** The padding fits into the current block. */
    method PadOne(r: nat, length: seq<Byte>)
      requires Valid() && r == |msg| % 64 < 56 && length == LengthField(msg)
      modifies state, buf
      ensures AsRegs(state[..]) == Fold(f, iv, F.Padded(msg))
    {
      ghost var head := FillShort(r);
      LengthBlock(length, Whole(msg), head);
      ShortBlocks(msg, head, length);
    }

    method FillShort(r: nat) returns (ghost head: seq<Byte>)
      requires Valid() && r == |msg| % 64 < 56
      modifies buf
      ensures Absorbed(Whole(msg)) && |head| == 56 && buf[..56] == head
      ensures head == Rest(msg) + ([0x80] + Zeros(55 - r))
    {
      PadPrefix(56 - r);
      CopyInto(buf, r, PAD[..56 - r]);
      head := Rest(msg) + ([0x80] + Zeros(55 - r));
    }

    /** It does not: the final block starts with zeroes. */
    method PadTwo(r: nat, length: seq<Byte>)
      requires Valid() && r == |msg| % 64 >= 56 && length == LengthField(msg)
      modifies state, buf
      ensures AsRegs(state[..]) == Fold(f, iv, F.Padded(msg))
    {
      PadPrefix(64 - r);
      ghost var first := Rest(msg) + ([0x80] + Zeros(63 - r));
      CopyInto(buf, r, PAD[..64 - r]);
      assert buf[..] == first;
      Absorb(buf[..], Whole(msg));
      CopyInto(buf, 0, Zeros(56));
      assert buf[..56] == Zeros(56);
      LengthBlock(length, Whole(msg) + first, Zeros(56));
      PaddedLong(msg, length);
    }

    /** The bit count at the end of the last block. */
    method LengthBlock(length: seq<Byte>, ghost done: seq<Byte>, ghost head: seq<Byte>)
      requires Absorbed(done) && |length| == 8 && |head| == 56 && buf[..56] == head
      modifies state, buf
      ensures Absorbed(done + (head + length))
    {
      CopyInto(buf, 56, length);
      assert buf[..] == head + length;
      Absorb(buf[..], done);
    }

    /** SHA256_Final. The context is cleared afterwards. */
    method Final() returns (digest: seq<Byte>)
      requires Valid()
      modifies this`count, state, buf
      ensures digest == F.Digest(F.AsList(Fold(f, iv, F.Padded(msg))))
    {
      Pad();
      assert F.AsList(AsRegs(state[..])) == state[..];
      digest := EncodeAll(state);
      Clear();
    }

    /** memset of the context. */
    method Clear()
      requires state.Length == 8 && buf.Length == 64
      modifies this`count, state, buf
      ensures count == 0 && buf[..] == Zeros(64) && forall x :: 0 <= x < 8 ==> state[x] == OfNat(0)
    {
      Store(state, seq(8, _ => OfNat(0)));
      CopyInto(buf, 0, Zeros(64));
      count := 0;
    }
  }

  lemma PadPrefix(n: nat)
    requires 0 < n <= 64
    ensures PAD[..n] == [0x80] + Zeros(n - 1)
  {
  }

  /** be32enc_vect. */
  method EncodeAll(words: array<Word>) returns (bytes: seq<Byte>)
    ensures bytes == F.Digest(words[..])
  {
    bytes := [];
    for i := 0 to words.Length
      invariant bytes + F.Digest(words[i..]) == F.Digest(words[..])
    {
      Be32encIsBytes(Val(words[i]), F.WORD_BYTES);
      assert words[i..][1..] == words[i + 1..];
      bytes := bytes + Be32enc(Val(words[i]));
    }
  }

  /** The length field of the padding. */
  method EncodeLength(ghost msg: seq<Byte>, count: nat) returns (length: seq<Byte>)
    requires count == 8 * |msg| % TWO64
    ensures length == LengthField(msg) && |length| == 8
  {
    ghost var q := 8 * |msg| / TWO64;
    Pow256Eight(F.LENGTH_BYTES);
    BytesOfWraps(count, q, F.LENGTH_BYTES);
    Be64encIsBytes(count, F.LENGTH_BYTES);
    length := Be64enc(count);
  }

  ghost function LengthField(msg: seq<Byte>): seq<Byte> {
    BytesOf(8 * |msg|, F.LENGTH_BYTES)
  }

  /** The bytes left over can be read off the bit count. */
  lemma ShortBlocks(msg: seq<Byte>, head: seq<Byte>, length: seq<Byte>)
    requires |msg| % 64 < 56 && head == Rest(msg) + ([0x80] + Zeros(55 - |msg| % 64)) && length == LengthField(msg)
    ensures Whole(msg) + (head + length) == F.Padded(msg)
  {
    PaddedShort(msg, length);
    Associate(Whole(msg), head, length);
  }

  lemma CountedBytes(msg: seq<Byte>)
    ensures 8 * |msg| % TWO64 / 8 % 64 == |msg| % 64
  {
    CountWraps(|msg|, 8 * |msg| / TWO64);
  }

  lemma CountWraps(n: nat, q: nat)
    requires q == 8 * n / TWO64
    ensures 8 * n % TWO64 / 8 % 64 == n % 64
  {
    var m := n - 0x2000_0000_0000_0000 * q;
    assert 8 * n % TWO64 == 8 * m;
    SameRemainder(m, 0x80_0000_0000_0000 * q);
  }

  lemma SameRemainder(m: int, k: int)
    ensures (m + 64 * k) % 64 == m % 64
  {
  }

  lemma CountGrows(m: nat, n: nat)
    ensures (8 * m % TWO64 + 8 * n % TWO64) % TWO64 == 8 * (m + n) % TWO64
  {
    var (p, q, sum) := (8 * m / TWO64, 8 * n / TWO64, 8 * m % TWO64 + 8 * n % TWO64);
    assert 8 * (m + n) == (p + q) * TWO64 + sum;
    if sum >= TWO64 {
      assert 8 * (m + n) == (p + q + 1) * TWO64 + (sum - TWO64);
    }
  }

  method Store(a: array<Word>, s: seq<Word>)
    requires a.Length == |s|
    modifies a
    ensures a[..] == s
  {
    for i := 0 to a.Length
      invariant a[..i] == s[..i]
    {
      a[i] := s[i];
    }
  }

  /** SHA-256 of data that arrives in chunks, however it is cut. */
  method HashChunks(chunks: seq<seq<Byte>>) returns (digest: seq<Byte>)
    ensures digest == F.Sha256(Flat(chunks))
  {
    var initial, g := Start();
    digest := HashFrom(initial, g, chunks);
    FromStart(g, initial, Flat(chunks));
  }

  method HashFrom(initial: F.Regs, ghost g: (F.Regs, Block) -> F.Regs, chunks: seq<seq<Byte>>) returns (digest: seq<Byte>)
    requires Computes(g, F.Compress)
    ensures digest == F.Digest(F.AsList(Fold(g, initial, F.Padded(Flat(chunks)))))
  {
    var c := new Context(initial, g);
    UpdateAll(c, chunks);
    digest := c.Final();
  }

  method UpdateAll(c: Context, chunks: seq<seq<Byte>>)
    requires c.Valid() && c.msg == []
    modifies c, c.state, c.buf
    ensures c.Valid() && c.msg == Flat(chunks)
  {
    for i := 0 to |chunks|
      invariant c.Valid() && c.msg == Flat(chunks[..i])
    {
      assert chunks[..i + 1][..i] == chunks[..i];
      c.Update(chunks[i]);
    }
    assert chunks[..|chunks|] == chunks;
  }

  method Start() returns (initial: F.Regs, ghost g: (F.Regs, Block) -> F.Regs)
    ensures IsStart(initial, g) && Computes(g, F.Compress)
  {
    initial := InitialState();
    InitialStateIsStandard();
    g := F.Compress;
  }

  ghost predicate IsStart(initial: F.Regs, g: (F.Regs, Block) -> F.Regs) {
    initial == F.IV() && g == F.Compress
  }

  lemma FromStart(g: (F.Regs, Block) -> F.Regs, initial: F.Regs, msg: seq<Byte>)
    requires IsStart(initial, g)
    ensures F.Digest(F.AsList(Fold(g, initial, F.Padded(msg)))) == F.Sha256(msg)
  {
  }
}
