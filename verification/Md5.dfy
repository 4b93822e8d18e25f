/** MD5 as RFC 1321 defines it. */
module Rfc1321 {
  import opened Words
  import opened Streaming

  // section 3.4
  function F(x: Word, y: Word, z: Word): Word { Or(And(x, y), And(Not(x), z)) }
  function G(x: Word, y: Word, z: Word): Word { Or(And(x, z), And(y, Not(z))) }
  function H(x: Word, y: Word, z: Word): Word { Xor(Xor(x, y), z) }
  function I(x: Word, y: Word, z: Word): Word { Xor(y, Or(x, Not(z))) }

  /** The table T, a round a row. */
  const T1: seq<seq<nat>> := [
    [0xd76aa478, 0xe8c7b756, 0x242070db, 0xc1bdceee],
    [0xf57c0faf, 0x4787c62a, 0xa8304613, 0xfd469501],
    [0x698098d8, 0x8b44f7af, 0xffff5bb1, 0x895cd7be],
    [0x6b901122, 0xfd987193, 0xa679438e, 0x49b40821]
  ]
  const T2: seq<seq<nat>> := [
    [0xf61e2562, 0xc040b340, 0x265e5a51, 0xe9b6c7aa],
    [0xd62f105d, 0x02441453, 0xd8a1e681, 0xe7d3fbc8],
    [0x21e1cde6, 0xc33707d6, 0xf4d50d87, 0x455a14ed],
    [0xa9e3e905, 0xfcefa3f8, 0x676f02d9, 0x8d2a4c8a]
  ]
  const T3: seq<seq<nat>> := [
    [0xfffa3942, 0x8771f681, 0x6d9d6122, 0xfde5380c],
    [0xa4beea44, 0x4bdecfa9, 0xf6bb4b60, 0xbebfbc70],
    [0x289b7ec6, 0xeaa127fa, 0xd4ef3085, 0x04881d05],
    [0xd9d4d039, 0xe6db99e5, 0x1fa27cf8, 0xc4ac5665]
  ]
  const T4: seq<seq<nat>> := [
    [0xf4292244, 0x432aff97, 0xab9423a7, 0xfc93a039],
    [0x655b59c3, 0x8f0ccc92, 0xffeff47d, 0x85845dd1],
    [0x6fa87e4f, 0xfe2ce6e0, 0xa3014314, 0x4e0811a1],
    [0xf7537e82, 0xbd3af235, 0x2ad7d2bb, 0xeb86d391]
  ]

  datatype Regs = Regs(a: Word, b: Word, c: Word, d: Word)

  /** Section 3.3. */
  function Start(): Regs {
    Regs(OfNat(0x67452301), OfNat(0xefcdab89), OfNat(0x98badcfe), OfNat(0x10325476))
  }

  /** The four rounds of section 3.4. */
  datatype Round = One | Two | Three | Four

  function Mix(r: Round, x: Word, y: Word, z: Word): Word {
    match r
    case One => F(x, y, z)
    case Two => G(x, y, z)
    case Three => H(x, y, z)
    case Four => I(x, y, z)
  }

  function Constant(r: Round, i: nat): nat
    requires i < 16
  {
    match r
    case One => T1[i / 4][i % 4]
    case Two => T2[i / 4][i % 4]
    case Three => T3[i / 4][i % 4]
    case Four => T4[i / 4][i % 4]
  }

  /** Which word of the block operation i of a round uses. */
  function Index(r: Round, i: nat): (k: nat)
    ensures k < 16
  {
    match r
    case One => i % 16
    case Two => (5 * i + 1) % 16
    case Three => (3 * i + 5) % 16
    case Four => 7 * i % 16
  }

  function Shift(r: Round, i: nat): (s: nat)
    ensures s <= 32
  {
    var m := i % 4;
    match r
    case One => 7 + 5 * m
    case Two => if m == 0 then 5 else if m == 1 then 9 else if m == 2 then 14 else 20
    case Three => if m == 0 then 4 else if m == 1 then 11 else if m == 2 then 16 else 23
    case Four => if m == 0 then 6 else if m == 1 then 10 else if m == 2 then 15 else 21
  }

  /** a = b + ((a + f(b, c, d) + x + t) <<< s) */
  function Operation(r: Round, v: Regs, x: Word, t: Word, s: nat): Word
    requires s <= 32
  {
    Add(v.b, Rotl(Add(Add(Add(v.a, Mix(r, v.b, v.c, v.d)), x), t), s))
  }

  type Schedule = x: seq<Word> | |x| == 16 witness seq(16, _ => OfNat(0))

  /** The first n operations of a round: the registers pass the new value on from a to b. */
  function Steps(r: Round, v: Regs, x: Schedule, n: nat): Regs
    requires n <= 16
  {
    if n == 0 then v
    else
      var u := Steps(r, v, x, n - 1);
      Regs(u.d, Operation(r, u, x[Index(r, n - 1)], OfNat(Constant(r, n - 1)), Shift(r, n - 1)), u.b, u.c)
  }

  /** A word of a block: little-endian. */
  function WordOf(block: Block, i: nat): Word
    requires i < 16
  {
    OfNat(BigEndian(block[4 * i + 3], block[4 * i + 2], block[4 * i + 1], block[4 * i]))
  }

  function WordsOf(block: Block): Schedule {
    seq(16, i requires 0 <= i < 16 => WordOf(block, i))
  }

  const ALL: nat := 16

  function Rounds(v: Regs, x: Schedule): Regs {
    Steps(Four, Steps(Three, Steps(Two, Steps(One, v, x, ALL), x, ALL), x, ALL), x, ALL)
  }

  function Compress(v: Regs, block: Block): Regs {
    var u := Rounds(v, WordsOf(block));
    Regs(Add(u.a, v.a), Add(u.b, v.b), Add(u.c, v.c), Add(u.d, v.d))
  }

  const LENGTH_BYTES: nat := 8
  const WORD_BYTES: nat := 4

  /** Sections 3.1 and 3.2. */
  function Padded(msg: seq<Byte>): (r: seq<Byte>)
    ensures |r| % 64 == 0
  {
    PaddedWith(msg, LittleEndian(8 * |msg|, LENGTH_BYTES))
  }

  function Digest(v: Regs): seq<Byte> {
    LittleEndian(Val(v.a), WORD_BYTES) + LittleEndian(Val(v.b), WORD_BYTES)
    + LittleEndian(Val(v.c), WORD_BYTES) + LittleEndian(Val(v.d), WORD_BYTES)
  }

  function Md5(msg: seq<Byte>): seq<Byte> {
    Digest(Fold(Compress, Start(), Padded(msg)))
  }
}

/** The MD5 code of mkhash. */
module Md5Code {
  import opened Words
  import opened Streaming
  import R = Rfc1321

  // ---------- the basic functions ----------

  function F(x: Word, y: Word, z: Word): Word { Xor(z, And(x, Xor(y, z))) }
  function G(x: Word, y: Word, z: Word): Word { Xor(y, And(z, Xor(x, y))) }
  function H(x: Word, y: Word, z: Word): Word { Xor(Xor(x, y), z) }
  function H2(x: Word, y: Word, z: Word): Word { Xor(x, Xor(y, z)) }
  function I(x: Word, y: Word, z: Word): Word { Xor(y, Or(x, Not(z))) }

  lemma BasicFunctionsAreStandard(x: Word, y: Word, z: Word)
    ensures F(x, y, z) == R.F(x, y, z) && G(x, y, z) == R.G(x, y, z)
    ensures H(x, y, z) == R.H(x, y, z) && H2(x, y, z) == R.H(x, y, z) && I(x, y, z) == R.I(x, y, z)
  {
  }

  /** The macro argument that selects a basic function. */
  datatype Basic = BasicF | BasicG | BasicH | BasicH2 | BasicI {
    function Round(): R.Round {
      match this
      case BasicF => R.One
      case BasicG => R.Two
      case BasicI => R.Four
      case _ => R.Three
    }

    function Apply(x: Word, y: Word, z: Word): Word {
      match this
      case BasicF => F(x, y, z)
      case BasicG => G(x, y, z)
      case BasicH => H(x, y, z)
      case BasicH2 => H2(x, y, z)
      case BasicI => I(x, y, z)
    }
  }

  lemma ApplyIsMix(f: Basic, x: Word, y: Word, z: Word)
    ensures f.Apply(x, y, z) == R.Mix(f.Round(), x, y, z)
  {
    BasicFunctionsAreStandard(x, y, z);
  }

  lemma SumOrder(a: Word, f: Word, x: Word, t: Word)
    ensures Add(a, Add(Add(f, x), t)) == Add(Add(Add(a, f), x), t)
  {
    AddAssociates(a, Add(f, x), t);
    AddAssociates(a, f, x);
  }

  /** The macro STEP: the new value of its first register. */
  method Step(f: Basic, a: Word, b: Word, c: Word, d: Word, x: Word, t: nat, s: nat) returns (r: Word)
    requires s <= 32
    ensures r == R.Operation(f.Round(), R.Regs(a, b, c, d), x, OfNat(t), s)
  {
    ApplyIsMix(f, b, c, d);
    SumOrder(a, f.Apply(b, c, d), x, OfNat(t));
    r := Add(a, Add(Add(f.Apply(b, c, d), x), OfNat(t)));
    AddCommutes(Rotl(r, s), b);
    r := Rotl(r, s);
    r := Add(r, b);
  }

  // ---------- the rounds ----------

  /** Names the operations that a proof looks into. */
  ghost predicate Wanted(i: nat) { true }

  /** The registers before and after every operation of a round. */
  ghost predicate IsRun(r: R.Round, rs: seq<R.Regs>, x: R.Schedule) {
    |rs| == 17 && forall i: nat {:trigger Wanted(i)} :: Wanted(i) && i < 16 ==> Follows(r, rs, x, i)
  }

  ghost predicate Follows(r: R.Round, rs: seq<R.Regs>, x: R.Schedule, i: nat)
    requires |rs| == 17 && i < 16
  {
    rs[i + 1] == R.Regs(rs[i].d, R.Operation(r, rs[i], x[R.Index(r, i)], OfNat(R.Constant(r, i)), R.Shift(r, i)),
                        rs[i].b, rs[i].c)
  }

  ghost function RunOf(r: R.Round, v: R.Regs, x: R.Schedule): (rs: seq<R.Regs>)
    ensures |rs| == 17
  {
    seq(17, n requires 0 <= n < 17 => R.Steps(r, v, x, n))
  }

  lemma RunFollows(r: R.Round, v: R.Regs, x: R.Schedule, i: nat)
    requires i < 16
    ensures Follows(r, RunOf(r, v, x), x, i)
  {
    var rs := RunOf(r, v, x);
    assert rs[i + 1] == R.Steps(r, v, x, i + 1);
    assert rs[i] == R.Steps(r, v, x, i);
  }

  lemma RunIsRun(r: R.Round, v: R.Regs, x: R.Schedule)
    ensures var rs := RunOf(r, v, x); IsRun(r, rs, x) && rs[0] == v && rs[16] == R.Steps(r, v, x, R.ALL)
  {
    var rs := RunOf(r, v, x);
    forall i: nat | i < 16
      ensures Follows(r, rs, x, i)
    {
      RunFollows(r, v, x, i);
    }
  }

  /** The last three arguments of STEP: the word, the constant and the shift. */
  datatype Line = Line(k: nat, t: nat, s: nat)

  /** They are those of operation i of the standard. */
  ghost predicate Matches(r: R.Round, i: nat, line: Line)
    requires i < 16
  {
    line.k == R.Index(r, i) && line.t == R.Constant(r, i) && line.s == R.Shift(r, i)
  }

  /** Four lines of STEP: each updates one register, the names rotate. */
  method FourSteps(ghost r: R.Round, f: Basic, g: Basic, v: R.Regs, x: R.Schedule,
                   l0: Line, l1: Line, l2: Line, l3: Line, ghost rs: seq<R.Regs>, ghost i: nat)
    returns (u: R.Regs)
    requires f.Round() == g.Round() == r && IsRun(r, rs, x) && i <= 12 && rs[i] == v
    requires Matches(r, i, l0) && Matches(r, i + 1, l1)
    requires Matches(r, i + 2, l2) && Matches(r, i + 3, l3)
    ensures u == rs[i + 4]
  {
    assert Wanted(i) && Wanted(i + 1) && Wanted(i + 2) && Wanted(i + 3);
    var (a, b, c, d) := (v.a, v.b, v.c, v.d);
    a := Step(f, a, b, c, d, x[l0.k], l0.t, l0.s);
    assert rs[i + 1] == R.Regs(d, a, b, c);
    d := Step(g, d, a, b, c, x[l1.k], l1.t, l1.s);
    assert rs[i + 2] == R.Regs(c, d, a, b);
    c := Step(f, c, d, a, b, x[l2.k], l2.t, l2.s);
    assert rs[i + 3] == R.Regs(b, c, d, a);
    b := Step(g, b, c, d, a, x[l3.k], l3.t, l3.s);
    u := R.Regs(a, b, c, d);
  }

  /** The sixteen lines of round 1. */
  method RoundOne(v: R.Regs, x: R.Schedule, ghost rs: seq<R.Regs>) returns (u: R.Regs)
    requires IsRun(R.One, rs, x) && rs[0] == v
    ensures u == rs[16]
  {
    u := FourSteps(R.One, BasicF, BasicF, v, x,
      Line(0, 0xd76aa478, 7), Line(1, 0xe8c7b756, 12),
      Line(2, 0x242070db, 17), Line(3, 0xc1bdceee, 22), rs, 0);
    u := FourSteps(R.One, BasicF, BasicF, u, x,
      Line(4, 0xf57c0faf, 7), Line(5, 0x4787c62a, 12),
      Line(6, 0xa8304613, 17), Line(7, 0xfd469501, 22), rs, 4);
    u := FourSteps(R.One, BasicF, BasicF, u, x,
      Line(8, 0x698098d8, 7), Line(9, 0x8b44f7af, 12),
      Line(10, 0xffff5bb1, 17), Line(11, 0x895cd7be, 22), rs, 8);
    u := FourSteps(R.One, BasicF, BasicF, u, x,
      Line(12, 0x6b901122, 7), Line(13, 0xfd987193, 12),
      Line(14, 0xa679438e, 17), Line(15, 0x49b40821, 22), rs, 12);
  }

  /** The sixteen lines of round 2. */
  method RoundTwo(v: R.Regs, x: R.Schedule, ghost rs: seq<R.Regs>) returns (u: R.Regs)
    requires IsRun(R.Two, rs, x) && rs[0] == v
    ensures u == rs[16]
  {
    u := FourSteps(R.Two, BasicG, BasicG, v, x,
      Line(1, 0xf61e2562, 5), Line(6, 0xc040b340, 9),
      Line(11, 0x265e5a51, 14), Line(0, 0xe9b6c7aa, 20), rs, 0);
    u := FourSteps(R.Two, BasicG, BasicG, u, x,
      Line(5, 0xd62f105d, 5), Line(10, 0x02441453, 9),
      Line(15, 0xd8a1e681, 14), Line(4, 0xe7d3fbc8, 20), rs, 4);
    u := FourSteps(R.Two, BasicG, BasicG, u, x,
      Line(9, 0x21e1cde6, 5), Line(14, 0xc33707d6, 9),
      Line(3, 0xf4d50d87, 14), Line(8, 0x455a14ed, 20), rs, 8);
    u := FourSteps(R.Two, BasicG, BasicG, u, x,
      Line(13, 0xa9e3e905, 5), Line(2, 0xfcefa3f8, 9),
      Line(7, 0x676f02d9, 14), Line(12, 0x8d2a4c8a, 20), rs, 12);
  }

  /** The sixteen lines of round 3. */
  method RoundThree(v: R.Regs, x: R.Schedule, ghost rs: seq<R.Regs>) returns (u: R.Regs)
    requires IsRun(R.Three, rs, x) && rs[0] == v
    ensures u == rs[16]
  {
    u := FourSteps(R.Three, BasicH, BasicH2, v, x,
      Line(5, 0xfffa3942, 4), Line(8, 0x8771f681, 11),
      Line(11, 0x6d9d6122, 16), Line(14, 0xfde5380c, 23), rs, 0);
    u := FourSteps(R.Three, BasicH, BasicH2, u, x,
      Line(1, 0xa4beea44, 4), Line(4, 0x4bdecfa9, 11),
      Line(7, 0xf6bb4b60, 16), Line(10, 0xbebfbc70, 23), rs, 4);
    u := FourSteps(R.Three, BasicH, BasicH2, u, x,
      Line(13, 0x289b7ec6, 4), Line(0, 0xeaa127fa, 11),
      Line(3, 0xd4ef3085, 16), Line(6, 0x04881d05, 23), rs, 8);
    u := FourSteps(R.Three, BasicH, BasicH2, u, x,
      Line(9, 0xd9d4d039, 4), Line(12, 0xe6db99e5, 11),
      Line(15, 0x1fa27cf8, 16), Line(2, 0xc4ac5665, 23), rs, 12);
  }

  /** The sixteen lines of round 4. */
  method RoundFour(v: R.Regs, x: R.Schedule, ghost rs: seq<R.Regs>) returns (u: R.Regs)
    requires IsRun(R.Four, rs, x) && rs[0] == v
    ensures u == rs[16]
  {
    u := FourSteps(R.Four, BasicI, BasicI, v, x,
      Line(0, 0xf4292244, 6), Line(7, 0x432aff97, 10),
      Line(14, 0xab9423a7, 15), Line(5, 0xfc93a039, 21), rs, 0);
    u := FourSteps(R.Four, BasicI, BasicI, u, x,
      Line(12, 0x655b59c3, 6), Line(3, 0x8f0ccc92, 10),
      Line(10, 0xffeff47d, 15), Line(1, 0x85845dd1, 21), rs, 4);
    u := FourSteps(R.Four, BasicI, BasicI, u, x,
      Line(8, 0x6fa87e4f, 6), Line(15, 0xfe2ce6e0, 10),
      Line(6, 0xa3014314, 15), Line(13, 0x4e0811a1, 21), rs, 8);
    u := FourSteps(R.Four, BasicI, BasicI, u, x,
      Line(4, 0xf7537e82, 6), Line(11, 0xbd3af235, 10),
      Line(2, 0x2ad7d2bb, 15), Line(9, 0xeb86d391, 21), rs, 12);
  }

  // ---------- a block ----------

  /** SET, where the bytes are put together one by one. */
  function Set(p: Block, n: nat): Word
    requires n < 16
  {
    Or(Or(Or(OfNat(p[4 * n]), Shl(OfNat(p[4 * n + 1]), 8)), Shl(OfNat(p[4 * n + 2]), 16)), Shl(OfNat(p[4 * n + 3]), 24))
  }

  lemma JoinLittleEndian(b0: nat, b1: nat, b2: nat, b3: nat)
    requires b0 < 256 && b1 < 256 && b2 < 256 && b3 < 256
    ensures Or(Or(Or(OfNat(b0), Shl(OfNat(b1), 8)), Shl(OfNat(b2), 16)), Shl(OfNat(b3), 24)) ==
      OfNat(BigEndian(b3, b2, b1, b0))
  {
    Join(b0, b1, 8, 256);
    Join(b1 * 256 + b0, b2, 16, 0x1_0000);
    Join(b2 * 0x1_0000 + (b1 * 256 + b0), b3, 24, 0x100_0000);
  }

  lemma Join(lo: nat, hi: nat, n: nat, p: nat)
    requires (n == 8 && p == 0x100) || (n == 16 && p == 0x1_0000) || (n == 24 && p == 0x100_0000)
    requires lo < p
    ensures Or(OfNat(lo), Shl(OfNat(hi), n)) == OfNat(hi * p + lo)
  {
    PowersOfTwo();
    OrShift(lo, hi, n);
  }

  lemma SetIsLittleEndian(p: Block, n: nat)
    requires n < 16
    ensures Set(p, n) == R.WordOf(p, n)
  {
    JoinLittleEndian(p[4 * n], p[4 * n + 1], p[4 * n + 2], p[4 * n + 3]);
  }

  method Load(p: Block) returns (x: R.Schedule)
    ensures x == R.WordsOf(p)
  {
    x := seq(16, n requires 0 <= n < 16 => Set(p, n));
    forall n | 0 <= n < 16
      ensures x[n] == R.WordsOf(p)[n]
    {
      SetIsLittleEndian(p, n);
    }
  }

  /** One turn of the loop of MD5_body. */
  method Transform(saved: R.Regs, block: Block) returns (v: R.Regs)
    ensures v == R.Compress(saved, block)
  {
    var x := Load(block);
    v := AllRounds(saved, x);
    v := R.Regs(Add(v.a, saved.a), Add(v.b, saved.b), Add(v.c, saved.c), Add(v.d, saved.d));
  }

  method AllRounds(v: R.Regs, x: R.Schedule) returns (u: R.Regs)
    ensures u == R.Rounds(v, x)
  {
    ghost var r1 := StartRun(R.One, v, x);
    u := RoundOne(v, x, r1);
    ghost var r2 := StartRun(R.Two, u, x);
    u := RoundTwo(u, x, r2);
    ghost var r3 := StartRun(R.Three, u, x);
    u := RoundThree(u, x, r3);
    ghost var r4 := StartRun(R.Four, u, x);
    u := RoundFour(u, x, r4);
  }

  lemma StartRun(r: R.Round, v: R.Regs, x: R.Schedule) returns (rs: seq<R.Regs>)
    ensures IsRun(r, rs, x) && rs[0] == v && rs[16] == R.Steps(r, v, x, R.ALL)
  {
    rs := RunOf(r, v, x);
    RunIsRun(r, v, x);
  }

  // ---------- the stream ----------

  const TWO29: nat := 0x2000_0000
  const TWO32: nat := 0x1_0000_0000
  const TWO61: nat := 0x2000_0000_0000_0000

  lemma SplitCounter(h: nat, lo: nat)
    requires lo < TWO29
    ensures (h * TWO29 + lo) % TWO61 == h % TWO32 * TWO29 + lo
  {
    var q := h / TWO32;
    assert h * TWO29 + lo == q * TWO61 + (h % TWO32 * TWO29 + lo);
  }

  /** The counters after size bytes more. */
  lemma CountGrows(lo: nat, hi: nat, lo': nat, hi': nat, size: nat)
    requires lo < TWO29 && lo' == (lo + size) % TWO29
    requires hi' == ((if lo' < lo then (hi + 1) % TWO32 else hi) + size / TWO29) % TWO32
    ensures lo' < TWO29 && hi' < TWO32 && hi' * TWO29 + lo' == (hi * TWO29 + lo + size) % TWO61
  {
    var carry := if lo' < lo then 1 else 0;
    var h := hi + carry + size / TWO29;
    assert lo + size == (carry + size / TWO29) * TWO29 + lo';
    assert hi' == h % TWO32;
    SplitCounter(h, lo');
  }

  lemma CountWraps(n: nat, m: nat, size: nat)
    requires n == m % TWO61
    ensures (n + size) % TWO61 == (m + size) % TWO61
  {
  }

  class Context {
    var regs: R.Regs            // a, b, c and d
    var lo: nat
    var hi: nat
    const buffer: array<Byte>
    ghost var msg: seq<Byte>    // everything added so far
    ghost const start: R.Regs
    ghost const f: (R.Regs, Block) -> R.Regs

    ghost predicate Shaped()
      reads this
    {
      buffer.Length == 64 && Computes(f, R.Compress)
    }

    /** The split counter: 29 bits in lo, the rest in hi. */
    ghost predicate Counted(m: nat)
      reads this
    {
      lo < TWO29 && hi < TWO32 && hi * TWO29 + lo == m % TWO61
    }

    ghost predicate Absorbed(done: seq<Byte>)
      reads this
    {
      Shaped() && |done| % 64 == 0 && regs == Fold(f, start, done)
    }

    ghost predicate Valid()
      reads this, buffer
    {
      Absorbed(Whole(msg)) && Counted(|msg|) && buffer[..|msg| % 64] == Rest(msg)
    }

    /** MD5_begin, for the initial registers that the caller names. */
    constructor (initial: R.Regs, ghost g: (R.Regs, Block) -> R.Regs)
      requires Computes(g, R.Compress)
      ensures Valid() && msg == [] && start == initial && f == g && fresh(buffer)
    {
      regs, lo, hi, buffer, msg, start, f := initial, 0, 0, new Byte[64], [], initial, g;
    }

    method Absorb(b: Block, ghost done: seq<Byte>)
      requires Absorbed(done)
      modifies this`regs
      ensures Absorbed(done + b)
    {
      assert Due(regs, b);
      FoldBlock(f, start, done, b);
      regs := Transform(regs, b);
    }

    /** MD5_body. */
    method Body(data: seq<Byte>, ghost done: seq<Byte>)
      requires Absorbed(done) && |data| % 64 == 0 && data != []
      modifies this`regs
      ensures Absorbed(done + data)
    {
      var size, p := |data|, 0;
      assert done + data[..0] == done;
      while true
        invariant 64 <= size && p + size == |data| && size % 64 == 0 && Absorbed(done + data[..p])
        decreases size
      {
        Absorb(data[p..p + 64], done + data[..p]);
        assert done + data[..p] + data[p..p + 64] == done + data[..p + 64];
        p, size := p + 64, size - 64;
        if size == 0 {
          break;
        }
      }
      assert data[..p] == data;
    }

    /** The counter lines of MD5_hash. The result is the number of bytes buffered before. */
    method Count(size: nat) returns (used: nat)
      requires Counted(|msg|)
      modifies this`lo, this`hi
      ensures Counted(|msg| + size) && used == |msg| % 64
    {
      ghost var hi0 := hi;
      var saved := lo;
      lo := (saved + size) % TWO29;
      if lo < saved {
        hi := (hi + 1) % TWO32;
      }
      hi := (hi + size / TWO29) % TWO32;
      used := saved % 64;
      CountGrows(saved, hi0, lo, hi, size);
      CountWraps(hi0 * TWO29 + saved, |msg|, size);
      BufferedBytes(saved, hi0, |msg|);
    }

    /** MD5_hash. */
    method Hash(data: seq<Byte>)
      requires Valid()
      modifies this`regs, this`lo, this`hi, this`msg, buffer
      ensures Valid() && msg == old(msg) + data
    {
      var used := Count(|data|);
      if used != 0 && |data| < 64 - used {
        RestGrows(msg, data);
        CopyInto(buffer, used, data);
        msg := msg + data;
      } else {
        var p := Fill(used, data);
        p := WholeBlocks(p, data);
        Keep(p, data);
      }
    }

    /** The bytes after the last whole block stay in the buffer. */
    method Keep(p: nat, data: seq<Byte>)
      requires p <= |data| < p + 64 && Absorbed(msg + data[..p]) && Counted(|msg| + |data|)
      modifies this`msg, buffer
      ensures Valid() && msg == old(msg) + data
    {
      SplitAt(msg, data, p);
      CopyInto(buffer, 0, data[p..]);
      msg := msg + data;
    }

    /** The blocks that the rest of the data completes. */
    method WholeBlocks(first: nat, data: seq<Byte>) returns (p: nat)
      requires first <= |data| && Absorbed(msg + data[..first])
      modifies this`regs
      ensures p <= |data| < p + 64 && Absorbed(msg + data[..p])
    {
      p := first;
      var size := |data| - first;
      if size >= 64 {
        p := first + (size - size % 64);
        Body(data[first..p], msg + data[..first]);
        assert msg + data[..first] + data[first..p] == msg + data[..p];
      }
    }

    /** Completes the block in the buffer, if there is one. The result is the number of bytes used for that. */
    method Fill(used: nat, data: seq<Byte>) returns (p: nat)
      requires Absorbed(Whole(msg)) && used == |msg| % 64 && buffer[..used] == Rest(msg)
      requires used != 0 ==> |data| >= 64 - used
      modifies this`regs, buffer
      ensures p <= |data| && Absorbed(msg + data[..p])
    {
      if used == 0 {
        assert Whole(msg) == msg == msg + data[..0];
        return 0;
      }
      p := 64 - used;
      RestFills(msg, data[..p]);
      CopyInto(buffer, used, data[..p]);
      assert buffer[..] == Rest(msg) + data[..p];
      Body(buffer[..], Whole(msg));
      assert Whole(msg + data[..p]) == msg + data[..p];
    }

    /** MD5_end. The context is cleared afterwards. */
    method End() returns (result: seq<Byte>)
      requires Valid()
      modifies this`regs, this`lo, this`hi, buffer
      ensures result == R.Digest(Fold(f, start, R.Padded(msg)))
    {
      var used := lo % 64;
      BufferedBytes(lo, hi, |msg|);
      var length := EncodeLength();
      buffer[used] := 0x80;
      used := used + 1;
      assert buffer[..used] == Rest(msg) + [0x80];
      ghost var done := Whole(msg);
      if 64 - used < 8 {
        done := done + (Rest(msg) + ([0x80] + Zeros(64 - used)));
        FinishBlock(used);
        used := 0;
      }
      LastBlock(used, length, done);
      result := DigestOf(regs);
      Clear();
    }

    /** The current block cannot hold the length. */
    method FinishBlock(used: nat)
      requires Absorbed(Whole(msg)) && 0 < used <= 64 && buffer[..used] == Rest(msg) + [0x80]
      modifies this`regs, buffer
      ensures Absorbed(Whole(msg) + (Rest(msg) + ([0x80] + Zeros(64 - used))))
    {
      CopyInto(buffer, used, Zeros(64 - used));
      assert buffer[..] == Rest(msg) + ([0x80] + Zeros(64 - used));
      Body(buffer[..], Whole(msg));
    }

    /** The zeroes up to the length, the length, and the final block. */
    method LastBlock(used: nat, length: seq<Byte>, ghost done: seq<Byte>)
      requires used <= 56 && length == LengthField(msg) && Absorbed(done)
      requires used == 0 ==> |msg| % 64 >= 56 && done == Whole(msg) + (Rest(msg) + ([0x80] + Zeros(63 - |msg| % 64)))
      requires used != 0 ==>
        used == |msg| % 64 + 1 && done == Whole(msg) && buffer[..used] == Rest(msg) + [0x80]
      modifies this`regs, buffer
      ensures Absorbed(R.Padded(msg))
    {
      ghost var head := buffer[..used];
      CopyInto(buffer, used, Zeros(56 - used));
      CopyInto(buffer, 56, length);
      assert buffer[..] == head + Zeros(56 - used) + length;
      if used == 0 {
        assert buffer[..] == Zeros(56) + length;
        PaddedLong(msg, length);
      } else {
        assert buffer[..] == Rest(msg) + ([0x80] + Zeros(55 - |msg| % 64)) + length;
        PaddedShort(msg, length);
      }
      Body(buffer[..], done);
    }

    /** The length in bits: lo <<= 3, then eight byte stores. */
    method EncodeLength() returns (length: seq<Byte>)
      requires Counted(|msg|)
      modifies this`lo
      ensures length == LengthField(msg) && |length| == 8
    {
      LengthBytes(lo, hi, |msg|, R.LENGTH_BYTES);
      lo := lo * 8 % TWO32;
      length := Le32enc(lo) + Le32enc(hi);
    }

    /** memset of the context. */
    method Clear()
      requires buffer.Length == 64
      modifies this`regs, this`lo, this`hi, buffer
      ensures lo == hi == 0 && buffer[..] == Zeros(64) && regs == R.Regs(OfNat(0), OfNat(0), OfNat(0), OfNat(0))
    {
      regs, lo, hi := R.Regs(OfNat(0), OfNat(0), OfNat(0), OfNat(0)), 0, 0;
      CopyInto(buffer, 0, Zeros(64));
    }
  }

  ghost function LengthField(msg: seq<Byte>): seq<Byte> {
    LittleEndian(8 * |msg|, R.LENGTH_BYTES)
  }

  lemma LengthBytes(lo: nat, hi: nat, m: nat, k: nat)
    requires lo < TWO29 && hi < TWO32 && hi * TWO29 + lo == m % TWO61 && k == 8
    ensures Le32enc(lo * 8 % TWO32) + Le32enc(hi) == LittleEndian(8 * m, k)
  {
    BitsOf(lo, hi, m);
    Pow256Eight(k);
    LittleEndianWraps(TWO32 * hi + 8 * lo, m / TWO61, k);
    LittleEndianSplit(hi, 8 * lo, k - 4);
    Le32encIsBytes(hi, k - 4);
  }

  lemma BitsOf(lo: nat, hi: nat, m: nat)
    requires lo < TWO29 && hi < TWO32 && hi * TWO29 + lo == m % TWO61
    ensures 8 * m == TWO32 * hi + 8 * lo + m / TWO61 * TWO64
    ensures lo * 8 % TWO32 == 8 * lo
  {
  }

  /** The sixteen byte stores of the result. */
  method DigestOf(v: R.Regs) returns (bytes: seq<Byte>)
    ensures bytes == R.Digest(v)
  {
    ValBounded(v.a);
    ValBounded(v.b);
    ValBounded(v.c);
    ValBounded(v.d);
    Le32encIsBytes(Val(v.a), R.WORD_BYTES);
    Le32encIsBytes(Val(v.b), R.WORD_BYTES);
    Le32encIsBytes(Val(v.c), R.WORD_BYTES);
    Le32encIsBytes(Val(v.d), R.WORD_BYTES);
    bytes := Le32enc(Val(v.a)) + Le32enc(Val(v.b)) + Le32enc(Val(v.c)) + Le32enc(Val(v.d));
  }

  lemma ValBounded(w: Word)
    ensures Val(w) < TWO32
  {
    ValBelow(w);
    PowersOfTwo();
    assert Pow2(32) == 0x100 * Pow2(24);
  }

  lemma BufferedBytes(lo: nat, hi: nat, m: nat)
    requires hi * TWO29 + lo == m % TWO61
    ensures lo % 64 == m % 64
  {
    var k := m / TWO61 * (TWO61 / 64) + hi * (TWO29 / 64);
    assert m == 64 * k + lo;
  }

  /** MD5 of data that arrives in chunks, however it is cut. */
  method HashChunks(chunks: seq<seq<Byte>>) returns (result: seq<Byte>)
    ensures result == R.Md5(Flat(chunks))
  {
    var initial, g := Begin();
    result := HashFrom(initial, g, chunks);
    FromBegin(g, initial, Flat(chunks));
  }

  method HashFrom(initial: R.Regs, ghost g: (R.Regs, Block) -> R.Regs, chunks: seq<seq<Byte>>) returns (result: seq<Byte>)
    requires Computes(g, R.Compress)
    ensures result == R.Digest(Fold(g, initial, R.Padded(Flat(chunks))))
  {
    var c := new Context(initial, g);
    for i := 0 to |chunks|
      invariant c.Valid() && fresh(c) && fresh(c.buffer) && c.msg == Flat(chunks[..i])
    {
      assert chunks[..i + 1][..i] == chunks[..i];
      c.Hash(chunks[i]);
    }
    assert chunks[..|chunks|] == chunks;
    result := c.End();
  }

  /** The words that MD5_begin stores. */
  function InitialRegisters(): R.Regs {
    R.Regs(OfNat(0x67452301), OfNat(0xefcdab89), OfNat(0x98badcfe), OfNat(0x10325476))
  }

  method Begin() returns (initial: R.Regs, ghost g: (R.Regs, Block) -> R.Regs)
    ensures IsBegin(initial, g) && Computes(g, R.Compress)
  {
    initial := InitialRegisters();
    g := R.Compress;
  }

  ghost predicate IsBegin(initial: R.Regs, g: (R.Regs, Block) -> R.Regs) {
    initial == R.Start() && g == R.Compress
  }

  lemma FromBegin(g: (R.Regs, Block) -> R.Regs, initial: R.Regs, msg: seq<Byte>)
    requires IsBegin(initial, g)
    ensures R.Digest(Fold(g, initial, R.Padded(msg))) == R.Md5(msg)
  {
  }
}
