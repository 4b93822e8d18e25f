/** What words and their operations mean as numbers and bits, and where the constants of the standards come from. */
module WordLaws {
  import opened Words
  import F = Fips180
  import R = Rfc1321
  import C = Crc32
  import Streaming
  import Cameo

  // ---------- numbers ----------

  lemma HalfMod(n: nat, m: nat)
    requires m > 0
    ensures n % (2 * m) == n % 2 + 2 * (n / 2 % m)
  {
    var (h, q, s) := (n / 2, n / 2 / m, n / 2 % m);
    assert h == m * q + s;
    assert n == 2 * m * q + (n % 2 + 2 * s) by {
      assert 2 * (m * q) == 2 * m * q;
    }
    DivisionUnique(n, 2 * m, q, n % 2 + 2 * s);
  }

  lemma AtLeast(m: nat, d: nat)
    requires d >= 1
    ensures m * d >= m
  {
  }

  lemma SameRemainder(m: nat, q: nat, r: nat, q': nat, r': nat)
    requires m * q + r == m * q' + r' && r < m && r' < m
    ensures r == r'
  {
    if q < q' {
      Larger(m, q, r, q');
    } else if q' < q {
      Larger(m, q', r', q);
    }
  }

  lemma Larger(m: nat, q: nat, r: nat, q': nat)
    requires q < q' && r < m
    ensures m * q + r < m * q'
  {
    AtLeast(m, q' - q);
    assert m * (q' - q) == m * q' - m * q;
  }

  lemma DivisionUnique(n: nat, m: nat, q: nat, r: nat)
    requires m > 0 && n == m * q + r && r < m
    ensures n % m == r
  {
    SameRemainder(m, q, r, n / m, n % m);
  }

  /** The low k bits of a number are the number modulo 2^k. */
  lemma {:induction false} LowBitsValue(n: nat, k: nat)
    ensures Val(LowBits(n, k)) == n % Pow2(k)
    decreases k
  {
    if k > 0 {
      LowBitsValue(n / 2, k - 1);
      assert LowBits(n, k)[1..] == LowBits(n / 2, k - 1);
      HalfMod(n, Pow2(k - 1));
    }
  }

  lemma WordSize()
    ensures Pow2(WIDTH) == 0x1_0000_0000
  {
    PowersOfTwo();
    assert Pow2(26) == 4 * Pow2(24) && Pow2(28) == 4 * Pow2(26) && Pow2(30) == 4 * Pow2(28) && Pow2(32) == 4 * Pow2(30);
  }

  /** Addition wraps around at 2^32. */
  lemma AddWraps(x: Word, y: Word)
    ensures Val(Add(x, y)) == (Val(x) + Val(y)) % 0x1_0000_0000
  {
    LowBitsValue(Val(x) + Val(y), WIDTH);
    WordSize();
  }

  lemma OfNatValue(n: nat)
    requires n < 0x1_0000_0000
    ensures Val(OfNat(n)) == n
  {
    LowBitsValue(n, WIDTH);
    WordSize();
  }

  // ---------- bits ----------

  /** A rotation by n moves every bit by n places, and none is lost. */
  lemma Rotates(x: Word, n: nat, i: nat)
    requires n <= 32 && i < 32
    ensures Rotr(x, n)[i] == x[(i + n) % 32] && Rotl(x, n)[(i + n) % 32] == x[i]
  {
    if i + n < 32 {
      assert (i + n) % 32 == i + n;
    } else if i + n < 64 {
      assert (i + n) % 32 == i + n - 32;
    }
  }

  /** A shift moves them too, and lets zeros in. */
  lemma Shifts(x: Word, n: nat, i: nat)
    requires n <= 32 && i < 32
    ensures Shr(x, n)[i] == (i + n < 32 && x[i + n])
    ensures Shl(x, n)[i] == (i >= n && x[i - n])
  {
  }

  /** The bytes of a number denote it modulo 256^k, in either order. */
  function Denoted(bytes: seq<Byte>): nat {
    if bytes == [] then 0 else bytes[0] + 256 * Denoted(bytes[1..])
  }

  function Reversed(bytes: seq<Byte>): (r: seq<Byte>)
    ensures |r| == |bytes|
  {
    if bytes == [] then [] else Reversed(bytes[1..]) + [bytes[0]]
  }

  lemma {:induction false} LittleEndianDenotes(n: nat, k: nat)
    requires n < Pow256(k)
    ensures Denoted(LittleEndian(n, k)) == n
    decreases k
  {
    if k > 0 {
      assert n / 256 < Pow256(k - 1);
      LittleEndianDenotes(n / 256, k - 1);
      assert LittleEndian(n, k)[1..] == LittleEndian(n / 256, k - 1);
    }
  }

  lemma {:induction false} BytesOfReversed(n: nat, k: nat)
    ensures BytesOf(n, k) == Reversed(LittleEndian(n, k))
    decreases k
  {
    if k > 0 {
      BytesOfReversed(n / 256, k - 1);
      assert LittleEndian(n, k)[1..] == LittleEndian(n / 256, k - 1);
    }
  }

  // ---------- the constants of SHA-256 ----------

  /** The first 64 primes. */
  const P0: seq<nat> := [2, 3, 5, 7, 11, 13, 17, 19]
  const P1: seq<nat> := [23, 29, 31, 37, 41, 43, 47, 53]
  const P2: seq<nat> := [59, 61, 67, 71, 73, 79, 83, 89]
  const P3: seq<nat> := [97, 101, 103, 107, 109, 113, 127, 131]
  const P4: seq<nat> := [137, 139, 149, 151, 157, 163, 167, 173]
  const P5: seq<nat> := [179, 181, 191, 193, 197, 199, 211, 223]
  const P6: seq<nat> := [227, 229, 233, 239, 241, 251, 257, 263]
  const P7: seq<nat> := [269, 271, 277, 281, 283, 293, 307, 311]
  const PRIMES: seq<nat> := P0 + P1 + P2 + P3 + P4 + P5 + P6 + P7

  /** q.k, with 32 binary places behind the point, is the cube root of p rounded down. */
  predicate CubeRoot(p: nat, q: nat, k: nat) {
    var c := q * 0x1_0000_0000 + k;
    k < 0x1_0000_0000 && c * c * c <= p * 0x1_0000_0000_0000_0000_0000_0000 < (c + 1) * (c + 1) * (c + 1)
  }

  predicate SquareRoot(p: nat, q: nat, k: nat) {
    var c := q * 0x1_0000_0000 + k;
    k < 0x1_0000_0000 && c * c <= p * 0x1_0000_0000_0000_0000 < (c + 1) * (c + 1)
  }

  /** The whole part of the cube root of a prime of the list. */
  function Whole(p: nat): nat {
    if p < 8 then 1 else if p < 27 then 2 else if p < 64 then 3 else if p < 125 then 4 else if p < 216 then 5 else 6
  }

  predicate Rooted(ps: seq<nat>, ks: seq<nat>, i: nat) {
    i < |ps| && i < |ks| && CubeRoot(ps[i], Whole(ps[i]), ks[i])
  }

  predicate RowRooted(ps: seq<nat>, ks: seq<nat>) {
    |ps| == |ks| == 8 && forall i :: 0 <= i < 8 ==> Rooted(ps, ks, i)
  }

  lemma Roots0()
    ensures RowRooted(P0, F.K0)
  {
    assert Rooted(P0, F.K0, 0) && Rooted(P0, F.K0, 1) && Rooted(P0, F.K0, 2) && Rooted(P0, F.K0, 3);
    assert Rooted(P0, F.K0, 4) && Rooted(P0, F.K0, 5) && Rooted(P0, F.K0, 6) && Rooted(P0, F.K0, 7);
  }

  lemma Roots1()
    ensures RowRooted(P1, F.K1)
  {
    assert Rooted(P1, F.K1, 0) && Rooted(P1, F.K1, 1) && Rooted(P1, F.K1, 2) && Rooted(P1, F.K1, 3);
    assert Rooted(P1, F.K1, 4) && Rooted(P1, F.K1, 5) && Rooted(P1, F.K1, 6) && Rooted(P1, F.K1, 7);
  }

  lemma Roots2()
    ensures RowRooted(P2, F.K2)
  {
    assert Rooted(P2, F.K2, 0) && Rooted(P2, F.K2, 1) && Rooted(P2, F.K2, 2) && Rooted(P2, F.K2, 3);
    assert Rooted(P2, F.K2, 4) && Rooted(P2, F.K2, 5) && Rooted(P2, F.K2, 6) && Rooted(P2, F.K2, 7);
  }

  lemma Roots3()
    ensures RowRooted(P3, F.K3)
  {
    assert Rooted(P3, F.K3, 0) && Rooted(P3, F.K3, 1) && Rooted(P3, F.K3, 2) && Rooted(P3, F.K3, 3);
    assert Rooted(P3, F.K3, 4) && Rooted(P3, F.K3, 5) && Rooted(P3, F.K3, 6) && Rooted(P3, F.K3, 7);
  }

  lemma Roots4()
    ensures RowRooted(P4, F.K4)
  {
    assert Rooted(P4, F.K4, 0) && Rooted(P4, F.K4, 1) && Rooted(P4, F.K4, 2) && Rooted(P4, F.K4, 3);
    assert Rooted(P4, F.K4, 4) && Rooted(P4, F.K4, 5) && Rooted(P4, F.K4, 6) && Rooted(P4, F.K4, 7);
  }

  lemma Roots5()
    ensures RowRooted(P5, F.K5)
  {
    assert Rooted(P5, F.K5, 0) && Rooted(P5, F.K5, 1) && Rooted(P5, F.K5, 2) && Rooted(P5, F.K5, 3);
    assert Rooted(P5, F.K5, 4) && Rooted(P5, F.K5, 5) && Rooted(P5, F.K5, 6) && Rooted(P5, F.K5, 7);
  }

  lemma Roots6()
    ensures RowRooted(P6, F.K6)
  {
    assert Rooted(P6, F.K6, 0) && Rooted(P6, F.K6, 1) && Rooted(P6, F.K6, 2) && Rooted(P6, F.K6, 3);
    assert Rooted(P6, F.K6, 4) && Rooted(P6, F.K6, 5) && Rooted(P6, F.K6, 6) && Rooted(P6, F.K6, 7);
  }

  lemma Roots7()
    ensures RowRooted(P7, F.K7)
  {
    assert Rooted(P7, F.K7, 0) && Rooted(P7, F.K7, 1) && Rooted(P7, F.K7, 2) && Rooted(P7, F.K7, 3);
    assert Rooted(P7, F.K7, 4) && Rooted(P7, F.K7, 5) && Rooted(P7, F.K7, 6) && Rooted(P7, F.K7, 7);
  }

  /** Rows of roots, one behind the other. */
  lemma RootedBehind(ps: seq<nat>, ks: seq<nat>, row: seq<nat>, roots: seq<nat>)
    requires |ps| == |ks| && (forall i :: 0 <= i < |ps| ==> Rooted(ps, ks, i)) && RowRooted(row, roots)
    ensures |ps + row| == |ks + roots| == |ps| + 8
    ensures forall i :: 0 <= i < |ps + row| ==> Rooted(ps + row, ks + roots, i)
  {
    forall i | 0 <= i < |ps + row|
      ensures Rooted(ps + row, ks + roots, i)
    {
      assert i < |ps| ==> Rooted(ps, ks, i);
      assert i >= |ps| ==> Rooted(row, roots, i - |ps|);
    }
  }

  /** The round constants are the first 32 bits of the fractional parts of the cube roots of the first 64 primes, as
      section 4.2.2 of FIPS 180-4 says. */
  lemma ConstantsAreRoots()
    ensures |PRIMES| == |F.K| == 64 && forall t :: 0 <= t < 64 ==> Rooted(PRIMES, F.K, t)
  {
    Roots0();
    Roots1();
    RootedBehind(P0, F.K0, P1, F.K1);
    var (p1, k1) := (P0 + P1, F.K0 + F.K1);
    Roots2();
    RootedBehind(p1, k1, P2, F.K2);
    var (p2, k2) := (p1 + P2, k1 + F.K2);
    Roots3();
    RootedBehind(p2, k2, P3, F.K3);
    var (p3, k3) := (p2 + P3, k2 + F.K3);
    Roots4();
    RootedBehind(p3, k3, P4, F.K4);
    var (p4, k4) := (p3 + P4, k3 + F.K4);
    Roots5();
    RootedBehind(p4, k4, P5, F.K5);
    var (p5, k5) := (p4 + P5, k4 + F.K5);
    Roots6();
    RootedBehind(p5, k5, P6, F.K6);
    var (p6, k6) := (p5 + P6, k5 + F.K6);
    Roots7();
    RootedBehind(p6, k6, P7, F.K7);
  }

  /** The initial hash value consists of those of the square roots of the first eight, section 5.3.3. */
  lemma InitialValueIsRoots()
    ensures |F.H| == 8 && SquareRoot(2, 1, F.H[0]) && SquareRoot(3, 1, F.H[1]) && SquareRoot(5, 2, F.H[2])
    ensures SquareRoot(7, 2, F.H[3]) && SquareRoot(11, 3, F.H[4]) && SquareRoot(13, 3, F.H[5])
    ensures SquareRoot(17, 4, F.H[6]) && SquareRoot(19, 4, F.H[7])
  {
  }

  // ---------- the polynomial of the CRC ----------

  lemma PowersOfEight()
    ensures Pow2(5) == 0x20 && Pow2(8) == 0x100 && Pow2(9) == 0x200 && Pow2(15) == 0x8000 && Pow2(19) == 0x8_0000
    ensures Pow2(20) == 0x10_0000 && Pow2(21) == 0x20_0000 && Pow2(23) == 0x80_0000 && Pow2(24) == 0x100_0000
    ensures Pow2(26) == 0x400_0000 && Pow2(27) == 0x800_0000 && Pow2(29) == 0x2000_0000
    ensures Pow2(30) == 0x4000_0000 && Pow2(31) == 0x8000_0000
  {
    assert Pow2(2) == 4 && Pow2(5) == 8 * Pow2(2) && Pow2(8) == 8 * Pow2(5) && Pow2(11) == 8 * Pow2(8);
    assert Pow2(14) == 8 * Pow2(11) && Pow2(17) == 8 * Pow2(14) && Pow2(20) == 8 * Pow2(17);
    assert Pow2(23) == 8 * Pow2(20) && Pow2(26) == 8 * Pow2(23) && Pow2(29) == 8 * Pow2(26);
  }

  /** The polynomial is that of IEEE 802.3, x^32 left out, with the coefficient of x^k in bit 31 - k. */
  lemma PolynomialPowers()
    ensures C.POLYNOMIAL ==
      Pow2(31 - 26) + Pow2(31 - 23) + Pow2(31 - 22) + Pow2(31 - 16) + Pow2(31 - 12) + Pow2(31 - 11) + Pow2(31 - 10)
      + Pow2(31 - 8) + Pow2(31 - 7) + Pow2(31 - 5) + Pow2(31 - 4) + Pow2(31 - 2) + Pow2(31 - 1) + Pow2(31 - 0)
  {
    PowersOfEight();
  }

  /** One step moves the bits down by one, and adds the polynomial when a one falls out at the bottom. */
  lemma StepDivides(r: Word, i: nat)
    requires i < 32
    ensures C.BitStep(r)[i] == ((i < 31 && r[i + 1]) != (r[0] && C.Polynomial()[i]))
  {
  }

  /** The CRC of no data is zero. */
  lemma CrcOfNothing()
    ensures Val(C.Crc([])) == 0
  {
    var zeros := Xor(C.Ones(), C.Ones());
    assert C.Crc([]) == zeros && zeros == seq(32, _ => false);
    LowBitsZero(32);
    OfNatValue(0);
  }

  // ---------- the byte sum of the CAMEO tag ----------

  lemma {:induction false} SumAppend(a: seq<Byte>, b: seq<Byte>)
    ensures Cameo.Sum(a + b) == Cameo.Sum(a) + Cameo.Sum(b) && forall x: Byte :: Cameo.Sum([x]) == x
  {
    assert forall x: Byte :: [x][1..] == [];
    if a == [] {
      assert a + b == b;
    } else {
      assert (a + b)[0] == a[0] && (a + b)[1..] == a[1..] + b;
      SumAppend(a[1..], b);
    }
  }

  /** The four bytes in the tag denote the sum of the bytes modulo 2^32, the most significant first. */
  lemma SumDenotes(data: seq<Byte>)
    ensures Denoted(Reversed(Cameo.CameoSum(data))) == Cameo.Sum(data) % 0x1_0000_0000
  {
    var n := Cameo.Sum(data) % 0x1_0000_0000;
    BytesOfReversed(n, 4);
    ReversedTwice(LittleEndian(n, 4));
    assert Pow256(4) == 0x1_0000_0000;
    LittleEndianDenotes(n, 4);
  }

  lemma {:induction false} ReversedTwice(bytes: seq<Byte>)
    ensures Reversed(Reversed(bytes)) == bytes
  {
    if bytes != [] {
      ReversedTwice(bytes[1..]);
      ReversedLast(Reversed(bytes[1..]), bytes[0]);
    }
  }

  lemma {:induction false} ReversedLast(bytes: seq<Byte>, b: Byte)
    ensures Reversed(bytes + [b]) == [b] + Reversed(bytes)
  {
    if bytes == [] {
      assert bytes + [b] == [b] && [b][1..] == [];
    } else {
      assert (bytes + [b])[0] == bytes[0] && (bytes + [b])[1..] == bytes[1..] + [b];
      ReversedLast(bytes[1..], b);
    }
  }

  // ---------- padding ----------

  /** A message is padded by the byte 0x80, as few zeros as possible, and its length in bits: eight bytes, the most
      significant first for SHA-256 and the least significant first for MD5. */
  lemma PaddingIs(msg: seq<Byte>, zeros: nat)
    requires zeros < 64 && (|msg| + 1 + zeros + 8) % 64 == 0
    ensures F.Padded(msg) == msg + [0x80] + seq(zeros, _ => 0) + BytesOf(8 * |msg|, 8)
    ensures R.Padded(msg) == msg + [0x80] + seq(zeros, _ => 0) + LittleEndian(8 * |msg|, 8)
  {
    assert (55 - |msg|) % 64 == zeros;
    assert Zeros(zeros) == seq(zeros, _ => 0);
  }
}
