/** 32-bit words and bytes, as SHA-256 and MD5 use them. */
module Words {

  /** A word is its bits, the least significant first. */
  type Word = w: seq<bool> | |w| == 32 witness seq(32, _ => false)

  type Byte = b: int | 0 <= b < 256

  const WIDTH: nat := 32

  const TWO64: nat := 0x1_0000_0000_0000_0000

  // ---------- numbers ----------

  function Bit(b: bool): nat { if b then 1 else 0 }

  function Val(w: seq<bool>): nat {
    if w == [] then 0 else Bit(w[0]) + 2 * Val(w[1..])
  }

  /** The low k bits of a number. */
  function LowBits(n: nat, k: nat): (r: seq<bool>)
    ensures |r| == k
  {
    if k == 0 then [] else [n % 2 == 1] + LowBits(n / 2, k - 1)
  }

  /** What an assignment to a uint32_t keeps of a number. */
  function OfNat(n: nat): Word { LowBits(n, WIDTH) }

  /** Addition of two uint32_t. */
  function Add(x: Word, y: Word): Word { LowBits(Val(x) + Val(y), |x|) }

  lemma {:induction false} LowBitsAdd(a: nat, b: nat, k: nat)
    ensures LowBits(Val(LowBits(a, k)) + b, k) == LowBits(a + b, k)
    decreases k
  {
    if k > 0 {
      var v := Val(LowBits(a / 2, k - 1));
      assert LowBits(a, k)[1..] == LowBits(a / 2, k - 1);
      assert Val(LowBits(a, k)) == a % 2 + 2 * v;
      var c := (a % 2 + b) / 2;
      assert (a % 2 + 2 * v + b) / 2 == v + c && (a + b) / 2 == a / 2 + c;
      assert (a % 2 + 2 * v + b) % 2 == (a + b) % 2;
      LowBitsAdd(a / 2, c, k - 1);
    }
  }

  lemma AddAssociates(x: Word, y: Word, z: Word)
    ensures Add(Add(x, y), z) == Add(x, Add(y, z))
  {
    LowBitsAdd(Val(x) + Val(y), Val(z), |x|);
    LowBitsAdd(Val(y) + Val(z), Val(x), |x|);
  }

  lemma AddCommutes(x: Word, y: Word)
    ensures Add(x, y) == Add(y, x)
  {
  }

  // ---------- bitwise operations ----------

  function Not(x: Word): Word { seq(32, i requires 0 <= i < 32 => !x[i]) }
  function And(x: Word, y: Word): Word { seq(32, i requires 0 <= i < 32 => x[i] && y[i]) }
  function Or(x: Word, y: Word): Word { seq(32, i requires 0 <= i < 32 => x[i] || y[i]) }
  function Xor(x: Word, y: Word): Word { seq(32, i requires 0 <= i < 32 => x[i] != y[i]) }

  function Shr(x: Word, n: nat): Word
    requires n <= 32
  {
    x[n..] + seq(n, _ => false)
  }

  function Shl(x: Word, n: nat): Word
    requires n <= 32
  {
    seq(n, _ => false) + x[..32 - n]
  }

  function Rotr(x: Word, n: nat): Word
    requires n <= 32
  {
    Or(Shr(x, n), Shl(x, 32 - n))
  }

  function Rotl(x: Word, n: nat): Word
    requires n <= 32
  {
    Or(Shl(x, n), Shr(x, 32 - n))
  }

  // ---------- bytes ----------

  /** The number that four bytes denote, the first the most significant. */
  function BigEndian(b0: nat, b1: nat, b2: nat, b3: nat): nat {
    b0 * 0x100_0000 + b1 * 0x1_0000 + b2 * 0x100 + b3
  }

  function ByteOf(n: nat): Byte { n % 256 }

  /** The low k bytes of a number, the most significant first. */
  function BytesOf(n: nat, k: nat): (r: seq<Byte>)
    ensures |r| == k
  {
    if k == 0 then [] else BytesOf(n / 256, k - 1) + [ByteOf(n)]
  }

  function Pow256(k: nat): nat {
    if k == 0 then 1 else 256 * Pow256(k - 1)
  }

  /** The low k bytes of a number, the least significant first. */
  function LittleEndian(n: nat, k: nat): (r: seq<Byte>)
    ensures |r| == k
  {
    if k == 0 then [] else [ByteOf(n)] + LittleEndian(n / 256, k - 1)
  }

  lemma {:induction false} LittleEndianWraps(n: nat, q: nat, k: nat)
    ensures LittleEndian(n + q * Pow256(k), k) == LittleEndian(n, k)
    decreases k
  {
    if k > 0 {
      var m := q * Pow256(k - 1);
      assert q * Pow256(k) == 256 * m;
      assert (n + 256 * m) / 256 == n / 256 + m && (n + 256 * m) % 256 == n % 256;
      LittleEndianWraps(n / 256, q, k - 1);
    }
  }

  lemma LittleEndianByte(n: nat, b: Byte, k: nat)
    ensures LittleEndian(256 * n + (b as nat), k + 1) == [b] + LittleEndian(n, k)
  {
    var m: nat := 256 * n + b;
    assert m / 256 == n && m % 256 == b;
  }

  /** The bytes that shifts by 0, 8, 16 and 24 bits store of a uint32_t. */
  function Le32enc(u: nat): (r: seq<Byte>)
    ensures |r| == 4
  {
    [u % 0x100, u / 0x100 % 0x100, u / 0x1_0000 % 0x100, u / 0x100_0000 % 0x100]
  }

  lemma TwoBytesLittle(hi: nat, b1: Byte, b0: Byte, k: nat)
    ensures LittleEndian(0x1_0000 * hi + 256 * (b1 as nat) + (b0 as nat), k + 2) == [b0, b1] + LittleEndian(hi, k)
  {
    var n1: nat := 256 * hi + b1;
    LittleEndianByte(hi, b1, k);
    LittleEndianByte(n1, b0, k + 1);
    assert [b0] + ([b1] + LittleEndian(hi, k)) == [b0, b1] + LittleEndian(hi, k);
  }

  lemma FourBytesLittle(hi: nat, b3: Byte, b2: Byte, b1: Byte, b0: Byte, k: nat)
    ensures LittleEndian(0x1_0000_0000 * hi + BigEndian(b3, b2, b1, b0), k + 4) == [b0, b1, b2, b3] + LittleEndian(hi, k)
  {
    var n2: nat := 0x1_0000 * hi + 256 * b3 + b2;
    assert 0x1_0000_0000 * hi + BigEndian(b3, b2, b1, b0) == 0x1_0000 * n2 + 256 * (b1 as nat) + (b0 as nat);
    TwoBytesLittle(hi, b3, b2, k);
    TwoBytesLittle(n2, b1, b0, k + 2);
    assert [b0, b1] + ([b2, b3] + LittleEndian(hi, k)) == [b0, b1, b2, b3] + LittleEndian(hi, k);
  }

  lemma LittleEndianSplit(hi: nat, lo: nat, k: nat)
    requires lo < 0x1_0000_0000
    ensures LittleEndian(0x1_0000_0000 * hi + lo, k + 4) == Le32enc(lo) + LittleEndian(hi, k)
  {
    var (b3, b2, b1, b0) := (lo / 0x100_0000 % 0x100, lo / 0x1_0000 % 0x100, lo / 0x100 % 0x100, lo % 0x100);
    BigEndianOf(lo);
    assert Le32enc(lo) == [b0, b1, b2, b3];
    FourBytesLittle(hi, b3, b2, b1, b0, k);
  }

  lemma Le32encIsBytes(u: nat, k: nat)
    requires u < 0x1_0000_0000 && k == 4
    ensures Le32enc(u) == LittleEndian(u, k)
  {
    LittleEndianSplit(0, u, k - 4);
  }

  lemma Pow256Eight(k: nat)
    requires k == 8
    ensures Pow256(k) == TWO64
  {
    assert Pow256(8) == TWO64;
  }

  /** Multiples of 256^k do not show in the low k bytes. */
  lemma {:induction false} BytesOfWraps(n: nat, q: nat, k: nat)
    ensures BytesOf(n + q * Pow256(k), k) == BytesOf(n, k)
    decreases k
  {
    if k > 0 {
      var m := q * Pow256(k - 1);
      assert q * Pow256(k) == 256 * m;
      assert (n + 256 * m) / 256 == n / 256 + m && (n + 256 * m) % 256 == n % 256;
      BytesOfWraps(n / 256, q, k - 1);
    }
  }

  /** be32enc. */
  function Be32enc(u: nat): (r: seq<Byte>)
    ensures |r| == 4
  {
    [u / 0x100_0000 % 0x100, u / 0x1_0000 % 0x100, u / 0x100 % 0x100, u % 0x100]
  }

  /** be64enc. */
  function Be64enc(u: nat): (r: seq<Byte>)
    ensures |r| == 8
  {
    Be32enc(u / 0x1_0000_0000) + Be32enc(u % 0x1_0000_0000)
  }

  lemma Be32encIsBytes(u: nat, k: nat)
    requires k == 4
    ensures Be32enc(u) == BytesOf(u, k)
  {
    var (u1, u2) := (u / 256, u / 256 / 256);
    assert u1 / 256 == u2 && u2 == u / 0x1_0000;
    assert u2 / 256 == u / 0x100_0000;
    assert BytesOf(u, k) == BytesOf(u1, k - 1) + [ByteOf(u)];
    assert BytesOf(u1, k - 1) == BytesOf(u2, k - 2) + [ByteOf(u1)];
    assert BytesOf(u2, k - 2) == BytesOf(u2 / 256, k - 3) + [ByteOf(u2)];
    assert BytesOf(u2 / 256, k - 3) == [ByteOf(u2 / 256)];
  }

  lemma Be64encIsBytes(u: nat, k: nat)
    requires k == 8
    ensures Be64enc(u) == BytesOf(u, k)
  {
    var (hi, lo) := (u / 0x1_0000_0000, u % 0x1_0000_0000);
    Be32encIsBytes(hi, k - 4);
    BytesOfSplit(hi, lo, k - 4);
  }

  lemma BytesOfByte(n: nat, b: Byte, k: nat)
    ensures BytesOf(256 * n + (b as nat), k + 1) == BytesOf(n, k) + [b]
  {
    var m: nat := 256 * n + b;
    assert m / 256 == n && m % 256 == b;
  }

  lemma FourBytes(hi: nat, b3: Byte, b2: Byte, b1: Byte, b0: Byte, k: nat)
    ensures 0x1_0000_0000 * hi + BigEndian(b3, b2, b1, b0) ==
      256 * (256 * (256 * (256 * hi + (b3 as nat)) + (b2 as nat)) + (b1 as nat)) + (b0 as nat)
    ensures BytesOf(0x1_0000_0000 * hi + BigEndian(b3, b2, b1, b0), k + 4) == BytesOf(hi, k) + [b3, b2, b1, b0]
  {
    BytesOfByte(hi, b3, k);
    BytesOfByte(256 * hi + b3, b2, k + 1);
    BytesOfByte(256 * (256 * hi + b3) + b2, b1, k + 2);
    BytesOfByte(256 * (256 * (256 * hi + b3) + b2) + b1, b0, k + 3);
  }

  lemma BigEndianOf(u: nat)
    requires u < 0x1_0000_0000
    ensures BigEndian(u / 0x100_0000 % 0x100, u / 0x1_0000 % 0x100, u / 0x100 % 0x100, u % 0x100) == u
  {
    var (u1, u2, u3) := (u / 0x100, u / 0x1_0000, u / 0x100_0000);
    assert u == 256 * u1 + u % 256;
    assert u1 == 256 * u2 + u1 % 256;
    assert u2 == 256 * u3 + u2 % 256;
    assert u3 % 256 == u3;
  }

  lemma FourBytesOf(hi: nat, lo: nat, b3: Byte, b2: Byte, b1: Byte, b0: Byte, k: nat)
    requires lo == BigEndian(b3, b2, b1, b0)
    ensures BytesOf(0x1_0000_0000 * hi + lo, k + 4) == BytesOf(hi, k) + [b3, b2, b1, b0]
  {
    FourBytes(hi, b3, b2, b1, b0, k);
  }

  /** Four bytes more. */
  lemma BytesOfSplit(hi: nat, lo: nat, k: nat)
    requires lo < 0x1_0000_0000
    ensures BytesOf(0x1_0000_0000 * hi + lo, k + 4) == BytesOf(hi, k) + Be32enc(lo)
  {
    var (b3, b2, b1, b0) := (lo / 0x100_0000 % 0x100, lo / 0x1_0000 % 0x100, lo / 0x100 % 0x100, lo % 0x100);
    BigEndianOf(lo);
    assert Be32enc(lo) == [b3, b2, b1, b0];
    FourBytesOf(hi, lo, b3, b2, b1, b0, k);
  }

  lemma OrCommutes(x: Word, y: Word)
    ensures Or(x, y) == Or(y, x)
  {
  }

  lemma PowersOfTwo()
    ensures Pow2(8) == 0x100 && Pow2(16) == 0x1_0000 && Pow2(24) == 0x100_0000
  {
  }

  /** The same with the operands of the or exchanged. */
  lemma OrShift(lo: nat, hi: nat, n: nat)
    requires lo < Pow2(n) && n <= 32
    ensures Or(OfNat(lo), Shl(OfNat(hi), n)) == OfNat(hi * Pow2(n) + lo)
  {
    OrCommutes(OfNat(lo), Shl(OfNat(hi), n));
    ShiftOr(hi, lo, n);
  }

  function Zeros(n: nat): (r: seq<Byte>)
    ensures |r| == n
  {
    seq(n, _ => 0)
  }

  lemma {:induction false} LowBitsZero(k: nat)
    ensures LowBits(0, k) == seq(k, _ => false)
  {
    if k > 0 {
      LowBitsZero(k - 1);
    }
  }

  function Pow2(n: nat): (r: nat)
    ensures r > 0
  {
    if n == 0 then 1 else 2 * Pow2(n - 1)
  }

  lemma {:induction false} ValBelow(w: seq<bool>)
    ensures Val(w) < Pow2(|w|)
  {
    if w != [] {
      ValBelow(w[1..]);
    }
  }

  /** The bits of a * 2^n + b for b below 2^n. */
  lemma {:induction false} LowBitsJoin(a: nat, b: nat, n: nat, k: nat)
    requires b < Pow2(n) && n <= k
    ensures LowBits(a * Pow2(n) + b, k) == LowBits(b, n) + LowBits(a, k - n)
    decreases n
  {
    if n == 0 {
      assert a * Pow2(n) + b == a;
    } else {
      var m := a * Pow2(n) + b;
      assert m == 2 * (a * Pow2(n - 1)) + b by {
        assert a * (2 * Pow2(n - 1)) == 2 * (a * Pow2(n - 1));
      }
      assert m % 2 == b % 2 && m / 2 == a * Pow2(n - 1) + b / 2;
      LowBitsJoin(a, b / 2, n - 1, k - 1);
    }
  }

  lemma {:induction false} LowBitsSmall(b: nat, n: nat, k: nat)
    requires b < Pow2(n) && n <= k
    ensures LowBits(b, k) == LowBits(b, n) + seq(k - n, _ => false)
  {
    LowBitsJoin(0, b, n, k);
    LowBitsZero(k - n);
  }

  lemma {:induction false} LowBitsPrefix(a: nat, n: nat, k: nat)
    requires n <= k
    ensures LowBits(a, k)[..n] == LowBits(a, n)
  {
    if n > 0 {
      LowBitsPrefix(a / 2, n - 1, k - 1);
    }
  }

  lemma OrParts(x: Word, y: Word, lo: seq<bool>, n: nat)
    requires n <= 32 && |lo| == n && y == lo + seq(32 - n, _ => false)
    ensures Or(Shl(x, n), y) == lo + x[..32 - n]
  {
  }

  /** A shift to the left and an or put numbers next to each other. */
  lemma ShiftOr(a: nat, b: nat, n: nat)
    requires b < Pow2(n) && n <= 32
    ensures Or(Shl(OfNat(a), n), OfNat(b)) == OfNat(a * Pow2(n) + b)
  {
    LowBitsJoin(a, b, n, WIDTH);
    LowBitsSmall(b, n, WIDTH);
    LowBitsPrefix(a, WIDTH - n, WIDTH);
    OrParts(OfNat(a), OfNat(b), LowBits(b, n), n);
  }
}
