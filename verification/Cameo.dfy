/** CRC-32 as zlib computes it: the reflected polynomial, a bit at a time. */
module Crc32 {
  import opened Words

  const POLYNOMIAL: nat := 0xedb88320

  function Polynomial(): Word { OfNat(POLYNOMIAL) }
  function Ones(): Word { seq(32, _ => true) }

  /** One bit: the register is shifted, and the polynomial is added when a one falls out. */
  function BitStep(r: Word): Word {
    if r[0] then Xor(Shr(r, 1), Polynomial()) else Shr(r, 1)
  }

  function BitSteps(r: Word, n: nat): Word
    decreases n
  {
    if n == 0 then r else BitSteps(BitStep(r), n - 1)
  }

  const BYTE_BITS: nat := 8

  function ByteStep(r: Word, b: Byte): Word {
    BitSteps(Xor(r, OfNat(b)), BYTE_BITS)
  }

  /** The register after a number of bytes. */
  function Register(r: Word, data: seq<Byte>): Word
    decreases |data|
  {
    if data == [] then r else Register(ByteStep(r, data[0]), data[1..])
  }

  function Crc(data: seq<Byte>): Word {
    Xor(Register(Ones(), data), Ones())
  }

  lemma {:induction false} RegisterAppend(r: Word, a: seq<Byte>, b: seq<Byte>)
    ensures Register(r, a + b) == Register(Register(r, a), b)
    decreases |a|
  {
    if a == [] {
      assert a + b == b;
    } else {
      assert (a + b)[0] == a[0] && (a + b)[1..] == a[1..] + b;
      RegisterAppend(ByteStep(r, a[0]), a[1..], b);
    }
  }

  /** Zero bits are shifted out without a trace. */
  lemma {:induction false} ShiftOutZeros(r: Word, n: nat)
    requires n <= 32 && forall i :: 0 <= i < n ==> !r[i]
    ensures BitSteps(r, n) == Shr(r, n)
    decreases n
  {
    if n > 0 {
      ShiftOutZeros(Shr(r, 1), n - 1);
      assert Shr(Shr(r, 1), n - 1) == Shr(r, n);
    } else {
      assert Shr(r, 0) == r;
    }
  }

  /** Feeding the register its own low byte shifts that byte out. */
  lemma OwnByte(r: Word)
    ensures ByteStep(r, ByteOf(Val(r))) == Shr(r, 8)
  {
    var x := Xor(r, OfNat(ByteOf(Val(r))));
    LowByte(r);
    assert forall i :: 0 <= i < 32 ==> x[i] == (if i < 8 then false else r[i]);
    ShiftOutZeros(x, BYTE_BITS);
    assert Shr(x, 8) == Shr(r, 8);
  }

  /** The low byte of a word, as a word. */
  lemma LowByte(r: Word)
    ensures OfNat(ByteOf(Val(r))) == r[..8] + seq(24, _ => false)
  {
    var (v, b) := (Val(r), ByteOf(Val(r)));
    PowersOfTwo();
    LowBitsSmall(b, 8, WIDTH);
    LowBitsJoin(v / 256, b, BYTE_BITS, BYTE_BITS);
    LowBitsOfVal(r, BYTE_BITS);
  }

  lemma {:induction false} LowBitsOfVal(w: seq<bool>, k: nat)
    requires k <= |w|
    ensures LowBits(Val(w), k) == w[..k]
    decreases k
  {
    if k > 0 {
      assert Val(w) % 2 == Bit(w[0]) && Val(w) / 2 == Val(w[1..]);
      LowBitsOfVal(w[1..], k - 1);
      assert w[..k] == [w[0]] + w[1..][..k - 1];
    }
  }

  lemma Doubled(p: nat, v: nat, q: nat)
    requires q == 2 * p
    ensures 2 * (p * v) == q * v
  {
  }

  lemma {:induction false} ValSplit(w: seq<bool>, n: nat)
    requires n <= |w|
    ensures Val(w) == Val(w[..n]) + Pow2(n) * Val(w[n..])
    decreases n
  {
    if n == 0 {
      assert w[n..] == w;
    } else {
      ValSplit(w[1..], n - 1);
      assert w[..n][1..] == w[1..][..n - 1] && w[n..] == w[1..][n - 1..];
      assert Val(w[..n]) == Bit(w[0]) + 2 * Val(w[1..][..n - 1]);
      Doubled(Pow2(n - 1), Val(w[n..]), Pow2(n));
    }
  }

  lemma {:induction false} ValZeros(w: seq<bool>, n: nat)
    ensures Val(w + seq(n, _ => false)) == Val(w)
    decreases |w|, n
  {
    var z := w + seq(n, _ => false);
    if w != [] {
      assert z[1..] == w[1..] + seq(n, _ => false);
      ValZeros(w[1..], n);
    } else if n > 0 {
      assert z[1..] == w + seq(n - 1, _ => false);
      ValZeros(w, n - 1);
    }
  }

  lemma ShiftedVal(r: Word)
    ensures Val(Shr(r, 8)) == Val(r) / 256
  {
    PowersOfTwo();
    ValSplit(r, 8);
    ValBelow(r[..8]);
    ValZeros(r[8..], 8);
  }

  function Emptied(r: Word, k: nat): Word
    decreases k
  {
    if k == 0 then r else Emptied(Shr(r, 8), k - 1)
  }

  /** Feeding the register its own low bytes shifts them out one after the other. */
  lemma {:induction false} OwnBytes(r: Word, k: nat)
    ensures Register(r, LittleEndian(Val(r), k)) == Emptied(r, k)
    decreases k
  {
    if k > 0 {
      var data := LittleEndian(Val(r), k);
      OwnByte(r);
      ShiftedVal(r);
      assert data[0] == ByteOf(Val(r)) && data[1..] == LittleEndian(Val(Shr(r, 8)), k - 1);
      OwnBytes(Shr(r, 8), k - 1);
    }
  }

  lemma EmptiedByFour(r: Word)
    ensures Emptied(r, CRC_BYTES) == seq(32, _ => false)
  {
    var (r1, r2, r3, r4) := (Shr(r, 8), Shr(Shr(r, 8), 8), Shr(Shr(Shr(r, 8), 8), 8), Shr(Shr(Shr(Shr(r, 8), 8), 8), 8));
    assert Emptied(r, CRC_BYTES) == Emptied(r1, CRC_BYTES - 1) == Emptied(r2, CRC_BYTES - 2);
    assert Emptied(r2, CRC_BYTES - 2) == Emptied(r3, CRC_BYTES - 3) == Emptied(r4, CRC_BYTES - 4) == r4;
  }

  const CRC_BYTES: nat := 4

  /** What invertcrc appends: the complement of the CRC, which is the register itself. */
  function InvertCrc(data: seq<Byte>): (r: seq<Byte>)
    ensures |r| == 4
  {
    LittleEndian(Val(Xor(Crc(data), Ones())), CRC_BYTES)
  }

  /** The fixed point: any data followed by its inverted CRC has the CRC 0xffffffff. */
  lemma FixedPoint(data: seq<Byte>)
    ensures Crc(data + InvertCrc(data)) == Ones()
  {
    var r := Register(Ones(), data);
    assert Xor(Crc(data), Ones()) == r;
    RegisterAppend(Ones(), data, InvertCrc(data));
    OwnBytes(r, CRC_BYTES);
    EmptiedByFour(r);
  }
}

/** The uImage header that carries a CAMEO tag. */
module Cameo {
  import opened Words
  import opened Streaming
  import opened Crc32

  const TAG: seq<Byte> := [0x43, 0x41, 0x4d, 0x45, 0x4f, 0x54, 0x41, 0x47, 0x00, 0x00, 0x00, 0x01]
  const NAME: seq<Byte> := [0x4f, 0x70, 0x65, 0x6e, 0x57, 0x72, 0x74, 0x00, 0x00, 0x00, 0x00, 0x00]
  const CRC_00: seq<Byte> := [0x00, 0x00, 0x00, 0x00]
  const CRC_FF: seq<Byte> := [0xff, 0xff, 0xff, 0xff]

  function Sum(data: seq<Byte>): nat {
    if data == [] then 0 else data[0] + Sum(data[1..])
  }

  const SUM_BYTES: nat := 4

  /** The byte sum modulo 2^32, most significant byte first. */
  function CameoSum(data: seq<Byte>): (r: seq<Byte>)
    ensures |r| == 4
  {
    BytesOf(Sum(data) % 0x1_0000_0000, SUM_BYTES)
  }

  type Header = h: seq<Byte> | |h| == 64 witness seq(64, _ => 0)

  /** What the boot loader checks of a uImage header: the CRC of the header with a zero CRC field is in that field,
      here all ones whatever the byte order. */
  ghost predicate CrcHolds(h: Header) {
    h[4..8] == CRC_FF && Crc(h[..4] + CRC_00 + h[8..]) == Ones()
  }

  /** The tag is followed by the sum of everything before it. */
  ghost predicate TagHolds(h: Header) {
    h[44..56] == TAG && h[56..60] == CameoSum(h[..56])
  }

  /** checksum_header. */
  method ChecksumHeader(buf: array<Byte>)
    requires buf.Length == 64
    modifies buf
    ensures CrcHolds(buf[..]) && TagHolds(buf[..])
    ensures buf[32..44] == NAME && buf[..4] == old(buf[..4]) && buf[8..32] == old(buf[8..32])
  {
    WriteTag(buf);
    ghost var h := buf[..];
    WriteCrc(buf);
    SamePrefix(h, buf[..]);
  }

  /** The first three assignments. */
  method WriteTag(buf: array<Byte>)
    requires buf.Length == 64
    modifies buf
    ensures buf[4..8] == CRC_FF && TagHolds(buf[..])
    ensures buf[32..44] == NAME && buf[..4] == old(buf[..4]) && buf[8..32] == old(buf[8..32])
  {
    ghost var h0 := buf[..];
    CopyInto(buf, 32, NAME + TAG);
    ghost var h1 := buf[..];
    CopyInto(buf, 4, CRC_FF);
    ghost var h2 := buf[..];
    CopyInto(buf, 56, CameoSum(buf[..56]));
    Tagged(h0, h1, h2, buf[..]);
  }

  /** t is s with new bytes at a position. */
  ghost predicate Overwritten(s: seq<Byte>, at: nat, new_: seq<Byte>, t: seq<Byte>) {
    at + |new_| <= |s| && t == s[..at] + new_ + s[at + |new_|..]
  }

  /** A slice that the new bytes do not touch. */
  lemma Untouched(s: seq<Byte>, at: nat, new_: seq<Byte>, t: seq<Byte>, lo: nat, hi: nat)
    requires Overwritten(s, at, new_, t) && lo <= hi <= |s| && (hi <= at || at + |new_| <= lo)
    ensures t[lo..hi] == s[lo..hi]
  {
  }

  lemma Tagged(h0: Header, h1: Header, h2: Header, h3: Header)
    requires Overwritten(h0, 32, NAME + TAG, h1) && Overwritten(h1, 4, CRC_FF, h2)
    requires Overwritten(h2, 56, CameoSum(h2[..56]), h3)
    ensures h3[..4] == h0[..4] && h3[4..8] == CRC_FF && h3[8..32] == h0[8..32] && h3[32..44] == NAME && TagHolds(h3)
  {
    assert h1[32..44] == NAME && h1[44..56] == TAG;
    Untouched(h0, 32, NAME + TAG, h1, 0, 4);
    Untouched(h0, 32, NAME + TAG, h1, 8, 32);
    Untouched(h1, 4, CRC_FF, h2, 0, 4);
    Untouched(h1, 4, CRC_FF, h2, 8, 32);
    Untouched(h1, 4, CRC_FF, h2, 32, 44);
    Untouched(h1, 4, CRC_FF, h2, 44, 56);
    Untouched(h2, 56, CameoSum(h2[..56]), h3, 0, 56);
    Prefixes(h2, h3);
  }

  lemma Prefixes(h1: Header, h2: Header)
    requires h2[..56] == h1[..56]
    ensures h2[..4] == h1[..4] && h2[4..8] == h1[4..8] && h2[8..32] == h1[8..32]
    ensures h2[32..44] == h1[32..44] && h2[44..56] == h1[44..56]
  {
    assert h2[..4] == h2[..56][..4] && h2[4..8] == h2[..56][4..8] && h2[8..32] == h2[..56][8..32];
    assert h2[32..44] == h2[..56][32..44] && h2[44..56] == h2[..56][44..56];
  }

  lemma SamePrefix(h1: Header, h2: Header)
    requires h2[..60] == h1[..60]
    ensures h2[..4] == h1[..4] && h2[8..32] == h1[8..32] && h2[32..44] == h1[32..44]
    ensures TagHolds(h1) ==> TagHolds(h2)
  {
    assert h2[..56] == h2[..60][..56];
    assert h2[56..60] == h2[..60][56..60];
    Prefixes(h1, h2);
  }

  /** The last three assignments: the CRC field is zero while the end of the header is chosen. */
  method WriteCrc(buf: array<Byte>)
    requires buf.Length == 64 && buf[4..8] == CRC_FF
    modifies buf
    ensures CrcHolds(buf[..]) && buf[..60] == old(buf[..60])
  {
    ghost var h := buf[..];
    CopyInto(buf, 4, CRC_00);
    ghost var zeroed := buf[..60];
    assert zeroed == h[..4] + CRC_00 + h[8..60];
    var inverse := InvertCrc(buf[..60]);
    FixedPoint(zeroed);
    CopyInto(buf, 60, inverse);
    ghost var filled := buf[..];
    assert filled == zeroed + inverse;
    CopyInto(buf, 4, CRC_FF);
    Restored(h, zeroed, inverse, filled, buf[..]);
  }

  lemma Restored(h: Header, zeroed: seq<Byte>, inverse: seq<Byte>, filled: Header, end: Header)
    requires h[4..8] == CRC_FF && zeroed == h[..4] + CRC_00 + h[8..60] && |inverse| == 4 && filled == zeroed + inverse
    requires Overwritten(filled, 4, CRC_FF, end)
    ensures end[4..8] == CRC_FF && end[..4] + CRC_00 + end[8..] == zeroed + inverse && end[..60] == h[..60]
  {
    assert end[..4] == h[..4] && end[4..8] == CRC_FF && end[8..] == h[8..60] + inverse;
    assert end[..60] == h[..60] by {
      assert end[..60] == h[..4] + CRC_FF + h[8..60];
    }
  }
}
