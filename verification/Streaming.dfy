/** What SHA-256 and MD5 have in common: a compression function folded over the 64-byte blocks of a message. */
module Streaming {
  import opened Words

  type Block = b: seq<Byte> | |b| == 64 witness seq(64, _ => 0)

  /** The state after all blocks of a message of whole blocks. */
  function Fold<S>(f: (S, Block) -> S, h: S, bytes: seq<Byte>): S
    requires |bytes| % 64 == 0
    decreases |bytes|
  {
    if bytes == [] then h else Fold(f, f(h, bytes[..64]), bytes[64..])
  }

  lemma {:induction false} FoldAppend<S>(f: (S, Block) -> S, h: S, a: seq<Byte>, b: seq<Byte>)
    requires |a| % 64 == 0 && |b| % 64 == 0
    ensures |a + b| % 64 == 0 && Fold(f, h, a + b) == Fold(f, Fold(f, h, a), b)
    decreases |a|
  {
    if a == [] {
      assert a + b == b;
    } else {
      assert (a + b)[..64] == a[..64] && (a + b)[64..] == a[64..] + b;
      FoldAppend(f, f(h, a[..64]), a[64..], b);
    }
  }

  lemma FoldBlock<S>(f: (S, Block) -> S, h: S, a: seq<Byte>, block: Block)
    requires |a| % 64 == 0
    ensures |a + block| % 64 == 0 && Fold(f, h, a + block) == f(Fold(f, h, a), block)
  {
    FoldAppend(f, h, a, block);
    assert block[..64] == block && block[64..] == [];
  }

  /** Names the compressions that a proof looks into. */
  ghost predicate Due<S>(h: S, block: Block) { true }

  /** f and g are the same compression function. */
  ghost predicate Computes<S(!new)>(f: (S, Block) -> S, g: (S, Block) -> S) {
    forall h, b {:trigger Due(h, b)} :: Due(h, b) ==> f(h, b) == g(h, b)
  }

  lemma {:induction false} FoldComputes<S(!new)>(f: (S, Block) -> S, g: (S, Block) -> S, h: S, bytes: seq<Byte>)
    requires |bytes| % 64 == 0 && Computes(f, g)
    ensures Fold(f, h, bytes) == Fold(g, h, bytes)
    decreases |bytes|
  {
    if bytes != [] {
      assert Due(h, bytes[..64]);
      FoldComputes(f, g, f(h, bytes[..64]), bytes[64..]);
    }
  }

  /** The part of a message that fills whole blocks, and the rest. */
  function Whole(msg: seq<Byte>): (r: seq<Byte>)
    ensures |r| % 64 == 0
  {
    msg[..|msg| - |msg| % 64]
  }

  function Rest(msg: seq<Byte>): (r: seq<Byte>)
    ensures |r| == |msg| % 64
  {
    msg[|msg| - |msg| % 64..]
  }

  /** The rest and the next bytes together, when they do not fill a block. */
  lemma RestGrows(msg: seq<Byte>, next: seq<Byte>)
    requires |Rest(msg)| + |next| < 64
    ensures Whole(msg + next) == Whole(msg) && Rest(msg + next) == Rest(msg) + next
  {
    assert |msg + next| % 64 == |msg| % 64 + |next|;
  }

  /** The rest and the next bytes together, when they fill one. */
  lemma RestFills(msg: seq<Byte>, next: seq<Byte>)
    requires |Rest(msg)| + |next| == 64
    ensures Whole(msg + next) == Whole(msg) + (Rest(msg) + next) && Rest(msg + next) == []
  {
    assert |msg + next| % 64 == 0;
    assert msg == Whole(msg) + Rest(msg);
  }

  /** A one bit, the fewest zero bits that leave room for a length of 8 bytes, and the length. */
  function PaddedWith(msg: seq<Byte>, length: seq<Byte>): (r: seq<Byte>)
    requires |length| == 8
    ensures |r| % 64 == 0
  {
    msg + [0x80] + Zeros((55 - |msg|) % 64) + length
  }

  /** The padding fits into the current block. */
  lemma PaddedShort(msg: seq<Byte>, length: seq<Byte>)
    requires |length| == 8 && |msg| % 64 < 56
    ensures PaddedWith(msg, length) == Whole(msg) + (Rest(msg) + ([0x80] + Zeros(55 - |msg| % 64)) + length)
  {
    assert (55 - |msg|) % 64 == 55 - |msg| % 64;
    assert msg == Whole(msg) + Rest(msg);
  }

  /** It does not: there is one block more, which starts with zeroes. */
  lemma PaddedLong(msg: seq<Byte>, length: seq<Byte>)
    requires |length| == 8 && |msg| % 64 >= 56
    ensures PaddedWith(msg, length) ==
      Whole(msg) + (Rest(msg) + ([0x80] + Zeros(63 - |msg| % 64))) + (Zeros(56) + length)
  {
    var r := |msg| % 64;
    assert (55 - |msg|) % 64 == 119 - r;
    assert [0x80] + Zeros(119 - r) == [0x80] + Zeros(63 - r) + Zeros(56);
    SplitPadding(msg, [0x80] + Zeros(63 - r), Zeros(56), [0x80] + Zeros(119 - r), length);
  }

  lemma SplitPadding(msg: seq<Byte>, p: seq<Byte>, z: seq<Byte>, pad: seq<Byte>, length: seq<Byte>)
    requires p + z == pad
    ensures msg + pad + length == Whole(msg) + (Rest(msg) + p) + (z + length)
  {
    assert msg == Whole(msg) + Rest(msg);
  }

  /** Where the last block ends that fits into src, when the message before it ends at a block boundary. */
  lemma SplitAt(msg: seq<Byte>, src: seq<Byte>, p: nat)
    requires p <= |src| < p + 64 && |msg + src[..p]| % 64 == 0
    ensures Whole(msg + src) == msg + src[..p] && Rest(msg + src) == src[p..]
  {
    assert |msg + src| % 64 == |src| - p;
  }

  /** The concatenation of chunks. */
  function Flat(chunks: seq<seq<Byte>>): seq<Byte> {
    if chunks == [] then [] else Flat(chunks[..|chunks| - 1]) + chunks[|chunks| - 1]
  }

  /** memcpy into a part of a buffer. */
  method CopyInto(buf: array<Byte>, at: nat, src: seq<Byte>)
    requires at + |src| <= buf.Length
    modifies buf
    ensures buf[..] == old(buf[..at]) + src + old(buf[at + |src|..])
  {
    for i := 0 to |src|
      invariant buf[..at] == old(buf[..at]) && buf[at..at + i] == src[..i] && buf[at + i..] == old(buf[at + i..])
    {
      buf[at + i] := src[i];
      assert buf[at..at + i + 1] == buf[at..at + i] + [src[i]];
      assert buf[at + i + 1..] == old(buf[at + i..])[1..] == old(buf[at + i + 1..]);
    }
    assert buf[..] == buf[..at] + buf[at..at + |src|] + buf[at + |src|..];
  }
}
