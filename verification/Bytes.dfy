/**
 Little-endian 32-bit words inside byte strings.  Machine integers are subset
 types of `int`; shifts and masks are written as division and remainder.
 */
module Bytes {

  const TWO_32 := 0x1_0000_0000
  const TWO_64 := 0x1_0000_0000_0000_0000

  type byte = x: int | 0 <= x < 256
  type u32 = x: int | 0 <= x < TWO_32
  type u64 = x: int | 0 <= x < TWO_64

  // ----- little-endian 32-bit words -----

  /** The 32-bit word at word index `w` of a byte string. */
  function Word(b: seq<byte>, w: nat): (r: u32)
    requires 4 * w + 4 <= |b|
  {
    var b0: int, b1: int, b2: int, b3: int := b[4 * w], b[4 * w + 1], b[4 * w + 2], b[4 * w + 3];
    b0 + 0x100 * b1 + 0x1_0000 * b2 + 0x100_0000 * b3
  }

  /** Byte `k` (0 is the lowest) of a 32-bit word. */
  function ByteOf(v: u32, k: nat): (r: byte)
    requires k < 4
  {
    if k == 0 then v % 0x100
    else if k == 1 then v / 0x100 % 0x100
    else if k == 2 then v / 0x1_0000 % 0x100
    else v / 0x100_0000
  }

  /** The bytes of a sequence of words, lowest byte of each word first. */
  function Pack(ws: seq<u32>): (b: seq<byte>)
    ensures |b| == 4 * |ws|
  {
    seq(4 * |ws|, k requires 0 <= k < 4 * |ws| => ByteOf(ws[k / 4], k % 4))
  }

  lemma BytesOfWord(v: u32)
    ensures ByteOf(v, 0) + 0x100 * ByteOf(v, 1) + 0x1_0000 * ByteOf(v, 2) + 0x100_0000 * ByteOf(v, 3) == v
  {
    var q := v / 0x100;
    assert v / 0x1_0000 == q / 0x100;
    assert v / 0x100_0000 == q / 0x100 / 0x100;
  }

  /** Reading word `w` of packed words gives back the word. */
  lemma WordOfPack(ws: seq<u32>, w: nat)
    requires w < |ws|
    ensures Word(Pack(ws), w) == ws[w]
  {
    BytesOfWord(ws[w]);
    var b := Pack(ws);
    assert (4 * w) / 4 == w && (4 * w + 1) / 4 == w && (4 * w + 2) / 4 == w && (4 * w + 3) / 4 == w;
    assert b[4 * w] == ByteOf(ws[w], 0);
    assert b[4 * w + 1] == ByteOf(ws[w], 1);
    assert b[4 * w + 2] == ByteOf(ws[w], 2);
    assert b[4 * w + 3] == ByteOf(ws[w], 3);
  }

  /** The two halves of a 64-bit word. */
  function Lo(v: u64): (r: u32) { v % TWO_32 }
  function Hi(v: u64): (r: u32) { v / TWO_32 }
  function Wide(lo: u32, hi: u32): (r: u64)
  {
    var l: int, h: int := lo, hi;
    l + TWO_32 * h
  }

  // ----- overwriting part of a byte string -----

  /** `b` with the bytes from `off` on overwritten by `x`. */
  function Splice(b: seq<byte>, off: nat, x: seq<byte>): (r: seq<byte>)
    requires off + |x| <= |b|
    ensures |r| == |b|
    ensures forall k :: 0 <= k < |b| ==> r[k] == if off <= k < off + |x| then x[k - off] else b[k]
  {
    b[..off] + x + b[off + |x|..]
  }

  /** A word of the result of a word-aligned splice comes from the patch or from the original. */
  lemma WordOfSplice(b: seq<byte>, at: nat, x: seq<byte>, len: nat, w: nat)
    requires |x| == 4 * len && 4 * at + |x| <= |b| && 4 * w + 4 <= |b|
    ensures Word(Splice(b, 4 * at, x), w) == if at <= w < at + len then Word(x, w - at) else Word(b, w)
  {
  }

  /** `b` with word `w` replaced. */
  function SetWord(b: seq<byte>, w: nat, v: u32): (r: seq<byte>)
    requires 4 * w + 4 <= |b|
    ensures |r| == |b|
  {
    Splice(b, 4 * w, Pack([v]))
  }

  lemma WordOfSetWord(b: seq<byte>, w: nat, v: u32, j: nat)
    requires 4 * w + 4 <= |b| && 4 * j + 4 <= |b|
    ensures Word(SetWord(b, w, v), j) == if j == w then v else Word(b, j)
  {
    WordOfSplice(b, w, Pack([v]), 1, j);
    WordOfPack([v], 0);
  }
}
