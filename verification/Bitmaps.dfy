/**
 Single-bit operations on machine words of any width, and bitmaps stored one
 byte after another.  A word is a natural number; its bit `k` is found by
 shifting right `k` times.
 */
module Bitmaps {
  import opened Bytes

  function Pow2(n: nat): (r: nat)
    ensures r > 0
  {
    if n == 0 then 1 else 2 * Pow2(n - 1)
  }

  lemma {:induction false} Pow2Sum(a: nat, b: nat)
    ensures Pow2(a + b) == Pow2(a) * Pow2(b)
  {
    if a > 0 {
      Pow2Sum(a - 1, b);
    }
  }

  lemma Pow2Of32()
    ensures Pow2(32) == TWO_32
  {
    assert Pow2(8) == 256;
    Pow2Sum(8, 8);
    Pow2Sum(16, 16);
  }

  /** `(v >> k) & 1`. */
  predicate BitOf(v: nat, k: nat) {
    if k == 0 then v % 2 == 1 else BitOf(v / 2, k - 1)
  }

  /** `v | (1 << k)`. */
  function SetBitOf(v: nat, k: nat): (r: nat) {
    if k == 0 then v - v % 2 + 1 else 2 * SetBitOf(v / 2, k - 1) + v % 2
  }

  /** `v & ~(1 << k)`. */
  function ClearBitOf(v: nat, k: nat): (r: nat) {
    if k == 0 then v - v % 2 else 2 * ClearBitOf(v / 2, k - 1) + v % 2
  }

  /** Exclusive-or of the low `n` bits. */
  function Xor(a: nat, b: nat, n: nat): (r: nat)
    ensures r < Pow2(n)
  {
    if n == 0 then 0 else 2 * Xor(a / 2, b / 2, n - 1) + (a + b) % 2
  }

  lemma Parity(a: nat, b: nat)
    ensures (a + b) % 2 == 1 <==> a % 2 != b % 2
  {
    assert a + b == 2 * (a / 2 + b / 2) + (a % 2 + b % 2);
  }

  /** Each bit of the exclusive-or says whether the two bits differ. */
  lemma {:induction false} XorBit(a: nat, b: nat, n: nat, k: nat)
    ensures BitOf(Xor(a, b, n), k) <==> k < n && BitOf(a, k) != BitOf(b, k)
  {
    if n == 0 {
      NoBits(k);
    } else {
      Halves(Xor(a / 2, b / 2, n - 1), (a + b) % 2);
      if k > 0 { XorBit(a / 2, b / 2, n - 1, k - 1); } else { Parity(a, b); }
    }
  }

  /** High and low parts are combined separately. */
  lemma {:induction false} XorJoin(a: nat, c: nat, b: nat, d: nat, n: nat, m: nat)
    requires c < Pow2(m) && d < Pow2(m)
    ensures Xor(Pow2(m) * a + c, Pow2(m) * b + d, n + m) == Pow2(m) * Xor(a, b, n) + Xor(c, d, m)
    decreases m
  {
    hide Xor;
    if m == 0 {
      XorNone(c, d);
    } else {
      var p := Pow2(m - 1);
      HalfOfJoin(p, a, c);
      HalfOfJoin(p, b, d);
      Parity(Pow2(m) * a + c, Pow2(m) * b + d);
      Parity(c, d);
      XorJoin(a, c / 2, b, d / 2, n, m - 1);
      XorStep(Pow2(m) * a + c, Pow2(m) * b + d, n + m - 1);
      XorStep(c, d, m - 1);
      Twice(p, Xor(a, b, n));
    }
  }

  lemma XorNone(a: nat, b: nat)
    ensures Xor(a, b, 0) == 0
  {
  }

  lemma XorStep(a: nat, b: nat, n: nat)
    ensures Xor(a, b, n + 1) == 2 * Xor(a / 2, b / 2, n) + (a + b) % 2
  {
  }

  /** Exclusive-or with a constant loses nothing. */
  lemma {:induction false} XorCancels(a: nat, b: nat, c: nat, n: nat)
    requires a < Pow2(n) && b < Pow2(n) && Xor(a, c, n) == Xor(b, c, n)
    ensures a == b
  {
    hide Xor;
    if n > 0 {
      var x, y := Xor(a / 2, c / 2, n - 1), Xor(b / 2, c / 2, n - 1);
      XorStep(a, c, n - 1);
      XorStep(b, c, n - 1);
      Parity(a, c);
      Parity(b, c);
      assert x == y;
      XorCancels(a / 2, b / 2, c / 2, n - 1);
    }
  }

  lemma Twice(p: nat, x: nat)
    ensures 2 * (p * x) == 2 * p * x
  {
  }

  lemma HalfOfJoin(p: nat, a: nat, c: nat)
    ensures (2 * p * a + c) / 2 == p * a + c / 2 && (2 * p * a + c) % 2 == c % 2
  {
    Twice(p, a);
    Halves(p * a + c / 2, c % 2);
  }

  /** The recursive bit test is the shift-and-mask of the C code. */
  lemma {:induction false} BitIsShiftAndMask(v: nat, k: nat)
    ensures BitOf(v, k) <==> v / Pow2(k) % 2 == 1
  {
    if k > 0 {
      BitIsShiftAndMask(v / 2, k - 1);
      HalfQuotient(v, Pow2(k - 1));
    }
  }

  lemma HalfQuotient(v: nat, p: nat)
    requires p > 0
    ensures v / 2 / p == v / (2 * p)
  {
    var h, q := v / 2, v / 2 / p;
    assert v == 2 * h + v % 2;
    assert h == p * q + h % p;
    assert v == (2 * p) * q + (2 * (h % p) + v % 2);
    QuotientUnique(v, 2 * p, q, 2 * (h % p) + v % 2);
  }

  lemma QuotientHalf(v: nat, d: nat)
    requires d > 0
    ensures v / d / 2 == v / (2 * d)
  {
    var a, h := v / d, v / d / 2;
    assert a == 2 * h + a % 2;
    assert v == d * a + v % d;
    assert d * a == (2 * d) * h + d * (a % 2);
    QuotientUnique(v, 2 * d, h, d * (a % 2) + v % d);
  }

  lemma QuotientUnique(v: nat, d: nat, q: nat, r: nat)
    requires d > 0 && r < d && v == d * q + r
    ensures v / d == q
  {
    var q' := v / d;
    if q' > q {
      Times(d, q + 1, q');
    } else if q' < q {
      Times(d, q' + 1, q);
    }
  }

  lemma Times(d: nat, a: nat, b: nat)
    requires a <= b
    ensures d * a <= d * b
  {
  }

  lemma Halves(x: nat, b: nat)
    requires b < 2
    ensures (2 * x + b) / 2 == x && (2 * x + b) % 2 == b
  {
  }

  /** Setting or clearing bit `k` of a word changes that bit only. */
  lemma {:induction false} BitOfAfter(v: nat, k: nat, j: nat)
    ensures BitOf(SetBitOf(v, k), j) == (j == k || BitOf(v, j))
    ensures BitOf(ClearBitOf(v, k), j) == (j != k && BitOf(v, j))
  {
    Halves(v / 2, v % 2);
    if k == 0 {
      Halves(v / 2, 1);
      Halves(v / 2, 0);
    } else {
      Halves(SetBitOf(v / 2, k - 1), v % 2);
      Halves(ClearBitOf(v / 2, k - 1), v % 2);
      if j > 0 {
        BitOfAfter(v / 2, k - 1, j - 1);
      }
    }
  }

  /** The operations stay inside a word of `n` bits. */
  lemma {:induction false} WordWidth(v: nat, k: nat, n: nat)
    requires v < Pow2(n) && k < n
    ensures SetBitOf(v, k) < Pow2(n) && ClearBitOf(v, k) < Pow2(n)
  {
    if k > 0 {
      WordWidth(v / 2, k - 1, n - 1);
    }
  }

  lemma {:induction false} ClearUndoesSetOf(v: nat, k: nat)
    requires !BitOf(v, k)
    ensures ClearBitOf(SetBitOf(v, k), k) == v
  {
    if k > 0 {
      ClearUndoesSetOf(v / 2, k - 1);
    }
  }

  lemma {:induction false} BitInWidth(v: nat, k: nat, n: nat)
    requires v < Pow2(n) && BitOf(v, k)
    ensures k < n
  {
    if n > 0 && k > 0 {
      BitInWidth(v / 2, k - 1, n - 1);
    } else if n == 0 {
      NoBits(k);
    }
  }

  lemma {:induction false} NoBits(k: nat)
    ensures !BitOf(0, k)
  {
    if k > 0 { NoBits(k - 1); }
  }

  /** The position of the lowest set bit of a non-zero word. */
  ghost function Lowest(v: nat): (r: nat)
    requires v > 0
    ensures BitOf(v, r) && forall j :: 0 <= j < r ==> !BitOf(v, j)
  {
    if v % 2 == 1 then 0 else 1 + Lowest(v / 2)
  }

  /** Shifts the word right until its low bit is set. */
  method LowestBit(v: nat) returns (bit: nat)
    requires v > 0
    ensures bit == Lowest(v)
  {
    var word := v;
    bit := 0;
    while word % 2 == 0
      invariant word > 0 && Lowest(v) == bit + Lowest(word)
      decreases word
    {
      word := word / 2;
      bit := bit + 1;
    }
  }

  // ----- bitmaps of bytes -----

  /** Bit `i` of a bitmap: the low bit of each byte comes first. */
  predicate Bit(bm: seq<byte>, i: nat)
    requires i < 8 * |bm|
  {
    BitOf(bm[i / 8], i % 8)
  }

  function SetBit(bm: seq<byte>, i: nat): (r: seq<byte>)
    requires i < 8 * |bm|
    ensures |r| == |bm|
  {
    WordWidth(bm[i / 8], i % 8, 8);
    bm[i / 8 := SetBitOf(bm[i / 8], i % 8)]
  }

  function ClearBit(bm: seq<byte>, i: nat): (r: seq<byte>)
    requires i < 8 * |bm|
    ensures |r| == |bm|
  {
    WordWidth(bm[i / 8], i % 8, 8);
    bm[i / 8 := ClearBitOf(bm[i / 8], i % 8)]
  }

  /** Bit `i` of a bitmap is bit `i % 8`, counted from the low end, of byte `i / 8`. */
  lemma BitInByte(bm: seq<byte>, i: nat)
    requires i < 8 * |bm|
    ensures Bit(bm, i) <==> bm[i / 8] / Pow2(i % 8) % 2 == 1
  {
    BitIsShiftAndMask(bm[i / 8], i % 8);
  }

  /** Setting or clearing bit `i` of a bitmap changes bit `i` only. */
  lemma BitAfter(bm: seq<byte>, i: nat)
    requires i < 8 * |bm|
    ensures forall j :: 0 <= j < 8 * |bm| ==> Bit(SetBit(bm, i), j) == (j == i || Bit(bm, j))
    ensures forall j :: 0 <= j < 8 * |bm| ==> Bit(ClearBit(bm, i), j) == (j != i && Bit(bm, j))
  {
    forall j | 0 <= j < 8 * |bm|
      ensures Bit(SetBit(bm, i), j) == (j == i || Bit(bm, j))
      ensures Bit(ClearBit(bm, i), j) == (j != i && Bit(bm, j))
    {
      if i / 8 == j / 8 {
        BitOfAfter(bm[i / 8], i % 8, j % 8);
      }
    }
  }

  /** Clearing a bit just set restores the bitmap byte for byte. */
  lemma ClearUndoesSet(bm: seq<byte>, i: nat)
    requires i < 8 * |bm| && !Bit(bm, i)
    ensures ClearBit(SetBit(bm, i), i) == bm
  {
    ClearUndoesSetOf(bm[i / 8], i % 8);
    var s := SetBit(bm, i);
    assert ClearBit(s, i) == s[i / 8 := bm[i / 8]];
  }
}
