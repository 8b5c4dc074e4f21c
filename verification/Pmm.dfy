/**
 The physical page allocator: one bit for each of at most 16384 pages of 4 KiB,
 in 256 words of 64 bits; a set bit means the page is free.
 */
module Pmm {
  import opened Bitmaps
  import opened Options

  /** Page `p` is free according to the words of the bitmap. */
  predicate FreeIn(words: seq<nat>, p: int) {
    0 <= p < 64 * |words| && BitOf(words[p / 64], p % 64)
  }

  ghost function FreePages(words: seq<nat>): (s: set<int>) {
    set p | 0 <= p < 64 * |words| && FreeIn(words, p)
  }

  ghost predicate Words64(words: seq<nat>) {
    |words| == 256 && forall w :: 0 <= w < 256 ==> words[w] < Pow2(64)
  }

  function SetFree(words: seq<nat>, p: nat): (r: seq<nat>)
    requires p < 64 * |words|
  {
    words[p / 64 := SetBitOf(words[p / 64], p % 64)]
  }

  function SetUsed(words: seq<nat>, p: nat): (r: seq<nat>)
    requires p < 64 * |words|
  {
    words[p / 64 := ClearBitOf(words[p / 64], p % 64)]
  }

  /** The two bitmap updates add and remove exactly one page. */
  lemma FreeAfter(words: seq<nat>, p: nat)
    requires Words64(words) && p < 16384
    ensures Words64(SetFree(words, p)) && FreePages(SetFree(words, p)) == FreePages(words) + {p}
    ensures Words64(SetUsed(words, p)) && FreePages(SetUsed(words, p)) == FreePages(words) - {p}
  {
    hide BitOf, SetBitOf, ClearBitOf, Pow2;
    WordWidth(words[p / 64], p % 64, 64);
    forall q | 0 <= q < 16384
      ensures FreeIn(SetFree(words, p), q) == (q == p || FreeIn(words, q))
      ensures FreeIn(SetUsed(words, p), q) == (q != p && FreeIn(words, q))
    {
      if q / 64 == p / 64 {
        BitOfAfter(words[p / 64], p % 64, q % 64);
      }
    }
  }

  predicate Within(p: int, lo: int, hi: int) {
    lo <= p < hi
  }

  /** The pages below `total` from `first` up to `end`. */
  ghost function Span(first: int, end: int, total: int): (s: set<int>)
  {
    set p | 0 <= p < total && Within(p, first, end)
  }

  /** The pages below `total` touched by the byte range [lo, hi). */
  ghost function Carved(lo: int, hi: int, total: int): (s: set<int>)
  {
    Span(lo / 4096, (hi + 4095) / 4096, total)
  }

  function PageOf(b: int): (p: int) {
    b / 4096
  }

  /** Some byte of [lo, hi) lies in page `p`. */
  ghost predicate HoldsByte(p: int, lo: int, hi: int) {
    exists b :: lo <= b < hi && PageOf(b) == p
  }

  /** The pages carved out for a non-empty range are exactly those that hold a byte of it. */
  lemma CarvedMeaning(lo: nat, hi: nat, total: nat, p: int)
    requires lo < hi
    ensures p in Carved(lo, hi, total) <==> 0 <= p < total && HoldsByte(p, lo, hi)
  {
    if p in Carved(lo, hi, total) {
      var b := if p == lo / 4096 then lo else 4096 * p;
      assert PageOf(b) == p && lo <= b < hi;
    }
  }

  /** A range that ends before it starts carves out nothing, or the page both ends lie in. */
  lemma CarvedBackwards(lo: nat, hi: nat, total: nat)
    requires hi <= lo
    ensures Carved(lo, hi, total) == if hi % 4096 != 0 && hi / 4096 == lo / 4096 < total then {lo / 4096} else {}
  {
  }

  /** Some byte below 1 MiB, of the VGA window, the kernel image or the heap window lies in page `p`. */
  ghost predicate HoldsBootByte(p: int, kernelLo: int, kernelHi: int) {
    || HoldsByte(p, 0, 0x10_0000) || HoldsByte(p, 0xB_8000, 0xC_0000)
    || HoldsByte(p, kernelLo, kernelHi) || HoldsByte(p, 0x20_0000, 0x60_0000)
  }

  lemma ReservationsMeaning(kernelLo: nat, kernelHi: nat, total: nat)
    requires kernelLo < kernelHi
    ensures forall p :: p in Reservations(kernelLo, kernelHi, total) <==> 0 <= p < total && HoldsBootByte(p, kernelLo, kernelHi)
  {
    hide Carved, HoldsByte;
    forall p
      ensures p in Reservations(kernelLo, kernelHi, total) <==> 0 <= p < total && HoldsBootByte(p, kernelLo, kernelHi)
    {
      CarvedMeaning(0, 0x10_0000, total, p);
      CarvedMeaning(0xB_8000, 0xC_0000, total, p);
      CarvedMeaning(kernelLo, kernelHi, total, p);
      CarvedMeaning(0x20_0000, 0x60_0000, total, p);
    }
  }

  /** All pages set aside at boot: below 1 MiB, the VGA window, the kernel image and the heap window. */
  ghost function Reservations(kernelLo: int, kernelHi: int, total: int): (s: set<int>) {
    Carved(0, 0x10_0000, total) + Carved(0xB_8000, 0xC_0000, total) + Carved(kernelLo, kernelHi, total)
    + Carved(0x20_0000, 0x60_0000, total)
  }

  datatype Request = Take | Release(addr: nat)

  class PageAllocator {
    const bitmap: array<nat>
    var totalPages: nat
    var freePages: nat
    var reservedPages: nat
    /** Pages handed out and not yet given back. */
    ghost var outstanding: set<int>
    ghost var reserved: set<int>

    ghost function Free(): (s: set<int>)
      reads this, bitmap
    {
      FreePages(bitmap[..])
    }

    /** The pages up to the top of memory are exactly the free, the reserved and the outstanding ones. */
    ghost predicate Partition()
      reads this, bitmap
    {
      && (forall p :: 0 <= p < totalPages <==> p in Free() || p in reserved || p in outstanding)
      && Free() !! reserved && Free() !! outstanding && reserved !! outstanding
    }

    ghost predicate Valid()
      reads this, bitmap
    {
      && bitmap.Length == 256 && Words64(bitmap[..]) && totalPages <= 16384
      && Partition()
      && freePages == |Free()| && reservedPages == |reserved|
      && (totalPages > 0 ==> 0 in reserved)
    }

    constructor ()
      ensures Valid() && fresh(bitmap) && Free() == {} && totalPages == 0
    {
      var b := new nat[256](_ => 0);
      bitmap := b;
      totalPages, freePages, reservedPages := 0, 0, 0;
      outstanding, reserved := {}, {};
      new;
      NothingFree(bitmap[..]);
    }

    // ----- initialisation -----

    /** While booting, every page up to the top is free or reserved, and the counters agree. */
    ghost predicate Booting()
      reads this, bitmap
    {
      && Words64(bitmap[..]) && totalPages <= 16384 && freePages == |Free()| && reservedPages == |reserved|
      && (forall p :: 0 <= p < totalPages <==> p in Free() || p in reserved)
      && Free() !! reserved
    }

    /** Marks one page as reserved unless it is already. */
    method MarkUsed(i: nat)
      requires Booting() && i < totalPages
      modifies this`freePages, this`reservedPages, this`reserved, bitmap
      ensures Booting() && reserved == old(reserved) + {i}
    {
      ghost var words := bitmap[..];
      FreeAfter(words, i);
      assert i in Free() <==> BitOf(bitmap[i / 64], i % 64);
      if BitOf(bitmap[i / 64], i % 64) {
        bitmap[i / 64] := ClearBitOf(bitmap[i / 64], i % 64);
        assert bitmap[..] == SetUsed(words, i);
        freePages := freePages - 1;
        reservedPages := reservedPages + 1;
        reserved := reserved + {i};
      }
    }

    /** Marks every page of [lo, hi) below the top as reserved. */
    method MarkRangeUsed(lo: nat, hi: nat)
      requires Booting()
      modifies this`freePages, this`reservedPages, this`reserved, bitmap
      ensures Booting() && reserved == old(reserved) + Carved(lo, hi, totalPages)
      ensures lo < hi ==> forall p :: p in reserved <==> p in old(reserved) || (0 <= p < totalPages && HoldsByte(p, lo, hi))
    {
      hide Booting, Span, Carved, HoldsByte;
      CarvedIs(lo, hi, totalPages);
      if lo < hi {
        forall p ensures p in Carved(lo, hi, totalPages) <==> 0 <= p < totalPages && HoldsByte(p, lo, hi) { CarvedMeaning(lo, hi, totalPages, p); }
      }
      var i, e := lo / 4096, (hi + 4095) / 4096;
      ghost var s := i;
      SpanEmpty(s, i, totalPages);
      while i < e && i < totalPages
        invariant s <= i && Booting() && (i <= e || i == s)
        invariant reserved == old(reserved) + Span(s, i, totalPages)
        decreases totalPages - i
      {
        MarkUsed(i);
        SpanNext(s, i, totalPages);
        i := i + 1;
      }
      SpanCut(s, i, e, totalPages);
    }

    /** Frees every page up to the top, then carves out the four boot regions. */
    method Init(memTop: nat, kernelLo: nat, kernelHi: nat)
      requires bitmap.Length == 256
      modifies this, bitmap
      ensures Valid() && outstanding == {}
      ensures totalPages == if memTop / 4096 > 16384 then 16384 else memTop / 4096
      ensures reserved == Reservations(kernelLo, kernelHi, totalPages)
      ensures kernelLo < kernelHi ==> forall p :: p in reserved <==> 0 <= p < totalPages && HoldsBootByte(p, kernelLo, kernelHi)
    {
      hide FreePages, Words64, Span, Carved, HoldsByte, HoldsBootByte;
      ClearAll();
      totalPages := if memTop / 4096 > 16384 then 16384 else memTop / 4096;
      freePages, reservedPages := 0, 0;
      outstanding, reserved := {}, {};
      FreeAll();
      MarkRangeUsed(0, 0x10_0000);
      MarkRangeUsed(0xB_8000, 0xC_0000);
      MarkRangeUsed(kernelLo, kernelHi);
      MarkRangeUsed(0x20_0000, 0x60_0000);
      PageZero(totalPages);
      if kernelLo < kernelHi { ReservationsMeaning(kernelLo, kernelHi, totalPages); }
    }

    method ClearAll()
      requires bitmap.Length == 256
      modifies bitmap
      ensures Words64(bitmap[..]) && Free() == {}
    {
      for w := 0 to 256
        invariant forall v :: 0 <= v < w ==> bitmap[v] == 0
      {
        bitmap[w] := 0;
      }
      NothingFree(bitmap[..]);
    }

    method FreeAll()
      requires bitmap.Length == 256 && Words64(bitmap[..]) && Free() == {} && totalPages <= 16384 && freePages == 0
      modifies this`freePages, bitmap
      ensures Words64(bitmap[..]) && freePages == |Free()|
      ensures forall p :: p in Free() <==> 0 <= p < totalPages
    {
      hide FreePages, Words64;
      for i := 0 to totalPages
        invariant Words64(bitmap[..]) && freePages == |Free()|
        invariant forall p :: p in Free() <==> 0 <= p < i
      {
        ghost var words := bitmap[..];
        FreeAfter(words, i);
        bitmap[i / 64] := SetBitOf(bitmap[i / 64], i % 64);
        assert bitmap[..] == SetFree(words, i);
        freePages := freePages + 1;
      }
    }

    // ----- allocation -----

    /** The first word of the bitmap with a free page, 256 if there is none. */
    method FirstWord() returns (w: nat)
      requires bitmap.Length == 256 && Words64(bitmap[..])
      ensures w <= 256 && (w < 256 ==> bitmap[w] != 0)
      ensures forall q :: q in Free() ==> 64 * w <= q
      ensures w == 256 <==> Free() == {}
    {
      hide FreePages, Words64, BitOf, Lowest;
      ghost var words := bitmap[..];
      AllFromZero(words);
      w := 0;
      while w < 256 && bitmap[w] == 0
        invariant w <= 256
        invariant forall q :: q in FreePages(words) ==> 64 * w <= q
      {
        assert words[w] == 0;
        EmptyWord(words, w);
        w := w + 1;
      }
      if w < 256 {
        FirstPage(words, w, Lowest(bitmap[w]));
      } else {
        NoPageBeyond(words);
      }
    }

    /** Hands out the lowest free page; fails exactly when none is free. */
    method AllocPage() returns (r: Option<int>)
      requires Valid()
      modifies this`freePages, this`outstanding, bitmap
      ensures Valid()
      ensures r == None <==> old(Free()) == {}
      ensures r == None ==> Free() == old(Free()) && outstanding == old(outstanding)
      ensures r.Some? ==>
        && r.value % 4096 == 0
        && var p := r.value / 4096;
           && p in old(Free()) && (forall q :: q in old(Free()) ==> p <= q)
           && 0 < p < totalPages && p !in reserved
           && Free() == old(Free()) - {p} && outstanding == old(outstanding) + {p}
    {
      hide FreePages, Words64, BitOf;
      var w := FirstWord();
      if w == 256 { return None; }
      var bit := LowestBit(bitmap[w]);
      FirstPage(bitmap[..], w, bit);
      var page := 64 * w + bit;
      // every free page lies below the top, so the range test of the code never fires
      assert page < totalPages;
      TakePage(page);
      PageAddress(page);
      return Some(page * 4096);
    }

    /** Clears the bit of a free page. */
    method TakePage(page: nat)
      requires Valid() && page in Free()
      modifies this`freePages, this`outstanding, bitmap
      ensures Valid() && Free() == old(Free()) - {page} && outstanding == old(outstanding) + {page}
    {
      hide FreePages;
      ghost var words := bitmap[..];
      FreeAfter(words, page);
      bitmap[page / 64] := ClearBitOf(bitmap[page / 64], page % 64);
      assert bitmap[..] == SetUsed(words, page);
      freePages := freePages - 1;
      outstanding := outstanding + {page};
    }

    /**
     Takes a page back.  A null, misaligned, out-of-range or already free address
     is ignored.  A reserved page is not protected: it becomes free although it is
     still counted as reserved, and the accounting is broken from then on.
     */
    method FreePage(addr: nat)
      requires Valid()
      modifies this`freePages, this`outstanding, bitmap
      ensures Valid() <==> addr == 0 || addr % 4096 != 0 || addr / 4096 !in reserved
      ensures var p := addr / 4096;
        if addr != 0 && addr % 4096 == 0 && (p in old(outstanding) || p in reserved)
        then Free() == old(Free()) + {p} && outstanding == old(outstanding) - {p} && freePages == old(freePages) + 1
        else Free() == old(Free()) && outstanding == old(outstanding) && freePages == old(freePages)
    {
      hide BitOf, SetBitOf, Words64;
      if addr == 0 { return; }
      if addr % 4096 != 0 { return; }
      var page := addr / 4096;
      if page >= totalPages { return; }
      if BitOf(bitmap[page / 64], page % 64) {
        assert page in Free();
        return;
      }
      assert page !in Free();
      ghost var words := bitmap[..];
      FreeAfter(words, page);
      bitmap[page / 64] := SetBitOf(bitmap[page / 64], page % 64);
      assert bitmap[..] == SetFree(words, page);
      freePages := freePages + 1;
      outstanding := outstanding - {page};
    }

    /** Any requests in any order: what is handed out is page-aligned, was nobody's, and is never a reserved page. */
    method Serve(requests: seq<Request>) returns (pages: seq<Option<int>>)
      requires Valid() && forall i :: 0 <= i < |requests| && requests[i].Release? ==> requests[i].addr / 4096 !in reserved
      modifies this`freePages, this`outstanding, bitmap
      ensures Valid() && |pages| == |requests|
      ensures forall i :: 0 <= i < |pages| && pages[i].Some? ==>
        requests[i].Take? && pages[i].value % 4096 == 0 && 0 <= pages[i].value / 4096 < totalPages && pages[i].value / 4096 !in reserved
      decreases |requests|
    {
      hide FreePages, Words64, PageAllocator.Valid;
      pages := [];
      if requests == [] { return; }
      var page := None;
      match requests[0] {
        case Take => page := AllocPage();
        case Release(addr) => FreePage(addr);
      }
      var rest := Serve(requests[1..]);
      pages := [page] + rest;
      assert forall i :: 0 < i < |pages| ==> pages[i] == rest[i - 1] && requests[i] == requests[1..][i - 1];
    }

    /** Boot followed by any requests: no page handed out holds a byte of a boot region. */
    method BootAndServe(memTop: nat, kernelLo: nat, kernelHi: nat, requests: seq<Request>) returns (pages: seq<Option<int>>)
      requires bitmap.Length == 256 && kernelLo < kernelHi
      requires forall i :: 0 <= i < |requests| && requests[i].Release? ==> !HoldsBootByte(requests[i].addr / 4096, kernelLo, kernelHi)
      modifies this, bitmap
      ensures Valid() && |pages| == |requests|
      ensures forall i :: 0 <= i < |pages| && pages[i].Some? ==> !HoldsBootByte(pages[i].value / 4096, kernelLo, kernelHi)
    {
      hide FreePages, Words64, PageAllocator.Valid, HoldsBootByte, Reservations;
      Init(memTop, kernelLo, kernelHi);
      pages := Serve(requests);
    }

    /** The used count is the number of outstanding pages; the subtraction never underflows. */
    method UsedCount() returns (n: nat)
      requires Valid()
      ensures n == |outstanding|
    {
      PartitionSize(totalPages, Free(), reserved, outstanding);
      n := totalPages - freePages - reservedPages;
    }
  }

  lemma CarvedIs(lo: int, hi: int, total: int)
    ensures Carved(lo, hi, total) == Span(lo / 4096, (hi + 4095) / 4096, total)
  {
  }

  lemma PageZero(total: nat)
    ensures total > 0 ==> 0 in Carved(0, 0x10_0000, total)
  {
  }

  lemma SpanEmpty(s: int, e: int, total: int)
    requires e <= s
    ensures Span(s, e, total) == {}
  {
  }

  lemma SpanNext(s: int, i: int, total: int)
    requires s <= i && 0 <= i < total
    ensures Span(s, i + 1, total) == Span(s, i, total) + {i}
  {
  }

  lemma SpanCut(s: int, i: int, e: int, total: int)
    requires i == e || (i == s && e <= s) || (total <= i <= e)
    ensures Span(s, i, total) == Span(s, e, total)
  {
  }

  lemma NothingFree(words: seq<nat>)
    requires |words| == 256 && forall w :: 0 <= w < 256 ==> words[w] == 0
    ensures Words64(words) && FreePages(words) == {}
  {
    forall p | 0 <= p < 16384
      ensures !FreeIn(words, p)
    {
      NoBits(p % 64);
    }
  }

  lemma EmptyWord(words: seq<nat>, w: nat)
    requires w < |words| && words[w] == 0
    requires forall q :: q in FreePages(words) ==> 64 * w <= q
    ensures forall q :: q in FreePages(words) ==> 64 * (w + 1) <= q
  {
    forall q | q in FreePages(words)
      ensures 64 * (w + 1) <= q
    {
      if q < 64 * (w + 1) {
        assert q / 64 == w;
        NoBits(q % 64);
      }
    }
  }

  lemma AllFromZero(words: seq<nat>)
    ensures forall q :: q in FreePages(words) ==> 0 <= q
  {
  }

  lemma NoPageBeyond(words: seq<nat>)
    requires |words| == 256 && forall q :: q in FreePages(words) ==> 16384 <= q
    ensures FreePages(words) == {}
  {
    if p :| p in FreePages(words) {
      assert false;
    }
  }

  lemma PageAddress(page: nat)
    ensures page * 4096 % 4096 == 0 && page * 4096 / 4096 == page
  {
  }

  lemma FirstPage(words: seq<nat>, w: nat, bit: nat)
    requires Words64(words) && w < 256 && words[w] != 0 && bit == Lowest(words[w])
    requires forall q :: q in FreePages(words) ==> 64 * w <= q
    ensures bit < 64 && 64 * w + bit in FreePages(words) && forall q :: q in FreePages(words) ==> 64 * w + bit <= q
  {
    BitInWidth(words[w], bit, 64);
    LowestPage(words, w, bit);
  }

  lemma LowestPage(words: seq<nat>, w: nat, bit: nat)
    requires w < |words| && bit < 64 && BitOf(words[w], bit)
    requires forall j :: 0 <= j < bit ==> !BitOf(words[w], j)
    requires forall q :: q in FreePages(words) ==> 64 * w <= q
    ensures 64 * w + bit in FreePages(words) && forall q :: q in FreePages(words) ==> 64 * w + bit <= q
  {
    assert (64 * w + bit) / 64 == w && (64 * w + bit) % 64 == bit;
    forall q | q in FreePages(words)
      ensures 64 * w + bit <= q
    {
      if q / 64 == w {
        assert BitOf(words[w], q % 64);
      }
    }
  }

  lemma {:induction false} Range(n: nat) returns (s: set<int>)
    ensures |s| == n && forall p :: p in s <==> 0 <= p < n
  {
    if n == 0 {
      s := {};
    } else {
      var t := Range(n - 1);
      s := t + {n - 1};
    }
  }

  lemma PartitionSize(total: nat, a: set<int>, b: set<int>, c: set<int>)
    requires a !! b && a !! c && b !! c
    requires forall p :: 0 <= p < total <==> p in a || p in b || p in c
    ensures total == |a| + |b| + |c|
  {
    var s := Range(total);
    var t := a + b + c;
    assert forall p :: p in t <==> p in a || p in b || p in c;
    assert forall p :: p in s <==> p in t;
    assert s == t;
    assert |t| == |a + b| + |c|;
  }
}
