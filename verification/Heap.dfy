/**
 The kernel heap: a 4 MiB window at 2 MiB tiled by blocks, each a 32-byte header
 followed by its payload.  Headers are linked in address order; allocation is
 first fit with splitting, freeing merges with following free blocks.
 */
module Heap {
  import opened Bytes

  const START := 0x20_0000
  const MAGIC: u32 := 0xA55A_5A55

  /** The bytes of the window. */
  type Window = m: seq<byte> | |m| == 0x40_0000 witness seq(0x40_0000, _ => 0)

  // ----- headers in memory -----

  datatype Header = Header(size: u64, magic: u32, next: u64, free: u32)

  /** The eight words of a header: size, magic, padding, next, free flag, padding. */
  function HeaderWords(h: Header): (ws: seq<u32>)
    ensures |ws| == 8
  {
    [Lo(h.size), Hi(h.size), h.magic, 0, Lo(h.next), Hi(h.next), h.free, 0]
  }

  predicate HeaderAt(o: int) {
    0 <= o && o % 16 == 0 && o + 32 <= 0x40_0000
  }

  function ReadHeader(m: Window, o: int): (h: Header)
    requires HeaderAt(o)
  {
    var w := o / 4;
    Header(Wide(Word(m, w), Word(m, w + 1)), Word(m, w + 2), Wide(Word(m, w + 4), Word(m, w + 5)), Word(m, w + 6))
  }

  function WriteHeader(m: Window, o: int, h: Header): (r: Window)
    requires HeaderAt(o)
  {
    Splice(m, o, Pack(HeaderWords(h)))
  }

  lemma HeaderWord(m: Window, o: int, h: Header, w: nat)
    requires HeaderAt(o) && 4 * w + 4 <= 0x40_0000
    ensures Word(WriteHeader(m, o, h), w) == if o / 4 <= w < o / 4 + 8 then HeaderWords(h)[w - o / 4] else Word(m, w)
  {
    hide HeaderWords, WriteHeader, Word, HeaderAt;
    HeaderSlot(o);
    HeaderWordAt(m, o / 4, h, w);
  }

  lemma HeaderSlot(o: int)
    requires HeaderAt(o)
    ensures 4 * (o / 4) == o && 0 <= o / 4 && o + 32 <= 0x40_0000
  {
    var n := o / 16;
    assert o == 16 * n && o / 4 == 4 * n;
  }

  lemma HeaderWordAt(m: Window, q: nat, h: Header, w: nat)
    requires HeaderAt(4 * q) && 4 * w + 4 <= 0x40_0000
    ensures Word(WriteHeader(m, 4 * q, h), w) == if q <= w < q + 8 then HeaderWords(h)[w - q] else Word(m, w)
  {
    hide HeaderWords, Pack, Word, Splice;
    WordOfSplice(m, q, Pack(HeaderWords(h)), 8, w);
    if q <= w < q + 8 {
      WordOfPack(HeaderWords(h), w - q);
    }
  }

  /** A written header reads back; a header elsewhere is not disturbed. */
  lemma HeaderRoundTrip(m: Window, o: int, h: Header, p: int)
    requires HeaderAt(o) && HeaderAt(p) && (p == o || p + 32 <= o || o + 32 <= p)
    ensures ReadHeader(WriteHeader(m, o, h), p) == if p == o then h else ReadHeader(m, p)
  {
    hide WriteHeader, HeaderWords;
    var w := p / 4;
    HeaderWord(m, o, h, w);
    HeaderWord(m, o, h, w + 1);
    HeaderWord(m, o, h, w + 2);
    HeaderWord(m, o, h, w + 4);
    HeaderWord(m, o, h, w + 5);
    HeaderWord(m, o, h, w + 6);
    WordsOfHeader(h);
  }

  lemma WordsOfHeader(h: Header)
    ensures var ws := HeaderWords(h);
      Wide(ws[0], ws[1]) == h.size && ws[2] == h.magic && Wide(ws[4], ws[5]) == h.next && ws[6] == h.free
  {
  }

  // ----- the block list -----

  /** A block: offset of its header in the window, payload size, free or in use. */
  datatype Block = Block(off: int, size: int, free: bool)

  function End(b: Block): int { b.off + 32 + b.size }

  /** The blocks tile the window without gap or overlap; everything is a multiple of 16. */
  ghost predicate Tiles(bs: seq<Block>) {
    && bs != [] && bs[0].off == 0 && End(bs[|bs| - 1]) == 0x40_0000
    && (forall i :: 0 <= i < |bs| - 1 ==> bs[i + 1].off == End(bs[i]))
    && (forall i :: 0 <= i < |bs| ==> bs[i].size >= 0 && bs[i].size % 16 == 0)
  }

  /** The address of block `i`, 0 past the end. */
  function Addr(bs: seq<Block>, i: int): int
    requires 0 <= i <= |bs|
  {
    if i == |bs| then 0 else START + bs[i].off
  }

  function Payload(b: Block): int { START + b.off + 32 }

  function HeaderOf(bs: seq<Block>, i: int): (h: Header)
    requires 0 <= i < |bs| && InWindow(bs)
  {
    Header(bs[i].size, MAGIC, Addr(bs, i + 1), if bs[i].free then 1 else 0)
  }

  predicate InWindow(bs: seq<Block>) {
    forall i :: 0 <= i < |bs| ==> HeaderAt(bs[i].off) && 0 <= bs[i].off && 0 <= bs[i].size && End(bs[i]) <= 0x40_0000
  }

  /** Blocks in list order lie in address order. */
  lemma {:induction false} Ordered(bs: seq<Block>, i: int, j: int)
    requires Tiles(bs) && 0 <= i < j < |bs|
    ensures End(bs[i]) <= bs[j].off
  {
    if i + 1 < j {
      Ordered(bs, i, j - 1);
    }
  }

  lemma {:induction false} Aligned(bs: seq<Block>, i: int)
    requires Tiles(bs) && 0 <= i < |bs|
    ensures bs[i].off >= 0 && bs[i].off % 16 == 0 && End(bs[i]) <= 0x40_0000 && HeaderAt(bs[i].off)
  {
    if i > 0 {
      AlignedLow(bs, i);
    }
    if i < |bs| - 1 {
      Ordered(bs, i, |bs| - 1);
    }
  }

  lemma {:induction false} AlignedLow(bs: seq<Block>, i: int)
    requires Tiles(bs) && 0 <= i < |bs|
    ensures bs[i].off >= 0 && bs[i].off % 16 == 0
  {
    if i > 0 {
      AlignedLow(bs, i - 1);
      assert bs[i].off == End(bs[i - 1]);
    }
  }

  lemma TilesInWindow(bs: seq<Block>)
    requires Tiles(bs)
    ensures InWindow(bs)
  {
    forall i | 0 <= i < |bs|
      ensures HeaderAt(bs[i].off) && 0 <= bs[i].off && 0 <= bs[i].size && End(bs[i]) <= 0x40_0000
    {
      Aligned(bs, i);
    }
  }

  /** Memory holds the header of every block, linked in order. */
  ghost predicate Linked(m: Window, bs: seq<Block>) {
    InWindow(bs) && forall i :: 0 <= i < |bs| ==> ReadHeader(m, bs[i].off) == HeaderOf(bs, i)
  }

  ghost predicate Live(bs: seq<Block>, i: int) {
    0 <= i < |bs| && !bs[i].free
  }

  /** The bytes of the payload of block `b`. */
  function PayloadOf(m: Window, b: Block): (s: seq<byte>)
    requires 0 <= b.off && 0 <= b.size && End(b) <= 0x40_0000
  {
    m[b.off + 32..End(b)]
  }

  lemma PayloadKept(m: Window, o: int, h: Header, b: Block)
    requires HeaderAt(o) && HeaderAt(b.off) && 0 <= b.size && End(b) <= 0x40_0000
    requires o + 32 <= b.off + 32 || End(b) <= o
    ensures PayloadOf(WriteHeader(m, o, h), b) == PayloadOf(m, b)
  {
  }

  // ----- sizes -----

  function Total(bs: seq<Block>, free: bool): (n: int) {
    if bs == [] then 0 else Total(bs[..|bs| - 1], free) + (if bs[|bs| - 1].free == free then bs[|bs| - 1].size else 0)
  }

  lemma {:induction false} SizesAddUp(bs: seq<Block>, k: nat)
    requires Tiles(bs) && 1 <= k <= |bs|
    ensures Total(bs[..k], true) + Total(bs[..k], false) + 32 * k == End(bs[k - 1])
  {
    var s := bs[..k];
    assert s[..k - 1] == bs[..k - 1];
    if k > 1 {
      SizesAddUp(bs, k - 1);
      assert bs[k - 1].off == End(bs[k - 2]);
    } else {
      assert s[..0] == [];
    }
  }

  /** Used, free and header bytes always make up the window. */
  lemma Conservation(bs: seq<Block>)
    requires Tiles(bs)
    ensures Total(bs, true) + Total(bs, false) + 32 * |bs| == 0x40_0000
  {
    SizesAddUp(bs, |bs|);
    assert bs[..|bs|] == bs;
  }

  // ----- edits of the list -----

  function Flagged(bs: seq<Block>, k: int, free: bool): (r: seq<Block>)
    requires 0 <= k < |bs|
  {
    bs[k := bs[k].(free := free)]
  }

  /** Block `k` cut in two, both free; the first keeps `want` bytes. */
  function Split(bs: seq<Block>, k: int, want: int): (r: seq<Block>)
    requires 0 <= k < |bs|
  {
    bs[..k] + [Block(bs[k].off, want, true), Block(bs[k].off + 32 + want, bs[k].size - want - 32, true)] + bs[k + 1..]
  }

  /** Block `k` swallows its successor. */
  function Merge(bs: seq<Block>, k: int): (r: seq<Block>)
    requires 0 <= k < |bs| - 1
  {
    bs[..k] + [Block(bs[k].off, bs[k].size + 32 + bs[k + 1].size, bs[k].free)] + bs[k + 2..]
  }

  lemma TilesFlagged(bs: seq<Block>, k: int, free: bool)
    requires Tiles(bs) && 0 <= k < |bs|
    ensures Tiles(Flagged(bs, k, free))
  {
    var r := Flagged(bs, k, free);
    assert forall i :: 0 <= i < |bs| ==> r[i].off == bs[i].off && r[i].size == bs[i].size;
  }

  lemma TilesSplit(bs: seq<Block>, k: int, want: int)
    requires Tiles(bs) && 0 <= k < |bs| && 0 <= want && want % 16 == 0 && want + 32 <= bs[k].size
    ensures Tiles(Split(bs, k, want))
  {
    hide Split;
    var r := Split(bs, k, want);
    SplitParts(bs, k, want);
    Sixteens(bs[k].size, want);
    forall i | 0 <= i < |r|
      ensures r[i].size >= 0 && r[i].size % 16 == 0
    {
      assert i > k + 1 ==> r[i] == bs[i - 1];
    }
    forall i | 0 <= i < |r| - 1
      ensures r[i + 1].off == End(r[i])
    {
      if i < k {
        assert bs[i + 1].off == End(bs[i]);
      } else if i > k {
        assert bs[i].off == End(bs[i - 1]);
      }
    }
  }

  lemma Sixteens(a: int, b: int)
    requires a % 16 == 0 && b % 16 == 0
    ensures (a - b - 32) % 16 == 0
  {
    assert a - b - 32 == 16 * (a / 16 - b / 16 - 2);
  }

  lemma SplitParts(bs: seq<Block>, k: int, want: int)
    requires 0 <= k < |bs|
    ensures var r := Split(bs, k, want);
      && |r| == |bs| + 1
      && (forall i :: 0 <= i < k ==> r[i] == bs[i]) && (forall i :: k + 1 < i < |r| ==> r[i] == bs[i - 1])
      && r[k] == Block(bs[k].off, want, true)
      && r[k + 1] == Block(bs[k].off + 32 + want, bs[k].size - want - 32, true)
  {
  }

  lemma TilesMerge(bs: seq<Block>, k: int)
    requires Tiles(bs) && 0 <= k < |bs| - 1
    ensures Tiles(Merge(bs, k))
  {
    var r := Merge(bs, k);
    assert forall i :: 0 <= i < k ==> r[i] == bs[i];
    assert forall i :: k < i < |r| ==> r[i] == bs[i + 1];
    assert bs[k + 1].off == End(bs[k]);
    forall i | 0 <= i < |r| - 1
      ensures r[i + 1].off == End(r[i])
    {
      if i < k {
        assert bs[i + 1].off == End(bs[i]);
      } else {
        assert bs[i + 2].off == End(bs[i + 1]);
      }
    }
  }

  // ----- the same edits in memory -----

  /** Rewriting the header of block `k` leaves all other headers readable. */
  lemma OtherHeaders(m: Window, bs: seq<Block>, k: int, h: Header, i: int)
    requires Tiles(bs) && InWindow(bs) && 0 <= k < |bs| && 0 <= i < |bs|
    ensures ReadHeader(WriteHeader(m, bs[k].off, h), bs[i].off) == if i == k then h else ReadHeader(m, bs[i].off)
  {
    hide WriteHeader, ReadHeader, Tiles;
    if i < k {
      Ordered(bs, i, k);
    } else if k < i {
      Ordered(bs, k, i);
    }
    HeaderRoundTrip(m, bs[k].off, h, bs[i].off);
  }

  lemma LinkedFlagged(m: Window, bs: seq<Block>, k: int, free: bool)
    requires Tiles(bs) && Linked(m, bs) && 0 <= k < |bs|
    ensures var r := Flagged(bs, k, free);
      Tiles(r) && InWindow(r) && Linked(WriteHeader(m, bs[k].off, HeaderOf(r, k)), r)
  {
    hide WriteHeader, ReadHeader, HeaderAt;
    var r := Flagged(bs, k, free);
    TilesFlagged(bs, k, free);
    TilesInWindow(r);
    forall i | 0 <= i < |bs|
      ensures ReadHeader(WriteHeader(m, bs[k].off, HeaderOf(r, k)), r[i].off) == HeaderOf(r, i)
    {
      OtherHeaders(m, bs, k, HeaderOf(r, k), i);
    }
  }

  /** Merging keeps every header but that of the block that grows. */
  lemma HeadersKept(bs: seq<Block>, k: int, i: int)
    requires Tiles(bs) && InWindow(bs) && 0 <= k < |bs| - 1 && 0 <= i < |Merge(bs, k)| && InWindow(Merge(bs, k))
    ensures var r, j := Merge(bs, k), if i <= k then i else i + 1;
      j < |bs| && r[i].off == bs[j].off && (i != k ==> HeaderOf(r, i) == HeaderOf(bs, j))
  {
    hide Tiles, InWindow, HeaderAt;
    var r, j := Merge(bs, k), if i <= k then i else i + 1;
    assert i != k ==> r[i] == bs[j] && Addr(r, i + 1) == Addr(bs, j + 1);
  }

  lemma MergeLength(bs: seq<Block>, k: int)
    requires 0 <= k < |bs| - 1
    ensures |Merge(bs, k)| == |bs| - 1
  {
  }

  lemma LinkedMerge(m: Window, bs: seq<Block>, k: int)
    requires Tiles(bs) && Linked(m, bs) && 0 <= k < |bs| - 1
    ensures var r := Merge(bs, k);
      Tiles(r) && InWindow(r) && Linked(WriteHeader(m, bs[k].off, HeaderOf(r, k)), r)
  {
    hide WriteHeader, ReadHeader, HeaderAt, Tiles, HeaderOf, Merge;
    MergeLength(bs, k);
    var r := Merge(bs, k);
    TilesMerge(bs, k);
    TilesInWindow(r);
    forall i | 0 <= i < |r|
      ensures ReadHeader(WriteHeader(m, bs[k].off, HeaderOf(r, k)), r[i].off) == HeaderOf(r, i)
    {
      var j := if i <= k then i else i + 1;
      HeadersKept(bs, k, i);
      OtherHeaders(m, bs, k, HeaderOf(r, k), j);
    }
  }

  /** Memory after a split: the tail header first, then the shortened block. */
  function SplitMemory(m: Window, bs: seq<Block>, k: int, want: int): (r: Window)
    requires 0 <= k < |bs| && InWindow(bs) && InWindow(Split(bs, k, want))
  {
    var r := Split(bs, k, want);
    assert r[k + 1] == Block(bs[k].off + 32 + want, bs[k].size - want - 32, true);
    WriteHeader(WriteHeader(m, r[k + 1].off, HeaderOf(r, k + 1)), bs[k].off, HeaderOf(r, k))
  }

  lemma LinkedSplit(m: Window, bs: seq<Block>, k: int, want: int)
    requires Tiles(bs) && Linked(m, bs) && 0 <= k < |bs| && 0 <= want && want % 16 == 0 && want + 32 <= bs[k].size
    ensures var r := Split(bs, k, want); Tiles(r) && InWindow(r) && Linked(SplitMemory(m, bs, k, want), r)
  {
    hide WriteHeader, ReadHeader, HeaderAt, Tiles;
    var r := Split(bs, k, want);
    TilesSplit(bs, k, want);
    TilesInWindow(r);
    var t := HeaderOf(r, k + 1);
    var m1 := WriteHeader(m, r[k + 1].off, t);
    forall i | 0 <= i < |r|
      ensures ReadHeader(SplitMemory(m, bs, k, want), r[i].off) == HeaderOf(r, i)
    {
      OtherHeaders(m, r, k + 1, t, i);
      OtherHeaders(m1, r, k, HeaderOf(r, k), i);
      if i < k {
        assert r[i] == bs[i] && Addr(r, i + 1) == Addr(bs, i + 1);
      } else if i > k + 1 {
        assert r[i] == bs[i - 1] && Addr(r, i + 1) == Addr(bs, i);
      }
    }
  }

  /** No header lies in front of the address. */
  predicate Headless(m: Window, p: int) {
    HeaderAt(p - START - 32) && ReadHeader(m, p - START - 32).magic != MAGIC
  }

  // ----- live payloads -----

  /** Every block in use in `bs`, except `k`, is still there and holds the same bytes. */
  ghost predicate Preserved(m: Window, bs: seq<Block>, m': Window, bs': seq<Block>, k: int)
    requires InWindow(bs)
  {
    forall j :: 0 <= j < |bs| && j != k && !bs[j].free ==>
      bs[j] in bs' && PayloadOf(m', bs[j]) == PayloadOf(m, bs[j])
  }

  lemma HeaderWritePreserves(m: Window, bs: seq<Block>, k: int, h: Header, j: int)
    requires Tiles(bs) && InWindow(bs) && 0 <= k < |bs| && 0 <= j < |bs|
    ensures PayloadOf(WriteHeader(m, bs[k].off, h), bs[j]) == PayloadOf(m, bs[j])
  {
    hide WriteHeader, Tiles, PayloadOf;
    if j < k {
      Ordered(bs, j, k);
    } else if k < j {
      Ordered(bs, k, j);
    }
    PayloadKept(m, bs[k].off, h, bs[j]);
  }

  // ----- first fit -----

  predicate Fits(b: Block, want: int) {
    b.free && b.size >= want
  }

  /** The first block from `i` on that is free and large enough, the length of the list if none is. */
  function FirstFit(bs: seq<Block>, want: int, i: nat): (k: nat)
    requires i <= |bs|
    ensures i <= k <= |bs| && (k < |bs| ==> Fits(bs[k], want))
    ensures forall j :: i <= j < k ==> !Fits(bs[j], want)
    decreases |bs| - i
  {
    if i == |bs| || Fits(bs[i], want) then i else FirstFit(bs, want, i + 1)
  }

  /** The list once block `k` has been taken for `want` bytes: cut if more than 48 bytes would be left over. */
  function Taken(bs: seq<Block>, k: int, want: int): (r: seq<Block>)
    requires 0 <= k < |bs|
  {
    Flagged(if bs[k].size - want > 48 then Split(bs, k, want) else bs, k, false)
  }

  /** The list once block `k` has been freed and merged with the free blocks that follow. */
  function Coalesced(bs: seq<Block>, k: int): (r: seq<Block>)
    requires 0 <= k < |bs|
    decreases |bs|
  {
    if k + 1 < |bs| && bs[k + 1].free then Coalesced(Merge(bs, k), k) else bs
  }

  /** `(n + 15) & ~15` in 64 bits: wraps to 0 for the fifteen largest requests. */
  function AlignUp(n: u64): (r: int)
    ensures r % 16 == 0 && 0 <= r
    ensures n <= TWO_64 - 16 ==> n <= r < n + 16
    ensures n > TWO_64 - 16 ==> r == 0
  {
    (n + 15) % TWO_64 / 16 * 16
  }

  // ----- any sequence of requests -----

  /** A request as it acts on the list: allocate a size, or free or resize the block at an index. */
  datatype Request = Alloc(size: u64) | Free(k: int) | Realloc(k: int, size: u64)

  function Apply(bs: seq<Block>, r: Request): (out: seq<Block>) {
    match r
    case Alloc(size) => Allocated(bs, size)
    case Free(k) => Freed(bs, k)
    case Realloc(k, size) =>
      if k < 0 || k >= |bs| || bs[k].free then bs
      else if size == 0 then Freed(bs, k)
      else if bs[k].size >= size then bs
      else Freed(Allocated(bs, size), Shifted(bs, k, size))
  }

  /** The first block that fits is taken, if there is one. */
  function Allocated(bs: seq<Block>, size: u64): (out: seq<Block>) {
    var k := FirstFit(bs, AlignUp(size), 0);
    if size == 0 || k == |bs| then bs else Taken(bs, k, AlignUp(size))
  }

  function Freed(bs: seq<Block>, k: int): (out: seq<Block>) {
    if 0 <= k < |bs| && !bs[k].free then Coalesced(Flagged(bs, k, true), k) else bs
  }

  /** Where block `k` is after an allocation, -1 if the allocation fails: one further if an earlier block was cut. */
  function Shifted(bs: seq<Block>, k: int, size: u64): (i: int) {
    var j := FirstFit(bs, AlignUp(size), 0);
    if size == 0 || j == |bs| then -1
    else if j < k && bs[j].size - AlignUp(size) > 48 then k + 1 else k
  }

  function ApplyAll(bs: seq<Block>, rs: seq<Request>): (out: seq<Block>)
    decreases |rs|
  {
    if rs == [] then bs else ApplyAll(Apply(bs, rs[0]), rs[1..])
  }

  lemma {:induction false} TilesCoalesced(bs: seq<Block>, k: int)
    requires Tiles(bs) && 0 <= k < |bs|
    ensures Tiles(Coalesced(bs, k))
    decreases |bs|
  {
    if k + 1 < |bs| && bs[k + 1].free {
      TilesMerge(bs, k);
      TilesCoalesced(Merge(bs, k), k);
    }
  }

  lemma TilesAllocated(bs: seq<Block>, size: u64)
    requires Tiles(bs)
    ensures Tiles(Allocated(bs, size))
  {
    hide Tiles, Coalesced, Merge, Split, AlignUp, Flagged;
    var k, want := FirstFit(bs, AlignUp(size), 0), AlignUp(size);
    if size != 0 && k < |bs| {
      if bs[k].size - want > 48 {
        TilesSplit(bs, k, want);
        SplitLength(bs, k, want);
        TilesFlagged(Split(bs, k, want), k, false);
      } else {
        TilesFlagged(bs, k, false);
      }
    }
  }

  lemma TilesFreed(bs: seq<Block>, k: int)
    requires Tiles(bs)
    ensures Tiles(Freed(bs, k))
  {
    hide Tiles, Coalesced, Merge, Flagged;
    if 0 <= k < |bs| && !bs[k].free {
      FlaggedLength(bs, k, true);
      TilesFlagged(bs, k, true);
      TilesCoalesced(Flagged(bs, k, true), k);
    }
  }

  lemma TilesApply(bs: seq<Block>, r: Request)
    requires Tiles(bs)
    ensures Tiles(Apply(bs, r))
  {
    hide Tiles, Allocated, Freed, Shifted;
    match r
    case Alloc(size) => TilesAllocated(bs, size);
    case Free(k) => TilesFreed(bs, k);
    case Realloc(k, size) =>
      TilesFreed(bs, k);
      TilesAllocated(bs, size);
      TilesFreed(Allocated(bs, size), Shifted(bs, k, size));
  }

  lemma SplitLength(bs: seq<Block>, k: int, want: int)
    requires 0 <= k < |bs|
    ensures |Split(bs, k, want)| == |bs| + 1
  {
  }

  lemma FlaggedLength(bs: seq<Block>, k: int, free: bool)
    requires 0 <= k < |bs|
    ensures |Flagged(bs, k, free)| == |bs|
  {
  }

  /** After any sequence of requests the blocks tile the window and the byte counts add up to it. */
  lemma {:induction false} AlwaysTiled(bs: seq<Block>, rs: seq<Request>)
    requires Tiles(bs)
    ensures var out := ApplyAll(bs, rs); Tiles(out) && Total(out, true) + Total(out, false) + 32 * |out| == 0x40_0000
    decreases |rs|
  {
    hide Apply, Total, Tiles;
    if rs == [] {
      Conservation(bs);
    } else {
      TilesApply(bs, rs[0]);
      AlwaysTiled(Apply(bs, rs[0]), rs[1..]);
    }
  }

  // ----- what allocating and freeing do to the list -----

  /**
   Block `k` was free and is in use: it exceeds the rounded request by at most 48
   bytes, and more than that was cut off as one free block behind it.
   */
  ghost predicate Granted(bs: seq<Block>, k: int, want: int, out: seq<Block>) {
    && 0 <= k < |bs| && bs[k].free && k < |out| && out[..k] == bs[..k]
    && out[k] == Block(bs[k].off, out[k].size, false) && want <= out[k].size <= want + 48
    && (bs[k].size <= want + 48 ==> out[k].size == bs[k].size && out[k + 1..] == bs[k + 1..])
    && (bs[k].size > want + 48 ==>
          && out[k].size == want && k + 1 < |out| && out[k + 2..] == bs[k + 1..]
          && out[k + 1] == Block(bs[k].off + 32 + want, bs[k].size - want - 32, true))
  }

  lemma FirstFitMeaning(bs: seq<Block>, want: int)
    ensures var k := FirstFit(bs, want, 0);
      && (k == |bs| <==> forall i :: 0 <= i < |bs| && bs[i].free ==> bs[i].size < want)
      && (k < |bs| ==> bs[k].free && bs[k].size >= want)
      && forall i :: 0 <= i < k && bs[i].free ==> bs[i].size < want
  {
    hide FirstFit;
    var k := FirstFit(bs, want, 0);
    assert k < |bs| ==> Fits(bs[k], want);
    assert forall i :: 0 <= i < k ==> !Fits(bs[i], want);
  }

  lemma TakenMeaning(bs: seq<Block>, k: int, want: int)
    requires 0 <= k < |bs| && bs[k].free && bs[k].size >= want
    ensures Granted(bs, k, want, Taken(bs, k, want))
  {
    hide Split;
    var out := Taken(bs, k, want);
    if bs[k].size > want + 48 {
      SplitParts(bs, k, want);
      assert out[..k] == bs[..k] && out[k + 2..] == bs[k + 1..];
    }
  }

  /**
   Block `k` is free and reaches over the free blocks behind it: to the first block
   in use, number `e` before, or to the end of the window.
   */
  ghost predicate Merged(bs: seq<Block>, k: int, e: int, out: seq<Block>) {
    && 0 <= k < e <= |bs|
    && (forall i :: k < i < e ==> bs[i].free) && (e < |bs| ==> !bs[e].free)
    && |out| == |bs| - (e - k - 1) && out[..k] == bs[..k] && out[k + 1..] == bs[e..]
    && out[k] == Block(bs[k].off, (if e < |bs| then bs[e].off else 0x40_0000) - bs[k].off - 32, true)
  }

  lemma {:induction false} CoalescedMeaning(bs: seq<Block>, k: int) returns (e: int)
    requires Tiles(bs) && 0 <= k < |bs| && bs[k].free
    ensures Merged(bs, k, e, Coalesced(bs, k))
    decreases |bs|
  {
    hide Merge, Tiles;
    if k + 1 < |bs| && bs[k + 1].free {
      MergeParts(bs, k);
      var m := Merge(bs, k);
      TilesMerge(bs, k);
      var f := CoalescedMeaning(m, k);
      e := f + 1;
      forall i | k < i < e
        ensures bs[i].free
      {
        assert i > k + 1 ==> m[i - 1] == bs[i];
      }
      assert m[..k] == bs[..k] && m[f..] == bs[e..];
    } else {
      e := k + 1;
      Neighbour(bs, k);
    }
  }

  lemma Neighbour(bs: seq<Block>, k: int)
    requires Tiles(bs) && 0 <= k < |bs|
    ensures bs[k].off + 32 + bs[k].size == if k + 1 < |bs| then bs[k + 1].off else 0x40_0000
  {
  }

  lemma MergeParts(bs: seq<Block>, k: int)
    requires 0 <= k < |bs| - 1
    ensures var m := Merge(bs, k);
      && |m| == |bs| - 1 && (forall i :: 0 <= i < k ==> m[i] == bs[i]) && (forall i :: k < i < |m| ==> m[i] == bs[i + 1])
      && m[k].off == bs[k].off && m[k].free == bs[k].free
  {
  }

  /** Freeing merges forward as far as there are free blocks, so the next block is in use. */
  lemma FreedMeaning(bs: seq<Block>, k: int) returns (e: int)
    requires Tiles(bs) && 0 <= k < |bs| && !bs[k].free
    ensures Merged(bs, k, e, Freed(bs, k))
    ensures k + 1 < |Freed(bs, k)| ==> !Freed(bs, k)[k + 1].free
  {
    hide Tiles, Coalesced;
    var fs := Flagged(bs, k, true);
    TilesFlagged(bs, k, true);
    e := CoalescedMeaning(fs, k);
    assert forall i :: 0 <= i < |bs| && i != k ==> fs[i] == bs[i];
    assert fs[..k] == bs[..k] && fs[e..] == bs[e..];
    assert forall i :: k < i < e ==> fs[i].free;
    var out := Freed(bs, k);
    if k + 1 < |out| {
      assert out[k + 1] == out[k + 1..][0] == bs[e..][0];
    }
  }

  /** Freeing what was just allocated restores the list exactly when the block behind it was not free. */
  lemma FreeUndoesAlloc(bs: seq<Block>, size: u64)
    requires Tiles(bs) && size != 0 && FirstFit(bs, AlignUp(size), 0) < |bs|
    ensures var k := FirstFit(bs, AlignUp(size), 0);
      Freed(Allocated(bs, size), k) == bs <==> k + 1 == |bs| || !bs[k + 1].free
  {
    hide Tiles, Coalesced, AlignUp, FirstFit, Freed, Taken;
    var k, want := FirstFit(bs, AlignUp(size), 0), AlignUp(size);
    var mid := Allocated(bs, size);
    assert Fits(bs[k], want);
    TakenMeaning(bs, k, want);
    TilesAllocated(bs, size);
    var e := FreedMeaning(mid, k);
    MergedBack(bs, k, want, mid, e, Freed(mid, k));
  }

  lemma MergedBack(bs: seq<Block>, k: int, want: int, mid: seq<Block>, e: int, out: seq<Block>)
    requires Tiles(bs) && Granted(bs, k, want, mid) && Merged(mid, k, e, out)
    ensures out == bs <==> k + 1 == |bs| || !bs[k + 1].free
  {
    var cut := bs[k].size > want + 48;
    var shift := if cut then 1 else 0;
    assert |mid| == |bs| + shift by { assert |mid[k + 1 + shift..]| == |bs[k + 1..]|; }
    forall i | k < i < |bs|
      ensures mid[i + shift] == bs[i]
    {
      assert mid[i + shift] == mid[k + 1 + shift..][i - k - 1] == bs[k + 1..][i - k - 1];
    }
    if k + 1 == |bs| || !bs[k + 1].free {
      assert e == k + 1 + shift;
      assert k + 1 < |bs| ==> bs[k + 1].off == End(bs[k]);
      assert out[k] == bs[k];
      assert bs == bs[..k] + [bs[k]] + bs[k + 1..];
      assert out == out[..k] + [out[k]] + out[k + 1..];
      assert mid[e..] == bs[k + 1..];
    } else {
      assert e > k + 1 + shift;
    }
  }

  lemma {:induction false} TotalSplit(bs: seq<Block>, cs: seq<Block>, free: bool)
    ensures Total(bs + cs, free) == Total(bs, free) + Total(cs, free)
    decreases |cs|
  {
    if cs == [] {
      assert bs + cs == bs;
    } else {
      var n := |cs| - 1;
      assert (bs + cs)[..|bs| + n] == bs + cs[..n];
      TotalSplit(bs, cs[..n], free);
    }
  }

  /** A block that becomes free counts as free bytes, no longer as used ones. */
  lemma TotalFlagged(bs: seq<Block>, k: int)
    requires 0 <= k < |bs| && !bs[k].free
    ensures Total(Flagged(bs, k, true), true) == Total(bs, true) + bs[k].size
    ensures Total(Flagged(bs, k, true), false) == Total(bs, false) - bs[k].size
  {
    var r := Flagged(bs, k, true);
    assert bs == bs[..k] + ([bs[k]] + bs[k + 1..]);
    assert r == bs[..k] + ([r[k]] + bs[k + 1..]);
    forall f: bool
      ensures Total(bs, f) == Total(bs[..k], f) + Total([bs[k]], f) + Total(bs[k + 1..], f)
      ensures Total(r, f) == Total(bs[..k], f) + Total([r[k]], f) + Total(bs[k + 1..], f)
    {
      TotalSplit(bs[..k], [bs[k]] + bs[k + 1..], f);
      TotalSplit([bs[k]], bs[k + 1..], f);
      TotalSplit(bs[..k], [r[k]] + bs[k + 1..], f);
      TotalSplit([r[k]], bs[k + 1..], f);
    }
    assert [bs[k]][..0] == [] && [r[k]][..0] == [];
  }

  /**
   What the words of memory spell at every block: the size at byte 0, the magic
   number at 8, the address of the next block or 0 at 16, the free flag at 24.
   */
  lemma HeaderInMemory(m: Window, bs: seq<Block>, i: int)
    requires Linked(m, bs) && 0 <= i < |bs|
    ensures var q := bs[i].off / 4;
      && Word(m, q) + 0x1_0000_0000 * Word(m, q + 1) == bs[i].size && Word(m, q + 2) == 0xA55A_5A55
      && Word(m, q + 4) + 0x1_0000_0000 * Word(m, q + 5) == (if i + 1 < |bs| then 0x20_0000 + bs[i + 1].off else 0)
      && Word(m, q + 6) == if bs[i].free then 1 else 0
  {
    hide Word;
    assert ReadHeader(m, bs[i].off) == HeaderOf(bs, i);
  }

  // ----- any sequence of calls -----

  datatype Call = Malloc(size: u64) | Release(p: int) | Resize(p: int, size: u64)

  datatype HeapState = HeapState(mem: Window, blocks: seq<Block>)

  /** The index of the block with payload address `p`, -1 if there is none. */
  ghost function IndexOf(bs: seq<Block>, p: int): (k: int)
    ensures k == -1 || (0 <= k < |bs| && Payload(bs[k]) == p)
    ensures k == -1 ==> forall i :: 0 <= i < |bs| ==> Payload(bs[i]) != p
  {
    if bs == [] then -1
    else if Payload(bs[|bs| - 1]) == p then |bs| - 1
    else IndexOf(bs[..|bs| - 1], p)
  }

  /** What the source asks of its callers: null or the payload of a block, a live one to resize, whose bytes fit where they go. */
  ghost predicate Allowed(bs: seq<Block>, c: Call) {
    match c
    case Malloc(_) => true
    case Release(p) => p == 0 || IndexOf(bs, p) != -1
    case Resize(p, size) => p == 0 || (Live(bs, IndexOf(bs, p)) && CopyFits(bs, IndexOf(bs, p), size))
  }

  ghost function RequestOf(bs: seq<Block>, c: Call): (r: Request) {
    match c
    case Malloc(size) => Alloc(size)
    case Release(p) => Free(if p == 0 then -1 else IndexOf(bs, p))
    case Resize(p, size) => if p == 0 then Alloc(size) else Realloc(IndexOf(bs, p), size)
  }

  ghost predicate AllAllowed(bs: seq<Block>, cs: seq<Call>)
    decreases |cs|
  {
    cs != [] ==> Allowed(bs, cs[0]) && AllAllowed(Apply(bs, RequestOf(bs, cs[0])), cs[1..])
  }

  ghost function Requests(bs: seq<Block>, cs: seq<Call>): (rs: seq<Request>)
    decreases |cs|
  {
    if cs == [] then []
    else var r := RequestOf(bs, cs[0]); [r] + Requests(Apply(bs, r), cs[1..])
  }

  /** The call releases or resizes the block. */
  predicate Touches(c: Call, b: Block) {
    (c.Release? || c.Resize?) && c.p == Payload(b)
  }

  /** Every block in use that the call does not touch is still there and holds the same bytes. */
  ghost predicate Spares(s: HeapState, c: Call, s': HeapState) {
    && InWindow(s.blocks)
    && forall j :: 0 <= j < |s.blocks| && !s.blocks[j].free && !Touches(c, s.blocks[j]) ==>
      s.blocks[j] in s'.blocks && PayloadOf(s'.mem, s.blocks[j]) == PayloadOf(s.mem, s.blocks[j])
  }

  lemma PreservedSpares(s: HeapState, c: Call, s': HeapState, k: int)
    requires InWindow(s.blocks) && Preserved(s.mem, s.blocks, s'.mem, s'.blocks, k)
    requires 0 <= k < |s.blocks| ==> Touches(c, s.blocks[k])
    ensures Spares(s, c, s')
  {
  }

  /** The block a resize would copy into is large enough; only a size that wraps can make it too small. */
  predicate CopyFits(bs: seq<Block>, k: int, size: u64) {
    || size <= TWO_64 - 16
    || var j := FirstFit(bs, AlignUp(size), 0);
       j == |bs| || (0 <= k < |bs| && bs[k].size <= if bs[j].size - AlignUp(size) > 48 then AlignUp(size) else bs[j].size)
  }

  lemma CopyRoom(bs: seq<Block>, k: int, j: int, size: u64)
    requires Tiles(bs) && 0 <= k < |bs| && bs[k].size < size && CopyFits(bs, k, size)
    requires j == FirstFit(bs, AlignUp(size), 0) < |bs|
    ensures j < |Taken(bs, j, AlignUp(size))| && bs[k].size <= Taken(bs, j, AlignUp(size))[j].size
  {
    hide Tiles, FirstFit, AlignUp;
    if bs[j].size - AlignUp(size) > 48 { SplitParts(bs, j, AlignUp(size)); }
    assert Fits(bs[j], AlignUp(size));
  }

  /** A pointer handed out is the payload of a block in use, as large as asked. */
  ghost predicate Grants(c: Call, p: int, s': HeapState) {
    p != 0 ==> !c.Release? && exists b :: b in s'.blocks && !b.free && p == Payload(b) && (c.size <= TWO_64 - 16 ==> b.size >= c.size)
  }

  ghost predicate Trace(cs: seq<Call>, states: seq<HeapState>) {
    |states| == |cs| + 1 && forall i :: 0 <= i < |cs| ==> Spares(states[i], cs[i], states[i + 1])
  }

  /**
   Over every sequence of calls, a block in use that is neither released nor
   resized stays where it is, as large as it is, with the same bytes.
   */
  lemma {:induction false} LivePayloadsKept(cs: seq<Call>, states: seq<HeapState>, i: nat, j: nat, b: Block)
    requires Trace(cs, states) && i <= j < |states| && b in states[i].blocks && !b.free
    requires forall n :: i <= n < j ==> !Touches(cs[n], b)
    requires InWindow(states[i].blocks) && InWindow(states[j].blocks)
    ensures b in states[j].blocks && PayloadOf(states[j].mem, b) == PayloadOf(states[i].mem, b)
    decreases j - i
  {
    hide PayloadOf, InWindow, Touches;
    if i < j {
      assert Spares(states[j - 1], cs[j - 1], states[j - 1 + 1]);
      LivePayloadsKept(cs, states, i, j - 1, b);
    }
  }

  /** Payloads start on 16-byte boundaries and do not overlap. */
  lemma PayloadsDisjoint(bs: seq<Block>, i: int, j: int)
    requires Tiles(bs) && 0 <= i < j < |bs|
    ensures Payload(bs[i]) % 16 == 0 && Payload(bs[i]) + bs[i].size + 32 <= Payload(bs[j])
  {
    Aligned(bs, i);
    Ordered(bs, i, j);
  }

  class KernelHeap {
    var head: int
    var mem: Window
    ghost var blocks: seq<Block>

    ghost predicate Valid()
      reads this
    {
      (head == 0 && blocks == []) || (head == START && Tiles(blocks) && Linked(mem, blocks))
    }

    constructor (mem: Window)
      ensures Valid() && head == 0 && this.mem == mem
    {
      head, this.mem, blocks := 0, mem, [];
    }

    /** One free block fills the window. */
    method Init()
      modifies this
      ensures Valid() && head == START && blocks == [Block(0, 0x40_0000 - 32, true)]
    {
      hide ReadHeader, WriteHeader;
      head := START;
      blocks := [Block(0, 0x40_0000 - 32, true)];
      var h := Header(0x40_0000 - 32, MAGIC, 0, 1);
      HeaderRoundTrip(mem, 0, h, 0);
      mem := WriteHeader(mem, 0, h);
    }

    /**
     First fit.  The payload holds the request exactly when rounding up did not
     wrap; no block in use moves or changes.
     */
    method Kmalloc(size: u64) returns (p: int, ghost k: int)
      requires Valid()
      modifies this`mem, this`blocks
      ensures Valid()
      ensures p == 0 <==> size == 0 || head == 0 || forall i :: 0 <= i < |old(blocks)| && old(blocks)[i].free ==> old(blocks)[i].size < AlignUp(size)
      ensures blocks == Apply(old(blocks), Alloc(size))
      ensures p == 0 ==> mem == old(mem) && blocks == old(blocks)
      ensures p != 0 ==>
        && k == FirstFit(old(blocks), AlignUp(size), 0) && Granted(old(blocks), k, AlignUp(size), blocks)
        && (forall i :: 0 <= i < k && old(blocks)[i].free ==> old(blocks)[i].size < AlignUp(size))
        && blocks == Taken(old(blocks), k, AlignUp(size))
        && k < |blocks| && Live(blocks, k) && p == Payload(blocks[k]) && p % 16 == 0
        && p == 0x20_0020 + blocks[k].off && 0x20_0020 <= p && p + blocks[k].size <= 0x60_0000
        && old(blocks)[k].free && blocks[k].off == old(blocks)[k].off
        && (blocks[k].size >= size <==> size <= TWO_64 - 16)
        && InWindow(old(blocks)) && Preserved(old(mem), old(blocks), mem, blocks, k)
    {
      hide ReadHeader, WriteHeader, Linked, Tiles, Preserved, PayloadOf, AlignUp, InWindow, HeaderAt, Taken, FirstFit;
      p, k := 0, 0;
      if size == 0 || head == 0 { return; }
      var want := AlignUp(size);
      var b, h;
      b, h, k := FindFit(want);
      FirstFitMeaning(blocks, want);
      if b == 0 { return; }
      TakenMeaning(blocks, k, want);
      BlockHeader(mem, blocks, k);
      TakeBlock(b - START, h, want, k);
      p := b + 32;
    }

    /** Walks the list to the first free block that is large enough. */
    method FindFit(want: int) returns (b: int, h: Header, ghost k: int)
      requires head == START && Tiles(blocks) && Linked(mem, blocks)
      ensures k == FirstFit(blocks, want, 0) && b == Addr(blocks, k) && (b == 0 <==> k == |blocks|)
      ensures InWindow(blocks) && (b != 0 ==> h == HeaderOf(blocks, k))
    {
      hide ReadHeader, Linked, Tiles, InWindow, HeaderAt;
      b, k := head, 0;
      BlockHeader(mem, blocks, 0);
      while b != 0
        invariant 0 <= k <= |blocks| && b == Addr(blocks, k) && (b == 0 <==> k == |blocks|)
        invariant FirstFit(blocks, want, 0) == FirstFit(blocks, want, k)
        decreases |blocks| - k
      {
        BlockHeader(mem, blocks, k);
        // the magic number is intact, so the corruption return of the code is never taken
        h := ReadHeader(mem, b - START);
        if h.free != 0 && h.size >= want { return; }
        b, k := h.next, k + 1;
        BlockHeader(mem, blocks, k);
      }
      h := Header(0, 0, 0, 0);
    }

    /** Marks block `k` used, cutting off the tail when it is worth a block of its own. */
    method TakeBlock(o: int, h: Header, want: int, ghost k: int)
      requires head == START && Tiles(blocks) && Linked(mem, blocks)
      requires 0 <= k < |blocks| && o == blocks[k].off && h == HeaderOf(blocks, k)
      requires Fits(blocks[k], want) && 0 <= want && want % 16 == 0
      modifies this`mem, this`blocks
      ensures Tiles(blocks) && Linked(mem, blocks)
      ensures blocks == Taken(old(blocks), k, want) && k < |blocks| && Live(blocks, k)
      ensures blocks[k].off == old(blocks)[k].off && want <= blocks[k].size <= old(blocks)[k].size
      ensures Preserved(old(mem), old(blocks), mem, blocks, k)
    {
      hide ReadHeader, WriteHeader, Linked, Tiles, PayloadOf, HeaderAt, Preserved, Split, InWindow;
      BlockHeader(mem, blocks, k);
      ghost var m, bs := mem, blocks;
      var h' := h;
      if h.size - want > 48 {
        h' := CutTail(o, h, want, k);
      } else {
        PreservedSelf(m, bs, k);
      }
      ghost var m1, bs1 := mem, blocks;
      BlockHeader(mem, blocks, k);
      LinkedFlagged(mem, blocks, k, false);
      FlagPreserves(mem, blocks, k, false);
      FlagHeader(blocks, k, false);
      mem := WriteHeader(mem, o, h'.(free := 0));
      blocks := Flagged(blocks, k, false);
      PreservedTwice(m, bs, m1, bs1, mem, blocks, k);
    }

    /** Gives the tail of free block `k` a header of its own. */
    method CutTail(o: int, h: Header, want: int, ghost k: int) returns (h': Header)
      requires Tiles(blocks) && Linked(mem, blocks)
      requires 0 <= k < |blocks| && o == blocks[k].off && h == HeaderOf(blocks, k)
      requires blocks[k].free && 0 <= want && want % 16 == 0 && h.size - want > 48
      modifies this`mem, this`blocks
      ensures Tiles(blocks) && Linked(mem, blocks) && blocks == Split(old(blocks), k, want)
      ensures k < |blocks| && blocks[k] == Block(o, want, true) && h' == HeaderOf(blocks, k)
      ensures Preserved(old(mem), old(blocks), mem, blocks, k)
    {
      hide ReadHeader, WriteHeader, Linked, Tiles, PayloadOf, HeaderAt, Preserved;
      var remainder := h.size - want;
      var tail := o + 32 + want;
      BlockHeader(mem, blocks, k);
      LinkedSplit(mem, blocks, k, want);
      SplitPreserves(mem, blocks, k, want);
      SplitHeaders(blocks, k, want);
      mem := WriteHeader(mem, tail, Header(remainder - 32, MAGIC, h.next, 1));
      h' := h.(size := want, next := START + tail);
      mem := WriteHeader(mem, o, h');
      blocks := Split(blocks, k, want);
    }

    /**
     Frees a block and merges it with the free blocks behind it.  `k` is the index
     of the block the pointer was handed out for; freeing it twice, or freeing an
     address without a header in front of it, does nothing.
     */
    method Kfree(p: int, ghost k: int)
      requires Valid() && (p != 0 ==> head == START && (Headless(mem, p) || (0 <= k < |blocks| && p == Payload(blocks[k]))))
      modifies this`mem, this`blocks
      ensures Valid() && InWindow(old(blocks))
      ensures p == 0 || Headless(old(mem), p) ==> mem == old(mem) && blocks == old(blocks)
      ensures p != 0 && !Headless(old(mem), p) ==> blocks == Apply(old(blocks), Free(k))
      ensures p != 0 && !Headless(old(mem), p) && !old(blocks)[k].free ==> exists e :: Merged(old(blocks), k, e, blocks)
      ensures p != 0 && !Headless(old(mem), p) && old(blocks)[k].free ==> mem == old(mem) && blocks == old(blocks)
      ensures p != 0 && !Headless(old(mem), p) ==> Preserved(old(mem), old(blocks), mem, blocks, k)
    {
      hide ReadHeader, WriteHeader, Linked, Tiles, PayloadOf, HeaderAt, Preserved, Merge, InWindow, Flagged;
      ValidInWindow(mem, blocks);
      PreservedSelf(mem, blocks, k);
      if p == 0 { return; }
      if !Headless(mem, p) { BlockHeader(mem, blocks, k); }
      ghost var m, bs := mem, blocks;
      var o := p - START - 32;
      var h := ReadHeader(mem, o);
      if h.magic != MAGIC { return; }
      if h.free != 0 { return; }
      ghost var e := FreedMeaning(blocks, k);
      h := MarkFree(o, h, k);
      BlockHeader(mem, blocks, k + 1);
      while h.next != 0 && ReadHeader(mem, h.next - START).free != 0
        invariant Tiles(blocks) && Linked(mem, blocks) && InWindow(blocks)
        invariant 0 <= k < |blocks| && blocks[k].free && blocks[k].off == o && h == HeaderOf(blocks, k)
        invariant h.next == 0 <==> k + 1 == |blocks|
        invariant k + 1 < |blocks| ==>
          HeaderAt(blocks[k + 1].off) && ReadHeader(mem, blocks[k + 1].off) == HeaderOf(blocks, k + 1)
        invariant Coalesced(blocks, k) == Coalesced(Flagged(bs, k, true), k)
        invariant Preserved(m, bs, mem, blocks, k)
        decreases |blocks|
      {
        h := Absorb(o, h, k, m, bs);
        BlockHeader(mem, blocks, k + 1);
      }
    }

    /** Sets the free flag of block `k`. */
    method MarkFree(o: int, h: Header, ghost k: int) returns (h': Header)
      requires Tiles(blocks) && Linked(mem, blocks) && InWindow(blocks)
      requires 0 <= k < |blocks| && blocks[k].off == o && h == HeaderOf(blocks, k)
      modifies this`mem, this`blocks
      ensures Tiles(blocks) && Linked(mem, blocks) && InWindow(blocks) && blocks == Flagged(old(blocks), k, true)
      ensures |blocks| == |old(blocks)| && blocks[k].free && blocks[k].off == o && h' == HeaderOf(blocks, k)
      ensures Preserved(old(mem), old(blocks), mem, blocks, k)
    {
      hide ReadHeader, WriteHeader, Linked, Tiles, PayloadOf, HeaderAt, Preserved;
      BlockHeader(mem, blocks, k);
      LinkedFlagged(mem, blocks, k, true);
      FlagPreserves(mem, blocks, k, true);
      FlagHeader(blocks, k, true);
      h' := h.(free := 1);
      mem := WriteHeader(mem, o, h');
      blocks := Flagged(blocks, k, true);
    }

    /** One turn of the merge loop. */
    method Absorb(o: int, h: Header, ghost k: int, ghost m: Window, ghost bs: seq<Block>) returns (h': Header)
      requires Tiles(blocks) && Linked(mem, blocks) && InWindow(blocks)
      requires 0 <= k < |blocks| - 1 && blocks[k].free && blocks[k].off == o && h == HeaderOf(blocks, k)
      requires blocks[k + 1].free && InWindow(bs) && Preserved(m, bs, mem, blocks, k)
      modifies this`mem, this`blocks
      ensures Tiles(blocks) && Linked(mem, blocks) && blocks == Merge(old(blocks), k)
      ensures k < |blocks| < |old(blocks)| && blocks[k].free && blocks[k].off == o
      ensures InWindow(blocks) && h' == HeaderOf(blocks, k)
      ensures Preserved(m, bs, mem, blocks, k)
    {
      hide ReadHeader, WriteHeader, Linked, Tiles, PayloadOf, HeaderAt, Preserved, InWindow, Merge;
      BlockHeader(mem, blocks, k);
      BlockHeader(mem, blocks, k + 1);
      ghost var m1, bs1 := mem, blocks;
      var next := ReadHeader(mem, h.next - START);
      LinkedMerge(mem, blocks, k);
      MergePreserves(mem, blocks, k);
      MergeHeader(blocks, k);
      h' := h.(size := h.size + 32 + next.size, next := next.next);
      mem := WriteHeader(mem, o, h');
      blocks := Merge(blocks, k);
      PreservedTwice(m, bs, m1, bs1, mem, blocks, k);
    }

    /** Sums of used and free payload and the largest free block; with the headers they make up the window. */
    method Stats() returns (used: int, free: int, largest: int)
      requires Valid()
      ensures head == START ==>
        && used == Total(blocks, false) && free == Total(blocks, true)
        && used + free + 32 * |blocks| == 0x40_0000
        && (forall i :: 0 <= i < |blocks| && blocks[i].free ==> blocks[i].size <= largest)
        && (largest == 0 || exists i :: 0 <= i < |blocks| && blocks[i].free && blocks[i].size == largest)
      ensures head == 0 ==> used == 0 && free == 0 && largest == 0
    {
      hide ReadHeader, Linked, Tiles, HeaderAt, InWindow;
      used, free, largest := 0, 0, 0;
      if head == 0 { return; }
      BlockHeader(mem, blocks, 0);
      Conservation(blocks);
      var b := head;
      ghost var k := 0;
      while b != 0
        invariant 0 <= k <= |blocks| && b == Addr(blocks, k) && (b == 0 <==> k == |blocks|)
        invariant k < |blocks| ==> HeaderAt(blocks[k].off)
        invariant used == Total(blocks[..k], false) && free == Total(blocks[..k], true)
        invariant forall i :: 0 <= i < k && blocks[i].free ==> blocks[i].size <= largest
        invariant largest == 0 || exists i :: 0 <= i < k && blocks[i].free && blocks[i].size == largest
        decreases |blocks| - k
      {
        BlockHeader(mem, blocks, k);
        var h := ReadHeader(mem, b - START);
        assert blocks[..k + 1][..k] == blocks[..k];
        if h.free != 0 {
          free := free + h.size;
          if h.size > largest { largest := h.size; }
        } else {
          used := used + h.size;
        }
        b, k := h.next, k + 1;
        BlockHeader(mem, blocks, k);
      }
      assert blocks[..k] == blocks;
    }

    /**
     Resizes a live block `k`.  `nb` is the block that holds the data afterwards;
     its first bytes are those of the old payload, and no other block in use changes.
     */
    method Krealloc(p: int, newSize: u64, ghost k: int) returns (q: int, ghost nb: Block)
      requires Valid() && (p != 0 ==> head == START)
      requires p != 0 && !Headless(mem, p) ==> Live(blocks, k) && p == Payload(blocks[k]) && CopyFits(blocks, k, newSize)
      modifies this`mem, this`blocks
      ensures Valid() && InWindow(old(blocks))
      ensures p == 0 ==> blocks == Apply(old(blocks), Alloc(newSize))
      ensures p == 0 ==> Preserved(old(mem), old(blocks), mem, blocks, -1)
      ensures p != 0 && Headless(old(mem), p) ==> q == 0 && mem == old(mem) && blocks == old(blocks)
      ensures p != 0 && !Headless(old(mem), p) ==> blocks == Apply(old(blocks), Realloc(k, newSize))
      ensures p != 0 && !Headless(old(mem), p) ==> Preserved(old(mem), old(blocks), mem, blocks, k)
      ensures p != 0 && newSize == 0 ==> q == 0
      ensures p != 0 && !Headless(old(mem), p) && newSize != 0 && q == 0 ==>
        mem == old(mem) && FirstFit(blocks, AlignUp(newSize), 0) == |blocks|
      ensures q != 0 ==> nb in blocks && !nb.free && q == Payload(nb) && (newSize <= TWO_64 - 16 ==> nb.size >= newSize)
      ensures p != 0 && !Headless(old(mem), p) && newSize != 0 && old(blocks)[k].size >= newSize ==> q == p && mem == old(mem)
      ensures p != 0 && q != 0 && old(blocks)[k].size < newSize ==> Holds(mem, nb, PayloadOf(old(mem), old(blocks)[k]))
    {
      hide ReadHeader, WriteHeader, Linked, Tiles, PayloadOf, HeaderAt, Preserved, InWindow, Flagged, Coalesced, FirstFit, AlignUp, Taken, Holds, Shifted;
      nb := Block(0, 0, false);
      ValidInWindow(mem, blocks);
      PreservedSelf(mem, blocks, -1);
      if p == 0 {
        ghost var j;
        q, j := Kmalloc(newSize);
        if q != 0 {
          nb := blocks[j];
          FreeNotCounted(old(mem), old(blocks), mem, blocks, j);
        }
        return;
      }
      PreservedSelf(mem, blocks, k);
      if newSize == 0 {
        Kfree(p, k);
        return 0, nb;
      }
      if !Headless(mem, p) { BlockHeader(mem, blocks, k); }
      var h := ReadHeader(mem, p - START - 32);
      if h.magic != MAGIC { return 0, nb; }
      if h.size >= newSize {
        q, nb := p, blocks[k];
        return;
      }
      q, nb := Move(p, h, newSize, k);
    }

    /** Allocates a larger block, copies the payload byte by byte and frees the old block. */
    method Move(p: int, h: Header, newSize: u64, ghost k: int) returns (q: int, ghost nb: Block)
      requires head == START && Tiles(blocks) && Linked(mem, blocks) && InWindow(blocks)
      requires Live(blocks, k) && p == Payload(blocks[k]) && h == HeaderOf(blocks, k)
      requires blocks[k].size < newSize && CopyFits(blocks, k, newSize)
      modifies this`mem, this`blocks
      ensures Valid()
      ensures blocks == Freed(Allocated(old(blocks), newSize), Shifted(old(blocks), k, newSize))
      ensures q == 0 ==> mem == old(mem) && blocks == old(blocks) && FirstFit(blocks, AlignUp(newSize), 0) == |blocks|
      ensures q != 0 ==> nb in blocks && !nb.free && q == Payload(nb) && (newSize <= TWO_64 - 16 ==> nb.size >= newSize)
      ensures q != 0 ==> InWindow(blocks) && Holds(mem, nb, PayloadOf(old(mem), old(blocks)[k]))
      ensures q != 0 ==> Preserved(old(mem), old(blocks), mem, blocks, k)
    {
      hide ReadHeader, WriteHeader, Linked, Tiles, PayloadOf, HeaderAt, Preserved, InWindow, Flagged, Coalesced, FirstFit, AlignUp, Taken, Holds;
      ghost var m, bs := mem, blocks;
      ghost var j;
      q, j := Kmalloc(newSize);
      nb := Block(0, 0, false);
      if q == 0 { return; }
      ghost var m1, bs1 := mem, blocks;
      nb := bs1[j];
      BlockHeader(mem, blocks, j);
      ghost var i := Shifted(bs, k, newSize);
      AfterAlloc(m, bs, m1, bs1, k, j, newSize);
      CopyRoom(bs, k, j, newSize);
      BlockHeader(mem, blocks, i);
      CopyPayload(q - START, p - START, h.size, i, j);
      ghost var m2 := mem;
      PayloadSize(m1, bs1[i]);
      CopyEffect(m1, bs1, j, PayloadOf(m1, bs1[i]));
      OwnHeader(mem, blocks, i);
      Kfree(p, i);
      BlockHeader(mem, blocks, 0);
      MoveDone(m, bs, m1, bs1, m2, mem, blocks, k, j, i);
    }

    /** Copies `n` bytes from the payload of block `i` to the start of the payload of block `j`. */
    method CopyPayload(dst: int, src: int, n: int, ghost i: int, ghost j: int)
      requires Tiles(blocks) && InWindow(blocks) && 0 <= i < |blocks| && 0 <= j < |blocks| && i != j
      requires dst == blocks[j].off + 32 && src == blocks[i].off + 32 && n == blocks[i].size <= blocks[j].size
      modifies this`mem
      ensures mem == Splice(old(mem), dst, PayloadOf(old(mem), blocks[i]))
    {
      hide Tiles, HeaderAt, Splice;
      ghost var m := mem;
      SpliceNothing(m, dst);
      if i < j { Ordered(blocks, i, j); } else { Ordered(blocks, j, i); }
      assert m[src..src + 0] == [];
      var t := 0;
      while t < n
        invariant 0 <= t <= n && mem == Splice(m, dst, m[src..src + t])
      {
        CopyByte(m, dst, src, t);
        mem := mem[dst + t := mem[src + t]];
        t := t + 1;
      }
    }

    ghost function State(): (s: HeapState)
      reads this
    {
      HeapState(mem, blocks)
    }

    method Perform(c: Call) returns (p: int)
      requires Valid() && head == START && Allowed(blocks, c)
      modifies this`mem, this`blocks
      ensures Valid() && blocks == Apply(old(blocks), RequestOf(old(blocks), c))
      ensures Spares(old(State()), c, State()) && Grants(c, p, State())
    {
      hide ReadHeader, Linked, Tiles, PayloadOf, HeaderAt, Preserved, InWindow, Apply, AlignUp, FirstFit, Taken, Holds, Spares, Touches;
      ghost var was := State();
      ghost var k := if c.Malloc? then -1 else IndexOf(blocks, c.p);
      ValidInWindow(mem, blocks);
      PreservedSelf(mem, blocks, -1);
      match c
      case Malloc(size) =>
        ghost var j;
        p, j := Kmalloc(size);
        if p != 0 { FreeNotCounted(was.mem, was.blocks, mem, blocks, j); }
        PreservedSpares(was, c, State(), -1);
      case Release(q) =>
        if q != 0 { OwnHeader(mem, blocks, k); }
        Kfree(q, k);
        p := 0;
        if q == 0 { NothingFreed(was.blocks); }
        TouchesOwn(was, c, k);
        PreservedSpares(was, c, State(), if q == 0 then -1 else k);
      case Resize(q, size) =>
        if q != 0 { OwnHeader(mem, blocks, k); }
        ghost var b;
        p, b := Krealloc(q, size, k);
        TouchesOwn(was, c, k);
        PreservedSpares(was, c, State(), if q == 0 then -1 else k);
    }

    /** Every sequence of allowed calls tiles the window throughout and spares the blocks it does not touch. */
    method PerformAll(cs: seq<Call>) returns (ps: seq<int>, ghost states: seq<HeapState>)
      requires Valid() && head == START && AllAllowed(blocks, cs)
      modifies this`mem, this`blocks
      ensures Valid() && blocks == ApplyAll(old(blocks), Requests(old(blocks), cs))
      ensures Trace(cs, states) && states[0] == old(State()) && states[|cs|] == State()
      ensures forall i :: 0 <= i < |states| ==> Tiles(states[i].blocks) && InWindow(states[i].blocks)
      ensures |ps| == |cs| && forall i :: 0 <= i < |cs| ==> Grants(cs[i], ps[i], states[i + 1])
      decreases |cs|
    {
      hide Linked, Tiles, InWindow, Apply, Spares, Grants, RequestOf, Allowed;
      ps, states := [], [State()];
      ValidInWindow(mem, blocks);
      if cs == [] { return; }
      var p := Perform(cs[0]);
      ghost var later;
      ps, later := PerformAll(cs[1..]);
      TraceMore(cs, states[0], later);
      ps, states := [p] + ps, states + later;
    }
  }

  lemma TraceMore(cs: seq<Call>, s: HeapState, later: seq<HeapState>)
    requires cs != [] && Trace(cs[1..], later) && Spares(s, cs[0], later[0])
    ensures Trace(cs, [s] + later)
  {
    hide Spares;
    var states := [s] + later;
    forall i | 0 <= i < |cs|
      ensures Spares(states[i], cs[i], states[i + 1])
    {
      if i > 0 { assert cs[i] == cs[1..][i - 1] && states[i] == later[i - 1] && states[i + 1] == later[i - 1 + 1]; }
    }
  }

  lemma OwnHeader(m: Window, bs: seq<Block>, k: int)
    requires Tiles(bs) && Linked(m, bs) && 0 <= k < |bs|
    ensures !Headless(m, Payload(bs[k]))
  {
    hide ReadHeader, Tiles;
  }

  lemma NothingFreed(bs: seq<Block>)
    ensures Apply(bs, Free(-1)) == bs
  {
  }

  lemma TouchesOwn(s: HeapState, c: Call, k: int)
    requires !c.Malloc? && k == IndexOf(s.blocks, c.p)
    ensures 0 <= k < |s.blocks| ==> Touches(c, s.blocks[k])
  {
  }

  /** The moved block survives the allocation, one place further if an earlier block was cut. */
  lemma AfterAlloc(m: Window, bs: seq<Block>, m1: Window, bs1: seq<Block>, k: int, j: int, size: u64)
    requires Tiles(bs) && InWindow(bs) && Live(bs, k) && size != 0
    requires j == FirstFit(bs, AlignUp(size), 0) < |bs| && bs1 == Taken(bs, j, AlignUp(size))
    requires InWindow(bs1) && Preserved(m, bs, m1, bs1, j)
    ensures var i := Shifted(bs, k, size);
      && 0 <= i < |bs1| && bs1[i] == bs[k] && i != j && PayloadOf(m1, bs1[i]) == PayloadOf(m, bs[k])
  {
    hide Tiles, PayloadOf, HeaderAt, AlignUp, FirstFit;
    if bs[j].size - AlignUp(size) > 48 {
      SplitParts(bs, j, AlignUp(size));
    }
  }

  lemma ValidInWindow(m: Window, bs: seq<Block>)
    requires bs == [] || (Tiles(bs) && Linked(m, bs))
    ensures InWindow(bs)
  {
  }

  lemma DifferentOffsets(bs: seq<Block>, i: int, j: int)
    requires Tiles(bs) && 0 <= i < |bs| && 0 <= j < |bs| && i != j
    ensures bs[i].off != bs[j].off
  {
    if i < j { Ordered(bs, i, j); } else { Ordered(bs, j, i); }
  }

  /** Writing inside one payload leaves all headers and all other payloads alone. */
  lemma CopyEffect(m: Window, bs: seq<Block>, j: int, x: seq<byte>)
    requires Tiles(bs) && InWindow(bs) && Linked(m, bs) && 0 <= j < |bs| && |x| <= bs[j].size
    ensures Linked(Splice(m, bs[j].off + 32, x), bs)
    ensures forall t :: 0 <= t < |bs| && t != j ==>
      PayloadOf(Splice(m, bs[j].off + 32, x), bs[t]) == PayloadOf(m, bs[t])
    ensures Holds(Splice(m, bs[j].off + 32, x), bs[j], x)
  {
    hide Tiles, ReadHeader, HeaderAt, PayloadOf;
    var m2 := Splice(m, bs[j].off + 32, x);
    forall t | 0 <= t < |bs|
      ensures ReadHeader(m2, bs[t].off) == ReadHeader(m, bs[t].off)
      ensures t != j ==> PayloadOf(m2, bs[t]) == PayloadOf(m, bs[t])
    {
      if t < j { Ordered(bs, t, j); } else if j < t { Ordered(bs, j, t); }
      SpliceElsewhere(m, bs[j], x, bs[t]);
    }
    SpliceHolds(m, bs[j], x);
  }

  lemma SpliceNothing(m: Window, dst: int)
    requires 0 <= dst <= 0x40_0000
    ensures Splice(m, dst, []) == m
  {
  }

  lemma CopyByte(m: Window, dst: int, src: int, t: int)
    requires 0 <= t && 0 <= dst && 0 <= src && dst + t < 0x40_0000 && src + t < 0x40_0000
    requires src + t < dst || dst + t <= src
    ensures var c := Splice(m, dst, m[src..src + t]);
      c[src + t] == m[src + t] && c[dst + t := m[src + t]] == Splice(m, dst, m[src..src + t + 1])
  {
    var c, e := Splice(m, dst, m[src..src + t]), Splice(m, dst, m[src..src + t + 1]);
    forall x | 0 <= x < 0x40_0000
      ensures c[dst + t := m[src + t]][x] == e[x]
    {
    }
  }

  lemma PayloadSize(m: Window, b: Block)
    requires 0 <= b.off && 0 <= b.size && End(b) <= 0x40_0000
    ensures |PayloadOf(m, b)| == b.size
  {
  }

  lemma SpliceElsewhere(m: Window, b: Block, x: seq<byte>, c: Block)
    requires 0 <= b.off && |x| <= b.size && End(b) <= 0x40_0000
    requires HeaderAt(c.off) && 0 <= c.off && 0 <= c.size && End(c) <= 0x40_0000
    requires c == b || End(c) <= b.off || End(b) <= c.off
    ensures var m2 := Splice(m, b.off + 32, x);
      && ReadHeader(m2, c.off) == ReadHeader(m, c.off)
      && (c != b ==> PayloadOf(m2, c) == PayloadOf(m, c))
  {
    hide ReadHeader;
    SameBytesSameHeader(m, Splice(m, b.off + 32, x), c.off);
  }

  lemma SpliceHolds(m: Window, b: Block, x: seq<byte>)
    requires 0 <= b.off && |x| <= b.size && End(b) <= 0x40_0000
    ensures Holds(Splice(m, b.off + 32, x), b, x)
  {
    var m2 := Splice(m, b.off + 32, x);
    assert PayloadOf(m2, b)[..|x|] == m2[b.off + 32..b.off + 32 + |x|];
    assert m2[b.off + 32..b.off + 32 + |x|] == x;
  }

  lemma SameBytesSameHeader(m: Window, m2: Window, o: int)
    requires HeaderAt(o) && 0 <= o && o + 32 <= 0x40_0000
    requires forall x :: o <= x < o + 32 ==> m2[x] == m[x]
    ensures ReadHeader(m2, o) == ReadHeader(m, o)
  {
    hide Word, HeaderAt;
    HeaderSlot(o);
    var w := o / 4;
    SameWord(m, m2, w);
    SameWord(m, m2, w + 1);
    SameWord(m, m2, w + 2);
    SameWord(m, m2, w + 4);
    SameWord(m, m2, w + 5);
    SameWord(m, m2, w + 6);
  }

  lemma SameWord(m: Window, m2: Window, w: nat)
    requires 4 * w + 4 <= 0x40_0000 && forall x :: 4 * w <= x < 4 * w + 4 ==> m2[x] == m[x]
    ensures Word(m2, w) == Word(m, w)
  {
  }

  /** Allocation, copy and release together: the data has moved and nothing else has changed. */
  lemma MoveDone(m: Window, bs: seq<Block>, m1: Window, bs1: seq<Block>, m2: Window, m3: Window, bs3: seq<Block>,
                 k: int, j: int, i: int)
    requires Tiles(bs) && InWindow(bs) && Live(bs, k) && 0 <= j < |bs| && bs[j].free
    requires Tiles(bs1) && InWindow(bs1) && 0 <= j < |bs1| && bs1[j].off == bs[j].off && !bs1[j].free
    requires 0 <= i < |bs1| && bs1[i] == bs[k] && i != j
    requires Preserved(m, bs, m1, bs1, j)
    requires forall t :: 0 <= t < |bs1| && t != j ==> PayloadOf(m2, bs1[t]) == PayloadOf(m1, bs1[t])
    requires Holds(m2, bs1[j], PayloadOf(m1, bs1[i])) && Preserved(m2, bs1, m3, bs3, i)
    ensures bs1[j] in bs3 && Holds(m3, bs1[j], PayloadOf(m, bs[k]))
    ensures Preserved(m, bs, m3, bs3, k)
  {
    hide Tiles, PayloadOf, HeaderAt;
    forall t | 0 <= t < |bs| && t != k && !bs[t].free
      ensures bs[t] in bs3 && PayloadOf(m3, bs[t]) == PayloadOf(m, bs[t])
    {
      var s :| 0 <= s < |bs1| && bs1[s] == bs[t];
      DifferentOffsets(bs, t, k);
      DifferentOffsets(bs, t, j);
      assert s != i && s != j;
    }
  }

  /** The payload of `b` begins with `x`. */
  ghost predicate Holds(m: Window, b: Block, x: seq<byte>) {
    && 0 <= b.off && 0 <= b.size && End(b) <= 0x40_0000 && |x| <= b.size
    && PayloadOf(m, b)[..|x|] == x
  }

  /** What reading the header of block `i` gives; `i` may be one past the end. */
  lemma BlockHeader(m: Window, bs: seq<Block>, i: int)
    requires Tiles(bs) && Linked(m, bs) && 0 <= i <= |bs|
    ensures InWindow(bs) && bs != [] && Addr(bs, 0) == START
    ensures Addr(bs, i) == 0 <==> i == |bs|
    ensures i < |bs| ==> HeaderAt(bs[i].off) && ReadHeader(m, bs[i].off) == HeaderOf(bs, i) && 0 <= bs[i].size
    ensures i < |bs| ==> End(bs[i]) <= 0x40_0000 && bs[i].off % 16 == 0 && 0 <= bs[i].off
  {
  }

  lemma SplitHeaders(bs: seq<Block>, k: int, want: int)
    requires 0 <= k < |bs| && InWindow(bs) && InWindow(Split(bs, k, want))
    ensures var r := Split(bs, k, want);
      && |r| == |bs| + 1 && r[k].off == bs[k].off && r[k].size == want && r[k + 1].off == bs[k].off + 32 + want
      && HeaderOf(r, k + 1) == Header(bs[k].size - want - 32, MAGIC, Addr(bs, k + 1), 1)
      && HeaderOf(r, k) == Header(want, MAGIC, START + bs[k].off + 32 + want, 1)
  {
    var r := Split(bs, k, want);
    assert Addr(r, k + 2) == Addr(bs, k + 1);
  }

  lemma FlagHeader(bs: seq<Block>, k: int, free: bool)
    requires 0 <= k < |bs| && InWindow(bs) && InWindow(Flagged(bs, k, free))
    ensures HeaderOf(Flagged(bs, k, free), k) == HeaderOf(bs, k).(free := if free then 1 else 0)
  {
  }

  lemma MergeHeader(bs: seq<Block>, k: int)
    requires 0 <= k < |bs| - 1 && InWindow(bs) && InWindow(Merge(bs, k))
    ensures var r := Merge(bs, k);
      && |r| == |bs| - 1 && r[k].off == bs[k].off && r[k].free == bs[k].free
      && HeaderOf(r, k) == HeaderOf(bs, k).(size := bs[k].size + 32 + bs[k + 1].size, next := Addr(bs, k + 2))
  {
    var r := Merge(bs, k);
    assert Addr(r, k + 1) == Addr(bs, k + 2);
  }

  lemma MergePreserves(m: Window, bs: seq<Block>, k: int)
    requires Tiles(bs) && InWindow(bs) && 0 <= k < |bs| - 1 && bs[k + 1].free && InWindow(Merge(bs, k))
    ensures Preserved(m, bs, WriteHeader(m, bs[k].off, HeaderOf(Merge(bs, k), k)), Merge(bs, k), k)
  {
    hide Tiles, WriteHeader, PayloadOf;
    var r := Merge(bs, k);
    forall j | 0 <= j < |bs| && j != k && !bs[j].free
      ensures bs[j] in r && PayloadOf(WriteHeader(m, bs[k].off, HeaderOf(r, k)), bs[j]) == PayloadOf(m, bs[j])
    {
      var i := if j < k then j else j - 1;
      assert r[i] == bs[j];
      HeaderWritePreserves(m, bs, k, HeaderOf(r, k), j);
    }
  }

  /** A free block is no exception worth naming. */
  lemma FreeNotCounted(m: Window, bs: seq<Block>, m1: Window, bs1: seq<Block>, k: int)
    requires InWindow(bs) && 0 <= k < |bs| && bs[k].free && Preserved(m, bs, m1, bs1, k)
    ensures Preserved(m, bs, m1, bs1, -1)
  {
  }

  lemma PreservedSelf(m: Window, bs: seq<Block>, k: int)
    requires InWindow(bs)
    ensures Preserved(m, bs, m, bs, k)
  {
  }

  lemma PreservedTwice(m: Window, bs: seq<Block>, m1: Window, bs1: seq<Block>, m2: Window, bs2: seq<Block>, k: int)
    requires InWindow(bs) && InWindow(bs1) && Preserved(m, bs, m1, bs1, k) && Preserved(m1, bs1, m2, bs2, k)
    requires 0 <= k < |bs1| && bs1[k].free
    ensures Preserved(m, bs, m2, bs2, k)
  {
    forall j | 0 <= j < |bs| && j != k && !bs[j].free
      ensures bs[j] in bs2 && PayloadOf(m2, bs[j]) == PayloadOf(m, bs[j])
    {
      var i :| 0 <= i < |bs1| && bs1[i] == bs[j];
    }
  }

  lemma FlagPreserves(m: Window, bs: seq<Block>, k: int, free: bool)
    requires Tiles(bs) && InWindow(bs) && 0 <= k < |bs|
    ensures var r := Flagged(bs, k, free);
      InWindow(r) && Preserved(m, bs, WriteHeader(m, bs[k].off, HeaderOf(r, k)), r, k)
  {
    hide Tiles, WriteHeader, PayloadOf;
    var r := Flagged(bs, k, free);
    assert InWindow(r);
    forall j | 0 <= j < |bs| && j != k && !bs[j].free
      ensures bs[j] in r && PayloadOf(WriteHeader(m, bs[k].off, HeaderOf(r, k)), bs[j]) == PayloadOf(m, bs[j])
    {
      assert r[j] == bs[j];
      HeaderWritePreserves(m, bs, k, HeaderOf(r, k), j);
    }
  }

  lemma SplitPreserves(m: Window, bs: seq<Block>, k: int, want: int)
    requires Tiles(bs) && InWindow(bs) && 0 <= k < |bs| && 0 <= want && want % 16 == 0 && want + 32 <= bs[k].size
    ensures InWindow(Split(bs, k, want)) && Preserved(m, bs, SplitMemory(m, bs, k, want), Split(bs, k, want), k)
  {
    hide Tiles, WriteHeader, PayloadOf;
    var r := Split(bs, k, want);
    TilesSplit(bs, k, want);
    TilesInWindow(r);
    var t := HeaderOf(r, k + 1);
    forall j | 0 <= j < |bs| && j != k && !bs[j].free
      ensures bs[j] in r && PayloadOf(SplitMemory(m, bs, k, want), bs[j]) == PayloadOf(m, bs[j])
    {
      var i := if j < k then j else j + 1;
      assert r[i] == bs[j];
      HeaderWritePreserves(m, r, k + 1, t, i);
      HeaderWritePreserves(WriteHeader(m, r[k + 1].off, t), r, k, HeaderOf(r, k), i);
    }
  }
}
