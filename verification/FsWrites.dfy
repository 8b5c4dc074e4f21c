/**
 Writing and truncating a file body, as edits of an image: the abstract contents
 after a write are the old contents, zero-padded and overlaid.
 */
module FsWrites {
  import opened Bytes
  import opened Bitmaps
  import opened FsLayout
  import opened FsImage
  import opened FsSteps
  import opened FsEdits

  function Max(a: int, b: int): int { if a <= b then b else a }

  /** `s` padded with zeros to hold `x` at `pos`, with `x` laid over it. */
  function Overlay(s: seq<byte>, pos: nat, x: seq<byte>): (r: seq<byte>)
    ensures |r| == Max(|s|, pos + |x|)
  {
    seq(Max(|s|, pos + |x|), k requires 0 <= k < Max(|s|, pos + |x|) =>
      if pos <= k < pos + |x| then x[k - pos] else if k < |s| then s[k] else 0)
  }

  /** The file size can grow freely: everything past the old end is zero already. */
  lemma ResizeFile(a: Image, n: int, size: u64)
    requires ImageOk(a) && IsFile(a, n) && a.itab[n].size <= size <= 71680
    ensures var b := a.(itab := a.itab[n := a.itab[n].(size := size)]);
      ImageOk(b) && Changed(a, b, n)
  {
    hide Same, Ownership;
    var b := a.(itab := a.itab[n := a.itab[n].(size := size)]);
    OthersSame(a, b, n);
    forall k | 0 <= k < 141
      ensures Slot(b.d, b.itab[n], k) == Slot(a.d, a.itab[n], k)
    {
    }
    OwnershipRewrite(a, b, n);
    assert forall k :: 0 <= k < 71680 ==> ByteAt(b.d, b.itab[n], k) == ByteAt(a.d, a.itab[n], k);
    assert FileOk(a.d, a.itab[n]);
    InodesAfter(a, b, n);
  }

  /** Byte `k` once `x` has been written at `pos` over the value `v`. */
  function Put(v: byte, k: nat, pos: nat, x: seq<byte>): (r: byte) {
    if pos <= k < pos + |x| then x[k - pos] else v
  }

  /** File `n` of `b` is, byte for byte, file `n` of `a` with `x` written at `pos`. */
  ghost predicate BytesPut(a: Image, b: Image, n: int, pos: nat, x: seq<byte>)
    requires 0 <= n < 512
  {
    forall k :: 0 <= k < 71680 ==>
      ByteAt(b.d, b.itab[n], k) == Put(ByteAt(a.d, a.itab[n], k), k, pos, x)
  }

  /** The bytes of the block a chunk is spliced into. */
  lemma ChunkBlock(a: Image, n: int, l: nat, bo: nat, x: seq<byte>, k: nat)
    requires 0 <= n < 512 && l < 140 && 0 < Slot(a.d, a.itab[n], DataSlot(l)) < 4096
    requires bo + |x| <= 512 && k < 71680 && k / 512 == l
    ensures Splice(a.d[Slot(a.d, a.itab[n], DataSlot(l))], bo, x)[k % 512]
         == Put(ByteAt(a.d, a.itab[n], k), k, 512 * l + bo, x)
  {
    assert k == 512 * l + k % 512;
  }

  lemma ChunkTail(a: Image, n: int, l: nat, bo: nat, x: seq<byte>, size: u64)
    requires 0 <= n < 512 && FileOk(a.d, a.itab[n]) && l < 140 && 0 < Slot(a.d, a.itab[n], DataSlot(l)) < 4096
    requires bo + |x| <= 512 && size == Max(a.itab[n].size, 512 * l + bo + |x|)
    ensures forall o :: 0 <= o < 512 && 512 * l + o >= size ==>
      Splice(a.d[Slot(a.d, a.itab[n], DataSlot(l))], bo, x)[o] == 0
  {
    forall o | 0 <= o < 512 && 512 * l + o >= size
      ensures Splice(a.d[Slot(a.d, a.itab[n], DataSlot(l))], bo, x)[o] == 0
    {
      var k := 512 * l + o;
      assert k / 512 == l && k % 512 == o;
      assert ByteAt(a.d, a.itab[n], k) == 0;
    }
  }

  /** One chunk inside one block. */
  lemma WriteChunk(a: Image, n: int, l: nat, bo: nat, x: seq<byte>, size: u64)
    requires ImageOk(a) && IsFile(a, n) && l < 140 && 0 < Slot(a.d, a.itab[n], DataSlot(l)) < 4096
    requires bo + |x| <= 512 && size == Max(a.itab[n].size, 512 * l + bo + |x|)
    ensures var b := Rewrite(a, n, l, Splice(a.d[Slot(a.d, a.itab[n], DataSlot(l))], bo, x), size);
      ImageOk(b) && Changed(a, b, n) && BytesPut(a, b, n, 512 * l + bo, x)
  {
    var blk := Splice(a.d[Slot(a.d, a.itab[n], DataSlot(l))], bo, x);
    var b := Rewrite(a, n, l, blk, size);
    assert FileOk(a.d, a.itab[n]);
    ChunkTail(a, n, l, bo, x, size);
    RewriteFile(a, n, l, blk, size);
    forall k | 0 <= k < 71680
      ensures ByteAt(b.d, b.itab[n], k) == Put(ByteAt(a.d, a.itab[n], k), k, 512 * l + bo, x)
    {
      if k / 512 == l {
        ChunkBlock(a, n, l, bo, x, k);
      }
    }
  }

  // ----- a whole write -----

  /** In `b`, file `n` is as in `a` with `x` written at `pos`; nothing else differs. */
  ghost predicate Written(a: Image, b: Image, n: int, pos: nat, x: seq<byte>)
    requires 0 <= n < 512
  {
    && ImageOk(b) && Changed(a, b, n) && MetaKept(a.d, b.d)
    && (forall m :: 0 <= m < 512 && m != n ==> b.itab[m] == a.itab[m])
    && b.itab[n].mode == a.itab[n].mode && b.itab[n].size == Max(a.itab[n].size, pos + |x|)
    && BytesPut(a, b, n, pos, x)
  }

  lemma WrittenNothing(a: Image, n: int, pos: nat)
    requires ImageOk(a) && IsFile(a, n) && pos <= 71680
    ensures Written(a, a.(itab := a.itab[n := a.itab[n].(size := Max(a.itab[n].size, pos))]), n, pos, [])
  {
    hide Same, Ownership;
    var b := a.(itab := a.itab[n := a.itab[n].(size := Max(a.itab[n].size, pos))]);
    assert FileOk(a.d, a.itab[n]);
    ResizeFile(a, n, Max(a.itab[n].size, pos));
    assert forall k :: 0 <= k < 71680 ==> ByteAt(b.d, b.itab[n], k) == ByteAt(a.d, a.itab[n], k);
  }

  lemma ChangedTwice(a: Image, b: Image, c: Image, n: int)
    requires Changed(a, b, n) && Changed(b, c, n)
    ensures Changed(a, c, n)
  {
    forall m | Live(a.d, m) && m != n
      ensures Same(a, c, m)
    {
      SameTwice(a, b, c, m);
    }
  }

  lemma WrittenThenGrown(a: Image, b: Image, c: Image, n: int, pos: nat, x: seq<byte>)
    requires Live(a.d, n) && Written(a, b, n, pos, x) && Grown(b, c, n)
    ensures Written(a, c, n, pos, x)
  {
    ChangedTwice(a, b, c, n);
  }

  lemma PutTwice(a: Image, b: Image, c: Image, n: int, pos: nat, x: seq<byte>, y: seq<byte>)
    requires 0 <= n < 512 && BytesPut(a, b, n, pos, x) && BytesPut(b, c, n, pos + |x|, y)
    ensures BytesPut(a, c, n, pos, x + y)
  {
    forall k | 0 <= k < 71680
      ensures ByteAt(c.d, c.itab[n], k) == Put(ByteAt(a.d, a.itab[n], k), k, pos, x + y)
    {
      assert ByteAt(b.d, b.itab[n], k) == Put(ByteAt(a.d, a.itab[n], k), k, pos, x);
    }
  }

  lemma WrittenTwice(a: Image, b: Image, c: Image, n: int, pos: nat, x: seq<byte>, y: seq<byte>)
    requires 0 <= n < 512 && Written(a, b, n, pos, x) && Written(b, c, n, pos + |x|, y)
    ensures Written(a, c, n, pos, x + y)
  {
    ChangedTwice(a, b, c, n);
    PutTwice(a, b, c, n, pos, x, y);
  }

  /** The image after one chunk of a write that has reached block `l`, offset `bo`. */
  function ChunkImage(b: Image, n: int, l: nat, bo: nat, y: seq<byte>, size: u64): (c: Image)
    requires 0 <= n < 512 && l < 140 && bo + |y| <= 512 && 0 < Slot(b.d, b.itab[n], DataSlot(l)) < 4096
  {
    Rewrite(b, n, l, Splice(b.d[Slot(b.d, b.itab[n], DataSlot(l))], bo, y), size)
  }

  lemma ChunkWritten(b: Image, n: int, l: nat, bo: nat, y: seq<byte>, size: u64)
    requires ImageOk(b) && IsFile(b, n) && l < 140 && bo + |y| <= 512
    requires 0 < Slot(b.d, b.itab[n], DataSlot(l)) < 4096
    requires size == Max(b.itab[n].size, 512 * l + bo + |y|)
    ensures Written(b, ChunkImage(b, n, l, bo, y, size), n, 512 * l + bo, y)
  {
    WriteChunk(b, n, l, bo, y, size);
    assert Slot(b.d, b.itab[n], DataSlot(l)) in b.owner;
  }

  lemma OverlayIs(s: seq<byte>, pos: nat, x: seq<byte>, t: seq<byte>)
    requires |t| == Max(|s|, pos + |x|)
    requires forall k :: 0 <= k < |t| ==> t[k] == Put(if k < |s| then s[k] else 0, k, pos, x)
    ensures t == Overlay(s, pos, x)
  {
  }

  /** A write makes the contents the old contents, padded to the position and overlaid. */
  lemma WrittenContents(a: Image, b: Image, n: int, pos: nat, x: seq<byte>)
    requires ImageOk(a) && IsFile(a, n) && pos + |x| <= 71680 && Written(a, b, n, pos, x)
    ensures Files(b) == Files(a)[n := Overlay(Files(a)[n], pos, x)]
    ensures Dirs(b) == Dirs(a)
  {
    FileChanged(a, b, n);
    assert FileOk(a.d, a.itab[n]);
    var s, t := Contents(a.d, a.itab[n]), Contents(b.d, b.itab[n]);
    forall k | 0 <= k < |t|
      ensures t[k] == Put(if k < |s| then s[k] else 0, k, pos, x)
    {
      assert t[k] == ByteAt(b.d, b.itab[n], k);
    }
    OverlayIs(s, pos, x, t);
  }

  /** A write followed by saving the inode: the whole effect of a successful `write`. */
  lemma WriteDone(a: Image, b: Image, n: int, pos: nat, x: seq<byte>)
    requires ImageOk(a) && OnDisk(a) && IsFile(a, n) && pos + |x| <= 71680 && Written(a, b, n, pos, x)
    ensures var c := Saved(b, n);
      && ImageOk(c) && OnDisk(c) && Dirs(c) == Dirs(a)
      && Files(c) == Files(a)[n := Overlay(Files(a)[n], pos, x)]
      && c.d[1] == a.d[1] && c.d[2] == b.d[2] && c.d[3] == a.d[3]
  {
    hide ImageOk, Same, Changed, BytesPut, Files, Dirs;
    WrittenContents(a, b, n, pos, x);
    SavedOk(b, n);
  }

  // ----- truncation -----

  /** The inode with every pointer cleared and size zero. */
  function Emptied(i: Inode): (r: Inode) {
    i.(direct := seq(12, _ => 0), indirect := 0, size := 0)
  }

  /** The image once exactly the blocks of `n` have been released in the bitmap. */
  ghost function Truncated(a: Image, n: int, bm: Block): (b: Image)
    requires 0 <= n < 512
  {
    Image(a.d[2 := bm], a.itab[n := Emptied(a.itab[n])],
          map p | p in a.owner && a.owner[p].inode != n :: a.owner[p])
  }

  ghost predicate Released(a: Image, n: int, bm: Block) {
    forall p :: 0 <= p < 4096 ==> (Bit(bm, p) <==> Used(a.d, p) && !(p in a.owner && a.owner[p].inode == n))
  }

  /** Truncation frees the file's own blocks and no other, and empties that file only. */
  lemma TruncatedOk(a: Image, n: int, bm: Block)
    requires ImageOk(a) && IsFile(a, n) && Released(a, n, bm)
    ensures var b := Truncated(a, n, bm);
      ImageOk(b) && Changed(a, b, n) && Files(b) == Files(a)[n := []] && Dirs(b) == Dirs(a)
  {
    var b := Truncated(a, n, bm);
    OthersSame(a, b, n);
    EmptySlots(b.d, a.itab[n]);
    OwnershipDrops(a, b, n);
    EmptyOk(b.d, b.itab[n]);
    InodesAfter(a, b, n);
    FileChanged(a, b, n);
    assert Contents(b.d, b.itab[n]) == [];
  }

  lemma EmptySlots(d: Disk, i: Inode)
    ensures forall k :: 0 <= k < 141 ==> Slot(d, Emptied(i), k) == 0
  {
    ZeroWords();
  }
}
