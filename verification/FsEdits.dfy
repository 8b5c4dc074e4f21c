/**
 The edits the file system code makes to one inode at a time, as functions on
 images, with their effect on the invariant and on the abstract file system.
 */
module FsEdits {
  import opened Bytes
  import opened Bitmaps
  import opened FsLayout
  import opened FsImage
  import opened FsSteps

  /** The disk after block `p` has been taken from the bitmap and given contents. */
  function Taken(d: Disk, p: int, blk: Block): (e: Disk)
    requires 0 <= p < 4096
  {
    d[2 := SetBit(d[2], p)][p := blk]
  }

  // ----- direct pointer -----

  function GrowDirect(a: Image, n: int, l: nat, p: int, blk: Block, size: u64): (b: Image)
    requires 0 <= n < 512 && l < 12 && 0 <= p < 4096
  {
    var i := a.itab[n];
    Image(Taken(a.d, p, blk), a.itab[n := i.(direct := i.direct[l := p], size := size)], a.owner[p := Ref(n, l)])
  }

  lemma FreshBlock(a: Image, p: int)
    requires Ownership(a) && 0 <= p < 4096 && !Used(a.d, p)
    ensures 132 <= p && p !in a.owner
  {
  }

  lemma GrowDirectShape(a: Image, n: int, l: nat, p: int, blk: Block, size: u64)
    requires Ownership(a) && Live(a.d, n) && l < 12 && 0 <= p < 4096
    requires !Used(a.d, p) && a.itab[n].direct[l] == 0
    ensures var b := GrowDirect(a, n, l, p, blk, size); Changed(a, b, n) && Gains(a, b, n, l, p) && Ownership(b)
  {
    var b := GrowDirect(a, n, l, p, blk, size);
    FreshBlock(a, p);
    OthersSame(a, b, n);
    assert a.itab[n].indirect == Slot(a.d, a.itab[n], 12);
    OwnershipGains(a, b, n, l, p);
  }

  // ----- indirect pointer -----

  function GrowIndirect(a: Image, n: int, p: int): (b: Image)
    requires 0 <= n < 512 && 0 <= p < 4096
  {
    Image(Taken(a.d, p, ZeroBlock()), a.itab[n := a.itab[n].(indirect := p)], a.owner[p := Ref(n, 12)])
  }

  lemma GrowIndirectShape(a: Image, n: int, p: int)
    requires Ownership(a) && Live(a.d, n) && 0 <= p < 4096 && !Used(a.d, p) && a.itab[n].indirect == 0
    ensures var b := GrowIndirect(a, n, p); Changed(a, b, n) && Gains(a, b, n, 12, p) && Ownership(b)
  {
    var b := GrowIndirect(a, n, p);
    FreshBlock(a, p);
    OthersSame(a, b, n);
    ZeroWords();
    OwnershipGains(a, b, n, 12, p);
  }

  // ----- entry of the indirect block -----

  function GrowEntry(a: Image, n: int, off: nat, p: int): (b: Image)
    requires 0 <= n < 512 && off < 128 && 0 <= p < 4096 && 0 < a.itab[n].indirect < 4096
  {
    var ind := a.itab[n].indirect;
    Image(Taken(a.d, p, ZeroBlock())[ind := SetWord(a.d[ind], off, p)], a.itab, a.owner[p := Ref(n, 13 + off)])
  }

  lemma IndirectOwned(a: Image, n: int)
    requires Ownership(a) && Live(a.d, n) && a.itab[n].indirect != 0
    ensures var ind := a.itab[n].indirect; 132 <= ind < 4096 && ind in a.owner && a.owner[ind] == Ref(n, 12)
  {
    assert Slot(a.d, a.itab[n], 12) == a.itab[n].indirect;
  }

  lemma GrowEntrySlots(a: Image, n: int, off: nat, p: int)
    requires Ownership(a) && Live(a.d, n) && off < 128 && 0 <= p < 4096 && !Used(a.d, p)
    requires 0 < a.itab[n].indirect < 4096
    ensures var b := GrowEntry(a, n, off, p);
      forall k :: 0 <= k < 141 ==>
        Slot(b.d, b.itab[n], k) == if k == 13 + off then p else Slot(a.d, a.itab[n], k)
  {
    IndirectOwned(a, n);
    var b, ind := GrowEntry(a, n, off, p), a.itab[n].indirect;
    forall k | 13 <= k < 141
      ensures Slot(b.d, b.itab[n], k) == if k == 13 + off then p else Slot(a.d, a.itab[n], k)
    {
      WordOfSetWord(a.d[ind], off, p, k - 13);
    }
  }

  lemma GrowEntryShape(a: Image, n: int, off: nat, p: int)
    requires Ownership(a) && Live(a.d, n) && off < 128 && 0 <= p < 4096 && !Used(a.d, p)
    requires 0 < a.itab[n].indirect < 4096 && Slot(a.d, a.itab[n], 13 + off) == 0
    ensures var b := GrowEntry(a, n, off, p); Changed(a, b, n) && Gains(a, b, n, 13 + off, p) && Ownership(b)
  {
    var b := GrowEntry(a, n, off, p);
    FreshBlock(a, p);
    IndirectOwned(a, n);
    assert a.itab[n].indirect != p;
    OthersSame(a, b, n);
    GrowEntrySlots(a, n, off, p);
    OwnershipGains(a, b, n, 13 + off, p);
  }

  // ----- growing a file by a zeroed block -----

  /** Giving a hole of a file a zeroed block changes no byte of it. */
  lemma GrowKeepsBytes(a: Image, b: Image, n: int, j: int, p: int)
    requires Ownership(a) && Gains(a, b, n, j, p) && b.d[p] == ZeroBlock()
    requires forall q :: 132 <= q < 4096 && q != p && q in a.owner && a.owner[q].slot != 12 ==> b.d[q] == a.d[q]
    ensures forall k :: 0 <= k < 71680 ==> ByteAt(b.d, b.itab[n], k) == ByteAt(a.d, a.itab[n], k)
  {
    FreshBlock(a, p);
    forall k | 0 <= k < 71680
      ensures ByteAt(b.d, b.itab[n], k) == ByteAt(a.d, a.itab[n], k)
    {
      var s := DataSlot(k / 512);
      var q := Slot(a.d, a.itab[n], s);
      if s != j && q != 0 {
        assert q in a.owner && a.owner[q] == Ref(n, s);
      }
    }
  }

  lemma FileKept(a: Image, b: Image, n: int)
    requires ImageOk(a) && IsFile(a, n) && Changed(a, b, n) && Ownership(b)
    requires b.itab[n].size == a.itab[n].size && b.itab[n].mode == a.itab[n].mode
    requires forall k :: 0 <= k < 71680 ==> ByteAt(b.d, b.itab[n], k) == ByteAt(a.d, a.itab[n], k)
    ensures ImageOk(b)
  {
    hide ByteAt, Same, Changed, Ownership, DirOk, DirTable;
    assert FileOk(a.d, a.itab[n]);
    assert FileOk(b.d, b.itab[n]);
    InodesAfter(a, b, n);
  }

  /** The metadata blocks other than the block bitmap are untouched. */
  ghost predicate MetaKept(d: Disk, e: Disk) {
    forall q :: 0 <= q < 132 && q != 2 ==> e[q] == d[q]
  }

  /** File `n` may have gained blocks, but no file changed contents and no other inode changed at all. */
  ghost predicate Grown(a: Image, b: Image, n: int)
    requires 0 <= n < 512
  {
    && ImageOk(b) && Changed(a, b, n) && MetaKept(a.d, b.d)
    && (forall m :: 0 <= m < 512 && m != n ==> b.itab[m] == a.itab[m])
    && b.itab[n] == a.itab[n].(direct := b.itab[n].direct, indirect := b.itab[n].indirect)
    && (forall k :: 0 <= k < 71680 ==> ByteAt(b.d, b.itab[n], k) == ByteAt(a.d, a.itab[n], k))
  }

  lemma SameTwice(a: Image, b: Image, c: Image, m: int)
    requires 0 <= m < 512 && Same(a, b, m) && Same(b, c, m)
    ensures Same(a, c, m)
  {
  }

  lemma GrownTwice(a: Image, b: Image, c: Image, n: int)
    requires Live(a.d, n) && Grown(a, b, n) && Grown(b, c, n)
    ensures Grown(a, c, n)
  {
    forall m | Live(a.d, m) && m != n
      ensures Same(a, c, m)
    {
      SameTwice(a, b, c, m);
    }
  }

  lemma GrowDirectFile(a: Image, n: int, l: nat, p: int)
    requires ImageOk(a) && IsFile(a, n) && l < 12 && 0 <= p < 4096
    requires !Used(a.d, p) && a.itab[n].direct[l] == 0
    ensures Grown(a, GrowDirect(a, n, l, p, ZeroBlock(), a.itab[n].size), n)
  {
    hide Same, Ownership, DirOk, Slot, InodesOk, KindOf, ZeroBlock;
    var b := GrowDirect(a, n, l, p, ZeroBlock(), a.itab[n].size);
    FreshBlock(a, p);
    GrowDirectShape(a, n, l, p, ZeroBlock(), a.itab[n].size);
    GrowKeepsBytes(a, b, n, l, p);
    FileKept(a, b, n);
  }

  lemma GrowIndirectFile(a: Image, n: int, p: int)
    requires ImageOk(a) && IsFile(a, n) && 0 <= p < 4096 && !Used(a.d, p) && a.itab[n].indirect == 0
    ensures Grown(a, GrowIndirect(a, n, p), n)
  {
    var b := GrowIndirect(a, n, p);
    FreshBlock(a, p);
    GrowIndirectShape(a, n, p);
    GrowKeepsBytes(a, b, n, 12, p);
    FileKept(a, b, n);
  }

  lemma GrowEntryFile(a: Image, n: int, off: nat, p: int)
    requires ImageOk(a) && IsFile(a, n) && off < 128 && 0 <= p < 4096 && !Used(a.d, p)
    requires 0 < a.itab[n].indirect < 4096 && Slot(a.d, a.itab[n], 13 + off) == 0
    ensures Grown(a, GrowEntry(a, n, off, p), n)
  {
    hide Same, Ownership, DirOk, Slot, InodesOk, KindOf;
    var b := GrowEntry(a, n, off, p);
    FreshBlock(a, p);
    IndirectOwned(a, n);
    GrowEntryShape(a, n, off, p);
    GrowKeepsBytes(a, b, n, 13 + off, p);
    FileKept(a, b, n);
  }

  // ----- rewriting a data block -----

  /** Logical block `l` of inode `n` is overwritten and the recorded size set. */
  function Rewrite(a: Image, n: int, l: nat, blk: Block, size: u64): (b: Image)
    requires 0 <= n < 512 && l < 140 && 0 < Slot(a.d, a.itab[n], DataSlot(l)) < 4096
  {
    Image(a.d[Slot(a.d, a.itab[n], DataSlot(l)) := blk], a.itab[n := a.itab[n].(size := size)], a.owner)
  }

  lemma RewriteShape(a: Image, n: int, l: nat, blk: Block, size: u64)
    requires Ownership(a) && Live(a.d, n) && l < 140 && 0 < Slot(a.d, a.itab[n], DataSlot(l)) < 4096
    ensures var b := Rewrite(a, n, l, blk, size);
      && Changed(a, b, n) && Ownership(b) && b.d[2] == a.d[2] && b.d[3] == a.d[3]
      && (forall k :: 0 <= k < 141 ==> Slot(b.d, b.itab[n], k) == Slot(a.d, a.itab[n], k))
  {
    var b, p := Rewrite(a, n, l, blk, size), Slot(a.d, a.itab[n], DataSlot(l));
    assert p in a.owner && a.owner[p] == Ref(n, DataSlot(l));
    assert a.itab[n].indirect != 0 ==> a.itab[n].indirect != p by {
      if a.itab[n].indirect != 0 {
        IndirectOwned(a, n);
      }
    }
    OthersSame(a, b, n);
    OwnershipRewrite(a, b, n);
  }

  /** The bytes of the rewritten block are replaced, all other bytes of the file stay. */
  lemma RewriteBytes(a: Image, n: int, l: nat, blk: Block, size: u64, k: int)
    requires Ownership(a) && Live(a.d, n) && l < 140 && 0 < Slot(a.d, a.itab[n], DataSlot(l)) < 4096
    requires 0 <= k < 71680
    ensures var b := Rewrite(a, n, l, blk, size);
      ByteAt(b.d, b.itab[n], k) == if k / 512 == l then blk[k % 512] else ByteAt(a.d, a.itab[n], k)
  {
    RewriteShape(a, n, l, blk, size);
    var q := Slot(a.d, a.itab[n], DataSlot(k / 512));
    if k / 512 != l && q != 0 {
      assert a.owner[q] == Ref(n, DataSlot(k / 512));
      assert a.owner[Slot(a.d, a.itab[n], DataSlot(l))] == Ref(n, DataSlot(l));
    }
  }

  lemma RewriteFile(a: Image, n: int, l: nat, blk: Block, size: u64)
    requires ImageOk(a) && IsFile(a, n) && l < 140 && 0 < Slot(a.d, a.itab[n], DataSlot(l)) < 4096
    requires a.itab[n].size <= size <= 71680
    requires forall o :: 0 <= o < 512 && 512 * l + o >= size ==> blk[o] == 0
    ensures var b := Rewrite(a, n, l, blk, size);
      && ImageOk(b) && Changed(a, b, n)
      && (forall k :: 0 <= k < 71680 ==>
        ByteAt(b.d, b.itab[n], k) == if k / 512 == l then blk[k % 512] else ByteAt(a.d, a.itab[n], k))
  {
    hide Same, Ownership, NoLeak, DirOk, DirTable, At;
    var b := Rewrite(a, n, l, blk, size);
    RewriteShape(a, n, l, blk, size);
    forall k | 0 <= k < 71680
      ensures ByteAt(b.d, b.itab[n], k) == if k / 512 == l then blk[k % 512] else ByteAt(a.d, a.itab[n], k)
    {
      RewriteBytes(a, n, l, blk, size, k);
    }
    forall k | size <= k < 71680
      ensures ByteAt(b.d, b.itab[n], k) == 0
    {
      assert 512 * (k / 512) + k % 512 == k;
    }
    InodesAfter(a, b, n);
  }

  // ----- writing an inode back -----

  function Saved(a: Image, n: int): (b: Image)
    requires 0 <= n < 512
  {
    a.(d := StoreInode(a.d, n, a.itab[n]))
  }

  /** Writing the in-memory inode back changes nothing abstractly and makes the table on disk current. */
  lemma SavedOk(a: Image, n: int)
    requires ImageOk(a) && 0 <= n < 512
    requires forall m :: 0 <= m < 512 && m != n ==> a.itab[m] == InodeAt(a.d, m)
    ensures var b := Saved(a, n);
      && ImageOk(b) && OnDisk(b) && Files(b) == Files(a) && Dirs(b) == Dirs(a)
      && (forall m :: Live(a.d, m) ==> Same(a, b, m))
  {
    var b := Saved(a, n);
    forall m | 0 <= m < 512
      ensures b.itab[m] == InodeAt(b.d, m)
    {
      StoreInodeFrame(a.d, n, a.itab[n], m);
    }
    Unchanged(a, b);
  }

  // ----- directories -----

  /** One entry of an existing directory block is filled in. */
  lemma AddEntryTable(a: Image, n: int, k: nat, e: Dirent)
    requires Ownership(a) && Live(a.d, n) && k < 96 && 0 < a.itab[n].direct[k / 8] < 4096
    requires |e.name| <= 55 && 0 !in e.name
    ensures var b := Rewrite(a, n, k / 8, PutDirent(a.d[a.itab[n].direct[k / 8]], k % 8, e), a.itab[n].size);
      DirTable(b.d, b.itab[n]) == DirTable(a.d, a.itab[n])[k := e]
  {
    hide PutDirent, DirentAt;
    var p := a.itab[n].direct[k / 8];
    var blk := PutDirent(a.d[p], k % 8, e);
    var b := Rewrite(a, n, k / 8, blk, a.itab[n].size);
    var s, t := DirTable(a.d, a.itab[n]), DirTable(b.d, b.itab[n]);
    assert a.owner[p] == Ref(n, k / 8) by { assert Slot(a.d, a.itab[n], k / 8) == p; }
    forall m | 0 <= m < 96
      ensures t[m] == if m == k then e else s[m]
    {
      if m / 8 == k / 8 {
        DirentRoundTrip(a.d[p], k % 8, e, m % 8);
      } else {
        var q := a.itab[n].direct[m / 8];
        assert Slot(a.d, a.itab[n], m / 8) == q;
        assert q != 0 ==> a.owner[q] == Ref(n, m / 8);
      }
    }
  }

  /** A fresh directory block holding one entry is linked in. */
  lemma NewBlockTable(a: Image, n: int, l: nat, p: int, e: Dirent, size: u64)
    requires Ownership(a) && Live(a.d, n) && l < 12 && 0 <= p < 4096
    requires !Used(a.d, p) && a.itab[n].direct[l] == 0
    requires |e.name| <= 55 && 0 !in e.name
    ensures var b := GrowDirect(a, n, l, p, PutDirent(ZeroBlock(), 0, e), size);
      DirTable(b.d, b.itab[n]) == DirTable(a.d, a.itab[n])[8 * l := e]
  {
    hide PutDirent, DirentAt, Used;
    FreshBlock(a, p);
    var b := GrowDirect(a, n, l, p, PutDirent(ZeroBlock(), 0, e), size);
    var s, t := DirTable(a.d, a.itab[n]), DirTable(b.d, b.itab[n]);
    forall m | 0 <= m < 96
      ensures t[m] == if m == 8 * l then e else s[m]
    {
      if m / 8 == l {
        DirentRoundTrip(ZeroBlock(), 0, e, m % 8);
        ZeroDirent(m % 8);
      } else {
        var q := a.itab[n].direct[m / 8];
        assert Slot(a.d, a.itab[n], m / 8) == q;
      }
    }
  }

  /** Whatever way the entry got there, the directory maps one more name and nothing else changes. */
  lemma EntryAdded(a: Image, b: Image, n: int, k: nat, e: Dirent)
    requires ImageOk(a) && Changed(a, b, n) && Ownership(b) && IsDir(a, n) && KindOf(b.itab[n]) == Dir
    requires k < 96 && DirTable(a.d, a.itab[n])[k].inode == 0
    requires DirTable(b.d, b.itab[n]) == DirTable(a.d, a.itab[n])[k := e]
    requires e.inode != 0 && Live(a.d, e.inode) && |e.name| <= 55
    requires Find(DirTable(a.d, a.itab[n]), e.name) == 0
    ensures ImageOk(b)
    ensures Files(b) == Files(a) && Dirs(b) == Dirs(a)[n := Dirs(a)[n][e.name := e.inode]]
  {
    var s, t := DirTable(a.d, a.itab[n]), DirTable(b.d, b.itab[n]);
    forall m | 0 <= m < 96
      ensures EntryOk(b.d, t[m])
    {
      if m != k {
        assert EntryOk(a.d, s[m]);
      }
    }
    InodesAfter(a, b, n);
    DirChanged(a, b, n);
    DirMapAfterAdd(s, k, e);
  }
}
