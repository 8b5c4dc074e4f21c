/**
 How single changes to a disk image act on the invariant and on the abstract
 file system: one pointer slot gains a fresh block, a data block is rewritten,
 an inode is born, emptied or abandoned.
 */
module FsSteps {
  import opened Bytes
  import opened Bitmaps
  import opened FsLayout
  import opened FsImage

  // ----- frame -----

  /** Every block that inode `i` reaches in `d` holds the same bytes in `e`. */
  ghost predicate SameBlocks(d: Disk, e: Disk, i: Inode) {
    forall j :: 0 <= j < 141 ==> At(e, Slot(d, i, j)) == At(d, Slot(d, i, j))
  }

  /** Inode `n` means the same in both images. */
  ghost predicate Same(a: Image, b: Image, n: int)
    requires 0 <= n < 512
  {
    && b.itab[n] == a.itab[n]
    && (forall j :: 0 <= j < 141 ==> Slot(b.d, b.itab[n], j) == Slot(a.d, a.itab[n], j))
    && (forall k :: 0 <= k < 71680 ==> ByteAt(b.d, b.itab[n], k) == ByteAt(a.d, a.itab[n], k))
    && DirTable(b.d, b.itab[n]) == DirTable(a.d, a.itab[n])
  }

  lemma SameSlots(d: Disk, e: Disk, i: Inode)
    requires SameBlocks(d, e, i)
    ensures forall j :: 0 <= j < 141 ==> Slot(e, i, j) == Slot(d, i, j)
  {
    assert Slot(d, i, 12) == i.indirect;
  }

  lemma SameTable(d: Disk, e: Disk, i: Inode)
    requires SameBlocks(d, e, i)
    ensures DirTable(e, i) == DirTable(d, i)
  {
    forall k | 0 <= k < 96
      ensures DirTable(e, i)[k] == DirTable(d, i)[k]
    {
      assert Slot(d, i, k / 8) == i.direct[k / 8];
    }
  }

  lemma SameInode(a: Image, b: Image, n: int)
    requires 0 <= n < 512 && b.itab[n] == a.itab[n] && SameBlocks(a.d, b.d, a.itab[n])
    ensures Same(a, b, n)
  {
    SameSlots(a.d, b.d, a.itab[n]);
    SameTable(a.d, b.d, a.itab[n]);
  }

  /** All live inodes but `n` keep their table entry, and all blocks owned by them keep their bytes. */
  ghost predicate Apart(a: Image, b: Image, n: int) {
    && (forall m :: Live(a.d, m) && m != n ==> b.itab[m] == a.itab[m])
    && (forall p :: p in a.owner && 0 <= p < 4096 && a.owner[p].inode != n ==> b.d[p] == a.d[p])
  }

  /** Blocks have one owner, so a change that touches only `n`'s blocks is invisible to all others. */
  lemma OthersSame(a: Image, b: Image, n: int)
    requires Ownership(a) && Apart(a, b, n)
    ensures forall m :: Live(a.d, m) && m != n ==> Same(a, b, m)
  {
    forall m | Live(a.d, m) && m != n
      ensures Same(a, b, m)
    {
      forall j | 0 <= j < 141
        ensures At(b.d, Slot(a.d, a.itab[m], j)) == At(a.d, Slot(a.d, a.itab[m], j))
      {
        var p := Slot(a.d, a.itab[m], j);
        if p != 0 {
          assert p in a.owner && a.owner[p] == Ref(m, j);
        }
      }
      SameInode(a, b, m);
    }
  }

  lemma SameContents(a: Image, b: Image, n: int)
    requires 0 <= n < 512 && Same(a, b, n)
    ensures Contents(b.d, b.itab[n]) == Contents(a.d, a.itab[n])
  {
    var c, e := Contents(a.d, a.itab[n]), Contents(b.d, b.itab[n]);
    assert forall k :: 0 <= k < |c| ==> c[k] == ByteAt(a.d, a.itab[n], k) == ByteAt(b.d, b.itab[n], k) == e[k];
  }

  /** An inode that means the same stays well formed as long as no inode dies. */
  lemma InodeStaysOk(a: Image, b: Image, n: int)
    requires 0 <= n < 512 && Same(a, b, n) && InodeOk(a.d, a.itab[n])
    requires forall m :: Live(a.d, m) ==> Live(b.d, m)
    ensures InodeOk(b.d, b.itab[n])
  {
    var i := a.itab[n];
    if KindOf(i) == Dir {
      forall k | 0 <= k < 96
        ensures EntryOk(b.d, DirTable(b.d, i)[k])
      {
        assert EntryOk(a.d, DirTable(a.d, i)[k]);
      }
    }
  }

  // ----- one inode changes -----

  /** Nothing but inode `n` changes meaning, and the same inodes are live. */
  ghost predicate Changed(a: Image, b: Image, n: int) {
    && (forall m :: Live(b.d, m) <==> Live(a.d, m))
    && (forall m :: Live(a.d, m) && m != n ==> Same(a, b, m))
  }

  lemma InodesAfter(a: Image, b: Image, n: int)
    requires InodesOk(a) && Changed(a, b, n)
    requires Live(a.d, n) && n >= 1 && InodeOk(b.d, b.itab[n]) && KindOf(b.itab[n]) == KindOf(a.itab[n])
    ensures InodesOk(b)
  {
    forall m | 1 <= m && Live(b.d, m)
      ensures InodeOk(b.d, b.itab[m])
    {
      if m != n {
        InodeStaysOk(a, b, m);
      }
    }
  }

  /** Inodes other than `n` are live in both images or in neither, and mean the same. */
  ghost predicate ChangedOrNew(a: Image, b: Image, n: int) {
    && (forall m :: m != n ==> (Live(b.d, m) <==> Live(a.d, m)))
    && (forall m :: Live(a.d, m) && m != n ==> Same(a, b, m))
  }

  lemma FilesElsewhere(a: Image, b: Image, n: int, m: int)
    requires ChangedOrNew(a, b, n) && m != n
    ensures m in Files(b) <==> m in Files(a)
    ensures m in Files(a) ==> Files(b)[m] == Files(a)[m]
    ensures m in Dirs(b) <==> m in Dirs(a)
    ensures m in Dirs(a) ==> Dirs(b)[m] == Dirs(a)[m]
  {
    if Live(a.d, m) {
      SameContents(a, b, m);
    }
  }

  /** The abstract file system agrees everywhere but at `n`. */
  lemma ViewsElsewhere(a: Image, b: Image, n: int)
    requires ChangedOrNew(a, b, n)
    ensures forall m :: m != n ==> (m in Files(b) <==> m in Files(a)) && (m in Files(a) ==> Files(b)[m] == Files(a)[m])
    ensures forall m :: m != n ==> (m in Dirs(b) <==> m in Dirs(a)) && (m in Dirs(a) ==> Dirs(b)[m] == Dirs(a)[m])
  {
    forall m | m != n
      ensures (m in Files(b) <==> m in Files(a)) && (m in Files(a) ==> Files(b)[m] == Files(a)[m])
      ensures (m in Dirs(b) <==> m in Dirs(a)) && (m in Dirs(a) ==> Dirs(b)[m] == Dirs(a)[m])
    {
      FilesElsewhere(a, b, n, m);
    }
  }

  /** A change confined to a file changes that file's contents in the abstract state, nothing else. */
  lemma FileChanged(a: Image, b: Image, n: int)
    requires Changed(a, b, n) && IsFile(a, n) && KindOf(b.itab[n]) == File
    ensures Files(b) == Files(a)[n := Contents(b.d, b.itab[n])]
    ensures Dirs(b) == Dirs(a)
  {
    ViewsElsewhere(a, b, n);
    assert IsFile(b, n) == IsFile(a, n) && IsDir(b, n) == IsDir(a, n);
  }

  lemma DirChanged(a: Image, b: Image, n: int)
    requires Changed(a, b, n) && IsDir(a, n) && KindOf(b.itab[n]) == Dir
    ensures Files(b) == Files(a)
    ensures Dirs(b) == Dirs(a)[n := DirMap(DirTable(b.d, b.itab[n]))]
  {
    ViewsElsewhere(a, b, n);
    assert IsFile(b, n) == IsFile(a, n) && IsDir(b, n) == IsDir(a, n);
  }

  // ----- nothing changes -----

  /**
   Restoring both bitmaps restores everything: blocks and inodes that are free
   may hold anything.  Used for inode write-back and for rollback.
   */
  lemma Unchanged(a: Image, b: Image)
    requires ImageOk(a) && b.owner == a.owner && b.d[2] == a.d[2] && b.d[3] == a.d[3]
    requires Apart(a, b, 512)
    ensures ImageOk(b) && Files(b) == Files(a) && Dirs(b) == Dirs(a)
    ensures forall m :: Live(a.d, m) ==> Same(a, b, m)
  {
    OthersSame(a, b, 512);
    ViewsElsewhere(a, b, 512);
    assert Files(b) == Files(a);
    assert Dirs(b) == Dirs(a);
    OwnershipRewrite(a, b, 1);
    forall m | 1 <= m && Live(b.d, m)
      ensures InodeOk(b.d, b.itab[m])
    {
      InodeStaysOk(a, b, m);
    }
  }

  // ----- a slot gains a block -----

  /** Slot `j` of inode `n`, empty before, names the formerly free block `p`. */
  ghost predicate Gains(a: Image, b: Image, n: int, j: int, p: int) {
    && Live(a.d, n) && 0 <= j < 141 && 0 < p < 4096
    && Slot(a.d, a.itab[n], j) == 0 && !Used(a.d, p)
    && b.d[2] == SetBit(a.d[2], p) && b.d[3] == a.d[3]
    && b.owner == a.owner[p := Ref(n, j)]
    && (forall k :: 0 <= k < 141 ==> Slot(b.d, b.itab[n], k) == if k == j then p else Slot(a.d, a.itab[n], k))
  }

  lemma OwnershipGains(a: Image, b: Image, n: int, j: int, p: int)
    requires Ownership(a) && Gains(a, b, n, j, p) && Changed(a, b, n)
    ensures Ownership(b)
  {
    BitAfter(a.d[2], p);
    assert 132 <= p;
    assert p !in a.owner;
    assert forall q :: Used(b.d, q) <==> Used(a.d, q) || q == p;
    forall m, k | Live(b.d, m) && 0 <= k < 141 && Slot(b.d, b.itab[m], k) != 0
      ensures Slot(b.d, b.itab[m], k) in b.owner && b.owner[Slot(b.d, b.itab[m], k)] == Ref(m, k)
    {
      if !(m == n && k == j) {
        assert Slot(b.d, b.itab[m], k) == Slot(a.d, a.itab[m], k);
      }
    }
    forall q | q in b.owner
      ensures Live(b.d, b.owner[q].inode) && b.owner[q].slot < 141
      ensures Slot(b.d, b.itab[b.owner[q].inode], b.owner[q].slot) == q
    {
      if q != p {
        var r := a.owner[q];
        assert Slot(a.d, a.itab[r.inode], r.slot) == q;
      }
    }
  }

  // ----- a data block is rewritten -----

  /** Block `p`, owned by a data slot, is overwritten: no pointer changes. */
  lemma OwnershipRewrite(a: Image, b: Image, n: int)
    requires Ownership(a) && Live(a.d, n) && Changed(a, b, n)
    requires b.owner == a.owner && b.d[2] == a.d[2] && b.d[3] == a.d[3]
    requires forall k :: 0 <= k < 141 ==> Slot(b.d, b.itab[n], k) == Slot(a.d, a.itab[n], k)
    ensures Ownership(b)
  {
    forall m, k | Live(b.d, m) && 0 <= k < 141
      ensures Slot(b.d, b.itab[m], k) == Slot(a.d, a.itab[m], k)
    {
    }
    assert forall p :: Used(b.d, p) <==> Used(a.d, p);
  }

  // ----- an inode loses all its blocks -----

  /** All of `n`'s slots become empty, its blocks and no others become free. */
  ghost predicate Drops(a: Image, b: Image, n: int) {
    && Live(a.d, n) && b.d[3] == a.d[3]
    && (forall p :: Used(b.d, p) <==> Used(a.d, p) && !(p in a.owner && a.owner[p].inode == n))
    && b.owner == (map p | p in a.owner && a.owner[p].inode != n :: a.owner[p])
    && (forall k :: 0 <= k < 141 ==> Slot(b.d, b.itab[n], k) == 0)
  }

  lemma OwnershipDrops(a: Image, b: Image, n: int)
    requires Ownership(a) && Drops(a, b, n) && Changed(a, b, n)
    ensures Ownership(b)
  {
    forall m, k | Live(b.d, m) && 0 <= k < 141 && Slot(b.d, b.itab[m], k) != 0
      ensures Slot(b.d, b.itab[m], k) in b.owner && b.owner[Slot(b.d, b.itab[m], k)] == Ref(m, k)
    {
      assert m != n;
      assert Slot(b.d, b.itab[m], k) == Slot(a.d, a.itab[m], k);
    }
    forall q | q in b.owner
      ensures Slot(b.d, b.itab[b.owner[q].inode], b.owner[q].slot) == q
    {
      var r := a.owner[q];
      assert Slot(a.d, a.itab[r.inode], r.slot) == q;
    }
  }

  // ----- an inode is born -----

  /** Inode `n`, free before, becomes live with no blocks. */
  ghost predicate Born(a: Image, b: Image, n: int) {
    && 1 <= n < 512 && !Live(a.d, n)
    && b.d == a.d[3 := SetBit(a.d[3], n)]
    && b.owner == a.owner
    && (forall m :: 0 <= m < 512 && m != n ==> b.itab[m] == a.itab[m])
    && (forall k :: 0 <= k < 12 ==> b.itab[n].direct[k] == 0) && b.itab[n].indirect == 0
  }

  lemma BornLive(a: Image, b: Image, n: int)
    requires Ownership(a) && Born(a, b, n)
    ensures forall m :: Live(b.d, m) <==> Live(a.d, m) || m == n
    ensures forall m :: Live(a.d, m) ==> Same(a, b, m)
    ensures forall k :: 0 <= k < 141 ==> Slot(b.d, b.itab[n], k) == 0
  {
    BitAfter(a.d[3], n);
    OthersSame(a, b, n);
    ZeroWords();
  }

  lemma OwnershipBorn(a: Image, b: Image, n: int)
    requires Ownership(a) && Born(a, b, n)
    ensures Ownership(b)
  {
    BornLive(a, b, n);
    assert forall p :: Used(b.d, p) <==> Used(a.d, p);
    forall m, k | Live(b.d, m) && 0 <= k < 141 && Slot(b.d, b.itab[m], k) != 0
      ensures Slot(b.d, b.itab[m], k) in b.owner && b.owner[Slot(b.d, b.itab[m], k)] == Ref(m, k)
    {
      assert m != n;
      assert Slot(b.d, b.itab[m], k) == Slot(a.d, a.itab[m], k);
    }
    forall q | q in b.owner
      ensures Live(b.d, b.owner[q].inode)
      ensures Slot(b.d, b.itab[b.owner[q].inode], b.owner[q].slot) == q
    {
      var r := a.owner[q];
      assert Slot(a.d, a.itab[r.inode], r.slot) == q;
    }
  }

  /** The inode table after a birth, and what the abstract file system gains. */
  lemma InodesBorn(a: Image, b: Image, n: int)
    requires ImageOk(a) && Born(a, b, n)
    requires KindOf(b.itab[n]) != Other && b.itab[n].size <= 71680
    ensures InodesOk(b)
  {
    BornLive(a, b, n);
    forall m | 1 <= m && Live(b.d, m)
      ensures InodeOk(b.d, b.itab[m])
    {
      if m != n {
        InodeStaysOk(a, b, m);
      } else {
        EmptyOk(b.d, b.itab[n]);
      }
    }
  }

  lemma EmptyOk(d: Disk, i: Inode)
    requires forall k :: 0 <= k < 141 ==> Slot(d, i, k) == 0
    ensures forall k :: 0 <= k < 71680 ==> ByteAt(d, i, k) == 0
    ensures forall k :: 0 <= k < 96 ==> DirTable(d, i)[k] == NO_DIRENT
    ensures DirOk(d, i)
  {
    forall k | 0 <= k < 96
      ensures DirTable(d, i)[k] == NO_DIRENT
    {
      assert Slot(d, i, k / 8) == i.direct[k / 8];
      ZeroDirent(k % 8);
    }
  }

  lemma ElsewhereBorn(a: Image, b: Image, n: int)
    requires Ownership(a) && Born(a, b, n)
    ensures Live(b.d, n)
    ensures forall m :: m != n ==> (m in Files(b) <==> m in Files(a)) && (m in Files(a) ==> Files(b)[m] == Files(a)[m])
    ensures forall m :: m != n ==> (m in Dirs(b) <==> m in Dirs(a)) && (m in Dirs(a) ==> Dirs(b)[m] == Dirs(a)[m])
  {
    BornLive(a, b, n);
    ViewsElsewhere(a, b, n);
  }

  lemma MapAgrees<K, V>(x: map<K, V>, y: map<K, V>, n: K)
    requires forall m :: m != n ==> (m in y <==> m in x) && (m in x ==> y[m] == x[m])
    ensures n in y ==> y == x[n := y[n]]
    ensures n !in y && n !in x ==> y == x
  {
    if n in y {
      var z := x[n := y[n]];
      assert forall m :: m in y <==> m in z;
      assert y == z;
    } else if n !in x {
      assert forall m :: m in y <==> m in x;
      assert y == x;
    }
  }

  /** A newborn file or directory is the only thing added. */
  lemma ViewsBorn(a: Image, b: Image, n: int)
    requires Ownership(a) && Born(a, b, n)
    ensures KindOf(b.itab[n]) == File ==> Files(b) == Files(a)[n := Contents(b.d, b.itab[n])] && Dirs(b) == Dirs(a)
    ensures KindOf(b.itab[n]) == Dir ==> Files(b) == Files(a) && Dirs(b) == Dirs(a)[n := DirMap(DirTable(b.d, b.itab[n]))]
  {
    ElsewhereBorn(a, b, n);
    MapAgrees(Files(a), Files(b), n);
    MapAgrees(Dirs(a), Dirs(b), n);
  }
}
