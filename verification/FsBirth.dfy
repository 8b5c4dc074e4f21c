/**
 How inodes come into being: a new file, a new directory with its two dot
 entries, the freshly formatted disk, and the way back when creation fails.
 */
module FsBirth {
  import opened Bytes
  import opened Bitmaps
  import opened FsLayout
  import opened FsImage
  import opened FsSteps
  import opened FsEdits
  import opened FsPaths
  import opened FsSpec

  // ----- dot entries -----

  /** A directory block holding "." and "..". */
  function DotBlock(self: u32, parent: u32): (b: Block) {
    PutDirent(PutDirent(ZeroBlock(), 0, Dirent(self, DOT)), 1, Dirent(parent, DOTDOT))
  }

  lemma DotEntries(self: u32, parent: u32, s: nat)
    requires s < 8
    ensures DirentAt(DotBlock(self, parent), s)
         == if s == 0 then Dirent(self, DOT) else if s == 1 then Dirent(parent, DOTDOT) else NO_DIRENT
  {
    hide PutDirent, DirentAt;
    var z := PutDirent(ZeroBlock(), 0, Dirent(self, DOT));
    DirentRoundTrip(z, 1, Dirent(parent, DOTDOT), s);
    DirentRoundTrip(ZeroBlock(), 0, Dirent(self, DOT), s);
    ZeroDirent(s);
  }

  /** Entry 0 and 1 are the dots, the rest is empty. */
  ghost predicate DotTable(t: seq<Dirent>, self: u32, parent: u32) {
    && |t| == 96
    && t[0] == Dirent(self, DOT) && t[1] == Dirent(parent, DOTDOT)
    && forall k :: 2 <= k < 96 ==> t[k] == NO_DIRENT
  }

  lemma DotMap(t: seq<Dirent>, self: u32, parent: u32)
    requires DotTable(t, self, parent) && self != 0 && parent != 0
    ensures DirMap(t) == Dots(self, parent)
  {
    forall name
      ensures Find(t, name) == if name == DOT then self else if name == DOTDOT then parent else 0
    {
      assert forall k :: 2 <= k < 96 ==> !Names(t[k], name);
      assert FindFrom(t, name, 2) == 0;
      assert FindFrom(t, name, 1) == if Names(t[1], name) then parent else FindFrom(t, name, 2);
    }
    MapIs(DirMap(t), Dots(self, parent));
  }

  lemma MapIs<K, V>(x: map<K, V>, y: map<K, V>)
    requires forall k :: k in x <==> k in y
    requires forall k :: k in x ==> x[k] == y[k]
    ensures x == y
  {
  }

  // ----- new inodes -----

  /** `a` with inode `n` made live as `i`, which has no blocks. */
  function Birth(a: Image, n: int, i: Inode): (b: Image)
    requires 0 <= n < 512
  {
    Image(a.d[3 := SetBit(a.d[3], n)], a.itab[n := i], a.owner)
  }

  /** The directory `i` looks the same on both disks. */
  ghost predicate SameDir(a: Image, c: Image, m: int) {
    0 <= m < 512 && c.itab[m] == a.itab[m] && DirTable(c.d, c.itab[m]) == DirTable(a.d, a.itab[m]) && c.d[2] == a.d[2]
  }

  lemma NewFileSameDir(a: Image, n: int, m: int)
    requires ImageOk(a) && OnDisk(a) && 1 <= n < 512 && !Live(a.d, n) && Live(a.d, m)
    ensures SameDir(a, Saved(Birth(a, n, EmptyInode(FILE_MODE, 0)), n), m)
  {
    hide ImageOk, Ownership, OnDisk, InodeAt, Files, Dirs, DirTable, DirMap, Contents, Slot, Same;
    var i := EmptyInode(FILE_MODE, 0);
    var b := Birth(a, n, i);
    Owned(a);
    BirthOk(a, n, i);
    BornLive(a, b, n);
    OthersOnDisk(a, b, n);
    SavedOk(b, n);
    SavedLive(b, n);
    SameTables(a, b, Saved(b, n), m);
  }

  lemma SameTables(a: Image, b: Image, c: Image, m: int)
    requires 0 <= m < 512 && Same(a, b, m) && Same(b, c, m) && b.d[2] == a.d[2] && c.d[2] == b.d[2]
    ensures SameDir(a, c, m)
  {
  }

  /** A new empty file, saved. */
  lemma NewFileOk(a: Image, n: int)
    requires ImageOk(a) && OnDisk(a) && 1 <= n < 512 && !Live(a.d, n)
    ensures var c := Saved(Birth(a, n, EmptyInode(FILE_MODE, 0)), n);
      && ImageOk(c) && OnDisk(c) && IsFile(c, n)
      && Files(c) == Files(a)[n := []] && Dirs(c) == Dirs(a)
      && n !in Files(a) && n !in Dirs(a)
  {
    hide ImageOk, Ownership, InodesOk, OnDisk, Files, Dirs, InodeAt;
    var b := Birth(a, n, EmptyInode(FILE_MODE, 0));
    BirthOk(a, n, EmptyInode(FILE_MODE, 0));
    NoBody(b.d, b.itab[n]);
    OthersOnDisk(a, b, n);
    SavedOk(b, n);
    SavedLive(b, n);
  }

  lemma SavedLive(b: Image, n: int)
    requires 0 <= n < 512
    ensures Saved(b, n).d[3] == b.d[3] && Saved(b, n).d[2] == b.d[2] && Saved(b, n).d[1] == b.d[1]
  {
  }

  lemma NoBody(d: Disk, i: Inode)
    requires i.size == 0
    ensures Contents(d, i) == []
  {
  }

  lemma BirthOk(a: Image, n: int, i: Inode)
    requires ImageOk(a) && 1 <= n < 512 && !Live(a.d, n)
    requires KindOf(i) != Other && i.size <= 71680 && i.indirect == 0 && forall k :: 0 <= k < 12 ==> i.direct[k] == 0
    ensures var b := Birth(a, n, i);
      && ImageOk(b) && Live(b.d, n) && n !in Files(a) && n !in Dirs(a)
      && (forall m :: Live(b.d, m) <==> Live(a.d, m) || m == n)
      && (KindOf(i) == File ==> Files(b) == Files(a)[n := Contents(b.d, i)] && Dirs(b) == Dirs(a))
      && (KindOf(i) == Dir ==> Files(b) == Files(a) && Dirs(b) == Dirs(a)[n := DirMap(DirTable(b.d, i))])
  {
    hide InodesOk, Ownership, Contents, DirMap;
    var b := Birth(a, n, i);
    NotYet(a, n);
    OwnershipBorn(a, b, n);
    InodesBorn(a, b, n);
    BornLive(a, b, n);
    ViewsBorn(a, b, n);
  }

  lemma NotYet(a: Image, n: int)
    requires ImageOk(a) && !Live(a.d, n)
    ensures Ownership(a) && n !in Files(a) && n !in Dirs(a)
  {
  }

  /** The image of a new directory before its entry is added to the parent. */
  function NewDir(a: Image, n: int, p: int, parent: u32): (b: Image)
    requires 0 <= n < 512 && 0 <= p < 4096
  {
    GrowDirect(Birth(a, n, EmptyInode(DIR_MODE, 512)), n, 0, p, DotBlock(n, parent), 512)
  }

  lemma NewDirTable(a: Image, n: int, p: int, parent: u32)
    requires Ownership(a) && 1 <= n < 512 && !Live(a.d, n) && 0 <= p < 4096 && !Used(a.d, p)
    ensures var b := NewDir(a, n, p, parent); DotTable(DirTable(b.d, b.itab[n]), n, parent)
  {
    FreshBlock(a, p);
    var b := NewDir(a, n, p, parent);
    forall k | 0 <= k < 96
      ensures DirTable(b.d, b.itab[n])[k]
           == if k == 0 then Dirent(n, DOT) else if k == 1 then Dirent(parent, DOTDOT) else NO_DIRENT
    {
      if k / 8 == 0 {
        assert b.itab[n].direct[k / 8] == p && b.d[p] == DotBlock(n, parent);
        DotEntries(n, parent, k % 8);
      } else {
        assert b.itab[n].direct[k / 8] == 0;
        ZeroDirent(k % 8);
      }
    }
  }

  /** A new directory maps "." to itself and ".." to its parent; nothing else changes. */
  lemma NewDirOk(a: Image, n: int, p: int, parent: u32)
    requires ImageOk(a) && 1 <= n < 512 && !Live(a.d, n) && 0 <= p < 4096 && !Used(a.d, p)
    requires parent != 0 && Live(a.d, parent)
    ensures var b := NewDir(a, n, p, parent);
      && 132 <= p && ImageOk(b) && n !in Files(a) && n !in Dirs(a)
      && (forall m :: Live(b.d, m) <==> Live(a.d, m) || m == n)
      && Files(b) == Files(a) && Dirs(b) == Dirs(a)[n := Dots(n, parent)]
  {
    hide ImageOk, Ownership, Files, Dirs, DirMap, DirTable, DotBlock, Gains, Find, Same, Changed;
    var e := Birth(a, n, EmptyInode(DIR_MODE, 512));
    var b := NewDir(a, n, p, parent);
    BirthOk(a, n, EmptyInode(DIR_MODE, 512));
    Owned(a);
    Owned(e);
    FreshBlock(a, p);
    GrowDirectShape(e, n, 0, p, DotBlock(n, parent), 512);
    NewDirTable(a, n, p, parent);
    NewDirViews(e, b, n, parent);
    DotMap(DirTable(b.d, b.itab[n]), n, parent);
  }

  lemma Owned(a: Image)
    requires ImageOk(a)
    ensures Ownership(a)
  {
  }

  lemma DotsOk(d: Disk, i: Inode, self: u32, parent: u32)
    requires KindOf(i) == Dir && DotTable(DirTable(d, i), self, parent) && Live(d, self) && Live(d, parent)
    ensures InodeOk(d, i)
  {
    forall k | 0 <= k < 96
      ensures EntryOk(d, DirTable(d, i)[k])
    {
    }
  }

  lemma NewDirViews(e: Image, b: Image, n: int, parent: u32)
    requires ImageOk(e) && Ownership(b) && IsDir(e, n) && Changed(e, b, n) && KindOf(b.itab[n]) == Dir
    requires DotTable(DirTable(b.d, b.itab[n]), n, parent) && Live(e.d, parent)
    ensures ImageOk(b) && Files(b) == Files(e) && Dirs(b) == Dirs(e)[n := DirMap(DirTable(b.d, b.itab[n]))]
  {
    hide Ownership, InodesOk, DirTable, InodeOk, Files, Dirs, DotTable;
    DotsOk(b.d, b.itab[n], n, parent);
    InodesAfter(e, b, n);
    DirChanged(e, b, n);
  }

  /** A new directory, saved. */
  lemma NewDirSaved(a: Image, n: int, p: int, parent: u32)
    requires ImageOk(a) && OnDisk(a) && 1 <= n < 512 && !Live(a.d, n) && 0 <= p < 4096 && !Used(a.d, p)
    requires parent != 0 && Live(a.d, parent)
    ensures var c := Saved(NewDir(a, n, p, parent), n);
      && 132 <= p && ImageOk(c) && OnDisk(c) && n !in Files(a) && n !in Dirs(a)
      && Files(c) == Files(a) && Dirs(c) == Dirs(a)[n := Dots(n, parent)]
      && c.d[1] == a.d[1] && c.d[2] == SetBit(a.d[2], p) && c.d[3] == SetBit(a.d[3], n)
  {
    hide ImageOk, OnDisk, Files, Dirs, InodeAt, DotBlock, SetBit;
    var b := NewDir(a, n, p, parent);
    NewDirOk(a, n, p, parent);
    OthersOnDisk(a, b, n);
    SavedOk(b, n);
    SavedLive(b, n);
  }

  lemma OthersOnDisk(a: Image, b: Image, n: int)
    requires OnDisk(a) && (forall q :: 4 <= q < 132 ==> b.d[q] == a.d[q])
    requires forall m :: 0 <= m < 512 && m != n ==> b.itab[m] == a.itab[m]
    ensures forall m :: 0 <= m < 512 && m != n ==> b.itab[m] == InodeAt(b.d, m)
  {
  }

  /** Another directory looks the same, but for the one block taken. */
  lemma NewDirSameDir(a: Image, n: int, p: int, parent: u32, m: int)
    requires ImageOk(a) && OnDisk(a) && 1 <= n < 512 && !Live(a.d, n) && 0 <= p < 4096 && !Used(a.d, p)
    requires parent != 0 && Live(a.d, parent) && Live(a.d, m)
    ensures var c := Saved(NewDir(a, n, p, parent), n);
      c.itab[m] == a.itab[m] && DirTable(c.d, c.itab[m]) == DirTable(a.d, a.itab[m]) && c.d[2] == SetBit(a.d[2], p)
  {
    hide ImageOk, Ownership, OnDisk, InodeAt, Files, Dirs, DirTable, DirMap, Contents, Slot, DotBlock, SetBit;
    var c := Saved(NewDir(a, n, p, parent), n);
    NewDirSaved(a, n, p, parent);
    Owned(a);
    OwnedRange(a, p);
    OthersSame(a, c, n);
  }

  lemma OwnedRange(a: Image, p: int)
    requires Ownership(a) && !Used(a.d, p)
    ensures forall q :: q in a.owner ==> 132 <= q < 4096 && q != p
  {
  }

  // ----- rolling back -----

  /**
   Creation failed: once the bitmaps are back to their old bytes, the image is
   back too, whatever was left in the free inode slot and the free block.
   */
  lemma RolledBack(a: Image, b: Image, n: int, p: int)
    requires ImageOk(a) && OnDisk(a) && 1 <= n < 512 && !Live(a.d, n) && (p == 0 || !Used(a.d, p))
    requires b.d[2] == a.d[2] && b.d[3] == a.d[3] && b.owner == a.owner
    requires forall q :: 132 <= q < 4096 && q != p ==> b.d[q] == a.d[q]
    requires forall m :: 0 <= m < 512 && m != n ==> b.itab[m] == a.itab[m]
    ensures ImageOk(b) && Files(b) == Files(a) && Dirs(b) == Dirs(a)
  {
    Unchanged(a, b);
  }

  lemma SameTableOnDisk(c: Image, b: Image)
    requires OnDisk(c) && b.itab == c.itab && forall q :: 4 <= q < 132 ==> b.d[q] == c.d[q]
    ensures OnDisk(b)
  {
  }

  /** The image after a new inode (and, for `p` not 0, a new block) has been given back. */
  function Undone(a: Image, c: Image, n: int, p: int): (b: Image)
    requires 0 <= n < 512 && 0 <= p < 4096
  {
    var d := if p == 0 then c.d else c.d[2 := ClearBit(c.d[2], p)];
    Image(d[3 := ClearBit(d[3], n)], c.itab, a.owner)
  }

  lemma UndoneOk(a: Image, c: Image, n: int, p: int)
    requires ImageOk(a) && OnDisk(a) && OnDisk(c) && 1 <= n < 512 && !Live(a.d, n)
    requires p == 0 || (132 <= p < 4096 && !Used(a.d, p))
    requires c.d[3] == SetBit(a.d[3], n) && c.d[2] == if p == 0 then a.d[2] else SetBit(a.d[2], p)
    requires c.d[1] == a.d[1]
    requires forall q :: 132 <= q < 4096 && q != p ==> c.d[q] == a.d[q]
    requires forall m :: 0 <= m < 512 && m != n ==> c.itab[m] == a.itab[m]
    ensures var b := Undone(a, c, n, p);
      && ImageOk(b) && OnDisk(b) && Files(b) == Files(a) && Dirs(b) == Dirs(a)
      && b.d[1] == a.d[1] && b.d[2] == a.d[2] && b.d[3] == a.d[3]
  {
    hide ImageOk, OnDisk, Files, Dirs, InodeAt, SetBit, ClearBit, Bit;
    ClearUndoesSet(a.d[3], n);
    if p != 0 { ClearUndoesSet(a.d[2], p); }
    var b := Undone(a, c, n, p);
    SameTableOnDisk(c, b);
    RolledBack(a, b, n, p);
  }

  /** A file creation undone. */
  lemma UndoneFile(a: Image, n: int)
    requires ImageOk(a) && OnDisk(a) && 1 <= n < 512 && !Live(a.d, n)
    ensures var b := Undone(a, Saved(Birth(a, n, EmptyInode(FILE_MODE, 0)), n), n, 0);
      && ImageOk(b) && OnDisk(b) && Files(b) == Files(a) && Dirs(b) == Dirs(a)
      && b.d[1] == a.d[1] && b.d[2] == a.d[2] && b.d[3] == a.d[3]
  {
    hide ImageOk, OnDisk, Files, Dirs, InodeAt, SetBit, PutInode;
    NewFileOk(a, n);
    UndoneOk(a, Saved(Birth(a, n, EmptyInode(FILE_MODE, 0)), n), n, 0);
  }

  /** A directory creation undone. */
  lemma UndoneDir(a: Image, n: int, p: int, parent: u32)
    requires ImageOk(a) && OnDisk(a) && 1 <= n < 512 && !Live(a.d, n) && 0 < p < 4096 && !Used(a.d, p)
    requires parent != 0 && Live(a.d, parent)
    ensures var b := Undone(a, Saved(NewDir(a, n, p, parent), n), n, p);
      && ImageOk(b) && OnDisk(b) && Files(b) == Files(a) && Dirs(b) == Dirs(a)
      && b.d[1] == a.d[1] && b.d[2] == a.d[2] && b.d[3] == a.d[3]
  {
    hide ImageOk, OnDisk, Files, Dirs, InodeAt, SetBit, PutInode, DotBlock, Dots;
    NewDirSaved(a, n, p, parent);
    UndoneOk(a, Saved(NewDir(a, n, p, parent), n), n, p);
  }

  // ----- the formatted disk -----

  function RootInode(): (i: Inode) {
    EmptyInode(DIR_MODE, 512).(direct := seq(12, k => if k == 0 then 132 else 0))
  }

  /** What `format` leaves on the disk. */
  ghost predicate Formatted(d: Disk) {
    && (forall p :: 0 <= p < 4096 ==> (Bit(d[2], p) <==> p <= 132))
    && (forall n :: 0 <= n < 512 ==> (Bit(d[3], n) <==> n <= 1))
    && (forall n :: 0 <= n < 512 ==> InodeAt(d, n) == FormatInode(n))
    && d[132] == DotBlock(1, 1)
  }

  function FormatInode(n: nat): (i: Inode) {
    if n == 1 then RootInode() else EmptyInode(0, 0)
  }

  function FormatTable(): (t: Table) {
    seq<Inode>(512, n requires 0 <= n => FormatInode(n))
  }

  function FormatImage(d: Disk): (a: Image) {
    Image(d, FormatTable(), map[132 := Ref(1, 0)])
  }

  lemma FormatSlots(d: Disk, n: nat, j: nat)
    requires n <= 1 && j < 141
    ensures Slot(d, FormatTable()[n], j) == if n == 1 && j == 0 then 132 else 0
  {
    ZeroWords();
    assert FormatTable()[n] == FormatInode(n);
  }

  lemma FormatOwnership(d: Disk)
    requires Formatted(d)
    ensures Ownership(FormatImage(d))
  {
    hide DotBlock, InodeAt, Slot;
    forall n: nat, j: nat | n <= 1 && j < 141
      ensures Slot(d, FormatTable()[n], j) == if n == 1 && j == 0 then 132 else 0
    {
      FormatSlots(d, n, j);
    }
  }

  lemma FormatTableOk(d: Disk)
    requires Formatted(d)
    ensures DotTable(DirTable(d, RootInode()), 1, 1)
  {
    forall k | 0 <= k < 96
      ensures DirTable(d, RootInode())[k]
           == if k == 0 then Dirent(1, DOT) else if k == 1 then Dirent(1, DOTDOT) else NO_DIRENT
    {
      if k / 8 == 0 {
        DotEntries(1, 1, k % 8);
      } else {
        ZeroDirent(k % 8);
      }
    }
  }

  lemma FormattedInodes(d: Disk)
    requires Formatted(d)
    ensures InodesOk(FormatImage(d)) && OnDisk(FormatImage(d))
  {
    hide DotBlock, DirTable, InodeOk;
    FormatTableOk(d);
    DotsOk(d, RootInode(), 1, 1);
  }

  /** A formatted disk holds a root directory with its two dots and nothing else. */
  lemma FormattedOk(d: Disk)
    requires Formatted(d)
    ensures var a := FormatImage(d);
      ImageOk(a) && OnDisk(a) && Files(a) == map[] && Dirs(a) == map[ROOT := Dots(ROOT, ROOT)]
  {
    FormatOwnership(d);
    FormattedInodes(d);
    FormattedViews(d);
  }

  lemma FormattedViews(d: Disk)
    requires Formatted(d)
    ensures var a := FormatImage(d); Files(a) == map[] && Dirs(a) == map[ROOT := Dots(ROOT, ROOT)]
  {
    hide DotBlock, DirTable, InodeAt, DirMap, Slot;
    var a := FormatImage(d);
    FormatTableOk(d);
    DotMap(DirTable(d, RootInode()), 1, 1);
    assert forall n :: 0 <= n < 512 && Live(a.d, n) ==> n <= 1;
    assert forall n :: !IsFile(a, n);
    assert forall n :: IsDir(a, n) <==> n == 1;
  }
}
