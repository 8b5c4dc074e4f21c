/**
 Facts about images that the file system code relies on: adding a directory
 entry, running out of room, what the abstract state says about an inode.
 */
module FsFacts {
  import opened Bytes
  import opened Bitmaps
  import opened FsLayout
  import opened FsImage
  import opened FsSteps
  import opened FsEdits
  import opened FsWrites
  import opened FsPaths
  import opened FsSpec
  import opened FsBirth

  /** The superblock and the inode bitmap are untouched. */
  predicate SameHeader(d: Disk, e: Disk) {
    e[1] == d[1] && e[3] == d[3]
  }

  /** What a new directory entry must satisfy. */
  predicate GoodEntry(d: Disk, e: Dirent) {
    e.inode != 0 && Live(d, e.inode) && |e.name| <= 55 && 0 !in e.name
  }

  /** From one settled image to another, directory `d` gained the entry `e` and nothing else changed. */
  ghost predicate Entered(a: Image, b: Image, d: int, e: Dirent) {
    && ImageOk(b) && OnDisk(b)
    && Files(b) == Files(a) && Dirs(b) == AddName(Dirs(a), d, e.name, e.inode)
    && SameHeader(a.d, b.d)
  }

  /** Entry `k` sits in a block that exists. */
  predicate Present(i: Inode, k: int) {
    0 <= k < 96 && 0 < i.direct[k / 8] < 4096
  }

  /** The directory has no empty entry, and no room for another block or no block to put there. */
  ghost predicate NoRoom(d: Disk, i: Inode) {
    && (forall k :: Present(i, k) ==> DirTable(d, i)[k].inode != 0)
    && ((forall l :: 0 <= l < 12 ==> i.direct[l] != 0) || AllUsed(d[2]))
  }

  ghost predicate InodeNoRoom(a: Image, d: int) {
    0 <= d < 512 && NoRoom(a.d, a.itab[d])
  }

  /** No room in the directory unless block `spare` could be used for it. */
  ghost predicate NoRoomBut(a: Image, d: int, spare: int) {
    && 0 <= d < 512
    && (forall k :: Present(a.itab[d], k) ==> DirTable(a.d, a.itab[d])[k].inode != 0)
    && ((forall l :: 0 <= l < 12 ==> a.itab[d].direct[l] != 0) || (forall q :: 0 <= q < 4096 && q != spare ==> Used(a.d, q)))
  }

  /** Why a directory could not be made: no inode, no block for it, or no room in the parent besides that block. */
  ghost predicate NoDirRoom(a: Image, d: int) {
    || (forall m :: 0 <= m < 512 ==> Live(a.d, m))
    || exists spare :: NoRoomBut(a, d, spare)
  }

  /** Entries outside existing blocks are empty. */
  lemma PresentEntries(d: Disk, dir: Inode, t: seq<Dirent>)
    requires t == DirTable(d, dir)
    ensures forall j :: 0 <= j < 96 && !Present(dir, j) ==> t[j] == NO_DIRENT
  {
    forall j | 0 <= j < 96 && !Present(dir, j)
      ensures t[j] == NO_DIRENT
    {
      ZeroDirent(j % 8);
    }
  }

  lemma ZeroBits()
    ensures forall p :: 0 <= p < 4096 ==> !Bit(ZeroBlock(), p)
  {
    forall p | 0 <= p < 4096
      ensures !Bit(ZeroBlock(), p)
    {
      NoBits(p % 8);
    }
  }

  /** Linking a fresh directory block holding one entry and saving the inode, as one edit. */
  lemma LinkedOk(a: Image, d: int, l: nat, p: int, e: Dirent, size: u64)
    requires ImageOk(a) && OnDisk(a) && IsDir(a, d) && l < 12 && a.itab[d].direct[l] == 0
    requires 0 <= p < 4096 && !Used(a.d, p) && GoodEntry(a.d, e)
    requires Find(DirTable(a.d, a.itab[d]), e.name) == 0
    ensures 132 <= p && Entered(a, Saved(GrowDirect(a, d, l, p, PutDirent(ZeroBlock(), 0, e), size), d), d, e)
  {
    hide ImageOk, Ownership, Changed, OnDisk, Files, Dirs, PutDirent, DirTable, Find, InodeAt, Gains;
    Parts(a, d);
    FreshBlock(a, p);
    var blk := PutDirent(ZeroBlock(), 0, e);
    var b := GrowDirect(a, d, l, p, blk, size);
    GrowDirectShape(a, d, l, p, blk, size);
    NewBlockTable(a, d, l, p, e, size);
    EntryWasEmpty(a, d, l);
    EntryAdded(a, b, d, 8 * l, e);
    OthersOnDisk(a, b, d);
    SavedOk(b, d);
  }

  lemma ReservedUsed(a: Image)
    requires ImageOk(a)
    ensures Used(a.d, 0) && Live(a.d, 0) && Live(a.d, 1)
  {
  }

  lemma Parts(a: Image, d: int)
    requires ImageOk(a)
    ensures Ownership(a)
    ensures IsDir(a, d) ==> d in Dirs(a)
    ensures IsDir(a, d) ==> forall l :: 0 <= l < 12 ==> a.itab[d].direct[l] == 0 || 132 <= a.itab[d].direct[l] < 4096
  {
    if IsDir(a, d) {
      assert forall l :: 0 <= l < 12 ==> a.itab[d].direct[l] == Slot(a.d, a.itab[d], l);
    }
  }

  /** How the abstract directory map is read off the table. */
  lemma DirEntries(a: Image, d: int, name: Name)
    requires OnDisk(a) && 1 <= d && Live(a.d, d)
    ensures InodeAt(a.d, d) == a.itab[d]
    ensures d in Dirs(a) <==> KindOf(a.itab[d]) == Dir
    ensures KindOf(a.itab[d]) == Dir ==> Child(Dirs(a), d, name) == Find(DirTable(a.d, a.itab[d]), name)
  {
  }

  /** Splitting `cs` from the root comes to splitting `rest` from `cur`. */
  ghost predicate SameSplit(t: Tree, cs: seq<Name>, cur: int, rest: seq<Name>) {
    && cs != [] && rest != []
    && ParentOf(t, ROOT, cs) == ParentOf(t, cur, rest)
    && cs[|cs| - 1] == rest[|rest| - 1]
    && (ShortNames(cs) <==> ShortNames(rest))
  }

  lemma SplitStep(t: Tree, cs: seq<Name>, cur: int, rest: seq<Name>)
    requires SameSplit(t, cs, cur, rest) && |rest| > 1 && |rest[0]| <= 55
    ensures var next := Child(t, cur, rest[0]);
      if next == 0 || next !in t then ParentOf(t, ROOT, cs) == 0 else SameSplit(t, cs, next, rest[1..])
  {
    assert rest == [rest[0]] + rest[1..];
  }

  lemma HasComponent(path: seq<byte>, p: nat)
    requires p < |path| && path[p] != SLASH
    ensures Components(path[p..]) != []
  {
    ComponentsHead(path[p..]);
  }

  lemma TreeFacts(a: Image)
    requires ImageOk(a)
    ensures ROOT in Dirs(a) && NoZero(Dirs(a)) && 0 !in Files(a) && 0 !in Dirs(a)
    ensures forall n :: n in Files(a) ==> n !in Dirs(a)
  {
    hide Ownership, InodeOk, Find;
    forall d, name | d in Dirs(a) && name in Dirs(a)[d]
      ensures Dirs(a)[d][name] != 0
    {
      assert Dirs(a)[d] == DirMap(DirTable(a.d, a.itab[d]));
    }
  }

  lemma RootIsDir(a: Image)
    requires ImageOk(a)
    ensures ROOT in Dirs(a)
  {
  }

  lemma NoComponents(p: seq<byte>)
    requires p == []
    ensures Components(p) == []
  {
  }

  /** Directory entries name live inodes with names of at most 55 bytes. */
  lemma ChildLive(a: Image, d: int, name: Name)
    requires ImageOk(a)
    ensures Child(Dirs(a), d, name) != 0 ==>
      1 <= Child(Dirs(a), d, name) && Live(a.d, Child(Dirs(a), d, name)) && |name| <= 55
  {
    if Child(Dirs(a), d, name) != 0 {
      var t := DirTable(a.d, a.itab[d]);
      assert DirOk(a.d, a.itab[d]);
      var k := Found(t, name);
      assert EntryOk(a.d, t[k]);
    }
  }

  lemma LongNameAbsent(a: Image, d: int, name: Name)
    requires ImageOk(a) && |name| > 55
    ensures Child(Dirs(a), d, name) == 0
  {
    ChildLive(a, d, name);
  }

  lemma Found(t: seq<Dirent>, name: Name) returns (k: nat)
    requires Find(t, name) != 0
    ensures k < |t| && Names(t[k], name) && t[k].inode == Find(t, name)
  {
    k := 0;
    while !Names(t[k], name)
      invariant k < |t| && FindFrom(t, name, k) == Find(t, name)
      decreases |t| - k
    {
      k := k + 1;
    }
  }

  /** The writes of format, put together. */
  lemma FormatDone(d: Disk)
    requires forall p :: 0 <= p < 4096 ==> (Bit(d[2], p) <==> p <= 132)
    requires d[3] == SetBit(SetBit(ZeroBlock(), 0), 1)
    requires forall q :: 4 <= q < 132 ==> d[q] == if q == 4 then PutInode(ZeroBlock(), 1, RootInode()) else ZeroBlock()
    requires d[132] == DotBlock(1, 1)
    ensures Formatted(d)
  {
    hide DotBlock, PutInode, DecodeInode;
    ZeroBits();
    BitAfter(ZeroBlock(), 0);
    BitAfter(SetBit(ZeroBlock(), 0), 1);
    forall n | 0 <= n < 512
      ensures InodeAt(d, n) == FormatInode(n)
    {
      ZeroInode(n % 4);
      InodeRoundTrip(ZeroBlock(), 1, RootInode(), n % 4);
    }
  }

  /** A superblock that passes the tests passes them again once resealed. */
  lemma SealedAgain(b: Block)
    requires SuperOk(b)
    ensures SuperOk(Sealed(b))
  {
    hide Checksum;
    SealedChecksum(b);
  }

  lemma Resealed(a: Image, sb: Block)
    requires ImageOk(a) && OnDisk(a) && SuperOk(a.d[1]) && sb == Sealed(a.d[1])
    ensures var b := a.(d := a.d[1 := sb]);
      && ImageOk(b) && OnDisk(b) && SuperOk(sb) && Files(b) == Files(a) && Dirs(b) == Dirs(a)
      && a.d[1 := sb][2 := a.d[2]][3 := a.d[3]] == b.d
  {
    hide SuperOk, Sealed, Files, Dirs, InodeAt, OnDisk;
    SealedAgain(a.d[1]);
    ResealedDisk(a, sb);
  }

  lemma ResealedDisk(a: Image, sb: Block)
    requires ImageOk(a) && OnDisk(a)
    ensures var b := a.(d := a.d[1 := sb]); ImageOk(b) && OnDisk(b) && Files(b) == Files(a) && Dirs(b) == Dirs(a)
  {
    var b := a.(d := a.d[1 := sb]);
    Unchanged(a, b);
  }

  lemma GrownSelf(a: Image, n: int)
    requires ImageOk(a) && 0 <= n < 512
    ensures Grown(a, a, n)
  {
  }

  lemma GrownKeeps(a: Image, b: Image, n: int)
    requires IsFile(a, n) && Grown(a, b, n)
    ensures ImageOk(b) && IsFile(b, n)
  {
    assert Live(b.d, n) by { assert MetaKept(a.d, b.d); }
  }

  /** A pointer of a live inode is empty or names a data block. */
  lemma SlotInRange(a: Image, n: int, j: nat)
    requires ImageOk(a) && Live(a.d, n) && j < 141
    ensures Slot(a.d, a.itab[n], j) == 0 || 132 <= Slot(a.d, a.itab[n], j) < 4096
  {
  }

  /** The component at a position of a path and what follows it. */
  lemma ComponentAt(path: seq<byte>, p: nat)
    requires p < |path| && path[p] != SLASH
    ensures var n := HeadLen(path[p..]);
      0 < n <= |path| - p && Components(path[p..]) == [path[p..p + n]] + Components(SkipSlashes(path[p + n..]))
  {
    hide Components, SkipSlashes, HeadLen;
    var rest := path[p..];
    assert rest[0] == path[p];
    ComponentsHead(rest);
    Slices(path, p, HeadLen(rest));
  }

  lemma Slices<T>(s: seq<T>, p: nat, n: nat)
    requires p + n <= |s|
    ensures s[p..][..n] == s[p..p + n] && s[p..][n..] == s[p + n..]
  {
  }

  lemma FileSize(a: Image, n: int)
    requires ImageOk(a) && IsFile(a, n)
    ensures a.itab[n].size <= 71680
  {
    assert FileOk(a.d, a.itab[n]);
  }

  /** A chunk of one block is a stretch of the file. */
  lemma ChunkBytes(d: Disk, i: Inode, at: nat, chunk: nat, t: nat)
    requires at % 512 + chunk <= 512 && at + chunk <= 71680 && t < chunk
    ensures ByteAt(d, i, at + t) == At(d, Slot(d, i, DataSlot(at / 512)))[at % 512 + t]
  {
    assert (at + t) / 512 == at / 512 && (at + t) % 512 == at % 512 + t;
  }

  lemma ContentsBytes(d: Disk, i: Inode, pos: nat, dst: seq<byte>)
    requires i.size <= 71680 && pos + |dst| <= i.size && forall t :: 0 <= t < |dst| ==> dst[t] == ByteAt(d, i, pos + t)
    ensures dst == Contents(d, i)[pos..pos + |dst|]
  {
  }

  /** What the abstract state says about a file is what its inode says. */
  lemma FileFacts(a: Image, n: int)
    requires ImageOk(a) && OnDisk(a) && n in Files(a)
    ensures 1 <= n < 512 && IsFile(a, n) && InodeAt(a.d, n) == a.itab[n]
    ensures Files(a)[n] == Contents(a.d, a.itab[n]) && |Files(a)[n]| == a.itab[n].size <= 71680
  {
    assert FileOk(a.d, a.itab[n]);
  }

  lemma UsedSame(d: Disk, e: Disk)
    requires e[2] == d[2]
    ensures forall p :: Used(e, p) <==> Used(d, p)
  {
  }

  lemma LiveSame(d: Disk, e: Disk, n: int)
    requires e[3] == d[3]
    ensures Live(e, n) <==> Live(d, n)
  {
  }

  lemma NowUsed(d: Disk, e: Disk, p: int)
    requires 0 <= p < 4096 && e[2] == SetBit(d[2], p)
    ensures Used(e, p)
  {
    BitAfter(d[2], p);
  }

  lemma NeverMind(a: Image, n: int)
    requires 1 <= n < 512 && !Live(a.d, n)
    ensures a.d[3 := SetBit(a.d[3], n)][3 := ClearBit(SetBit(a.d[3], n), n)] == a.d
  {
    ClearUndoesSet(a.d[3], n);
  }

  /** The leaf of a path that splits but does not resolve is a proper, absent name. */
  lemma LeafFacts(a: Image, path: CStr)
    requires ImageOk(a) && Splits(Dirs(a), path)
    ensures var t := Dirs(a);
      && |Leaf(t, path)| <= 55 && 0 !in Leaf(t, path)
      && Resolve(t, path) == Child(t, Parent(t, path), Leaf(t, path))
  {
    hide ImageOk, Dirs, Components;
    ComponentsProper(path);
    WalksAgree(Dirs(a), path);
    var cs := Components(path);
    assert ProperName(cs[|cs| - 1]);
  }

  lemma NodeFacts(a: Image, n: int)
    requires ImageOk(a) && OnDisk(a) && 1 <= n && Live(a.d, n)
    ensures n < 512 && InodeAt(a.d, n) == a.itab[n]
    ensures n in Files(a) <==> KindOf(a.itab[n]) == File
    ensures IsFile(a, n) <==> KindOf(a.itab[n]) == File
  {
  }

  lemma TruncatedSaved(a: Image, n: int, bm: Block)
    requires ImageOk(a) && OnDisk(a) && IsFile(a, n) && Released(a, n, bm)
    ensures var c := Saved(Truncated(a, n, bm), n);
      && ImageOk(c) && OnDisk(c) && IsFile(c, n)
      && Files(c) == Files(a)[n := []] && Dirs(c) == Dirs(a)
      && c.d[1] == a.d[1] && c.d[2] == bm && c.d[3] == a.d[3]
  {
    hide ImageOk, OnDisk, Files, Dirs, InodeAt, Released, PutInode;
    var b := Truncated(a, n, bm);
    TruncatedOk(a, n, bm);
    OthersOnDisk(a, b, n);
    SavedOk(b, n);
  }

  lemma NewDirOthers(a: Image, n: int, p: int, parent: u32)
    requires 0 <= n < 512 && 0 <= p < 4096
    ensures var c := Saved(NewDir(a, n, p, parent), n);
      c.itab == a.itab[n := c.itab[n]] && c.owner == a.owner[p := Ref(n, 0)]
  {
    hide DotBlock, PutInode, SetBit;
  }

  lemma NoInode(a: Image, d: int)
    requires forall m :: 0 <= m < 512 ==> Live(a.d, m)
    ensures NoDirRoom(a, d)
  {
  }

  lemma SpareRoom(a: Image, n: int, p: int, d: u32)
    requires ImageOk(a) && OnDisk(a) && 1 <= n < 512 && !Live(a.d, n) && 0 < p < 4096 && !Used(a.d, p)
    requires d != 0 && Live(a.d, d)
    requires var c := Saved(NewDir(a, n, p, d), n); NoRoom(c.d, c.itab[d])
    ensures NoDirRoom(a, d)
  {
    hide ImageOk, OnDisk, DotBlock, DirTable, SetBit, Bit;
    NewDirSameDir(a, n, p, d, d);
    BitAfter(a.d[2], p);
    assert NoRoomBut(a, d, p);
  }

  lemma EnteredParts(a: Image, b: Image, d: int, e: Dirent)
    requires Entered(a, b, d, e)
    ensures ImageOk(b) && OnDisk(b) && Files(b) == Files(a)
    ensures Dirs(b) == AddName(Dirs(a), d, e.name, e.inode) && SameHeader(a.d, b.d)
  {
  }

  lemma RoomSame(a: Image, c: Image, d: int)
    requires SameDir(a, c, d) && NoRoom(c.d, c.itab[d])
    ensures NoRoom(a.d, a.itab[d])
  {
  }

  lemma NewbornLive(a: Image, c: Image, n: int)
    requires 1 <= n < 512 && c.d[3] == SetBit(a.d[3], n)
    ensures forall m :: Live(c.d, m) <==> Live(a.d, m) || m == n
  {
    BitAfter(a.d[3], n);
  }

  lemma EntryWasEmpty(a: Image, d: int, l: nat)
    requires 0 <= d < 512 && l < 12 && a.itab[d].direct[l] == 0
    ensures DirTable(a.d, a.itab[d])[8 * l].inode == 0
  {
    ZeroDirent(0);
    assert 8 * l / 8 == l;
  }

  lemma {:induction false} FindFromIs(t: seq<Dirent>, name: Name, k: nat, from: nat)
    requires from <= k < |t| && Names(t[k], name)
    requires forall j :: from <= j < k ==> !Names(t[j], name)
    ensures FindFrom(t, name, from) == t[k].inode
    decreases k - from
  {
    if from < k {
      FindFromIs(t, name, k, from + 1);
    }
  }

  lemma FindIs(t: seq<Dirent>, name: Name, k: nat)
    requires k < |t| && Names(t[k], name)
    requires forall j :: 0 <= j < k ==> !Names(t[j], name)
    ensures Find(t, name) == t[k].inode
  {
    FindFromIs(t, name, k, 0);
  }

  /** Filling one empty entry in place, as one edit. */
  lemma FilledOk(a: Image, d: int, k: nat, e: Dirent)
    requires ImageOk(a) && OnDisk(a) && IsDir(a, d) && k < 96 && 0 < a.itab[d].direct[k / 8] < 4096
    requires GoodEntry(a.d, e)
    requires DirTable(a.d, a.itab[d])[k].inode == 0 && Find(DirTable(a.d, a.itab[d]), e.name) == 0
    ensures 132 <= a.itab[d].direct[k / 8]
    ensures Entered(a, Rewrite(a, d, k / 8, PutDirent(a.d[a.itab[d].direct[k / 8]], k % 8, e), a.itab[d].size), d, e)
  {
    hide ImageOk, Ownership, Changed, OnDisk, Files, Dirs, PutDirent, DirTable, Find, InodeAt;
    Parts(a, d);
    var p := a.itab[d].direct[k / 8];
    var blk := PutDirent(a.d[p], k % 8, e);
    var b := Rewrite(a, d, k / 8, blk, a.itab[d].size);
    RewriteShape(a, d, k / 8, blk, a.itab[d].size);
    AddEntryTable(a, d, k, e);
    EntryAdded(a, b, d, k, e);
    SameTableOnDisk(a, b);
  }

  /** Without an indirect block nothing is recorded for slots 12 and up. */
  lemma NoIndirectEntries(a: Image, n: int)
    requires Ownership(a) && Live(a.d, n) && a.itab[n].indirect == 0
    ensures forall p :: p in a.owner && a.owner[p].inode == n ==> a.owner[p].slot < 12
  {
    ZeroWords();
    forall p | p in a.owner && a.owner[p].inode == n
      ensures a.owner[p].slot < 12
    {
      assert Slot(a.d, a.itab[n], a.owner[p].slot) == p;
    }
  }
}
