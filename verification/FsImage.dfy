/**
 What a disk image means: which block every inode pointer names, the bytes of a
 file, the entries of a directory, and the invariant that ties the two bitmaps
 to the inode table.
 */
module FsImage {
  import opened Bytes
  import opened Bitmaps
  import opened FsLayout

  // ----- pointers -----

  /**
   The 141 pointer slots of an inode: 0..11 direct, 12 the indirect block,
   13..140 the entries of the indirect block.
   */
  function Slot(d: Disk, i: Inode, j: nat): (p: u32)
    requires j < 141
  {
    if j < 12 then i.direct[j] else if j == 12 then i.indirect else Word(At(d, i.indirect), j - 13)
  }

  /** The slot holding the pointer to logical block `l`. */
  function DataSlot(l: nat): (j: nat)
    requires l < 140
    ensures j < 141 && j != 12
  {
    if l < 12 then l else l + 1
  }

  /** Byte `k` of a file body; holes read as zero. */
  function ByteAt(d: Disk, i: Inode, k: nat): (v: byte)
    requires k < 71680
  {
    At(d, Slot(d, i, DataSlot(k / 512)))[k % 512]
  }

  function Contents(d: Disk, i: Inode): (s: seq<byte>)
    ensures |s| == if i.size <= 71680 then i.size else 71680
  {
    var len := if i.size <= 71680 then i.size else 71680;
    Body(d, i, len)
  }

  function Body(d: Disk, i: Inode, len: nat): (s: seq<byte>)
    requires len <= 71680
    ensures |s| == len && forall k :: 0 <= k < len ==> s[k] == ByteAt(d, i, k)
  {
    seq(len, k requires 0 <= k < len => ByteAt(d, i, k))
  }

  /** Where the pointer to logical block `l` of inode `n` lies on the disk. */
  function PointerAt(d: Disk, n: nat, l: nat): (a: nat)
    requires n < 512 && l < 140 && (l >= 12 ==> 0 < WordFrom(d, 2048 + 128 * n + 84) < 4096)
    ensures a + 4 <= 0x20_0000
  {
    if l < 12 then 2048 + 128 * n + 36 + 4 * l else 512 * WordFrom(d, 2048 + 128 * n + 84) + 4 * (l - 12)
  }

  /** Byte `k` of a file, found from the raw bytes of the disk. */
  lemma FileBytes(d: Disk, n: nat, k: nat)
    requires n < 512 && k < |Contents(d, InodeAt(d, n))|
    ensures var v, ind := Contents(d, InodeAt(d, n))[k], WordFrom(d, 2048 + 128 * n + 84);
      if k >= 6144 && !(0 < ind < 4096) then v == 0
      else
        var p := WordFrom(d, PointerAt(d, n, k / 512));
        v == if 0 < p < 4096 then DiskByte(d, 512 * p + k % 512) else 0
  {
    hide Word, WordFrom, InodeAt;
    var i := InodeAt(d, n);
    InodeOffsets(d, n);
    if k >= 6144 {
      if 0 < i.indirect < 4096 {
        WordFromBlock(d, i.indirect, k / 512 - 12);
      } else {
        ZeroWords();
      }
    }
    var p := Slot(d, i, DataSlot(k / 512));
    if 0 < p < 4096 {
      InBlock(p, k % 512);
    }
  }

  // ----- directories -----

  type Name = seq<byte>

  /** The 96 entries of a directory in scan order; a missing block has no entries. */
  function DirTable(d: Disk, i: Inode): (t: seq<Dirent>)
    ensures |t| == 96 && forall k :: 0 <= k < 96 ==> t[k] == DirentAt(At(d, i.direct[k / 8]), k % 8)
  {
    seq(96, k requires 0 <= k < 96 => DirentAt(At(d, i.direct[k / 8]), k % 8))
  }

  predicate Names(e: Dirent, name: Name) {
    e.inode != 0 && e.name == name
  }

  /** The inode of the first entry from position `k` on with the given name, 0 if there is none. */
  function FindFrom(t: seq<Dirent>, name: Name, k: nat): (r: u32)
    requires k <= |t|
    ensures r == 0 <==> forall j :: k <= j < |t| ==> !Names(t[j], name)
    decreases |t| - k
  {
    if k == |t| then 0
    else if Names(t[k], name) then t[k].inode
    else FindFrom(t, name, k + 1)
  }

  function Find(t: seq<Dirent>, name: Name): (r: u32) {
    FindFrom(t, name, 0)
  }

  /** A directory as a finite map from names to inode numbers. */
  function DirMap(t: seq<Dirent>): (m: map<Name, int>)
    ensures forall name :: name in m <==> Find(t, name) != 0
    ensures forall name :: name in m ==> m[name] == Find(t, name)
  {
    map k | 0 <= k < |t| && t[k].inode != 0 :: t[k].name := Find(t, t[k].name)
  }

  /** Filling an empty entry with a name that is not present adds exactly that name. */
  lemma {:induction false} FindAfterAdd(t: seq<Dirent>, k: nat, e: Dirent, name: Name, from: nat)
    requires k < |t| && t[k].inode == 0 && e.inode != 0 && from <= |t|
    requires forall j :: 0 <= j < |t| ==> !Names(t[j], e.name)
    ensures FindFrom(t[k := e], name, from)
         == if name == e.name && from <= k then e.inode else FindFrom(t, name, from)
    decreases |t| - from
  {
    if from < |t| {
      FindAfterAdd(t, k, e, name, from + 1);
    }
  }

  lemma DirMapAfterAdd(t: seq<Dirent>, k: nat, e: Dirent)
    requires k < |t| && t[k].inode == 0 && e.inode != 0
    requires Find(t, e.name) == 0
    ensures DirMap(t[k := e]) == DirMap(t)[e.name := e.inode]
  {
    forall name
      ensures Find(t[k := e], name) == if name == e.name then e.inode else Find(t, name)
    {
      FindAfterAdd(t, k, e, name, 0);
    }
  }

  // ----- the image and its invariant -----

  datatype Ref = Ref(inode: nat, slot: nat)

  type Table = t: seq<Inode> | |t| == 512 witness seq<Inode>(512, _ => EmptyInode(0, 0))

  /**
   A disk together with the inode table as the running code sees it (an inode
   being edited in memory may be ahead of its copy on disk) and, for every data
   block in use, the one pointer slot that names it.
   */
  datatype Image = Image(d: Disk, itab: Table, owner: map<int, Ref>)

  predicate Used(d: Disk, b: int) {
    0 <= b < 4096 && Bit(d[2], b)
  }

  predicate Live(d: Disk, n: int) {
    0 <= n < 512 && Bit(d[3], n)
  }

  /** Every block is marked used in the block bitmap. */
  ghost predicate AllUsed(bm: Block) {
    forall p :: 0 <= p < 4096 ==> Bit(bm, p)
  }

  /** Every non-zero pointer of a live inode is the one recorded for its block. */
  ghost predicate PointersRecorded(im: Image) {
    forall n, j :: Live(im.d, n) && 0 <= j < 141 && Slot(im.d, im.itab[n], j) != 0 ==>
      var p := Slot(im.d, im.itab[n], j); p in im.owner && im.owner[p] == Ref(n, j)
  }

  /** Every recorded block is a data block in use, named by its recorded slot. */
  ghost predicate RecordsPoint(im: Image) {
    forall p :: p in im.owner ==>
      && 132 <= p < 4096
      && Used(im.d, p)
      && Live(im.d, im.owner[p].inode)
      && im.owner[p].slot < 141
      && Slot(im.d, im.itab[im.owner[p].inode], im.owner[p].slot) == p
  }

  /** No data block is in use without being recorded, and every metadata block is in use. */
  ghost predicate NoLeak(im: Image) {
    && (forall p :: 132 <= p && Used(im.d, p) ==> p in im.owner)
    && (forall p :: 0 <= p < 132 ==> Used(im.d, p))
  }

  /** What an inode must satisfy by itself: see `FileOk` and `DirOk`. */
  ghost predicate InodeOk(d: Disk, i: Inode) {
    match KindOf(i)
    case File => FileOk(d, i)
    case Dir => DirOk(d, i)
    case Other => false
  }

  /** A file fits 140 blocks and its blocks hold only zeros past the end. */
  ghost predicate FileOk(d: Disk, i: Inode) {
    && i.size <= 71680
    && forall k :: i.size <= k < 71680 ==> ByteAt(d, i, k) == 0
  }

  /** Directory entries name live inodes and carry terminated names. */
  ghost predicate DirOk(d: Disk, i: Inode) {
    forall k :: 0 <= k < 96 ==> EntryOk(d, DirTable(d, i)[k])
  }

  ghost predicate EntryOk(d: Disk, e: Dirent) {
    e.inode != 0 ==> Live(d, e.inode) && |e.name| <= 55
  }

  ghost predicate Ownership(im: Image) {
    PointersRecorded(im) && RecordsPoint(im) && NoLeak(im)
  }

  ghost predicate InodesOk(im: Image) {
    && (forall n :: 1 <= n && Live(im.d, n) ==> InodeOk(im.d, im.itab[n]))
    && Live(im.d, 0)
    && Live(im.d, 1)
    && KindOf(im.itab[1]) == Dir
  }

  ghost predicate ImageOk(im: Image) {
    Ownership(im) && InodesOk(im)
  }

  /** The table seen by the code is the table on disk. */
  ghost predicate OnDisk(im: Image) {
    forall n :: 0 <= n < 512 ==> im.itab[n] == InodeAt(im.d, n)
  }

  // ----- the abstract file system -----

  predicate IsFile(im: Image, n: int) {
    1 <= n && Live(im.d, n) && KindOf(im.itab[n]) == File
  }

  predicate IsDir(im: Image, n: int) {
    1 <= n && Live(im.d, n) && KindOf(im.itab[n]) == Dir
  }

  /** The contents of every file, by inode number. */
  ghost function Files(im: Image): (m: map<int, seq<byte>>) {
    map n | 0 <= n < 512 && IsFile(im, n) :: Contents(im.d, im.itab[n])
  }

  /** The entries of every directory, by inode number. */
  ghost function Dirs(im: Image): (m: map<int, map<Name, int>>) {
    map n | 0 <= n < 512 && IsDir(im, n) :: DirMap(DirTable(im.d, im.itab[n]))
  }

  // ----- what the ownership invariant says -----

  /** The pointer slots, over all live inodes, that name block `p`. */
  ghost function References(im: Image, p: int): (s: set<(int, int)>) {
    set n: int, j: int | 0 <= n < 512 && 0 <= j < 141 && Live(im.d, n) && Slot(im.d, im.itab[n], j) == p :: (n, j)
  }

  /**
   Every data block marked used is referenced exactly once over all live inodes,
   every free block not at all, and no reference leaves the data area: there is
   no sharing and no leak.
   */
  lemma UsedExactlyOnce(im: Image, p: int)
    requires Ownership(im) && p != 0
    ensures |References(im, p)| == if 132 <= p < 4096 && Used(im.d, p) then 1 else 0
  {
    var refs := References(im, p);
    if 132 <= p < 4096 && Used(im.d, p) {
      var r := im.owner[p];
      assert refs == {(r.inode, r.slot)};
    } else {
      assert refs == {};
    }
  }
}
