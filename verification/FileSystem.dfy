/**
 The ARES FS code itself: a mounted file system over a disk of 4096 blocks whose
 reads and writes succeed.  Both bitmaps are cached and written through.
 */
module FileSystemCode {
  import opened Bytes
  import opened Bitmaps
  import opened FsLayout
  import opened FsImage
  import opened FsSteps
  import opened FsEdits
  import opened FsWrites
  import opened FsPaths
  import opened FsSpec
  import opened FsBirth
  import opened FsFacts
  import opened Options

  function Min(a: int, b: int): int { if a <= b then a else b }

  /** The lowest clear bit of the first `count` bits, or -1. */
  method FindFirstFree(bm: Block, count: nat) returns (r: int)
    requires count <= 4096
    ensures -1 <= r < count
    ensures r >= 0 ==> !Bit(bm, r)
    ensures forall j :: 0 <= j < (if r < 0 then count else r) ==> Bit(bm, j)
  {
    for i := 0 to count
      invariant forall j :: 0 <= j < i ==> Bit(bm, j)
    {
      if !Bit(bm, i) { return i; }
    }
    return -1;
  }

  /** Bits 0..132 set: the reserved blocks and the root directory's block. */
  method FormatBlockMap() returns (bm: Block)
    ensures forall p :: 0 <= p < 4096 ==> (Bit(bm, p) <==> p <= 132)
  {
    bm := ZeroBlock();
    ZeroBits();
    var i := 0;
    while i <= 132
      invariant 0 <= i <= 133
      invariant forall p :: 0 <= p < 4096 ==> (Bit(bm, p) <==> p < i)
    {
      BitAfter(bm, i);
      bm := SetBit(bm, i);
      i := i + 1;
    }
  }

  /** Zeroes the inode table. */
  method ZeroTable(d: Disk) returns (e: Disk)
    ensures forall q :: 0 <= q < 4096 ==> e[q] == if 4 <= q < 132 then ZeroBlock() else d[q]
  {
    e := d;
    for i := 0 to 128
      invariant forall q :: 0 <= q < 4096 ==> e[q] == if 4 <= q < 4 + i then ZeroBlock() else d[q]
    {
      e := e[4 + i := ZeroBlock()];
    }
  }

  class FileSystem {
    const present: bool
    var disk: Disk
    var sb: Block
    var blockMap: Block
    var inodeMap: Block
    var mounted: bool
    var fds: seq<Fd>
    ghost var itab: Table
    ghost var owner: map<int, Ref>

    ghost function Img(): Image
      reads this
    {
      Image(disk, itab, owner)
    }

    /** Both cached bitmaps and the cached superblock equal their blocks on disk. */
    ghost predicate Coherent()
      reads this
    {
      blockMap == disk[2] && inodeMap == disk[3] && sb == disk[1]
    }

    // ----- allocation -----

    method AllocBlock() returns (b: int)
      requires Coherent() && Used(disk, 0)
      modifies this`disk, this`blockMap
      ensures Coherent()
      ensures b == 0 ==> disk == old(disk) && AllUsed(disk[2])
      ensures b != 0 ==> 0 < b < 4096 && !Used(old(disk), b) && disk == old(disk)[2 := SetBit(old(disk)[2], b)]
      ensures b != 0 ==> forall p :: 0 <= p < b ==> Used(old(disk), p)
    {
      var bit := FindFirstFree(blockMap, 4096);
      if bit < 0 { return 0; }
      assert Bit(blockMap, 0) by { assert Used(disk, 0); }
      blockMap := SetBit(blockMap, bit);
      disk := disk[2 := blockMap];
      return bit;
    }

    method FreeBlock(p: int)
      requires Coherent()
      modifies this`disk, this`blockMap
      ensures Coherent()
      ensures disk == if 0 < p && Used(old(disk), p) then old(disk)[2 := ClearBit(old(disk)[2], p)] else old(disk)
    {
      if p <= 0 || p >= 4096 { return; }
      if !Bit(blockMap, p) { return; }
      blockMap := ClearBit(blockMap, p);
      disk := disk[2 := blockMap];
    }

    method AllocInode() returns (n: int)
      requires Coherent() && Live(disk, 0)
      modifies this`disk, this`inodeMap
      ensures Coherent()
      ensures n == 0 ==> disk == old(disk) && forall m :: 0 <= m < 512 ==> Live(old(disk), m)
      ensures n != 0 ==> 0 < n < 512 && !Live(old(disk), n) && disk == old(disk)[3 := SetBit(old(disk)[3], n)]
      ensures n != 0 ==> forall m :: 0 <= m < n ==> Live(old(disk), m)
    {
      var bit := FindFirstFree(inodeMap, 512);
      if bit < 0 { return 0; }
      assert Bit(inodeMap, 0) by { assert Live(disk, 0); }
      inodeMap := SetBit(inodeMap, bit);
      disk := disk[3 := inodeMap];
      return bit;
    }

    method FreeInode(n: int)
      requires Coherent()
      modifies this`disk, this`inodeMap
      ensures Coherent()
      ensures disk == if n != 0 && Live(old(disk), n) then old(disk)[3 := ClearBit(old(disk)[3], n)] else old(disk)
    {
      if n == 0 { return; }
      if n < 0 || n >= 512 { return; }
      if !Bit(inodeMap, n) { return; }
      inodeMap := ClearBit(inodeMap, n);
      disk := disk[3 := inodeMap];
    }

    // ----- resolving a logical block -----

    /** Take a block and zero it on disk. */
    method AllocZeroed() returns (b: int)
      requires Coherent() && Ownership(Img())
      modifies this`disk, this`blockMap
      ensures Coherent()
      ensures b == 0 ==> disk == old(disk) && AllUsed(disk[2])
      ensures b != 0 ==> 132 <= b < 4096 && !Used(old(disk), b) && disk == Taken(old(disk), b, ZeroBlock())
    {
      assert Used(disk, 0);
      b := AllocBlock();
      if b == 0 { return; }
      FreshBlock(old(Img()), b);
      disk := disk[b := ZeroBlock()];
    }

    /**
     The physical block of logical block `l`; with `create`, holes on the way are
     filled with zeroed blocks.  `i` is the in-memory inode; the table entry of
     `n` may be ahead of it in its size only.
     */
    method ResolveBlock(i: Inode, l: nat, create: bool, ghost n: int) returns (p: int, i': Inode)
      requires Coherent() && ImageOk(Img()) && IsFile(Img(), n)
      requires itab[n] == i.(size := itab[n].size)
      modifies this`disk, this`blockMap, this`itab, this`owner
      ensures Coherent() && Grown(old(Img()), Img(), n)
      ensures i'.size == i.size && itab[n] == i'.(size := itab[n].size)
      ensures l < 140 ==> p == Slot(disk, i', DataSlot(l))
      ensures l >= 140 ==> p == 0
      ensures p == 0 || 132 <= p < 4096
      ensures create && l < 140 && p == 0 ==> AllUsed(disk[2])
      ensures !create ==> Img() == old(Img()) && i' == i
    {
      hide ImageOk, Grown, ZeroBlock, ByteAt, Ownership, NoLeak, FileOk, Word, FileSystem.Coherent;
      i' := i;
      GrownSelf(Img(), n);
      if l < 12 {
        if i.direct[l] == 0 && create {
          i' := LinkDirect(i, l, n);
        }
        p := i'.direct[l];
        GrownKeeps(old(Img()), Img(), n);
        SlotInRange(Img(), n, l);
        return;
      }
      var off := l - 12;
      if off >= 128 { return 0, i'; }
      if i.indirect == 0 {
        if create {
          i' := LinkIndirect(i, n);
        }
        if i'.indirect == 0 {
          ZeroWords();
          return 0, i';
        }
      }
      label L:
      GrownKeeps(old(Img()), Img(), n);
      SlotInRange(Img(), n, 12);
      p := Word(disk[i'.indirect], off);
      if p == 0 && create {
        p := LinkEntry(i', off, n);
        GrownTwice(old(Img()), old@L(Img()), Img(), n);
        GrownKeeps(old@L(Img()), Img(), n);
      }
      SlotInRange(Img(), n, 13 + off);
    }

    /** Fill an empty direct pointer if a block is free. */
    method LinkDirect(i: Inode, l: nat, ghost n: int) returns (i': Inode)
      requires Coherent() && ImageOk(Img()) && IsFile(Img(), n)
      requires itab[n] == i.(size := itab[n].size) && l < 12 && i.direct[l] == 0
      modifies this`disk, this`blockMap, this`itab, this`owner
      ensures Coherent() && Grown(old(Img()), Img(), n)
      ensures i' == i.(direct := i'.direct) && itab[n] == i'.(size := itab[n].size)
      ensures i'.direct[l] == 0 ==> AllUsed(disk[2])
    {
      i' := i;
      var b := AllocZeroed();
      if b == 0 { return; }
      i' := i.(direct := i.direct[l := b]);
      GrowDirectFile(old(Img()), n, l, b);
      itab, owner := itab[n := itab[n].(direct := i'.direct)], owner[b := Ref(n, l)];
    }

    /** Fill an empty entry of the indirect block if a block is free. */
    method LinkEntry(i: Inode, off: nat, ghost n: int) returns (p: int)
      requires Coherent() && ImageOk(Img()) && IsFile(Img(), n)
      requires itab[n] == i.(size := itab[n].size) && off < 128
      requires 0 < i.indirect < 4096 && Word(disk[i.indirect], off) == 0
      modifies this`disk, this`blockMap, this`owner
      ensures Coherent() && Grown(old(Img()), Img(), n)
      ensures p == Word(disk[i.indirect], off)
      ensures p == 0 ==> AllUsed(disk[2])
    {
      var ind := disk[i.indirect];
      var b := AllocZeroed();
      if b == 0 { return 0; }
      IndirectOwned(old(Img()), n);
      GrowEntryFile(old(Img()), n, off, b);
      disk := disk[i.indirect := SetWord(ind, off, b)];
      owner := owner[b := Ref(n, 13 + off)];
      WordOfSetWord(ind, off, b, off);
      return b;
    }

    /** Give the inode an empty indirect block if one is free. */
    method LinkIndirect(i: Inode, ghost n: int) returns (i': Inode)
      requires Coherent() && ImageOk(Img()) && IsFile(Img(), n)
      requires itab[n] == i.(size := itab[n].size) && i.indirect == 0
      modifies this`disk, this`blockMap, this`itab, this`owner
      ensures Coherent() && Grown(old(Img()), Img(), n)
      ensures i' == i.(indirect := i'.indirect) && itab[n] == i'.(size := itab[n].size)
      ensures i'.indirect == 0 ==> AllUsed(disk[2])
    {
      i' := i;
      var b := AllocZeroed();
      if b == 0 { return; }
      i' := i.(indirect := b);
      GrowIndirectFile(old(Img()), n, b);
      itab, owner := itab[n := itab[n].(indirect := b)], owner[b := Ref(n, 12)];
    }

    // ----- file bodies -----

    /** Reads at most `count` bytes from `pos`, across direct, indirect and hole blocks. */
    method ReadBody(i: Inode, pos: nat, count: nat, ghost n: int) returns (dst: seq<byte>)
      requires Coherent() && ImageOk(Img()) && IsFile(Img(), n) && itab[n] == i
      modifies this`disk, this`blockMap, this`itab, this`owner
      ensures Img() == old(Img()) && Coherent()
      ensures dst == if pos >= i.size then [] else Contents(disk, i)[pos..pos + Min(count, i.size - pos)]
    {
      hide ImageOk, Grown, ByteAt, Contents, Slot;
      dst := [];
      if pos >= i.size { return; }
      FileSize(Img(), n);
      var cnt := Min(count, i.size - pos);
      while |dst| < cnt
        invariant |dst| <= cnt
        invariant Img() == old(Img()) && Coherent()
        invariant forall t :: 0 <= t < |dst| ==> dst[t] == ByteAt(disk, i, pos + t)
      {
        var off := pos + |dst|;
        var logical, blockOff := off / 512, off % 512;
        var phys, _ := ResolveBlock(i, logical, false, n);
        var chunk := Min(512 - blockOff, cnt - |dst|);
        ghost var was := dst;
        if phys == 0 {
          dst := dst + seq(chunk, _ => 0);
        } else {
          dst := dst + disk[phys][blockOff..blockOff + chunk];
        }
        forall t | |was| <= t < |dst|
          ensures dst[t] == ByteAt(disk, i, pos + t)
        {
          ChunkBytes(disk, i, off, chunk, t - |was|);
        }
      }
      ContentsBytes(disk, i, pos, dst);
    }

    /** Writes `data` at `pos`, stopping early only when no block is free. */
    method WriteBody(n: int, i: Inode, pos: nat, data: seq<byte>) returns (r: int)
      requires Coherent() && ImageOk(Img()) && OnDisk(Img()) && IsFile(Img(), n) && itab[n] == i
      modifies this`disk, this`blockMap, this`itab, this`owner
      ensures Coherent() && OnDisk(Img()) && ImageOk(Img())
      ensures pos >= 71680 ==> r == -1 && Img() == old(Img())
      ensures pos < 71680 ==>
        && 0 <= r <= Min(|data|, 71680 - pos)
        && Files(Img()) == old(Files(Img()))[n := Overlay(old(Files(Img()))[n], pos, data[..r])]
        && Dirs(Img()) == old(Dirs(Img()))
      ensures pos < 71680 && r < Min(|data|, 71680 - pos) ==> AllUsed(disk[2])
      ensures disk[1] == old(disk)[1] && disk[3] == old(disk)[3]
    {
      hide ImageOk, OnDisk, Written, Files, Dirs, Overlay, Saved, AllUsed;
      if pos >= 71680 { return -1; }
      var count := Min(|data|, 71680 - pos);
      ghost var a := Img();
      var i';
      r, i' := WriteChunks(n, i, pos, data[..count]);
      assert data[..count][..r] == data[..r];
      WriteDone(a, Img(), n, pos, data[..r]);
      var newEnd := pos + r;
      if newEnd > i'.size { i' := i'.(size := newEnd); }
      SaveInode(n, i');
    }

    method SaveInode(n: int, i: Inode)
      requires Coherent() && 0 <= n < 512 && itab[n] == i
      modifies this`disk
      ensures Coherent() && Img() == Saved(old(Img()), n)
    {
      disk := StoreInode(disk, n, i);
    }

    /** The block-by-block loop; the table entry of `n` runs ahead of `i'` in its size. */
    method WriteChunks(ghost n: int, i: Inode, pos: nat, data: seq<byte>) returns (done: int, i': Inode)
      requires Coherent() && ImageOk(Img()) && IsFile(Img(), n) && itab[n] == i && pos + |data| <= 71680
      modifies this`disk, this`blockMap, this`itab, this`owner
      ensures Coherent() && 0 <= done <= |data| && Written(old(Img()), Img(), n, pos, data[..done])
      ensures i'.size == i.size && itab[n] == i'.(size := Max(i.size, pos + done))
      ensures done < |data| ==> AllUsed(disk[2])
    {
      hide ImageOk, Changed, BytesPut;
      done, i' := 0, i;
      ghost var a := Img();
      var block: Block := ZeroBlock();
      itab := itab[n := i.(size := Max(i.size, pos))];
      WrittenNothing(a, n, pos);
      assert data[..0] == [];
      while done < |data|
        invariant 0 <= done <= |data|
        invariant Coherent() && Written(a, Img(), n, pos, data[..done])
        invariant i'.size == i.size && itab[n] == i'.(size := Max(i.size, pos + done))
      {
        var stored;
        stored, i', block := WriteOne(a, n, i', pos, data, done, block);
        if stored == 0 { return; }
        done := done + stored;
      }
    }

    /** One turn of the loop: at most one block, nothing if no block is free. */
    method WriteOne(ghost a: Image, ghost n: int, i: Inode, pos: nat, data: seq<byte>, done: nat, block: Block)
      returns (stored: nat, i': Inode, block': Block)
      requires IsFile(a, n) && done < |data| && pos + |data| <= 71680 && a.itab[n].size == i.size
      requires Coherent() && Written(a, Img(), n, pos, data[..done])
      requires itab[n] == i.(size := Max(i.size, pos + done))
      modifies this`disk, this`blockMap, this`itab, this`owner
      ensures Coherent() && done + stored <= |data| && Written(a, Img(), n, pos, data[..done + stored])
      ensures i'.size == i.size && itab[n] == i'.(size := Max(i.size, pos + done + stored))
      ensures stored == 0 ==> AllUsed(disk[2])
    {
      hide Grown, ImageOk, Changed, BytesPut;
      var off := pos + done;
      var logical, blockOff := off / 512, off % 512;
      ghost var b := Img();
      var phys;
      phys, i' := ResolveBlock(i, logical, true, n);
      ghost var c := Img();
      WrittenThenGrown(a, b, c, n, pos, data[..done]);
      if phys == 0 { return 0, i', block; }
      stored := Min(512 - blockOff, |data| - done);
      block' := if stored != 512 then disk[phys] else block;
      var piece := data[done..done + stored];
      block' := Splice(block', blockOff, piece);
      assert block' == Splice(disk[phys], blockOff, piece);
      PutChunk(n, logical, blockOff, piece, phys, block');
      assert 512 * logical + blockOff == pos + |data[..done]|;
      WrittenTwice(a, c, Img(), n, pos, data[..done], piece);
      assert data[..done] + piece == data[..done + stored];
    }

    /** Stores a rewritten block of file `n`, whose size is at least its end. */
    method PutChunk(ghost n: int, ghost l: nat, ghost bo: nat, ghost piece: seq<byte>, phys: int, block: Block)
      requires Coherent() && ImageOk(Img()) && IsFile(Img(), n) && l < 140 && bo + |piece| <= 512
      requires phys == Slot(disk, itab[n], DataSlot(l)) && phys != 0
      requires 0 < phys < 4096 ==> block == Splice(disk[phys], bo, piece)
      modifies this`disk, this`itab
      ensures Coherent() && Written(old(Img()), Img(), n, 512 * l + bo, piece)
      ensures itab[n] == old(itab)[n].(size := Max(old(itab)[n].size, 512 * l + bo + |piece|))
    {
      hide ImageOk, Written, Slot;
      SlotInRange(Img(), n, DataSlot(l));
      ghost var size: u64 := Max(itab[n].size, 512 * l + bo + |piece|);
      ChunkWritten(Img(), n, l, bo, piece, size);
      disk := disk[phys := block];
      itab := itab[n := itab[n].(size := size)];
    }

    // ----- truncation -----

    /** The slots released once the loops have passed the direct pointers below `l` and the entries below `k`. */
    static predicate Passed(slot: int, l: int, k: int) {
      slot < l || 13 <= slot < 13 + k
    }

    ghost predicate ReleasedSoFar(a: Image, n: int, l: int, k: int)
      reads this
    {
      && Coherent()
      && Img() == a.(d := a.d[2 := disk[2]])
      && forall p :: 0 <= p < 4096 ==>
        (Bit(disk[2], p) <==> Used(a.d, p) && !(p in a.owner && a.owner[p].inode == n && Passed(a.owner[p].slot, l, k)))
    }

    /** Releases the block of one pointer slot. */
    method ReleaseSlot(ghost a: Image, ghost n: int, ghost l: int, ghost k: int, ghost slot: int, p: int)
      requires Ownership(a) && Live(a.d, n) && 0 <= slot < 141 && p == Slot(a.d, a.itab[n], slot) && p != 0
      requires 0 <= l <= 13 && 0 <= k && ReleasedSoFar(a, n, l, k) && !Passed(slot, l, k)
      modifies this`disk, this`blockMap
      ensures Coherent() && disk == a.d[2 := disk[2]]
      ensures forall q :: 0 <= q < 4096 ==> (Bit(disk[2], q) <==> Bit(old(disk)[2], q) && q != p)
    {
      assert p in a.owner && a.owner[p] == Ref(n, slot);
      assert Used(disk, p);
      BitAfter(disk[2], p);
      FreeBlock(p);
    }

    /** The loop over the direct pointers. */
    method ReleaseDirect(ghost a: Image, i: Inode, ghost n: int) returns (i': Inode)
      requires Ownership(a) && Live(a.d, n) && a.itab[n] == i && ReleasedSoFar(a, n, 0, 0)
      modifies this`disk, this`blockMap
      ensures ReleasedSoFar(a, n, 12, 0) && i' == i.(direct := seq(12, _ => 0))
    {
      i' := i;
      for l := 0 to 12
        invariant ReleasedSoFar(a, n, l, 0)
        invariant i'.(direct := i.direct) == i
        invariant forall m :: 0 <= m < 12 ==> i'.direct[m] == if m < l then 0 else i.direct[m]
      {
        assert i.direct[l] == Slot(a.d, a.itab[n], l);
        if i'.direct[l] != 0 {
          ReleaseSlot(a, n, l, 0, l, i'.direct[l]);
          i' := i'.(direct := i'.direct[l := 0]);
        }
      }
      assert i'.direct == seq(12, _ => 0);
    }

    /** The loop over the entries of the indirect block. */
    method ReleaseEntries(ghost a: Image, buf: Block, ghost n: int)
      requires Ownership(a) && Live(a.d, n) && ReleasedSoFar(a, n, 12, 0)
      requires buf == At(a.d, a.itab[n].indirect)
      modifies this`disk, this`blockMap
      ensures ReleasedSoFar(a, n, 12, 128)
    {
      for k := 0 to 128
        invariant ReleasedSoFar(a, n, 12, k)
      {
        var ptr := Word(buf, k);
        assert ptr == Slot(a.d, a.itab[n], 13 + k);
        if ptr != 0 {
          ReleaseSlot(a, n, 12, k, 13 + k, ptr);
        }
      }
    }

    /** Releases every block the in-memory inode points to and clears its pointers. */
    method TruncateInode(i: Inode, ghost n: int) returns (i': Inode)
      requires Coherent() && ImageOk(Img()) && IsFile(Img(), n) && itab[n] == i
      modifies this`disk, this`blockMap, this`itab, this`owner
      ensures Coherent() && i' == Emptied(i) && Released(old(Img()), n, disk[2])
      ensures Img() == Truncated(old(Img()), n, disk[2])
    {
      assert Ownership(Img());
      hide ImageOk, InodesOk;
      ghost var a := Img();
      i' := ReleaseDirect(a, i, n);
      if i'.indirect != 0 {
        IndirectOwned(a, n);
        var buf := disk[i'.indirect];
        ReleaseEntries(a, buf, n);
        ReleaseSlot(a, n, 12, 128, 12, i'.indirect);
        i' := i'.(indirect := 0);
      } else {
        NoIndirectEntries(a, n);
      }
      i' := i'.(size := 0);
      itab, owner := itab[n := i'], Truncated(a, n, disk[2]).owner;
    }

    // ----- directories -----

    /** The first entry of directory `d`, in scan order, that is wanted. */
    method DirWalk(d: int, wanted: Dirent -> bool) returns (found: bool, blk: int, slot: int, e: Dirent, ghost k: int)
      requires 0 <= d < 512
      ensures found ==>
        && KindOf(InodeAt(disk, d)) == Dir && Present(InodeAt(disk, d), k)
        && blk == InodeAt(disk, d).direct[k / 8] && slot == k % 8
        && e == DirTable(disk, InodeAt(disk, d))[k] && wanted(e)
      ensures KindOf(InodeAt(disk, d)) == Dir ==>
        forall j :: 0 <= j < (if found then k else 96) && Present(InodeAt(disk, d), j) ==>
          !wanted(DirTable(disk, InodeAt(disk, d))[j])
    {
      hide InodeAt, DirentAt, At;
      found, blk, slot, e, k := false, 0, 0, NO_DIRENT, 0;
      var dir := InodeAt(disk, d);
      if KindOf(dir) != Dir { return; }
      ghost var t := DirTable(disk, dir);
      for i := 0 to 12
        invariant forall j :: 0 <= j < 8 * i && Present(dir, j) ==> !wanted(t[j])
      {
        forall j | 8 * i <= j < 8 * i + 8
          ensures t[j] == DirentAt(At(disk, dir.direct[i]), j - 8 * i) && j / 8 == i
        {
        }
        if dir.direct[i] == 0 || dir.direct[i] >= 4096 { continue; }
        var buf := At(disk, dir.direct[i]);
        var s := ScanBlock(buf, wanted);
        if s < 8 {
          return true, dir.direct[i], s, DirentAt(buf, s), 8 * i + s;
        }
      }
    }

    /** The first wanted entry of a directory block, 8 if there is none. */
    static method ScanBlock(buf: Block, wanted: Dirent -> bool) returns (s: int)
      ensures 0 <= s <= 8 && (s < 8 ==> wanted(DirentAt(buf, s)))
      ensures forall r :: 0 <= r < s ==> !wanted(DirentAt(buf, r))
    {
      s := 0;
      while s < 8
        invariant 0 <= s <= 8
        invariant forall r :: 0 <= r < s ==> !wanted(DirentAt(buf, r))
      {
        if wanted(DirentAt(buf, s)) { return; }
        s := s + 1;
      }
    }

    /** The state between operations: invariant holds and the inode table on disk is current. */
    ghost predicate Settled()
      reads this
    {
      Coherent() && ImageOk(Img()) && OnDisk(Img())
    }

    /** Looks one name up in one directory; 0 when absent or not a directory. */
    method DirFindEntry(d: int, name: Name) returns (r: int)
      requires Settled() && 1 <= d && Live(disk, d)
      ensures r == Child(Dirs(Img()), d, name)
    {
      hide OnDisk, ImageOk, Dirs, FindFrom, InodeAt, DirentAt, KindOf, DirTable;
      DirEntries(Img(), d, name);
      var found, _, _, e, k := DirWalk(d, (e: Dirent) => Names(e, name));
      var dir := InodeAt(disk, d);
      ghost var t := DirTable(disk, dir);
      if KindOf(dir) == Dir {
        PresentEntries(disk, dir, t);
        if found {
          FindIs(t, name, k);
        } else {
          assert Find(t, name) == 0;
        }
      }
      return if found then e.inode else 0;
    }

    // ----- adding a directory entry -----

    /** Fills an empty entry of an existing directory block. */
    method FillEntry(d: int, e: Dirent, blk: int, slot: int, ghost k: int)
      requires Settled() && IsDir(Img(), d) && GoodEntry(disk, e) && Present(itab[d], k)
      requires blk == itab[d].direct[k / 8] && slot == k % 8
      requires DirTable(disk, itab[d])[k].inode == 0 && Find(DirTable(disk, itab[d]), e.name) == 0
      modifies this`disk
      ensures Coherent() && Entered(old(Img()), Img(), d, e)
    {
      hide ImageOk, OnDisk, Entered, PutDirent, Find, DirTable, InodeAt, DirentAt;
      FilledOk(Img(), d, k, e);
      ghost var b := Rewrite(Img(), d, k / 8, PutDirent(disk[blk], slot, e), itab[d].size);
      disk := disk[blk := PutDirent(disk[blk], slot, e)];
      assert Img() == b;
    }

    method DirAddEntry(d: int, e: Dirent) returns (st: Status)
      requires Settled() && 1 <= d && Live(disk, d) && GoodEntry(disk, e)
      modifies this`disk, this`blockMap, this`itab, this`owner
      ensures Coherent()
      ensures st == Busy <==> Child(old(Dirs(Img())), d, e.name) != 0
      ensures st == Invalid <==> d !in old(Dirs(Img()))
      ensures st != Ok ==> Img() == old(Img())
      ensures st == Ok ==> Entered(old(Img()), Img(), d, e)
      ensures st == NoMem ==> NoRoom(old(disk), old(itab)[d])
      ensures st in {Ok, Busy, Invalid, NoMem}
    {
      hide OnDisk, ImageOk, Dirs, Find, DirTable, Entered, InodeAt, KindOf, DirentAt;
      DirEntries(Img(), d, e.name);
      var there := DirFindEntry(d, e.name);
      if there != 0 { return Busy; }
      var dir := InodeAt(disk, d);
      if KindOf(dir) != Dir { return Invalid; }
      var found, blk, slot, _, k := DirWalk(d, (x: Dirent) => x.inode == 0);
      if found {
        FillEntry(d, e, blk, slot, k);
        return Ok;
      }
      var l := FirstHole(dir);
      if l == 12 { return NoMem; }
      st := AddBlock(d, e, dir, l);
    }

    /** The first direct pointer not in use, 12 if there is none. */
    static method FirstHole(i: Inode) returns (l: nat)
      ensures l <= 12 && (l < 12 ==> i.direct[l] == 0)
      ensures forall m :: 0 <= m < l ==> i.direct[m] != 0
    {
      l := 0;
      while l < 12
        invariant l <= 12
        invariant forall m :: 0 <= m < l ==> i.direct[m] != 0
      {
        if i.direct[l] == 0 { return; }
        l := l + 1;
      }
    }

    /** Gives the directory one more block whose first entry is the new one. */
    method AddBlock(d: int, e: Dirent, dir: Inode, l: nat) returns (st: Status)
      requires Settled() && IsDir(Img(), d) && itab[d] == dir && l < 12 && dir.direct[l] == 0
      requires GoodEntry(disk, e) && Find(DirTable(disk, dir), e.name) == 0
      modifies this`disk, this`blockMap, this`itab, this`owner
      ensures Coherent() && st in {Ok, NoMem}
      ensures st == NoMem ==> Img() == old(Img()) && AllUsed(disk[2])
      ensures st == Ok ==> Entered(old(Img()), Img(), d, e)
    {
      hide OnDisk, ImageOk, PutDirent, Find, DirTable, Entered;
      ghost var a := Img();
      ReservedUsed(a);
      var b := AllocBlock();
      if b == 0 { return NoMem; }
      LinkedOk(a, d, l, b, e, (dir.size + 512) % TWO_64);
      disk := disk[b := PutDirent(ZeroBlock(), 0, e)];
      var dir': Inode := dir.(direct := dir.direct[l := b], size := (dir.size + 512) % TWO_64);
      itab, owner := itab[d := dir'], owner[b := Ref(d, l)];
      SaveInode(d, dir');
      return Ok;
    }

    // ----- paths -----

    /** The position of the next character that is not a slash. */
    static method SkipFrom(path: seq<byte>, p: nat) returns (q: nat)
      requires p <= |path|
      ensures p <= q <= |path| && path[q..] == SkipSlashes(path[p..])
      ensures q == p ==> p == |path| || path[p] != SLASH
    {
      q := p;
      while q < |path| && path[q] == SLASH
        invariant p <= q <= |path|
        invariant SkipSlashes(path[q..]) == SkipSlashes(path[p..])
      {
        assert path[q..][1..] == path[q + 1..];
        q := q + 1;
      }
    }

    /** The length of the component at `p`, or 56 if it is longer than a name may be. */
    static method ScanName(path: seq<byte>, p: nat) returns (i: nat)
      requires p <= |path|
      ensures i == Min(HeadLen(path[p..]), 56)
    {
      i := 0;
      while p + i < |path| && path[p + i] != SLASH
        invariant i <= 55 && p + i <= |path|
        invariant HeadLen(path[p..]) == i + HeadLen(path[p + i..])
      {
        assert path[p + i..][1..] == path[p + i + 1..];
        if i >= 55 { return 56; }
        i := i + 1;
      }
    }

    /** A position at which a component starts, or the end. */
    static ghost predicate AtComponent(path: seq<byte>, p: nat) {
      p <= |path| && (p < |path| ==> path[p] != SLASH)
    }

    /** Cuts the next component off; `name` is too long exactly when it has 56 bytes. */
    static method NextComponent(path: seq<byte>, p: nat) returns (name: Name, q: nat)
      requires AtComponent(path, p) && p < |path|
      ensures |name| <= 56 && Components(path[p..]) != []
      ensures |name| > 55 <==> |Components(path[p..])[0]| > 55
      ensures |name| <= 55 ==>
        AtComponent(path, q) && p < q && Components(path[p..]) == [name] + Components(path[q..])
    {
      hide Components, SkipSlashes, HeadLen;
      ComponentAt(path, p);
      var i := ScanName(path, p);
      if i > 55 { return path[p..p + 56], p; }
      name := path[p..p + i];
      q := SkipFrom(path, p + i);
      assert q < |path| ==> path[q] == path[q..][0];
    }

    /** Walks a path from the root; 0 when it does not resolve. */
    method LookupPath(path: seq<byte>) returns (cur: int)
      requires Settled()
      ensures cur == Resolve(Dirs(Img()), path)
      ensures cur != 0 ==> 1 <= cur && Live(disk, cur)
    {
      hide ImageOk, OnDisk, Dirs, Components, SkipSlashes, HeadLen;
      ReservedUsed(Img());
      ghost var t := Dirs(Img());
      var p := FirstComponent(path);
      cur := 1;
      while p < |path|
        invariant AtComponent(path, p)
        invariant 1 <= cur && Live(disk, cur)
        invariant Walk(t, cur, Components(path[p..])) == Resolve(t, path)
      {
        var name, q := NextComponent(path, p);
        if |name| > 55 {
          LongNameAbsent(Img(), cur, Components(path[p..])[0]);
          return 0;
        }
        assert Components(path[p..])[1..] == Components(path[q..]);
        ChildLive(Img(), cur, name);
        cur := DirFindEntry(cur, name);
        if cur == 0 { return; }
        p := q;
      }
      NoComponents(path[p..]);
    }

    static method FirstComponent(path: seq<byte>) returns (p: nat)
      ensures AtComponent(path, p) && Components(path[p..]) == Components(path)
    {
      p := SkipFrom(path, 0);
      assert path[0..] == path;
      assert p < |path| ==> path[p] == path[p..][0];
      SkipTwice(path);
    }

    /** Splits a path into its parent directory and last component, if it has them. */
    method SplitParentLeaf(path: seq<byte>) returns (ok: bool, parent: int, leaf: Name)
      requires Settled()
      ensures ok == Splits(Dirs(Img()), path)
      ensures ok ==> parent == Parent(Dirs(Img()), path) && leaf == Leaf(Dirs(Img()), path)
      ensures ok ==> 1 <= parent < 512 && Live(disk, parent) && parent in Dirs(Img())
    {
      hide ImageOk, OnDisk, Dirs, Components, SkipSlashes, HeadLen, InodeAt, KindOf;
      ReservedUsed(Img());
      RootIsDir(Img());
      ghost var t, cs := Dirs(Img()), Components(path);
      ok, parent, leaf := false, 1, [];
      var p := FirstComponent(path);
      if p == |path| {
        NoComponents(path[p..]);
        return;
      }
      HasComponent(path, p);
      while true
        invariant AtComponent(path, p) && p < |path|
        invariant 1 <= parent && Live(disk, parent) && parent in t
        invariant SameSplit(t, cs, parent, Components(path[p..]))
        decreases |path| - p
      {
        ghost var rest := Components(path[p..]);
        var name, q := NextComponent(path, p);
        if |name| > 55 { return; }
        leaf := name;
        assert rest[1..] == Components(path[q..]);
        if q == |path| {
          NoComponents(path[q..]);
          return true, parent, leaf;
        }
        HasComponent(path, q);
        SplitStep(t, cs, parent, rest);
        ChildLive(Img(), parent, leaf);
        var next := DirFindEntry(parent, leaf);
        if next == 0 { return; }
        DirEntries(Img(), next, []);
        if KindOf(InodeAt(disk, next)) != Dir { return; }
        parent, p := next, q;
      }
    }

    // ----- the state between calls -----

    ghost function View(): Abs
      reads this
    {
      Abs(mounted, Files(Img()), Dirs(Img()), fds)
    }

    /** Every open descriptor denotes a live inode of type file. */
    ghost predicate FdsOk()
      reads this
    {
      |fds| == 16 && forall k :: 0 <= k < 16 && fds[k].used ==> fds[k].inode in Files(Img()) && fds[k].pos >= 0
    }

    ghost predicate Valid()
      reads this
    {
      ImageOk(Img()) && OnDisk(Img()) && SuperOk(disk[1]) && FdsOk() && (mounted ==> Coherent())
    }

    // ----- format, mount, unmount -----

    /** Boots on a disk with arbitrary contents; nothing is mounted. */
    constructor (present: bool, image: Disk)
      ensures this.present == present && disk == image && !mounted && fds == NoFds()
    {
      this.present := present;
      disk, sb, blockMap, inodeMap := image, ZeroBlock(), ZeroBlock(), ZeroBlock();
      mounted, fds := false, NoFds();
      itab, owner := FormatTable(), map[];
    }

    /** Whatever was on the disk, formatting leaves an empty root directory. */
    method Format() returns (r: Status)
      modifies this
      ensures FormatSpec(old(View()), present, r, View())
      ensures present || old(Valid()) ==> Valid()
      ensures present ==> mounted
    {
      hide ImageOk, OnDisk, Files, Dirs, Formatted, SuperOk, Sealed;
      if !present { return NoDev; }
      LayOut();
      FormatSuperOk();
      itab, owner := FormatTable(), map[132 := Ref(1, 0)];
      FormattedOk(disk);
      fds, mounted := NoFds(), true;
      return Ok;
    }

    /** Writes the superblock, both bitmaps, the inode table and the root directory. */
    method LayOut()
      modifies this`disk, this`sb, this`blockMap, this`inodeMap
      ensures Coherent() && Formatted(disk) && disk[1] == Sealed(SuperFields())
    {
      hide Formatted, Sealed, DotBlock, SetBit, PutInode, ZeroBlock;
      sb := Sealed(SuperFields());
      disk := disk[1 := sb];
      blockMap := FormatBlockMap();
      disk := disk[2 := blockMap];
      inodeMap := SetBit(SetBit(ZeroBlock(), 0), 1);
      disk := disk[3 := inodeMap];
      disk := ZeroTable(disk);
      disk := StoreInode(disk, ROOT, RootInode());
      disk := disk[132 := DotBlock(1, 1)];
      FormatDone(disk);
    }

    /**
     Mounting succeeds exactly when the superblock passes its four tests; it then
     loads both bitmaps and forgets all descriptors.  The cached superblock is
     overwritten even when a test fails.
     */
    method Mount() returns (r: Status)
      modifies this`sb, this`blockMap, this`inodeMap, this`mounted, this`fds
      ensures r == if !present then NoDev else if SuperOk(disk[1]) then Ok else Invalid
      ensures r == Ok ==> mounted && Coherent() && fds == NoFds()
      ensures r != Ok ==> mounted == old(mounted) && fds == old(fds)
      ensures r != Ok ==> blockMap == old(blockMap) && inodeMap == old(inodeMap)
      ensures sb == if r == NoDev then old(sb) else disk[1]
      ensures old(Valid()) ==> Valid() && MountSpec(old(View()), present, r, View())
    {
      hide ImageOk, OnDisk, Files, Dirs, Checksum;
      if !present { return NoDev; }
      sb := disk[1];
      if Word(sb, 0) != MAGIC { return Invalid; }
      if Word(sb, 1) != 1 { return Invalid; }
      if Word(sb, 3) != 512 { return Invalid; }
      if Word(sb, 127) != Checksum(sb) { return Invalid; }
      blockMap := disk[2];
      inodeMap := disk[3];
      fds, mounted := NoFds(), true;
      return Ok;
    }

    /** Unmounting writes back what is cached, which is what is there already. */
    method Unmount() returns (r: Status)
      requires Valid()
      modifies this
      ensures Valid() && UnmountSpec(old(View()), r, View())
      ensures disk[2] == old(disk)[2] && disk[3] == old(disk)[3] && itab == old(itab) && owner == old(owner)
    {
      hide ImageOk, OnDisk, Files, Dirs, SuperOk, Sealed;
      if !mounted { return Invalid; }
      ghost var a := Img();
      sb := Sealed(sb);
      disk := disk[1 := sb];
      disk := disk[2 := blockMap];
      disk := disk[3 := inodeMap];
      Resealed(a, sb);
      fds, mounted := NoFds(), false;
      return Ok;
    }

    /** Unmounting and mounting again always succeeds and gives back everything but the descriptors. */
    method Remount() returns (r: Status)
      requires Valid() && mounted && present
      modifies this
      ensures Valid() && r == Ok && View() == old(View()).(fds := NoFds())
      ensures blockMap == old(blockMap) && inodeMap == old(inodeMap) && itab == old(itab) && owner == old(owner)
    {
      hide ImageOk, OnDisk, SuperOk, Files, Dirs;
      r := Unmount();
      r := Mount();
    }

    // ----- descriptors -----

    method FdAlloc() returns (r: int)
      ensures r == FreeFd(fds)
    {
      r := 0;
      while r < |fds|
        invariant 0 <= r <= |fds| && FreeFdFrom(fds, r) == FreeFd(fds)
      {
        if !fds[r].used { return; }
        r := r + 1;
      }
      return -1;
    }

    method Close(fd: int) returns (r: Status)
      requires Valid()
      modifies this`fds
      ensures Valid() && CloseSpec(old(View()), fd, r, View())
    {
      hide ImageOk, OnDisk, Files, Dirs, SuperOk;
      if fd < 0 || fd >= 16 { return Invalid; }
      if !fds[fd].used { return Invalid; }
      fds := fds[fd := NO_FD];
      return Ok;
    }

    method Read(fd: int, count: nat) returns (got: Option<seq<byte>>)
      requires Valid()
      modifies this
      ensures Valid() && ReadSpec(old(View()), fd, count, got, View())
      ensures Img() == old(Img())
    {
      hide ImageOk, OnDisk, Files, Dirs, SuperOk, Contents, InodeAt;
      if !mounted { return None; }
      if fd < 0 || fd >= 16 { return None; }
      if !fds[fd].used { return None; }
      if fds[fd].flags % 4 == 1 { return None; }
      var f := fds[fd];
      FileFacts(Img(), f.inode);
      var i := InodeAt(disk, f.inode);
      var body := ReadBody(i, f.pos, count, f.inode);
      if |body| > 0 { fds := fds[fd := f.(pos := f.pos + |body|)]; }
      return Some(body);
    }

    method Write(fd: int, data: seq<byte>) returns (r: int)
      requires Valid()
      modifies this
      ensures Valid() && WriteSpec(old(View()), fd, data, r, View())
      ensures r >= 0 && r < Min(|data|, 71680 - WritePos(old(View()), fd)) ==> AllUsed(disk[2])
      ensures disk[3] == old(disk)[3]
    {
      hide ImageOk, OnDisk, Files, Dirs, SuperOk, Contents, InodeAt, AllUsed, Overlay;
      if !mounted { return -1; }
      if fd < 0 || fd >= 16 { return -1; }
      if !fds[fd].used { return -1; }
      if fds[fd].flags % 4 == 0 { return -1; }
      FileFacts(Img(), fds[fd].inode);
      var i := InodeAt(disk, fds[fd].inode);
      if Has(fds[fd].flags, O_APPEND) {
        fds := fds[fd := fds[fd].(pos := i.size)];
      }
      r := WriteBody(fds[fd].inode, i, fds[fd].pos, data);
      if r > 0 { fds := fds[fd := fds[fd].(pos := fds[fd].pos + r)]; }
    }

    // ----- creating -----

    /** Creates an empty file under a name the parent does not have yet; 0 if there is no room for it. */
    method CreateFile(parent: int, leaf: Name) returns (n: int)
      requires Settled() && 1 <= parent && Live(disk, parent) && parent in Dirs(Img())
      requires |leaf| <= 55 && 0 !in leaf && Child(Dirs(Img()), parent, leaf) == 0
      modifies this`disk, this`blockMap, this`inodeMap, this`itab, this`owner
      ensures Settled() && disk[1] == old(disk)[1]
      ensures n == 0 ==>
        && Files(Img()) == old(Files(Img())) && Dirs(Img()) == old(Dirs(Img()))
        && disk[2] == old(disk)[2] && disk[3] == old(disk)[3]
      ensures n == 0 ==> (forall m :: 0 <= m < 512 ==> Live(old(disk), m)) || NoRoom(old(disk), old(itab)[parent])
      ensures n != 0 ==>
        && 1 <= n < 512 && n !in old(Files(Img())) && n !in old(Dirs(Img()))
        && Files(Img()) == old(Files(Img()))[n := []]
        && Dirs(Img()) == AddName(old(Dirs(Img())), parent, leaf, n)
    {
      hide ImageOk, OnDisk, Files, Dirs, Entered, NoRoom, AddName, IsFile, EmptyInode, SetBit, ClearBit, Used, PutInode;
      ghost var a := Img();
      ReservedUsed(a);
      n := AllocInode();
      if n == 0 { return; }
      var ino := EmptyInode(FILE_MODE, 0);
      NewFileOk(a, n);
      NewFileSameDir(a, n, parent);
      itab := itab[n := ino];
      SaveInode(n, ino);
      ghost var c := Img();
      NewbornLive(a, c, n);
      var st := DirAddEntry(parent, Dirent(n, leaf));
      if st != Ok {
        RoomSame(a, c, parent);
        UndoneFile(a, n);
        FreeInode(n);
        return 0;
      }
      EnteredParts(c, Img(), parent, Dirent(n, leaf));
    }

    /** Creates a directory holding its two dots; 0 if there is no room for it. */
    method CreateDir(parent: int, leaf: Name) returns (n: int)
      requires Settled() && 1 <= parent < 512 && Live(disk, parent) && parent in Dirs(Img())
      requires |leaf| <= 55 && 0 !in leaf && Child(Dirs(Img()), parent, leaf) == 0
      modifies this`disk, this`blockMap, this`inodeMap, this`itab, this`owner
      ensures Settled() && disk[1] == old(disk)[1]
      ensures n == 0 ==>
        && Files(Img()) == old(Files(Img())) && Dirs(Img()) == old(Dirs(Img()))
        && disk[2] == old(disk)[2] && disk[3] == old(disk)[3]
      ensures n == 0 ==> NoDirRoom(old(Img()), parent) || AllUsed(old(disk)[2])
      ensures n != 0 ==>
        && 1 <= n < 512 && n !in old(Files(Img())) && n !in old(Dirs(Img()))
        && Files(Img()) == old(Files(Img()))
        && Dirs(Img()) == AddName(old(Dirs(Img()))[n := Dots(n, parent)], parent, leaf, n)
    {
      hide ImageOk, OnDisk, Files, Dirs, Entered, NoRoom, AddName, SetBit, Dots, ClearBit, Used, Live, NoDirRoom, AllUsed, Saved, NewDir;
      ghost var a := Img();
      var p;
      n, p := NewDirInode(parent);
      if n == 0 { return; }
      NewDirSaved(a, n, p, parent);
      ghost var c := Img();
      NewbornLive(a, c, n);
      NewDirOthers(a, n, p, parent);
      var st := DirAddEntry(parent, Dirent(n, leaf));
      if st != Ok {
        UndoneDir(a, n, p, parent);
        SpareRoom(a, n, p, parent);
        NowUsed(a.d, c.d, p);
        FreeBlock(p);
        LiveSame(c.d, disk, n);
        FreeInode(n);
        owner := a.owner;
        return 0;
      }
      EnteredParts(c, Img(), parent, Dirent(n, leaf));
    }

    /** Takes an inode and a block and lays down a directory with its two dots, linked nowhere yet. */
    method NewDirInode(parent: int) returns (n: int, p: int)
      requires Settled() && 1 <= parent < 512 && Live(disk, parent)
      modifies this`disk, this`blockMap, this`inodeMap, this`itab, this`owner
      ensures Coherent()
      ensures n == 0 ==> Img() == old(Img()) && (NoDirRoom(old(Img()), parent) || AllUsed(disk[2]))
      ensures n != 0 ==> 1 <= n < 512 && 132 <= p < 4096 && !Live(old(disk), n) && !Used(old(disk), p)
      ensures n != 0 ==> Img() == Saved(NewDir(old(Img()), n, p, parent), n)
    {
      hide ImageOk, OnDisk, Files, Dirs, NoRoom, EmptyInode, SetBit, DotBlock, Dots, ClearBit, Used, PutInode, Live, NoDirRoom, AllUsed;
      ghost var a := Img();
      ReservedUsed(a);
      p := 0;
      n := AllocInode();
      if n == 0 {
        NoInode(a, parent);
        return;
      }
      UsedSame(a.d, disk);
      p := AllocBlock();
      if p == 0 {
        NewbornLive(a, Img(), n);
        NeverMind(a, n);
        FreeInode(n);
        return 0, 0;
      }
      UsedSame(a.d, a.d[3 := disk[3]]);
      NewDirSaved(a, n, p, parent);
      disk := disk[p := DotBlock(n, parent)];
      var ino: Inode := EmptyInode(DIR_MODE, 512).(direct := EmptyInode(DIR_MODE, 512).direct[0 := p]);
      itab, owner := itab[n := ino], owner[p := Ref(n, 0)];
      SaveInode(n, ino);
    }

    // ----- open and mkdir -----

    /** The state is usable by the operations once the file system is mounted. */
    lemma MountedSettled()
      requires Valid() && mounted
      ensures Settled()
    {
    }

    /** Opens a path, creating or truncating the file as the flags ask. */
    method Open(path: CStr, flags: int) returns (r: int, ghost made: int)
      requires Valid()
      modifies this
      ensures Valid() && OpenSpec(old(View()), path, flags, r, made, View())
      ensures old(mounted) && Has(flags, O_CREAT) && made == 0 && Resolve(old(Dirs(Img())), path) == 0 ==>
        Splits(old(Dirs(Img())), path) ==>
          || (forall m :: 0 <= m < 512 ==> Live(old(disk), m))
          || InodeNoRoom(old(Img()), Parent(old(Dirs(Img())), path))
      ensures old(mounted) && Has(flags, O_TRUNC) && Resolve(old(Dirs(Img())), path) in old(Files(Img())) ==>
        Released(old(Img()), Resolve(old(Dirs(Img())), path), disk[2]) && disk[3] == old(disk)[3]
    {
      hide ImageOk, OnDisk, Files, Dirs, SuperOk, Resolve, Splits, Parent, Leaf, AddName, Has, InodeAt, KindOf, Live, NoRoom, Released;
      r, made := -1, 0;
      if !mounted { return; }
      MountedSettled();
      TreeFacts(Img());
      var n := LookupPath(path);
      var pos := 0;
      if n == 0 {
        if !Has(flags, O_CREAT) { return; }
        var ok, parent, leaf := SplitParentLeaf(path);
        if !ok { return; }
        LeafFacts(Img(), path);
        n := CreateFile(parent, leaf);
        if n == 0 { return; }
        made := n;
      } else {
        NodeFacts(Img(), n);
        var i := InodeAt(disk, n);
        if KindOf(i) != File { return; }
        if Has(flags, O_TRUNC) {
          i := TruncateFile(n, i);
        }
        FileFacts(Img(), n);
        if Has(flags, O_APPEND) { pos := i.size; }
      }
      r := FdAlloc();
      if r < 0 { return; }
      fds := fds[r := Fd(true, n, pos, flags)];
    }

    /** Empties a file: its own blocks become free, and no other. */
    method TruncateFile(n: int, i: Inode) returns (i': Inode)
      requires Settled() && IsFile(Img(), n) && itab[n] == i
      modifies this`disk, this`blockMap, this`itab, this`owner
      ensures Settled() && IsFile(Img(), n) && itab[n] == i' && i'.size == 0
      ensures Files(Img()) == old(Files(Img()))[n := []] && Dirs(Img()) == old(Dirs(Img()))
      ensures disk[1] == old(disk)[1] && disk[3] == old(disk)[3] && Released(old(Img()), n, disk[2])
    {
      hide ImageOk, OnDisk, Files, Dirs, InodeAt, Released, PutInode, KindOf;
      ghost var a := Img();
      i' := TruncateInode(i, n);
      TruncatedSaved(a, n, disk[2]);
      SaveInode(n, i');
    }

    /** Makes a directory; a failed call leaves both bitmaps and every path as they were. */
    method Mkdir(path: CStr) returns (r: Status, ghost made: int)
      requires Valid()
      modifies this
      ensures Valid() && MkdirSpec(old(View()), path, r, made, View())
      ensures r != Ok ==> disk[2] == old(disk)[2] && disk[3] == old(disk)[3] && View() == old(View())
      ensures r == NoMem ==> Splits(old(Dirs(Img())), path)
      ensures r == NoMem ==> NoDirRoom(old(Img()), Parent(old(Dirs(Img())), path)) || AllUsed(old(disk)[2])
    {
      hide ImageOk, OnDisk, Files, Dirs, SuperOk, Resolve, Splits, Parent, Leaf, AddName, InodeAt, Dots, NoDirRoom, AllUsed;
      made := 0;
      if !mounted { return Invalid, 0; }
      MountedSettled();
      var n := LookupPath(path);
      if n != 0 { return Busy, 0; }
      var ok, parent, leaf := SplitParentLeaf(path);
      if !ok { return Invalid, 0; }
      LeafFacts(Img(), path);
      n := CreateDir(parent, leaf);
      if n == 0 { return NoMem, 0; }
      return Ok, n;
    }

    // ----- every run -----

    lemma ViewOk()
      requires Valid()
      ensures AbsOk(View())
    {
      hide OnDisk, SuperOk, ImageOk, Files, Dirs;
      TreeFacts(Img());
    }

    /** Between calls every used data block is referenced exactly once by the inode table on disk, no free block at all. */
    lemma NoSharingNoLeak(p: int)
      requires Valid() && p != 0
      ensures forall n :: 0 <= n < 512 ==> itab[n] == InodeAt(disk, n)
      ensures |References(Img(), p)| == if 132 <= p < 4096 && Used(disk, p) then 1 else 0
    {
      UsedExactlyOnce(Img(), p);
    }

    method Perform(op: Op)
      requires Valid()
      modifies this
      ensures Valid() && Next(old(View()), op, View())
    {
      hide Valid, View, FormatSpec, MountSpec, UnmountSpec, OpenSpec, CloseSpec, MkdirSpec, ReadSpec, WriteSpec;
      match op
      case Format =>
        var r := Format();
      case Mount => var r := Mount();
      case Unmount => var r := Unmount();
      case Close(fd) => var r := Close(fd);
      case Open(path, flags) => var r, made := Open(path, flags);
      case Mkdir(path) => var r, made := Mkdir(path);
      case Read(fd, count) => var got := Read(fd, count);
      case Write(fd, data) => var r := Write(fd, data);
    }

    /** Any sequence of operations is a run of the abstract file system and keeps the invariant. */
    method PerformAll(ops: seq<Op>) returns (ghost states: seq<Abs>)
      requires Valid()
      modifies this
      ensures Valid() && Run(states, ops) && states[0] == old(View()) && states[|ops|] == View()
    {
      hide Valid, View, Next;
      states := [View()];
      for i := 0 to |ops|
        invariant Valid() && Run(states, ops[..i]) && states[0] == old(View()) && states[i] == View()
      {
        Perform(ops[i]);
        states := states + [View()];
        assert ops[..i + 1] == ops[..i] + [ops[i]];
      }
      assert ops[..|ops|] == ops;
    }
  }
}
