/**
 The on-disk layout of ARES FS: 4096 blocks of 512 bytes.  Block 1 is the
 superblock, 2 the block bitmap, 3 the inode bitmap, 4..131 the inode table
 (four 128-byte inodes a block) and 132..4095 hold data.  A file has 12 direct
 and 128 indirect blocks, 71680 bytes; a name has at most 55 characters.
 */
module FsLayout {
  import opened Bytes
  import opened Bitmaps

  type Block = b: seq<byte> | |b| == 512 witness seq(512, _ => 0)
  type Disk = d: seq<Block> | |d| == 4096 witness seq<Block>(4096, _ => ZeroBlock())

  const ROOT := 1

  function ZeroBlock(): (b: Block)
    ensures forall k :: 0 <= k < 512 ==> b[k] == 0
  {
    seq(512, _ => 0)
  }

  lemma ZeroWords()
    ensures forall w :: 0 <= w < 128 ==> Word(ZeroBlock(), w) == 0
  {
  }

  /** The contents behind a block pointer; pointer 0 is a hole and reads as zeros. */
  function At(d: Disk, p: u32): (b: Block)
  {
    if 0 < p < 4096 then d[p] else ZeroBlock()
  }

  /** `len` consecutive words. */
  function WordsAt(b: Block, from: nat, len: nat): (ws: seq<u32>)
    requires from + len <= 128
    ensures |ws| == len
  {
    seq<u32>(len, j requires 0 <= j < len => Word(b, from + j))
  }

  // ----- inodes -----

  datatype InodeRecord = Inode(mode: u32, uid: u32, gid: u32, size: u64, created: u64, modified: u64,
                               direct: seq<u32>, indirect: u32, rest: seq<u32>)

  /** Twelve direct pointers; `rest` is the unused double-indirect pointer and the padding. */
  type Inode = i: InodeRecord | |i.direct| == 12 && |i.rest| == 10
    witness Inode(0, 0, 0, 0, 0, 0, seq(12, _ => 0), 0, seq(10, _ => 0))

  datatype Kind = File | Dir | Other

  /** `mode & TYPE_MASK` compared with the two type values. */
  function KindOf(i: Inode): (k: Kind)
  {
    if i.mode / 0x1000 % 16 == 8 then File else if i.mode / 0x1000 % 16 == 4 then Dir else Other
  }

  const FILE_MODE: u32 := 0x8000 + 0x1B6
  const DIR_MODE: u32 := 0x4000 + 0x1B6

  /** Of the four type bits a regular file has only bit 15 set and a directory only bit 14. */
  lemma ModeBits(i: Inode)
    ensures KindOf(i) == File <==> BitOf(i.mode, 15) && !BitOf(i.mode, 14) && !BitOf(i.mode, 13) && !BitOf(i.mode, 12)
    ensures KindOf(i) == Dir <==> !BitOf(i.mode, 15) && BitOf(i.mode, 14) && !BitOf(i.mode, 13) && !BitOf(i.mode, 12)
    ensures i.mode == FILE_MODE ==> KindOf(i) == File && i.mode % 0x1000 == 0x1B6
    ensures i.mode == DIR_MODE ==> KindOf(i) == Dir && i.mode % 0x1000 == 0x1B6
  {
    hide BitOf, Pow2;
    TypePowers();
    BitIsShiftAndMask(i.mode, 12);
    BitIsShiftAndMask(i.mode, 13);
    BitIsShiftAndMask(i.mode, 14);
    BitIsShiftAndMask(i.mode, 15);
    TypeNibble(i.mode);
  }

  lemma TypePowers()
    ensures Pow2(12) == 0x1000 && Pow2(13) == 0x2000 && Pow2(14) == 0x4000 && Pow2(15) == 0x8000
  {
    Pow2Sum(6, 6);
  }

  lemma TypeNibble(v: nat)
    ensures v / 0x1000 % 16 == 8 * (v / 0x8000 % 2) + 4 * (v / 0x4000 % 2) + 2 * (v / 0x2000 % 2) + v / 0x1000 % 2
  {
    var a, b, c, e := v / 0x1000, v / 0x2000, v / 0x4000, v / 0x8000;
    assert a == 2 * b + a % 2 by { QuotientHalf(v, 0x1000); }
    assert b == 2 * c + b % 2 by { QuotientHalf(v, 0x2000); }
    assert c == 2 * e + c % 2 by { QuotientHalf(v, 0x4000); }
    var low := 8 * (e % 2) + 4 * (c % 2) + 2 * (b % 2) + a % 2;
    assert a == 16 * (e / 2) + low;
    QuotientUnique(a, 16, e / 2, low);
  }

  function InodeWords(i: Inode): (ws: seq<u32>)
    ensures |ws| == 32
  {
    [i.mode, i.uid, i.gid, Lo(i.size), Hi(i.size), Lo(i.created), Hi(i.created), Lo(i.modified), Hi(i.modified)]
    + i.direct + [i.indirect] + i.rest
  }

  function FromWords(ws: seq<u32>): (i: Inode)
    requires |ws| == 32
  {
    Inode(ws[0], ws[1], ws[2], Wide(ws[3], ws[4]), Wide(ws[5], ws[6]), Wide(ws[7], ws[8]), ws[9..21], ws[21], ws[22..])
  }

  lemma WordsRoundTrip(i: Inode)
    ensures FromWords(InodeWords(i)) == i
  {
    var ws := InodeWords(i);
    assert ws[9..21] == i.direct && ws[22..] == i.rest;
  }

  function DecodeInode(b: Block, slot: nat): (i: Inode)
    requires slot < 4
  {
    FromWords(WordsAt(b, 32 * slot, 32))
  }

  function PutInode(b: Block, slot: nat, i: Inode): (r: Block)
    requires slot < 4
  {
    Splice(b, 128 * slot, Pack(InodeWords(i)))
  }

  lemma WordsOfPutInode(b: Block, slot: nat, i: Inode, other: nat, j: nat)
    requires slot < 4 && other < 4 && j < 32
    ensures Word(PutInode(b, slot, i), 32 * other + j)
         == if other == slot then InodeWords(i)[j] else Word(b, 32 * other + j)
  {
    var ws := InodeWords(i);
    assert 4 * (32 * slot) == 128 * slot;
    WordOfSplice(b, 32 * slot, Pack(ws), 32, 32 * other + j);
    WordOfPack(ws, j);
  }

  lemma WordsAtIs(b: Block, from: nat, ws: seq<u32>)
    requires from + |ws| <= 128 && forall j :: 0 <= j < |ws| ==> ws[j] == Word(b, from + j)
    ensures WordsAt(b, from, |ws|) == ws
  {
  }

  lemma WordsAtPutInode(b: Block, slot: nat, i: Inode, other: nat)
    requires slot < 4 && other < 4
    ensures WordsAt(PutInode(b, slot, i), 32 * other, 32)
         == if other == slot then InodeWords(i) else WordsAt(b, 32 * other, 32)
  {
    hide Word, PutInode, InodeWords;
    var want := if other == slot then InodeWords(i) else WordsAt(b, 32 * other, 32);
    forall j | 0 <= j < 32
      ensures want[j] == Word(PutInode(b, slot, i), 32 * other + j)
    {
      WordsOfPutInode(b, slot, i, other, j);
    }
    WordsAtIs(PutInode(b, slot, i), 32 * other, want);
  }

  /** Writing one inode slot and reading any slot back. */
  lemma InodeRoundTrip(b: Block, slot: nat, i: Inode, other: nat)
    requires slot < 4 && other < 4
    ensures DecodeInode(PutInode(b, slot, i), other) == if other == slot then i else DecodeInode(b, other)
  {
    WordsAtPutInode(b, slot, i, other);
    WordsRoundTrip(i);
  }

  function EmptyInode(mode: u32, size: u64): (i: Inode)
    ensures i.mode == mode && i.size == size && i.indirect == 0 && forall k :: 0 <= k < 12 ==> i.direct[k] == 0
  {
    Inode(mode, 0, 0, size, 0, 0, seq(12, _ => 0), 0, seq(10, _ => 0))
  }

  lemma ZeroInode(slot: nat)
    requires slot < 4
    ensures DecodeInode(ZeroBlock(), slot) == EmptyInode(0, 0)
  {
    hide Word, ZeroBlock;
    var ws, z := WordsAt(ZeroBlock(), 32 * slot, 32), EmptyInode(0, 0);
    ZeroWords();
    forall j | 0 <= j < 32
      ensures ws[j] == 0
    {
      assert ws[j] == Word(ZeroBlock(), 32 * slot + j);
    }
    assert ws[9..21] == z.direct && ws[22..] == z.rest;
    assert forall j :: j in {0, 1, 2, 3, 4, 5, 6, 7, 8, 21} ==> ws[j] == 0;
  }

  /** Inode `n` as stored in the inode table. */
  function InodeAt(d: Disk, n: nat): (i: Inode)
    requires n < 512
  {
    DecodeInode(d[4 + n / 4], n % 4)
  }

  function StoreInode(d: Disk, n: nat, i: Inode): (r: Disk)
    requires n < 512
  {
    d[4 + n / 4 := PutInode(d[4 + n / 4], n % 4, i)]
  }

  /** Writing one inode back to the table changes that inode only. */
  lemma StoreInodeFrame(d: Disk, n: nat, i: Inode, m: nat)
    requires n < 512 && m < 512
    ensures InodeAt(StoreInode(d, n, i), m) == if m == n then i else InodeAt(d, m)
  {
    if n / 4 == m / 4 {
      InodeRoundTrip(d[4 + n / 4], n % 4, i, m % 4);
    }
  }

  /** The bytes of a whole disk in order. */
  function DiskByte(d: Disk, a: nat): (v: byte)
    requires a < 0x20_0000
  {
    d[a / 512][a % 512]
  }

  /** Inode `n` starts at byte 2048 + 128 n of the disk; its fields lie at their offsets in the packed record. */
  lemma InodeOffsets(d: Disk, n: nat)
    requires n < 512
    ensures var i, a := InodeAt(d, n), 2048 + 128 * n;
      && i.mode == WordFrom(d, a) && i.uid == WordFrom(d, a + 4) && i.gid == WordFrom(d, a + 8)
      && i.size == WordFrom(d, a + 12) + 0x1_0000_0000 * WordFrom(d, a + 16)
      && (forall k :: 0 <= k < 12 ==> i.direct[k] == WordFrom(d, a + 36 + 4 * k))
      && i.indirect == WordFrom(d, a + 84)
  {
    hide Word, WordFrom;
    var slot, blk := n % 4, 4 + n / 4;
    var ws := WordsAt(d[blk], 32 * slot, 32);
    forall j | 0 <= j < 32
      ensures WordFrom(d, 2048 + 128 * n + 4 * j) == ws[j]
    {
      WordFromBlock(d, blk, 32 * slot + j);
      assert 512 * blk + 4 * (32 * slot + j) == 2048 + 128 * n + 4 * j;
    }
    assert WordFrom(d, 2048 + 128 * n + 4 * 0) == ws[0] && WordFrom(d, 2048 + 128 * n + 4 * 1) == ws[1];
    assert WordFrom(d, 2048 + 128 * n + 4 * 2) == ws[2] && WordFrom(d, 2048 + 128 * n + 4 * 3) == ws[3];
    assert WordFrom(d, 2048 + 128 * n + 4 * 4) == ws[4] && WordFrom(d, 2048 + 128 * n + 4 * 21) == ws[21];
    forall k | 0 <= k < 12
      ensures WordFrom(d, 2048 + 128 * n + 36 + 4 * k) == ws[9 + k]
    {
      assert 2048 + 128 * n + 4 * (9 + k) == 2048 + 128 * n + 36 + 4 * k;
    }
  }

  /** The little-endian word at byte address `a` of the disk. */
  function WordFrom(d: Disk, a: nat): (v: int)
    requires a + 4 <= 0x20_0000
  {
    DiskByte(d, a) + 0x100 * DiskByte(d, a + 1) + 0x1_0000 * DiskByte(d, a + 2) + 0x100_0000 * DiskByte(d, a + 3)
  }

  lemma InBlock(q: nat, k: nat)
    requires k < 512
    ensures (512 * q + k) / 512 == q && (512 * q + k) % 512 == k
  {
  }

  lemma WordFromBlock(d: Disk, q: nat, w: nat)
    requires q < 4096 && w < 128
    ensures WordFrom(d, 512 * q + 4 * w) == Word(d[q], w)
  {
    var a := 512 * q + 4 * w;
    InBlock(q, 4 * w);
    InBlock(q, 4 * w + 1);
    InBlock(q, 4 * w + 2);
    InBlock(q, 4 * w + 3);
  }

  // ----- directory entries -----

  datatype Dirent = Dirent(inode: u32, name: seq<byte>)

  const NO_DIRENT := Dirent(0, [])

  /** The C string at the start of a byte field. */
  function CString(bs: seq<byte>): (s: seq<byte>)
    ensures |s| <= |bs| && s == bs[..|s|] && 0 !in s
    ensures |s| < |bs| ==> bs[|s|] == 0
  {
    if bs == [] || bs[0] == 0 then [] else [bs[0]] + CString(bs[1..])
  }

  /** The name field: at most 55 bytes, padded with NULs to 56. */
  function NameField(name: seq<byte>): (f: seq<byte>)
    ensures |f| == 56
  {
    seq(56, k requires 0 <= k < 56 => if k < |name| && k < 55 then name[k] else 0)
  }

  lemma {:induction false} CStringUnique(bs: seq<byte>, s: seq<byte>)
    requires |s| < |bs| && 0 !in s && s == bs[..|s|] && bs[|s|] == 0
    ensures CString(bs) == s
  {
    if s != [] {
      assert bs[0] == s[0];
      CStringUnique(bs[1..], s[1..]);
    }
  }

  lemma CStringOfField(name: seq<byte>)
    requires |name| <= 55 && 0 !in name
    ensures CString(NameField(name)) == name
  {
    CStringUnique(NameField(name), name);
  }

  function DirentAt(b: Block, s: nat): (e: Dirent)
    requires s < 8
  {
    Dirent(Word(b, 15 * s), CString(b[60 * s + 4..60 * s + 60]))
  }

  function PutDirent(b: Block, s: nat, e: Dirent): (r: Block)
    requires s < 8
  {
    Splice(b, 60 * s, Pack([e.inode]) + NameField(e.name))
  }

  lemma DirentRoundTrip(b: Block, s: nat, e: Dirent, t: nat)
    requires s < 8 && t < 8 && |e.name| <= 55 && 0 !in e.name
    ensures DirentAt(PutDirent(b, s, e), t) == if t == s then e else DirentAt(b, t)
  {
    hide Word, Pack, NameField, CString, PutDirent;
    DirentWord(b, s, e, t);
    DirentName(b, s, e, t);
    CStringOfField(e.name);
  }

  lemma DirentWord(b: Block, s: nat, e: Dirent, t: nat)
    requires s < 8 && t < 8 && |e.name| <= 55
    ensures Word(PutDirent(b, s, e), 15 * t) == if t == s then e.inode else Word(b, 15 * t)
  {
    hide Pack, NameField;
    var x := Pack([e.inode]) + NameField(e.name);
    WordOfSplice(b, 15 * s, x, 15, 15 * t);
    WordOfPack([e.inode], 0);
    assert Word(x, 0) == Word(Pack([e.inode]), 0);
  }

  lemma DirentName(b: Block, s: nat, e: Dirent, t: nat)
    requires s < 8 && t < 8 && |e.name| <= 55
    ensures PutDirent(b, s, e)[60 * t + 4..60 * t + 60] == if t == s then NameField(e.name) else b[60 * t + 4..60 * t + 60]
  {
    hide Pack, NameField;
    var c := PutDirent(b, s, e);
    if t == s {
      assert c[60 * t + 4..60 * t + 60] == NameField(e.name);
    } else {
      assert c[60 * t + 4..60 * t + 60] == b[60 * t + 4..60 * t + 60];
    }
  }

  /** Entry `s` occupies 60 bytes: the inode number, then the name ended by a NUL. */
  lemma DirentOffsets(b: Block, s: nat, e: Dirent)
    requires s < 8 && |e.name| <= 55
    ensures var c := PutDirent(b, s, e);
      && Word(c, 15 * s) == e.inode
      && (forall k :: 0 <= k < |e.name| ==> c[60 * s + 4 + k] == e.name[k]) && c[60 * s + 4 + |e.name|] == 0
      && forall k :: 0 <= k < 512 && !(60 * s <= k < 60 * s + 60) ==> c[k] == b[k]
  {
    DirentWord(b, s, e, s);
    DirentName(b, s, e, s);
    var c := PutDirent(b, s, e);
    var f := c[60 * s + 4..60 * s + 60];
    assert forall k :: 0 <= k < 56 ==> f[k] == c[60 * s + 4 + k];
  }

  lemma ZeroDirent(s: nat)
    requires s < 8
    ensures DirentAt(ZeroBlock(), s) == NO_DIRENT
  {
    ZeroWords();
  }

  // ----- superblock -----

  const MAGIC: u32 := 0x41524553

  function SumWords(b: Block, w: nat): (r: int)
    requires w <= 10
  {
    if w == 0 then 0 else SumWords(b, w - 1) + Word(b, w - 1)
  }

  /** The 32-bit sum of the ten header fields, exclusive-or a constant. */
  function Checksum(b: Block): (r: u32)
  {
    Pow2Of32();
    Xor(SumWords(b, 10) % TWO_32, 0xDEADBEEF, 32)
  }

  /** The four tests of mount. */
  predicate SuperOk(b: Block)
  {
    && Word(b, 0) == MAGIC
    && Word(b, 1) == 1
    && Word(b, 3) == 512
    && Word(b, 127) == Checksum(b)
  }

  /** The superblock with its checksum field recomputed. */
  function Sealed(b: Block): (r: Block)
  {
    SetWord(b, 127, Checksum(b))
  }

  function SuperFields(): (b: Block)
  {
    Pack([MAGIC, 1, 4096, 512, 1, 1, 1, 0, 4, 132] + seq(118, _ => 0))
  }

  lemma {:induction false} SumSame(b: Block, c: Block, w: nat)
    requires w <= 10 && forall k :: 0 <= k < 10 ==> Word(b, k) == Word(c, k)
    ensures SumWords(b, w) == SumWords(c, w)
  {
    if w > 0 {
      SumSame(b, c, w - 1);
    }
  }

  /** Sealing does not disturb what the checksum covers, so a sealed header carries its own checksum. */
  lemma SealedChecksum(b: Block)
    ensures Word(Sealed(b), 127) == Checksum(Sealed(b))
    ensures forall k :: 0 <= k < 127 ==> Word(Sealed(b), k) == Word(b, k)
  {
    forall k | 0 <= k < 128
      ensures Word(Sealed(b), k) == if k == 127 then Checksum(b) else Word(b, k)
    {
      WordOfSetWord(b, 127, Checksum(b), k);
    }
    SumSame(Sealed(b), b, 10);
  }

  lemma SuperWords()
    ensures forall k :: 0 <= k < 128 ==>
      Word(SuperFields(), k) == if k < 10 then [0x4152_4553, 1, 4096, 512, 1, 1, 1, 0, 4, 132][k] else 0
  {
    hide Word, Pack;
    var ws: seq<u32> := [MAGIC, 1, 4096, 512, 1, 1, 1, 0, 4, 132] + seq(118, _ => 0);
    forall k | 0 <= k < 128
      ensures Word(SuperFields(), k) == ws[k]
    {
      WordOfPack(ws, k);
    }
  }

  lemma FormatSum()
    ensures SumWords(SuperFields(), 10) == 0x4152_57DF
  {
    hide Word, SuperFields;
    SuperWords();
    var b := SuperFields();
    assert SumWords(b, 2) == Word(b, 0) + Word(b, 1);
    assert SumWords(b, 4) == SumWords(b, 2) + Word(b, 2) + Word(b, 3);
    assert SumWords(b, 6) == SumWords(b, 4) + Word(b, 4) + Word(b, 5);
    assert SumWords(b, 8) == SumWords(b, 6) + Word(b, 6) + Word(b, 7);
    assert SumWords(b, 10) == SumWords(b, 8) + Word(b, 8) + Word(b, 9);
  }

  lemma FormatXor()
    ensures Xor(0x4152_57DF, 0xDEAD_BEEF, 32) == 0x9FFF_E930
  {
    hide Xor;
    XorDigits();
    assert Pow2(4) == 16;
    XorJoin(0x415_257D, 0xF, 0xDEA_DBEE, 0xF, 28, 4);
    XorJoin(0x41_5257, 0xD, 0xDE_ADBE, 0xE, 24, 4);
    XorJoin(0x4_1525, 7, 0xD_EADB, 0xE, 20, 4);
    XorJoin(0x4152, 5, 0xDEAD, 0xB, 16, 4);
    XorJoin(0x415, 2, 0xDEA, 0xD, 12, 4);
    XorJoin(0x41, 5, 0xDE, 0xA, 8, 4);
    XorJoin(4, 1, 0xD, 0xE, 4, 4);
  }

  lemma XorDigits()
    ensures Xor(0xF, 0xF, 4) == 0 && Xor(0xD, 0xE, 4) == 3 && Xor(7, 0xE, 4) == 9 && Xor(5, 0xB, 4) == 0xE
    ensures Xor(2, 0xD, 4) == 0xF && Xor(5, 0xA, 4) == 0xF && Xor(1, 0xE, 4) == 0xF && Xor(4, 0xD, 4) == 9
  {
    hide Xor;
    XorDigit(3, 3, 3, 3);
    XorDigit(3, 1, 3, 2);
    XorDigit(1, 3, 3, 2);
    XorDigit(1, 1, 2, 3);
    XorDigit(0, 2, 3, 1);
    XorDigit(1, 1, 2, 2);
    XorDigit(0, 1, 3, 2);
    XorDigit(1, 0, 3, 1);
  }

  /** Exclusive-or of two bits each. */
  function PairXor(x: nat, y: nat): (r: nat) {
    if x == y then 0 else if x + y == 3 then 3 else if x == 0 || y == 0 then x + y else if x + y == 4 then 2 else 1
  }

  lemma XorPair(x: nat, y: nat)
    requires x < 4 && y < 4
    ensures Xor(x, y, 2) == PairXor(x, y)
  {
    hide Xor;
    XorStep(x, y, 1);
    XorStep(x / 2, y / 2, 0);
    XorNone(x / 2 / 2, y / 2 / 2);
  }

  lemma XorDigit(x: nat, x': nat, y: nat, y': nat)
    requires x < 4 && x' < 4 && y < 4 && y' < 4
    ensures Xor(4 * x + x', 4 * y + y', 4) == 4 * PairXor(x, y) + PairXor(x', y')
  {
    hide Xor, PairXor;
    XorPair(x, y);
    XorPair(x', y');
    assert Pow2(2) == 4;
    XorJoin(x, x', y, y', 2, 2);
  }

  /** The superblock that format writes, word by word, checksum included. */
  lemma FormatSuperblock(k: nat)
    requires k < 128
    ensures Word(Sealed(SuperFields()), k) ==
      if k < 10 then [0x4152_4553, 1, 4096, 512, 1, 1, 1, 0, 4, 132][k] else if k == 127 then 0x9FFF_E930 else 0
  {
    hide Word, SuperFields, Sealed, Checksum, Xor, SumWords;
    SuperWords();
    SealedChecksum(SuperFields());
    if k == 127 {
      FormatSum();
      FormatXor();
      ChecksumIs(Sealed(SuperFields()));
      SumSame(Sealed(SuperFields()), SuperFields(), 10);
    }
  }

  lemma ChecksumIs(b: Block)
    ensures Checksum(b) == Xor(SumWords(b, 10) % 0x1_0000_0000, 0xDEAD_BEEF, 32)
  {
  }

  lemma FormatSuperOk()
    ensures SuperOk(Sealed(SuperFields()))
  {
    SuperWords();
    SealedAccepted(SuperFields());
  }

  lemma {:induction false} SumOther(b: Block, c: Block, k: nat, w: nat)
    requires w <= 10 && k < 10 && forall j :: 0 <= j < 10 && j != k ==> Word(c, j) == Word(b, j)
    ensures SumWords(c, w) - SumWords(b, w) == if k < w then Word(c, k) - Word(b, k) else 0
  {
    if w > 0 {
      SumOther(b, c, k, w - 1);
    }
  }

  /** Mount looks at the ten fields and the checksum only, and notices every change to one of them. */
  lemma DamageDetected(b: Block, c: Block, k: nat)
    requires SuperOk(b) && k < 128 && Word(c, k) != Word(b, k)
    requires forall j :: 0 <= j < 128 && j != k ==> Word(c, j) == Word(b, j)
    ensures SuperOk(c) <==> 10 <= k < 127
  {
    hide Word, Checksum, Xor, SumWords;
    ChecksumIs(b);
    ChecksumIs(c);
    if k < 10 {
      SumOther(b, c, k, 10);
      var x, y := SumWords(b, 10), SumWords(c, 10);
      assert x % 0x1_0000_0000 != y % 0x1_0000_0000;
      Pow2Of32();
      if Checksum(b) == Checksum(c) {
        XorCancels(x % 0x1_0000_0000, y % 0x1_0000_0000, 0xDEAD_BEEF, 32);
      }
    } else {
      SumSame(b, c, 10);
    }
  }

  /** With its checksum recomputed, a superblock mounts exactly if it has the magic, the version and the block size. */
  lemma SealedAccepted(b: Block)
    ensures SuperOk(Sealed(b)) <==> Word(b, 0) == 0x4152_4553 && Word(b, 1) == 1 && Word(b, 3) == 512
  {
    hide Word, Checksum, Sealed;
    SealedChecksum(b);
  }
}
