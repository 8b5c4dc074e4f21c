/**
 What the abstract operations mean for a caller, said in bytes, positions and
 numbers: where a write lands, what a read returns, what an open leaves, and
 what the two dots of a directory lead to.
 */
module FsLaws {
  import opened Bytes
  import opened Bitmaps
  import opened FsLayout
  import opened FsImage
  import opened FsPaths
  import opened FsWrites
  import opened FsSpec
  import opened Options

  // ----- flags -----

  /** The flag tests are tests of bits 6, 9 and 10. */
  lemma FlagBits(flags: nat)
    ensures Has(flags, O_CREAT) <==> BitOf(flags, 6)
    ensures Has(flags, O_TRUNC) <==> BitOf(flags, 9)
    ensures Has(flags, O_APPEND) <==> BitOf(flags, 10)
  {
    hide BitOf;
    BitIsShiftAndMask(flags, 6);
    BitIsShiftAndMask(flags, 9);
    BitIsShiftAndMask(flags, 10);
    assert Pow2(6) == 64;
    Pow2Sum(6, 3);
    Pow2Sum(6, 4);
  }

  predicate Appends(f: Fd) {
    f.flags / 1024 % 2 == 1
  }

  // ----- writing -----

  /** `g` is `f` with `x` at `at`: no other byte changes, and a gap before it reads as zeros. */
  ghost predicate Landed(f: seq<byte>, at: nat, x: seq<byte>, g: seq<byte>) {
    && |g| >= |f| && |g| >= at + |x| && (|g| == |f| || |g| == at + |x|)
    && (forall k :: 0 <= k < |x| ==> g[at + k] == x[k])
    && (forall k :: 0 <= k < |g| && !(at <= k < at + |x|) ==> g[k] == if k < |f| then f[k] else 0)
  }

  /** A descriptor that may be written through. */
  predicate Writable(s: Abs, fd: int) {
    s.mounted && 0 <= fd < 16 && |s.fds| == 16 && s.fds[fd].used && s.fds[fd].flags % 4 != 0
  }

  /**
   A write fails exactly on a descriptor that may not be written through or a
   position past the largest file.  Otherwise the bytes stored land at the
   descriptor's position, or at the end of the file with O_APPEND, and nothing
   else of any file changes; the position moves past them.
   */
  lemma WriteLands(s: Abs, fd: int, data: seq<byte>, r: int, s': Abs)
    requires AbsOk(s) && WriteSpec(s, fd, data, r, s')
    ensures !Writable(s, fd) ==> r == -1 && s' == s
    ensures Writable(s, fd) ==>
      var n := s.fds[fd].inode;
      var at := if Appends(s.fds[fd]) then |s.files[n]| else s.fds[fd].pos;
      && s'.dirs == s.dirs && s'.mounted && |s'.fds| == 16
      && s'.fds[fd] == s.fds[fd].(pos := if r > 0 then at + r else at)
      && (forall k :: 0 <= k < 16 && k != fd ==> s'.fds[k] == s.fds[k])
      && s'.files.Keys == s.files.Keys && (forall m :: m in s.files && m != n ==> s'.files[m] == s.files[m])
      && (at >= 71680 ==> r == -1 && s'.files[n] == s.files[n])
      && (at < 71680 ==> 0 <= r <= |data| && at + r <= 71680 && Landed(s.files[n], at, data[..r], s'.files[n]))
  {
  }

  lemma LandedTwice(f: seq<byte>, at: nat, x: seq<byte>, g: seq<byte>, y: seq<byte>, h: seq<byte>)
    requires Landed(f, at, x, g) && Landed(g, at + |x|, y, h)
    ensures Landed(f, at, x + y, h)
  {
    forall k | 0 <= k < |x + y|
      ensures h[at + k] == (x + y)[k]
    {
      if k >= |x| { assert h[at + |x| + (k - |x|)] == y[k - |x|]; }
    }
  }

  /** Two writes through one descriptor, both stored in full, leave the two pieces one after the other. */
  lemma ConsecutiveWrites(s: Abs, fd: int, x: seq<byte>, t: Abs, y: seq<byte>, u: Abs)
    requires AbsOk(s) && Writable(s, fd) && WriteSpec(s, fd, x, |x|, t) && WriteSpec(t, fd, y, |y|, u)
    ensures var n, f := s.fds[fd].inode, s.files[s.fds[fd].inode];
      && n in u.files
      && (!Appends(s.fds[fd]) ==> Landed(f, s.fds[fd].pos, x + y, u.files[n]))
      && (Appends(s.fds[fd]) ==> u.files[n] == f + x + y)
  {
    hide WriteSpec;
    var n := s.fds[fd].inode;
    NextOkWrite(s, fd, x, |x|, t);
    WriteLands(s, fd, x, |x|, t);
    WriteLands(t, fd, y, |y|, u);
    assert x[..|x|] == x && y[..|y|] == y;
    if Appends(s.fds[fd]) {
      LandedAtEnd(s.files[n], x, t.files[n]);
      LandedAtEnd(t.files[n], y, u.files[n]);
    } else {
      LandedTwice(s.files[n], s.fds[fd].pos, x, t.files[n], y, u.files[n]);
    }
  }

  lemma LandedAtEnd(f: seq<byte>, x: seq<byte>, g: seq<byte>)
    requires Landed(f, |f|, x, g)
    ensures g == f + x
  {
    forall k | |f| <= k < |g|
      ensures g[k] == x[k - |f|]
    {
      assert g[|f| + (k - |f|)] == x[k - |f|];
    }
  }

  lemma NextOkWrite(s: Abs, fd: int, data: seq<byte>, r: int, s': Abs)
    requires AbsOk(s) && WriteSpec(s, fd, data, r, s')
    ensures AbsOk(s')
  {
    NextOk(s, Write(fd, data), s');
  }

  /** The operation neither changes the file behind the descriptor nor the descriptor. */
  ghost predicate Aside(s: Abs, op: Op, fd: int)
    requires OpenFd(s, fd)
  {
    !Touches(s, op, s.fds[fd].inode) && op != Close(fd) && !(op.Read? && op.fd == fd) && !op.Mount? && !op.Unmount?
  }

  lemma AsideKeeps(s: Abs, op: Op, s': Abs, fd: int)
    requires AbsOk(s) && Next(s, op, s') && OpenFd(s, fd) && Aside(s, op, fd)
    ensures OpenFd(s', fd) && s'.fds[fd] == s.fds[fd] && s'.mounted == s.mounted
    ensures s.fds[fd].inode in s'.files && s'.files[s.fds[fd].inode] == s.files[s.fds[fd].inode]
  {
    hide Resolve, Splits, Overlay, Parent, Leaf;
    NextKeepsFile(s, op, s', s.fds[fd].inode);
    match op
    case Open(path, flags) =>
      var r, made :| OpenSpec(s, path, flags, r, made, s');
    case Mkdir(path) =>
      var r, made :| MkdirSpec(s, path, r, made, s');
    case _ =>
  }

  function Flat(parts: seq<seq<byte>>): (x: seq<byte>) {
    if parts == [] then [] else Flat(parts[..|parts| - 1]) + parts[|parts| - 1]
  }

  predicate Through(op: Op, fd: int) {
    op.Write? && op.fd == fd
  }

  /** The part stored by an operation: a beginning of what is written through the descriptor, nothing otherwise. */
  ghost predicate PartOf(op: Op, fd: int, x: seq<byte>) {
    if Through(op, fd) then x <= op.data else x == []
  }

  /** Contents and position after writing `x` from a starting state. */
  ghost predicate Sum(s: Abs, fd: int, x: seq<byte>, s': Abs)
    requires OpenFd(s, fd) && s.fds[fd].inode in s.files
  {
    var n, f := s.fds[fd].inode, s.files[s.fds[fd].inode];
    && OpenFd(s', fd) && n in s'.files && s'.mounted == s.mounted
    && s'.fds[fd] == s.fds[fd].(pos := s'.fds[fd].pos)
    && (!Appends(s.fds[fd]) ==>
          && s'.fds[fd].pos == s.fds[fd].pos + |x| && s.fds[fd].pos >= 0
          && (Landed(f, s.fds[fd].pos, x, s'.files[n]) || (x == [] && s'.files[n] == f)))
    && (Appends(s.fds[fd]) ==> s'.files[n] == f + x)
  }

  lemma SumStep(s: Abs, fd: int, x: seq<byte>, t: Abs, op: Op, u: Abs) returns (y: seq<byte>)
    requires AbsOk(s) && AbsOk(t) && OpenFd(s, fd) && s.fds[fd].inode in s.files && Sum(s, fd, x, t) && Next(t, op, u)
    requires OpenFd(t, fd) && (Through(op, fd) || Aside(t, op, fd))
    ensures PartOf(op, fd, y) && Sum(s, fd, x + y, u)
  {
    hide WriteSpec, Aside, AbsOk, Landed;
    if Through(op, fd) {
      var r :| WriteSpec(t, fd, op.data, r, u);
      y := SumWrite(s, fd, x, t, op.data, r, u);
    } else {
      AsideKeeps(t, op, u, fd);
      y := [];
      assert x + [] == x;
    }
  }

  lemma SumWrite(s: Abs, fd: int, x: seq<byte>, t: Abs, data: seq<byte>, r: int, u: Abs) returns (y: seq<byte>)
    requires AbsOk(s) && AbsOk(t) && OpenFd(s, fd) && s.fds[fd].inode in s.files && Sum(s, fd, x, t)
    requires WriteSpec(t, fd, data, r, u)
    ensures y <= data && Sum(s, fd, x + y, u)
  {
    hide WriteSpec, AbsOk, Landed;
    Bounds(s, fd);
    Bounds(t, fd);
    var n := s.fds[fd].inode;
    WriteLands(t, fd, data, r, u);
    y := if r > 0 then data[..r] else [];
    assert x + [] == x;
    if r >= 0 {
      assert data[..r] == y;
      if Appends(s.fds[fd]) {
        LandedAtEnd(t.files[n], y, u.files[n]);
        assert s.files[n] + x + y == s.files[n] + (x + y);
      } else if Landed(s.files[n], s.fds[fd].pos, x, t.files[n]) {
        LandedTwice(s.files[n], s.fds[fd].pos, x, t.files[n], y, u.files[n]);
      } else {
        assert [] + y == y;
      }
    }
  }

  lemma Bounds(s: Abs, fd: int)
    requires AbsOk(s) && OpenFd(s, fd)
    ensures 0 <= fd < 16 == |s.fds| && s.fds[fd].inode in s.files && s.fds[fd].pos >= 0
  {
  }

  /**
   Over every run in which the file is changed through one descriptor only, and
   the descriptor is otherwise left alone, what the writes stored stands in the
   file in one piece: from the descriptor's first position on, or at the end of
   the file with O_APPEND.
   */
  lemma {:induction false} SequentialWrites(states: seq<Abs>, ops: seq<Op>, fd: int) returns (parts: seq<seq<byte>>)
    requires Run(states, ops) && AbsOk(states[0]) && OpenFd(states[0], fd)
    requires forall k :: 0 <= k < |ops| && !Through(ops[k], fd) ==> OpenFd(states[k], fd) && Aside(states[k], ops[k], fd)
    ensures |parts| == |ops| && forall k :: 0 <= k < |ops| ==> PartOf(ops[k], fd, parts[k])
    ensures states[0].fds[fd].inode in states[0].files && Sum(states[0], fd, Flat(parts), states[|ops|])
    decreases |ops|
  {
    hide AbsOk, Next, Aside, Sum, PartOf, Through;
    Bounds(states[0], fd);
    if ops == [] {
      parts := [];
      SumStart(states[0], fd);
    } else {
      var n := |ops| - 1;
      var first := SequentialWrites(states[..n + 1], ops[..n], fd);
      DescriptorsDenoteFiles(states, ops, n);
      SumOpen(states[0], fd, Flat(first), states[n]);
      assert Next(states[n], ops[n], states[n + 1]);
      var y := SumStep(states[0], fd, Flat(first), states[n], ops[n], states[n + 1]);
      parts := first + [y];
      assert parts[..n] == first;
    }
  }

  lemma SumOpen(s: Abs, fd: int, x: seq<byte>, t: Abs)
    requires OpenFd(s, fd) && s.fds[fd].inode in s.files && Sum(s, fd, x, t)
    ensures OpenFd(t, fd)
  {
  }

  lemma SumStart(s: Abs, fd: int)
    requires AbsOk(s) && OpenFd(s, fd)
    ensures s.fds[fd].inode in s.files && Sum(s, fd, [], s)
  {
    var f := s.files[s.fds[fd].inode];
    assert f + [] == f;
  }

  // ----- reading -----

  /** A descriptor that may be read through. */
  predicate Readable(s: Abs, fd: int) {
    s.mounted && 0 <= fd < 16 && |s.fds| == 16 && s.fds[fd].used && s.fds[fd].flags % 4 != 1
  }

  /**
   A read fails exactly on a descriptor that may not be read through.  Otherwise
   it returns the bytes from the position on, fewer than asked only at the end of
   the file, and moves the position past them.
   */
  lemma ReadReturns(s: Abs, fd: int, count: nat, got: Option<seq<byte>>, s': Abs)
    requires AbsOk(s) && ReadSpec(s, fd, count, got, s')
    ensures got.Some? <==> Readable(s, fd)
    ensures got.None? ==> s' == s
    ensures got.Some? ==>
      var f, pos, x := s.files[s.fds[fd].inode], s.fds[fd].pos, got.value;
      && |x| <= count && (|x| < count ==> pos + |x| >= |f|)
      && (forall k :: 0 <= k < |x| ==> pos + k < |f| && x[k] == f[pos + k])
      && s' == s.(fds := s.fds[fd := s.fds[fd].(pos := pos + |x|)])
  {
  }

  /** Two reads through one descriptor return what one longer read would. */
  lemma ConsecutiveReads(s: Abs, fd: int, a: nat, x: seq<byte>, t: Abs, b: nat, y: seq<byte>, u: Abs, z: seq<byte>, v: Abs)
    requires AbsOk(s) && ReadSpec(s, fd, a, Some(x), t) && ReadSpec(t, fd, b, Some(y), u) && ReadSpec(s, fd, a + b, Some(z), v)
    ensures z == x + y && v == u
  {
    ReadReturns(s, fd, a, Some(x), t);
    NextOk(s, Read(fd, a), t);
    ReadReturns(t, fd, b, Some(y), u);
    ReadReturns(s, fd, a + b, Some(z), v);
    assert |z| == |x + y|;
    assert forall k :: 0 <= k < |z| ==> z[k] == (x + y)[k];
    assert u.fds == v.fds;
  }

  // ----- opening -----

  /**
   A successful open yields the lowest free descriptor, for the file the path then
   resolves to, at its start or, with O_APPEND, at its end.
   */
  lemma OpenYields(s: Abs, path: seq<byte>, flags: int, r: int, made: int, s': Abs)
    requires AbsOk(s) && OpenSpec(s, path, flags, r, made, s')
    ensures -1 <= r < 16 && |s'.fds| == 16
    ensures r >= 0 ==>
      && s.mounted && !s.fds[r].used && (forall k :: 0 <= k < r ==> s.fds[k].used)
      && (forall k :: 0 <= k < 16 && k != r ==> s'.fds[k] == s.fds[k])
      && var n := Resolve(s'.dirs, path);
         && n in s'.files && s'.fds[r].used && s'.fds[r].inode == n && s'.fds[r].flags == flags
         && s'.fds[r].pos == if flags / 1024 % 2 == 1 then |s'.files[n]| else 0
    ensures r < 0 ==> s'.fds == s.fds
    ensures r < 0 && s.mounted && Resolve(s'.dirs, path) in s'.files ==> forall k :: 0 <= k < 16 ==> s.fds[k].used
  {
    hide Resolve, Splits, Parent, Leaf, AddName;
    if made != 0 { CreatedResolves(s, path, flags, r, made, s'); }
  }

  /**
   An existing file is emptied exactly with O_TRUNC, even when no descriptor is
   left.  A new file is empty.  Nothing happens when the path names a directory, or
   nothing and O_CREAT is not given.
   */
  lemma OpenLeaves(s: Abs, path: seq<byte>, flags: int, r: int, made: int, s': Abs)
    requires AbsOk(s) && OpenSpec(s, path, flags, r, made, s')
    ensures var n := Resolve(s.dirs, path);
      && (s.mounted && n in s.files ==>
            && s'.dirs == s.dirs && s'.files.Keys == s.files.Keys
            && s'.files[n] == (if flags / 512 % 2 == 1 then [] else s.files[n])
            && (forall m :: m in s.files && m != n ==> s'.files[m] == s.files[m]))
      && (n in s.dirs || (n == 0 && flags / 64 % 2 == 0) || !s.mounted ==> r == -1 && s' == s)
    ensures made != 0 ==> Resolve(s.dirs, path) == 0 && made !in s.files && made !in s.dirs && s'.files == s.files[made := []]
  {
    hide Resolve, Splits, Parent, Leaf, AddName;
  }

  // ----- creating -----

  /** Every lookup gives the same, but for one name in one directory, which leads to `made`. */
  ghost predicate OneEntryMore(t: Tree, u: Tree, d: int, name: Name, made: int) {
    && Child(t, d, name) == 0 && Child(u, d, name) == made
    && forall e, x: Name :: e in t && (e != d || x != name) ==> Child(u, e, x) == Child(t, e, x)
  }

  /** Creating a file adds its leaf to its parent directory, leading to the new empty file, and nothing else. */
  lemma CreateAdds(s: Abs, path: seq<byte>, flags: int, r: int, made: int, s': Abs)
    requires AbsOk(s) && OpenSpec(s, path, flags, r, made, s') && made != 0
    ensures Splits(s.dirs, path) && s'.dirs.Keys == s.dirs.Keys
    ensures OneEntryMore(s.dirs, s'.dirs, Parent(s.dirs, path), Leaf(s.dirs, path), made)
    ensures s'.files.Keys == s.files.Keys + {made} && s'.files[made] == [] && made !in s.files && made !in s.dirs
    ensures forall m :: m in s.files ==> s'.files[m] == s.files[m]
  {
    hide Resolve, Splits, Parent, Leaf;
    SplitParent(s.dirs, path);
  }

  /** A successful mkdir adds its leaf to its parent, leading to a directory with the two dots, and nothing else. */
  lemma MkdirAdds(s: Abs, path: seq<byte>, made: int, s': Abs)
    requires AbsOk(s) && MkdirSpec(s, path, Ok, made, s')
    ensures Splits(s.dirs, path) && s'.dirs.Keys == s.dirs.Keys + {made} && made !in s.dirs && made !in s.files
    ensures OneEntryMore(s.dirs, s'.dirs, Parent(s.dirs, path), Leaf(s.dirs, path), made)
    ensures s'.dirs[made] == map[[46] := made, [46, 46] := Parent(s.dirs, path)]
    ensures s'.files == s.files && s'.fds == s.fds && s'.mounted
  {
    hide Resolve, Splits, Parent, Leaf;
    SplitParent(s.dirs, path);
  }

  /** A mkdir is refused without effect: busy when the path exists, invalid when it cannot be split. */
  lemma MkdirRefused(s: Abs, path: seq<byte>, r: Status, made: int, s': Abs)
    requires MkdirSpec(s, path, r, made, s')
    ensures r != Ok ==> s' == s
    ensures r == Busy <==> s.mounted && Resolve(s.dirs, path) != 0
    ensures r == Invalid <==> !s.mounted || (Resolve(s.dirs, path) == 0 && !Splits(s.dirs, path))
    ensures r in {Ok, Busy, Invalid, NoMem}
  {
    hide Resolve, Splits, Parent, Leaf;
  }

  /** Closing frees an open descriptor and refuses any other number. */
  lemma CloseFrees(s: Abs, fd: int, r: Status, s': Abs)
    requires AbsOk(s) && CloseSpec(s, fd, r, s')
    ensures r == Ok <==> 0 <= fd < 16 && s.fds[fd].used
    ensures r != Ok ==> r == Invalid && s' == s
    ensures r == Ok ==> |s'.fds| == 16 && !s'.fds[fd].used && s'.files == s.files && s'.dirs == s.dirs
    ensures r == Ok ==> forall k :: 0 <= k < 16 && k != fd ==> s'.fds[k] == s.fds[k]
  {
  }

  /** After a format there is no file and no directory but the root, which holds its two dots. */
  lemma FormatEmpties(s: Abs, r: Status, s': Abs)
    requires FormatSpec(s, true, r, s')
    ensures r == Ok && s'.mounted && s'.files.Keys == {} && s'.dirs.Keys == {1} && DotsOk(s'.dirs)
    ensures s'.dirs[1].Keys == {[46], [46, 46]} && |s'.fds| == 16 && forall k :: 0 <= k < 16 ==> !s'.fds[k].used
  {
    DotsAfterFormat();
  }

  // ----- dots -----

  /** In directory `d`, `.` leads to `d` and `..` to a directory that names it, or to itself from the root. */
  ghost predicate DotsAt(t: Tree, d: int) {
    var up := Child(t, d, [46, 46]);
    && Child(t, d, [46]) == d && up in t
    && if d == 1 then up == 1 else exists name: Name :: name != [46] && name != [46, 46] && Child(t, up, name) == d
  }

  ghost predicate DotsOk(t: Tree) {
    forall d :: d in t ==> DotsAt(t, d)
  }

  lemma ChildKept(t: Tree, u: Tree, d: int, name: Name)
    requires Extends(t, u) && Child(t, d, name) != 0
    ensures Child(u, d, name) == Child(t, d, name)
  {
  }

  lemma DotsKept(t: Tree, u: Tree, d: int)
    requires Extends(t, u) && 0 !in t && d in t && DotsAt(t, d)
    ensures DotsAt(u, d)
  {
    hide Child;
    var up := Child(t, d, [46, 46]);
    ChildKept(t, u, d, [46]);
    ChildKept(t, u, d, [46, 46]);
    if d != 1 {
      var name: Name :| name != [46] && name != [46, 46] && Child(t, up, name) == d;
      ChildKept(t, u, up, name);
    }
  }

  lemma DotsAfterMkdir(s: Abs, path: seq<byte>, made: int, s': Abs)
    requires AbsOk(s) && DotsOk(s.dirs) && MkdirSpec(s, path, Ok, made, s')
    ensures DotsOk(s'.dirs)
  {
    hide Resolve, Splits, Parent, Leaf;
    var t, up, name := s.dirs, Parent(s.dirs, path), Leaf(s.dirs, path);
    SplitParent(t, path);
    MkdirExtends(t, path, made);
    assert DotsAt(t, up);
    forall d | d in s'.dirs
      ensures DotsAt(s'.dirs, d)
    {
      if d in t {
        DotsKept(t, s'.dirs, d);
      } else {
        assert d == made;
        NewDots(t, up, name, made, s'.dirs);
      }
    }
  }

  lemma NewDots(t: Tree, up: int, name: Name, made: int, u: Tree)
    requires 0 !in t && 1 in t && up in t && DotsAt(t, up) && Child(t, up, name) == 0 && made !in t
    requires u == AddName(t[made := Dots(made, up)], up, name, made)
    ensures DotsAt(u, made)
  {
    assert name != [46] && name != [46, 46];
    assert Child(u, up, name) == made;
    assert u[made] == Dots(made, up);
    assert Child(u, made, [46]) == made && Child(u, made, [46, 46]) == up;
  }

  lemma DotsNext(s: Abs, op: Op, s': Abs)
    requires AbsOk(s) && DotsOk(s.dirs) && Next(s, op, s')
    ensures DotsOk(s'.dirs)
  {
    hide Resolve, Splits, Parent, Leaf, DotsAt, OpenSpec, MkdirSpec, AddName;
    match op
    case Open(path, flags) =>
      NextExtends(s, op, s');
      var r, made :| OpenSpec(s, path, flags, r, made, s');
      OpenKeepsDirs(s, path, flags, r, made, s');
      forall d | d in s'.dirs ensures DotsAt(s'.dirs, d) { DotsKept(s.dirs, s'.dirs, d); }
    case Mkdir(path) =>
      var r, made :| MkdirSpec(s, path, r, made, s');
      MkdirRefused(s, path, r, made, s');
      if r == Ok { DotsAfterMkdir(s, path, made, s'); }
    case Format =>
      DotsAfterFormat();
    case _ =>
  }

  lemma OpenKeepsDirs(s: Abs, path: seq<byte>, flags: int, r: int, made: int, s': Abs)
    requires AbsOk(s) && OpenSpec(s, path, flags, r, made, s')
    ensures s'.dirs.Keys == s.dirs.Keys
  {
    hide Resolve, Splits, Parent, Leaf;
  }

  lemma DotsAfterFormat()
    ensures DotsOk(map[ROOT := Dots(ROOT, ROOT)])
  {
    var t: Tree := map[ROOT := Dots(ROOT, ROOT)];
    assert Child(t, 1, [46]) == 1 && Child(t, 1, [46, 46]) == 1;
  }

  /**
   From a format on, over every run, each directory leads to itself by one dot and
   by two to the directory that names it; the root is its own parent.
   */
  lemma {:induction false} DotsEverywhere(states: seq<Abs>, ops: seq<Op>, i: nat)
    requires Run(states, ops) && AbsOk(states[0]) && i < |states|
    requires DotsOk(states[0].dirs)
    ensures DotsOk(states[i].dirs)
  {
    hide Next, AbsOk, DotsOk;
    if i > 0 {
      DotsEverywhere(states, ops, i - 1);
      DescriptorsDenoteFiles(states, ops, i - 1);
      DotsNext(states[i - 1], ops[i - 1], states[i]);
    }
  }
}
