/**
 The file system as its callers see it: contents of files, entries of
 directories and open descriptors.  Each operation is a relation between two
 such states; the theorems at the end hold over every run.
 */
module FsSpec {
  import opened Bytes
  import opened FsLayout
  import opened FsImage
  import opened FsPaths
  import opened FsWrites
  import opened Options

  datatype Fd = Fd(used: bool, inode: int, pos: int, flags: int)
  datatype Status = Ok | Error | NoMem | Invalid | NoDev | Busy

  const NO_FD := Fd(false, 0, 0, 0)

  datatype Abs = Abs(mounted: bool, files: map<int, seq<byte>>, dirs: Tree, fds: seq<Fd>)

  function NoFds(): (s: seq<Fd>)
    ensures |s| == 16 && forall k :: 0 <= k < 16 ==> s[k] == NO_FD
  {
    seq(16, _ => NO_FD)
  }

  const DOT: Name := [46]
  const DOTDOT: Name := [46, 46]

  /** The two entries every directory starts with. */
  function Dots(self: int, parent: int): (m: map<Name, int>) {
    map[DOT := self, DOTDOT := parent]
  }

  // ----- flags and descriptors -----

  const O_CREAT := 0x40
  const O_TRUNC := 0x200
  const O_APPEND := 0x400

  predicate Has(flags: int, bit: int)
    requires bit > 0
  {
    flags / bit % 2 == 1
  }

  /** The lowest unused descriptor from `k` on, -1 if there is none. */
  function FreeFdFrom(fds: seq<Fd>, k: nat): (r: int)
    requires k <= |fds|
    ensures r == -1 || (k <= r < |fds| && !fds[r].used)
    ensures forall j :: k <= j < (if r < 0 then |fds| else r) ==> fds[j].used
    decreases |fds| - k
  {
    if k == |fds| then -1 else if !fds[k].used then k else FreeFdFrom(fds, k + 1)
  }

  function FreeFd(fds: seq<Fd>): (r: int) {
    FreeFdFrom(fds, 0)
  }

  predicate OpenFd(s: Abs, fd: int) {
    0 <= fd < |s.fds| && s.fds[fd].used
  }

  /** `r` is a new descriptor for inode `n`, or -1 when all are taken. */
  predicate Opened(fds: seq<Fd>, fds': seq<Fd>, n: int, pos: int, flags: int, r: int) {
    && r == FreeFd(fds)
    && fds' == if r < 0 then fds else fds[r := Fd(true, n, pos, flags)]
  }

  // ----- operations -----

  ghost predicate FormatSpec(s: Abs, present: bool, r: Status, s': Abs) {
    if !present then r == NoDev && s' == s
    else r == Ok && s' == Abs(true, map[], map[ROOT := Dots(ROOT, ROOT)], NoFds())
  }

  ghost predicate MountSpec(s: Abs, present: bool, r: Status, s': Abs) {
    if !present then r == NoDev && s' == s
    else r == Ok && s' == s.(mounted := true, fds := NoFds())
  }

  ghost predicate UnmountSpec(s: Abs, r: Status, s': Abs) {
    if !s.mounted then r == Invalid && s' == s
    else r == Ok && s' == s.(mounted := false, fds := NoFds())
  }

  ghost predicate CloseSpec(s: Abs, fd: int, r: Status, s': Abs) {
    if !OpenFd(s, fd) then r == Invalid && s' == s
    else r == Ok && s' == s.(fds := s.fds[fd := NO_FD])
  }

  /** `n` is a new inode number. */
  ghost predicate FreshInode(s: Abs, n: int) {
    1 <= n && n !in s.files && n !in s.dirs
  }

  /**
   Opening.  `made` is the inode created on the way, 0 if none: creation may
   succeed and the call still return -1 when no descriptor is left.
   */
  ghost predicate OpenSpec(s: Abs, path: seq<byte>, flags: int, r: int, made: int, s': Abs) {
    var n := Resolve(s.dirs, path);
    if !s.mounted || (n != 0 && n !in s.files) || (n == 0 && (!Has(flags, O_CREAT) || !Splits(s.dirs, path))) then
      r == -1 && made == 0 && s' == s
    else if n != 0 then
      var files := if Has(flags, O_TRUNC) then s.files[n := []] else s.files;
      && made == 0 && s' == s.(files := files, fds := s'.fds)
      && Opened(s.fds, s'.fds, n, if Has(flags, O_APPEND) then |files[n]| else 0, flags, r)
    else if made == 0 then
      r == -1 && s' == s
    else
      && FreshInode(s, made)
      && s' == s.(files := s.files[made := []],
                  dirs := AddName(s.dirs, Parent(s.dirs, path), Leaf(s.dirs, path), made), fds := s'.fds)
      && Opened(s.fds, s'.fds, made, 0, flags, r)
  }

  ghost predicate MkdirSpec(s: Abs, path: seq<byte>, r: Status, made: int, s': Abs) {
    if !s.mounted then r == Invalid && s' == s
    else if Resolve(s.dirs, path) != 0 then r == Busy && s' == s
    else if !Splits(s.dirs, path) then r == Invalid && s' == s
    else if r == Ok then
      && FreshInode(s, made)
      && s' == s.(dirs := AddName(s.dirs[made := Dots(made, Parent(s.dirs, path))],
                                  Parent(s.dirs, path), Leaf(s.dirs, path), made))
    else r == NoMem && s' == s
  }

  /** Reading: `got` is `None` for the error return. */
  ghost predicate ReadSpec(s: Abs, fd: int, count: nat, got: Option<seq<byte>>, s': Abs) {
    if !s.mounted || !OpenFd(s, fd) || s.fds[fd].flags % 4 == 1 || s.fds[fd].inode !in s.files || s.fds[fd].pos < 0 then
      got == None && s' == s
    else
      var f, body := s.fds[fd], s.files[s.fds[fd].inode];
      && got == Some(Slice(body, f.pos, count))
      && s' == s.(fds := s.fds[fd := f.(pos := f.pos + |got.value|)])
  }

  /** At most `count` bytes from `pos`. */
  function Slice(body: seq<byte>, pos: nat, count: nat): (x: seq<byte>) {
    if pos >= |body| then []
    else body[pos..if count > |body| - pos then |body| else pos + count]
  }

  /** Where a write through a descriptor lands. */
  function WritePos(s: Abs, fd: int): (p: int)
    requires OpenFd(s, fd) && s.fds[fd].inode in s.files
  {
    if Has(s.fds[fd].flags, O_APPEND) then |s.files[s.fds[fd].inode]| else s.fds[fd].pos
  }

  ghost predicate WriteSpec(s: Abs, fd: int, data: seq<byte>, r: int, s': Abs) {
    if !s.mounted || !OpenFd(s, fd) || s.fds[fd].flags % 4 == 0 || s.fds[fd].inode !in s.files || s.fds[fd].pos < 0 then
      r == -1 && s' == s
    else
      var f, pos := s.fds[fd], WritePos(s, fd);
      if pos >= 71680 then
        r == -1 && s' == s.(fds := s.fds[fd := f.(pos := pos)])
      else
        && 0 <= r <= |data| && pos + r <= 71680
        && s' == s.(files := s.files[f.inode := Overlay(s.files[f.inode], pos, data[..r])],
                    fds := s.fds[fd := f.(pos := pos + r)])
  }

  // ----- runs -----

  datatype Op =
    | Format | Mount | Unmount | Close(fd: int)
    | Open(path: CStr, oflags: int) | Mkdir(path: CStr)
    | Read(fd: int, count: nat) | Write(fd: int, data: seq<byte>)

  /** One operation, with whatever result it gives. */
  ghost predicate Next(s: Abs, op: Op, s': Abs) {
    match op
    case Format => exists p, r :: FormatSpec(s, p, r, s')
    case Mount => exists p, r :: MountSpec(s, p, r, s')
    case Unmount => exists r :: UnmountSpec(s, r, s')
    case Close(fd) => exists r :: CloseSpec(s, fd, r, s')
    case Open(path, flags) => exists r, made :: OpenSpec(s, path, flags, r, made, s')
    case Mkdir(path) => exists r, made :: MkdirSpec(s, path, r, made, s')
    case Read(fd, count) => exists got :: ReadSpec(s, fd, count, got, s')
    case Write(fd, data) => exists r :: WriteSpec(s, fd, data, r, s')
  }

  /** A run: operation `i` leads from state `i` to state `i + 1`. */
  ghost predicate Run(states: seq<Abs>, ops: seq<Op>) {
    && |states| == |ops| + 1
    && forall i :: 0 <= i < |ops| ==> Next(states[i], ops[i], states[i + 1])
  }

  ghost predicate NoZero(t: Tree) {
    forall d, name :: d in t && name in t[d] ==> t[d][name] != 0
  }

  /** Open descriptors denote files, and files are not directories. */
  ghost predicate AbsOk(s: Abs) {
    && |s.fds| == 16 && ROOT in s.dirs && NoZero(s.dirs) && 0 !in s.dirs && 0 !in s.files
    && (forall n :: n in s.files ==> n !in s.dirs)
    && (forall k :: 0 <= k < 16 && s.fds[k].used ==> s.fds[k].inode in s.files && s.fds[k].pos >= 0)
  }

  lemma SplitParent(t: Tree, path: seq<byte>)
    requires Splits(t, path) && ROOT in t
    ensures Parent(t, path) in t && Resolve(t, path) == Child(t, Parent(t, path), Leaf(t, path))
  {
    WalksAgree(t, path);
  }

  lemma OpenOk(s: Abs, path: seq<byte>, flags: int, r: int, made: int, s': Abs)
    requires AbsOk(s) && OpenSpec(s, path, flags, r, made, s')
    ensures AbsOk(s')
  {
    if made != 0 { SplitParent(s.dirs, path); }
  }

  lemma MkdirOk(s: Abs, path: seq<byte>, r: Status, made: int, s': Abs)
    requires AbsOk(s) && MkdirSpec(s, path, r, made, s')
    ensures AbsOk(s')
  {
    if s.mounted && Resolve(s.dirs, path) == 0 && Splits(s.dirs, path) { SplitParent(s.dirs, path); }
  }

  lemma NextOk(s: Abs, op: Op, s': Abs)
    requires AbsOk(s) && Next(s, op, s')
    ensures AbsOk(s')
  {
    hide OpenSpec, MkdirSpec;
    match op
    case Open(path, flags) =>
      var r, made :| OpenSpec(s, path, flags, r, made, s');
      OpenOk(s, path, flags, r, made, s');
    case Mkdir(path) =>
      var r, made :| MkdirSpec(s, path, r, made, s');
      MkdirOk(s, path, r, made, s');
    case _ =>
  }

  /** In every state of every run, each open descriptor denotes a file. */
  lemma {:induction false} DescriptorsDenoteFiles(states: seq<Abs>, ops: seq<Op>, i: nat)
    requires Run(states, ops) && AbsOk(states[0]) && i < |states|
    ensures AbsOk(states[i])
  {
    hide Next, AbsOk;
    if i > 0 {
      DescriptorsDenoteFiles(states, ops, i - 1);
      NextOk(states[i - 1], ops[i - 1], states[i]);
    }
  }

  /** No operation but `format` removes a directory or an entry, or redirects one. */
  lemma NextExtends(s: Abs, op: Op, s': Abs)
    requires AbsOk(s) && Next(s, op, s') && op != Format
    ensures Extends(s.dirs, s'.dirs)
  {
    match op
    case Open(path, flags) =>
      var r, made :| OpenSpec(s, path, flags, r, made, s');
      if made != 0 { AddNameExtends(s.dirs, path, made); }
    case Mkdir(path) =>
      var r, made :| MkdirSpec(s, path, r, made, s');
      if s.mounted && Resolve(s.dirs, path) == 0 && Splits(s.dirs, path) && r == Ok {
        MkdirExtends(s.dirs, path, made);
      }
    case _ =>
  }

  lemma AddNameExtends(t: Tree, path: seq<byte>, n: int)
    requires ROOT in t && NoZero(t) && Splits(t, path) && Resolve(t, path) == 0
    ensures Extends(t, AddName(t, Parent(t, path), Leaf(t, path), n))
  {
    SplitParent(t, path);
  }

  lemma MkdirExtends(t: Tree, path: seq<byte>, n: int)
    requires ROOT in t && NoZero(t) && Splits(t, path) && Resolve(t, path) == 0 && n !in t
    ensures Extends(t, AddName(t[n := Dots(n, Parent(t, path))], Parent(t, path), Leaf(t, path), n))
  {
    SplitParent(t, path);
  }

  lemma {:induction false} TreeOnlyGrows(states: seq<Abs>, ops: seq<Op>, i: nat, j: nat)
    requires Run(states, ops) && AbsOk(states[0]) && i <= j < |states|
    requires forall k :: i <= k < j ==> ops[k] != Format
    ensures Extends(states[i].dirs, states[j].dirs)
  {
    hide Next, AbsOk;
    if i < j {
      TreeOnlyGrows(states, ops, i, j - 1);
      DescriptorsDenoteFiles(states, ops, j - 1);
      NextExtends(states[j - 1], ops[j - 1], states[j]);
      ExtendsTransitive(states[i].dirs, states[j - 1].dirs, states[j].dirs);
    }
  }

  /** Over every run without a format, a path that resolves keeps resolving to the same inode. */
  lemma PathsStable(states: seq<Abs>, ops: seq<Op>, i: nat, j: nat, path: seq<byte>)
    requires Run(states, ops) && AbsOk(states[0]) && i <= j < |states|
    requires forall k :: i <= k < j ==> ops[k] != Format
    requires Resolve(states[i].dirs, path) != 0
    ensures Resolve(states[j].dirs, path) == Resolve(states[i].dirs, path)
  {
    TreeOnlyGrows(states, ops, i, j);
    WalkStable(states[i].dirs, states[j].dirs, ROOT, Components(path));
  }

  /** A successful create or mkdir makes its path resolve to the new inode. */
  lemma CreatedResolves(s: Abs, path: seq<byte>, flags: int, r: int, made: int, s': Abs)
    requires AbsOk(s) && OpenSpec(s, path, flags, r, made, s') && made != 0
    ensures Resolve(s'.dirs, path) == made
  {
    SplitParent(s.dirs, path);
    AddNameExtends(s.dirs, path, made);
    NewPathResolves(s.dirs, s'.dirs, path, made);
  }

  lemma MadeDirResolves(s: Abs, path: seq<byte>, made: int, s': Abs)
    requires AbsOk(s) && MkdirSpec(s, path, Ok, made, s')
    ensures Resolve(s'.dirs, path) == made
    ensures Child(s'.dirs, made, DOT) == made && Child(s'.dirs, made, DOTDOT) == Parent(s.dirs, path)
  {
    hide Components;
    SplitParent(s.dirs, path);
    MkdirExtends(s.dirs, path, made);
    NewPathResolves(s.dirs, s'.dirs, path, made);
  }

  // ----- non-interference -----

  /** The operation may change the contents of file `n`. */
  ghost predicate Touches(s: Abs, op: Op, n: int) {
    match op
    case Format => true
    case Write(fd, _) => OpenFd(s, fd) && s.fds[fd].inode == n
    case Open(path, flags) => Resolve(s.dirs, path) == n && Has(flags, O_TRUNC)
    case _ => false
  }

  lemma NextKeepsFile(s: Abs, op: Op, s': Abs, n: int)
    requires Next(s, op, s') && n in s.files && !Touches(s, op, n)
    ensures n in s'.files && s'.files[n] == s.files[n]
  {
    hide Resolve, Splits;
    match op
    case Open(path, flags) =>
      var r, made :| OpenSpec(s, path, flags, r, made, s');
    case Mkdir(path) =>
      var r, made :| MkdirSpec(s, path, r, made, s');
    case _ =>
  }

  /**
   Over every run, a file keeps its contents as long as nobody writes through a
   descriptor bound to it, truncates it by name, or formats the disk.
   */
  lemma {:induction false} NonInterference(states: seq<Abs>, ops: seq<Op>, i: nat, j: nat, n: int)
    requires Run(states, ops) && i <= j < |states| && n in states[i].files
    requires forall k :: i <= k < j ==> !Touches(states[k], ops[k], n)
    ensures n in states[j].files && states[j].files[n] == states[i].files[n]
  {
    hide Next, Touches;
    if i < j {
      NonInterference(states, ops, i, j - 1, n);
      NextKeepsFile(states[j - 1], ops[j - 1], states[j], n);
    }
  }

  /** What was just written reads back, through any descriptor positioned there. */
  lemma WriteThenRead(s: Abs, fd: int, data: seq<byte>, r: int, t: Abs, fd': int, got: Option<seq<byte>>, u: Abs)
    requires AbsOk(s) && WriteSpec(s, fd, data, r, t) && r > 0
    requires ReadSpec(t, fd', r, got, u) && got.Some?
    requires t.fds[fd'].inode == s.fds[fd].inode && t.fds[fd'].pos == WritePos(s, fd)
    ensures got == Some(data[..r])
  {
    var body := t.files[s.fds[fd].inode];
    var pos := WritePos(s, fd);
    assert body[pos..pos + r] == data[..r];
  }
}
