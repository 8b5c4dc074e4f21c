/**
 Paths: their components, how they resolve in a directory tree, and how the two
 walks of the code (full lookup; parent and leaf) relate.
 */
module FsPaths {
  import opened Bytes
  import opened FsLayout
  import opened FsImage

  const SLASH: byte := 47

  /** A C string without its terminator. */
  type CStr = s: seq<byte> | 0 !in s

  /** Directory contents by inode number, as `FsImage.Dirs` gives them. */
  type Tree = map<int, map<Name, int>>

  function SkipSlashes(p: seq<byte>): (q: seq<byte>)
    ensures |q| <= |p|
    ensures q == [] || q[0] != SLASH
  {
    if p != [] && p[0] == SLASH then SkipSlashes(p[1..]) else p
  }

  /** The length of the component at the start of `p`. */
  function HeadLen(p: seq<byte>): (n: nat)
    ensures n <= |p|
    ensures forall k :: 0 <= k < n ==> p[k] != SLASH
    ensures n < |p| ==> p[n] == SLASH
    ensures p != [] && p[0] != SLASH ==> n > 0
  {
    if p == [] || p[0] == SLASH then 0 else 1 + HeadLen(p[1..])
  }

  /** The non-empty pieces between slashes. */
  function Components(p: seq<byte>): (cs: seq<Name>)
    decreases |p|
  {
    var q := SkipSlashes(p);
    if q == [] then [] else [q[..HeadLen(q)]] + Components(q[HeadLen(q)..])
  }

  /** One directory lookup: 0 when `cur` is not a directory or has no such entry. */
  function Child(t: Tree, cur: int, name: Name): (r: int) {
    if cur in t && name in t[cur] then t[cur][name] else 0
  }

  /** The tree with one more entry in directory `d`. */
  function AddName(t: Tree, d: int, name: Name, child: int): (u: Tree) {
    if d in t then t[d := t[d][name := child]] else t
  }

  function Walk(t: Tree, cur: int, cs: seq<Name>): (r: int)
    decreases |cs|
  {
    if cs == [] then cur
    else if Child(t, cur, cs[0]) == 0 then 0
    else Walk(t, Child(t, cur, cs[0]), cs[1..])
  }

  /** The inode a path resolves to from the root, 0 if it does not resolve. */
  function Resolve(t: Tree, path: seq<byte>): (r: int) {
    Walk(t, ROOT, Components(path))
  }

  /** The directory holding the last component, 0 if some earlier component is not a directory. */
  function ParentOf(t: Tree, cur: int, cs: seq<Name>): (r: int)
    requires cs != []
    decreases |cs|
  {
    if |cs| == 1 then cur
    else if Child(t, cur, cs[0]) == 0 || Child(t, cur, cs[0]) !in t then 0
    else ParentOf(t, Child(t, cur, cs[0]), cs[1..])
  }

  predicate ShortNames(cs: seq<Name>) {
    forall k :: 0 <= k < |cs| ==> |cs[k]| <= 55
  }

  /** A path has a parent and a leaf: at least one component, none too long, and the parent exists. */
  predicate Splits(t: Tree, path: seq<byte>) {
    var cs := Components(path);
    cs != [] && ShortNames(cs) && ParentOf(t, ROOT, cs) != 0
  }

  function Parent(t: Tree, path: seq<byte>): (r: int)
    requires Splits(t, path)
  {
    ParentOf(t, ROOT, Components(path))
  }

  function Leaf(t: Tree, path: seq<byte>): (name: Name)
    requires Splits(t, path)
  {
    Components(path)[|Components(path)| - 1]
  }

  lemma {:induction false} SkipTwice(p: seq<byte>)
    ensures SkipSlashes(SkipSlashes(p)) == SkipSlashes(p)
    ensures Components(SkipSlashes(p)) == Components(p)
  {
  }

  /** The first component and what follows it once the slashes are skipped. */
  lemma ComponentsHead(q: seq<byte>)
    requires q != [] && q[0] != SLASH
    ensures Components(q) == [q[..HeadLen(q)]] + Components(SkipSlashes(q[HeadLen(q)..]))
  {
    SkipTwice(q[HeadLen(q)..]);
  }

  predicate ProperName(c: Name) {
    c != [] && 0 !in c
  }

  lemma {:induction false} SkipKeeps(p: seq<byte>)
    requires 0 !in p
    ensures 0 !in SkipSlashes(p)
  {
    if p != [] && p[0] == SLASH {
      SkipKeeps(p[1..]);
    }
  }

  lemma {:induction false} ComponentsProper(p: seq<byte>)
    requires 0 !in p
    ensures forall k :: 0 <= k < |Components(p)| ==> ProperName(Components(p)[k])
    decreases |p|
  {
    hide SkipSlashes, HeadLen;
    var q := SkipSlashes(p);
    if q != [] {
      var n := HeadLen(q);
      SkipKeeps(p);
      assert forall k :: 0 <= k < |q| ==> q[k] != 0;
      ComponentsProper(q[n..]);
      assert ProperName(q[..n]);
    }
  }

  lemma {:induction false} WalkToParent(t: Tree, cur: int, cs: seq<Name>)
    requires cs != [] && ParentOf(t, cur, cs) != 0
    ensures Walk(t, cur, cs) == Child(t, ParentOf(t, cur, cs), cs[|cs| - 1])
    ensures cur in t ==> ParentOf(t, cur, cs) in t
    decreases |cs|
  {
    if |cs| == 1 {
      assert cs[1..] == [];
    } else {
      WalkToParent(t, Child(t, cur, cs[0]), cs[1..]);
    }
  }

  /** The two walks agree: looking up a path is looking up its leaf in its parent. */
  lemma WalksAgree(t: Tree, path: seq<byte>)
    requires Splits(t, path)
    ensures Resolve(t, path) == Child(t, Parent(t, path), Leaf(t, path))
    ensures ROOT in t ==> Parent(t, path) in t
  {
    WalkToParent(t, ROOT, Components(path));
  }

  /** Every directory and every entry of `t` is still there in `u`. */
  ghost predicate Extends(t: Tree, u: Tree) {
    forall d :: d in t ==> d in u && forall name :: name in t[d] ==> name in u[d] && u[d][name] == t[d][name]
  }

  lemma {:induction false} WalkStable(t: Tree, u: Tree, cur: int, cs: seq<Name>)
    requires Extends(t, u) && Walk(t, cur, cs) != 0
    ensures Walk(u, cur, cs) == Walk(t, cur, cs)
    decreases |cs|
  {
    if cs != [] {
      WalkStable(t, u, Child(t, cur, cs[0]), cs[1..]);
    }
  }

  lemma {:induction false} ParentStable(t: Tree, u: Tree, cur: int, cs: seq<Name>)
    requires Extends(t, u) && cs != [] && ParentOf(t, cur, cs) != 0
    ensures ParentOf(u, cur, cs) == ParentOf(t, cur, cs)
    decreases |cs|
  {
    if |cs| > 1 {
      ParentStable(t, u, Child(t, cur, cs[0]), cs[1..]);
    }
  }

  lemma ExtendsTransitive(t: Tree, u: Tree, v: Tree)
    requires Extends(t, u) && Extends(u, v)
    ensures Extends(t, v)
  {
  }

  /** Once the parent has gained the leaf, the path resolves to it. */
  lemma NewPathResolves(t: Tree, u: Tree, path: seq<byte>, n: int)
    requires Splits(t, path) && Extends(t, u)
    requires Child(u, Parent(t, path), Leaf(t, path)) == n
    ensures Resolve(u, path) == n
  {
    ParentStable(t, u, ROOT, Components(path));
    WalksAgree(u, path);
  }

  // ----- what a path means -----

  function Slashes(n: nat): (p: seq<byte>)
    ensures |p| == n && forall k :: 0 <= k < n ==> p[k] == 47
  {
    seq(n, _ => 47)
  }

  /** The names with `gaps[k]` slashes (character 47) before name `k` and the last gap at the end. */
  function Joined(gaps: seq<nat>, names: seq<Name>): (p: seq<byte>)
    requires |gaps| == |names| + 1
    decreases |names|
  {
    if names == [] then Slashes(gaps[0]) else Slashes(gaps[0]) + (names[0] + Joined(gaps[1..], names[1..]))
  }

  /** Names are non-empty and free of slashes, and at least one slash stands between two of them. */
  predicate Joinable(gaps: seq<nat>, names: seq<Name>) {
    && |gaps| == |names| + 1
    && (forall k :: 0 <= k < |names| ==> names[k] != [] && 47 !in names[k])
    && (forall k :: 0 < k < |names| ==> gaps[k] > 0)
  }

  lemma {:induction false} SkipJoined(n: nat, p: seq<byte>)
    requires p == [] || p[0] != SLASH
    ensures SkipSlashes(Slashes(n) + p) == p
  {
    var q := Slashes(n) + p;
    if n == 0 {
      assert q == p;
    } else {
      assert q[1..] == Slashes(n - 1) + p;
      SkipJoined(n - 1, p);
    }
  }

  lemma {:induction false} HeadJoined(name: Name, p: seq<byte>)
    requires SLASH !in name && (p == [] || p[0] == SLASH)
    ensures HeadLen(name + p) == |name|
  {
    var q := name + p;
    if name == [] {
      assert q == p;
    } else {
      assert q[0] == name[0] && q[1..] == name[1..] + p;
      HeadJoined(name[1..], p);
    }
  }

  /** Cutting undoes joining, whatever the number of slashes. */
  lemma {:induction false} CutUndoesJoin(gaps: seq<nat>, names: seq<Name>)
    requires Joinable(gaps, names)
    ensures Components(Joined(gaps, names)) == names
    decreases |names|
  {
    hide SkipSlashes, HeadLen;
    if names == [] {
      SkipJoined(gaps[0], []);
      assert Slashes(gaps[0]) + [] == Slashes(gaps[0]);
    } else {
      var rest := Joined(gaps[1..], names[1..]);
      var q := names[0] + rest;
      CutUndoesJoin(gaps[1..], names[1..]);
      JoinedStart(gaps[1..], names[1..]);
      SkipJoined(gaps[0], q);
      HeadJoined(names[0], rest);
      assert q[..|names[0]|] == names[0] && q[|names[0]|..] == rest;
      assert names == [names[0]] + names[1..];
    }
  }

  lemma JoinedStart(gaps: seq<nat>, names: seq<Name>)
    requires Joinable(gaps, names) && (names != [] ==> gaps[0] > 0)
    ensures Joined(gaps, names) == [] || Joined(gaps, names)[0] == SLASH
  {
  }

  /** Every path is the join of its components, so the components are the only way to cut it. */
  lemma {:induction false} JoinUndoesCut(p: seq<byte>) returns (gaps: seq<nat>)
    ensures Joinable(gaps, Components(p)) && Joined(gaps, Components(p)) == p
    ensures p != [] && p[0] == SLASH ==> gaps[0] > 0
    decreases |p|
  {
    hide HeadLen;
    var q := SkipSlashes(p);
    var n := LeadingSlashes(p);
    if q == [] {
      gaps := [n];
    } else {
      var h := HeadLen(q);
      var rest := JoinUndoesCut(q[h..]);
      gaps := [n] + rest;
      var cs := Components(p);
      assert cs[1..] == Components(q[h..]) && gaps[1..] == rest;
      assert q == q[..h] + q[h..];
      assert SLASH !in q[..h];
    }
  }

  lemma {:induction false} LeadingSlashes(p: seq<byte>) returns (n: nat)
    ensures p == Slashes(n) + SkipSlashes(p)
    ensures p != [] && p[0] == SLASH ==> n > 0
  {
    if p != [] && p[0] == SLASH {
      var m := LeadingSlashes(p[1..]);
      n := m + 1;
      assert p == [SLASH] + p[1..];
    } else {
      n := 0;
    }
  }

  /** Node by node, each name leads from one inode to the next, starting at inode 1. */
  ghost predicate Leads(t: Tree, names: seq<Name>, nodes: seq<int>) {
    && |nodes| == |names| + 1 && nodes[0] == 1
    && forall k :: 0 <= k < |names| ==> nodes[k + 1] == Child(t, nodes[k], names[k]) != 0
  }

  lemma {:induction false} WalkNodes(t: Tree, cur: int, names: seq<Name>) returns (nodes: seq<int>)
    requires Walk(t, cur, names) != 0
    ensures |nodes| == |names| + 1 && nodes[0] == cur && nodes[|names|] == Walk(t, cur, names)
    ensures forall k :: 0 <= k < |names| ==> nodes[k + 1] == Child(t, nodes[k], names[k]) != 0
    decreases |names|
  {
    if names == [] {
      nodes := [cur];
    } else {
      var rest := WalkNodes(t, Child(t, cur, names[0]), names[1..]);
      nodes := [cur] + rest;
      forall k | 0 <= k < |names|
        ensures nodes[k + 1] == Child(t, nodes[k], names[k]) != 0
      {
        if k > 0 { assert names[k] == names[1..][k - 1] && nodes[k] == rest[k - 1] && nodes[k + 1] == rest[k - 1 + 1]; }
      }
    }
  }

  lemma {:induction false} NodesWalk(t: Tree, names: seq<Name>, nodes: seq<int>, k: nat)
    requires Leads(t, names, nodes) && k <= |names|
    ensures Walk(t, nodes[k], names[k..]) == nodes[|names|]
    decreases |names| - k
  {
    if k < |names| {
      NodesWalk(t, names, nodes, k + 1);
      assert names[k..][1..] == names[k + 1..];
    } else {
      assert names[k..] == [];
    }
  }

  /** A path resolves to an inode exactly when its names lead there from the root, one directory entry at a time. */
  lemma PathMeaning(t: Tree, gaps: seq<nat>, names: seq<Name>, n: int)
    requires Joinable(gaps, names) && n != 0
    ensures Resolve(t, Joined(gaps, names)) == n <==> exists nodes :: Leads(t, names, nodes) && nodes[|names|] == n
  {
    CutUndoesJoin(gaps, names);
    if Resolve(t, Joined(gaps, names)) == n {
      var nodes := WalkNodes(t, 1, names);
      assert Leads(t, names, nodes);
    }
    if nodes :| Leads(t, names, nodes) && nodes[|names|] == n {
      NodesWalk(t, names, nodes, 0);
      assert names[0..] == names;
    }
  }

  lemma {:induction false} ParentExactly(t: Tree, cur: int, cs: seq<Name>)
    requires cs != [] && cur != 0
    ensures ParentOf(t, cur, cs) != 0 <==> forall k :: 0 < k < |cs| ==> Walk(t, cur, cs[..k]) != 0 && Walk(t, cur, cs[..k]) in t
    ensures ParentOf(t, cur, cs) != 0 ==> ParentOf(t, cur, cs) == Walk(t, cur, cs[..|cs| - 1])
    decreases |cs|
  {
    if |cs| == 1 {
      assert cs[..0] == [];
    } else {
      var c, rest := Child(t, cur, cs[0]), cs[1..];
      assert cs[..1][0] == cs[0] && cs[..1][1..] == [];
      assert Walk(t, c, cs[..1][1..]) == c;
      assert Walk(t, cur, cs[..1]) == c;
      if c != 0 {
        forall k | 0 < k < |cs|
          ensures Walk(t, cur, cs[..k]) == Walk(t, c, rest[..k - 1])
        {
          assert cs[..k][1..] == rest[..k - 1];
        }
        ParentExactly(t, c, rest);
        if ParentOf(t, c, rest) != 0 && c in t {
          forall k | 0 < k < |cs|
            ensures Walk(t, cur, cs[..k]) != 0 && Walk(t, cur, cs[..k]) in t
          {
            if k > 1 { assert 0 < k - 1 < |rest|; }
          }
        } else if c in t {
          var k :| 0 < k < |rest| && !(Walk(t, c, rest[..k]) != 0 && Walk(t, c, rest[..k]) in t);
          assert rest[..k + 1 - 1] == rest[..k];
          assert !(Walk(t, cur, cs[..k + 1]) != 0 && Walk(t, cur, cs[..k + 1]) in t);
        }
      }
    }
  }

  /**
   A path can be split exactly when it has a name, no name is longer than 55 and
   all names but the last lead through directories; the parent is where they lead.
   */
  lemma SplitMeaning(t: Tree, gaps: seq<nat>, names: seq<Name>)
    requires Joinable(gaps, names)
    ensures var p := Joined(gaps, names);
      && (Splits(t, p) <==>
            && names != [] && (forall k :: 0 <= k < |names| ==> |names[k]| <= 55)
            && forall k :: 0 < k < |names| ==> Walk(t, 1, names[..k]) != 0 && Walk(t, 1, names[..k]) in t)
      && (Splits(t, p) ==> Parent(t, p) == Walk(t, 1, names[..|names| - 1]) && Leaf(t, p) == names[|names| - 1])
  {
    CutUndoesJoin(gaps, names);
    if names != [] { ParentExactly(t, 1, names); }
  }
}
