/**
 Four-level page tables in physical memory, as in 4-level paging of the Intel
 SDM Volume 3A: entry bits, the address walk, and what single edits of the
 tables do to every translation.
 */
module PageTables {
  import opened Bytes
  import opened Bitmaps

  /** 512 entries of 64 bits. */
  type Table = t: seq<u64> | |t| == 512 witness seq(512, _ => 0)
  type Memory = m: seq<Table> | |m| == 16384 witness seq<Table>(16384, _ => NoEntries())

  function NoEntries(): (t: Table)
    ensures forall k :: 0 <= k < 512 ==> t[k] == 0
  {
    seq(512, _ => 0)
  }

  // ----- entries -----

  predicate P(e: u64) { e % 2 == 1 }
  predicate W(e: u64) { e / 2 % 2 == 1 }
  predicate U(e: u64) { e / 4 % 2 == 1 }
  predicate Huge(e: u64) { e / 128 % 2 == 1 }

  const TWO_40 := 0x100_0000_0000

  /** Bits 12..51: the frame of the next table or of the page. */
  function Frame(e: u64): (f: int)
    ensures 0 <= f < TWO_40
  {
    e / 4096 % TWO_40
  }

  /** An entry naming frame `f` with the given low bits. */
  function Entry(f: nat, flags: nat): (e: u64)
    requires f < TWO_40 && flags < 4096
    ensures Frame(e) == f && e % 4096 == flags
  {
    f * 4096 + flags
  }

  /** The low twelve bits decide the flags. */
  lemma Low(e: u64)
    ensures var l := e % 4096; P(e) == P(l) && W(e) == W(l) && U(e) == U(l) && Huge(e) == Huge(l)
  {
    var q, l := e / 4096, e % 4096;
    Even(2048 * q, l);
    assert e / 2 == 2 * (1024 * q) + l / 2;
    Even(1024 * q, l / 2);
    assert e / 4 == 2 * (512 * q) + l / 4;
    Even(512 * q, l / 4);
    assert e / 128 == 2 * (16 * q) + l / 128;
    Even(16 * q, l / 128);
  }

  lemma Even(m: nat, k: nat)
    ensures (2 * m + k) % 2 == k % 2
  {
  }

  /** The flags are bits 0, 1, 2 and 7 of an entry and the frame number is bits 12 to 51. */
  lemma EntryBits(e: u64)
    ensures P(e) <==> BitOf(e, 0)
    ensures W(e) <==> BitOf(e, 1)
    ensures U(e) <==> BitOf(e, 2)
    ensures Huge(e) <==> BitOf(e, 7)
    ensures Frame(e) == e / Pow2(12) % Pow2(40)
  {
    hide BitOf;
    BitIsShiftAndMask(e, 0);
    BitIsShiftAndMask(e, 1);
    BitIsShiftAndMask(e, 2);
    BitIsShiftAndMask(e, 7);
    assert Pow2(0) == 1 && Pow2(1) == 2 && Pow2(2) == 4 && Pow2(4) == 16;
    Pow2Sum(4, 3);
    Pow2Sum(4, 4);
    Pow2Sum(8, 4);
    Pow2Of32();
    Pow2Sum(32, 8);
  }

  // ----- addresses -----

  function I4(va: u64): (i: int) ensures 0 <= i < 512 { va / 0x80_0000_0000 % 512 }
  function I3(va: u64): (i: int) ensures 0 <= i < 512 { va / 0x4000_0000 % 512 }
  function I2(va: u64): (i: int) ensures 0 <= i < 512 { va / 0x20_0000 % 512 }
  function I1(va: u64): (i: int) ensures 0 <= i < 512 { va / 0x1000 % 512 }

  const TWO_36 := 0x10_0000_0000

  /** The 36-bit virtual page number; bits 48 and up of an address are ignored. */
  function Page(va: u64): (p: int) { va / 0x1000 % TWO_36 }

  /** The 27-bit number of the 2 MiB region. */
  function Region(va: u64): (p: int) { va / 0x20_0000 % 0x800_0000 }

  lemma Indices(va: u64)
    ensures Page(va) == I1(va) + 512 * Region(va)
    ensures Region(va) == I2(va) + 512 * I3(va) + 0x4_0000 * I4(va)
  {
    var q := va / 0x1000;
    var r := va / 0x20_0000;
    var s := va / 0x4000_0000;
    var t := va / 0x80_0000_0000;
    assert r == q / 512 && s == r / 512 && t == s / 512;
    SplitOff(q, 0x800_0000);
    SplitOff(r, 0x4_0000);
    SplitOff(s, 512);
  }

  lemma SplitOff(q: nat, m: nat)
    requires m > 0
    ensures q % (512 * m) == q % 512 + 512 * (q / 512 % m)
  {
    var a, b := q / 512, q % 512;
    var c, d := a / m, a % m;
    assert q == 512 * a + b && a == m * c + d;
    Regroup(m, c);
    Remainder(q, 512 * m, c, 512 * d + b);
  }

  lemma Regroup(m: nat, c: nat)
    ensures 512 * (m * c) == 512 * m * c
  {
  }

  lemma Remainder(q: nat, n: nat, c: nat, r: nat)
    requires r < n && q == n * c + r
    ensures q % n == r
  {
    QuotientUnique(q, n, c, r);
    assert q == n * (q / n) + q % n;
  }

  lemma Digits(a: int, b: int, c: int, d: int)
    requires 0 <= a < 512 && 0 <= c < 512
    ensures a + 512 * b == c + 512 * d <==> a == c && b == d
  {
  }

  /** The four indices are the page number, and the upper three the 2 MiB region. */
  lemma SameIndices(va: u64, wa: u64)
    ensures Page(va) == Page(wa) <==> I1(va) == I1(wa) && Region(va) == Region(wa)
    ensures Region(va) == Region(wa) <==> I2(va) == I2(wa) && I3(va) == I3(wa) && I4(va) == I4(wa)
  {
    hide Page, Region, I1, I2, I3, I4;
    Indices(va);
    Indices(wa);
    Digits(I1(va), Region(va), I1(wa), Region(wa));
    Digits(I2(va), I3(va) + 512 * I4(va), I2(wa), I3(wa) + 512 * I4(wa));
    Digits(I3(va), I4(va), I3(wa), I4(wa));
  }

  // ----- the walk -----

  datatype Mapping = Unmapped | Mapped(addr: int, w: bool, u: bool)

  /** The table in frame `f`; -1 stands for no table. */
  function TableAt(m: Memory, f: int): (t: Table) {
    if 0 <= f < 16384 then m[f] else NoEntries()
  }

  function E4(m: Memory, root: int, va: u64): (e: u64) { TableAt(m, root)[I4(va)] }
  function T3(m: Memory, root: int, va: u64): (t: int) { var e := E4(m, root, va); if P(e) then Frame(e) else -1 }
  function E3(m: Memory, root: int, va: u64): (e: u64) { TableAt(m, T3(m, root, va))[I3(va)] }
  function T2(m: Memory, root: int, va: u64): (t: int) {
    var e := E3(m, root, va); if P(e) && !Huge(e) then Frame(e) else -1
  }
  function E2(m: Memory, root: int, va: u64): (e: u64) { TableAt(m, T2(m, root, va))[I2(va)] }
  function T1(m: Memory, root: int, va: u64): (t: int) {
    var e := E2(m, root, va); if P(e) && !Huge(e) then Frame(e) else -1
  }
  function E1(m: Memory, root: int, va: u64): (e: u64) { TableAt(m, T1(m, root, va))[I1(va)] }

  /** Write and user rights are the conjunction over the levels. */
  function Walk(m: Memory, root: int, va: u64): (r: Mapping) {
    var a, b, c, d := E4(m, root, va), E3(m, root, va), E2(m, root, va), E1(m, root, va);
    if P(b) && Huge(b) then Mapped(Frame(b) * 4096 + va % 0x4000_0000, W(a) && W(b), U(a) && U(b))
    else if P(c) && Huge(c) then Mapped(Frame(c) * 4096 + va % 0x20_0000, W(a) && W(b) && W(c), U(a) && U(b) && U(c))
    else if P(d) then Mapped(Frame(d) * 4096 + va % 0x1000, W(a) && W(b) && W(c) && W(d), U(a) && U(b) && U(c) && U(d))
    else Unmapped
  }

  // ----- tree-shaped table sets -----

  /** Which entry of which table points to a table of the given level. */
  datatype Node = Node(level: int, parent: int, idx: int)

  /** The entry of a level-`level` table points to a table. */
  predicate Points(level: int, e: u64) {
    P(e) && !(level == 2 && Huge(e))
  }

  ghost predicate EntryOk(own: map<int, Node>, t: int, i: int, e: u64)
    requires t in own
  {
    && (own[t].level >= 2 && Points(own[t].level, e) ==> Frame(e) in own && own[Frame(e)] == Node(own[t].level - 1, t, i))
    && (own[t].level == 3 && P(e) ==> !Huge(e))
    && (own[t].level == 2 && P(e) && Huge(e) ==> Frame(e) % 512 == 0)
  }

  /**
   The tables form a tree below `root`: each is pointed to from one place, on
   the level above; there are no 1 GiB pages and 2 MiB pages are aligned.
   */
  ghost predicate Tree(m: Memory, root: int, own: map<int, Node>) {
    && root in own && own[root] == Node(4, -1, 0)
    && (forall t :: t in own ==> 0 <= t < 16384 && 1 <= own[t].level <= 4 && (own[t].level == 4 ==> t == root))
    && (forall t, i :: t in own && 0 <= i < 512 ==> EntryOk(own, t, i, m[t][i]))
  }

  /** The tables a walk visits are the ones recorded for its indices. */
  lemma Path(m: Memory, root: int, own: map<int, Node>, va: u64)
    requires Tree(m, root, own)
    ensures var t := T3(m, root, va); t == -1 || (t in own && own[t] == Node(3, root, I4(va)))
    ensures var t := T2(m, root, va); t == -1 || (t in own && own[t] == Node(2, T3(m, root, va), I3(va)))
    ensures var t := T1(m, root, va); t == -1 || (t in own && own[t] == Node(1, T2(m, root, va), I2(va)))
    ensures T3(m, root, va) == -1 ==> T2(m, root, va) == -1
    ensures T2(m, root, va) == -1 ==> T1(m, root, va) == -1
  {
    hide I4, I3, I2, I1, P, Huge, Frame;
    assert EntryOk(own, root, I4(va), m[root][I4(va)]);
    NotPresent();
    var t3 := T3(m, root, va);
    if t3 != -1 {
      assert EntryOk(own, t3, I3(va), m[t3][I3(va)]);
      var t2 := T2(m, root, va);
      if t2 != -1 {
        assert EntryOk(own, t2, I2(va), m[t2][I2(va)]);
      }
    }
  }

  lemma NotPresent()
    ensures !P(0)
  {
  }

  /** A walk that reads the same four entries gives the same result. */
  lemma SameWalk(m: Memory, m': Memory, root: int, va: u64)
    requires TableAt(m', root)[I4(va)] == E4(m, root, va)
    requires TableAt(m', T3(m, root, va))[I3(va)] == E3(m, root, va)
    requires TableAt(m', T2(m, root, va))[I2(va)] == E2(m, root, va)
    requires TableAt(m', T1(m, root, va))[I1(va)] == E1(m, root, va)
    ensures Walk(m', root, va) == Walk(m, root, va)
    ensures T1(m', root, va) == T1(m, root, va) && T2(m', root, va) == T2(m, root, va) && T3(m', root, va) == T3(m, root, va)
  {
    hide I4, I3, I2, I1, P, Huge, Frame, W, U, TableAt;
  }

  /** The walk for `va` reads entry `i` of table `t`. */
  predicate Reads(m: Memory, root: int, va: u64, t: int, i: int) {
    || (t == root && I4(va) == i)
    || (t == T3(m, root, va) && I3(va) == i)
    || (t == T2(m, root, va) && I2(va) == i)
    || (t == T1(m, root, va) && I1(va) == i)
  }

  function SetEntry(m: Memory, t: int, i: int, e: u64): (r: Memory)
    requires 0 <= t < 16384 && 0 <= i < 512
  {
    m[t := m[t][i := e]]
  }

  /** An edit of one entry, possibly together with a table no walk visits, is invisible to walks that do not read it. */
  lemma Elsewhere(m: Memory, root: int, own: map<int, Node>, t: int, i: int, e: u64, f: int, fill: Table, va: u64)
    requires Tree(m, root, own) && t in own && 0 <= i < 512 && 0 <= f < 16384 && f !in own
    requires !Reads(m, root, va, t, i)
    ensures Walk(SetEntry(m[f := fill], t, i, e), root, va) == Walk(m, root, va)
  {
    hide I4, I3, I2, I1, P, Huge, Frame, W, U, Walk, EntryOk;
    Path(m, root, own, va);
    SameWalk(m, SetEntry(m[f := fill], t, i, e), root, va);
  }

  /** Two walks that read the same table at some level took the same way there. */
  lemma SameTable(m: Memory, root: int, own: map<int, Node>, va: u64, wa: u64)
    requires Tree(m, root, own)
    ensures T2(m, root, va) == T2(m, root, wa) != -1 ==> I3(va) == I3(wa) && I4(va) == I4(wa)
    ensures T1(m, root, va) == T1(m, root, wa) != -1 ==> Region(va) == Region(wa)
    ensures Region(va) == Region(wa) ==> T2(m, root, va) == T2(m, root, wa) && T1(m, root, va) == T1(m, root, wa)
  {
    hide I4, I3, I2, I1, P, Huge, Frame, Region, EntryOk, TableAt;
    Path(m, root, own, va);
    Path(m, root, own, wa);
    SameIndices(va, wa);
  }

  // ----- installing an empty table -----

  lemma TreeInstall(m: Memory, root: int, own: map<int, Node>, t: int, i: int, f: int, fill: Table, e: u64)
    requires Tree(m, root, own) && t in own && own[t].level >= 2 && 0 <= i < 512
    requires 0 <= f < 16384 && f !in own && P(e) && !Huge(e) && Frame(e) == f
    requires forall k :: 0 <= k < 512 ==> own[t].level == 2 || fill[k] == 0
    ensures Tree(SetEntry(m[f := fill], t, i, e), root, own[f := Node(own[t].level - 1, t, i)])
  {
    hide P, Huge, Frame;
    NotPresent();
    var m', own' := SetEntry(m[f := fill], t, i, e), own[f := Node(own[t].level - 1, t, i)];
    forall s, k | s in own' && 0 <= k < 512
      ensures EntryOk(own', s, k, m'[s][k])
    {
      if s != f && !(s == t && k == i) {
        assert EntryOk(own, s, k, m[s][k]);
      }
    }
  }

  /** Hanging an empty table into an absent entry changes no translation. */
  lemma InstallKeeps(m: Memory, root: int, own: map<int, Node>, t: int, i: int, f: int, e: u64, va: u64)
    requires Tree(m, root, own) && t in own && own[t].level >= 2 && 0 <= i < 512 && !P(m[t][i])
    requires 0 <= f < 16384 && f !in own && P(e) && !Huge(e) && Frame(e) == f
    ensures Walk(SetEntry(m[f := NoEntries()], t, i, e), root, va) == Walk(m, root, va)
  {
    if Reads(m, root, va, t, i) {
      InstallHere(m, root, own, t, i, f, e, va);
    } else {
      Elsewhere(m, root, own, t, i, e, f, NoEntries(), va);
    }
  }

  lemma InstallHere(m: Memory, root: int, own: map<int, Node>, t: int, i: int, f: int, e: u64, va: u64)
    requires Tree(m, root, own) && t in own && own[t].level >= 2 && 0 <= i < 512 && !P(m[t][i])
    requires 0 <= f < 16384 && f !in own && P(e) && !Huge(e) && Frame(e) == f
    requires Reads(m, root, va, t, i)
    ensures Walk(SetEntry(m[f := NoEntries()], t, i, e), root, va) == Unmapped == Walk(m, root, va)
  {
    hide I4, I3, I2, I1, P, Huge, Frame, W, U, EntryOk;
    Path(m, root, own, va);
    NotPresent();
  }

  // ----- setting a leaf entry -----

  lemma TreeLeaf(m: Memory, root: int, own: map<int, Node>, t: int, i: int, e: u64)
    requires Tree(m, root, own) && t in own && 0 <= i < 512 && (own[t].level == 1 || !P(e))
    ensures Tree(SetEntry(m, t, i, e), root, own)
  {
    hide P, Huge, Frame;
    var m' := SetEntry(m, t, i, e);
    forall s, k | s in own && 0 <= k < 512
      ensures EntryOk(own, s, k, m'[s][k])
    {
      if !(s == t && k == i) {
        assert EntryOk(own, s, k, m[s][k]);
      }
    }
  }

  /** Setting one page-table entry changes the translation of exactly its page. */
  lemma LeafChanges(m: Memory, root: int, own: map<int, Node>, va: u64, e: u64, wa: u64)
    requires Tree(m, root, own) && T1(m, root, va) != -1
    ensures var m' := SetEntry(m, T1(m, root, va), I1(va), e);
      Walk(m', root, wa) == if Page(wa) != Page(va) then Walk(m, root, wa)
                            else if !P(e) then Unmapped
                            else var a, b, c := E4(m, root, va), E3(m, root, va), E2(m, root, va);
                              Mapped(Frame(e) * 4096 + wa % 0x1000, W(a) && W(b) && W(c) && W(e), U(a) && U(b) && U(c) && U(e))
  {
    hide I4, I3, I2, I1, P, Huge, Frame, W, U, EntryOk, Page, Region;
    Path(m, root, own, va);
    var t, i := T1(m, root, va), I1(va);
    var m' := SetEntry(m, t, i, e);
    Path(m, root, own, wa);
    SameTable(m, root, own, va, wa);
    SameIndices(va, wa);
    if Page(wa) != Page(va) {
      SameWalk(m, m', root, wa);
    }
  }

  // ----- dropping a 2 MiB entry -----

  /** Clearing a huge entry unmaps exactly its 2 MiB region. */
  lemma DropChanges(m: Memory, root: int, own: map<int, Node>, va: u64, wa: u64)
    requires Tree(m, root, own) && T2(m, root, va) != -1 && P(E2(m, root, va)) && Huge(E2(m, root, va))
    ensures var m' := SetEntry(m, T2(m, root, va), I2(va), 0);
      Walk(m', root, wa) == if Region(wa) != Region(va) then Walk(m, root, wa) else Unmapped
  {
    hide I4, I3, I2, I1, P, Huge, Frame, W, U, EntryOk, Region;
    Path(m, root, own, va);
    var t, i := T2(m, root, va), I2(va);
    var m' := SetEntry(m, t, i, 0);
    NotPresent();
    Path(m, root, own, wa);
    SameTable(m, root, own, va, wa);
    SameIndices(va, wa);
    if Region(wa) != Region(va) {
      SameWalk(m, m', root, wa);
    }
  }

  // ----- splitting a 2 MiB page -----

  /** The low bits of a huge entry without the huge bit. */
  function SmallFlags(e: u64): (l: nat)
    requires Huge(e)
    ensures l < 4096
  {
    Low(e);
    e % 4096 - 128
  }

  function SplitPte(e: u64, k: nat): (g: u64)
    requires Huge(e) && Frame(e) % 512 == 0 && k < 512
    ensures Frame(g) == Frame(e) + k && g % 4096 == SmallFlags(e)
  {
    Entry(Frame(e) + k, SmallFlags(e))
  }

  /** The 512 entries that cover the same 2 MiB with 4 KiB pages. */
  function SplitTable(e: u64): (t: Table)
    requires Huge(e) && Frame(e) % 512 == 0
    ensures forall k :: 0 <= k < 512 ==> Frame(t[k]) == Frame(e) + k && t[k] % 4096 == SmallFlags(e)
  {
    seq<u64>(512, k requires 0 <= k < 512 => SplitPte(e, k))
  }

  /** Dropping the huge bit keeps the other flags. */
  lemma SmallFlagBits(e: u64, g: u64)
    requires Huge(e) && g % 4096 == SmallFlags(e)
    ensures P(g) == P(e) && W(g) == W(e) && U(g) == U(e) && !Huge(g)
  {
    Low(e);
    Low(g);
    DropHuge(e % 4096);
  }

  lemma DropHuge(l: u64)
    requires l < 4096 && Huge(l)
    ensures 128 <= l && P(l - 128) == P(l) && W(l - 128) == W(l) && U(l - 128) == U(l) && !Huge(l - 128)
  {
    assert (l - 128) / 2 == l / 2 - 64;
    assert (l - 128) / 4 == l / 4 - 32;
    assert (l - 128) / 128 == l / 128 - 1;
  }

  /** The directory entry after a split: present, writable, user as before. */
  function SplitEntry(e: u64, f: int): (g: u64)
    requires 0 <= f < 16384
  {
    Entry(f, if U(e) then 7 else 3)
  }

  lemma SplitEntryBits(e: u64, f: int)
    requires 0 <= f < 16384
    ensures var g := SplitEntry(e, f); P(g) && W(g) && U(g) == U(e) && !Huge(g) && Frame(g) == f
  {
    Low(SplitEntry(e, f));
  }

  lemma OffsetInPage(va: u64)
    ensures va % 0x20_0000 == I1(va) * 0x1000 + va % 0x1000
  {
    var q := va / 0x1000;
    assert va / 0x20_0000 == q / 512;
  }

  /** Splitting keeps the address and the rights of every translation. */
  lemma SplitKeeps(m: Memory, root: int, own: map<int, Node>, va: u64, f: int, wa: u64)
    requires Tree(m, root, own) && T2(m, root, va) != -1 && P(E2(m, root, va)) && Huge(E2(m, root, va))
    requires 0 <= f < 16384 && f !in own && Frame(E2(m, root, va)) % 512 == 0
    ensures var e := E2(m, root, va);
      Walk(SetEntry(m[f := SplitTable(e)], T2(m, root, va), I2(va), SplitEntry(e, f)), root, wa) == Walk(m, root, wa)
  {
    hide I4, I3, I2, P, Huge, W, U, EntryOk, Region, SplitTable, SplitEntry, Frame;
    var t, i, e := T2(m, root, va), I2(va), E2(m, root, va);
    Path(m, root, own, va);
    if Reads(m, root, wa, t, i) {
      Path(m, root, own, wa);
      SplitHere(m, root, own, va, f, wa);
    } else {
      Elsewhere(m, root, own, t, i, SplitEntry(e, f), f, SplitTable(e), wa);
    }
  }

  lemma SplitHere(m: Memory, root: int, own: map<int, Node>, va: u64, f: int, wa: u64)
    requires Tree(m, root, own) && T2(m, root, va) != -1 && P(E2(m, root, va)) && Huge(E2(m, root, va))
    requires 0 <= f < 16384 && f !in own && Frame(E2(m, root, va)) % 512 == 0
    requires T2(m, root, wa) == T2(m, root, va) && I2(wa) == I2(va)
    ensures var e := E2(m, root, va);
      Walk(SetEntry(m[f := SplitTable(e)], T2(m, root, va), I2(va), SplitEntry(e, f)), root, wa) == Walk(m, root, wa)
  {
    hide I4, I3, I2, I1, P, Huge, W, U, EntryOk, SplitTable, SplitEntry, Frame;
    Path(m, root, own, va);
    var t, i, e := T2(m, root, va), I2(va), E2(m, root, va);
    var fill := SplitTable(e);
    var m' := SetEntry(m[f := fill], t, i, SplitEntry(e, f));
    Path(m, root, own, wa);
    SplitEntryBits(e, f);
    SmallFlagBits(e, fill[I1(wa)]);
    OffsetInPage(wa);
    assert T3(m', root, wa) == T3(m, root, wa) && T2(m', root, wa) == t;
    assert E2(m', root, wa) == SplitEntry(e, f) && T1(m', root, wa) == f;
    assert E1(m', root, wa) == fill[I1(wa)];
  }
}
