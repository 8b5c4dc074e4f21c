/**
 The page-table editor: maps and unmaps 4 KiB pages in the four-level tables,
 splitting 2 MiB pages on the way.  Every table and every mapped address is
 identity-mapped, so a table is addressed by its physical frame.
 */
module Vmm {
  import opened Bytes
  import opened Options
  import opened PageTables
  import opened Pmm

  /** No address translates differently. */
  ghost predicate SameTranslations(m: Memory, m': Memory, root: int) {
    forall v: u64 :: Walk(m', root, v) == Walk(m, root, v)
  }

  /** Exactly the page of `va` translates differently: to the frame of `e`, with its rights cut by the path. */
  ghost predicate PageMapped(m: Memory, m': Memory, root: int, va: u64, e: u64) {
    forall v: u64 :: Walk(m', root, v) ==
      if Page(v) != Page(va) then Walk(m, root, v)
      else Mapped(Frame(e) * 4096 + v % 0x1000, PathW(m', root, va) && W(e), PathU(m', root, va) && U(e))
  }

  /** Write and user rights granted by the three upper levels. */
  predicate PathW(m: Memory, root: int, va: u64) {
    W(E4(m, root, va)) && W(E3(m, root, va)) && W(E2(m, root, va))
  }

  predicate PathU(m: Memory, root: int, va: u64) {
    U(E4(m, root, va)) && U(E3(m, root, va)) && U(E2(m, root, va))
  }

  /** The address lies in a 2 MiB page. */
  predicate InHugePage(m: Memory, root: int, va: u64) {
    P(E2(m, root, va)) && Huge(E2(m, root, va))
  }

  /** Public flags to entry bits: present always, write and user as asked. */
  function PteFlags(flags: nat): (l: nat)
    ensures l < 4096
  {
    1 + (if flags / 2 % 2 == 1 then 2 else 0) + (if flags / 8 % 2 == 1 then 4 else 0)
  }

  /** Upper-level tables are always writable; user as asked. */
  function UpperFlags(flags: nat): (l: nat)
    ensures l < 4096
  {
    3 + (if flags / 8 % 2 == 1 then 4 else 0)
  }

  lemma FlagBits(f: nat, flags: nat)
    requires f < TWO_40
    ensures var e := Entry(f, UpperFlags(flags)); P(e) && W(e) && !Huge(e) && (U(e) <==> flags / 8 % 2 == 1)
    ensures var e := Entry(f, PteFlags(flags));
      P(e) && (W(e) <==> flags / 2 % 2 == 1) && (U(e) <==> flags / 8 % 2 == 1)
  {
    hide P, W, U, Huge, Entry;
    Low(Entry(f, UpperFlags(flags)));
    Low(Entry(f, PteFlags(flags)));
    SmallEntries();
  }

  /** The flag bits of the numbers below 8. */
  lemma SmallEntries()
    ensures forall l: u64 :: l in {1, 3, 5, 7} ==> P(l) && !Huge(l) && (W(l) <==> l in {3, 7}) && (U(l) <==> l in {5, 7})
  {
  }

  /** An upper entry that was there keeps its rights; a new one is writable, and for the user as asked. */
  predicate KeptOrNew(e: u64, e': u64, user: bool) {
    if P(e) then W(e') == W(e) && U(e') == U(e) else W(e') && U(e') == user
  }

  /** The rights of the path after a mapping: like `KeptOrNew`, with a split 2 MiB entry writable and for the user as before. */
  ghost predicate PathRights(o: Memory, m: Memory, root: int, va: u64, user: bool) {
    && KeptOrNew(E4(o, root, va), E4(m, root, va), user)
    && KeptOrNew(E3(o, root, va), E3(m, root, va), user)
    && (if InHugePage(o, root, va) then W(E2(m, root, va)) && U(E2(m, root, va)) == U(E2(o, root, va))
        else KeptOrNew(E2(o, root, va), E2(m, root, va), user))
  }

  class PageMapper {
    const pmm: PageAllocator
    const root: int
    var mem: Memory
    ghost var own: map<int, Node>

    ghost predicate Valid()
      reads this, pmm, pmm.bitmap
    {
      pmm.Valid() && Tree(mem, root, own) && forall f :: f in pmm.Free() ==> 0 <= f < 16384 && f !in own
    }

    constructor (pmm: PageAllocator, root: int, mem: Memory, ghost own: map<int, Node>)
      requires pmm.Valid() && Tree(mem, root, own)
      requires forall f :: f in pmm.Free() ==> 0 <= f < 16384 && f !in own
      ensures Valid() && this.pmm == pmm && this.root == root && this.mem == mem && this.own == own
    {
      this.pmm, this.root, this.mem, this.own := pmm, root, mem, own;
    }

    /** The option-valued walk as the code reports it: 0 stands for both "unmapped" and "maps to address 0". */
    method Query(va: u64) returns (r: int)
      ensures r == match Walk(mem, root, va) case Unmapped => 0 case Mapped(a, _, _) => a
    {
      hide W, U, I4, I3, I2, I1;
      var e4 := TableAt(mem, root)[I4(va)];
      if !P(e4) {
        AbsentAbove(mem, root, va);
        return 0;
      }
      var e3 := TableAt(mem, Frame(e4))[I3(va)];
      if !P(e3) {
        AbsentAbove(mem, root, va);
        return 0;
      }
      if Huge(e3) { return Frame(e3) * 4096 + va % 0x4000_0000; }
      var e2 := TableAt(mem, Frame(e3))[I2(va)];
      if !P(e2) {
        AbsentAbove(mem, root, va);
        return 0;
      }
      if Huge(e2) { return Frame(e2) * 4096 + va % 0x20_0000; }
      var e1 := TableAt(mem, Frame(e2))[I1(va)];
      if !P(e1) { return 0; }
      return Frame(e1) * 4096 + va % 0x1000;
    }

    // ----- descending one level -----

    /** A free frame, -1 if there is none. */
    method NewFrame() returns (f: int)
      requires Valid()
      modifies pmm, pmm.bitmap
      ensures Valid()
      ensures f == -1 <==> old(pmm.Free()) == {}
      ensures f == -1 ==> pmm.Free() == old(pmm.Free())
      ensures f != -1 ==> 0 <= f < 16384 && f !in own && pmm.Free() == old(pmm.Free()) - {f}
    {
      hide Tree;
      var page := pmm.AllocPage();
      if page == None { return -1; }
      return page.value / 4096;
    }

    /** The table behind an entry, created empty if absent and a page is free; -1 otherwise. */
    method GetOrCreate(parent: int, idx: int, flags: nat, create: bool) returns (t: int)
      requires Valid() && parent in own && own[parent].level >= 2 && 0 <= idx < 512
      modifies this`mem, this`own, pmm, pmm.bitmap
      ensures Valid() && SameTranslations(old(mem), mem, root) && pmm.Free() <= old(pmm.Free())
      ensures forall s :: s in old(own) ==> s in own && own[s] == old(own)[s]
      ensures P(old(mem)[parent][idx]) ==> t == Frame(old(mem)[parent][idx]) && mem == old(mem) && own == old(own)
      ensures P(old(mem)[parent][idx]) ==> pmm.Free() == old(pmm.Free())
      ensures !P(old(mem)[parent][idx]) && t == -1 ==> mem == old(mem) && own == old(own)
      ensures !P(old(mem)[parent][idx]) && t == -1 ==> !create || old(pmm.Free()) == {}
      ensures !P(old(mem)[parent][idx]) && t != -1 ==>
        && 0 <= t < 16384 && t !in old(own) && t in own && own[t] == Node(own[parent].level - 1, parent, idx)
        && mem == SetEntry(old(mem)[t := NoEntries()], parent, idx, Entry(t, UpperFlags(flags)))
    {
      hide Walk, Tree, P, Huge, Frame, UpperFlags, PteFlags, Entry, SameTranslations, PageAllocator.Valid;
      InTree(mem, root, own, parent);
      NothingChanged(mem, root);
      var entry := mem[parent][idx];
      if P(entry) { return Frame(entry); }
      if !create { return -1; }
      t := NewFrame();
      if t == -1 { return; }
      var table := NoEntries();
      ghost var m := mem;
      FlagBits(t, flags);
      Installed(m, root, own, parent, idx, t, Entry(t, UpperFlags(flags)));
      mem := mem[t := table];
      mem := SetEntry(mem, parent, idx, Entry(t, UpperFlags(flags)));
      own := own[t := Node(own[parent].level - 1, parent, idx)];
    }

    // ----- splitting -----

    /** Replaces a 2 MiB page by 512 small ones, if a page for the table is free; no translation changes. */
    method SplitLargePage(va: u64)
      requires Valid()
      modifies this`mem, this`own, pmm, pmm.bitmap
      ensures Valid() && SameTranslations(old(mem), mem, root) && pmm.Free() <= old(pmm.Free())
      ensures !InHugePage(old(mem), root, va) || old(pmm.Free()) == {} ==>
        mem == old(mem) && own == old(own) && pmm.Free() == old(pmm.Free())
      ensures T2(mem, root, va) == T2(old(mem), root, va)
      ensures InHugePage(mem, root, va) ==> old(pmm.Free()) == {}
      ensures forall s :: s in old(own) ==> s in own && own[s] == old(own)[s]
      ensures InHugePage(old(mem), root, va) && !InHugePage(mem, root, va) ==> P(E2(mem, root, va))
      ensures E4(mem, root, va) == E4(old(mem), root, va) && E3(mem, root, va) == E3(old(mem), root, va)
      ensures InHugePage(old(mem), root, va) && !InHugePage(mem, root, va) ==>
        W(E2(mem, root, va)) && U(E2(mem, root, va)) == U(E2(old(mem), root, va))
    {
      hide Walk, Tree, W, U, I4, I3, I2, I1, SplitTable, SplitEntry, Frame, P, Huge, SameTranslations, PageAllocator.Valid;
      NothingChanged(mem, root);
      var e4 := TableAt(mem, root)[I4(va)];
      AbsentTables(mem, root, va);
      if !P(e4) { return; }
      var e3 := TableAt(mem, Frame(e4))[I3(va)];
      if !P(e3) { return; }
      NoGiantPage(mem, root, own, va);
      var e2 := TableAt(mem, Frame(e3))[I2(va)];
      if !P(e2) || !Huge(e2) { return; }
      var f := NewFrame();
      if f == -1 { return; }
      ghost var m := mem;
      SplitDone(m, root, own, va, f);
      var t2 := Frame(e3);
      mem := mem[f := SplitTable(e2)];
      mem := SetEntry(mem, t2, I2(va), SplitEntry(e2, f));
      own := own[f := Node(1, t2, I2(va))];
    }

    // ----- mapping -----

    /** The page directory for `va`, created if needed; -1 when no page is left. */
    method Directory(va: u64, flags: nat) returns (t2: int)
      requires Valid()
      modifies this`mem, this`own, pmm, pmm.bitmap
      ensures Valid() && SameTranslations(old(mem), mem, root) && pmm.Free() <= old(pmm.Free())
      ensures t2 == -1 ==> pmm.Free() == {}
      ensures t2 != -1 ==> t2 == T2(mem, root, va) && t2 in own && own[t2].level == 2
      ensures InHugePage(old(mem), root, va) ==> t2 != -1 && mem == old(mem) && own == old(own) && pmm.Free() == old(pmm.Free())
      ensures !InHugePage(old(mem), root, va) && t2 != -1 ==> !InHugePage(mem, root, va)
      ensures t2 != -1 ==> KeptOrNew(E4(old(mem), root, va), E4(mem, root, va), flags / 8 % 2 == 1)
      ensures t2 != -1 ==> KeptOrNew(E3(old(mem), root, va), E3(mem, root, va), flags / 8 % 2 == 1)
      ensures t2 != -1 ==> E2(mem, root, va) == E2(old(mem), root, va) || (!P(E2(mem, root, va)) && !P(E2(old(mem), root, va)))
    {
      hide Walk, Tree, W, U, I4, I3, I2, I1, Frame, P, Huge, SetEntry, PageAllocator.Valid;
      InTree(mem, root, own, root);
      AbsentTables(mem, root, va);
      NoGiantPage(mem, root, own, va);
      Path(mem, root, own, va);
      ghost var m := mem;
      var t3 := GetOrCreate(root, I4(va), flags, true);
      if t3 == -1 { return -1; }
      FirstLevel(m, mem, root, own, va, t3, flags);
      ghost var n := mem;
      t2 := GetOrCreate(t3, I3(va), flags, true);
      if t2 == -1 { return -1; }
      SecondLevel(n, mem, root, own, va, t3, t2, flags);
      NoGiantPage(mem, root, own, va);
    }

    /** Nothing can be mapped inside a 2 MiB page once no page is left for the split. */
    ghost predicate Starved(va: u64)
      reads this, pmm, pmm.bitmap
    {
      InHugePage(mem, root, va) && pmm.Free() == {}
    }

    /** The first frame of the 2 MiB page is no table above the page tables. */
    ghost predicate PlainFrame(va: u64)
      reads this
    {
      Frame(E2(mem, root, va)) in own ==> own[Frame(E2(mem, root, va))].level == 1
    }

    /**
     Maps one page.  With `Starved` the code does not notice that the split
     failed and stores the entry into the first frame of the 2 MiB page itself.
     */
    method MapPage(va: u64, pa: u64, flags: nat) returns (ok: bool)
      requires Valid()
      modifies this`mem, this`own, pmm, pmm.bitmap
      ensures va % 4096 != 0 || pa % 4096 != 0 ==> !ok && mem == old(mem)
      ensures !ok ==> Valid() && SameTranslations(old(mem), mem, root)
      ensures !ok && va % 4096 == 0 && pa % 4096 == 0 ==> pmm.Free() == {}
      ensures ok && !old(Starved(va)) ==>
        Valid() && PageMapped(old(mem), mem, root, va, Entry(Frame(pa), PteFlags(flags)))
      ensures ok && !old(Starved(va)) && pa < 0x10_0000_0000_0000 ==>
        Walk(mem, root, va) == Mapped(pa, PathW(mem, root, va) && flags / 2 % 2 == 1, PathU(mem, root, va) && flags / 8 % 2 == 1)
      ensures ok && !old(Starved(va)) ==> PathRights(old(mem), mem, root, va, flags / 8 % 2 == 1)
      ensures va % 4096 == 0 && pa % 4096 == 0 && old(Starved(va)) ==>
        ok && mem == Stray(old(mem), root, va, Entry(Frame(pa), PteFlags(flags)))
      ensures va % 4096 == 0 && pa % 4096 == 0 && old(Starved(va)) && old(PlainFrame(va)) ==>
        (PageMapped(old(mem), mem, root, va, Entry(Frame(pa), PteFlags(flags))) <==>
          Harmless(old(mem), root, va, Entry(Frame(pa), PteFlags(flags))))
    {
      hide Walk, Tree, W, U, I4, I3, I2, I1, Frame, P, Huge, SetEntry, PageAllocator.Valid, PageMapped, Harmless;
      if va % 4096 != 0 { return false; }
      if pa % 4096 != 0 { return false; }
      var t2 := Directory(va, flags);
      if t2 == -1 { return false; }
      var t1 := LeafTable(va, t2, flags);
      if t1 == -1 { return false; }
      var e := Entry(Frame(pa), PteFlags(flags));
      if !old(Starved(va)) {
        FlagBits(Frame(pa), flags);
        LeafMapped(old(mem), mem, root, own, va, e);
        MappedAddress(old(mem), Poke(mem, t1, I1(va), e), root, va, pa, e);
        LeafKeepsPath(mem, root, own, va, e);
      }
      if old(Starved(va)) {
        if old(PlainFrame(va)) { StarvedExactly(old(mem), root, old(own), va, e); }
      }
      mem := Poke(mem, t1, I1(va), e);
      return true;
    }

    /** The page table for `va` below its directory, after splitting a 2 MiB page in the way. */
    method LeafTable(va: u64, t2: int, flags: nat) returns (t1: int)
      requires Valid() && t2 == T2(mem, root, va) && t2 in own && own[t2].level == 2
      modifies this`mem, this`own, pmm, pmm.bitmap
      ensures Valid() && SameTranslations(old(mem), mem, root)
      ensures t1 == -1 ==> pmm.Free() == {}
      ensures !old(Starved(va)) && t1 != -1 ==> t1 == T1(mem, root, va)
      ensures old(Starved(va)) ==> mem == old(mem) && t1 == Frame(E2(mem, root, va))
      ensures !old(Starved(va)) && t1 != -1 ==> PathRights(old(mem), mem, root, va, flags / 8 % 2 == 1)
      ensures !old(Starved(va)) && t1 != -1 ==> E4(mem, root, va) == E4(old(mem), root, va) && E3(mem, root, va) == E3(old(mem), root, va)
    {
      hide Walk, Tree, W, U, I4, I3, I2, I1, Frame, P, Huge, SetEntry, TableAt, PageAllocator.Valid;
      InTree(mem, root, own, t2);
      EntryRead(mem, root, own, va);
      var pde := mem[t2][I2(va)];
      if P(pde) && Huge(pde) {
        SplitLargePage(va);
      }
      ghost var b := mem;
      EntryRead(mem, root, own, va);
      t1 := GetOrCreate(t2, I2(va), flags, true);
      if t1 != -1 && !old(Starved(va)) {
        ThirdLevel(b, mem, root, own, va, t2, t1, flags);
        Path(old(mem), root, old(own), va);
        assert P(E4(old(mem), root, va)) && P(E3(old(mem), root, va));
      }
    }

    /** Removes the 4 KiB page, or the whole 2 MiB page, covering the address. */
    method UnmapPage(va: u64) returns (ok: bool)
      requires Valid()
      modifies this`mem
      ensures Valid()
      ensures !ok ==> mem == old(mem)
      ensures ok == (Walk(old(mem), root, va) != Unmapped)
      ensures ok && !InHugePage(old(mem), root, va) ==>
        forall v: u64 :: Walk(mem, root, v) == if Page(v) == Page(va) then Unmapped else Walk(old(mem), root, v)
      ensures ok && InHugePage(old(mem), root, va) ==>
        forall v: u64 :: Walk(mem, root, v) == if Region(v) == Region(va) then Unmapped else Walk(old(mem), root, v)
    {
      hide Tree, W, U, I4, I3, I2, I1, Frame, P, Huge, SetEntry, Page, Region;
      AbsentTables(mem, root, va);
      NoGiantPage(mem, root, own, va);
      var e4 := TableAt(mem, root)[I4(va)];
      if !P(e4) {
        AbsentAbove(mem, root, va);
        return false;
      }
      var e3 := TableAt(mem, Frame(e4))[I3(va)];
      if !P(e3) {
        AbsentAbove(mem, root, va);
        return false;
      }
      var t2 := Frame(e3);
      var e2 := TableAt(mem, t2)[I2(va)];
      if !P(e2) {
        AbsentAbove(mem, root, va);
        return false;
      }
      if Huge(e2) {
        Dropped(mem, root, own, va);
        mem := SetEntry(mem, t2, I2(va), 0);
        return true;
      }
      var t1 := Frame(e2);
      if !P(TableAt(mem, t1)[I1(va)]) { return false; }
      Cleared(mem, root, own, va);
      mem := SetEntry(mem, t1, I1(va), 0);
      return true;
    }
  }

  /** Below an absent entry there is nothing. */
  lemma AbsentAbove(m: Memory, root: int, va: u64)
    requires !P(E4(m, root, va)) || !P(E3(m, root, va)) || (!Huge(E3(m, root, va)) && !P(E2(m, root, va)))
    ensures Walk(m, root, va) == Unmapped
  {
    hide W, U, I4, I3, I2, I1, Frame, P, Huge;
    NotPresent();
  }

  lemma AbsentTables(m: Memory, root: int, va: u64)
    ensures !P(E4(m, root, va)) || !P(E3(m, root, va)) ==> !P(E2(m, root, va)) && !InHugePage(m, root, va)
  {
    hide W, U, I4, I3, I2, I1, Frame, P, Huge;
    NotPresent();
  }

  lemma NoGiantPage(m: Memory, root: int, own: map<int, Node>, va: u64)
    requires Tree(m, root, own)
    ensures P(E3(m, root, va)) ==> !Huge(E3(m, root, va)) && T2(m, root, va) == Frame(E3(m, root, va))
    ensures T2(m, root, va) != -1 ==> T2(m, root, va) in own && own[T2(m, root, va)].level == 2
    ensures InHugePage(m, root, va) ==> T2(m, root, va) != -1 && Frame(E2(m, root, va)) % 512 == 0
  {
    hide W, U, I4, I3, I2, I1, Frame, P, Huge;
    NotPresent();
    Path(m, root, own, va);
    var t3, t2 := T3(m, root, va), T2(m, root, va);
    if t3 != -1 { assert EntryOk(own, t3, I3(va), m[t3][I3(va)]); }
    if t2 != -1 { assert EntryOk(own, t2, I2(va), m[t2][I2(va)]); }
  }

  lemma SplitDone(m: Memory, root: int, own: map<int, Node>, va: u64, f: int)
    requires Tree(m, root, own) && InHugePage(m, root, va) && 0 <= f < 16384 && f !in own
    ensures T2(m, root, va) != -1 && 0 <= T2(m, root, va) < 16384 && Frame(E2(m, root, va)) % 512 == 0
    ensures var t2, e := T2(m, root, va), E2(m, root, va);
      var m' := SetEntry(m[f := SplitTable(e)], t2, I2(va), SplitEntry(e, f));
      && Tree(m', root, own[f := Node(1, t2, I2(va))]) && SameTranslations(m, m', root)
      && T2(m', root, va) == t2 && P(E2(m', root, va)) && !Huge(E2(m', root, va))
      && E4(m', root, va) == E4(m, root, va) && E3(m', root, va) == E3(m, root, va)
      && W(E2(m', root, va)) && U(E2(m', root, va)) == U(e)
  {
    hide W, U, I4, I3, I2, I1, Frame, P, Huge, SplitTable, SplitEntry, EntryOk, Walk;
    NoGiantPage(m, root, own, va);
    Path(m, root, own, va);
    var t2, e := T2(m, root, va), E2(m, root, va);
    var m' := SetEntry(m[f := SplitTable(e)], t2, I2(va), SplitEntry(e, f));
    SplitEntryBits(e, f);
    TreeInstall(m, root, own, t2, I2(va), f, SplitTable(e), SplitEntry(e, f));
    forall v: u64
      ensures Walk(m', root, v) == Walk(m, root, v)
    {
      SplitKeeps(m, root, own, va, f, v);
    }
  }

  /** Reading the directory entry through its table. */
  lemma EntryRead(m: Memory, root: int, own: map<int, Node>, va: u64)
    requires Tree(m, root, own)
    ensures var t2 := T2(m, root, va);
      t2 != -1 ==> 0 <= t2 < 16384 && m[t2][I2(va)] == E2(m, root, va) && t2 != root && t2 != T3(m, root, va)
    ensures T3(m, root, va) in own || T3(m, root, va) == -1
    ensures root in own
  {
    hide I4, I3, I2, I1, P, Huge, Frame, EntryOk;
    Path(m, root, own, va);
  }

  lemma NothingChanged(m: Memory, root: int)
    ensures SameTranslations(m, m, root)
  {
  }

  /** A store through a table pointer; addresses outside the modelled memory are not tracked. */
  function Poke(m: Memory, f: int, i: int, e: u64): (r: Memory)
    requires 0 <= i < 512
  {
    if 0 <= f < 16384 then SetEntry(m, f, i, e) else m
  }

  lemma FirstLevel(m: Memory, n: Memory, root: int, own: map<int, Node>, va: u64, t3: int, flags: nat)
    requires Tree(n, root, own) && 0 <= root < 16384 && t3 != -1
    requires P(m[root][I4(va)]) ==> t3 == Frame(m[root][I4(va)]) && n == m
    requires !P(m[root][I4(va)]) ==>
      0 <= t3 < 16384 && n == SetEntry(m[t3 := NoEntries()], root, I4(va), Entry(t3, UpperFlags(flags)))
    ensures T3(n, root, va) == t3 && t3 in own && own[t3].level == 3
    ensures 0 <= t3 < 16384
    ensures !P(m[root][I4(va)]) ==> !P(n[t3][I3(va)])
    ensures KeptOrNew(E4(m, root, va), E4(n, root, va), flags / 8 % 2 == 1)
    ensures E3(n, root, va) == n[t3][I3(va)] && (n == m || (!P(E3(m, root, va)) && !P(E3(n, root, va))))
    ensures n == m || (!P(E2(m, root, va)) && !P(E2(n, root, va)))
  {
    hide W, U, I4, I3, I2, I1, P, Huge, EntryOk, UpperFlags, Frame;
    NotPresent();
    if !P(m[root][I4(va)]) {
      FlagBits(t3, flags);
    }
    Path(n, root, own, va);
  }

  lemma SecondLevel(m: Memory, n: Memory, root: int, own: map<int, Node>, va: u64, t3: int, t2: int, flags: nat)
    requires Tree(n, root, own) && 0 <= t3 < 16384 && t2 != -1
    requires T3(m, root, va) == t3 && t3 in own && own[t3].level == 3
    requires P(m[t3][I3(va)]) ==> t2 == Frame(m[t3][I3(va)]) && n == m
    requires !P(m[t3][I3(va)]) ==>
      0 <= t2 < 16384 && t2 != root && t2 != t3 && n == SetEntry(m[t2 := NoEntries()], t3, I3(va), Entry(t2, UpperFlags(flags)))
    ensures T2(n, root, va) == t2
    ensures !P(m[t3][I3(va)]) ==> !InHugePage(n, root, va)
    ensures E4(n, root, va) == E4(m, root, va) && KeptOrNew(E3(m, root, va), E3(n, root, va), flags / 8 % 2 == 1)
    ensures n == m || (!P(E2(m, root, va)) && !P(E2(n, root, va)))
  {
    hide W, U, I4, I3, I2, I1, P, Huge, EntryOk, UpperFlags, Frame;
    NotPresent();
    if !P(m[t3][I3(va)]) {
      FlagBits(t2, flags);
    } else {
      NoGiantPage(n, root, own, va);
    }
  }

  lemma ThirdLevel(m: Memory, n: Memory, root: int, own: map<int, Node>, va: u64, t2: int, t1: int, flags: nat)
    requires Tree(n, root, own) && 0 <= t2 < 16384 && t1 != -1
    requires T2(m, root, va) == t2 && t2 in own && own[t2].level == 2 && !InHugePage(m, root, va)
    requires P(m[t2][I2(va)]) ==> t1 == Frame(m[t2][I2(va)]) && n == m
    requires !P(m[t2][I2(va)]) ==>
      0 <= t1 < 16384 && t1 != root && t1 != t2 && t1 != T3(m, root, va) && n == SetEntry(m[t1 := NoEntries()], t2, I2(va), Entry(t1, UpperFlags(flags)))
    requires t2 != root && t2 != T3(m, root, va)
    ensures T1(n, root, va) == t1
    ensures E4(n, root, va) == E4(m, root, va) && E3(n, root, va) == E3(m, root, va)
    ensures KeptOrNew(E2(m, root, va), E2(n, root, va), flags / 8 % 2 == 1)
  {
    hide W, U, I4, I3, I2, I1, P, Huge, EntryOk, UpperFlags, Frame;
    if !P(m[t2][I2(va)]) {
      FlagBits(t1, flags);
    }
  }

  /** Storing the leaf leaves the three upper entries alone. */
  lemma LeafKeepsPath(m: Memory, root: int, own: map<int, Node>, va: u64, e: u64)
    requires Tree(m, root, own) && T1(m, root, va) != -1
    ensures var m' := Poke(m, T1(m, root, va), I1(va), e);
      E4(m', root, va) == E4(m, root, va) && E3(m', root, va) == E3(m, root, va) && E2(m', root, va) == E2(m, root, va)
  {
    hide W, U, I4, I3, I2, I1, P, Huge, EntryOk, Frame, Walk;
    Path(m, root, own, va);
  }

  /** Storing the leaf maps exactly the page. */
  lemma LeafMapped(o: Memory, m: Memory, root: int, own: map<int, Node>, va: u64, e: u64)
    requires Tree(m, root, own) && T1(m, root, va) != -1 && P(e) && SameTranslations(o, m, root)
    ensures 0 <= T1(m, root, va) < 16384
    ensures var m' := SetEntry(m, T1(m, root, va), I1(va), e);
      Tree(m', root, own) && PageMapped(o, m', root, va, e)
  {
    hide W, U, I4, I3, I2, I1, P, Huge, EntryOk, Frame, Walk, Page;
    Path(m, root, own, va);
    var t := T1(m, root, va);
    var m' := SetEntry(m, t, I1(va), e);
    TreeLeaf(m, root, own, t, I1(va), e);
    forall v: u64
      ensures Walk(m', root, v) ==
        if Page(v) != Page(va) then Walk(o, root, v)
        else Mapped(Frame(e) * 4096 + v % 0x1000, PathW(m', root, va) && W(e), PathU(m', root, va) && U(e))
    {
      LeafChanges(m, root, own, va, e, v);
    }
  }

  /** The address asked for is the one the page translates to. */
  lemma MappedAddress(m: Memory, m': Memory, root: int, va: u64, pa: u64, e: u64)
    requires PageMapped(m, m', root, va, e) && va % 4096 == 0 && pa % 4096 == 0 && Frame(e) == Frame(pa)
    ensures pa < 0x10_0000_0000_0000 ==>
      Walk(m', root, va) == Mapped(pa, PathW(m', root, va) && W(e), PathU(m', root, va) && U(e))
  {
    hide Walk, W, U;
    if pa < 0x10_0000_0000_0000 {
      assert Frame(pa) * 4096 == pa;
    }
  }

  lemma Cleared(m: Memory, root: int, own: map<int, Node>, va: u64)
    requires Tree(m, root, own) && T1(m, root, va) != -1
    ensures 0 <= T1(m, root, va) < 16384
    ensures var m' := SetEntry(m, T1(m, root, va), I1(va), 0);
      && Tree(m', root, own)
      && forall v: u64 :: Walk(m', root, v) == if Page(v) == Page(va) then Unmapped else Walk(m, root, v)
  {
    hide W, U, I4, I3, I2, I1, P, Huge, EntryOk, Frame, Walk, Page;
    NotPresent();
    Path(m, root, own, va);
    TreeLeaf(m, root, own, T1(m, root, va), I1(va), 0);
    forall v: u64
      ensures Walk(SetEntry(m, T1(m, root, va), I1(va), 0), root, v)
           == if Page(v) == Page(va) then Unmapped else Walk(m, root, v)
    {
      LeafChanges(m, root, own, va, 0, v);
    }
  }

  lemma Dropped(m: Memory, root: int, own: map<int, Node>, va: u64)
    requires Tree(m, root, own) && InHugePage(m, root, va)
    ensures 0 <= T2(m, root, va) < 16384
    ensures var m' := SetEntry(m, T2(m, root, va), I2(va), 0);
      && Tree(m', root, own)
      && forall v: u64 :: Walk(m', root, v) == if Region(v) == Region(va) then Unmapped else Walk(m, root, v)
  {
    hide W, U, I4, I3, I2, I1, P, Huge, EntryOk, Frame, Walk, Region;
    NotPresent();
    NoGiantPage(m, root, own, va);
    Path(m, root, own, va);
    TreeLeaf(m, root, own, T2(m, root, va), I2(va), 0);
    forall v: u64
      ensures Walk(SetEntry(m, T2(m, root, va), I2(va), 0), root, v)
           == if Region(v) == Region(va) then Unmapped else Walk(m, root, v)
    {
      DropChanges(m, root, own, va, v);
    }
  }

  lemma InTree(m: Memory, root: int, own: map<int, Node>, t: int)
    requires Tree(m, root, own)
    ensures root in own && own[root].level == 4
    ensures t in own ==> 0 <= t < 16384
  {
  }

  lemma Installed(m: Memory, root: int, own: map<int, Node>, t: int, i: int, f: int, e: u64)
    requires Tree(m, root, own) && t in own && own[t].level >= 2 && 0 <= i < 512 && !P(m[t][i])
    requires 0 <= f < 16384 && f !in own && P(e) && !Huge(e) && Frame(e) == f
    ensures var m' := SetEntry(m[f := NoEntries()], t, i, e);
      Tree(m', root, own[f := Node(own[t].level - 1, t, i)]) && SameTranslations(m, m', root)
  {
    hide Walk, EntryOk, Frame, P, Huge;
    TreeInstall(m, root, own, t, i, f, NoEntries(), e);
    forall v: u64
      ensures Walk(SetEntry(m[f := NoEntries()], t, i, e), root, v) == Walk(m, root, v)
    {
      InstallKeeps(m, root, own, t, i, f, e, v);
    }
  }

  // ----- mapping inside a 2 MiB page with no page left -----

  /** What every address of a 2 MiB page translates to. */
  lemma HugeWalk(m: Memory, root: int, own: map<int, Node>, va: u64, v: u64)
    requires Tree(m, root, own) && InHugePage(m, root, va) && Page(v) == Page(va)
    ensures Walk(m, root, v)
         == Mapped((Frame(E2(m, root, va)) + I1(va)) * 4096 + v % 0x1000, PathW(m, root, va), PathU(m, root, va))
  {
    hide W, U, I4, I3, I2, I1, P, Huge, Frame, EntryOk, Page, Region;
    NoGiantPage(m, root, own, va);
    NotPresent();
    SameIndices(v, va);
    OffsetInPage(v);
  }

  /** The entry asks for what the 2 MiB page already gives. */
  predicate AlreadyGiven(m: Memory, root: int, va: u64, e: u64) {
    && Frame(e) == Frame(E2(m, root, va)) + I1(va)
    && (PathW(m, root, va) ==> W(e)) && (PathU(m, root, va) ==> U(e))
  }

  /** Storing `e` over the page-table entry of `w` changes nothing an address of its page can tell. */
  predicate SameLeaf(m: Memory, root: int, w: u64, e: u64) {
    var o := E1(m, root, w);
    && P(o) == P(e)
    && (P(e) ==> Frame(o) == Frame(e) && (PathW(m, root, w) ==> W(o) == W(e)) && (PathU(m, root, w) ==> U(o) == U(e)))
  }

  /**
   The stray entry is harmless: it asks for what the 2 MiB page gives, and a page
   whose page-table entry it overwrites keeps its frame and rights.
   */
  ghost predicate Harmless(m: Memory, root: int, va: u64, e: u64) {
    && AlreadyGiven(m, root, va, e)
    && forall w: u64 :: T1(m, root, w) == Frame(E2(m, root, va)) && I1(w) == I1(va) ==> SameLeaf(m, root, w, e)
  }

  /** The memory after the store that follows a split without a free page. */
  function Stray(m: Memory, root: int, va: u64, e: u64): (r: Memory) {
    Poke(m, Frame(E2(m, root, va)), I1(va), e)
  }

  /** Walks that do not read the overwritten entry are not affected. */
  lemma StrayElsewhere(m: Memory, root: int, own: map<int, Node>, va: u64, e: u64, v: u64)
    requires Tree(m, root, own) && !Reads(m, root, v, Frame(E2(m, root, va)), I1(va))
    ensures Walk(Stray(m, root, va, e), root, v) == Walk(m, root, v)
    ensures PathW(Stray(m, root, va, e), root, v) == PathW(m, root, v)
    ensures PathU(Stray(m, root, va, e), root, v) == PathU(m, root, v)
  {
    hide W, U, I4, I3, I2, I1, P, Huge, Frame, EntryOk, Walk;
    Path(m, root, own, v);
    SameWalk(m, Stray(m, root, va, e), root, v);
  }

  /** If the walk for `va` itself is not affected, its page is mapped as asked only if it was before. */
  lemma AskedAtVa(m: Memory, root: int, own: map<int, Node>, va: u64, e: u64)
    requires Tree(m, root, own) && InHugePage(m, root, va) && !Reads(m, root, va, Frame(E2(m, root, va)), I1(va))
    ensures var m' := Stray(m, root, va, e);
      && (AlreadyGiven(m, root, va, e) <==>
          forall v: u64 :: Page(v) == Page(va) ==>
            Walk(m', root, v) == Mapped(Frame(e) * 4096 + v % 0x1000, PathW(m', root, va) && W(e), PathU(m', root, va) && U(e)))
  {
    hide W, U, I4, I3, I2, I1, P, Huge, Frame, EntryOk, Page, Walk, Stray, Reads;
    var m' := Stray(m, root, va, e);
    StrayElsewhere(m, root, own, va, e, va);
    HugeWalk(m, root, own, va, va);
    forall v: u64 | Page(v) == Page(va)
      ensures Walk(m', root, v)
           == Mapped((Frame(E2(m, root, va)) + I1(va)) * 4096 + v % 0x1000, PathW(m, root, va), PathU(m, root, va))
    {
      HugeWalk(m, root, own, va, v);
      SameReads(m, root, own, va, v, Frame(E2(m, root, va)), I1(va));
      StrayElsewhere(m, root, own, va, e, v);
    }
  }

  /** Addresses of one page read the same entries. */
  lemma SameReads(m: Memory, root: int, own: map<int, Node>, va: u64, v: u64, t: int, i: int)
    requires Page(v) == Page(va)
    ensures Reads(m, root, v, t, i) == Reads(m, root, va, t, i)
  {
    hide P, Huge, Frame, Page, Region, I4, I3, I2, I1;
    SameIndices(v, va);
  }

  /** Only a page-table entry of another page can be overwritten when the frame is no upper table. */
  lemma OnlyLeaves(m: Memory, root: int, own: map<int, Node>, va: u64, v: u64)
    requires Tree(m, root, own) && InHugePage(m, root, va)
    requires Frame(E2(m, root, va)) in own ==> own[Frame(E2(m, root, va))].level == 1
    ensures Reads(m, root, v, Frame(E2(m, root, va)), I1(va)) <==> T1(m, root, v) == Frame(E2(m, root, va)) && I1(v) == I1(va)
    ensures T1(m, root, va) == -1
  {
    hide W, U, I4, I3, I2, I1, P, Huge, Frame, EntryOk, Walk;
    Path(m, root, own, v);
  }

  /** What page-table entry `e` below the upper entries of `w` gives address `v`. */
  function LeafOf(m: Memory, root: int, w: u64, e: u64, v: u64): (r: Mapping) {
    if P(e) then Mapped(Frame(e) * 4096 + v % 0x1000, PathW(m, root, w) && W(e), PathU(m, root, w) && U(e)) else Unmapped
  }

  /** A page whose page-table entry is overwritten keeps its translation exactly when the two entries agree. */
  lemma LeafOverwritten(m: Memory, root: int, own: map<int, Node>, va: u64, e: u64, w: u64)
    requires Tree(m, root, own) && T1(m, root, w) == Frame(E2(m, root, va)) && I1(w) == I1(va)
    ensures var m' := Stray(m, root, va, e);
      && (forall v: u64 :: Page(v) == Page(w) ==> Walk(m', root, v) == LeafOf(m, root, w, e, v))
      && (SameLeaf(m, root, w, e) <==> Walk(m', root, w) == Walk(m, root, w))
      && (SameLeaf(m, root, w, e) ==> forall v: u64 :: Page(v) == Page(w) ==> Walk(m', root, v) == Walk(m, root, v))
  {
    hide W, U, I4, I3, I2, I1, P, Huge, Frame, EntryOk, Page, Walk;
    Path(m, root, own, w);
    SmallWalk(m, root, own, w, w);
    LeafChanges(m, root, own, w, e, w);
    forall v: u64 | Page(v) == Page(w)
      ensures Walk(Stray(m, root, va, e), root, v) == LeafOf(m, root, w, e, v)
      ensures SameLeaf(m, root, w, e) ==> Walk(Stray(m, root, va, e), root, v) == Walk(m, root, v)
    {
      LeafChanges(m, root, own, w, e, v);
      SmallWalk(m, root, own, w, v);
    }
  }

  /** What every address of a 4 KiB page translates to. */
  lemma SmallWalk(m: Memory, root: int, own: map<int, Node>, w: u64, v: u64)
    requires Tree(m, root, own) && T1(m, root, w) != -1 && Page(v) == Page(w)
    ensures Walk(m, root, v) == LeafOf(m, root, w, E1(m, root, w), v)
  {
    hide W, U, I4, I3, I2, I1, P, Huge, Frame, EntryOk, Page, Region;
    SameIndices(v, w);
    NotPresent();
    Path(m, root, own, w);
    NoGiantPage(m, root, own, w);
  }

  /**
   When the split finds no page, `MapPage` still reports success and stores the
   entry into the first frame of the 2 MiB page.  If that frame is no table, or a
   page table, the page is mapped as asked exactly when the entry is harmless.
   */
  lemma StarvedExactly(m: Memory, root: int, own: map<int, Node>, va: u64, e: u64)
    requires Tree(m, root, own) && InHugePage(m, root, va)
    requires Frame(E2(m, root, va)) in own ==> own[Frame(E2(m, root, va))].level == 1
    ensures PageMapped(m, Stray(m, root, va, e), root, va, e) <==> Harmless(m, root, va, e)
  {
    hide W, U, I4, I3, I2, I1, P, Huge, Frame, EntryOk, Page, Walk, Stray, Reads, AlreadyGiven, SameLeaf, PathW, PathU, Tree, InHugePage, T1, E2;
    var m' := Stray(m, root, va, e);
    var g := Frame(E2(m, root, va));
    OnlyLeaves(m, root, own, va, va);
    NotMinusOne(E2(m, root, va));
    AskedAtVa(m, root, own, va, e);
    forall v: u64 | Page(v) != Page(va)
      ensures T1(m, root, v) == g && I1(v) == I1(va) ==> (SameLeaf(m, root, v, e) <==> Walk(m', root, v) == Walk(m, root, v))
      ensures !(T1(m, root, v) == g && I1(v) == I1(va)) ==> Walk(m', root, v) == Walk(m, root, v)
    {
      OnlyLeaves(m, root, own, va, v);
      if T1(m, root, v) == g && I1(v) == I1(va) {
        LeafOverwritten(m, root, own, va, e, v);
      } else {
        StrayElsewhere(m, root, own, va, e, v);
      }
    }
    forall w: u64 | T1(m, root, w) == g && I1(w) == I1(va)
      ensures Page(w) != Page(va)
    {
      SameLeafTable(m, root, w, va);
    }
  }

  lemma NotMinusOne(e: u64)
    ensures Frame(e) != -1
  {
  }

  lemma SameLeafTable(m: Memory, root: int, w: u64, va: u64)
    requires T1(m, root, w) != T1(m, root, va)
    ensures Page(w) != Page(va)
  {
    hide P, Huge, Frame, Page, Region, I4, I3, I2, I1;
    SameIndices(w, va);
  }

  /**
   Whatever table the frame is, addresses that do not go through the overwritten
   entry keep their translation.  Unless `va` goes through it, the page is mapped
   as asked exactly when the entry asks for what the 2 MiB page gives and the
   addresses that do go through it keep theirs, as they do when the entry stored
   was already there.
   */
  lemma StarvedAnyTable(m: Memory, root: int, own: map<int, Node>, va: u64, e: u64)
    requires Tree(m, root, own) && InHugePage(m, root, va)
    ensures var m', g := Stray(m, root, va, e), Frame(E2(m, root, va));
      && (forall v: u64 :: !Reads(m, root, v, g, I1(va)) ==> Walk(m', root, v) == Walk(m, root, v))
      && (!Reads(m, root, va, g, I1(va)) ==>
            (PageMapped(m, m', root, va, e) <==>
              && AlreadyGiven(m, root, va, e)
              && forall v: u64 :: Reads(m, root, v, g, I1(va)) ==> Walk(m', root, v) == Walk(m, root, v)))
      && (TableAt(m, g)[I1(va)] == e ==> (PageMapped(m, m', root, va, e) <==> AlreadyGiven(m, root, va, e)))
  {
    hide W, U, I4, I3, I2, I1, P, Huge, Frame, EntryOk, Page, Walk, Reads, AlreadyGiven, PathW, PathU, Tree, InHugePage, T1, E2;
    var m', g := Stray(m, root, va, e), Frame(E2(m, root, va));
    forall v: u64 | !Reads(m, root, v, g, I1(va))
      ensures Walk(m', root, v) == Walk(m, root, v)
    {
      StrayElsewhere(m, root, own, va, e, v);
    }
    if !Reads(m, root, va, g, I1(va)) {
      AskedAtVa(m, root, own, va, e);
      forall v: u64 | Reads(m, root, v, g, I1(va))
        ensures Page(v) != Page(va)
      {
        if Page(v) == Page(va) { SameReads(m, root, own, va, v, g, I1(va)); }
      }
    }
    if TableAt(m, g)[I1(va)] == e {
      StoreAgain(m, g, I1(va), e);
      SameStore(m, root, own, va, e);
    }
  }

  lemma StoreAgain(m: Memory, f: int, i: int, e: u64)
    requires 0 <= i < 512 && TableAt(m, f)[i] == e
    ensures Poke(m, f, i, e) == m
  {
    if 0 <= f < 16384 {
      assert m[f][i := e] == m[f];
      assert m[f := m[f]] == m;
    }
  }

  lemma SameStore(m: Memory, root: int, own: map<int, Node>, va: u64, e: u64)
    requires Tree(m, root, own) && InHugePage(m, root, va)
    ensures PageMapped(m, m, root, va, e) <==> AlreadyGiven(m, root, va, e)
  {
    hide W, U, I4, I3, I2, I1, P, Huge, Frame, EntryOk, Page, Walk, Tree, E2;
    HugeWalk(m, root, own, va, va);
    forall v: u64 | Page(v) == Page(va)
      ensures Walk(m, root, v)
           == Mapped((Frame(E2(m, root, va)) + I1(va)) * 4096 + v % 0x1000, PathW(m, root, va), PathU(m, root, va))
    {
      HugeWalk(m, root, own, va, v);
    }
  }

  /** Three tables and a 2 MiB page at frame 512. */
  function OneHugePage(): (m: Memory) {
    var none: Memory := seq<Table>(16384, _ => NoEntries());
    none[1 := NoEntries()[0 := Entry(2, 3)]][2 := NoEntries()[0 := Entry(3, 3)]][3 := NoEntries()[0 := Entry(512, 0x83)]]
  }

  const ONE_OWN := map[1 := Node(4, -1, 0), 2 := Node(3, 1, 0), 3 := Node(2, 2, 0)]

  lemma OneHugeTree()
    ensures Tree(OneHugePage(), 1, ONE_OWN)
  {
    var m := OneHugePage();
    Low(Entry(2, 3));
    Low(Entry(3, 3));
    Low(Entry(512, 0x83));
    forall t, i | t in ONE_OWN && 0 <= i < 512
      ensures EntryOk(ONE_OWN, t, i, m[t][i])
    {
    }
  }

  lemma OneHugeWalk()
    ensures E2(OneHugePage(), 1, 0) == Entry(512, 0x83) && InHugePage(OneHugePage(), 1, 0)
  {
    var m := OneHugePage();
    Low(Entry(2, 3));
    Low(Entry(3, 3));
    Low(Entry(512, 0x83));
    assert E4(m, 1, 0) == Entry(2, 3);
    assert E3(m, 1, 0) == Entry(3, 3);
  }

  /** A state in which `MapPage(0, 5 * 4096, write)` would report success and map nothing. */
  lemma StarvedExample()
    ensures Tree(OneHugePage(), 1, ONE_OWN) && InHugePage(OneHugePage(), 1, 0)
    ensures !PageMapped(OneHugePage(), Stray(OneHugePage(), 1, 0, Entry(5, 3)), 1, 0, Entry(5, 3))
    ensures SameTranslations(OneHugePage(), Stray(OneHugePage(), 1, 0, Entry(5, 3)), 1)
  {
    hide W, U, P, Huge, EntryOk, Page, Walk, Tree, OneHugePage, PageMapped, PathW, PathU, E2, Stray, Reads;
    var m := OneHugePage();
    OneHugeTree();
    OneHugeWalk();
    assert I1(0) == 0;
    StarvedExactly(m, 1, ONE_OWN, 0, Entry(5, 3));
    forall v: u64
      ensures Walk(Stray(m, 1, 0, Entry(5, 3)), 1, v) == Walk(m, 1, v)
    {
      NotInTree(m, 1, ONE_OWN, v, 512, 0);
      StrayElsewhere(m, 1, ONE_OWN, 0, Entry(5, 3), v);
    }
  }

  lemma NotInTree(m: Memory, root: int, own: map<int, Node>, v: u64, f: int, i: int)
    requires Tree(m, root, own) && f !in own && f != -1
    ensures !Reads(m, root, v, f, i)
  {
    hide W, U, I4, I3, I2, I1, P, Huge, Frame, EntryOk, Walk;
    Path(m, root, own, v);
  }

  /** Four tables; the page table in frame 1536 starts the 2 MiB page mapped at 6 MiB. */
  function TableInHugePage(): (m: Memory) {
    var none: Memory := seq<Table>(16384, _ => NoEntries());
    none[1 := NoEntries()[0 := Entry(2, 3)]][2 := NoEntries()[0 := Entry(3, 3)]]
        [3 := NoEntries()[0 := Entry(1536, 3)][3 := Entry(1536, 0x83)]]
  }

  const TABLE_OWN := map[1 := Node(4, -1, 0), 2 := Node(3, 1, 0), 3 := Node(2, 2, 0), 1536 := Node(1, 3, 0)]

  lemma TableInHugeTree()
    ensures Tree(TableInHugePage(), 1, TABLE_OWN)
  {
    var m := TableInHugePage();
    Low(Entry(2, 3));
    Low(Entry(3, 3));
    Low(Entry(1536, 3));
    Low(Entry(1536, 0x83));
    forall t, i | t in TABLE_OWN && 0 <= i < 512
      ensures EntryOk(TABLE_OWN, t, i, m[t][i])
    {
    }
  }

  lemma TableInHugeWalk()
    ensures E2(TableInHugePage(), 1, 0x60_1000) == Entry(1536, 0x83) && InHugePage(TableInHugePage(), 1, 0x60_1000)
    ensures T1(TableInHugePage(), 1, 0x1000) == 1536 && E1(TableInHugePage(), 1, 0x1000) == 0
    ensures PathW(TableInHugePage(), 1, 0x1000) && !PathU(TableInHugePage(), 1, 0x1000)
  {
    var m := TableInHugePage();
    Low(Entry(2, 3));
    Low(Entry(3, 3));
    Low(Entry(1536, 3));
    Low(Entry(1536, 0x83));
    assert E4(m, 1, 0x60_1000) == Entry(2, 3) && E3(m, 1, 0x60_1000) == Entry(3, 3);
    assert E4(m, 1, 0x1000) == Entry(2, 3) && E3(m, 1, 0x1000) == Entry(3, 3) && E2(m, 1, 0x1000) == Entry(1536, 3);
  }

  /** A state in which `MapPage(0x60_1000, 5 * 4096, write)` would report success and map address 0x1000 instead. */
  lemma StrayExample()
    ensures var m := TableInHugePage();
      var m' := Stray(m, 1, 0x60_1000, Entry(5, 3));
      && Tree(m, 1, TABLE_OWN) && InHugePage(m, 1, 0x60_1000)
      && Walk(m, 1, 0x1000) == Unmapped && Walk(m', 1, 0x1000) == Mapped(5 * 4096, true, false)
      && !PageMapped(m, m', 1, 0x60_1000, Entry(5, 3))
  {
    hide EntryOk, Page, Walk, Tree, TableInHugePage, PageMapped, PathW, PathU, E2, Stray, Reads, T1, E1;
    var m := TableInHugePage();
    TableInHugeTree();
    TableInHugeWalk();
    Low(Entry(5, 3));
    SmallWalk(m, 1, TABLE_OWN, 0x1000, 0x1000);
    LeafOverwritten(m, 1, TABLE_OWN, 0x60_1000, Entry(5, 3), 0x1000);
    StarvedExactly(m, 1, TABLE_OWN, 0x60_1000, Entry(5, 3));
  }
}
