/**
 Process control blocks and the FIFO queues threaded through them.  A process
 is known by its slot in the table of 64; -1 stands for the null pointer.
 */
module ProcessTable {
  import opened Bytes
  import opened Bitmaps
  import opened Schedulers

  const SLOTS := 64
  const NONE := -1

  datatype State = Embryo | Ready | Running | Blocked | Terminated

  datatype Pcb = Pcb(pid: u32, state: State, priority: u32, next: int)

  datatype Queue = Queue(head: int, tail: int, count: nat)

  const EMPTY := Queue(-1, -1, 0)

  predicate InTable(p: int) {
    0 <= p < SLOTS
  }

  ghost predicate NoRepeats(s: seq<int>) {
    forall i, j :: 0 <= i < j < |s| ==> s[i] != s[j]
  }

  /** Head, tail, count and the links of the table spell out `s`. */
  ghost predicate IsQueue(t: seq<Pcb>, q: Queue, s: seq<int>) {
    && |t| == SLOTS && NoRepeats(s) && Chained(t, s)
    && q == Queue(First(s), Last(s), |s|)
  }

  ghost predicate Chained(t: seq<Pcb>, s: seq<int>)
    requires |t| == SLOTS
  {
    forall i :: 0 <= i < |s| ==> InTable(s[i]) && t[s[i]].next == Following(s, i)
  }

  ghost function First(s: seq<int>): (p: int) {
    if s == [] then NONE else s[0]
  }

  ghost function Last(s: seq<int>): (p: int) {
    if s == [] then NONE else s[|s| - 1]
  }

  ghost function Following(s: seq<int>, i: int): (p: int)
    requires 0 <= i < |s|
  {
    if i + 1 < |s| then s[i + 1] else NONE
  }

  /** Only links changed, and only those of the members of `s`. */
  ghost predicate Relinked(t: seq<Pcb>, t': seq<Pcb>, s: seq<int>) {
    && |t| == |t'|
    && (forall i :: 0 <= i < |t| ==> t'[i] == t[i].(next := t'[i].next))
    && (forall i :: 0 <= i < |t| && i !in s ==> t'[i] == t[i])
  }

  ghost predicate Apart(s: seq<int>, r: seq<int>) {
    forall x :: x in s ==> x !in r
  }

  /** A queue keeps its contents when only links outside it change. */
  lemma QueueKept(t: seq<Pcb>, t': seq<Pcb>, changed: seq<int>, q: Queue, s: seq<int>)
    requires IsQueue(t, q, s) && Relinked(t, t', changed) && Apart(s, changed)
    ensures IsQueue(t', q, s)
  {
    assert forall i :: 0 <= i < |s| ==> s[i] in s;
  }

  /** `s` without its element number `i`. */
  ghost function Cut(s: seq<int>, i: int): (r: seq<int>)
    requires 0 <= i < |s|
  {
    s[..i] + s[i + 1..]
  }

  lemma {:induction false} WithoutIsCut(s: seq<int>, i: int)
    requires 0 <= i < |s| && NoRepeats(s)
    ensures Without(s, s[i]) == Cut(s, i)
  {
    if i > 0 {
      WithoutIsCut(s[1..], i - 1);
      assert Cut(s, i) == [s[0]] + Cut(s[1..], i - 1);
    }
  }

  lemma {:induction false} MembersWithout(s: seq<int>, p: int)
    requires NoRepeats(s)
    ensures NoRepeats(Without(s, p))
    ensures forall x :: x in Without(s, p) <==> x in s && x != p
  {
    if s != [] && s[0] != p {
      MembersWithout(s[1..], p);
      assert s[0] !in s[1..];
      assert forall x :: x in s <==> x == s[0] || x in s[1..];
    } else if s != [] {
      assert forall x :: x in s <==> x == s[0] || x in s[1..];
    }
  }

  // ----- the four queue operations on values -----

  function Linked(t: seq<Pcb>, p: int, next: int): (t': seq<Pcb>)
    requires 0 <= p < |t|
  {
    t[p := t[p].(next := next)]
  }

  /** The table after a push onto the queue spelling `s`. */
  function Pushed(t: seq<Pcb>, q: Queue, p: int): (t': seq<Pcb>)
    requires 0 <= p < |t| && (q.tail != NONE ==> 0 <= q.tail < |t|)
  {
    var t1 := Linked(t, p, NONE);
    if q.tail != NONE then Linked(t1, q.tail, p) else t1
  }

  lemma PushSpells(t: seq<Pcb>, q: Queue, s: seq<int>, p: int)
    requires IsQueue(t, q, s) && InTable(p) && p !in s
    ensures q.tail != NONE ==> InTable(q.tail)
    ensures IsQueue(Pushed(t, q, p), Queue(if q.tail != NONE then q.head else p, p, q.count + 1), s + [p])
    ensures Relinked(t, Pushed(t, q, p), s + [p])
  {
    var r, t' := s + [p], Pushed(t, q, p);
    forall i | 0 <= i < |r|
      ensures InTable(r[i]) && t'[r[i]].next == Following(r, i)
    {
      PushLink(t, q, s, p, i);
    }
    assert s != [] ==> s[|s| - 1] in s;
  }

  lemma PushLink(t: seq<Pcb>, q: Queue, s: seq<int>, p: int, i: int)
    requires IsQueue(t, q, s) && InTable(p) && p !in s && 0 <= i <= |s|
    ensures q.tail != NONE ==> InTable(q.tail)
    ensures InTable((s + [p])[i]) && Pushed(t, q, p)[(s + [p])[i]].next == Following(s + [p], i)
  {
    if i < |s| {
      assert (s + [p])[i] == s[i] && s[i] in s;
      assert i < |s| - 1 ==> s[i] != s[|s| - 1];
    }
  }

  /** The table after unlinking element `i` of the queue spelling `s`. */
  ghost function Unlinked(t: seq<Pcb>, s: seq<int>, i: int): (t': seq<Pcb>)
    requires |t| == SLOTS && Chained(t, s) && 0 <= i < |s|
  {
    var t1 := if i > 0 then Linked(t, s[i - 1], t[s[i]].next) else t;
    Linked(t1, s[i], NONE)
  }

  lemma CutSpells(t: seq<Pcb>, q: Queue, s: seq<int>, i: int)
    requires IsQueue(t, q, s) && 0 <= i < |s|
    ensures var next := t[s[i]].next;
      var head := if i > 0 then q.head else next;
      var tail := if next == NONE then (if i > 0 then s[i - 1] else NONE) else q.tail;
      IsQueue(Unlinked(t, s, i), Queue(head, tail, q.count - 1), Cut(s, i))
    ensures Relinked(t, Unlinked(t, s, i), s)
  {
    hide Linked, Cut, At, Unlinked, Relinked;
    CutAt(s, i);
    CutEnds(s, i);
    CutChained(t, s, i);
    assert t[s[i]].next == Following(s, i);
    UnlinkedOnly(t, s, i);
  }

  ghost function At(s: seq<int>, i: int, j: int): (p: int)
    requires 0 <= i < |s| && 0 <= j < |s| - 1
  {
    if j < i then s[j] else s[j + 1]
  }

  lemma CutAt(s: seq<int>, i: int)
    requires 0 <= i < |s| && NoRepeats(s)
    ensures NoRepeats(Cut(s, i)) && |Cut(s, i)| == |s| - 1
    ensures forall j :: 0 <= j < |s| - 1 ==> Cut(s, i)[j] == At(s, i, j)
  {
    var r := Cut(s, i);
    assert forall j :: 0 <= j < |r| ==> r[j] == At(s, i, j);
  }

  lemma CutEnds(s: seq<int>, i: int)
    requires 0 <= i < |s|
    ensures First(Cut(s, i)) == if i > 0 then s[0] else Following(s, 0)
    ensures Last(Cut(s, i)) == if i < |s| - 1 then s[|s| - 1] else if i > 0 then s[i - 1] else NONE
  {
  }

  lemma UnlinkedOnly(t: seq<Pcb>, s: seq<int>, i: int)
    requires |t| == SLOTS && Chained(t, s) && 0 <= i < |s|
    ensures Relinked(t, Unlinked(t, s, i), s) && |Unlinked(t, s, i)| == SLOTS
  {
    assert s[i] in s && (i > 0 ==> s[i - 1] in s);
  }

  lemma CutChained(t: seq<Pcb>, s: seq<int>, i: int)
    requires |t| == SLOTS && NoRepeats(s) && Chained(t, s) && 0 <= i < |s|
    ensures Chained(Unlinked(t, s, i), Cut(s, i))
  {
    hide At, Unlinked, Cut;
    var r := Cut(s, i);
    CutAt(s, i);
    UnlinkedOnly(t, s, i);
    forall j | 0 <= j < |r|
      ensures InTable(r[j]) && Unlinked(t, s, i)[r[j]].next == Following(r, j)
    {
      CutLink(t, s, i, j);
    }
  }

  lemma CutLink(t: seq<Pcb>, s: seq<int>, i: int, j: int)
    requires |t| == SLOTS && NoRepeats(s) && Chained(t, s)
    requires 0 <= i < |s| && 0 <= j < |s| - 1
    ensures InTable(At(s, i, j))
    ensures Unlinked(t, s, i)[At(s, i, j)].next == if j + 1 < |s| - 1 then At(s, i, j + 1) else NONE
  {
    if j < i {
      assert s[j] != s[i];
      assert j < i - 1 ==> s[j] != s[i - 1];
    } else {
      assert s[j + 1] != s[i];
      assert i > 0 ==> s[j + 1] != s[i - 1];
    }
  }
}
