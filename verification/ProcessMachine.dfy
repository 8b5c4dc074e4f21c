/**
 What every step of the process table keeps: the four waiting lines, the slot
 map, the current process, the count of live processes and their pids.
 */
module ProcessMachine {
  import opened Bytes
  import opened Bitmaps
  import opened Options
  import opened Schedulers
  import opened ProcessTable

  /**
   The table, the map of free slots, the queues with the lines they spell, the
   selected policy, the current process, a slot that is taken but holds no live
   process, the number of live processes and the number ever created.
   */
  datatype Machine = Machine(t: seq<Pcb>, free: nat, qs: seq<Queue>, lines: Levels, policy: Option<Policy>,
                             cur: int, limbo: int, count: int, created: nat)

  predicate Active(t: seq<Pcb>, i: int) {
    0 <= i < |t| && !t[i].state.Embryo? && !t[i].state.Terminated?
  }

  ghost function Live(t: seq<Pcb>): (s: set<int>) {
    set i | 0 <= i < |t| && Active(t, i)
  }

  ghost predicate Queued(lines: Levels, p: int) {
    p in lines[0] || p in lines[1] || p in lines[2] || p in lines[3]
  }

  ghost predicate QueuesOk(t: seq<Pcb>, qs: seq<Queue>, lines: Levels) {
    && |t| == SLOTS && |qs| == 4
    && (forall k :: 0 <= k < 4 ==> IsQueue(t, qs[k], lines[k]))
    && (forall k, l :: 0 <= k < 4 && 0 <= l < 4 && k != l ==> Apart(lines[k], lines[l]))
  }

  /** A slot is free exactly when its process is terminated; taken slots are ready or running. */
  ghost predicate SlotsOk(t: seq<Pcb>, free: nat, limbo: int)
    requires |t| == SLOTS
  {
    && free < Pow2(64)
    && forall i :: 0 <= i < SLOTS ==> SlotOk(t[i].state, BitOf(free, i), i == limbo)
  }

  predicate SlotOk(state: State, free: bool, limbo: bool) {
    if limbo then !free && (state.Embryo? || state.Terminated?)
    else if free then state.Terminated? else state.Ready? || state.Running?
  }

  /** Every process waits READY on the line its priority selects. */
  ghost predicate LinesOk(t: seq<Pcb>, lines: Levels, policy: Option<Policy>)
    requires |t| == SLOTS
  {
    forall k, p :: 0 <= k < 4 && p in lines[k] ==> WaitsOk(t, policy, k, p)
  }

  ghost predicate WaitsOk(t: seq<Pcb>, policy: Option<Policy>, k: int, p: int)
    requires |t| == SLOTS
  {
    InTable(p) && t[p].state.Ready? && policy.Some? && k == LevelOf(policy.value, t[p].priority)
  }

  /** Below 2^32 creations, live pids lie between 1 and their number and no two are equal. */
  ghost predicate PidsOk(t: seq<Pcb>, created: nat) {
    created < TWO_32 ==>
      && (forall i :: Active(t, i) ==> 1 <= t[i].pid <= created)
      && (forall i, j :: Active(t, i) && Active(t, j) && i != j ==> t[i].pid != t[j].pid)
  }

  ghost predicate CurrentOk(t: seq<Pcb>, lines: Levels, cur: int) {
    cur == NONE || (InTable(cur) && Active(t, cur) && !Queued(lines, cur))
  }

  ghost predicate Inv(m: Machine) {
    && QueuesOk(m.t, m.qs, m.lines)
    && SlotsOk(m.t, m.free, m.limbo)
    && LinesOk(m.t, m.lines, m.policy)
    && PidsOk(m.t, m.created)
    && CurrentOk(m.t, m.lines, m.cur)
    && m.count == |Live(m.t)|
  }

  // ----- what the queues keep -----

  ghost predicate SameButLinks(t: seq<Pcb>, t': seq<Pcb>) {
    |t| == |t'| && forall i :: 0 <= i < |t| ==> t'[i] == t[i].(next := t'[i].next)
  }

  /** Links may change without harm to anything but the queues. */
  lemma LinksOnly(m: Machine, t': seq<Pcb>)
    requires Inv(m) && SameButLinks(m.t, t')
    ensures SlotsOk(t', m.free, m.limbo) && PidsOk(t', m.created) && CurrentOk(t', m.lines, m.cur)
    ensures LinesOk(t', m.lines, m.policy) && m.count == |Live(t')|
  {
    assert forall i :: Active(t', i) <==> Active(m.t, i);
    assert Live(t') == Live(m.t);
  }

  /** Replacing one line and relinking only its old and new members keeps the queues. */
  lemma LineReplaced(t: seq<Pcb>, t': seq<Pcb>, qs: seq<Queue>, lines: Levels, k: int, q: Queue, r: seq<int>, changed: seq<int>)
    requires QueuesOk(t, qs, lines) && 0 <= k < 4 && IsQueue(t', q, r) && Relinked(t, t', changed)
    requires forall l :: 0 <= l < 4 && l != k ==> Apart(lines[l], changed)
    requires forall x :: x in r ==> x in changed
    ensures QueuesOk(t', qs[k := q], lines[k := r])
  {
    hide IsQueue, Relinked;
    forall l | 0 <= l < 4 && l != k
      ensures IsQueue(t', qs[l], lines[l])
    {
      QueueKept(t, t', changed, qs[l], lines[l]);
    }
    var ls := lines[k := r];
    forall a, b | 0 <= a < 4 && 0 <= b < 4 && a != b
      ensures Apart(ls[a], ls[b])
    {
      assert a != k ==> Apart(lines[a], changed);
      assert b != k ==> Apart(lines[b], changed);
    }
    QueueLength(t', q, r);
  }

  lemma QueueLength(t: seq<Pcb>, q: Queue, s: seq<int>)
    requires IsQueue(t, q, s)
    ensures |t| == SLOTS
  {
  }

  /** Editing a process that waits nowhere keeps the queues. */
  lemma UnqueuedEdit(t: seq<Pcb>, qs: seq<Queue>, lines: Levels, p: int, x: Pcb)
    requires QueuesOk(t, qs, lines) && InTable(p) && !Queued(lines, p)
    ensures QueuesOk(t[p := x], qs, lines)
  {
    forall k | 0 <= k < 4
      ensures IsQueue(t[p := x], qs[k], lines[k])
    {
      assert IsQueue(t, qs[k], lines[k]);
      assert forall i :: 0 <= i < |lines[k]| ==> lines[k][i] in lines[k];
    }
  }

  predicate Alive(x: Pcb) {
    !x.state.Embryo? && !x.state.Terminated?
  }

  lemma LiveEdit(t: seq<Pcb>, p: int, x: Pcb)
    requires 0 <= p < |t|
    ensures forall i :: Active(t[p := x], i) <==> if i == p then Alive(x) else Active(t, i)
    ensures Live(t[p := x]) == if Alive(x) then Live(t) + {p} else Live(t) - {p}
  {
    var t' := t[p := x];
    forall i
      ensures Active(t', i) <==> if i == p then Alive(x) else Active(t, i)
    {
      if 0 <= i < |t| { assert t'[i] == if i == p then x else t[i]; }
    }
  }

  lemma LinesEdit(t: seq<Pcb>, lines: Levels, policy: Option<Policy>, p: int, x: Pcb)
    requires |t| == SLOTS && LinesOk(t, lines, policy) && InTable(p) && !Queued(lines, p)
    ensures LinesOk(t[p := x], lines, policy)
  {
    hide LevelOf;
    var t' := t[p := x];
    forall k, q | 0 <= k < 4 && q in lines[k]
      ensures WaitsOk(t', policy, k, q)
    {
      assert WaitsOk(t, policy, k, q) && q != p;
    }
  }

  lemma PidsEdit(t: seq<Pcb>, created: nat, p: int, x: Pcb)
    requires PidsOk(t, created) && 0 <= p < |t|
    requires Alive(x) ==> Active(t, p) && x.pid == t[p].pid
    ensures PidsOk(t[p := x], created)
  {
    hide Active;
    LiveEdit(t, p, x);
    ActiveBounds(t);
    ActiveBounds(t[p := x]);
  }

  lemma ActiveBounds(t: seq<Pcb>)
    ensures forall i :: Active(t, i) ==> 0 <= i < |t|
  {
  }

  /** What an edit of one process that waits nowhere keeps, but for the slot map. */
  lemma Edited(m: Machine, p: int, x: Pcb)
    requires Inv(m) && InTable(p) && !Queued(m.lines, p)
    ensures |m.t| == SLOTS && QueuesOk(m.t[p := x], m.qs, m.lines) && LinesOk(m.t[p := x], m.lines, m.policy)
    ensures Live(m.t[p := x]) == if Alive(x) then Live(m.t) + {p} else Live(m.t) - {p}
    ensures p in Live(m.t) <==> Active(m.t, p)
    ensures (Alive(x) ==> Active(m.t, p) && x.pid == m.t[p].pid) ==> PidsOk(m.t[p := x], m.created)
    ensures p != m.cur || Alive(x) ==> CurrentOk(m.t[p := x], m.lines, m.cur)
  {
    hide PidsOk, LinesOk, SlotsOk;
    UnqueuedEdit(m.t, m.qs, m.lines, p, x);
    LinesEdit(m.t, m.lines, m.policy, p, x);
    LiveEdit(m.t, p, x);
    if Alive(x) ==> Active(m.t, p) && x.pid == m.t[p].pid {
      PidsEdit(m.t, m.created, p, x);
    }
  }

  // ----- the steps -----

  /** A ready process that waits nowhere joins the line of its priority. */
  lemma Joined(m: Machine, p: int, t': seq<Pcb>, q: Queue)
    requires Inv(m) && m.policy.Some? && InTable(p) && m.t[p].state.Ready? && !Queued(m.lines, p) && p != m.cur
    requires var k := LevelOf(m.policy.value, m.t[p].priority);
      IsQueue(t', q, m.lines[k] + [p]) && Relinked(m.t, t', m.lines[k] + [p])
    ensures var k := LevelOf(m.policy.value, m.t[p].priority);
      Inv(m.(t := t', qs := m.qs[k := q], lines := Enqueue(m.policy.value, m.lines, p, m.t[p].priority)))
  {
    hide IsQueue, LevelOf, SlotsOk, PidsOk;
    var k := LevelOf(m.policy.value, m.t[p].priority);
    LinksOnly(m, t');
    LineReplaced(m.t, t', m.qs, m.lines, k, q, m.lines[k] + [p], m.lines[k] + [p]);
  }

  /** A waiting process leaves its line. */
  lemma Parted(m: Machine, k: int, p: int, t': seq<Pcb>, q: Queue)
    requires Inv(m) && 0 <= k < 4 && p in m.lines[k]
    requires IsQueue(t', q, Without(m.lines[k], p)) && Relinked(m.t, t', m.lines[k])
    ensures m.lines[k := Without(m.lines[k], p)] == Dequeue(m.lines, p) && !Queued(Dequeue(m.lines, p), p)
    ensures Inv(m.(t := t', qs := m.qs[k := q], lines := Dequeue(m.lines, p)))
  {
    hide SlotsOk, PidsOk, Without, LinesOk, IsQueue;
    QueueDistinct(m.t, m.qs[k], m.lines[k]);
    MembersWithout(m.lines[k], p);
    DequeueOne(m.lines, k, p);
    LinksOnly(m, t');
    LineReplaced(m.t, t', m.qs, m.lines, k, q, Without(m.lines[k], p), m.lines[k]);
    LinesShrink(t', m.lines, m.policy, k, Without(m.lines[k], p));
  }

  lemma QueueDistinct(t: seq<Pcb>, q: Queue, s: seq<int>)
    requires IsQueue(t, q, s)
    ensures NoRepeats(s)
  {
  }

  lemma LinesShrink(t: seq<Pcb>, lines: Levels, policy: Option<Policy>, k: int, r: seq<int>)
    requires |t| == SLOTS && LinesOk(t, lines, policy) && 0 <= k < 4 && forall x :: x in r ==> x in lines[k]
    ensures LinesOk(t, lines[k := r], policy)
  {
  }

  lemma DequeueOne(lines: Levels, k: int, p: int)
    requires 0 <= k < 4 && p in lines[k] && p !in Without(lines[k], p)
    requires forall l :: 0 <= l < 4 && l != k ==> Apart(lines[k], lines[l])
    ensures lines[k := Without(lines[k], p)] == Dequeue(lines, p) && !Queued(Dequeue(lines, p), p)
  {
    hide Without;
    forall l | 0 <= l < 4 && l != k
      ensures Without(lines[l], p) == lines[l] && p !in lines[l]
    {
      assert Apart(lines[k], lines[l]);
      WithoutAbsent(lines[l], p);
    }
  }

  /** A live process that waits nowhere may turn ready or running. */
  lemma Restated(m: Machine, p: int, state: State)
    requires Inv(m) && Active(m.t, p) && !Queued(m.lines, p) && (state.Ready? || state.Running?)
    ensures Inv(m.(t := m.t[p := m.t[p].(state := state)]))
  {
    hide QueuesOk, LinesOk, PidsOk, Live, Queued, CurrentOk;
    InvLength(m);
    Edited(m, p, m.t[p].(state := state));
    assert Live(m.t) + {p} == Live(m.t);
  }

  /** A live process that waits nowhere and is not current dies; its slot stays taken for now. */
  lemma Died(m: Machine, p: int)
    requires Inv(m) && Active(m.t, p) && !Queued(m.lines, p) && p != m.cur && m.limbo == NONE
    ensures Inv(m.(t := m.t[p := m.t[p].(state := Terminated)], count := m.count - 1, limbo := p))
  {
    hide QueuesOk, LinesOk, PidsOk, Live, Queued, CurrentOk;
    InvLength(m);
    Edited(m, p, m.t[p].(state := Terminated));
  }

  /** The slot of a dead process is given back. */
  lemma Released(m: Machine)
    requires Inv(m) && InTable(m.limbo) && m.t[m.limbo].state.Terminated?
    ensures Inv(m.(free := SetBitOf(m.free, m.limbo), limbo := NONE))
  {
    hide LinesOk, PidsOk;
    WordWidth(m.free, m.limbo, 64);
    forall i | 0 <= i < SLOTS
      ensures SlotOk(m.t[i].state, BitOf(SetBitOf(m.free, m.limbo), i), i == NONE)
    {
      BitOfAfter(m.free, m.limbo, i);
    }
  }

  lemma ReadyIfQueued(t: seq<Pcb>, lines: Levels, policy: Option<Policy>, p: int)
    requires |t| == SLOTS && LinesOk(t, lines, policy) && Queued(lines, p)
    ensures InTable(p) && t[p].state.Ready?
  {
  }

  lemma UnqueuedIfNotReady(m: Machine, p: int)
    requires Inv(m) && InTable(p) && !m.t[p].state.Ready?
    ensures !Queued(m.lines, p)
  {
    if Queued(m.lines, p) { ReadyIfQueued(m.t, m.lines, m.policy, p); }
  }

  /** A free slot waits on no line, so it can be claimed. */
  lemma Claimed(m: Machine, p: int)
    requires Inv(m) && InTable(p) && BitOf(m.free, p) && m.limbo == NONE
    ensures Inv(m.(t := m.t[p := Pcb(0, Embryo, 1, NONE)], free := ClearBitOf(m.free, p), limbo := p))
  {
    hide QueuesOk, LinesOk, PidsOk, Live, Queued;
    var x := Pcb(0, Embryo, 1, NONE);
    InvLength(m);
    assert SlotOk(m.t[p].state, BitOf(m.free, p), p == m.limbo);
    UnqueuedIfNotReady(m, p);
    Edited(m, p, x);
    WordWidth(m.free, p, 64);
    forall i | 0 <= i < SLOTS
      ensures SlotOk(m.t[p := x][i].state, BitOf(ClearBitOf(m.free, p), i), i == p)
    {
      BitOfAfter(m.free, p, i);
    }
    assert Live(m.t) - {p} == Live(m.t);
  }

  lemma InvLength(m: Machine)
    requires Inv(m)
    ensures |m.t| == SLOTS
  {
  }

  /** The claimed slot comes alive with a fresh pid. */
  lemma Born(m: Machine, priority: u32)
    requires Inv(m) && InTable(m.limbo)
    ensures Inv(m.(t := m.t[m.limbo := Pcb((m.created + 1) % TWO_32, Ready, priority, NONE)],
                   count := m.count + 1, created := m.created + 1, limbo := NONE))
    ensures !Queued(m.lines, m.limbo) && m.limbo != m.cur
  {
    hide QueuesOk, LinesOk, PidsOk, Live, Queued;
    var p := m.limbo;
    var x := Pcb((m.created + 1) % TWO_32, Ready, priority, NONE);
    InvLength(m);
    assert SlotOk(m.t[p].state, BitOf(m.free, p), p == m.limbo);
    UnqueuedIfNotReady(m, p);
    Edited(m, p, x);
    PidsBorn(m.t, m.created, p, x);
  }

  lemma PidsBorn(t: seq<Pcb>, created: nat, p: int, x: Pcb)
    requires PidsOk(t, created) && 0 <= p < |t| && !Active(t, p) && x.pid == (created + 1) % TWO_32
    ensures PidsOk(t[p := x], created + 1)
  {
    hide Active;
    LiveEdit(t, p, x);
    ActiveBounds(t);
    ActiveBounds(t[p := x]);
    assert created + 1 < TWO_32 ==> x.pid == created + 1;
  }

  /** Selecting a policy starts it with empty lines. */
  lemma Restarted(m: Machine, policy: Policy)
    requires Inv(m)
    ensures Inv(m.(qs := [EMPTY, EMPTY, EMPTY, EMPTY], lines := [[], [], [], []], policy := Some(policy)))
  {
    hide PidsOk, SlotsOk;
  }
}
