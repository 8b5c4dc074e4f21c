/**
 The process manager and the scheduler: slots, queues, the four policies behind
 one dispatcher, and create, exit, kill, yield and the timer interrupt.
 */
module Processes {
  import opened Bytes
  import opened Bitmaps
  import opened Options
  import opened Schedulers
  import opened ProcessTable
  import opened ProcessMachine

  /** The ticks a process may use before the interrupt makes it yield, level by level. */
  function Quanta(policy: Policy): (q: seq<nat>)
    ensures |q| == 4 && forall k :: 0 <= k < 4 ==> q[k] > 0
  {
    if policy.Mlq? then [2, 4, 6, 8] else [3, 3, 3, 3]
  }

  ghost predicate TicksOk(policy: Option<Policy>, ticks: seq<nat>) {
    |ticks| == 4 && (policy.Some? ==> forall k :: 0 <= k < 4 ==> ticks[k] < Quanta(policy.value)[k])
  }

  const FRESH: seq<nat> := [0, 0, 0, 0]

  class Kernel {
    var pcbs: seq<Pcb>
    var slotFree: nat
    var queues: seq<Queue>
    var blocked: Queue
    var policy: Option<Policy>
    var current: int
    var nextPid: u32
    var processCount: int
    var needResched: bool
    var ticks: seq<nat>
    ghost var lines: Levels
    ghost var created: nat

    ghost function Now(cur: int, limbo: int): (m: Machine)
      reads this
    {
      Machine(pcbs, slotFree, queues, lines, policy, cur, limbo, processCount, created)
    }

    ghost predicate Valid()
      reads this
    {
      && Inv(Now(current, NONE))
      && blocked == EMPTY && !needResched && TicksOk(policy, ticks)
      && nextPid == (created + 1) % TWO_32
    }

    // ----- process/queue.c -----

    method QueuePush(q: Queue, proc: int, ghost s: seq<int>) returns (q': Queue)
      requires IsQueue(pcbs, q, s) && InTable(proc) && proc !in s
      modifies `pcbs
      ensures IsQueue(pcbs, q', s + [proc]) && Relinked(old(pcbs), pcbs, s + [proc])
    {
      hide IsQueue, Relinked;
      PushSpells(pcbs, q, s, proc);
      QueueLength(pcbs, q, s);
      q' := q;
      pcbs := pcbs[proc := pcbs[proc].(next := NONE)];
      if q.tail != NONE {
        pcbs := pcbs[q.tail := pcbs[q.tail].(next := proc)];
      } else {
        q' := q'.(head := proc);
      }
      q' := q'.(tail := proc, count := q.count + 1);
    }

    method QueuePop(q: Queue, ghost s: seq<int>) returns (q': Queue, proc: int)
      requires IsQueue(pcbs, q, s)
      modifies `pcbs
      ensures s == [] ==> proc == NONE && q' == q && pcbs == old(pcbs)
      ensures s != [] ==> proc == s[0] && IsQueue(pcbs, q', s[1..]) && Relinked(old(pcbs), pcbs, s)
    {
      if q.head == NONE {
        return q, NONE;
      }
      PopSpells(pcbs, q, s);
      proc := q.head;
      q' := q.(head := pcbs[proc].next);
      if q'.head == NONE {
        q' := q'.(tail := NONE);
      }
      pcbs := pcbs[proc := pcbs[proc].(next := NONE)];
      q' := q'.(count := q.count - 1);
    }

    method QueueRemove(q: Queue, proc: int, ghost s: seq<int>) returns (q': Queue)
      requires IsQueue(pcbs, q, s)
      modifies `pcbs
      ensures proc !in s ==> q' == q && pcbs == old(pcbs)
      ensures proc in s ==> IsQueue(pcbs, q', Without(s, proc)) && Relinked(old(pcbs), pcbs, s)
    {
      var prev, curr := NONE, q.head;
      ghost var i := 0;
      q' := q;
      while curr != NONE
        invariant 0 <= i <= |s| && q' == q && pcbs == old(pcbs)
        invariant curr == (if i < |s| then s[i] else NONE) && prev == if i > 0 then s[i - 1] else NONE
        invariant proc !in s[..i]
        decreases |s| - i
      {
        if curr == proc {
          WithoutIsCut(s, i);
          q' := Unlink(q, prev, curr, s, i);
          return;
        }
        prev := curr;
        curr := pcbs[curr].next;
        i := i + 1;
      }
      assert s[..i] == s;
    }

    /** The body of the removal once the process is found. */
    method Unlink(q: Queue, prev: int, curr: int, ghost s: seq<int>, ghost i: int) returns (q': Queue)
      requires IsQueue(pcbs, q, s) && 0 <= i < |s| && curr == s[i] && prev == if i > 0 then s[i - 1] else NONE
      modifies `pcbs
      ensures IsQueue(pcbs, q', Cut(s, i)) && Relinked(old(pcbs), pcbs, s)
    {
      CutSpells(pcbs, q, s, i);
      q' := q;
      if prev != NONE {
        pcbs := pcbs[prev := pcbs[prev].(next := pcbs[curr].next)];
      } else {
        q' := q'.(head := pcbs[curr].next);
      }
      if pcbs[curr].next == NONE {
        q' := q'.(tail := prev);
      }
      pcbs := pcbs[curr := pcbs[curr].(next := NONE)];
      q' := q'.(count := q.count - 1);
    }

    method QueueContains(q: Queue, proc: int, ghost s: seq<int>) returns (found: bool)
      requires IsQueue(pcbs, q, s)
      ensures found <==> proc in s
    {
      var curr := q.head;
      ghost var i := 0;
      while curr != NONE
        invariant 0 <= i <= |s| && curr == (if i < |s| then s[i] else NONE) && proc !in s[..i]
        decreases |s| - i
      {
        if curr == proc {
          return true;
        }
        curr := pcbs[curr].next;
        i := i + 1;
      }
      assert s[..i] == s;
      return false;
    }

    // ----- scheduler/*.c -----

    method SchedulerAdd(proc: int, ghost cur: int, ghost limbo: int)
      requires Inv(Now(cur, limbo)) && InTable(proc) && pcbs[proc].state.Ready? && !Queued(lines, proc) && proc != cur
      modifies `pcbs, `queues, `lines
      ensures Inv(Now(cur, limbo)) && SameButLinks(old(pcbs), pcbs)
      ensures lines == if policy.None? then old(lines) else Enqueue(policy.value, old(lines), proc, old(pcbs)[proc].priority)
    {
      hide Inv, LevelOf, IsQueue, SameButLinks, Relinked;
      LinksSame(pcbs);
      if policy.Some? {
        ghost var was := Now(cur, limbo);
        InvLength(was);
        var level := LevelOf(policy.value, pcbs[proc].priority);
        LineAt(was, level);
        var q := QueuePush(queues[level], proc, lines[level]);
        Joined(was, proc, pcbs, q);
        RelinkedIs(was.t, pcbs, was.lines[level] + [proc]);
        queues := queues[level := q];
        lines := Enqueue(policy.value, lines, proc, old(pcbs)[proc].priority);
      }
    }

    method SchedulerNext(ghost cur: int, ghost limbo: int) returns (proc: int)
      requires Inv(Now(cur, limbo)) && |ticks| == 4
      modifies `pcbs, `queues, `lines, `ticks
      ensures Inv(Now(cur, limbo)) && SameButLinks(old(pcbs), pcbs)
      ensures proc == NONE ==> lines == old(lines) && ticks == old(ticks) && pcbs == old(pcbs)
      ensures proc == NONE <==> policy.None? || Take(policy.value, old(lines)).0.None?
      ensures proc != NONE ==> Take(policy.value, old(lines)) == (Some(proc), lines) && ticks == FRESH
      ensures proc != NONE ==> InTable(proc) && |pcbs| == SLOTS && pcbs[proc].state.Ready? && !Queued(lines, proc)
    {
      hide Inv, IsQueue, SameButLinks, Relinked, PickLevel, Scan;
      LinksSame(pcbs);
      if policy.None? {
        return NONE;
      }
      var order, i := Scan(policy.value), 0;
      while i < |order|
        invariant 0 <= i <= |order| && Now(cur, limbo) == old(Now(cur, limbo)) && ticks == old(ticks)
        invariant PickLevel(lines, order[i..]) == PickLevel(lines, order)
      {
        PickStep(lines, order, i);
        proc := PopLevel(order[i], cur, limbo);
        if proc != NONE {
          ticks := FRESH;
          return;
        }
        i := i + 1;
      }
      PickNone(lines, order[i..]);
      return NONE;
    }

    /** Takes the head of one line, if it has one. */
    method PopLevel(level: int, ghost cur: int, ghost limbo: int) returns (proc: int)
      requires Inv(Now(cur, limbo)) && 0 <= level < 4
      modifies `pcbs, `queues, `lines
      ensures Inv(Now(cur, limbo)) && SameButLinks(old(pcbs), pcbs)
      ensures old(lines)[level] == [] ==> proc == NONE && Now(cur, limbo) == old(Now(cur, limbo))
      ensures old(lines)[level] != [] ==> proc == old(lines)[level][0] && lines == old(lines)[level := old(lines)[level][1..]]
      ensures proc != NONE ==> InTable(proc) && |pcbs| == SLOTS && pcbs[proc].state.Ready? && !Queued(lines, proc)
      ensures proc == NONE <==> old(lines)[level] == []
    {
      hide Inv, IsQueue, SameButLinks, Relinked, Queued;
      LinksSame(pcbs);
      ghost var was := Now(cur, limbo);
      LineAt(was, level);
      ghost var s := lines[level];
      var q;
      q, proc := QueuePop(queues[level], s);
      queues := queues[level := q];
      if s != [] {
        assert Without(s, s[0]) == s[1..];
        ReadyMember(was, level, proc);
        Parted(was, level, proc, pcbs, q);
        RelinkedIs(was.t, pcbs, s);
        lines := lines[level := s[1..]];
        StateKept(was.t, pcbs, proc);
      } else {
        NotASlot(was, level);
      }
    }

    method SchedulerRemove(proc: int, ghost cur: int, ghost limbo: int)
      requires Inv(Now(cur, limbo))
      modifies `pcbs, `queues, `lines
      ensures Inv(Now(cur, limbo)) && SameButLinks(old(pcbs), pcbs) && !Queued(lines, proc)
      ensures lines == if policy.None? then old(lines) else Dequeue(old(lines), proc)
    {
      hide Inv, IsQueue, SameButLinks, Relinked, Queued, Dequeue;
      LinksSame(pcbs);
      ghost var was := Now(cur, limbo);
      OnlyFirst(was, proc);
      if policy == Some(Fcfs) || policy == Some(Rr) {
        RemoveFrom(0, proc, cur, limbo);
      } else if policy.Some? {
        var i := 0;
        while i < 4
          invariant 0 <= i <= 4 && Now(cur, limbo) == was && pcbs == old(pcbs)
          invariant forall j :: 0 <= j < i ==> proc !in lines[j]
        {
          LineAt(was, i);
          var found := QueueContains(queues[i], proc, lines[i]);
          if found {
            RemoveFrom(i, proc, cur, limbo);
            return;
          }
          i := i + 1;
        }
        NowhereQueued(lines, proc);
      }
    }

    /** Removes the process from one line, on which it waits if it waits anywhere. */
    method RemoveFrom(level: int, proc: int, ghost cur: int, ghost limbo: int)
      requires Inv(Now(cur, limbo)) && 0 <= level < 4 && (Queued(lines, proc) ==> proc in lines[level])
      modifies `pcbs, `queues, `lines
      ensures Inv(Now(cur, limbo)) && SameButLinks(old(pcbs), pcbs) && !Queued(lines, proc)
      ensures lines == Dequeue(old(lines), proc)
    {
      hide Inv, IsQueue, SameButLinks, Relinked, Queued, Dequeue;
      LinksSame(pcbs);
      ghost var was := Now(cur, limbo);
      LineAt(was, level);
      var q := QueueRemove(queues[level], proc, lines[level]);
      queues := queues[level := q];
      if proc in was.lines[level] {
        Parted(was, level, proc, pcbs, q);
        RelinkedIs(was.t, pcbs, was.lines[level]);
        lines := Dequeue(lines, proc);
      } else {
        NotASlot(was, level);
        DequeueAbsent(lines, proc);
      }
    }

    /** Selecting a policy by number restarts it; any other number is ignored. */
    method SchedulerSet(id: int)
      requires Valid()
      modifies `policy, `queues, `lines, `ticks
      ensures Valid()
      ensures 0 <= id < 4 ==> policy == Some([Fcfs, Rr, Priority, Mlq][id]) && lines == [[], [], [], []] && ticks == FRESH
      ensures !(0 <= id < 4) ==> policy == old(policy) && lines == old(lines) && ticks == old(ticks) && queues == old(queues)
    {
      hide Inv;
      var chosen;
      match id {
        case 0 => chosen := Fcfs;
        case 1 => chosen := Rr;
        case 2 => chosen := Priority;
        case 3 => chosen := Mlq;
        case _ => return;
      }
      Restarted(Now(current, NONE), chosen);
      policy := Some(chosen);
      queues := [EMPTY, EMPTY, EMPTY, EMPTY];
      lines := [[], [], [], []];
      ticks := FRESH;
    }

    /** Counts a tick against the current process unless it is the idle process or nobody. */
    method SchedulerTick()
      requires Valid()
      modifies `ticks, `needResched
      ensures |ticks| == 4
      ensures Counting() ==> ticks == old(ticks)[CountedLevel() := old(ticks)[CountedLevel()] + 1]
      ensures !Counting() ==> ticks == old(ticks)
      ensures needResched <==> Counting() && ticks[CountedLevel()] >= Quanta(policy.value)[CountedLevel()]
    {
      hide Inv, LevelOf;
      CurrentInTable(Now(current, NONE));
      if policy.Some? && !policy.value.Fcfs? && current != NONE && pcbs[current].pid > 1 {
        var level := if policy.value.Mlq? then LevelOf(Mlq, pcbs[current].priority) else 0;
        ticks := ticks[level := ticks[level] + 1];
        if ticks[level] >= Quanta(policy.value)[level] {
          needResched := true;
        }
      }
    }

    /** Somebody other than the idle process runs under a policy with a quantum. */
    ghost predicate Counting()
      reads this
    {
      policy.Some? && !policy.value.Fcfs? && 0 <= current < |pcbs| && pcbs[current].pid > 1
    }

    ghost function CountedLevel(): (k: int)
      requires Counting()
      reads this
      ensures 0 <= k < 4
    {
      if policy.value.Mlq? then LevelOf(Mlq, pcbs[current].priority) else 0
    }

    // ----- process/pcb.c -----

    method PcbAlloc() returns (p: int)
      requires Inv(Now(current, NONE))
      modifies `pcbs, `slotFree
      ensures p == NONE ==> pcbs == old(pcbs) && slotFree == old(slotFree) && |Live(pcbs)| == SLOTS
      ensures p != NONE ==> InTable(p) && Inv(Now(current, p)) && !Active(old(pcbs), p)
      ensures p != NONE ==> pcbs == old(pcbs)[p := Pcb(0, Embryo, 1, NONE)]
      ensures p != NONE ==> forall j :: 0 <= j < p ==> Active(old(pcbs), j)
    {
      hide Inv, Live, Active, ClearBitOf;
      ghost var was := Now(current, NONE);
      FreeSlots(was);
      if slotFree == 0 {
        return NONE;
      }
      p := LowestBit(slotFree);
      BitInWidth(slotFree, p, 64);
      Claimed(was, p);
      InvLength(was);
      slotFree := ClearBitOf(slotFree, p);
      pcbs := pcbs[p := Pcb(0, Embryo, 1, NONE)];
    }

    /** Terminates the process in a slot and gives the slot back; null and strange pointers are ignored. */
    method PcbFree(p: int, ghost cur: int)
      requires |pcbs| == SLOTS
      modifies `pcbs, `slotFree
      ensures !InTable(p) ==> pcbs == old(pcbs) && slotFree == old(slotFree)
      ensures InTable(p) ==> pcbs == old(pcbs)[p := old(pcbs)[p].(state := Terminated)] && slotFree == SetBitOf(old(slotFree), p)
      ensures InTable(p) && old(Inv(Now(cur, p)) && pcbs[p].state.Terminated?) ==> Inv(Now(cur, NONE)) && pcbs == old(pcbs)
    {
      hide Inv;
      if p == NONE { return; }
      if p < 0 || p >= SLOTS { return; }
      ghost var t := pcbs;
      if Inv(Now(cur, p)) && pcbs[p].state.Terminated? {
        Released(Now(cur, p));
        assert pcbs[p := pcbs[p].(state := Terminated)] == t;
      }
      pcbs := pcbs[p := pcbs[p].(state := Terminated)];
      slotFree := SetBitOf(slotFree, p);
    }

    method PcbByPid(pid: u32) returns (p: int)
      requires |pcbs| == SLOTS
      ensures p != NONE ==> Active(pcbs, p) && pcbs[p].pid == pid && forall j :: 0 <= j < p && Active(pcbs, j) ==> pcbs[j].pid != pid
      ensures p == NONE ==> forall j :: Active(pcbs, j) ==> pcbs[j].pid != pid
    {
      p := 0;
      while p < SLOTS
        invariant 0 <= p <= SLOTS
        invariant forall j :: 0 <= j < p && Active(pcbs, j) ==> pcbs[j].pid != pid
      {
        if pcbs[p].pid == pid && !pcbs[p].state.Embryo? && !pcbs[p].state.Terminated? {
          return;
        }
        p := p + 1;
      }
      return NONE;
    }

    /** The first `max` live slots in ascending order. */
    method EnumActive(max: nat) returns (buf: seq<int>)
      requires |pcbs| == SLOTS
      ensures |buf| <= max && (forall i, j :: 0 <= i < j < |buf| ==> buf[i] < buf[j])
      ensures forall x :: x in buf ==> Active(pcbs, x)
      ensures |buf| < max ==> forall x :: Active(pcbs, x) ==> x in buf
      ensures forall x, y :: Active(pcbs, x) && y in buf && x < y ==> x in buf
    {
      buf := [];
      var i := 0;
      while i < SLOTS && |buf| < max
        invariant 0 <= i <= SLOTS && |buf| <= max
        invariant forall a, b :: 0 <= a < b < |buf| ==> buf[a] < buf[b]
        invariant forall x :: x in buf ==> Active(pcbs, x) && x < i
        invariant forall x :: Active(pcbs, x) && x < i ==> x in buf
      {
        assert forall a :: 0 <= a < |buf| ==> buf[a] in buf;
        if !pcbs[i].state.Embryo? && !pcbs[i].state.Terminated? {
          buf := buf + [i];
        }
        i := i + 1;
      }
    }

    // ----- process/process.c -----

    /** A new process takes the lowest free slot, the next pid and a place at the end of its line. */
    method Create(priority: u32) returns (p: int)
      requires Valid()
      modifies this
      ensures Valid() && current == old(current) && policy == old(policy) && ticks == old(ticks)
      ensures p == NONE <==> |Live(old(pcbs))| == 64
      ensures p == NONE ==> Now(current, NONE) == old(Now(current, NONE))
      ensures p != NONE ==> InTable(p) && |old(pcbs)| == SLOTS && OthersSame(old(pcbs), pcbs, p)
      ensures p != NONE ==> !Active(old(pcbs), p) && forall j :: 0 <= j < p ==> Active(old(pcbs), j)
      ensures p != NONE ==> pcbs[p].pid == old(nextPid) && pcbs[p].state.Ready? && pcbs[p].priority == priority
      ensures p != NONE ==> created == old(created) + 1 && processCount == old(processCount) + 1
      ensures p != NONE ==> lines == if policy.None? then old(lines) else Enqueue(policy.value, old(lines), p, priority)
    {
      hide Inv, Live, Active, Queued, Enqueue, SameButLinks, Pow2;
      ghost var was := Now(current, NONE);
      InvLength(was);
      p := PcbAlloc();
      if p == NONE {
        return;
      }
      Room(was, p);
      Enliven(p, priority);
      ghost var t := pcbs;
      SchedulerAdd(p, current, NONE);
      CreatedSame(was.t, t, pcbs, p);
    }

    /** The claimed slot gets the next pid and becomes ready. */
    method Enliven(p: int, priority: u32)
      requires InTable(p) && Inv(Now(current, p)) && |pcbs| == SLOTS && pcbs[p] == Pcb(0, Embryo, 1, NONE)
      requires nextPid == (created + 1) % TWO_32
      modifies `pcbs, `nextPid, `processCount, `created
      ensures Inv(Now(current, NONE)) && !Queued(lines, p) && p != current
      ensures pcbs == old(pcbs)[p := Pcb(old(nextPid), Ready, priority, NONE)]
      ensures created == old(created) + 1 && processCount == old(processCount) + 1 && nextPid == (created + 1) % TWO_32
    {
      hide Inv, Queued;
      Born(Now(current, p), priority);
      pcbs := pcbs[p := pcbs[p].(pid := nextPid, priority := priority, state := Ready)];
      nextPid := (nextPid + 1) % TWO_32;
      processCount := processCount + 1;
      created := created + 1;
    }

    /** The current process ends and the scheduler's next one takes over; with none the machine halts. */
    method Exit() returns (halted: bool)
      requires Valid()
      modifies this
      ensures old(current) == NONE ==> !halted && unchanged(this)
      ensures old(current) != NONE ==> (halted <==> policy.None? || Take(policy.value, old(lines)).0.None?)
      ensures !halted ==> Valid() && created == old(created) && policy == old(policy)
      ensures old(current) != NONE && !halted ==> Take(policy.value, old(lines)) == (Some(current), lines)
      ensures old(current) != NONE && !halted ==> Ended(old(pcbs), pcbs, old(current)) && ticks == FRESH
      ensures old(current) != NONE && !halted ==> Runs(old(pcbs), pcbs, old(current), current)
    {
      hide Inv, Live, Active, Queued, Take, SameButLinks, TicksOk, Runs, Ended;
      if current == NONE {
        return false;
      }
      ghost var was := Now(current, NONE);
      CurrentInTable(was);
      NoCurrent(was);
      FourTicks(policy, ticks);
      Died(Now(NONE, NONE), current);
      pcbs := pcbs[current := pcbs[current].(state := Terminated)];
      processCount := processCount - 1;
      var dead := current;
      ghost var mid := Now(NONE, dead);
      var next := SchedulerNext(NONE, dead);
      if next == NONE {
        return true;
      }
      StateKept(mid.t, pcbs, dead);
      ExitDone(was.t, pcbs, dead, next);
      HandOver(dead, next);
      FreshOk(policy);
      return false;
    }

    /** The chosen process runs as the current one and the slot of the dead one is given back. */
    method HandOver(dead: int, next: int)
      requires InTable(dead) && InTable(next) && dead != next && Inv(Now(NONE, dead)) && |pcbs| == SLOTS
      requires pcbs[dead].state.Terminated? && pcbs[next].state.Ready? && !Queued(lines, next)
      modifies `pcbs, `current, `slotFree
      ensures Inv(Now(current, NONE)) && current == next
      ensures pcbs == old(pcbs)[next := old(pcbs)[next].(state := Running)]
    {
      hide Inv, Active, Queued;
      ReadyActive(pcbs, next);
      Restated(Now(NONE, dead), next, Running);
      pcbs := pcbs[next := pcbs[next].(state := Running)];
      Elected(Now(NONE, dead), next);
      current := next;
      PcbFree(dead, next);
    }

    /** Kills by pid: never pid 1, the current process by exiting, any other by leaving its line. */
    method Kill(pid: u32) returns (result: int, halted: bool, ghost victim: int)
      requires Valid()
      modifies this
      ensures !halted ==> Valid() && created == old(created) && policy == old(policy)
      ensures result == -1 <==> pid == 1 || forall i :: Active(old(pcbs), i) ==> old(pcbs)[i].pid != pid
      ensures result == -1 ==> !halted && unchanged(this)
      ensures result != -1 ==> result == 0
      ensures result == 0 && old(IsCurrent(pid)) ==> victim == old(current)
      ensures result == 0 && old(IsCurrent(pid)) ==> (halted <==> policy.None? || Take(policy.value, old(lines)).0.None?)
      ensures result == 0 && old(IsCurrent(pid)) && !halted ==>
        && Take(policy.value, old(lines)) == (Some(current), lines) && ticks == FRESH
        && Ended(old(pcbs), pcbs, victim) && Runs(old(pcbs), pcbs, victim, current)
      ensures result == 0 && !old(IsCurrent(pid)) ==> !halted && current == old(current) && ticks == old(ticks)
      ensures result == 0 && !old(IsCurrent(pid)) ==> Victim(old(pcbs), pid, victim) && victim != current
      ensures result == 0 && !old(IsCurrent(pid)) ==> Ended(old(pcbs), pcbs, victim) && OthersSame(old(pcbs), pcbs, victim)
      ensures result == 0 && !old(IsCurrent(pid)) ==>
        lines == if policy.None? then old(lines) else Dequeue(old(lines), victim)
    {
      hide Inv, Live, Queued, Take, SameButLinks, TicksOk, Runs, Ended, Dequeue;
      CurrentInTable(Now(current, NONE));
      victim := NONE;
      if pid == 1 {
        return -1, false, victim;
      }
      if current != NONE && pcbs[current].pid == pid {
        victim := current;
        halted := Exit();
        return 0, halted, victim;
      }
      var proc := PcbByPid(pid);
      if proc == NONE {
        return -1, false, victim;
      }
      victim := proc;
      Bury(proc);
      return 0, false, victim;
    }

    ghost predicate IsCurrent(pid: u32)
      reads this
    {
      0 <= current < |pcbs| && pcbs[current].pid == pid
    }

    /** Takes a live process other than the current one off its line and gives its slot back. */
    method Bury(proc: int)
      requires Valid() && Active(pcbs, proc) && proc != current
      modifies this
      ensures Valid() && created == old(created) && policy == old(policy) && current == old(current) && ticks == old(ticks)
      ensures Ended(old(pcbs), pcbs, proc) && OthersSame(old(pcbs), pcbs, proc)
      ensures lines == if policy.None? then old(lines) else Dequeue(old(lines), proc)
    {
      hide Inv, Live, Queued, SameButLinks, TicksOk, Dequeue, IsQueue;
      ghost var was := Now(current, NONE);
      SchedulerRemove(proc, current, NONE);
      ghost var mid := pcbs;
      InvLength(Now(current, NONE));
      ActiveKept(was.t, mid, proc);
      EmptyQueue(pcbs);
      blocked := QueueRemove(blocked, proc, []);
      Died(Now(current, NONE), proc);
      pcbs := pcbs[proc := pcbs[proc].(state := Terminated)];
      processCount := processCount - 1;
      BuryDone(was.t, mid, proc);
      PcbFree(proc, current);
    }

    /** The current process goes to the end of its line and the scheduler's next one runs. */
    method Yield()
      requires Valid()
      modifies this
      ensures Valid() && Yielded(old(this.State()), State()) && Steady(old(pcbs), pcbs)
    {
      hide Inv, TicksOk, Yielded, Steady;
      FourTicks(policy, ticks);
      SwitchAway();
      if old(current) != NONE && policy.Some? { FreshOk(policy); }
    }

    /** What a yield and the observers of the schedule look at. */
    ghost function State(): (s: Snapshot)
      reads this
    {
      Snapshot(pcbs, policy, lines, current, ticks, created)
    }

    method SwitchAway()
      requires Inv(Now(current, NONE)) && |ticks| == 4
      modifies `pcbs, `queues, `lines, `ticks, `current
      ensures Inv(Now(current, NONE)) && Yielded(old(State()), State()) && Steady(old(pcbs), pcbs)
      ensures ticks == if old(current) != NONE && policy.Some? then FRESH else old(ticks)
    {
      hide Inv, Live, Active, Queued, Take, Enqueue, SameButLinks, Runs, Steady;
      SteadySame(pcbs);
      if current == NONE {
        return;
      }
      ghost var was := Now(current, NONE);
      CurrentInTable(was);
      NoCurrent(was);
      Restated(Now(NONE, NONE), current, Ready);
      pcbs := pcbs[current := pcbs[current].(state := Ready)];
      ghost var ready := pcbs;
      SchedulerAdd(current, NONE, NONE);
      ghost var added := pcbs;
      var next := SchedulerNext(NONE, NONE);
      YieldLinks(was.t, ready, added, pcbs, current);
      ghost var popped := pcbs;
      if policy.Some? {
        TakeAdded(policy.value, was.lines, current, was.t[current].priority);
      }
      if next == NONE {
        SchedulerRemove(current, NONE, NONE);
        YieldLinks(was.t, ready, popped, pcbs, current);
        ReadyActive(pcbs, current);
        Elected(Now(NONE, NONE), current);
        return;
      }
      ReadyActive(pcbs, next);
      Restated(Now(NONE, NONE), next, Running);
      YieldDone(was.t, pcbs, current, next);
      pcbs := pcbs[next := pcbs[next].(state := Running)];
      Elected(Now(NONE, NONE), next);
      current := next;
    }

    /** The timer interrupt: a tick, and a yield when the quantum is used up. */
    method Interrupt()
      requires Valid()
      modifies this
      ensures Valid() && Ticked(old(State()), State()) && Steady(old(pcbs), pcbs)
    {
      hide Inv, Yielded, Steady, LevelOf;
      SteadySame(pcbs);
      SchedulerTick();
      if needResched {
        needResched := false;
        ghost var before := State();
        SwitchAway();
        YieldedAnyTicks(old(State()), before, State());
        FreshOk(policy);
      }
    }

    /** Boot hands the processor to a live process that is not queued. */
    method Adopt(p: int)
      requires Valid() && Active(pcbs, p) && !Queued(lines, p)
      modifies `current
      ensures Valid() && current == p
    {
      hide Inv, Queued, Active, TicksOk;
      Elected(Now(current, NONE), p);
      current := p;
    }

    /** An empty table with the idle process created before any policy is selected. */
    constructor ()
      ensures Valid() && policy.None? && current == NONE && created == 1 && processCount == 1
      ensures lines == [[], [], [], []] && Live(pcbs) == {0} && |pcbs| == SLOTS && pcbs[0].pid == 1 && pcbs[0].state.Ready?
    {
      hide Inv, Enqueue, Pow2;
      pcbs := seq(SLOTS, _ => Pcb(0, Terminated, 0, NONE));
      slotFree := Pow2(64) - 1;
      queues := [EMPTY, EMPTY, EMPTY, EMPTY];
      blocked := EMPTY;
      policy := None;
      current := NONE;
      nextPid := 1;
      processCount := 0;
      needResched := false;
      ticks := FRESH;
      lines := [[], [], [], []];
      created := 0;
      new;
      EmptyMachine(Now(NONE, NONE));
      ghost var before := pcbs;
      var idle := Create(0);
      IdleOnly(before, pcbs, idle);
      assert idle > 0 ==> Active(before, 0);
    }
  }

  // ----- views of the invariant -----

  lemma LinksSame(t: seq<Pcb>)
    ensures SameButLinks(t, t)
  {
  }

  lemma RelinkedIs(t: seq<Pcb>, t': seq<Pcb>, s: seq<int>)
    requires Relinked(t, t', s)
    ensures SameButLinks(t, t')
  {
  }

  lemma StateKept(t: seq<Pcb>, t': seq<Pcb>, p: int)
    requires SameButLinks(t, t') && 0 <= p < |t|
    ensures p < |t'| && t'[p].state == t[p].state && t'[p].priority == t[p].priority && t'[p].pid == t[p].pid
  {
  }

  lemma LineAt(m: Machine, k: int)
    requires Inv(m) && 0 <= k < 4
    ensures |m.t| == SLOTS && |m.qs| == 4 && IsQueue(m.t, m.qs[k], m.lines[k])
  {
  }

  lemma ReadyMember(m: Machine, k: int, p: int)
    requires Inv(m) && 0 <= k < 4 && p in m.lines[k]
    ensures InTable(p) && |m.t| == SLOTS && m.t[p].state.Ready?
  {
  }

  lemma NotASlot(m: Machine, k: int)
    requires Inv(m) && 0 <= k < 4
    ensures m.qs[k := m.qs[k]] == m.qs
  {
  }

  lemma NowhereQueued(lines: Levels, p: int)
    requires forall j :: 0 <= j < 4 ==> p !in lines[j]
    ensures !Queued(lines, p) && Dequeue(lines, p) == lines
  {
    DequeueAbsent(lines, p);
  }

  lemma DequeueAbsent(lines: Levels, p: int)
    requires !Queued(lines, p)
    ensures Dequeue(lines, p) == lines
  {
    WithoutAbsent(lines[0], p);
    WithoutAbsent(lines[1], p);
    WithoutAbsent(lines[2], p);
    WithoutAbsent(lines[3], p);
  }

  /** The policies with a single queue use line 0 only, and no policy uses none. */
  lemma OnlyFirst(m: Machine, p: int)
    requires Inv(m)
    ensures Queued(m.lines, p) ==> m.policy.Some?
    ensures Queued(m.lines, p) && (m.policy.value.Fcfs? || m.policy.value.Rr?) ==> p in m.lines[0]
  {
  }

  lemma CurrentInTable(m: Machine)
    requires Inv(m)
    ensures |m.t| == SLOTS && (m.cur != NONE ==> InTable(m.cur) && Active(m.t, m.cur) && !Queued(m.lines, m.cur))
  {
  }

  /** Outside a step, the free bits are exactly the slots without a live process. */
  lemma FreeSlots(m: Machine)
    requires Inv(m) && m.limbo == NONE
    ensures m.free < Pow2(64)
    ensures forall i :: 0 <= i < SLOTS ==> (BitOf(m.free, i) <==> !Active(m.t, i))
    ensures m.free == 0 ==> |Live(m.t)| == SLOTS
  {
    hide Upto, LinesOk, PidsOk;
    assert forall i :: 0 <= i < SLOTS ==> SlotOk(m.t[i].state, BitOf(m.free, i), i == m.limbo);
    if m.free == 0 {
      forall i | 0 <= i < SLOTS ensures i in Live(m.t) { NoBits(i); }
      assert Live(m.t) == Upto(SLOTS);
    }
  }

  ghost function Upto(n: nat): (s: set<int>)
    ensures |s| == n && forall i :: i in s <==> 0 <= i < n
  {
    if n == 0 then {} else Upto(n - 1) + {n - 1}
  }

  /** Every process but one is unchanged up to its link. */
  ghost predicate OthersSame(t: seq<Pcb>, t': seq<Pcb>, p: int) {
    |t| == |t'| && forall i :: 0 <= i < |t| && i != p ==> t'[i] == t[i].(next := t'[i].next)
  }

  lemma CreatedSame(t: seq<Pcb>, mid: seq<Pcb>, t': seq<Pcb>, p: int)
    requires 0 <= p < |t| && |mid| == |t| && mid == t[p := mid[p]] && SameButLinks(mid, t')
    ensures OthersSame(t, t', p) && t'[p] == mid[p].(next := t'[p].next)
  {
    assert forall i :: 0 <= i < |t| && i != p ==> mid[i] == t[i];
  }

  lemma Room(m: Machine, p: int)
    requires Inv(m) && InTable(p) && !Active(m.t, p)
    ensures |Live(m.t)| < SLOTS
  {
    hide Upto, QueuesOk, LinesOk, PidsOk, SlotsOk;
    InvLength(m);
    var rest := Upto(SLOTS) - {p};
    assert rest == Live(m.t) + (rest - Live(m.t));
  }

  lemma NoCurrent(m: Machine)
    requires Inv(m)
    ensures Inv(m.(cur := NONE))
  {
  }

  /** A live process that waits nowhere may become the current one. */
  lemma Elected(m: Machine, p: int)
    requires Inv(m) && Active(m.t, p) && !Queued(m.lines, p)
    ensures Inv(m.(cur := p))
  {
  }

  lemma ReadyActive(t: seq<Pcb>, p: int)
    requires 0 <= p < |t| && (t[p].state.Ready? || t[p].state.Running?)
    ensures Active(t, p) && Active(t[p := t[p].(state := Running)], p)
  {
  }

  lemma FourTicks(policy: Option<Policy>, ticks: seq<nat>)
    requires TicksOk(policy, ticks)
    ensures |ticks| == 4
  {
  }

  lemma FreshOk(policy: Option<Policy>)
    ensures TicksOk(policy, FRESH)
  {
  }

  /** Process `p` is dead and every other one lives or not as before. */
  ghost predicate Ended(t: seq<Pcb>, t': seq<Pcb>, p: int) {
    |t| == |t'| && !Active(t', p) && forall i :: i != p ==> (Active(t', i) <==> Active(t, i))
  }

  /** Identities are kept, `next` runs, and only it and `p` changed state. */
  ghost predicate Runs(t: seq<Pcb>, t': seq<Pcb>, p: int, next: int) {
    && |t| == |t'|
    && (forall i :: 0 <= i < |t| ==> t'[i].pid == t[i].pid && t'[i].priority == t[i].priority)
    && (forall i :: 0 <= i < |t| && i != p && i != next ==> t'[i].state == t[i].state)
    && 0 <= next < |t| && t'[next].state.Running?
  }

  lemma ExitDone(t: seq<Pcb>, relinked: seq<Pcb>, dead: int, next: int)
    requires 0 <= dead < |t| && 0 <= next < |relinked| && dead != next
    requires SameButLinks(t[dead := t[dead].(state := Terminated)], relinked) && relinked[next].state.Ready?
    ensures var t' := relinked[next := relinked[next].(state := Running)];
      Ended(t, t', dead) && Runs(t, t', dead, next)
  {
    var mid := t[dead := t[dead].(state := Terminated)];
    assert forall i :: 0 <= i < |t| && i != dead ==> mid[i] == t[i];
    assert forall i :: 0 <= i < |t| ==> relinked[i] == mid[i].(next := relinked[i].next);
    var t' := relinked[next := relinked[next].(state := Running)];
    assert forall i :: 0 <= i < |t| && i != next ==> t'[i] == relinked[i];
  }

  /** The first slot holding a live process with this pid. */
  ghost predicate Victim(t: seq<Pcb>, pid: u32, p: int) {
    Active(t, p) && t[p].pid == pid && forall j :: 0 <= j < p && Active(t, j) ==> t[j].pid != pid
  }

  lemma EmptyQueue(t: seq<Pcb>)
    requires |t| == SLOTS
    ensures IsQueue(t, EMPTY, [])
  {
  }

  lemma ActiveKept(t: seq<Pcb>, t': seq<Pcb>, p: int)
    requires SameButLinks(t, t')
    ensures Active(t', p) <==> Active(t, p)
  {
  }

  lemma BuryDone(t: seq<Pcb>, mid: seq<Pcb>, p: int)
    requires 0 <= p < |t| && SameButLinks(t, mid)
    ensures var t' := mid[p := mid[p].(state := Terminated)]; Ended(t, t', p) && OthersSame(t, t', p)
  {
    var t' := mid[p := mid[p].(state := Terminated)];
    assert forall i :: 0 <= i < |t| && i != p ==> t'[i] == mid[i];
  }

  datatype Snapshot = Snapshot(t: seq<Pcb>, policy: Option<Policy>, lines: Levels, cur: int, ticks: seq<nat>, created: nat)

  /** Nobody running or no policy: the lines stay; otherwise the policy picks with the current process back in line. */
  ghost predicate Yielded(s: Snapshot, s': Snapshot) {
    && s'.policy == s.policy && s'.created == s.created
    && (s.cur == NONE || s.policy.None? ==> s'.lines == s.lines && s'.cur == s.cur && s'.ticks == s.ticks)
    && (s.cur != NONE && s.policy.Some? ==>
          && 0 <= s.cur < |s.t| && s'.ticks == FRESH
          && Take(s.policy.value, Enqueue(s.policy.value, s.lines, s.cur, s.t[s.cur].priority)) == (Some(s'.cur), s'.lines)
          && Runs(s.t, s'.t, s.cur, s'.cur))
  }

  /** Nobody is born, dies or changes identity. */
  ghost predicate Steady(t: seq<Pcb>, t': seq<Pcb>) {
    && |t| == |t'|
    && (forall i :: 0 <= i < |t| ==> t'[i].pid == t[i].pid && t'[i].priority == t[i].priority)
    && (forall i :: Active(t', i) <==> Active(t, i))
  }

  lemma SteadySame(t: seq<Pcb>)
    ensures Steady(t, t)
  {
  }

  /** Making the current process ready and relinking leaves everybody else alone. */
  lemma YieldLinks(t: seq<Pcb>, ready: seq<Pcb>, added: seq<Pcb>, t': seq<Pcb>, cur: int)
    requires 0 <= cur < |t| && Active(t, cur) && ready == t[cur := t[cur].(state := Ready)]
    requires SameButLinks(ready, added) && SameButLinks(added, t')
    ensures SameButLinks(ready, t') && Steady(t, t') && t'[cur].state.Ready?
    ensures t'[cur].priority == t[cur].priority
    ensures forall i :: 0 <= i < |t| && i != cur ==> t'[i].state == t[i].state
  {
    assert forall i :: 0 <= i < |t| && i != cur ==> ready[i] == t[i];
    assert forall i :: 0 <= i < |t| ==> t'[i] == ready[i].(next := t'[i].next);
  }

  lemma YieldDone(t: seq<Pcb>, mid: seq<Pcb>, cur: int, next: int)
    requires Steady(t, mid) && 0 <= next < |t| && Active(mid, next)
    requires forall i :: 0 <= i < |t| && i != cur ==> mid[i].state == t[i].state
    ensures var t' := mid[next := mid[next].(state := Running)]; Steady(t, t') && Runs(t, t', cur, next)
  {
    var t' := mid[next := mid[next].(state := Running)];
    assert forall i :: 0 <= i < |t| && i != next ==> t'[i] == mid[i];
  }

  /** Once somebody has joined there is somebody to take. */
  lemma TakeAdded(policy: Policy, lines: Levels, p: int, priority: nat)
    ensures Take(policy, Enqueue(policy, lines, p, priority)).0.Some?
  {
    var r := Enqueue(policy, lines, p, priority);
    var k := LevelOf(policy, priority);
    assert r[k] != [];
    ScanCovers(policy, priority);
    PickSome(r, Scan(policy), k);
  }

  lemma ScanCovers(policy: Policy, priority: nat)
    ensures LevelOf(policy, priority) in Scan(policy)
  {
    var ks := Scan(policy);
    if policy.Priority? {
      assert ks[0] == 3 && ks[1] == 2 && ks[2] == 1 && ks[3] == 0;
    } else if policy.Mlq? {
      assert ks[0] == 0 && ks[1] == 1 && ks[2] == 2 && ks[3] == 3;
    }
  }

  lemma {:induction false} PickSome(r: Levels, ks: seq<int>, k: int)
    requires forall i :: 0 <= i < |ks| ==> 0 <= ks[i] < 4
    requires k in ks && r[k] != []
    ensures PickLevel(r, ks) != -1
  {
    if r[ks[0]] == [] {
      PickSome(r, ks[1..], k);
    }
  }

  /** The quantum of the running process is charged; when it is used up the process yields. */
  ghost predicate Ticked(s: Snapshot, s': Snapshot) {
    var counts := s.policy.Some? && !s.policy.value.Fcfs? && 0 <= s.cur < |s.t| && s.t[s.cur].pid > 1;
    if |s.ticks| != 4 then false
    else if !counts then s' == s
    else
      var k := if s.policy.value.Mlq? then LevelOf(Mlq, s.t[s.cur].priority) else 0;
      if s.ticks[k] + 1 >= Quanta(s.policy.value)[k] then Yielded(s, s') else s' == s.(ticks := s.ticks[k := s.ticks[k] + 1])
  }

  /** The ticks a process of this priority gets: 2, 4, 6 or 8 by level under the multilevel policy, 3 otherwise. */
  function Allowance(policy: Policy, priority: nat): (n: nat)
    ensures n > 0
  {
    if !policy.Mlq? then 3
    else if priority >= 3 then 2 else if priority == 2 then 4 else if priority == 1 then 6 else 8
  }

  ghost predicate TickRun(states: seq<Snapshot>) {
    forall i :: 0 <= i < |states| - 1 ==> Ticked(states[i], states[i + 1])
  }

  /** On ticks alone, a freshly dispatched process keeps the processor until its allowance is used up and yields then. */
  lemma {:induction false} QuantumExactly(states: seq<Snapshot>, i: nat)
    requires TickRun(states) && i < |states|
    requires var s := states[0];
      && s.policy.Some? && !s.policy.value.Fcfs? && s.ticks == [0, 0, 0, 0]
      && 0 <= s.cur < |s.t| && s.t[s.cur].pid > 1 && i <= Allowance(s.policy.value, s.t[s.cur].priority)
    ensures var s := states[0];
      var n := Allowance(s.policy.value, s.t[s.cur].priority);
      && (i < n ==> states[i] == s.(ticks := states[i].ticks) && |states[i].ticks| == 4)
      && (i < n ==> states[i].ticks == [0, 0, 0, 0][(if s.policy.value.Mlq? then LevelOf(Mlq, s.t[s.cur].priority) else 0) := i])
      && (i == n ==> Yielded(s, states[i]))
  {
    hide Yielded;
    var s := states[0];
    var k := if s.policy.value.Mlq? then LevelOf(Mlq, s.t[s.cur].priority) else 0;
    if i == 0 {
      assert [0, 0, 0, 0][k := 0] == [0, 0, 0, 0];
    } else {
      QuantumExactly(states, i - 1);
      assert Ticked(states[i - 1], states[i]);
      assert Quanta(s.policy.value)[k] == Allowance(s.policy.value, s.t[s.cur].priority);
      if i == Allowance(s.policy.value, s.t[s.cur].priority) {
        YieldedAnyTicks(s, states[i - 1], states[i]);
      }
    }
  }

  /** Under first come first served, and for the idle process, ticks change nothing. */
  lemma {:induction false} NoQuantum(states: seq<Snapshot>, i: nat)
    requires TickRun(states) && i < |states|
    requires states[0].policy == Some(Fcfs) || (0 <= states[0].cur < |states[0].t| && states[0].t[states[0].cur].pid <= 1)
    ensures states[i] == states[0]
  {
    hide Yielded;
    if i > 0 {
      NoQuantum(states, i - 1);
      assert Ticked(states[i - 1], states[i]);
    }
  }

  lemma YieldedAnyTicks(s: Snapshot, mid: Snapshot, s': Snapshot)
    requires Yielded(mid, s') && mid == s.(ticks := mid.ticks) && s.cur != NONE && s.policy.Some?
    ensures Yielded(s, s')
  {
  }

  lemma {:induction false} AllOnes(n: nat, k: nat)
    requires k < n
    ensures BitOf(Pow2(n) - 1, k)
  {
    if k > 0 {
      assert (Pow2(n) - 1) / 2 == Pow2(n - 1) - 1;
      AllOnes(n - 1, k - 1);
    }
  }

  lemma EmptyMachine(m: Machine)
    requires m.t == seq(SLOTS, _ => Pcb(0, Terminated, 0, NONE)) && m.free == Pow2(64) - 1
    requires m.qs == [EMPTY, EMPTY, EMPTY, EMPTY] && m.lines == [[], [], [], []] && m.policy.None?
    requires m.cur == NONE && m.limbo == NONE && m.count == 0 && m.created == 0
    ensures Inv(m) && Live(m.t) == {} && forall i :: !Active(m.t, i)
  {
    hide Pow2, BitOf, QueuesOk, SlotsOk, LinesOk;
    assert forall i :: !Active(m.t, i);
    AllFree(m.t, m.free);
    NoLines(m.t, m.policy);
  }

  lemma AllFree(t: seq<Pcb>, free: nat)
    requires |t| == SLOTS && free == Pow2(64) - 1 && forall i :: 0 <= i < SLOTS ==> t[i].state.Terminated?
    ensures SlotsOk(t, free, NONE)
  {
    forall i | 0 <= i < SLOTS ensures BitOf(free, i) { AllOnes(64, i); }
  }

  lemma NoLines(t: seq<Pcb>, policy: Option<Policy>)
    requires |t| == SLOTS
    ensures QueuesOk(t, [EMPTY, EMPTY, EMPTY, EMPTY], [[], [], [], []]) && LinesOk(t, [[], [], [], []], policy)
  {
  }

  lemma IdleOnly(t: seq<Pcb>, t': seq<Pcb>, p: int)
    requires |t| == SLOTS && (forall i :: !Active(t, i)) && InTable(p) && OthersSame(t, t', p) && t'[p].state.Ready?
    ensures Live(t') == {p}
  {
    forall i
      ensures Active(t', i) <==> i == p
    {
      assert Active(t', i) && i != p ==> Active(t, i);
    }
  }

  lemma PickStep(r: Levels, ks: seq<int>, i: int)
    requires forall j :: 0 <= j < |ks| ==> 0 <= ks[j] < 4
    requires 0 <= i < |ks|
    ensures PickLevel(r, ks[i..]) == if r[ks[i]] != [] then ks[i] else PickLevel(r, ks[i + 1..])
  {
    assert ks[i..][1..] == ks[i + 1..];
  }

  lemma PickNone(r: Levels, ks: seq<int>)
    requires ks == []
    ensures PickLevel(r, ks) == -1
  {
  }

  lemma PopSpells(t: seq<Pcb>, q: Queue, s: seq<int>)
    requires IsQueue(t, q, s) && s != []
    ensures var next := t[s[0]].next;
      IsQueue(Linked(t, s[0], NONE), Queue(next, if next == NONE then NONE else q.tail, q.count - 1), s[1..])
    ensures Relinked(t, Linked(t, s[0], NONE), s)
  {
    CutSpells(t, q, s, 0);
    assert Cut(s, 0) == s[1..];
  }
}
