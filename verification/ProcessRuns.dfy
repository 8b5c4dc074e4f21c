/**
 Whole runs of the process manager.  Every run keeps its invariant, and under
 round robin each operation is at most one event of the rotating ring, so the
 waiting bounds hold of the real queues.
 */
module ProcessRuns {
  import opened Bytes
  import opened Options
  import opened Schedulers
  import opened ProcessTable
  import opened ProcessMachine
  import opened Processes
  import RR = RoundRobin

  function JobOf(t: seq<Pcb>, p: int): (x: RR.Job) {
    RR.Job(p, if 0 <= p < |t| then t[p].pid else 0)
  }

  function JobsOf(t: seq<Pcb>, s: seq<int>): (q: seq<RR.Job>)
    ensures |q| == |s| && forall i :: 0 <= i < |s| ==> q[i] == JobOf(t, s[i])
  {
    if s == [] then [] else [JobOf(t, s[0])] + JobsOf(t, s[1..])
  }

  ghost function RingOf(s: Snapshot): (r: RR.Ring)
    requires |s.ticks| == 4
  {
    RR.Ring(JobOf(s.t, s.cur), JobsOf(s.t, s.lines[0]), s.ticks[0])
  }

  ghost predicate OnRr(s: Snapshot) {
    s.policy == Some(Rr) && 0 <= s.cur < |s.t| && |s.ticks| == 4 && s.ticks[0] < RR.QUANTUM
  }

  ghost predicate SamePids(t: seq<Pcb>, t': seq<Pcb>, s: seq<int>) {
    forall i :: 0 <= i < |s| ==> JobOf(t', s[i]) == JobOf(t, s[i])
  }

  lemma JobsSame(t: seq<Pcb>, t': seq<Pcb>, s: seq<int>)
    requires SamePids(t, t', s)
    ensures JobsOf(t', s) == JobsOf(t, s)
  {
  }

  lemma {:induction false} JobsDrop(t: seq<Pcb>, s: seq<int>, p: int)
    ensures JobsOf(t, Without(s, p)) == RR.Dropped(JobsOf(t, s), JobOf(t, p))
  {
    if s != [] {
      var q := JobsOf(t, s);
      assert q[1..] == JobsOf(t, s[1..]);
      if s[0] != p {
        JobsDrop(t, s[1..], p);
        var r := [s[0]] + Without(s[1..], p);
        assert r[1..] == Without(s[1..], p);
      }
    }
  }

  /** Under round robin the next process heads line 0. */
  lemma TakeFirst(r: Levels)
    ensures Take(Rr, r) == if r[0] == [] then (None, r) else (Some(r[0][0]), r[0 := r[0][1..]])
  {
    assert Scan(Rr)[1..] == [];
    assert PickLevel(r, Scan(Rr)) == if r[0] != [] then 0 else -1;
  }

  lemma RingYield(s: Snapshot, s': Snapshot)
    requires OnRr(s) && Yielded(s, s') && Steady(s.t, s'.t)
    ensures OnRr(s') && RingOf(s') == RR.Rotated(RingOf(s))
  {
    hide Take, Runs;
    var joined := s.lines[0] + [s.cur];
    TakeFirst(Enqueue(Rr, s.lines, s.cur, s.t[s.cur].priority));
    assert s'.cur == joined[0] && s'.lines[0] == joined[1..];
    YieldRuns(s, s');
    var q := RingOf(s).queue + [RingOf(s).cur];
    assert q == JobsOf(s'.t, joined);
    assert q[1..] == JobsOf(s'.t, joined[1..]);
  }

  lemma YieldRuns(s: Snapshot, s': Snapshot)
    requires OnRr(s) && Yielded(s, s')
    ensures 0 <= s'.cur < |s'.t|
  {
  }

  lemma RingTick(s: Snapshot, s': Snapshot)
    requires OnRr(s) && Ticked(s, s') && Steady(s.t, s'.t)
    ensures OnRr(s') && RingOf(s') == RR.Step(RingOf(s), RR.Tick)
  {
    hide Yielded, JobsOf, Steady;
    if s.t[s.cur].pid > 1 && s.ticks[0] + 1 >= RR.QUANTUM {
      RingYield(s, s');
    }
  }

  lemma RingSpawn(s: Snapshot, s': Snapshot, p: int)
    requires OnRr(s) && 0 <= p < |s.t| && OthersSame(s.t, s'.t, p) && p !in s.lines[0] && p != s.cur
    requires s'.policy == s.policy && s'.cur == s.cur && s'.ticks == s.ticks
    requires s'.lines == Enqueue(Rr, s.lines, p, s'.t[p].priority)
    ensures OnRr(s') && RingOf(s') == RR.Step(RingOf(s), RR.Spawn(JobOf(s'.t, p)))
  {
    assert s'.lines[0] == s.lines[0] + [p];
    assert forall i :: 0 <= i < |s.lines[0]| ==> s.lines[0][i] in s.lines[0];
    assert JobsOf(s'.t, s'.lines[0]) == JobsOf(s.t, s.lines[0]) + [JobOf(s'.t, p)];
  }

  lemma RingExit(s: Snapshot, s': Snapshot)
    requires OnRr(s) && Runs(s.t, s'.t, s.cur, s'.cur) && Take(Rr, s.lines) == (Some(s'.cur), s'.lines)
    requires s'.policy == s.policy && s'.ticks == FRESH
    ensures RingOf(s).queue != [] && OnRr(s') && RingOf(s') == RR.Step(RingOf(s), RR.Exit)
  {
    TakeFirst(s.lines);
    assert JobsOf(s'.t, s'.lines[0]) == JobsOf(s.t, s.lines[0])[1..];
  }

  lemma RingRemove(s: Snapshot, s': Snapshot, p: int)
    requires OnRr(s) && 0 <= p < |s.t| && OthersSame(s.t, s'.t, p) && p != s.cur && NoRepeats(s.lines[0])
    requires s'.policy == s.policy && s'.cur == s.cur && s'.ticks == s.ticks && s'.lines == Dequeue(s.lines, p)
    ensures OnRr(s') && RingOf(s') == RR.Step(RingOf(s), RR.Remove(JobOf(s.t, p)))
  {
    hide Without, JobsOf, RR.Dropped;
    var left := Without(s.lines[0], p);
    MembersWithout(s.lines[0], p);
    JobsDrop(s.t, s.lines[0], p);
    assert forall i :: 0 <= i < |left| ==> left[i] in left;
    JobsSame(s.t, s'.t, left);
  }

  // ----- runs -----

  datatype Op = Create(priority: u32) | Yield | Exit | Kill(pid: u32) | Tick | Select(id: int)

  /** The ring events stand for the operation: yields and ticks as such, and only a kill of its pid removes a job. */
  ghost predicate StandsFor(op: Op, es: seq<RR.Event>) {
    && |es| <= 1
    && (op.Yield? ==> es == [RR.Yield]) && (op.Tick? ==> es == [RR.Tick])
    && (es != [] && es[0].Yield? ==> op.Yield?) && (es != [] && es[0].Tick? ==> op.Tick?)
    && (es != [] && es[0].Remove? ==> op.Kill? && op.pid == es[0].t.pid)
  }

  ghost predicate Follows(s: Snapshot, es: seq<RR.Event>, s': Snapshot) {
    OnRr(s) ==> OnRr(s') && RR.Runs(RingOf(s), es) && RingOf(s') == RR.After(RingOf(s), es)
  }

  lemma OneEvent(s: Snapshot, e: RR.Event, s': Snapshot)
    requires OnRr(s) ==> OnRr(s') && RR.Enabled(RingOf(s), e) && RingOf(s') == RR.Step(RingOf(s), e)
    ensures Follows(s, [e], s')
  {
    hide RingOf, RR.Step;
    if OnRr(s) {
      RR.SingleStep(RingOf(s), e);
    }
  }

  /** What the invariant says about the lines of a valid kernel. */
  lemma LineFacts(m: Machine, p: int)
    requires Inv(m)
    ensures |m.t| == SLOTS && NoRepeats(m.lines[0]) && (m.cur == NONE || 0 <= m.cur < SLOTS)
    ensures !Active(m.t, p) ==> p !in m.lines[0] && (m.cur == NONE || p != m.cur)
  {
    assert IsQueue(m.t, m.qs[0], m.lines[0]);
  }

  method PerformCreate(k: Kernel, priority: u32) returns (ghost events: seq<RR.Event>)
    requires k.Valid()
    modifies k
    ensures k.Valid() && StandsFor(Create(priority), events) && Follows(old(k.State()), events, k.State())
  {
    hide Inv, OthersSame, Enqueue, RingOf;
    ghost var was := k.State();
    var p := k.Create(priority);
    events := [];
    if p != NONE {
      LineFacts(old(k.Now(k.current, NONE)), p);
      if OnRr(was) { RingSpawn(was, k.State(), p); }
      events := [RR.Spawn(JobOf(k.pcbs, p))];
      OneEvent(was, events[0], k.State());
    }
  }

  method PerformExit(k: Kernel) returns (halted: bool, ghost events: seq<RR.Event>)
    requires k.Valid()
    modifies k
    ensures !halted ==> k.Valid() && StandsFor(Exit, events) && Follows(old(k.State()), events, k.State())
  {
    hide Inv, Take, Ended, Runs, RingOf;
    ghost var was := k.State();
    halted := k.Exit();
    events := [];
    if !halted && was.cur != NONE {
      if OnRr(was) { RingExit(was, k.State()); }
      events := [RR.Exit];
      OneEvent(was, RR.Exit, k.State());
    }
  }

  method PerformKill(k: Kernel, pid: u32) returns (halted: bool, ghost events: seq<RR.Event>)
    requires k.Valid()
    modifies k
    ensures !halted ==> k.Valid() && StandsFor(Kill(pid), events) && Follows(old(k.State()), events, k.State())
  {
    hide Inv, Take, Ended, Runs, RingOf, OthersSame, Dequeue;
    ghost var was := k.State();
    ghost var victim;
    ghost var own := k.IsCurrent(pid);
    LineFacts(k.Now(k.current, NONE), 0);
    var result;
    result, halted, victim := k.Kill(pid);
    events := [];
    if !halted && result == 0 {
      if own {
        if OnRr(was) { RingExit(was, k.State()); }
        events := [RR.Exit];
        OneEvent(was, RR.Exit, k.State());
      } else {
        if OnRr(was) { RingRemove(was, k.State(), victim); }
        events := [RR.Remove(JobOf(was.t, victim))];
        OneEvent(was, events[0], k.State());
      }
    }
  }

  method Perform(k: Kernel, op: Op) returns (halted: bool, ghost events: seq<RR.Event>)
    requires k.Valid()
    modifies k
    ensures !halted ==> k.Valid()
    ensures !halted && !op.Select? ==> StandsFor(op, events) && Follows(old(k.State()), events, k.State())
  {
    hide Inv, Yielded, Ticked, Steady, RingOf;
    ghost var was := k.State();
    halted := false;
    events := [];
    match op {
      case Create(priority) => events := PerformCreate(k, priority);
      case Exit => halted, events := PerformExit(k);
      case Kill(pid) => halted, events := PerformKill(k, pid);
      case Select(id) => k.SchedulerSet(id);
      case Yield =>
        k.Yield();
        if OnRr(was) { RingYield(was, k.State()); }
        events := [RR.Yield];
        OneEvent(was, RR.Yield, k.State());
      case Tick =>
        k.Interrupt();
        if OnRr(was) { RingTick(was, k.State()); }
        events := [RR.Tick];
        OneEvent(was, RR.Tick, k.State());
    }
  }

  function Times(ops: seq<Op>, op: Op): (n: nat) {
    if ops == [] then 0 else (if ops[0] == op then 1 else 0) + Times(ops[1..], op)
  }

  /** The events of a whole run: as many yields and ticks, and nobody removed who was not killed. */
  ghost predicate Accounts(ops: seq<Op>, es: seq<RR.Event>) {
    && RR.Count(es, RR.Yield) == Times(ops, Yield) && RR.Count(es, RR.Tick) == Times(ops, Tick)
    && forall i :: 0 <= i < |es| && es[i].Remove? ==> Killed(ops, es[i].t.pid)
  }

  ghost predicate Killed(ops: seq<Op>, pid: int) {
    exists i :: 0 <= i < |ops| && ops[i].Kill? && ops[i].pid == pid
  }

  lemma AccountsBoth(op: Op, es: seq<RR.Event>, ops: seq<Op>, fs: seq<RR.Event>)
    requires StandsFor(op, es) && Accounts(ops, fs)
    ensures Accounts([op] + ops, es + fs)
  {
    var all := [op] + ops;
    assert all[1..] == ops;
    RR.CountBoth(es, fs, RR.Yield);
    RR.CountBoth(es, fs, RR.Tick);
    if es != [] {
      assert es == [es[0]] && es[1..] == [];
      assert RR.Count(es, RR.Yield) == (if es[0] == RR.Yield then 1 else 0) + RR.Count([], RR.Yield);
      assert RR.Count(es, RR.Tick) == (if es[0] == RR.Tick then 1 else 0) + RR.Count([], RR.Tick);
    }
    forall i | 0 <= i < |es + fs| && (es + fs)[i].Remove?
      ensures Killed(all, (es + fs)[i].t.pid)
    {
      if i < |es| {
        assert all[0] == op;
      } else {
        var j :| 0 <= j < |ops| && ops[j].Kill? && ops[j].pid == fs[i - |es|].t.pid;
        assert all[j + 1] == ops[j];
      }
    }
  }

  lemma FollowsBoth(s: Snapshot, es: seq<RR.Event>, mid: Snapshot, fs: seq<RR.Event>, s': Snapshot)
    requires Follows(s, es, mid) && Follows(mid, fs, s')
    ensures Follows(s, es + fs, s')
  {
    hide RingOf, RR.Runs, RR.After;
    if OnRr(s) {
      RR.AfterBoth(RingOf(s), es, fs);
    }
  }

  predicate NoSelect(ops: seq<Op>) {
    forall i :: 0 <= i < |ops| ==> !ops[i].Select?
  }

  /** A run of the kernel seen operation by operation: the state after each, and the ring events it stands for. */
  ghost predicate Traced(ops: seq<Op>, states: seq<Snapshot>, events: seq<seq<RR.Event>>) {
    && |states| == |ops| + 1 && |events| == |ops|
    && forall i :: 0 <= i < |ops| ==> StandsFor(ops[i], events[i]) && Follows(states[i], events[i], states[i + 1])
  }

  function Flat(events: seq<seq<RR.Event>>): (es: seq<RR.Event>) {
    if events == [] then [] else events[0] + Flat(events[1..])
  }

  lemma TracedTail(ops: seq<Op>, states: seq<Snapshot>, events: seq<seq<RR.Event>>)
    requires Traced(ops, states, events) && ops != []
    ensures Traced(ops[1..], states[1..], events[1..])
    ensures StandsFor(ops[0], events[0]) && Follows(states[0], events[0], states[1])
  {
    hide StandsFor, Follows;
    assert states[0 + 1] == states[1];
    forall i | 0 <= i < |ops| - 1
      ensures StandsFor(ops[1..][i], events[1..][i]) && Follows(states[1..][i], events[1..][i], states[1..][i + 1])
    {
      assert ops[1..][i] == ops[i + 1] && events[1..][i] == events[i + 1] && states[1..][i + 1] == states[i + 1 + 1];
    }
  }

  /** A traced run is one run of the ring. */
  lemma {:induction false} FlatRun(ops: seq<Op>, states: seq<Snapshot>, events: seq<seq<RR.Event>>)
    requires Traced(ops, states, events)
    ensures Accounts(ops, Flat(events)) && Follows(states[0], Flat(events), states[|ops|])
    decreases |ops|
  {
    hide StandsFor, Follows, Accounts;
    if ops == [] {
      Nothing(states[0]);
    } else {
      TracedTail(ops, states, events);
      FlatRun(ops[1..], states[1..], events[1..]);
      FollowsBoth(states[0], events[0], states[1], Flat(events[1..]), states[|ops|]);
      AccountsBoth(ops[0], events[0], ops[1..], Flat(events[1..]));
      assert ops == [ops[0]] + ops[1..];
    }
  }

  lemma Nothing(s: Snapshot)
    ensures Follows(s, [], s) && Accounts([], [])
  {
  }

  /** Every moment of the ring is the state of the kernel after some operation. */
  lemma {:induction false} EveryMoment(ops: seq<Op>, states: seq<Snapshot>, events: seq<seq<RR.Event>>, n: nat) returns (j: nat)
    requires Traced(ops, states, events) && OnRr(states[0]) && n <= |Flat(events)|
    ensures j < |states| && OnRr(states[j]) && RR.Runs(RingOf(states[0]), Flat(events)[..n])
    ensures RR.After(RingOf(states[0]), Flat(events)[..n]) == RingOf(states[j])
    decreases |ops|
  {
    hide RingOf, RR.Step;
    if n == 0 {
      assert Flat(events)[..0] == [];
      j := 0;
    } else {
      TracedTail(ops, states, events);
      var first, rest := events[0], Flat(events[1..]);
      var k := n - |first|;
      var i := EveryMoment(ops[1..], states[1..], events[1..], k);
      j := i + 1;
      assert states[1..][i] == states[j] && states[1..][0] == states[1];
      assert Flat(events)[..n] == first + rest[..k];
      RR.AfterBoth(RingOf(states[0]), first, rest[..k]);
    }
  }

  /** Every run keeps the invariant; under round robin it is a run of the ring, operation by operation. */
  method PerformAll(k: Kernel, ops: seq<Op>) returns (halted: bool, ghost states: seq<Snapshot>, ghost events: seq<seq<RR.Event>>)
    requires k.Valid()
    modifies k
    ensures !halted ==> k.Valid() && |states| == |ops| + 1 && states[|ops|] == k.State()
    ensures 1 <= |states| <= |ops| + 1 && states[0] == old(k.State())
    ensures NoSelect(ops) ==> Traced(ops[..|states| - 1], states, events)
    decreases |ops|
  {
    hide Inv, StandsFor, Follows;
    halted := false;
    states, events := [k.State()], [];
    if ops == [] {
      return;
    }
    ghost var first, later, rest;
    halted, first := Perform(k, ops[0]);
    if halted {
      return;
    }
    halted, later, rest := PerformAll(k, ops[1..]);
    if NoSelect(ops) {
      TracedMore(ops[0], states[0], first, ops[1..][..|later| - 1], later, rest);
      assert ops[..|later|] == [ops[0]] + ops[1..][..|later| - 1];
    }
    states, events := states + later, [first] + rest;
  }

  lemma TracedMore(op: Op, s: Snapshot, es: seq<RR.Event>, ops: seq<Op>, states: seq<Snapshot>, events: seq<seq<RR.Event>>)
    requires Traced(ops, states, events) && StandsFor(op, es) && Follows(s, es, states[0])
    ensures Traced([op] + ops, [s] + states, [es] + events)
  {
    hide StandsFor, Follows;
    var a, b, c := [op] + ops, [s] + states, [es] + events;
    forall i | 0 <= i < |a|
      ensures StandsFor(a[i], c[i]) && Follows(b[i], c[i], b[i + 1])
    {
      if i > 0 {
        assert a[i] == ops[i - 1] && c[i] == events[i - 1] && b[i] == states[i - 1] && b[i + 1] == states[i - 1 + 1];
      }
    }
  }

  /**
   The process at position `i` of the round-robin queue becomes the kernel's
   current process, with its pid, after some operation of every run that yields
   or, with no idle process ahead, ticks often enough and does not kill it.
   */
  lemma NoStarvation(ops: seq<Op>, states: seq<Snapshot>, events: seq<seq<RR.Event>>, i: nat) returns (j: nat)
    requires Traced(ops, states, events) && OnRr(states[0])
    requires i < |states[0].lines[0]| && !Killed(ops, JobOf(states[0].t, states[0].lines[0][i]).pid)
    requires Times(ops, Yield) >= i + 1 || (Times(ops, Tick) >= 3 * (i + 1) && RR.NoIdleAhead(RingOf(states[0]), i))
    ensures j < |states| && states[j].cur == states[0].lines[0][i]
    ensures JobOf(states[j].t, states[j].cur) == JobOf(states[0].t, states[0].lines[0][i])
  {
    var s, es := states[0], Flat(events);
    var r := RingOf(s);
    FlatRun(ops, states, events);
    assert r.queue[i] == JobOf(s.t, s.lines[0][i]);
    assert RR.Spared(es, r.queue[i]);
    if Times(ops, Yield) >= i + 1 {
      RR.WithinYields(r, es, i);
    } else {
      RR.WithinTicks(r, es, i);
    }
    var n := RR.DispatchedAt(r, es, r.queue[i]);
    j := EveryMoment(ops, states, events, n);
  }
}
