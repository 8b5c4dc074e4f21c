/**
 Round robin as a rotation of the current process and its queue, with the
 quantum of three timer ticks, and how long a waiting process can be kept.
 */
module RoundRobin {

  const QUANTUM := 3

  datatype Job = Job(slot: int, pid: int)

  /** The running job, the jobs behind it and the ticks it has used. */
  datatype Ring = Ring(cur: Job, queue: seq<Job>, ticks: nat)

  datatype Event = Yield | Spawn(t: Job) | Remove(t: Job) | Exit | Tick

  function Rotated(r: Ring): (r': Ring) {
    var q := r.queue + [r.cur];
    Ring(q[0], q[1..], 0)
  }

  function Dropped(q: seq<Job>, t: Job): (q': seq<Job>) {
    if q == [] then [] else if q[0] == t then q[1..] else [q[0]] + Dropped(q[1..], t)
  }

  /** An exit needs somebody to hand over to; without one the system stops. */
  predicate Enabled(r: Ring, e: Event) {
    e.Exit? ==> r.queue != []
  }

  function Step(r: Ring, e: Event): (r': Ring)
    requires Enabled(r, e)
  {
    match e
    case Yield => Rotated(r)
    case Spawn(t) => r.(queue := r.queue + [t])
    case Remove(t) => r.(queue := Dropped(r.queue, t))
    case Exit => Ring(r.queue[0], r.queue[1..], 0)
    case Tick =>
      if r.cur.pid <= 1 then r
      else if r.ticks + 1 >= QUANTUM then Rotated(r)
      else r.(ticks := r.ticks + 1)
  }

  predicate Runs(r: Ring, es: seq<Event>)
    decreases |es|
  {
    es != [] ==> Enabled(r, es[0]) && Runs(Step(r, es[0]), es[1..])
  }

  function After(r: Ring, es: seq<Event>): (r': Ring)
    requires Runs(r, es)
    decreases |es|
  {
    if es == [] then r else After(Step(r, es[0]), es[1..])
  }

  /** At some moment of the run the job is the current one. */
  predicate Dispatched(r: Ring, es: seq<Event>, t: Job)
    requires Runs(r, es)
    decreases |es|
  {
    r.cur == t || (es != [] && Dispatched(Step(r, es[0]), es[1..], t))
  }

  /** A job that is dispatched is current after some prefix of the run. */
  lemma {:induction false} DispatchedAt(r: Ring, es: seq<Event>, t: Job) returns (n: nat)
    requires Runs(r, es) && Dispatched(r, es, t)
    ensures n <= |es| && Runs(r, es[..n]) && After(r, es[..n]).cur == t
    decreases |es|
  {
    if r.cur == t {
      n := 0;
    } else {
      var m := DispatchedAt(Step(r, es[0]), es[1..], t);
      n := m + 1;
      assert es[..n][1..] == es[1..][..m];
    }
  }

  lemma SingleStep(r: Ring, e: Event)
    requires Enabled(r, e)
    ensures Runs(r, [e]) && After(r, [e]) == Step(r, e)
  {
    assert [e][1..] == [];
    assert Runs(Step(r, e), []) && After(Step(r, e), []) == Step(r, e);
  }

  lemma {:induction false} AfterBoth(r: Ring, es: seq<Event>, fs: seq<Event>)
    requires Runs(r, es) && Runs(After(r, es), fs)
    ensures Runs(r, es + fs) && After(r, es + fs) == After(After(r, es), fs)
    decreases |es|
  {
    if es == [] {
      assert es + fs == fs;
    } else {
      assert (es + fs)[1..] == es[1..] + fs;
      AfterBoth(Step(r, es[0]), es[1..], fs);
    }
  }

  lemma {:induction false} CountBoth(es: seq<Event>, fs: seq<Event>, e: Event)
    ensures Count(es + fs, e) == Count(es, e) + Count(fs, e)
  {
    if es == [] {
      assert es + fs == fs;
    } else {
      assert (es + fs)[1..] == es[1..] + fs;
      CountBoth(es[1..], fs, e);
    }
  }

  function Count(es: seq<Event>, e: Event): (n: nat) {
    if es == [] then 0 else (if es[0] == e then 1 else 0) + Count(es[1..], e)
  }

  predicate Spared(es: seq<Event>, t: Job) {
    forall i :: 0 <= i < |es| ==> es[i] != Remove(t)
  }

  /** Every job ahead of position `k`, the current one included, is not the idle process. */
  ghost predicate NoIdleAhead(r: Ring, k: nat)
    requires k <= |r.queue|
  {
    r.cur.pid > 1 && forall j :: 0 <= j < k ==> r.queue[j].pid > 1
  }

  lemma {:induction false} DroppedAhead(q: seq<Job>, k: nat, t: Job) returns (k': nat)
    requires k < |q| && q[k] != t
    ensures k' <= k && k' < |Dropped(q, t)| && Dropped(q, t)[k'] == q[k]
    ensures (forall j :: 0 <= j < k ==> q[j].pid > 1) ==> forall j :: 0 <= j < k' ==> Dropped(q, t)[j].pid > 1
  {
    if q[0] == t {
      k' := k - 1;
    } else if k == 0 {
      k' := 0;
    } else {
      var m := DroppedAhead(q[1..], k - 1, t);
      k' := m + 1;
      assert (forall j :: 0 <= j < k ==> q[j].pid > 1) ==> forall j :: 0 <= j < k - 1 ==> q[1..][j].pid > 1;
    }
  }

  /** One event dispatches the job at position `k` or leaves it no further back. */
  lemma Closer(r: Ring, e: Event, k: nat) returns (k': nat)
    requires Enabled(r, e) && k < |r.queue| && r.ticks < QUANTUM && e != Remove(r.queue[k])
    ensures Step(r, e).ticks < QUANTUM
    ensures Step(r, e).cur == r.queue[k] || (k' < |Step(r, e).queue| && Step(r, e).queue[k'] == r.queue[k])
    ensures Step(r, e).cur != r.queue[k] ==> k' <= if e.Yield? then k - 1 else k
    ensures Step(r, e).cur != r.queue[k] && NoIdleAhead(r, k) ==> NoIdleAhead(Step(r, e), k')
    ensures Step(r, e).cur != r.queue[k] && NoIdleAhead(r, k) ==>
      3 * k' - Step(r, e).ticks <= 3 * k - r.ticks - (if e.Tick? then 1 else 0)
  {
    k' := k;
    match e
    case Remove(t) => k' := DroppedAhead(r.queue, k, t);
    case Spawn(t) =>
    case Yield => if k > 0 { k' := k - 1; }
    case Exit => if k > 0 { k' := k - 1; }
    case Tick => if r.cur.pid > 1 && r.ticks + 1 >= QUANTUM && k > 0 { k' := k - 1; }
  }

  /** A job at position `k` runs within `k + 1` yields, whatever else happens to others. */
  lemma {:induction false} WithinYields(r: Ring, es: seq<Event>, k: nat)
    requires Runs(r, es) && k < |r.queue| && r.ticks < QUANTUM && Spared(es, r.queue[k])
    requires Count(es, Yield) >= k + 1
    ensures Dispatched(r, es, r.queue[k])
    decreases |es|
  {
    var s := Step(r, es[0]);
    var k' := Closer(r, es[0], k);
    if s.cur != r.queue[k] {
      WithinYields(s, es[1..], k');
    }
  }

  /** With no idle process ahead it runs within `3(k + 1)` timer ticks. */
  lemma {:induction false} WithinTicks(r: Ring, es: seq<Event>, k: nat)
    requires Runs(r, es) && k < |r.queue| && r.ticks < QUANTUM && Spared(es, r.queue[k])
    requires NoIdleAhead(r, k) && Count(es, Tick) >= 3 * (k + 1) - r.ticks
    ensures Dispatched(r, es, r.queue[k])
    decreases |es|
  {
    var s := Step(r, es[0]);
    var k' := Closer(r, es[0], k);
    if s.cur != r.queue[k] {
      WithinTicks(s, es[1..], k');
    }
  }

  predicate TicksOnly(es: seq<Event>) {
    forall i :: 0 <= i < |es| ==> es[i].Tick?
  }

  lemma {:induction false} TicksRun(r: Ring, es: seq<Event>)
    requires TicksOnly(es)
    ensures Runs(r, es) && Count(es, Tick) == |es|
    ensures forall t :: Spared(es, t)
    decreases |es|
  {
    if es != [] { TicksRun(Step(r, es[0]), es[1..]); }
  }

  /** Position `k` holds a job that is neither current nor ahead of it. */
  predicate FirstAt(r: Ring, k: nat) {
    k < |r.queue| && r.queue[k] != r.cur && r.queue[k] !in r.queue[..k]
  }

  /** The idle process stops the clock: no number of ticks gets a job past it. */
  lemma {:induction false} IdleBlocks(r: Ring, es: seq<Event>, k: nat)
    requires TicksOnly(es) && FirstAt(r, k) && !NoIdleAhead(r, k) && Runs(r, es)
    ensures !Dispatched(r, es, r.queue[k])
    decreases |es|
  {
    if es != [] {
      var s := Step(r, Tick);
      if s.queue == r.queue {
        IdleBlocks(s, es[1..], k);
      } else {
        var q := r.queue + [r.cur];
        assert k > 0 && s.queue == q[1..] && s.queue[..k - 1] == r.queue[1..k];
        assert r.queue[0] in r.queue[..k];
        assert forall x :: x in r.queue[1..k] ==> x in r.queue[..k];
        assert forall j :: 0 < j < k ==> s.queue[j - 1] == r.queue[j];
        IdleBlocks(s, es[1..], k - 1);
      }
    }
  }

  /** On ticks alone, enough of them dispatch the job exactly when no idle process is ahead. */
  lemma TicksDecide(r: Ring, es: seq<Event>, k: nat)
    requires TicksOnly(es) && FirstAt(r, k) && r.ticks < QUANTUM && |es| >= 3 * (k + 1) - r.ticks
    ensures Runs(r, es) && (Dispatched(r, es, r.queue[k]) <==> NoIdleAhead(r, k))
  {
    TicksRun(r, es);
    if NoIdleAhead(r, k) {
      WithinTicks(r, es, k);
    } else {
      IdleBlocks(r, es, k);
    }
  }

  /** On ticks alone each job runs for exactly three: after `n` of them the one `(n + ticks) / 3` places on is current. */
  lemma {:induction false} TicksExactly(r: Ring, es: seq<Event>, k: nat)
    requires TicksOnly(es) && k < |r.queue| && NoIdleAhead(r, k) && r.ticks < 3 && |es| + r.ticks <= 3 * (k + 1)
    ensures Runs(r, es)
    ensures After(r, es).cur == ([r.cur] + r.queue)[(|es| + r.ticks) / 3] && After(r, es).ticks == (|es| + r.ticks) % 3
    decreases |es|
  {
    if es != [] {
      var s, rest := Step(r, Tick), es[1..];
      if r.ticks < 2 {
        TicksExactly(s, rest, k);
      } else if rest == [] {
        assert After(s, rest) == s;
      } else {
        assert s.queue == (r.queue + [r.cur])[1..];
        TicksExactly(s, rest, k - 1);
        var j := (|rest| + s.ticks) / 3;
        assert j <= k && (|es| + r.ticks) / 3 == j + 1;
        assert ([s.cur] + s.queue)[j] == ([r.cur] + r.queue)[j + 1];
      }
    }
  }
}
