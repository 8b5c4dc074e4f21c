/**
 The four scheduling policies as sequences of process slots: which level a
 process waits on, which one is taken next, and why the multilevel and the
 priority policy cannot be told apart by what they pick.
 */
module Schedulers {

  import opened Options

  datatype Policy = Fcfs | Rr | Priority | Mlq

  /** Four waiting lines, each in order of arrival. */
  type Levels = r: seq<seq<int>> | |r| == 4 witness [[], [], [], []]

  /** The line a process of the given priority waits on. */
  function LevelOf(policy: Policy, priority: nat): (k: int)
    ensures 0 <= k < 4
  {
    match policy
    case Fcfs => 0
    case Rr => 0
    case Priority => if priority >= 4 then 3 else priority
    case Mlq => if priority >= 3 then 0 else if priority >= 2 then 1 else if priority >= 1 then 2 else 3
  }

  /** The order in which the lines are looked at. */
  function Scan(policy: Policy): (ks: seq<int>)
    ensures forall i :: 0 <= i < |ks| ==> 0 <= ks[i] < 4
  {
    match policy
    case Fcfs => [0]
    case Rr => [0]
    case Priority => [3, 2, 1, 0]
    case Mlq => [0, 1, 2, 3]
  }

  /** The first non-empty line in scan order, -1 if all are empty. */
  function PickLevel(r: Levels, ks: seq<int>): (k: int)
    requires forall i :: 0 <= i < |ks| ==> 0 <= ks[i] < 4
    ensures k == -1 || (0 <= k < 4 && r[k] != [])
  {
    if ks == [] then -1 else if r[ks[0]] != [] then ks[0] else PickLevel(r, ks[1..])
  }

  function Enqueue(policy: Policy, r: Levels, p: int, priority: nat): (r': Levels) {
    r[LevelOf(policy, priority) := r[LevelOf(policy, priority)] + [p]]
  }

  /** `s` without the first occurrence of `p`. */
  function Without(s: seq<int>, p: int): (t: seq<int>) {
    if s == [] then [] else if s[0] == p then s[1..] else [s[0]] + Without(s[1..], p)
  }

  function Dequeue(r: Levels, p: int): (r': Levels) {
    [Without(r[0], p), Without(r[1], p), Without(r[2], p), Without(r[3], p)]
  }

  /** The process taken next and the lines afterwards. */
  function Take(policy: Policy, r: Levels): (res: (Option<int>, Levels)) {
    var k := PickLevel(r, Scan(policy));
    if k == -1 then (None, r) else (Some(r[k][0]), r[k := r[k][1..]])
  }

  // ----- one line in order of arrival -----

  /** A waiting process with its priority. */
  datatype Arrival = Arrival(p: int, priority: nat)

  /** First come first served and round robin rank everyone alike; the others by priority, capped at 3. */
  function Rank(policy: Policy, priority: nat): (c: int)
    ensures 0 <= c <= TopRank(policy)
  {
    if policy.Fcfs? || policy.Rr? then 0 else if priority >= 3 then 3 else priority
  }

  function TopRank(policy: Policy): (c: int)
  {
    if policy.Fcfs? || policy.Rr? then 0 else 3
  }

  ghost predicate Waiting(a: seq<Arrival>, p: int) {
    exists i :: 0 <= i < |a| && a[i].p == p
  }

  ghost predicate Distinct(a: seq<Arrival>) {
    forall i, j :: 0 <= i < j < |a| ==> a[i].p != a[j].p
  }

  function DropProcess(a: seq<Arrival>, p: int): (b: seq<Arrival>) {
    if a == [] then [] else if a[0].p == p then a[1..] else [a[0]] + DropProcess(a[1..], p)
  }

  /** Position `i` holds the earliest arrival among those of the highest rank. */
  predicate IsBest(policy: Policy, a: seq<Arrival>, i: int) {
    && 0 <= i < |a|
    && (forall j :: 0 <= j < |a| ==> Rank(policy, a[j].priority) <= Rank(policy, a[i].priority))
    && (forall j :: 0 <= j < i ==> Rank(policy, a[j].priority) < Rank(policy, a[i].priority))
  }

  function Best(policy: Policy, a: seq<Arrival>): (i: int)
    requires a != []
    ensures IsBest(policy, a, i)
  {
    var n := |a| - 1;
    if n == 0 then 0
    else
      var b := Best(policy, a[..n]);
      if Rank(policy, a[n].priority) > Rank(policy, a[b].priority) then n else b
  }

  /** The processes of one level, in order of arrival. */
  function OnLevel(policy: Policy, a: seq<Arrival>, k: int): (s: seq<int>)
  {
    if a == [] then []
    else if LevelOf(policy, a[|a| - 1].priority) == k
    then OnLevel(policy, a[..|a| - 1], k) + [a[|a| - 1].p]
    else OnLevel(policy, a[..|a| - 1], k)
  }

  function Lines(policy: Policy, a: seq<Arrival>): (r: Levels) {
    [OnLevel(policy, a, 0), OnLevel(policy, a, 1), OnLevel(policy, a, 2), OnLevel(policy, a, 3)]
  }

  // ----- the lines follow the arrivals -----

  lemma LinesAdd(policy: Policy, a: seq<Arrival>, x: Arrival)
    ensures Lines(policy, a + [x]) == Enqueue(policy, Lines(policy, a), x.p, x.priority)
  {
    assert (a + [x])[..|a|] == a;
  }

  lemma {:induction false} OnLevelSplit(policy: Policy, a: seq<Arrival>, b: seq<Arrival>, k: int)
    ensures OnLevel(policy, a + b, k) == OnLevel(policy, a, k) + OnLevel(policy, b, k)
    decreases |b|
  {
    if b == [] {
      assert a + b == a;
    } else {
      var c := b[..|b| - 1];
      assert (a + b)[..|a + b| - 1] == a + c;
      OnLevelSplit(policy, a, c, k);
    }
  }

  lemma OnLevelHead(policy: Policy, x: Arrival, b: seq<Arrival>, k: int)
    ensures OnLevel(policy, [x] + b, k)
         == (if LevelOf(policy, x.priority) == k then [x.p] else []) + OnLevel(policy, b, k)
  {
    OnLevelSplit(policy, [x], b, k);
    assert [x][..0] == [];
    assert OnLevel(policy, [x], k) == if LevelOf(policy, x.priority) == k then [x.p] else [];
  }

  lemma {:induction false} OnLevelMember(policy: Policy, a: seq<Arrival>, k: int, p: int)
    ensures p in OnLevel(policy, a, k) <==> exists i :: 0 <= i < |a| && a[i].p == p && LevelOf(policy, a[i].priority) == k
  {
    if a != [] {
      OnLevelMember(policy, a[..|a| - 1], k, p);
      assert forall i :: 0 <= i < |a| - 1 ==> a[..|a| - 1][i] == a[i];
    }
  }

  lemma {:induction false} WithoutAbsent(s: seq<int>, p: int)
    requires p !in s
    ensures Without(s, p) == s
  {
    if s != [] { WithoutAbsent(s[1..], p); }
  }

  /** Dropping a process from the arrivals drops it from its line. */
  lemma {:induction false} OnLevelDrop(policy: Policy, a: seq<Arrival>, p: int, k: int)
    requires Distinct(a)
    ensures OnLevel(policy, DropProcess(a, p), k) == Without(OnLevel(policy, a, k), p)
  {
    if a != [] {
      var x, b := a[0], a[1..];
      assert a == [x] + b;
      OnLevelHead(policy, x, b, k);
      var s := OnLevel(policy, b, k);
      assert ([x.p] + s)[1..] == s && [] + s == s;
      if x.p == p {
        OnLevelMember(policy, b, k, p);
        assert p !in s;
        WithoutAbsent(s, p);
      } else {
        OnLevelDrop(policy, b, p, k);
        OnLevelHead(policy, x, DropProcess(b, p), k);
        assert [] + Without(s, p) == Without(s, p);
      }
    }
  }

  lemma LinesDrop(policy: Policy, a: seq<Arrival>, p: int)
    requires Distinct(a)
    ensures Lines(policy, DropProcess(a, p)) == Dequeue(Lines(policy, a), p)
  {
    OnLevelDrop(policy, a, p, 0);
    OnLevelDrop(policy, a, p, 1);
    OnLevelDrop(policy, a, p, 2);
    OnLevelDrop(policy, a, p, 3);
  }

  // ----- every policy takes the best -----

  /** The line of a rank. */
  function LineOf(policy: Policy, c: int): (k: int)
    requires 0 <= c <= TopRank(policy)
    ensures 0 <= k < 4
  {
    if policy.Mlq? then 3 - c else c
  }

  lemma LevelIsRank(policy: Policy, priority: nat)
    ensures LevelOf(policy, priority) == LineOf(policy, Rank(policy, priority))
  {
  }

  lemma EmptyLine(policy: Policy, a: seq<Arrival>, c: int)
    requires 0 <= c <= TopRank(policy) && forall j :: 0 <= j < |a| ==> Rank(policy, a[j].priority) != c
    ensures OnLevel(policy, a, LineOf(policy, c)) == []
  {
    var s := OnLevel(policy, a, LineOf(policy, c));
    if s != [] {
      OnLevelMember(policy, a, LineOf(policy, c), s[0]);
      var i :| 0 <= i < |a| && LevelOf(policy, a[i].priority) == LineOf(policy, c);
      LevelIsRank(policy, a[i].priority);
      assert false;
    }
  }

  lemma {:induction false} PickAt(r: Levels, ks: seq<int>, n: nat)
    requires forall i :: 0 <= i < |ks| ==> 0 <= ks[i] < 4
    requires n < |ks| && r[ks[n]] != [] && forall j :: 0 <= j < n ==> r[ks[j]] == []
    ensures PickLevel(r, ks) == ks[n]
  {
    if n > 0 { PickAt(r, ks[1..], n - 1); }
  }

  lemma PickFirst(policy: Policy, r: Levels, c: int)
    requires 0 <= c <= TopRank(policy) && r[LineOf(policy, c)] != []
    requires forall d :: c < d <= TopRank(policy) ==> r[LineOf(policy, d)] == []
    ensures PickLevel(r, Scan(policy)) == LineOf(policy, c)
  {
    var n := TopRank(policy) - c;
    forall j | 0 <= j < n
      ensures r[Scan(policy)[j]] == []
    {
      assert Scan(policy)[j] == LineOf(policy, TopRank(policy) - j);
    }
    PickAt(r, Scan(policy), n);
  }

  /** The best heads the first non-empty line. */
  lemma BestHeadsLine(policy: Policy, a: seq<Arrival>, i: int)
    requires IsBest(policy, a, i)
    ensures var k := LineOf(policy, Rank(policy, a[i].priority));
      && OnLevel(policy, a, k) == [a[i].p] + OnLevel(policy, a[i + 1..], k)
      && PickLevel(Lines(policy, a), Scan(policy)) == k
  {
    hide PickLevel, Scan, LevelOf, OnLevel;
    var c := Rank(policy, a[i].priority);
    var k := LineOf(policy, c);
    assert a == a[..i] + ([a[i]] + a[i + 1..]);
    OnLevelSplit(policy, a[..i], [a[i]] + a[i + 1..], k);
    OnLevelHead(policy, a[i], a[i + 1..], k);
    LevelIsRank(policy, a[i].priority);
    EmptyLine(policy, a[..i], c);
    forall d | c < d <= TopRank(policy)
      ensures OnLevel(policy, a, LineOf(policy, d)) == []
    {
      EmptyLine(policy, a, d);
    }
    PickFirst(policy, Lines(policy, a), c);
  }

  /** Taking the next process is dropping the best one from the arrivals. */
  lemma TakesBest(policy: Policy, a: seq<Arrival>)
    requires Distinct(a) && a != []
    ensures var p := a[Best(policy, a)].p;
      Take(policy, Lines(policy, a)) == (Some(p), Lines(policy, DropProcess(a, p)))
  {
    hide PickLevel, Scan, OnLevel, Best;
    var i := Best(policy, a);
    var p := a[i].p;
    var k := LineOf(policy, Rank(policy, a[i].priority));
    var r := Lines(policy, a);
    BestHeadsLine(policy, a, i);
    LinesDrop(policy, a, p);
    assert r[k] == [p] + r[k][1..];
    forall j | 0 <= j < 4 && j != k
      ensures Without(r[j], p) == r[j]
    {
      OnLevelMember(policy, a, j, p);
      LevelIsRank(policy, a[i].priority);
      WithoutAbsent(r[j], p);
    }
    assert Dequeue(r, p) == r[k := r[k][1..]];
  }

  /**
   The process taken has the highest priority, all from 3 up counting alike, and
   of those it came first; the single-queue policies take whoever came first.
   */
  lemma TakesHighest(policy: Policy, a: seq<Arrival>) returns (i: nat)
    requires Distinct(a) && a != []
    ensures i < |a| && Take(policy, Lines(policy, a)).0 == Some(a[i].p)
    ensures policy.Fcfs? || policy.Rr? ==> i == 0
    ensures policy.Priority? || policy.Mlq? ==>
      && (forall j :: 0 <= j < |a| ==> a[j].priority <= a[i].priority || a[i].priority >= 3)
      && (forall j :: 0 <= j < i ==> a[j].priority < a[i].priority && a[j].priority < 3)
  {
    hide Take, Lines, Best;
    i := Best(policy, a);
    TakesBest(policy, a);
    assert IsBest(policy, a, i);
  }

  lemma TakesNothing(policy: Policy)
    ensures Take(policy, Lines(policy, [])) == (None, Lines(policy, []))
  {
    var r := Lines(policy, []);
    assert forall j :: 0 <= j < 4 ==> r[j] == [];
    assert PickLevel(r, Scan(policy)) == -1;
  }

  // ----- whole runs -----

  datatype Event = Arrive(x: Arrival) | Leave(p: int) | Next

  /** What a policy hands out on an event, and its lines afterwards. */
  function StepLines(policy: Policy, r: Levels, e: Event): (res: (Option<int>, Levels)) {
    match e
    case Arrive(x) => (None, Enqueue(policy, r, x.p, x.priority))
    case Leave(p) => (None, Dequeue(r, p))
    case Next => Take(policy, r)
  }

  /** The same on a plain list of arrivals. */
  function StepArrivals(policy: Policy, a: seq<Arrival>, e: Event): (res: (Option<int>, seq<Arrival>)) {
    match e
    case Arrive(x) => (None, a + [x])
    case Leave(p) => (None, DropProcess(a, p))
    case Next =>
      if a == [] then (None, a)
      else var p := a[Best(policy, a)].p; (Some(p), DropProcess(a, p))
  }

  function Picks(policy: Policy, r: Levels, es: seq<Event>): (out: seq<Option<int>>)
    ensures |out| == |es|
    decreases |es|
  {
    if es == [] then []
    else var (o, r') := StepLines(policy, r, es[0]); [o] + Picks(policy, r', es[1..])
  }

  function BestPicks(policy: Policy, a: seq<Arrival>, es: seq<Event>): (out: seq<Option<int>>)
    ensures |out| == |es|
    decreases |es|
  {
    if es == [] then []
    else var (o, a') := StepArrivals(policy, a, es[0]); [o] + BestPicks(policy, a', es[1..])
  }

  /** No process arrives while it is still waiting. */
  ghost predicate Admissible(policy: Policy, a: seq<Arrival>, es: seq<Event>)
    decreases |es|
  {
    es != [] ==>
      && (es[0].Arrive? ==> !Waiting(a, es[0].x.p))
      && Admissible(policy, StepArrivals(policy, a, es[0]).1, es[1..])
  }

  /** Dropping a waiting process cuts it out; dropping an absent one does nothing. */
  lemma {:induction false} DropIsCut(a: seq<Arrival>, p: int, k: nat)
    requires k <= |a| && (forall i :: 0 <= i < k ==> a[i].p != p) && (k < |a| ==> a[k].p == p)
    ensures DropProcess(a, p) == if k < |a| then a[..k] + a[k + 1..] else a
  {
    if k > 0 {
      var b := a[1..];
      DropIsCut(b, p, k - 1);
      if k < |a| {
        assert [a[0]] + (b[..k - 1] + b[k..]) == a[..k] + a[k + 1..];
      }
    }
  }

  lemma FirstAt(a: seq<Arrival>, p: int) returns (k: nat)
    ensures k <= |a| && (forall i :: 0 <= i < k ==> a[i].p != p) && (k < |a| ==> a[k].p == p)
  {
    k := 0;
    while k < |a| && a[k].p != p
      invariant k <= |a| && forall i :: 0 <= i < k ==> a[i].p != p
    {
      k := k + 1;
    }
  }

  lemma DropKeeps(a: seq<Arrival>, p: int)
    requires Distinct(a)
    ensures Distinct(DropProcess(a, p))
  {
    hide DropProcess;
    var k := FirstAt(a, p);
    DropIsCut(a, p, k);
    if k < |a| {
      var b := a[..k] + a[k + 1..];
      assert forall i :: 0 <= i < |b| ==> b[i] == if i < k then a[i] else a[i + 1];
    }
  }

  /** Over every run each policy hands out the earliest arrival of the highest rank. */
  lemma {:induction false} AlwaysBest(policy: Policy, a: seq<Arrival>, es: seq<Event>)
    requires Distinct(a) && Admissible(policy, a, es)
    ensures Picks(policy, Lines(policy, a), es) == BestPicks(policy, a, es)
    decreases |es|
  {
    hide Take, Lines, Best, Enqueue, Dequeue, DropProcess;
    if es != [] {
      var a' := StepArrivals(policy, a, es[0]).1;
      match es[0] {
        case Arrive(x) => LinesAdd(policy, a, x);
        case Leave(p) => LinesDrop(policy, a, p); DropKeeps(a, p);
        case Next =>
          if a == [] { TakesNothing(policy); } else { TakesBest(policy, a); DropKeeps(a, a[Best(policy, a)].p); }
      }
      assert Distinct(a');
      AlwaysBest(policy, a', es[1..]);
    }
  }

  /** Priority and multilevel scheduling hand out the same processes over every run. */
  lemma SameSchedule(es: seq<Event>)
    requires Admissible(Priority, [], es)
    ensures Picks(Priority, [[], [], [], []], es) == Picks(Mlq, [[], [], [], []], es)
  {
    SameReference([], es);
    AlwaysBest(Priority, [], es);
    AlwaysBest(Mlq, [], es);
    assert Lines(Priority, []) == Lines(Mlq, []) == [[], [], [], []];
  }

  lemma {:induction false} SameBest(a: seq<Arrival>)
    requires a != []
    ensures Best(Priority, a) == Best(Mlq, a)
  {
    if |a| > 1 { SameBest(a[..|a| - 1]); }
  }

  lemma {:induction false} SameReference(a: seq<Arrival>, es: seq<Event>)
    requires Admissible(Priority, a, es)
    ensures Admissible(Mlq, a, es) && BestPicks(Priority, a, es) == BestPicks(Mlq, a, es)
    decreases |es|
  {
    hide Best, DropProcess;
    if es != [] {
      if a != [] { SameBest(a); }
      SameReference(StepArrivals(Priority, a, es[0]).1, es[1..]);
    }
  }
}
