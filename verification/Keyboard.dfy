/**
 The keyboard ring: the interrupt handler puts whole keys in, between any two
 steps of the reader.
 */
module Keyboard {
  import opened Bytes

  const SIZE := 256

  /** Where the reader stands: before its test, before reading the slot, before moving the tail. */
  datatype Reader = Idle | Checked | Holding(c: byte)

  datatype Event = Key(value: byte) | ReaderStep

  /** The ring slot of the n-th key ever accepted. */
  function SlotOf(n: nat): (i: nat)
    ensures i < SIZE
  {
    n % SIZE
  }

  /** Fewer than 256 keys apart, two keys use different slots. */
  lemma SlotsDiffer(m: nat, n: nat)
    requires m < n < m + SIZE
    ensures SlotOf(m) != SlotOf(n)
  {
  }

  lemma NextSlot(n: nat)
    ensures (SlotOf(n) + 1) % SIZE == SlotOf(n + 1)
  {
  }

  // ----- what a run does, without the ring -----

  /** The keys accepted and received so far, and where the reader stands. */
  datatype Log = Log(accepted: seq<byte>, received: seq<byte>, reader: Reader)

  ghost predicate LogOk(l: Log) {
    && l.received <= l.accepted && |l.accepted| - |l.received| <= 255
    && (l.reader.Idle? || |l.received| < |l.accepted|)
    && (l.reader.Holding? ==> l.reader.c == l.accepted[|l.received|])
  }

  /** A key is kept while fewer than 255 are pending; a step of the reader tests, reads or hands over the oldest key. */
  ghost function After(l: Log, e: Event): (l': Log)
    requires LogOk(l)
    ensures LogOk(l')
  {
    match e
    case Key(value) => if |l.accepted| - |l.received| < 255 then l.(accepted := l.accepted + [value]) else l
    case ReaderStep =>
      match l.reader
      case Idle => if |l.received| == |l.accepted| then l else l.(reader := Checked)
      case Checked => l.(reader := Holding(l.accepted[|l.received|]))
      case Holding(c) => Log(l.accepted, l.received + [c], Idle)
  }

  ghost function AfterAll(l: Log, trace: seq<Event>): (l': Log)
    requires LogOk(l)
    ensures LogOk(l')
    decreases |trace|
  {
    if trace == [] then l else AfterAll(After(l, trace[0]), trace[1..])
  }

  function KeysOf(trace: seq<Event>): (ks: seq<byte>) {
    if trace == [] then [] else (if trace[0].Key? then [trace[0].value] else []) + KeysOf(trace[1..])
  }

  /** No key comes while 255 are pending. */
  ghost predicate NeverFull(l: Log, trace: seq<Event>)
    requires LogOk(l)
    decreases |trace|
  {
    trace != [] ==>
      && (trace[0].Key? ==> |l.accepted| - |l.received| < 255)
      && NeverFull(After(l, trace[0]), trace[1..])
  }

  /** At most the keys of the trace are accepted, and exactly all of them when none comes to a full ring. */
  lemma {:induction false} AllKept(l: Log, trace: seq<Event>)
    requires LogOk(l)
    ensures l.accepted <= AfterAll(l, trace).accepted && |AfterAll(l, trace).accepted| <= |l.accepted| + |KeysOf(trace)|
    ensures AfterAll(l, trace).accepted == l.accepted + KeysOf(trace) <==> NeverFull(l, trace)
    decreases |trace|
  {
    hide After, LogOk;
    if trace != [] {
      var m, keys := After(l, trace[0]), KeysOf(trace[1..]);
      var last := AfterAll(m, trace[1..]).accepted;
      AllKept(m, trace[1..]);
      OneEvent(l, trace[0]);
      if trace[0].Key? {
        Append(l.accepted, trace[0].value, keys, m.accepted, last);
      } else {
        assert [] + keys == keys && l.accepted + [] == l.accepted;
      }
    }
  }

  /** A key kept is the next of the keys; a key dropped leaves one too few. */
  lemma Append(a: seq<byte>, v: byte, keys: seq<byte>, m: seq<byte>, last: seq<byte>)
    requires (m == a || m == a + [v]) && m <= last && |last| <= |m| + |keys|
    ensures a <= last
    ensures last == a + ([v] + keys) <==> m == a + [v] && last == m + keys
  {
    assert a + ([v] + keys) == a + [v] + keys;
    if m == a { assert |last| < |a + ([v] + keys)|; }
  }

  lemma Bounds(l: Log)
    requires LogOk(l)
    ensures l.received <= l.accepted && |l.accepted| - |l.received| <= 255
  {
  }

  /** What one event adds to the keys accepted and received. */
  lemma OneEvent(l: Log, e: Event)
    requires LogOk(l)
    ensures After(l, e).accepted == l.accepted + if e.Key? && |l.accepted| - |l.received| < 255 then [e.value] else []
    ensures After(l, e).received == l.received + if e.ReaderStep? && l.reader.Holding? then [l.reader.c] else []
  {
  }

  class Ring {
    const buf: array<byte>
    var head: nat
    var tail: nat
    var reader: Reader
    ghost var accepted: seq<byte>
    ghost var received: seq<byte>

    /** The keys received are the first of those accepted; the others, at most 255, are in their slots. */
    ghost predicate Valid()
      reads this, buf
    {
      && buf.Length == SIZE
      && LogOk(History())
      && head == SlotOf(|accepted|) && tail == SlotOf(|received|)
      && (forall n :: |received| <= n < |accepted| ==> buf[SlotOf(n)] == accepted[n])
    }

    ghost function History(): (l: Log)
      reads this
    {
      Log(accepted, received, reader)
    }

    constructor ()
      ensures fresh(buf) && Valid() && accepted == [] && received == [] && reader.Idle?
    {
      buf := new byte[SIZE](_ => 0);
      head, tail, reader := 0, 0, Idle;
      accepted, received := [], [];
    }

    /** Runs to completion inside the interrupt: stores the key unless 255 are pending. */
    method Put(value: byte)
      requires Valid()
      modifies this, buf
      ensures Valid() && tail == old(tail) && History() == After(old(History()), Key(value))
      ensures !reader.Idle? ==> buf[tail] == old(buf[tail])
    {
      NextSlot(|accepted|);
      var next := (head + 1) % SIZE;
      FullTest(|received|, |accepted|);
      if next != tail {
        forall n | |received| <= n < |accepted|
          ensures SlotOf(n) != SlotOf(|accepted|)
        {
          SlotsDiffer(n, |accepted|);
        }
        buf[head] := value;
        head := next;
        accepted := accepted + [value];
      }
    }

    /** The reader's next step: test for an empty ring, read the slot, move the tail and return. */
    method Step() returns (result: Outcome)
      requires Valid()
      modifies this
      ensures Valid() && History() == After(old(History()), ReaderStep)
      ensures result == match old(reader)
        case Idle => (if |received| == |accepted| then Empty else Nothing)
        case Checked => Nothing
        case Holding(c) => Got(c)
    {
      match reader
      case Idle =>
        EmptyTest(|received|, |accepted|);
        if head == tail {
          return Empty;
        }
        reader := Checked;
        return Nothing;
      case Checked =>
        reader := Holding(buf[tail]);
        return Nothing;
      case Holding(c) =>
        NextSlot(|received|);
        tail := (tail + 1) % SIZE;
        received := received + [c];
        reader := Idle;
        return Got(c);
    }

    /** Every interleaving of keys and reader steps: keys are kept unless 255 are pending and received in that order. */
    method Run(trace: seq<Event>) returns (out: seq<byte>)
      requires Valid()
      modifies this, buf
      ensures Valid() && History() == AfterAll(old(History()), trace)
      ensures received == old(received) + out && received <= accepted && |accepted| - |received| <= 255
      decreases |trace|
    {
      hide After, LogOk;
      out := [];
      Bounds(History());
      if trace == [] {
        return;
      }
      OneEvent(History(), trace[0]);
      match trace[0] {
        case Key(value) =>
          Put(value);
        case ReaderStep =>
          var result := Step();
          if result.Got? {
            out := [result.c];
          }
      }
      var rest := Run(trace[1..]);
      out := out + rest;
    }

    /** Left alone, three steps return the oldest pending key or report an empty ring. */
    method GetChar() returns (c: byte)
      requires Valid() && reader.Idle?
      modifies this
      ensures Valid() && accepted == old(accepted) && reader.Idle?
      ensures |old(received)| == |accepted| ==> c == 0 && received == old(received)
      ensures |old(received)| < |accepted| ==> received == old(received) + [c] && c == accepted[|old(received)|]
    {
      var result := Step();
      if result == Empty {
        return 0;
      }
      result := Step();
      result := Step();
      return result.c;
    }

    method HasData() returns (b: bool)
      requires Valid()
      ensures b <==> |received| < |accepted|
    {
      EmptyTest(|received|, |accepted|);
      return head != tail;
    }
  }

  datatype Outcome = Nothing | Empty | Got(c: byte)

  lemma FullTest(r: nat, a: nat)
    requires r <= a < r + SIZE
    ensures SlotOf(a + 1) == SlotOf(r) <==> a - r == SIZE - 1
  {
  }

  lemma EmptyTest(r: nat, a: nat)
    requires r <= a < r + SIZE
    ensures SlotOf(a) == SlotOf(r) <==> a == r
  {
  }
}
