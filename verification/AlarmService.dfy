// The alarm service as written: a counter and an intrusive circular list of alarms on the heap.
module AlarmService {
  import opened Words
  import opened AlarmClock

  /** A list element; the list head is one too. An element in no list points to itself. */
  class Node {
    var next: Node
    var previous: Node
    var time: u32
    var rollover: bool

    constructor ()
      ensures next == this && previous == this && !rollover
    {
      next, previous := this, this;
      time, rollover := 0, false;
    }
  }

  predicate Distinct(nodes: seq<Node>) {
    forall i, j :: 0 <= i < j < |nodes| ==> nodes[i] != nodes[j]
  }

  /** The position after `i` on a circle of `n`. */
  function After(i: nat, n: nat): nat { if i + 1 < n then i + 1 else 0 }

  /** `ring` lists the elements of a circular doubly linked list, head first. */
  ghost predicate Linked(ring: seq<Node>)
    reads ring
  {
    && ring != [] && Distinct(ring)
    && forall i :: 0 <= i < |ring| ==> Joined(ring[i], ring[After(i, |ring|)])
  }

  ghost predicate Joined(a: Node, b: Node)
    reads a, b
  {
    a.next == b && b.previous == a
  }

  ghost predicate SelfLinked(n: Node)
    reads n
  {
    n.next == n && n.previous == n
  }

  /** The stored alarms of some nodes. */
  function Records(nodes: seq<Node>): (r: seq<Entry<Node>>)
    reads nodes
    ensures |r| == |nodes|
  {
    if nodes == [] then []
    else [Entry(nodes[0], nodes[0].time, nodes[0].rollover)] + Records(nodes[1..])
  }

  lemma {:induction false} RecordsAt(nodes: seq<Node>, i: nat)
    requires i < |nodes|
    ensures Records(nodes)[i] == Entry(nodes[i], nodes[i].time, nodes[i].rollover)
  {
    if i > 0 { RecordsAt(nodes[1..], i - 1); }
  }

  lemma {:induction false} RecordsAppend(a: seq<Node>, b: seq<Node>)
    ensures Records(a + b) == Records(a) + Records(b)
  {
    if a == [] {
      assert a + b == b;
    } else {
      assert (a + b)[1..] == a[1..] + b;
      RecordsAppend(a[1..], b);
    }
  }

  /** Insertion puts the entry first. */
  method Insert(list: Node, entry: Node, ghost ring: seq<Node>)
    requires Linked(ring) && ring[0] == list && entry !in ring
    modifies list`next, list.next`previous, entry`next, entry`previous
    ensures Linked([list, entry] + ring[1..])
  {
    assert Joined(ring[0], ring[After(0, |ring|)]);
    entry.previous := list;
    entry.next := list.next;
    list.next.previous := entry;
    list.next := entry;
    ghost var r := [list, entry] + ring[1..];
    forall i | 0 <= i < |r|
      ensures Joined(r[i], r[After(i, |r|)])
    {
      if i >= 2 { assert old(Joined(ring[i - 1], ring[After(i - 1, |ring|)])); }
    }
  }

  /** Removal unlinks exactly the entry; removing an entry that is in no list changes nothing. */
  method Remove(entry: Node, ghost ring: seq<Node>, ghost i: nat)
    requires Linked(ring)
    requires (0 < i < |ring| && ring[i] == entry) || (i >= |ring| && entry !in ring && SelfLinked(entry))
    modifies entry`next, entry`previous, entry.next`previous, entry.previous`next
    ensures SelfLinked(entry)
    ensures i < |ring| ==> Linked(ring[..i] + ring[i + 1..])
    ensures i >= |ring| ==> unchanged(ring) && unchanged(entry)
  {
    if i < |ring| {
      assert Joined(ring[i], ring[After(i, |ring|)]) && Joined(ring[i - 1], ring[After(i - 1, |ring|)]);
    }
    entry.next.previous := entry.previous;
    entry.previous.next := entry.next;
    entry.previous := entry;
    entry.next := entry;
    if i < |ring| {
      ghost var r := ring[..i] + ring[i + 1..];
      forall j | 0 <= j < |r|
        ensures Joined(r[j], r[After(j, |r|)])
      {
        var k := if j < i then j else j + 1;
        assert old(Joined(ring[k], ring[After(k, |ring|)]));
      }
    }
  }

  twostate lemma {:induction false} RecordsSame(nodes: seq<Node>)
    requires forall n :: n in nodes ==> n.time == old(n.time) && n.rollover == old(n.rollover)
    ensures Records(nodes) == old(Records(nodes))
  {
    if nodes != [] {
      assert forall n :: n in nodes[1..] ==> n in nodes;
      RecordsSame(nodes[1..]);
    }
  }

  lemma RingTail(ring: seq<Node>)
    requires ring != [] && Distinct(ring)
    ensures Distinct(ring[1..])
  {
  }

  lemma {:induction false} WithoutRecord(nodes: seq<Node>, i: nat)
    requires i < |nodes| && Distinct(nodes)
    ensures Without(Records(nodes), nodes[i]) == Records(nodes[..i] + nodes[i + 1..])
  {
    if i == 0 {
      assert nodes[..0] + nodes[1..] == nodes[1..];
    } else {
      RingTail(nodes);
      WithoutRecord(nodes[1..], i - 1);
      assert (nodes[..i] + nodes[i + 1..])[1..] == nodes[1..][..i - 1] + nodes[1..][i..];
    }
  }

  lemma {:induction false} WithoutAbsent(nodes: seq<Node>, n: Node)
    requires n !in nodes
    ensures Without(Records(nodes), n) == Records(nodes)
  {
    if nodes != [] { WithoutAbsent(nodes[1..], n); }
  }

  datatype StartResult = Started | NoClock | NoAlarm

  class Service {
    const head: Node
    var nticks: u32
    var tickRate: u32
    ghost var ring: seq<Node>

    ghost predicate Valid()
      reads this, ring
    {
      Linked(ring) && ring[0] == head
    }

    /** The registered alarms, in list order. */
    ghost function Alarms(): seq<Entry<Node>>
      requires ring != []
      reads this, ring
    {
      Records(ring[1..])
    }

    constructor ()
      ensures Valid() && ring == [head] && nticks == 0 && tickRate == 0 && fresh(head)
    {
      head := new Node();
      nticks, tickRate := 0, 0;
      new;
      ring := [head];
    }

    /** Register an alarm, first in the list; nothing changes without a clock or an alarm. */
    method Start(alarm: Node?, interval: u32) returns (r: StartResult)
      requires Valid() && alarm !in ring
      modifies this`ring, ring, alarm
      ensures Valid()
      ensures r == if tickRate == 0 then NoClock else if alarm == null then NoAlarm else Started
      ensures r == Started ==> ring == [head, alarm] + old(ring[1..])
      ensures r == Started ==> Alarms() == [StartEntry<Node>(alarm, nticks, interval)] + old(Alarms())
      ensures r != Started ==> ring == old(ring) && Alarms() == old(Alarms())
    {
      if tickRate == 0 { return NoClock; }
      if alarm == null { return NoAlarm; }
      assert Joined(ring[0], ring[After(0, |ring|)]);
      alarm.time := (interval + nticks + 1) % WORD;
      alarm.rollover := alarm.time < nticks;
      Insert(head, alarm, ring);
      RecordsSame(ring[1..]);
      ring := [head, alarm] + ring[1..];
      assert ring[1..][1..] == old(ring[1..]);
      return Started;
    }

    /** Unregister an alarm; one that is not registered is left as it is. */
    method Stop(alarm: Node, ghost i: nat)
      requires Valid()
      requires (0 < i < |ring| && ring[i] == alarm) || (i >= |ring| && alarm !in ring && SelfLinked(alarm))
      modifies this`ring, ring, alarm
      ensures Valid() && SelfLinked(alarm)
      ensures i < old(|ring|) ==> ring == old(ring[..i] + ring[i + 1..])
      ensures i >= old(|ring|) ==> ring == old(ring)
      ensures Alarms() == Without(old(Alarms()), alarm)
      ensures forall n :: n in old(ring) ==> n.time == old(n.time) && n.rollover == old(n.rollover)
    {
      OnTheRing(i);
      hide Linked, Records, Without, Distinct, Joined;
      Remove(alarm, ring, i);
      RecordsSame(ring[1..]);
      Forget(alarm, i);
    }

    /** An alarm in the list has both neighbours in it. */
    lemma OnTheRing(i: nat)
      requires Valid()
      ensures 0 < i < |ring| ==> ring[i].next in ring && ring[i].previous in ring
      ensures ring != []
    {
      if 0 < i < |ring| {
        assert Joined(ring[i], ring[After(i, |ring|)]) && Joined(ring[i - 1], ring[After(i - 1, |ring|)]);
      }
    }

    /** The node unlinked at `i`, if any, leaves the bookkeeping. */
    ghost method Forget(alarm: Node, i: nat)
      requires ring != [] && ring[0] == head && Distinct(ring)
      requires (0 < i < |ring| && ring[i] == alarm && Linked(ring[..i] + ring[i + 1..]))
               || (i >= |ring| && alarm !in ring && Linked(ring))
      modifies this`ring
      ensures Valid() && Alarms() == Without(Records(old(ring[1..])), alarm)
      ensures ring == if i < old(|ring|) then old(ring[..i] + ring[i + 1..]) else old(ring)
    {
      hide Linked, Records, Without;
      RingTail(ring);
      if i < |ring| {
        WithoutRecord(ring[1..], i - 1);
        assert (ring[..i] + ring[i + 1..])[1..] == ring[1..][..i - 1] + ring[1..][i..];
        ring := ring[..i] + ring[i + 1..];
      } else {
        WithoutAbsent(ring[1..], alarm);
      }
    }

    /** The treatment of one alarm during a tick. */
    method Consider(alarm: Node, ghost j: nat, reply: Node -> u32) returns (called: bool)
      requires Valid() && 0 < j < |ring| && ring[j] == alarm
      modifies this`ring, ring
      ensures Valid()
      ensures var (left, f) := TickOne(old(Entry(alarm, alarm.time, alarm.rollover)), nticks, reply);
              && called == f
              && if left == [] then ring == old(ring[..j] + ring[j + 1..]) && SelfLinked(alarm) && reply(alarm) == 0
                 else ring == old(ring) && left == [Entry(alarm, alarm.time, alarm.rollover)]
      ensures forall n :: n in old(ring) && n != alarm ==> n.time == old(n.time) && n.rollover == old(n.rollover)
    {
      called := false;
      if alarm.rollover && nticks == 0 { alarm.rollover := false; }
      if alarm.time <= nticks && !alarm.rollover {
        var nextCallback := reply(alarm);
        called := true;
        if nextCallback == 0 {
          Stop(alarm, j);
        } else {
          alarm.time := (alarm.time + nextCallback) % WORD;
          if alarm.time < nticks { alarm.rollover := true; }
        }
      }
    }

    /** One turn of the walk, at `alarm`, with `kept` behind it and `rest` from it on. */
    method Visit(alarm: Node, ghost kept: seq<Node>, ghost rest: seq<Node>, ghost fired: seq<Node>, reply: Node -> u32)
      returns (ghost kept': seq<Node>, called: bool, next: Node)
      requires Valid() && ring == [head] + kept + rest && rest != [] && rest[0] == alarm
      modifies this`ring, ring
      ensures Valid() && ring == [head] + kept' + rest[1..]
      ensures next == if |rest| > 1 then rest[1] else head
      ensures (alarm in ring && ring == old(ring)) || (alarm !in ring && SelfLinked(alarm))
      ensures forall k :: 0 <= k < |ring| ==> ring[k] in old(ring)
      ensures forall m :: m in old(ring) ==> m in ring || m == alarm
      ensures Combine(Records(kept'), if called then fired + [alarm] else fired,
                      TickAll(Records(rest[1..]), nticks, reply))
           == old(Combine(Records(kept), fired, TickAll(Records(rest), nticks, reply)))
    {
      RingSplit(head, kept, rest);
      CombineStep(Records(kept), fired, Records(rest), nticks, reply);
      hide TickOne, TickAll, Combine;
      ghost var j := 1 + |kept|;
      assert Joined(ring[j], ring[After(j, |ring|)]);
      next := alarm.next;
      ghost var left := TickOne(Entry(alarm, alarm.time, alarm.rollover), nticks, reply).0;
      called := Consider(alarm, j, reply);
      RecordsSame(kept);
      RecordsSame(rest[1..]);
      if left == [] {
        assert Records(kept) + left == Records(kept);
        kept' := kept;
      } else {
        RecordsAppend(kept, [alarm]);
        assert Records([alarm]) == left;
        kept' := kept + [alarm];
      }
    }

    /**
     * The walk stands at `alarm`: `kept` is behind it, `rest` from it on, and what was done and is
     * still to do adds up to `goal`. Every node of the list at the start, `was`, is in it or out.
     */
    ghost predicate Walking(was: seq<Node>, kept: seq<Node>, rest: seq<Node>, fired: seq<Node>, alarm: Node, n: u32,
                            goal: (seq<Entry<Node>>, seq<Node>), reply: Node -> u32)
      reads this, ring, was, kept, rest
    {
      && Valid() && nticks == n && ring == [head] + kept + rest
      && (forall k :: 0 <= k < |ring| ==> ring[k] in was)
      && alarm == (if rest != [] then rest[0] else head)
      && goal == Combine(Records(kept), fired, TickAll(Records(rest), n, reply))
      && (forall m :: m in was ==> m in ring || SelfLinked(m))
    }

    method Turn(alarm: Node, ghost was: seq<Node>, ghost kept: seq<Node>, ghost rest: seq<Node>, ghost fired: seq<Node>,
                ghost goal: (seq<Entry<Node>>, seq<Node>), reply: Node -> u32)
      returns (ghost kept': seq<Node>, called: bool, next: Node)
      requires Walking(was, kept, rest, fired, alarm, nticks, goal, reply) && alarm != head
      modifies this`ring, was
      ensures rest != []
      ensures Walking(was, kept', rest[1..], if called then fired + [alarm] else fired, next, nticks, goal, reply)
    {
      hide Linked, TickAll, Combine, Records, Joined, Distinct;
      kept', called, next := Visit(alarm, kept, rest, fired, reply);
    }

    /**
     * A tick of the system clock, for callbacks that leave the list alone. The walk considers
     * each registered alarm once, in order: it leaves the list, and calls the callbacks, that
     * the stored-alarm arithmetic prescribes, and unlinks just the alarms whose callback returned 0.
     */
    method Tick(reply: Node -> u32) returns (fired: seq<Node>)
      requires Valid()
      modifies this`nticks, this`ring, ring
      ensures Valid() && nticks == (old(nticks) + 1) % WORD
      ensures (Alarms(), fired) == TickAll(old(Alarms()), nticks, reply)
      ensures forall m :: m in old(ring) ==> m in ring || SelfLinked(m)
    {
      hide Linked, Records, TickAll;
      RingNotEmpty();
      nticks := (nticks + 1) % WORD;
      fired := Walk(ring, TickAll(Records(ring[1..]), nticks, reply), reply);
    }

    lemma RingNotEmpty()
      requires Valid()
      ensures ring != []
    {
    }

    /** The loop of the tick over the list, once the counter has moved. */
    method Walk(ghost was: seq<Node>, ghost goal: (seq<Entry<Node>>, seq<Node>), reply: Node -> u32)
      returns (fired: seq<Node>)
      requires Valid() && was == ring && ring != [] && goal == TickAll(Records(ring[1..]), nticks, reply)
      modifies this`ring, was
      ensures Valid() && ring != [] && (Alarms(), fired) == goal
      ensures forall m :: m in was ==> m in ring || SelfLinked(m)
    {
      hide *;
      ghost var kept, rest := [], ring[1..];
      fired := [];
      var alarm := head.next;
      WalkBegins(goal, reply);
      while alarm != head
        invariant Walking(was, kept, rest, fired, alarm, nticks, goal, reply)
        decreases |rest|
      {
        var called, next;
        kept, called, next := Turn(alarm, was, kept, rest, fired, goal, reply);
        if called { fired := fired + [alarm]; }
        rest := rest[1..];
        alarm := next;
      }
      WalkEnds(was, kept, rest, fired, goal, reply);
    }

    lemma WalkBegins(goal: (seq<Entry<Node>>, seq<Node>), reply: Node -> u32)
      requires Valid() && ring != [] && goal == TickAll(Records(ring[1..]), nticks, reply)
      ensures Walking(ring, [], ring[1..], [], head.next, nticks, goal, reply)
    {
      hide TickAll, Records, Distinct;
      assert Joined(ring[0], ring[After(0, |ring|)]);
      assert ring == [head] + [] + ring[1..];
      assert [] + goal.0 == goal.0 && [] + goal.1 == goal.1;
      NoRecords();
    }

    lemma WalkEnds(was: seq<Node>, kept: seq<Node>, rest: seq<Node>, fired: seq<Node>,
                   goal: (seq<Entry<Node>>, seq<Node>), reply: Node -> u32)
      requires Walking(was, kept, rest, fired, head, nticks, goal, reply)
      ensures Valid() && ring != [] && (Alarms(), fired) == goal
      ensures forall m :: m in was ==> m in ring || SelfLinked(m)
    {
      if rest != [] { RingSplit(head, kept, rest); }
      assert ring[1..] == kept;
      assert Alarms() + [] == Alarms() && fired + [] == fired;
    }
  }

  lemma NoRecords()
    ensures Records([]) == []
  {
  }

  /** What was left and fired so far, followed by what the rest of the walk gives. */
  ghost function Combine(kept: seq<Entry<Node>>, fired: seq<Node>, more: (seq<Entry<Node>>, seq<Node>))
    : (seq<Entry<Node>>, seq<Node>)
  {
    (kept + more.0, fired + more.1)
  }

  lemma CombineStep(kept: seq<Entry<Node>>, fired: seq<Node>, list: seq<Entry<Node>>, n: u32, reply: Node -> u32)
    requires list != []
    ensures var (left, called) := TickOne(list[0], n, reply);
            Combine(kept, fired, TickAll(list, n, reply))
            == Combine(kept + left, if called then fired + [list[0].id] else fired, TickAll(list[1..], n, reply))
  {
    var (left, called) := TickOne(list[0], n, reply);
    var (rest, others) := TickAll(list[1..], n, reply);
    Assoc(kept, left, rest);
    Assoc(fired, [list[0].id], others);
    hide TickOne;
  }

  lemma Assoc<T>(a: seq<T>, b: seq<T>, c: seq<T>)
    ensures a + (b + c) == a + b + c
  {
  }

  lemma RingSplit(head: Node, kept: seq<Node>, rest: seq<Node>)
    requires rest != [] && Distinct([head] + kept + rest)
    ensures var ring, j, alarm := [head] + kept + rest, 1 + |kept|, rest[0];
            && ring[j] == alarm && alarm != head && alarm !in kept && alarm !in rest[1..]
            && ring[After(j, |ring|)] == (if |rest| > 1 then rest[1] else head)
    ensures var ring, j := [head] + kept + rest, 1 + |kept|;
            ring[..j] + ring[j + 1..] == [head] + kept + rest[1..]
    ensures [head] + kept + rest == [head] + (kept + [rest[0]]) + rest[1..]
  {
    var ring, j := [head] + kept + rest, 1 + |kept|;
    assert ring[..j] == [head] + kept;
    assert ring[j + 1..] == rest[1..];
    assert ring[j] == rest[0] && ring[0] == head;
    forall i | 0 <= i < |kept| ensures kept[i] != rest[0] { assert ring[1 + i] == kept[i]; }
    forall i | 0 <= i < |rest[1..]| ensures rest[1..][i] != rest[0] { assert ring[j + 1 + i] == rest[1..][i]; }
  }
}
