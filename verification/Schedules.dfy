// Schedules: for each access of a routine, what other contexts do before it.
module Schedules {

  /** What happens before access number `turn`; nothing once the schedule is used up. */
  function Slot<A>(sched: seq<seq<A>>, turn: nat): seq<A> {
    if turn < |sched| then sched[turn] else []
  }

  /** What happens before the accesses `i` to `j - 1`. */
  ghost function Slots<A>(sched: seq<seq<A>>, i: nat, j: nat): seq<A>
    decreases j
  {
    if j <= i then [] else Slots(sched, i, j - 1) + Slot(sched, j - 1)
  }

  lemma {:induction false} SlotsAdd<A>(sched: seq<seq<A>>, i: nat, j: nat, k: nat)
    requires i <= j <= k
    ensures Slots(sched, i, k) == Slots(sched, i, j) + Slots(sched, j, k)
    decreases k
  {
    hide Slot;
    if j < k {
      SlotsAdd(sched, i, j, k - 1);
      assert Slots(sched, i, j) + Slots(sched, j, k - 1) + Slot(sched, k - 1)
          == Slots(sched, i, j) + (Slots(sched, j, k - 1) + Slot(sched, k - 1));
    }
  }

  /** From access `i` on nothing else happens. */
  lemma {:induction false} SlotsUsedUp<A>(sched: seq<seq<A>>, i: nat, j: nat)
    requires i >= |sched|
    ensures Slots(sched, i, j) == []
    decreases j
  {
    if i < j { SlotsUsedUp(sched, i, j - 1); }
  }

  /** `b` is `a` with more elements, all of them `x`. */
  ghost predicate Extends<A>(a: seq<A>, b: seq<A>, x: A) {
    a <= b && forall i :: |a| <= i < |b| ==> b[i] == x
  }

  lemma ExtendsOn<A>(a: seq<A>, b: seq<A>, c: seq<A>, x: A)
    requires Extends(a, b, x) && Extends(b, c, x)
    ensures Extends(a, c, x)
  {
    forall i | |a| <= i < |c| ensures c[i] == x { if i < |b| { assert c[i] == b[i]; } }
  }
}
