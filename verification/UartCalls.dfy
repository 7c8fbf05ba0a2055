// A write call as a stretch of the machine's run, and what it does when nothing comes between.
module UartCalls {
  import opened Words
  import opened Ring
  import opened Schedules
  import opened UartTx

  predicate IsPreemption(a: Action) { a.Interrupt? || a.Wait? }

  predicate IsSchedule(sched: seq<seq<Action>>) {
    forall i, j :: 0 <= i < |sched| && 0 <= j < |sched[i]| ==> IsPreemption(sched[i][j])
  }

  /** The writer's actions in a history. */
  ghost function Own(history: seq<Action>): seq<Action> {
    if history == [] then []
    else
      var last := history[|history| - 1];
      Own(history[..|history| - 1]) + if IsPreemption(last) then [] else [last]
  }

  /** The actions of the interrupt routine and of the line. */
  ghost function Others(history: seq<Action>): seq<Action> {
    if history == [] then []
    else
      var last := history[|history| - 1];
      Others(history[..|history| - 1]) + if IsPreemption(last) then [last] else []
  }

  lemma OneMoreAction(history: seq<Action>, a: Action)
    ensures Own(history + [a]) == Own(history) + if IsPreemption(a) then [] else [a]
    ensures Others(history + [a]) == Others(history) + if IsPreemption(a) then [a] else []
  {
    assert (history + [a])[..|history|] == history;
  }

  // ----- a write left alone

  ghost predicate Full(s: System) {
    Shape(s.buf, s.end, s.start) && |s.buf| == BUF_LEN && |Live(s.buf, s.end, s.start)| == BUF_LEN - 1
  }

  /** A write that nothing has come between ends short, or waits, only with a full ring. */
  ghost predicate Alone(s: System) {
    && (s.w.ptr < |s.w.data| && (s.w.pc.Final? || s.w.pc.Idle?) ==> Full(s))
    && (s.w.pc.Enable? || s.w.pc.Spin? ==> Full(s) && s.w.next == s.start)
  }

  ghost predicate OnlyWrites(s: System, e: System) {
    e.start == s.start && e.handed == s.handed && e.hw == s.hw && s.accepted <= e.accepted
    && e.w.data == s.w.data && e.w.base == s.w.base && e.w.nonblock == s.w.nonblock
  }

  lemma AloneStep(s: System)
    requires Inv(s) && Alone(s)
    ensures Inv(WStep(s)) && Alone(WStep(s)) && OnlyWrites(s, WStep(s))
  {
    WStepOk(s);
    if s.w.pc.Top? { AloneTop(s); hide *; }
    else if s.w.pc.Store? || s.w.pc.Bump? { AloneStore(s); hide *; }
    else { AloneElse(s); hide *; }
  }

  lemma AloneTop(s: System)
    requires Inv(s) && s.w.pc.Top?
    ensures Alone(WStep(s)) && OnlyWrites(s, WStep(s))
  {
    WrapIsMask(s.end);
    hide Live, Covered, WriterOk, Wrap;
  }

  lemma AloneStore(s: System)
    requires Inv(s) && (s.w.pc.Store? || s.w.pc.Bump?)
    ensures Alone(WStep(s)) && OnlyWrites(s, WStep(s))
  {
    assert s.w.ptr < |s.w.data|;
    hide Live, Covered, WriterOk, RingOk, Full;
    var byte := if s.w.pc.Store? then [] else [s.w.data[s.w.ptr]];
    assert WStep(s).accepted == s.accepted + byte;
  }

  lemma AloneElse(s: System)
    requires Inv(s) && Alone(s) && !s.w.pc.Top? && !s.w.pc.Store? && !s.w.pc.Bump?
    ensures Alone(WStep(s)) && OnlyWrites(s, WStep(s))
  {
    hide Live, Covered, WriterOk;
  }

  /** What such a write has put in the ring when it ends or waits. */
  lemma PutIn(s: System, e: System)
    requires Inv(s) && Inv(e) && Alone(e) && OnlyWrites(s, e) && s.w.ptr == 0 && (e.w.pc.Idle? || e.w.pc.Spin?)
    ensures var room := BUF_LEN - 1 - |Live(s.buf, s.end, s.start)|;
      e.w.ptr == if |e.w.data| <= room then |e.w.data| else room
  {
    hide Live, Covered;
    assert |e.accepted| == |e.handed| + |Live(e.buf, e.end, e.start)|;
    assert |s.accepted| == |s.handed| + |Live(s.buf, s.end, s.start)|;
  }

  // ----- stretches of a call

  datatype Moment = Moment(sys: System, history: seq<Action>)

  /** Exactly the actions of `slot` have happened, and then one step of the writer. */
  ghost predicate Went(a: Moment, b: Moment, sched: seq<seq<Action>>, i: nat, j: nat) {
    && i <= j && a.history <= b.history && Extends(Own(a.history), Own(b.history), Step)
    && Others(b.history) == Others(a.history) + Slots(sched, i, j)
    && (Slots(sched, i, j) == [] && Alone(a.sys) ==> Alone(b.sys) && OnlyWrites(a.sys, b.sys))
  }

  lemma WentOn(a: Moment, b: Moment, c: Moment, sched: seq<seq<Action>>, i: nat, j: nat, k: nat)
    requires Went(a, b, sched, i, j) && Went(b, c, sched, j, k)
    ensures Went(a, c, sched, i, k)
  {
    hide Own, Others, Slots, Extends, Alone;
    ExtendsOn(Own(a.history), Own(b.history), Own(c.history), Step);
    SlotsAdd(sched, i, j, k);
    assert Others(a.history) + Slots(sched, i, j) + Slots(sched, j, k)
        == Others(a.history) + (Slots(sched, i, j) + Slots(sched, j, k));
  }

  lemma WentNowhere(a: Moment, sched: seq<seq<Action>>, i: nat)
    ensures Went(a, a, sched, i, i)
  {
    hide Own, Others, Alone;
    assert Others(a.history) + [] == Others(a.history);
  }

  ghost predicate Preempted(a: Moment, b: Moment, slot: seq<Action>) {
    && a.history <= b.history && Own(b.history) == Own(a.history)
    && Others(b.history) == Others(a.history) + slot && (slot == [] ==> b == a)
  }

  lemma NotPreempted(a: Moment)
    ensures Preempted(a, a, [])
  {
    assert Others(a.history) + [] == Others(a.history);
  }

  lemma PreemptedMore(a: Moment, b: Moment, c: Moment, slot: seq<Action>, act: Action)
    requires Preempted(a, b, slot) && c.history == b.history + [act] && IsPreemption(act)
    ensures Preempted(a, c, slot + [act])
  {
    hide Own, Others;
    OneMoreAction(b.history, act);
    assert Own(b.history) + [] == Own(b.history);
    assert Others(a.history) + slot + [act] == Others(a.history) + (slot + [act]);
  }

  lemma WentOne(a: Moment, b: Moment, c: Moment, sched: seq<seq<Action>>, turn: nat)
    requires Preempted(a, b, Slot(sched, turn)) && Inv(b.sys) && c == Moment(Next(b.sys, Step), b.history + [Step])
    ensures Went(a, c, sched, turn, turn + 1)
  {
    if Alone(b.sys) { AloneStep(b.sys); }
    hide Own, Others, Slot, WStep, Inv, Alone, OnlyWrites;
    OneMoreAction(b.history, Step);
    assert Slots(sched, turn, turn + 1) == [] + Slot(sched, turn) == Slot(sched, turn);
    assert Others(b.history) + [] == Others(b.history);
  }

  /** A step without an access. */
  lemma WentStill(a: Moment, c: Moment, sched: seq<seq<Action>>, turn: nat)
    requires Inv(a.sys) && c == Moment(Next(a.sys, Step), a.history + [Step])
    ensures Went(a, c, sched, turn, turn)
  {
    if Alone(a.sys) { AloneStep(a.sys); }
    hide Own, Others, Slot, WStep, Inv, Alone, OnlyWrites;
    OneMoreAction(a.history, Step);
    assert Others(a.history) + [] == Others(a.history);
  }

  /** A call that has ended or waits: its own actions, the others', and what it did if alone. */
  lemma WholeCall(a: Moment, b: Moment, c: Moment, data: seq<byte>, nonblock: bool, sched: seq<seq<Action>>, turns: nat)
    requires Inv(a.sys) && Inv(c.sys) && a.sys.w.pc.Idle? && Went(b, c, sched, 0, turns)
    requires b == Moment(Next(a.sys, Call(data, nonblock)), a.history + [Call(data, nonblock)])
    requires c.sys.w.pc.Idle? || c.sys.w.pc.Spin?
    ensures Extends(Own(a.history) + [Call(data, nonblock)], Own(c.history), Step)
    ensures Others(c.history) == Others(a.history) + Slots(sched, 0, turns)
    ensures Slots(sched, 0, turns) == [] ==>
      var room := BUF_LEN - 1 - |Live(a.sys.buf, a.sys.end, a.sys.start)|;
      c.sys.w.ptr == if |data| <= room then |data| else room
  {
    hide Own, Others, Slots, Extends, Live, Covered;
    OneMoreAction(a.history, Call(data, nonblock));
    assert Others(a.history) + [] == Others(a.history);
    NextOk(a.sys, Call(data, nonblock));
    if Slots(sched, 0, turns) == [] { PutIn(b.sys, c.sys); }
  }
}
