// A foreground call as a stretch of the machine's run: which of its actions are the call's own,
// and which come from a schedule of what happens before each access.
module JtagCalls {
  import opened Words
  import opened JtagModel
  import opened JtagSystem
  import opened JtagTheorems
  import opened Schedules

  /** Actions that can come between two statements of a foreground routine. */
  predicate IsPreemption(a: Action) { a.Host? || a.Interrupt? || a.Timer? }

  predicate IsSchedule(sched: seq<seq<Action>>) {
    forall i, j :: 0 <= i < |sched| && 0 <= j < |sched[i]| ==> IsPreemption(sched[i][j])
  }

  /** The actions of foreground routines in a history. */
  ghost function Own(history: seq<Action>): seq<Action> {
    if history == [] then []
    else
      var last := history[|history| - 1];
      Own(history[..|history| - 1]) + if IsPreemption(last) then [] else [last]
  }

  /** The actions of everybody else. */
  ghost function Others(history: seq<Action>): seq<Action> {
    if history == [] then []
    else
      var last := history[|history| - 1];
      Others(history[..|history| - 1]) + if IsPreemption(last) then [last] else []
  }

  lemma OneMoreAction(history: seq<Action>, a: Action)
    ensures Own(history + [a]) == Own(history) + if IsPreemption(a) then [] else [a]
    ensures Others(history + [a]) == Others(history) + if IsPreemption(a) then [a] else []
  {
    assert (history + [a])[..|history|] == history;
  }

  /** The machine and its history at some point of a routine. */
  datatype Moment = Moment(sys: System, history: seq<Action>)

  /** The next moment after one action. */
  ghost function After(a: Moment, act: Action): Moment
    requires SysOk(a.sys)
  {
    Moment(Next(a.sys, act), a.history + [act])
  }

  // ----- between two accesses

  /** Exactly the actions of `slot` have happened. */
  ghost predicate Preempted(a: Moment, b: Moment, slot: seq<Action>) {
    && a.history <= b.history && b.sys.w == a.sys.w && b.sys.r == a.sys.r
    && b.sys.dev.tx.accepted == a.sys.dev.tx.accepted && b.sys.dev.rx.delivered == a.sys.dev.rx.delivered
    && Own(b.history) == Own(a.history) && Others(b.history) == Others(a.history) + slot
    && (slot == [] ==> b == a)
  }

  lemma NotPreempted(a: Moment)
    ensures Preempted(a, a, [])
  {
    assert Others(a.history) + [] == Others(a.history);
  }

  lemma PreemptedMore(a: Moment, b: Moment, c: Moment, slot: seq<Action>, act: Action)
    requires Preempted(a, b, slot) && Preempted(b, c, [act])
    ensures Preempted(a, c, slot + [act])
  {
    assert Others(a.history) + slot + [act] == Others(a.history) + (slot + [act]);
  }

  lemma PreemptedOnce(a: Moment, act: Action)
    requires SysOk(a.sys) && IsPreemption(act)
    requires Next(a.sys, act).dev.tx.accepted == a.sys.dev.tx.accepted
    requires Next(a.sys, act).dev.rx.delivered == a.sys.dev.rx.delivered
    ensures Preempted(a, After(a, act), [act])
  {
    hide Own, Others, Irq, HwStep, TimerStep, SysOk;
    OneMoreAction(a.history, act);
    assert Own(a.history) + [] == Own(a.history);
  }

  // ----- a stretch of one routine

  /** Between two accesses `i` and `j` of a routine: its own steps, and the schedule's actions. */
  ghost predicate Went(a: Moment, b: Moment, step: Action, sched: seq<seq<Action>>, i: nat, j: nat) {
    && i <= j && a.history <= b.history && Extends(Own(a.history), Own(b.history), step)
    && Others(b.history) == Others(a.history) + Slots(sched, i, j)
  }

  lemma WentOn(a: Moment, b: Moment, c: Moment, step: Action, sched: seq<seq<Action>>, i: nat, j: nat, k: nat)
    requires Went(a, b, step, sched, i, j) && Went(b, c, step, sched, j, k)
    ensures Went(a, c, step, sched, i, k)
  {
    hide Own, Others, Slots, Extends;
    ExtendsOn(Own(a.history), Own(b.history), Own(c.history), step);
    SlotsAdd(sched, i, j, k);
    assert Others(a.history) + Slots(sched, i, j) + Slots(sched, j, k)
        == Others(a.history) + (Slots(sched, i, j) + Slots(sched, j, k));
  }

  lemma WentNowhere(a: Moment, step: Action, sched: seq<seq<Action>>, i: nat)
    ensures Went(a, a, step, sched, i, i)
  {
    hide Own, Others;
    assert Others(a.history) + [] == Others(a.history);
  }

  lemma WentOne(a: Moment, b: Moment, step: Action, sched: seq<seq<Action>>, turn: nat)
    requires Preempted(a, b, Slot(sched, turn)) && SysOk(b.sys) && !IsPreemption(step)
    ensures Went(a, After(b, step), step, sched, turn, turn + 1)
  {
    hide Own, Others, Slot, Next, SysOk;
    OneMoreAction(b.history, step);
    assert Slots(sched, turn, turn + 1) == [] + Slot(sched, turn) == Slot(sched, turn);
    assert Others(b.history) + [] == Others(b.history);
  }

  /** A step without an access. */
  lemma WentStill(a: Moment, step: Action, sched: seq<seq<Action>>, turn: nat)
    requires SysOk(a.sys) && !IsPreemption(step)
    ensures Went(a, After(a, step), step, sched, turn, turn)
  {
    hide Own, Others, Slot, Next, SysOk;
    OneMoreAction(a.history, step);
    assert Others(a.history) + [] == Others(a.history);
  }

  // ----- of the read routine

  /** The call goes on, and if nothing comes between its accesses it is left alone. */
  ghost predicate ReadCalm(a: System, b: System, quiet: bool) {
    && b.w == a.w && b.r.want == a.r.want && b.r.nonblock == a.r.nonblock && (a.r.gone ==> b.r.gone)
    && (quiet && Alone(a) ==> Alone(b) && OnlyReads(a, b))
  }

  ghost predicate ReaderWent(a: Moment, b: Moment, sched: seq<seq<Action>>, i: nat, j: nat) {
    Went(a, b, ReaderStep, sched, i, j) && ReadCalm(a.sys, b.sys, Slots(sched, i, j) == [])
  }

  lemma ReaderWentOn(a: Moment, b: Moment, c: Moment, sched: seq<seq<Action>>, i: nat, j: nat, k: nat)
    requires ReaderWent(a, b, sched, i, j) && ReaderWent(b, c, sched, j, k)
    ensures ReaderWent(a, c, sched, i, k)
  {
    WentOn(a, b, c, ReaderStep, sched, i, j, k);
    SlotsAdd(sched, i, j, k);
    hide Went, Slots, Alone;
  }

  lemma ReaderWentNowhere(a: Moment, sched: seq<seq<Action>>, i: nat)
    ensures ReaderWent(a, a, sched, i, i)
  {
    WentNowhere(a, ReaderStep, sched, i);
  }

  lemma ReaderWentOne(a: Moment, b: Moment, sched: seq<seq<Action>>, turn: nat)
    requires Preempted(a, b, Slot(sched, turn)) && SysOk(b.sys)
    ensures ReaderWent(a, After(b, ReaderStep), sched, turn, turn + 1)
  {
    WentOne(a, b, ReaderStep, sched, turn);
    assert Slots(sched, turn, turn + 1) == [] + Slot(sched, turn) == Slot(sched, turn);
    NextIsStep(b.sys);
    StepKeepsCall(b.sys);
    if Alone(b.sys) { AloneStep(b.sys); }
    hide Went, Slots, Slot, Own, Others, Next, RStep, SysOk, Alone, OnlyReads;
  }

  lemma StepKeepsCall(s: System)
    requires SysOk(s)
    ensures var e := RStep(s);
      e.w == s.w && e.r.want == s.r.want && e.r.nonblock == s.r.nonblock && (s.r.gone ==> e.r.gone)
  {
    hide DevOk, TxOk, RxOk, WriterOk, ReaderOk;
  }

  // ----- of the write routine

  ghost predicate WriteCalm(a: System, b: System, quiet: bool) {
    && b.r == a.r && b.w.data == a.w.data && b.w.nonblock == a.w.nonblock && b.w.base == a.w.base
    && (a.w.gone ==> b.w.gone)
    && (quiet && WritesAlone(a) ==> WritesAlone(b) && OnlyWrites(a, b))
  }

  ghost predicate WriterWent(a: Moment, b: Moment, sched: seq<seq<Action>>, i: nat, j: nat) {
    Went(a, b, WriterStep, sched, i, j) && WriteCalm(a.sys, b.sys, Slots(sched, i, j) == [])
  }

  lemma WriterWentOn(a: Moment, b: Moment, c: Moment, sched: seq<seq<Action>>, i: nat, j: nat, k: nat)
    requires WriterWent(a, b, sched, i, j) && WriterWent(b, c, sched, j, k)
    ensures WriterWent(a, c, sched, i, k)
  {
    WentOn(a, b, c, WriterStep, sched, i, j, k);
    SlotsAdd(sched, i, j, k);
    hide Went, Slots, WritesAlone;
  }

  lemma WriterWentNowhere(a: Moment, sched: seq<seq<Action>>, i: nat)
    ensures WriterWent(a, a, sched, i, i)
  {
    WentNowhere(a, WriterStep, sched, i);
  }

  lemma WriterWentOne(a: Moment, b: Moment, sched: seq<seq<Action>>, turn: nat)
    requires Preempted(a, b, Slot(sched, turn)) && SysOk(b.sys)
    ensures WriterWent(a, After(b, WriterStep), sched, turn, turn + 1)
  {
    WentOne(a, b, WriterStep, sched, turn);
    assert Slots(sched, turn, turn + 1) == [] + Slot(sched, turn) == Slot(sched, turn);
    WriterCalmStep(b.sys);
    hide Went, Slots, Slot, Own, Others, Next, SysOk, WritesAlone, OnlyWrites;
  }

  lemma WriterWentStill(a: Moment, sched: seq<seq<Action>>, turn: nat)
    requires SysOk(a.sys)
    ensures WriterWent(a, After(a, WriterStep), sched, turn, turn)
  {
    WentStill(a, WriterStep, sched, turn);
    WriterCalmStep(a.sys);
    hide Went, Slots, Slot, Own, Others, Next, SysOk, WritesAlone, OnlyWrites;
  }

  lemma WriterCalmStep(s: System)
    requires SysOk(s)
    ensures WriteCalm(s, Next(s, WriterStep), true)
  {
    hide Next, WStep, SysOk, WritesAlone, OnlyWrites;
    WriterIsStep(s);
    WriteKeepsCall(s);
    if WritesAlone(s) { WritesAloneStep(s); }
  }

  lemma WriterIsStep(s: System)
    requires SysOk(s)
    ensures Next(s, WriterStep) == WStep(s)
  {
    hide SysOk, WStep;
  }

  lemma WriteKeepsCall(s: System)
    requires SysOk(s)
    ensures var e := WStep(s);
      && e.r == s.r && e.w.data == s.w.data && e.w.nonblock == s.w.nonblock && e.w.base == s.w.base
      && (s.w.gone ==> e.w.gone)
  {
    hide DevOk, TxOk, RxOk, WriterOk, ReaderOk;
  }

  // ----- whole calls

  ghost predicate Full(s: System) {
    s.dev.tx.Wf() && |s.dev.tx.Waiting()| == BUF_LEN - 1
  }

  /** How many bytes the transmit ring has room for. */
  ghost function Vacant(t: Tx): nat
    requires t.Wf()
  {
    BUF_LEN - 1 - |t.Waiting()|
  }

  ghost predicate Empty(s: System) {
    s.dev.rx.Wf() && s.dev.rx.Waiting() == []
  }

  lemma CallBegins(a: Moment, act: Action)
    requires SysOk(a.sys) && !IsPreemption(act)
    ensures Own(After(a, act).history) == Own(a.history) + [act]
    ensures Others(After(a, act).history) == Others(a.history)
  {
    hide Own, Others, Next, SysOk;
    OneMoreAction(a.history, act);
    assert Others(a.history) + [] == Others(a.history);
  }

  /** A write call that has ended or waits: its own actions, the others', and what it did if alone. */
  lemma WholeWrite(a: Moment, data: seq<byte>, nonblock: bool, c: Moment, sched: seq<seq<Action>>, turns: nat)
    requires SysOk(a.sys) && SysOk(c.sys) && a.sys.w.pc.WIdle?
    requires WriterWent(After(a, StartWrite(data, nonblock)), c, sched, 0, turns)
    requires c.sys.w.pc.WIdle? || c.sys.w.pc.WSpin?
    ensures Extends(Own(a.history) + [StartWrite(data, nonblock)], Own(c.history), WriterStep)
    ensures Others(c.history) == Others(a.history) + Slots(sched, 0, turns)
    ensures Slots(sched, 0, turns) == [] ==>
      && a.sys.dev.tx.Wf() && c.sys.w.ptr == Min(|data|, Vacant(a.sys.dev.tx))
      && (c.sys.w.gone ==> c.sys.dev.inactive >= c.sys.dev.timeout)
  {
    hide Own, Others, Slots, Extends, Alone;
    var start := StartWrite(data, nonblock);
    CallBegins(a, start);
    NextOk(a.sys, start);
    WriteStarts(a.sys, data, nonblock);
    if Slots(sched, 0, turns) == [] { PutIn(Next(a.sys, start), c.sys); }
  }

  lemma WriteStarts(s: System, data: seq<byte>, nonblock: bool)
    requires SysOk(s) && s.w.pc.WIdle?
    ensures var e := Next(s, StartWrite(data, nonblock));
      && e.dev == s.dev && WritesAlone(e) && e.w.ptr == 0 && !e.w.gone && e.w.data == data && s.dev.tx.Wf()
  {
    hide ReaderOk, RxOk;
  }

  /** A read call that has ended or waits: its own actions, the others', and what it did if alone. */
  lemma WholeRead(a: Moment, space: nat, nonblock: bool, c: Moment, sched: seq<seq<Action>>, turns: nat)
    requires SysOk(a.sys) && SysOk(c.sys) && a.sys.r.pc.RIdle?
    requires ReaderWent(After(a, StartRead(space, nonblock)), c, sched, 0, turns)
    requires c.sys.r.pc.RIdle? || c.sys.r.pc.RSpin?
    ensures Extends(Own(a.history) + [StartRead(space, nonblock)], Own(c.history), ReaderStep)
    ensures Others(c.history) == Others(a.history) + Slots(sched, 0, turns)
    ensures Slots(sched, 0, turns) == [] ==>
      && a.sys.dev.rx.Wf() && c.sys.r.dst == a.sys.dev.rx.Waiting()[..Min(space, |a.sys.dev.rx.Waiting()|)]
      && (c.sys.r.gone ==> c.sys.dev.inactive >= c.sys.dev.timeout)
  {
    hide Own, Others, Slots, Extends, WritesAlone;
    var start := StartRead(space, nonblock);
    CallBegins(a, start);
    NextOk(a.sys, start);
    ReadStarts(a.sys, space, nonblock);
    if Slots(sched, 0, turns) == [] { TakenOut(Next(a.sys, start), c.sys); }
  }

  lemma ReadStarts(s: System, space: nat, nonblock: bool)
    requires SysOk(s) && s.r.pc.RIdle?
    ensures var e := Next(s, StartRead(space, nonblock));
      && e.dev == s.dev && Alone(e) && !e.r.gone && e.r.want == space && s.dev.rx.Wf()
      && e.r.base == |s.dev.rx.delivered|
  {
    hide WriterOk, TxOk;
  }

  lemma TakenOut(s: System, e: System)
    requires SysOk(s) && SysOk(e) && Alone(e) && OnlyReads(s, e) && s.r.base == |s.dev.rx.delivered|
    requires e.r.pc.RIdle? || e.r.pc.RSpin?
    ensures s.dev.rx.Wf() && e.r.dst == s.dev.rx.Waiting()[..Min(s.r.want, |s.dev.rx.Waiting()|)]
  {
    hide WriterOk, TxOk;
    Taken(s.dev.rx, e.dev.rx, e.r);
  }

  // ----- looks without a step

  lemma NothingSlotted(a: Moment, sched: seq<seq<Action>>)
    ensures Preempted(a, a, Slots(sched, 0, 0))
  {
    NotPreempted(a);
  }

  lemma MoreSlots(a: Moment, b: Moment, c: Moment, sched: seq<seq<Action>>, turn: nat)
    requires Preempted(a, b, Slots(sched, 0, turn)) && Preempted(b, c, Slot(sched, turn))
    ensures Preempted(a, c, Slots(sched, 0, turn + 1))
  {
    hide Own, Others, Slot;
    assert Others(a.history) + Slots(sched, 0, turn) + Slot(sched, turn)
        == Others(a.history) + (Slots(sched, 0, turn) + Slot(sched, turn));
  }

  lemma SlotsAre(a: Moment, b: Moment, slot: seq<Action>)
    requires Preempted(a, b, slot)
    ensures Own(b.history) == Own(a.history) && Others(b.history) == Others(a.history) + slot
    ensures slot == [] ==> b == a
  {
  }
}
