// Clear-to-send throttling: when bytes wait in the ring, will the device ask for an interrupt
// again? Almost always; one lost edge of the line defeats it, and only that one.
module UartThrottle {
  import opened Words
  import opened Ring
  import opened UartTx

  /**
   * Waiting bytes will get an interrupt: the writer is about to enable it, or it is enabled for
   * room in the device, or for a change of the line that has happened or is still to come.
   */
  ghost predicate Awake(s: System) {
    Waiting(s) && !s.dirty ==> s.ctrl.trdy || (s.ctrl.dcts && (!s.hw.cts || s.hw.dcts))
  }

  /**
   * The line was low when the status was read, rose before the status was cleared, and did not
   * move again, while the transmit interrupt was already off: the clearing wiped out the edge, and
   * the second look at the line finds nothing to throttle but turns nothing on.
   */
  ghost predicate LostEdge(s: System, g: Gaps) {
    && s.fc && Waiting(s) && !s.dirty && !s.ctrl.trdy
    && !StatusRead(s, g).cts && BeforeClear(s, g).cts
    && g.afterClear.flips == 0 && g.rest.flips == 0
  }

  /** An interrupt keeps waiting bytes awake if and only if it does not lose that edge. */
  lemma AwakeIffEdgeKept(s: System, g: Gaps)
    requires Inv(s) && Awake(s)
    ensures Awake(Irq(s, g)) <==> !LostEdge(s, g)
  {
    hide Live;
  }

  lemma OtherStepsStayAwake(s: System, a: Action)
    requires Inv(s) && Awake(s) && !a.Interrupt?
    ensures Awake(Next(s, a))
  {
    hide Live;
  }

  /**
   * Awake means asked for: once the device has room, and the line has risen if it was low, the
   * device asks for an interrupt.
   */
  lemma AwakeIffAsked(s: System)
    requires Inv(s) && Waiting(s) && !s.dirty
    ensures Awake(s) <==> Asks(Next(s, Wait(Gap(if s.hw.cts then 0 else 1, true))))
  {
    hide Live;
  }

  /** No interrupt of the run loses an edge. */
  ghost predicate EdgesKept(s: System, actions: seq<Action>)
    requires Inv(s)
    decreases |actions|
  {
    if actions == [] then true
    else
      NextOk(s, actions[0]);
      && (actions[0].Interrupt? ==> !LostEdge(s, actions[0].gaps))
      && EdgesKept(Next(s, actions[0]), actions[1..])
  }

  /** Over whole runs: as long as no edge is lost, waiting bytes stay awake. */
  lemma {:induction false} ThrottlingStrandsNothing(s: System, actions: seq<Action>)
    requires Inv(s) && Awake(s) && EdgesKept(s, actions)
    ensures Awake(Run(s, actions))
    decreases |actions|
  {
    hide Covered, WriterOk, Live, Awake, LostEdge, Next;
    if actions != [] {
      NextOk(s, actions[0]);
      if actions[0].Interrupt? { AwakeAfterIrq(s, actions[0].gaps); } else { OtherStepsStayAwake(s, actions[0]); }
      ThrottlingStrandsNothing(Next(s, actions[0]), actions[1..]);
    }
  }

  lemma AwakeAfterIrq(s: System, g: Gaps)
    requires Inv(s) && Awake(s) && !LostEdge(s, g)
    ensures Awake(Next(s, Interrupt(g)))
  {
    AwakeIffEdgeKept(s, g);
    hide *;
    assert Next(s, Interrupt(g)) == Irq(s, g) by { InterruptIsIrq(s, g); }
  }

  lemma InterruptIsIrq(s: System, g: Gaps)
    requires Inv(s)
    ensures Next(s, Interrupt(g)) == Irq(s, g)
  {
  }

  /** Without flow control nothing is ever stranded. */
  lemma {:induction false} NoFlowControlNoStrand(s: System, actions: seq<Action>)
    requires Inv(s) && !s.fc
    ensures Awake(Run(s, actions)) && EdgesKept(s, actions)
    decreases |actions|
  {
    hide Live, Irq, WStep, WriterOk;
    if actions != [] {
      NextOk(s, actions[0]);
      FcFixed(s, actions[0]);
      NoFlowControlNoStrand(Next(s, actions[0]), actions[1..]);
    }
  }

  lemma FcFixed(s: System, a: Action)
    requires Inv(s)
    ensures Next(s, a).fc == s.fc
  {
    hide Live;
  }

  /** Once stranded, the device never asks again until the line moves or the writer comes back. */
  lemma StrandedStaysSilent(s: System, g: Gap)
    requires Inv(s) && !Awake(s) && g.flips == 0
    ensures !Asks(Next(s, Wait(g))) && !Awake(Next(s, Wait(g)))
  {
  }

  /** The end of any write call wakes the ring up again. */
  lemma WriterWakes(s: System)
    requires Inv(s) && s.w.pc.Final?
    ensures Awake(Next(s, Step))
  {
  }

  lemma StoresOne(s: System)
    requires Inv(s) && s.w.pc.Top? && s.w.ptr < |s.w.data| && (s.end + 1) % BUF_LEN != s.start
    ensures s.end < |s.buf| && WStep(s).end < |WStep(s).buf| && WStep(WStep(s)).end < |WStep(WStep(s)).buf|
    ensures var s' := WStep(WStep(WStep(s)));
      && s' == s.(buf := s'.buf, end := (s.end + 1) % BUF_LEN, accepted := s'.accepted, dirty := true, w := s'.w)
      && s'.accepted == s.accepted + [s.w.data[s.w.ptr]]
      && s'.w.pc.Top? && s'.w.data == s.w.data && s'.w.ptr == s.w.ptr + 1
  {
    hide Live, Covered, WriterOk;
  }

  /** Three steps of the writer put one byte in the ring. */
  lemma ByteAdded(s: System) returns (actions: seq<Action>)
    requires Inv(s) && s.w.pc.Top? && s.w.ptr < |s.w.data| && (s.end + 1) % BUF_LEN != s.start
    ensures var s' := Run(s, actions);
      && s' == s.(buf := s'.buf, end := (s.end + 1) % BUF_LEN, accepted := s'.accepted, dirty := true, w := s'.w)
      && s'.accepted == s.accepted + [s.w.data[s.w.ptr]]
      && s'.w.pc.Top? && s'.w.data == s.w.data && s'.w.ptr == s.w.ptr + 1
  {
    actions := [Step] + ([Step] + ([Step] + []));
    StoresOne(s);
    hide Live, Run, Covered, WriterOk, WStep;
    var s1 := WStep(s);
    var s2 := WStep(s1);
    RunOne(s, Step, [Step] + ([Step] + []));
    RunOne(s1, Step, [Step] + []);
    RunOne(s2, Step, []);
    EndOfRun(WStep(s2));
  }

  /** A driver with flow control while the line is low. */
  ghost function Blocked(): System {
    System(seq(BUF_LEN, _ => 0), 0, 0, Ctrl(false, true), true, Hw(true, false, false),
           Writer(Idle, [], 0, 0, false, []), [], [], 0, false)
  }

  lemma OneByteAdded(b: byte) returns (actions: seq<Action>)
    ensures Initial(Blocked()) && Inv(Blocked())
    ensures var s := Run(Blocked(), actions);
      && s.fc && s.start == 0 && s.end == 1 && s.hw == Hw(true, false, false)
      && s.w.pc.Top? && s.w.ptr == |s.w.data|
  {
    var s0, call := Blocked(), Call([b], false);
    InitialOk(s0);
    hide Live, Run, Covered, WriterOk;
    RunOne(s0, call, []);
    EndOfRun(Next(s0, call));
    var s1 := Run(s0, [call] + []);
    var first := ByteAdded(s1);
    RunBoth(s0, [call] + [], first);
    actions := [call] + [] + first;
  }

  lemma ThenThrottled(s: System) returns (actions: seq<Action>)
    requires Inv(s) && s.fc && s.start == 0 && s.end == 1 && s.hw == Hw(true, false, false)
    requires s.w.pc.Top? && s.w.ptr == |s.w.data|
    ensures var e := Run(s, actions);
      && e.fc && Waiting(e) && !e.dirty && e.ctrl == Ctrl(false, true) && e.hw == Hw(true, false, false) && e.w.pc.Idle?
  {
    var quiet := Gap(0, false);
    var throttle := Interrupt(Gaps(quiet, quiet, quiet, quiet));
    actions := [Step] + ([Step] + ([throttle] + []));
    hide Live, Run, Inv;
    RunOne(s, Step, [Step] + ([throttle] + []));
    var s1 := Next(s, Step);
    RunOne(s1, Step, [throttle] + []);
    var s2 := Next(s1, Step);
    RunOne(s2, throttle, []);
    EndOfRun(Next(s2, throttle));
  }

  /** A run in which a byte is stranded although the other side is ready to receive. */
  lemma StrandHappens(b: byte) returns (s: System)
    ensures Reachable(s) && !Awake(s) && s.hw.cts && s.hw.ready && s.w.pc.Idle?
  {
    var s0 := Blocked();
    var first := OneByteAdded(b);
    var second := ThenThrottled(Run(s0, first));
    RunBoth(s0, first, second);
    var actions := first + second;
    var quiet, flip := Gap(0, false), Gap(1, false);
    var lose := Interrupt(Gaps(Gap(2, false), flip, quiet, quiet));
    hide Live, Run, Inv;
    RunSnoc(s0, actions, lose);
    s := Next(Run(s0, actions), lose);
    assert Starts(s0, actions + [lose], s);
  }

  // ----- the ring drains

  /** With the line high and room in the device each interrupt hands over the oldest byte. */
  lemma InterruptSends(s: System, g: Gaps)
    requires Inv(s) && Waiting(s)
    requires StatusRead(s, g).ready && (!s.fc || StatusRead(s, g).cts)
    ensures var s' := Irq(s, g);
      && Inv(s') && s'.handed == s.handed + [Live(s.buf, s.end, s.start)[0]]
      && s'.lost == s.lost && s'.accepted == s.accepted
  {
    IrqOk(s, g);
    LiveAt(s.buf, s.end, s.start, 0);
    hide Live;
  }

  /** A byte finds the data register occupied exactly when the interrupt came for a line change alone. */
  lemma OverrunExactly(s: System, g: Gaps)
    requires Inv(s)
    ensures Irq(s, g).lost > s.lost <==>
      && Waiting(s) && (!s.fc || StatusRead(s, g).cts)
      && StatusRead(s, g).dcts && !StatusRead(s, g).ready
      && !g.afterRead.shifted && !g.afterClear.shifted
  {
  }

  /** A driver at rest, the line high and the device empty. */
  ghost function AtRest(fc: bool): System {
    System(seq(BUF_LEN, _ => 0), 0, 0, Ctrl(false, true), fc, Hw(true, true, false),
           Writer(Idle, [], 0, 0, false, []), [], [], 0, false)
  }

  /** Two steps end the call and enable the interrupts. */
  lemma CallEnds(s: System) returns (actions: seq<Action>)
    requires Inv(s) && s.w.pc.Top? && s.w.ptr == |s.w.data|
    ensures var s' := Run(s, actions);
      && s' == s.(ctrl := Ctrl(true, true), dirty := false, w := s'.w) && s'.w.pc.Idle?
  {
    actions := [Step] + ([Step] + []);
    hide Live, Run, Covered, WriterOk;
    RunOne(s, Step, [Step] + []);
    RunOne(Next(s, Step), Step, []);
    EndOfRun(Next(Next(s, Step), Step));
  }

  lemma TwoBytesWritten(fc: bool, a: byte, b: byte) returns (actions: seq<Action>)
    ensures Initial(AtRest(fc)) && Inv(AtRest(fc))
    ensures var s := Run(AtRest(fc), actions);
      && s.start == 0 && s.end == 2 && s.hw == Hw(true, true, false) && s.ctrl == Ctrl(true, true)
      && s.w.pc.Idle? && s.accepted == [a, b] && s.handed == [] && s.lost == 0
  {
    var s0, call := AtRest(fc), Call([a, b], false);
    InitialOk(s0);
    hide Live, Run, Inv;
    RunOne(s0, call, []);
    EndOfRun(Next(s0, call));
    var s1 := Run(s0, [call] + []);
    var first := ByteAdded(s1);
    RunBoth(s0, [call] + [], first);
    var s2 := Run(s1, first);
    var second := ByteAdded(s2);
    RunBoth(s0, [call] + [] + first, second);
    var s3 := Run(s2, second);
    var last := CallEnds(s3);
    RunBoth(s0, [call] + [] + first + second, last);
    actions := [call] + [] + first + second + last;
  }

  lemma {:induction false} RunFixesFc(s: System, actions: seq<Action>)
    requires Inv(s)
    ensures Run(s, actions).fc == s.fc
    decreases |actions|
  {
    hide Live, Next, Covered, WriterOk;
    if actions != [] {
      NextOk(s, actions[0]);
      FcFixed(s, actions[0]);
      RunFixesFc(Next(s, actions[0]), actions[1..]);
    }
  }

  /** An interrupt during which nothing happens. */
  ghost function Room(): Gaps {
    Gaps(Gap(0, false), Gap(0, false), Gap(0, false), Gap(0, false))
  }

  /** Before the status is read the line falls and rises again. */
  ghost function Blink(): Gaps {
    Room().(before := Gap(2, false))
  }

  lemma FirstHanded(s: System, a: byte, b: byte)
    requires Inv(s) && s.start == 0 && s.end == 2 && s.hw == Hw(true, true, false)
    requires s.accepted == [a, b] && s.handed == [] && s.lost == 0 && s.w.pc.Idle?
    ensures Inv(Irq(s, Room()))
    ensures var e := Irq(s, Room());
      && e.start == 1 && e.end == 2 && e.hw == Hw(false, true, false) && e.fc == s.fc
      && e.accepted == [a, b] && e.handed == [a] && e.lost == 0 && e.w.pc.Idle?
  {
    IrqOk(s, Room());
    InterruptSends(s, Room());
    LiveAt(s.buf, 2, 0, 0);
    hide Live, Covered, WriterOk;
    var live := Live(s.buf, s.end, s.start);
    assert [a, b][0] == ([] + live)[0] == live[0];
    assert s.handed + [a] == [a];
  }

  lemma SecondHanded(s: System, a: byte, b: byte)
    requires Inv(s) && s.start == 1 && s.end == 2 && s.hw == Hw(false, true, false)
    requires s.accepted == [a, b] && s.handed == [a] && s.lost == 0 && s.w.pc.Idle?
    ensures var e := Irq(s, Blink());
      && e.accepted == e.handed == [a, b] && e.lost == 1 && e.w.pc.Idle? && e.fc == s.fc
  {
    OverrunExactly(s, Blink());
    LiveAt(s.buf, 2, 1, 0);
    hide Live, Covered, WriterOk;
    var live := Live(s.buf, s.end, s.start);
    assert [a, b][1] == ([a] + live)[1] == live[0];
    assert [a] + [b] == [a, b];
  }

  /**
   * A run in which a byte is written to an occupied data register: the first interrupt hands over
   * one byte, and before the device has shifted it out the line falls and rises again. With or
   * without flow control, two accepted bytes were both handed over and one of them is lost.
   */
  lemma OverrunHappens(fc: bool, a: byte, b: byte) returns (s: System)
    ensures Reachable(s) && s.fc == fc && s.accepted == s.handed == [a, b] && s.lost == 1 && s.w.pc.Idle?
  {
    hide Live, Run, Covered, WriterOk, Irq;
    var s0 := AtRest(fc);
    var actions := TwoBytesWritten(fc, a, b);
    var s1 := Run(s0, actions);
    RunFixesFc(s0, actions);
    FirstHanded(s1, a, b);
    RunSnoc(s0, actions, Interrupt(Room()));
    SecondHanded(Irq(s1, Room()), a, b);
    RunSnoc(s0, actions + [Interrupt(Room())], Interrupt(Blink()));
    s := Irq(Irq(s1, Room()), Blink());
    assert Starts(s0, actions + [Interrupt(Room())] + [Interrupt(Blink())], s);
  }

  /** After an interrupt that emptied the ring the device asks for no further transmit interrupt. */
  lemma EmptyRingIsQuiet(s: System, g: Gaps)
    requires Inv(s) && !Waiting(Irq(s, g)) && (StatusRead(s, g).ready || StatusRead(s, g).dcts)
    ensures !Asks(Irq(s, g))
  {
    hide Live;
  }

  /** While the line stays low the device asks for none either: throttling is not busy waiting. */
  lemma ThrottledIsQuiet(s: System, g: Gaps)
    requires Inv(s) && s.fc && !s.hw.cts && Still(Interrupt(g))
    requires Waiting(s) && (StatusRead(s, g).ready || StatusRead(s, g).dcts)
    ensures !Asks(Irq(s, g)) && Irq(s, g).handed == s.handed
  {
    hide Live;
  }

  /** The clear-to-send line never moves during the run. */
  ghost predicate LineStill(actions: seq<Action>) {
    forall i :: 0 <= i < |actions| ==> Still(actions[i])
  }

  ghost predicate Still(a: Action) {
    match a
    case Interrupt(g) => g.before.flips == g.afterRead.flips == g.afterClear.flips == g.rest.flips == 0
    case Wait(g) => g.flips == 0
    case _ => true
  }

  /**
   * Without line changes, as in a device generated without that input, no byte is ever written to
   * an occupied data register.
   */
  lemma {:induction false} StillLineNeverOverruns(s: System, actions: seq<Action>)
    requires Inv(s) && !s.hw.dcts && LineStill(actions)
    ensures Run(s, actions).lost == s.lost && !Run(s, actions).hw.dcts
    decreases |actions|
  {
    hide Covered, WriterOk, Live, Next;
    if actions != [] {
      NextOk(s, actions[0]);
      assert Still(actions[0]);
      StillStep(s, actions[0]);
      StillLineNeverOverruns(Next(s, actions[0]), actions[1..]);
    }
  }

  lemma StillStep(s: System, a: Action)
    requires Inv(s) && !s.hw.dcts && Still(a)
    ensures Next(s, a).lost == s.lost && !Next(s, a).hw.dcts
  {
    hide Live;
  }

  /** From any state in which the line is high, interrupts alone send everything accepted, in order. */
  lemma {:induction false} InterruptsDrain(s: System) returns (actions: seq<Action>)
    requires Inv(s) && (!s.fc || s.hw.cts)
    ensures forall i :: 0 <= i < |actions| ==> actions[i].Interrupt?
    ensures var s' := Run(s, actions);
      && s'.handed == s'.accepted == s.accepted && s'.lost == s.lost && !Waiting(s')
    decreases |Live(s.buf, s.end, s.start)|
  {
    if !Waiting(s) {
      actions := [];
      assert s.handed + [] == s.handed;
    } else {
      var quiet := Gap(0, false);
      var g := Gaps(Gap(0, true), quiet, quiet, quiet);
      InterruptSends(s, g);
      InterruptShrinks(s, g);
      hide Live, Irq;
      var rest := InterruptsDrain(Irq(s, g));
      actions := [Interrupt(g)] + rest;
      RunOne(s, Interrupt(g), rest);
    }
  }

  lemma InterruptShrinks(s: System, g: Gaps)
    requires Inv(s) && Waiting(s) && StatusRead(s, g).ready && (!s.fc || StatusRead(s, g).cts)
    requires g.afterRead.flips == g.afterClear.flips == g.rest.flips == g.before.flips == 0
    ensures var s' := Irq(s, g);
      && s'.fc == s.fc && s'.hw.cts == s.hw.cts && Inv(s')
      && |Live(s'.buf, s'.end, s'.start)| < |Live(s.buf, s.end, s.start)|
  {
    IrqOk(s, g);
    hide Covered, WriterOk;
    Pop(s.buf, s.end, s.start);
  }
}
