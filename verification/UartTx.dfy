// The transmit side of the buffered UART: a writer that fills a ring one byte at a time, and an
// interrupt routine that hands the bytes to the device, throttled by the clear-to-send line.
module UartTx {
  import opened Words
  import opened Ring

  const BUF_LEN: nat := 64

  /** The transmit bits of the interrupt-enable register and of its copy in memory. */
  datatype Ctrl = Ctrl(trdy: bool, dcts: bool)

  /** The device: room for a byte, level of the clear-to-send input, and its latched change. */
  datatype Hw = Hw(ready: bool, cts: bool, dcts: bool)

  /** What the device and the line do between two register accesses. */
  datatype Gap = Gap(flips: nat, shifted: bool)

  /** What happens around the accesses of one interrupt. */
  datatype Gaps = Gaps(before: Gap, afterRead: Gap, afterClear: Gap, rest: Gap)

  datatype WritePc = Idle | Top | Enable | Spin | Store | Bump | Final

  datatype Writer = Writer(pc: WritePc, data: seq<byte>, ptr: nat, next: nat, nonblock: bool, base: seq<byte>)

  /**
   * `accepted` are the bytes the writer has put in the ring, `handed` those written to the data
   * register, `lost` how many of them found the register still occupied. `dirty` says that bytes
   * were added since the writer last enabled the interrupts.
   */
  datatype System = System(
    buf: seq<byte>, start: nat, end: nat, ctrl: Ctrl, fc: bool, hw: Hw, w: Writer,
    accepted: seq<byte>, handed: seq<byte>, lost: nat, dirty: bool)

  datatype Action = Call(data: seq<byte>, nonblock: bool) | Step | Interrupt(gaps: Gaps) | Wait(gap: Gap)

  // ----- the device

  function Elapse(h: Hw, g: Gap): Hw {
    Hw(h.ready || g.shifted, if g.flips % 2 == 0 then h.cts else !h.cts, h.dcts || g.flips > 0)
  }

  /** The device asks for an interrupt. */
  predicate Asks(s: System) {
    (s.ctrl.trdy && s.hw.ready) || (s.ctrl.dcts && s.hw.dcts)
  }

  // ----- the interrupt routine

  predicate Waiting(s: System) { s.start != s.end }

  function HandOver(s: System): System
    requires s.start < |s.buf|
  {
    s.(handed := s.handed + [s.buf[s.start]],
       start := (s.start + 1) % BUF_LEN,
       ctrl := s.ctrl.(trdy := true),
       lost := if s.hw.ready then s.lost else s.lost + 1,
       hw := s.hw.(ready := false))
  }

  /** `status` was read on entry; the state holds the device as it is now. */
  function TransmitIrq(s: System, status: Hw): System
    requires s.start < |s.buf|
  {
    var s1 :=
      if !Waiting(s) then s
      else if !s.fc || status.cts then HandOver(s)
      else if !s.hw.cts then s.(ctrl := s.ctrl.(trdy := false))
      else s;
    if Waiting(s1) then s1 else s1.(ctrl := Ctrl(false, false))
  }

  function StatusRead(s: System, g: Gaps): Hw {
    Elapse(s.hw, g.before)
  }

  /** The device just before the status register is cleared. */
  function BeforeClear(s: System, g: Gaps): Hw {
    Elapse(StatusRead(s, g), g.afterRead)
  }

  function Irq(s: System, g: Gaps): System
    requires s.start < |s.buf|
  {
    var status := StatusRead(s, g);
    var s1 := s.(hw := Elapse(BeforeClear(s, g).(dcts := false), g.afterClear));
    var s2 := if status.ready || status.dcts then TransmitIrq(s1, status) else s1;
    s2.(hw := Elapse(s2.hw, g.rest))
  }

  // ----- the writer

  function WStep(s: System): System
    requires s.end < |s.buf|
  {
    var w := s.w;
    match w.pc
    case Idle => s
    case Top =>
      if w.ptr >= |w.data| then s.(w := w.(pc := Final))
      else
        var next := (s.end + 1) % BUF_LEN;
        if next != s.start then s.(w := w.(pc := Store, next := next))
        else s.(w := w.(pc := if w.nonblock then Final else Enable, next := next))
    case Enable => s.(ctrl := Ctrl(true, true), dirty := false, w := w.(pc := Spin))
    case Spin => if w.next == s.start then s else s.(w := w.(pc := Store))
    case Store =>
      if w.ptr >= |w.data| then s
      else s.(buf := s.buf[s.end := w.data[w.ptr]], w := w.(pc := Bump))
    case Bump =>
      if w.ptr >= |w.data| then s
      else s.(end := w.next, accepted := s.accepted + [w.data[w.ptr]], dirty := true,
              w := w.(pc := Top, ptr := w.ptr + 1))
    case Final => s.(ctrl := Ctrl(true, true), dirty := false, w := w.(pc := Idle))
  }

  function Next(s: System, a: Action): System
    requires s.start < |s.buf| && s.end < |s.buf|
  {
    match a
    case Call(data, nonblock) =>
      if s.w.pc.Idle? then s.(w := Writer(Top, data, 0, 0, nonblock, s.accepted)) else s
    case Step => WStep(s)
    case Interrupt(g) => Irq(s, g)
    case Wait(g) => s.(hw := Elapse(s.hw, g))
  }

  // ----- the invariant

  ghost predicate RingOk(s: System) {
    && |s.buf| == BUF_LEN && Shape(s.buf, s.end, s.start)
    && s.accepted == s.handed + Live(s.buf, s.end, s.start)
  }

  /** A byte in the ring is covered by an enabled interrupt, or the writer is about to enable it. */
  ghost predicate Covered(s: System) {
    !s.dirty && Waiting(s) ==> s.ctrl.dcts && (!s.fc ==> s.ctrl.trdy)
  }

  ghost predicate WriterOk(s: System) {
    var w := s.w;
    && w.ptr <= |w.data| && s.accepted == w.base + w.data[..w.ptr]
    && (w.pc.Idle? ==> !s.dirty && (w.nonblock || w.ptr == |w.data|))
    && (w.pc.Final? ==> w.nonblock || w.ptr == |w.data|)
    && (w.pc.Spin? ==> !s.dirty)
    && (w.pc.Enable? || w.pc.Spin? || w.pc.Store? || w.pc.Bump? ==>
          w.ptr < |w.data| && s.end < BUF_LEN && w.next == Wrap(s.end + 1, BUF_LEN))
    && (w.pc.Store? || w.pc.Bump? ==> w.next != s.start)
    && (w.pc.Bump? ==> s.end < |s.buf| && s.buf[s.end] == w.data[w.ptr])
  }

  ghost predicate Inv(s: System) {
    RingOk(s) && Covered(s) && WriterOk(s)
  }

  lemma Associate(a: seq<byte>, b: seq<byte>, c: seq<byte>)
    ensures a + (b + c) == (a + b) + c
  {
  }

  lemma HandOverOk(s: System)
    requires Inv(s) && Waiting(s)
    ensures var s' := HandOver(s);
      && RingOk(s') && WriterOk(s') && s'.ctrl.dcts == s.ctrl.dcts && s'.ctrl.trdy && s'.dirty == s.dirty
      && |Live(s'.buf, s'.end, s'.start)| == |Live(s.buf, s.end, s.start)| - 1
  {
    hide Live;
    Pop(s.buf, s.end, s.start);
    Associate(s.handed, [s.buf[s.start]], Live(s.buf, s.end, Wrap(s.start + 1, BUF_LEN)));
  }

  lemma TransmitIrqOk(s: System, status: Hw)
    requires Inv(s)
    ensures Inv(TransmitIrq(s, status))
  {
    hide Live, HandOver;
    if Waiting(s) && (!s.fc || status.cts) { HandOverOk(s); HandOverKeepsFlow(s); }
  }

  lemma HandOverKeepsFlow(s: System)
    requires s.start < |s.buf|
    ensures HandOver(s).fc == s.fc
  {
  }

  lemma IrqOk(s: System, g: Gaps)
    requires Inv(s)
    ensures Inv(Irq(s, g))
  {
    hide TransmitIrq, Live;
    var status := StatusRead(s, g);
    var s1 := s.(hw := Elapse(BeforeClear(s, g).(dcts := false), g.afterClear));
    if status.ready || status.dcts { TransmitIrqOk(s1, status); }
  }

  lemma StoreOk(s: System)
    requires Inv(s) && (s.w.pc.Store? || s.w.pc.Bump?)
    ensures Inv(WStep(s))
  {
    hide Live;
    var w := s.w;
    if w.pc.Store? {
      WriteAhead(s.buf, s.end, s.start, 0, w.data[w.ptr]);
    } else {
      Push(s.buf, s.end, s.start, w.data[w.ptr]);
      assert s.buf[s.end := w.data[w.ptr]] == s.buf;
      Associate(s.handed, Live(s.buf, s.end, s.start), [w.data[w.ptr]]);
      Associate(w.base, w.data[..w.ptr], [w.data[w.ptr]]);
      assert w.data[..w.ptr + 1] == w.data[..w.ptr] + [w.data[w.ptr]];
    }
  }

  lemma WrapIsMask(i: nat)
    requires i < BUF_LEN
    ensures (i + 1) % BUF_LEN == Wrap(i + 1, BUF_LEN)
  {
  }

  lemma WStepOk(s: System)
    requires Inv(s)
    ensures Inv(WStep(s))
  {
    hide Live, Shape, Wrap;
    WrapIsMask(s.end);
    if s.w.pc.Store? || s.w.pc.Bump? {
      StoreOk(s);
    } else {
      var s' := WStep(s);
      assert RingOk(s');
      assert WriterOk(s');
    }
  }

  lemma NextOk(s: System, a: Action)
    requires Inv(s)
    ensures Inv(Next(s, a))
  {
    match a
    case Interrupt(g) => IrqOk(s, g);
    case Step => WStepOk(s);
    case _ => hide Live;
  }

  ghost predicate Initial(s: System) {
    && |s.buf| == BUF_LEN && s.start == s.end == 0 && s.ctrl == Ctrl(false, true)
    && s.accepted == s.handed == [] && s.lost == 0 && !s.dirty
    && s.w.pc.Idle? && s.w.data == s.w.base == [] && s.w.ptr == 0
  }

  ghost function Run(s: System, actions: seq<Action>): (r: System)
    requires Inv(s)
    ensures Inv(r)
    decreases |actions|
  {
    if actions == [] then s
    else
      NextOk(s, actions[0]);
      Run(Next(s, actions[0]), actions[1..])
  }

  lemma RunOne(s: System, a: Action, rest: seq<Action>)
    requires Inv(s)
    ensures Inv(Next(s, a)) && Run(s, [a] + rest) == Run(Next(s, a), rest)
  {
    hide Live, Next;
    NextOk(s, a);
    assert ([a] + rest)[1..] == rest;
  }

  lemma EndOfRun(s: System)
    requires Inv(s)
    ensures Run(s, []) == s
  {
  }

  lemma {:induction false} RunBoth(s: System, first: seq<Action>, second: seq<Action>)
    requires Inv(s)
    ensures Run(s, first + second) == Run(Run(s, first), second)
    decreases |first|
  {
    hide Live, Next, Covered, WriterOk;
    if first == [] {
      assert [] + second == second;
    } else {
      NextOk(s, first[0]);
      RunBoth(Next(s, first[0]), first[1..], second);
      assert (first + second)[1..] == first[1..] + second;
    }
  }

  lemma RunSnoc(s: System, actions: seq<Action>, a: Action)
    requires Inv(s)
    ensures Run(s, actions + [a]) == Next(Run(s, actions), a)
  {
    hide Live, Next, Covered, WriterOk;
    RunBoth(s, actions, [a]);
    RunOne(Run(s, actions), a, []);
    assert [a] + [] == [a];
    NextOk(Run(s, actions), a);
    EndOfRun(Next(Run(s, actions), a));
  }

  lemma InitialOk(s: System)
    requires Initial(s)
    ensures Inv(s)
  {
  }

  ghost predicate Reachable(s: System) {
    exists s0, actions :: Starts(s0, actions, s)
  }

  ghost predicate Starts(s0: System, actions: seq<Action>, s: System) {
    Initial(s0) && Inv(s0) && s == Run(s0, actions)
  }

  // ----- what holds in every interleaving

  /**
   * The bytes handed to the device followed by those in the ring are the accepted bytes in order;
   * they are what the earlier calls accepted and a prefix of the current call's data.
   */
  lemma TransmitConserves(s: System)
    requires Reachable(s)
    ensures |s.buf| == BUF_LEN && Shape(s.buf, s.end, s.start)
    ensures s.handed + Live(s.buf, s.end, s.start) == s.accepted
    ensures s.w.ptr <= |s.w.data| && s.accepted == s.w.base + s.w.data[..s.w.ptr]
    ensures s.w.pc.Idle? && !s.w.nonblock ==> s.accepted == s.w.base + s.w.data
  {
    hide Run, Live;
    var s0, actions :| Starts(s0, actions, s);
    assert s.w.data[..|s.w.data|] == s.w.data;
  }

  /** Bytes in the ring are never left without an enabled interrupt, except in the writer's window. */
  lemma NothingUncovered(s: System)
    requires Reachable(s) && Waiting(s) && !s.dirty
    ensures s.ctrl.dcts && (!s.fc ==> s.ctrl.trdy)
  {
    hide Run, Live;
    var s0, actions :| Starts(s0, actions, s);
  }

  /** The window is closed whenever no call is in progress and while a call waits for room. */
  lemma WindowIsShort(s: System)
    requires Reachable(s) && s.dirty
    ensures s.w.pc.Top? || s.w.pc.Store? || s.w.pc.Bump? || s.w.pc.Enable? || s.w.pc.Final?
  {
    hide Run, Live;
    var s0, actions :| Starts(s0, actions, s);
  }

  /** The test on which the writer spins is exact: no room exactly if all but one slot is filled. */
  lemma SpinTestIsExact(s: System)
    requires Reachable(s) && s.w.pc.Spin?
    ensures s.w.next == s.start <==> |Live(s.buf, s.end, s.start)| == BUF_LEN - 1
  {
    hide Run;
    var s0, actions :| Starts(s0, actions, s);
  }
}
