// The registers between the Nios bus and the USB core: two FIFOs whose ends run on different
// clocks, and a DATA register that holds the bus until a byte can move. Which masters lose nothing.
module UsbBridge {
  import opened Words

  const WARM_UP: nat := 128

  /**
   * A FIFO between two clocks: all bytes ever stored, how many of them have been taken out, and how
   * much of either the other end has seen so far.
   */
  datatype Fifo = Fifo(depth: nat, pushed: seq<byte>, popped: nat, seenPushed: nat, seenPopped: nat) {
    ghost predicate Valid() {
      0 < depth && seenPopped <= popped <= seenPushed <= |pushed| <= seenPopped + depth
    }

    /** As the writing end sees it. */
    predicate Full() { |pushed| >= seenPopped + depth }

    /** As the reading end sees it. */
    predicate Empty() { popped >= seenPushed || popped >= |pushed| }

    /** The slots that the writing end sees free. */
    function Free(): int { seenPopped + depth - |pushed| }

    /** A request to a full FIFO is ignored. */
    function Push(b: byte): Fifo { if Full() then this else this.(pushed := pushed + [b]) }

    /** So is one to an empty FIFO. */
    function Pop(): Fifo { if Empty() then this else this.(popped := popped + 1) }

    /** News from either end reaches the other. */
    function See(stored: nat, taken: nat): Fifo {
      this.(seenPushed := Min(seenPushed + stored, |pushed|), seenPopped := Min(seenPopped + taken, popped))
    }
  }

  function Min(a: nat, b: nat): nat { if a <= b then a else b }

  /** What happens on the USB side, and in the crossings, between two edges of the bus clock. */
  datatype UsbEvent = HostSends(b: byte) | HostTakes | Crossing(tx: (nat, nat), rx: (nat, nat))

  /** The bus in one cycle; `lane` is the enable of the lowest byte. */
  datatype Bus = Bus(read: bool, write: bool, address: nat, data: byte, lane: bool) {
    predicate DataRead() { read && !write && address == 0 }

    predicate DataWrite() { write && !read && address == 0 && lane }
  }

  const IDLE := Bus(false, false, 0, 0, false)

  /**
   * The registers. For stating properties only: `accepted` are the bytes of completed DATA writes
   * and `given` those of completed DATA reads; `last` is the previous cycle of the bus, `waited`
   * whether it was told to wait, and `held` whether `read` has stayed high since a DATA read ended.
   */
  datatype Bridge = Bridge(
    warm: nat, wreq: bool, wdata: byte, rreq: bool, pending: bool, readdata: byte, tx: Fifo, rx: Fifo,
    accepted: seq<byte>, given: seq<byte>, last: Bus, waited: bool, held: bool)

  function Reset(depth: nat): Bridge {
    Bridge(0, false, 0, false, false, 0, Fifo(depth, [], 0, 0, 0), Fifo(depth, [], 0, 0, 0),
           [], [], IDLE, false, false)
  }

  // ----- one cycle

  function UsbStep(s: Bridge, e: UsbEvent): Bridge {
    match e
    case HostSends(b) => s.(rx := s.rx.Push(b))
    case HostTakes => s.(tx := s.tx.Pop())
    case Crossing(tx, rx) => s.(tx := s.tx.See(tx.0, tx.1), rx := s.rx.See(rx.0, rx.1))
  }

  function UsbSteps(s: Bridge, events: seq<UsbEvent>): Bridge
    decreases |events|
  {
    if events == [] then s else UsbSteps(UsbStep(s, events[0]), events[1..])
  }

  predicate WriteReady(s: Bridge) { s.warm >= WARM_UP && !s.tx.Full() }

  /** The bus is told to wait. */
  predicate Waits(s: Bridge, bus: Bus) {
    (bus.DataWrite() && !WriteReady(s)) || (bus.DataRead() && !s.pending)
  }

  /** A DATA read finds a byte and stages it. */
  predicate Stages(s: Bridge, bus: Bus) { bus.DataRead() && !s.pending && !s.rx.Empty() }

  predicate WriteEnds(s: Bridge, bus: Bus) { bus.DataWrite() && !Waits(s, bus) }

  predicate ReadEnds(s: Bridge, bus: Bus) { bus.DataRead() && !Waits(s, bus) }

  /** The rising edge; `other` is the low byte of whatever other register is read. */
  function Edge(s: Bridge, bus: Bus, other: byte): Bridge {
    s.(warm := if s.warm < WARM_UP then s.warm + 1 else s.warm,
       tx := if s.wreq then s.tx.Push(s.wdata) else s.tx,
       rx := if s.rreq then s.rx.Pop() else s.rx,
       wreq := WriteEnds(s, bus),
       wdata := if WriteEnds(s, bus) then bus.data else s.wdata,
       rreq := Stages(s, bus),
       pending := if bus.DataRead() && !s.pending then !s.rx.Empty() else bus.read && s.pending,
       readdata := if Stages(s, bus) then s.rx.pushed[s.rx.popped]
                   else if bus.read && !bus.write && bus.address != 0 then other
                   else s.readdata,
       accepted := if WriteEnds(s, bus) then s.accepted + [bus.data] else s.accepted,
       given := if ReadEnds(s, bus) then s.given + [s.readdata] else s.given,
       last := bus,
       waited := Waits(s, bus),
       held := bus.read && (s.held || ReadEnds(s, bus)))
  }

  datatype Cycle = Cycle(events: seq<UsbEvent>, bus: Bus, other: byte)

  function Tick(s: Bridge, c: Cycle): Bridge { Edge(UsbSteps(s, c.events), c.bus, c.other) }

  function Run(s: Bridge, cycles: seq<Cycle>): Bridge
    decreases |cycles|
  {
    if cycles == [] then s else Run(Tick(s, cycles[0]), cycles[1..])
  }

  // ----- what the bus asks of a master, and what the bridge asks in addition

  /** A request stays as it is while it is told to wait. */
  predicate Patient(s: Bridge, bus: Bus) { s.waited ==> bus == s.last }

  /** After a DATA access has ended, `read` is low, or there is no DATA write, for a cycle. */
  predicate Spaced(s: Bridge, bus: Bus) {
    !s.waited ==> (s.last.DataRead() ==> !bus.read) && (s.last.DataWrite() ==> !bus.DataWrite())
  }

  predicate AllPatient(s: Bridge, cycles: seq<Cycle>)
    decreases |cycles|
  {
    cycles != [] ==> Patient(s, cycles[0].bus) && AllPatient(Tick(s, cycles[0]), cycles[1..])
  }

  predicate AllSpaced(s: Bridge, cycles: seq<Cycle>)
    decreases |cycles|
  {
    cycles != [] ==> Spaced(s, cycles[0].bus) && AllSpaced(Tick(s, cycles[0]), cycles[1..])
  }

  // ----- the invariants

  /** With any patient master: a staged byte is the oldest one and its read has not ended. */
  ghost predicate Inv(s: Bridge) {
    && s.tx.Valid() && s.rx.Valid()
    && (s.pending <==> s.rreq || s.held) && !(s.rreq && s.held)
    && (s.rreq ==> s.waited && s.last.DataRead() && !s.rx.Empty() && s.readdata == s.rx.pushed[s.rx.popped])
    && (s.wreq ==> !s.waited && s.last.DataWrite())
    && (s.held ==> s.last.read)
  }

  /** With one that leaves gaps: nothing has been lost, repeated or reordered. */
  ghost predicate Lossless(s: Bridge) {
    && s.accepted == s.tx.pushed + (if s.wreq then [s.wdata] else [])
    && s.rx.popped <= |s.rx.pushed| && s.given == s.rx.pushed[..s.rx.popped]
    && (s.wreq ==> !s.tx.Full())
    && (s.held ==> !s.waited && s.last.DataRead())
  }

  lemma UsbStepKeeps(s: Bridge, e: UsbEvent)
    requires Inv(s)
    ensures var t := UsbStep(s, e);
      && Inv(t) && t == s.(tx := t.tx, rx := t.rx)
      && t.tx.pushed == s.tx.pushed && t.rx.popped == s.rx.popped && s.rx.pushed <= t.rx.pushed
      && t.tx.depth == s.tx.depth && t.tx.seenPopped >= s.tx.seenPopped
  {
  }

  lemma {:induction false} UsbStepsKeep(s: Bridge, events: seq<UsbEvent>)
    requires Inv(s)
    ensures var t := UsbSteps(s, events);
      && Inv(t) && t == s.(tx := t.tx, rx := t.rx)
      && t.tx.pushed == s.tx.pushed && t.rx.popped == s.rx.popped && s.rx.pushed <= t.rx.pushed
      && t.tx.depth == s.tx.depth && t.tx.seenPopped >= s.tx.seenPopped
    decreases |events|
  {
    hide Inv, UsbStep;
    if events != [] {
      UsbStepKeeps(s, events[0]);
      UsbStepsKeep(UsbStep(s, events[0]), events[1..]);
    }
  }

  lemma EdgeKeeps(s: Bridge, bus: Bus, other: byte)
    requires Inv(s) && Patient(s, bus)
    ensures Inv(Edge(s, bus, other))
  {
  }

  lemma UsbStepsLossless(s: Bridge, events: seq<UsbEvent>)
    requires Inv(s) && Lossless(s)
    ensures Lossless(UsbSteps(s, events))
  {
    UsbStepsKeep(s, events);
    var t := UsbSteps(s, events);
    assert t.rx.pushed[..t.rx.popped] == s.rx.pushed[..s.rx.popped];
  }

  lemma EdgeLossless(s: Bridge, bus: Bus, other: byte)
    requires Inv(s) && Lossless(s) && Patient(s, bus) && Spaced(s, bus)
    ensures Lossless(Edge(s, bus, other))
  {
    var t := Edge(s, bus, other);
    if s.rreq { assert s.rx.pushed[..s.rx.popped + 1] == s.rx.pushed[..s.rx.popped] + [s.readdata]; }
    assert s.tx.pushed + [] == s.tx.pushed;
  }

  // ----- the theorems

  lemma {:induction false} PatientRunKeeps(s: Bridge, cycles: seq<Cycle>)
    requires Inv(s) && AllPatient(s, cycles)
    ensures Inv(Run(s, cycles))
    decreases |cycles|
  {
    hide Inv, Patient, Edge;
    if cycles != [] {
      UsbStepsKeep(s, cycles[0].events);
      StillPatient(s, cycles[0]);
      EdgeKeeps(UsbSteps(s, cycles[0].events), cycles[0].bus, cycles[0].other);
      PatientRunKeeps(Tick(s, cycles[0]), cycles[1..]);
    }
  }

  /** The USB side does not touch the bus. */
  lemma StillPatient(s: Bridge, c: Cycle)
    requires Inv(s)
    ensures Patient(UsbSteps(s, c.events), c.bus) == Patient(s, c.bus)
    ensures Spaced(UsbSteps(s, c.events), c.bus) == Spaced(s, c.bus)
  {
    UsbStepsKeep(s, c.events);
  }

  lemma {:induction false} SpacedRunKeeps(s: Bridge, cycles: seq<Cycle>)
    requires Inv(s) && Lossless(s) && AllPatient(s, cycles) && AllSpaced(s, cycles)
    ensures Lossless(Run(s, cycles))
    decreases |cycles|
  {
    hide Inv, Lossless, Patient, Spaced, Edge;
    if cycles != [] {
      var m := UsbSteps(s, cycles[0].events);
      UsbStepsKeep(s, cycles[0].events);
      UsbStepsLossless(s, cycles[0].events);
      StillPatient(s, cycles[0]);
      EdgeKeeps(m, cycles[0].bus, cycles[0].other);
      EdgeLossless(m, cycles[0].bus, cycles[0].other);
      SpacedRunKeeps(Tick(s, cycles[0]), cycles[1..]);
    }
  }

  lemma ResetOk(depth: nat)
    requires depth > 0
    ensures Inv(Reset(depth)) && Lossless(Reset(depth))
  {
  }

  /**
   * Both directions are lossless pipes for a master that leaves a cycle after each DATA access: in
   * every run from reset, however the USB side moves and however late either end sees the other,
   * the bytes the host has taken, then those in the FIFO, then the one on its way are the bytes
   * written, and the bytes read are the first of those the host has sent.
   */
  lemma BridgeIsLossless(depth: nat, cycles: seq<Cycle>)
    requires depth > 0 && AllPatient(Reset(depth), cycles) && AllSpaced(Reset(depth), cycles)
    ensures var s := Run(Reset(depth), cycles);
      && s.tx.popped <= |s.tx.pushed| <= s.tx.popped + depth
      && s.accepted == s.tx.pushed[..s.tx.popped] + s.tx.pushed[s.tx.popped..] + (if s.wreq then [s.wdata] else [])
      && s.given <= s.rx.pushed && |s.given| == s.rx.popped && |s.rx.pushed| <= s.rx.popped + depth
  {
    ResetOk(depth);
    PatientRunKeeps(Reset(depth), cycles);
    SpacedRunKeeps(Reset(depth), cycles);
    RunFixesDepth(Reset(depth), cycles);
    hide Run, AllPatient, AllSpaced;
    var p, k := Run(Reset(depth), cycles).tx.pushed, Run(Reset(depth), cycles).tx.popped;
    assert p[..k] + p[k..] == p;
  }

  lemma {:induction false} UsbStepsFixDepth(s: Bridge, events: seq<UsbEvent>)
    ensures UsbSteps(s, events).tx.depth == s.tx.depth && UsbSteps(s, events).rx.depth == s.rx.depth
    decreases |events|
  {
    if events != [] { UsbStepsFixDepth(UsbStep(s, events[0]), events[1..]); }
  }

  lemma {:induction false} RunFixesDepth(s: Bridge, cycles: seq<Cycle>)
    ensures Run(s, cycles).tx.depth == s.tx.depth && Run(s, cycles).rx.depth == s.rx.depth
    decreases |cycles|
  {
    if cycles != [] {
      UsbStepsFixDepth(s, cycles[0].events);
      RunFixesDepth(Tick(s, cycles[0]), cycles[1..]);
    }
  }

  /**
   * Without the gaps. A DATA read that ends hands over a new byte exactly if `read` was low at some
   * time since the previous one ended; otherwise it repeats what the data register still shows.
   */
  lemma ReadIsNewIff(s: Bridge, bus: Bus, other: byte)
    requires Inv(s) && Patient(s, bus) && ReadEnds(s, bus)
    ensures var t := Edge(s, bus, other);
      && (t.rx.popped == s.rx.popped + 1 <==> !s.held)
      && (s.held ==> t.rx == s.rx && t.given == s.given + [s.readdata] && t.readdata == s.readdata)
      && (!s.held ==> !s.rx.Empty() && t.given == s.given + [s.rx.pushed[s.rx.popped]])
  {
  }

  /**
   * A byte accepted by a DATA write is dropped at the next edge exactly if the previous one was
   * still on its way to the last free slot, and no other slot was seen to become free meanwhile.
   */
  lemma WriteIsLostIff(s: Bridge, bus: Bus, other: byte, events: seq<UsbEvent>)
    requires Inv(s) && Patient(s, bus) && WriteEnds(s, bus)
    ensures var t := UsbSteps(Edge(s, bus, other), events);
      && t.wreq && t.wdata == bus.data
      && (t.tx.Push(t.wdata) == t.tx <==> s.wreq && s.tx.Free() == 1 && t.tx.seenPopped == s.tx.seenPopped)
  {
    EdgeKeeps(s, bus, other);
    UsbStepsKeep(Edge(s, bus, other), events);
    hide Inv, UsbSteps;
    assert s.tx.Valid();
  }

  // ----- no access waits for ever

  /** A DATA read that finds a byte in sight ends in the next cycle, whatever happens in between. */
  lemma ReadEndsNext(s: Bridge, bus: Bus, other: byte, events: seq<UsbEvent>)
    requires Inv(s) && Patient(s, bus) && bus.DataRead() && !s.rx.Empty()
    ensures ReadEnds(s, bus) || ReadEnds(UsbSteps(Edge(s, bus, other), events), bus)
  {
    EdgeKeeps(s, bus, other);
    UsbStepsKeep(Edge(s, bus, other), events);
    hide Inv, UsbSteps;
  }

  lemma TwoEvents(s: Bridge, a: UsbEvent, b: UsbEvent)
    ensures UsbSteps(s, [a, b]) == UsbStep(UsbStep(s, a), b)
  {
    hide UsbStep;
    assert [a, b][1..] == [b] && [b][1..] == [];
    assert UsbSteps(UsbStep(s, a), [b]) == UsbSteps(UsbStep(UsbStep(s, a), b), []);
  }

  /**
   * A host that takes a byte and sends one, and news that crosses over, make both accesses possible
   * again from every state.
   */
  lemma HostLetsThrough(s: Bridge, b: byte)
    requires Inv(s)
    ensures var n := |s.tx.pushed| + |s.rx.pushed| + 1;
      var t := UsbSteps(UsbSteps(s, [Crossing((n, 0), (0, n)), HostTakes]), [HostSends(b), Crossing((0, n), (n, 0))]);
      !t.tx.Full() && !t.rx.Empty()
  {
    var n := |s.tx.pushed| + |s.rx.pushed| + 1;
    var m := UsbSteps(s, [Crossing((n, 0), (0, n)), HostTakes]);
    TwoEvents(s, Crossing((n, 0), (0, n)), HostTakes);
    TwoEvents(m, HostSends(b), Crossing((0, n), (n, 0)));
    hide UsbSteps;
  }

  /** It is warm after 128 cycles, whatever the bus does. */
  lemma {:induction false} WarmAfter(s: Bridge, cycles: seq<Cycle>)
    requires s.warm <= WARM_UP
    ensures Run(s, cycles).warm == Min(s.warm + |cycles|, WARM_UP)
    decreases |cycles|
  {
    if cycles != [] {
      UsbStepsFixWarm(s, cycles[0].events);
      WarmAfter(Tick(s, cycles[0]), cycles[1..]);
    }
  }

  lemma {:induction false} UsbStepsFixWarm(s: Bridge, events: seq<UsbEvent>)
    ensures UsbSteps(s, events).warm == s.warm
    decreases |events|
  {
    if events != [] { UsbStepsFixWarm(UsbStep(s, events[0]), events[1..]); }
  }

  /** In every run of 128 cycles or more a DATA write ends at once iff a slot is seen free. */
  lemma WriteEndsIff(depth: nat, cycles: seq<Cycle>, events: seq<UsbEvent>, bus: Bus)
    requires depth > 0 && AllPatient(Reset(depth), cycles) && |cycles| >= WARM_UP && bus.DataWrite()
    ensures var s := UsbSteps(Run(Reset(depth), cycles), events);
      WriteEnds(s, bus) <==> |s.tx.pushed| < s.tx.seenPopped + depth
  {
    ResetOk(depth);
    PatientRunKeeps(Reset(depth), cycles);
    RunFixesDepth(Reset(depth), cycles);
    WarmAfter(Reset(depth), cycles);
    UsbStepsKeep(Run(Reset(depth), cycles), events);
    hide Run, AllPatient, UsbSteps;
  }

  // ----- runs that show both

  function Reading(): Cycle { Cycle([], Bus(true, false, 0, 0, true), 0) }

  /** Three cycles of `read`: the second and the third each end a DATA read, of the same byte. */
  lemma BackToBackReadRepeats(depth: nat, b: byte)
    requires depth > 0
    ensures var cycles := [Reading().(events := [HostSends(b), Crossing((0, 0), (1, 0))]), Reading(), Reading()];
      && AllPatient(Reset(depth), cycles)
      && Run(Reset(depth), cycles).given == [b, b] && Run(Reset(depth), cycles).rx.pushed == [b]
  {
    var first := Reading().(events := [HostSends(b), Crossing((0, 0), (1, 0))]);
    var s0 := Reset(depth);
    TwoEvents(s0, HostSends(b), Crossing((0, 0), (1, 0)));
    var s1 := Tick(s0, first);
    assert [] + [b] == [b];
    assert UsbSteps(s0, first.events) == s0.(rx := Fifo(depth, [b], 0, 1, 0));
    assert s1.rreq && s1.pending && s1.readdata == b && s1.rx == Fifo(depth, [b], 0, 1, 0) && s1.given == [];
    var s2 := Tick(s1, Reading());
    assert s2.given == [b] && s2.rx == Fifo(depth, [b], 1, 1, 0) && s2.pending && !s2.rreq;
    var s3 := Tick(s2, Reading());
    assert s3.given == [b] + [b];
    ThreeCycles(s0, first, Reading(), Reading());
  }

  lemma ThreeCycles(s: Bridge, a: Cycle, b: Cycle, c: Cycle)
    ensures Run(s, [a, b, c]) == Tick(Tick(Tick(s, a), b), c)
    ensures AllPatient(s, [a, b, c]) <==>
            Patient(s, a.bus) && Patient(Tick(s, a), b.bus) && Patient(Tick(Tick(s, a), b), c.bus)
  {
    hide Tick, Patient;
    assert [a, b, c][1..] == [b, c] && [b, c][1..] == [c] && [c][1..] == [];
    var s1, s2 := Tick(s, a), Tick(Tick(s, a), b);
    assert AllPatient(s2, [c]) <==> Patient(s2, c.bus);
    assert AllPatient(s1, [b, c]) <==> Patient(s1, b.bus) && AllPatient(s2, [c]);
    assert Run(s2, [c]) == Run(Tick(s2, c), []);
    assert Run(s1, [b, c]) == Run(s2, [c]);
  }

  function Repeat<T>(c: T, n: nat): seq<T> { seq(n, _ => c) }

  function Writing(b: byte): Cycle { Cycle([], Bus(false, true, 0, b, true), 0) }

  lemma {:induction false} WarmsUp(s: Bridge, n: nat)
    requires s == Reset(s.tx.depth).(warm := s.warm) && s.tx.depth > 0 && s.warm + n <= WARM_UP
    ensures Run(s, Repeat(Cycle([], IDLE, 0), n)) == s.(warm := s.warm + n)
    ensures AllPatient(s, Repeat(Cycle([], IDLE, 0), n))
    decreases n
  {
    if n > 0 {
      assert Repeat(Cycle([], IDLE, 0), n)[1..] == Repeat(Cycle([], IDLE, 0), n - 1);
      WarmsUp(Tick(s, Cycle([], IDLE, 0)), n - 1);
    }
  }

  /** A master that writes in every cycle while nobody takes anything out: `k` bytes are accepted. */
  ghost predicate Flooded(s: Bridge, b: byte, k: nat) {
    && k > 0 && s.warm == WARM_UP && s.tx == Fifo(s.tx.depth, Repeat(b, k - 1), 0, 0, 0)
    && s.wreq && s.wdata == b && s.accepted == Repeat(b, k) && !s.waited
  }

  lemma FloodStarts(s: Bridge, b: byte)
    requires s == Reset(s.tx.depth).(warm := WARM_UP) && s.tx.depth > 0
    ensures Patient(s, Writing(b).bus) && Flooded(Tick(s, Writing(b)), b, 1)
  {
    assert [] + [b] == Repeat(b, 1);
  }

  lemma FloodGoesOn(s: Bridge, b: byte, k: nat)
    requires 0 < k <= s.tx.depth && Flooded(s, b, k)
    ensures Flooded(Tick(s, Writing(b)), b, k + 1) && Tick(s, Writing(b)).tx.depth == s.tx.depth
  {
    assert Repeat(b, k - 1) + [b] == Repeat(b, k);
    assert Repeat(b, k) + [b] == Repeat(b, k + 1);
  }

  lemma {:induction false} FloodTo(s: Bridge, b: byte, k: nat, n: nat)
    requires 0 < k && k + n <= s.tx.depth + 1 && Flooded(s, b, k)
    ensures Flooded(Run(s, Repeat(Writing(b), n)), b, k + n)
    ensures Run(s, Repeat(Writing(b), n)).tx.depth == s.tx.depth
    ensures AllPatient(s, Repeat(Writing(b), n))
    decreases n
  {
    hide Flooded, Tick;
    assert Patient(s, Writing(b).bus) by { FloodIsPatient(s, b, k); }
    if n > 0 {
      assert Repeat(Writing(b), n)[1..] == Repeat(Writing(b), n - 1);
      FloodGoesOn(s, b, k);
      FloodTo(Tick(s, Writing(b)), b, k + 1, n - 1);
    }
  }

  lemma FloodIsPatient(s: Bridge, b: byte, k: nat)
    requires Flooded(s, b, k)
    ensures Patient(s, Writing(b).bus)
  {
  }

  lemma FloodSpills(s: Bridge, b: byte)
    requires s.tx.depth > 0 && Flooded(s, b, s.tx.depth + 1)
    ensures var t := Tick(s, Writing(b));
      t.accepted == Repeat(b, s.tx.depth + 1) && t.tx.pushed == Repeat(b, s.tx.depth) && !t.wreq
  {
  }

  /** After warming up, one more write in a row than the FIFO is deep: all are accepted, one is lost. */
  lemma BackToBackWriteLoses(depth: nat, b: byte) returns (cycles: seq<Cycle>)
    requires depth > 0
    ensures AllPatient(Reset(depth), cycles)
    ensures var s := Run(Reset(depth), cycles);
      s.accepted == Repeat(b, depth + 1) && s.tx.pushed == Repeat(b, depth) && !s.wreq
  {
    var idle, w := Repeat(Cycle([], IDLE, 0), WARM_UP), Writing(b);
    var s0 := Reset(depth);
    WarmsUp(s0, WARM_UP);
    var s1 := Run(s0, idle);
    FloodStarts(s1, b);
    var s2 := Tick(s1, w);
    FloodTo(s2, b, 1, depth);
    var s3 := Run(s2, Repeat(w, depth));
    FloodIsPatient(s3, b, depth + 1);
    FloodSpills(s3, b);
    hide Tick, Patient, Flooded;
    OneCycle(s1, w);
    OneCycle(s3, w);
    RunBoth(s0, idle, [w]);
    RunBoth(s0, idle + [w], Repeat(w, depth));
    RunBoth(s0, idle + [w] + Repeat(w, depth), [w]);
    cycles := idle + [w] + Repeat(w, depth) + [w];
  }

  lemma OneCycle(s: Bridge, c: Cycle)
    ensures Run(s, [c]) == Tick(s, c) && (AllPatient(s, [c]) <==> Patient(s, c.bus))
  {
    hide Tick, Patient;
    assert [c][1..] == [];
  }

  lemma {:induction false} RunBoth(s: Bridge, first: seq<Cycle>, second: seq<Cycle>)
    ensures Run(s, first + second) == Run(Run(s, first), second)
    ensures AllPatient(s, first + second) <==> AllPatient(s, first) && AllPatient(Run(s, first), second)
    decreases |first|
  {
    hide Tick, Patient;
    if first == [] {
      assert [] + second == second;
    } else {
      assert (first + second)[1..] == first[1..] + second;
      RunBoth(Tick(s, first[0]), first[1..], second);
    }
  }
}
