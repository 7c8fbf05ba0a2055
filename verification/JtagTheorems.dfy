// What holds of the JTAG UART driver over every run, whatever the interleaving.
module JtagTheorems {
  import opened Words
  import opened Ring
  import opened JtagModel
  import opened JtagSystem

  const DEFAULT_TIMEOUT := 10

  /** The driver as initialised, when the host has already queued some bytes in the receive FIFO. */
  function Initial(rxBuf: seq<byte>, txBuf: seq<byte>, queued: seq<byte>, pause: bool, ac: bool, timeout: nat): System {
    System(
      Dev(Tx(txBuf, 0, 0, false, false, [], [], []),
          Rx(rxBuf, 0, 0, true, true, queued, pause, queued, []), ac, 0, timeout, []),
      Writer(WIdle, [], false, 0, 0, 0, 0, 0, -EIO, 0, 0, false, false),
      Reader(RIdle, 0, 0, false, [], 0, 0, 0, 0, -EIO, 0, 0, false, false))
  }

  /** `s` is reachable: some initial state and some sequence of actions lead to it. */
  ghost predicate Reachable(s: System) {
    exists rxBuf: seq<byte>, txBuf: seq<byte>, queued: seq<byte>, pause: bool, ac: bool, timeout: nat,
           acts: seq<Action> ::
      Leads(rxBuf, txBuf, queued, pause, ac, timeout, acts, s)
  }

  ghost predicate Leads(rxBuf: seq<byte>, txBuf: seq<byte>, queued: seq<byte>, pause: bool, ac: bool, timeout: nat,
                        acts: seq<Action>, s: System) {
    && |rxBuf| == BUF_LEN && |txBuf| == BUF_LEN && |queued| <= FIFO_DEPTH && (pause ==> queued != [])
    && SysOk(Initial(rxBuf, txBuf, queued, pause, ac, timeout))
    && s == Run(Initial(rxBuf, txBuf, queued, pause, ac, timeout), acts)
  }

  lemma InitialOk(rxBuf: seq<byte>, txBuf: seq<byte>, queued: seq<byte>, pause: bool, ac: bool, timeout: nat)
    requires |rxBuf| == BUF_LEN && |txBuf| == BUF_LEN && |queued| <= FIFO_DEPTH && (pause ==> queued != [])
    ensures SysOk(Initial(rxBuf, txBuf, queued, pause, ac, timeout))
  {
    assert [] + queued == queued;
  }

  lemma {:induction false} RunOk(s: System, acts: seq<Action>)
    requires SysOk(s)
    ensures SysOk(Run(s, acts))
    decreases |acts|
  {
    if acts != [] {
      NextOk(s, acts[0]);
      RunOk(Next(s, acts[0]), acts[1..]);
    }
  }

  lemma {:induction false} RunSnoc(s: System, acts: seq<Action>, a: Action)
    requires SysOk(s)
    ensures SysOk(Run(s, acts)) && Run(s, acts + [a]) == Next(Run(s, acts), a)
    decreases |acts|
  {
    hide Next, SysOk;
    RunOk(s, acts);
    if acts == [] {
      NextOk(s, a);
      assert Run(s, [a]) == Run(Next(s, a), []);
    } else {
      NextOk(s, acts[0]);
      assert (acts + [a])[1..] == acts[1..] + [a];
      RunSnoc(Next(s, acts[0]), acts[1..], a);
    }
  }

  lemma ReachableOk(s: System)
    requires Reachable(s)
    ensures SysOk(s)
  {
    var rxBuf: seq<byte>, txBuf: seq<byte>, queued: seq<byte>, pause: bool, ac: bool, timeout: nat,
        acts: seq<Action>
      :| Leads(rxBuf, txBuf, queued, pause, ac, timeout, acts, s);
    RunOk(Initial(rxBuf, txBuf, queued, pause, ac, timeout), acts);
  }

  /** Transmit order and conservation: what the host has, then the FIFO, then the ring. */
  lemma TransmitConserves(s: System)
    requires Reachable(s)
    ensures var t := s.dev.tx;
            && t.inn < BUF_LEN && t.out < BUF_LEN && |t.buf| == BUF_LEN
            && |t.fifo| <= FIFO_DEPTH
            && t.got + t.fifo + Live(t.buf, t.inn, t.out) == t.accepted
  {
    ReachableOk(s);
  }

  /** Receive order and conservation: what readers have, then the ring, then the FIFO. */
  lemma ReceiveConserves(s: System)
    requires Reachable(s)
    ensures var x := s.dev.rx;
            && x.inn < BUF_LEN && x.out < BUF_LEN && |x.buf| == BUF_LEN
            && x.delivered + Live(x.buf, x.inn, x.out) + x.fifo == x.sent
  {
    ReachableOk(s);
  }

  /**
   * No lost wake-up on either side, and the control register always agrees with the shadow word.
   * A disabled transmitter has an empty ring or a writer between publishing a block and its kick;
   * a disabled receiver has a full ring or a reader between releasing a block and its re-enable.
   */
  lemma NoLostWakeup(s: System)
    requires Reachable(s)
    ensures var t, w := s.dev.tx, s.w;
            && t.weReg == t.we && (!t.we ==> t.inn == t.out || w.dirty)
            && (w.dirty ==> w.ptr > 0 && (w.pc.WSnapIn? || w.pc.WSnapOut? || w.pc.WCopy? || w.pc.WKick?))
    ensures var x, r := s.dev.rx, s.r;
            && x.reReg == x.re && (!x.re ==> (x.inn + 1) % BUF_LEN == x.out || r.dirty)
            && (r.dirty ==> |x.delivered| > r.base
                            && (r.pc.RSnapIn? || r.pc.RSnapOut? || r.pc.RCopy? || r.pc.REnable?))
  {
    ReachableOk(s);
  }

  /** The two windows open only where a block is published or released, and close only at the enable. */
  lemma WindowsAreExact(s: System, a: Action)
    requires SysOk(s)
    ensures var w, w' := s.w, Next(s, a).w;
            && (!w.dirty && w'.dirty ==> a.WriterStep? && w.pc.WCopy? && w.k == w.n)
            && (w.dirty && !w'.dirty ==> a.WriterStep? && w.pc.WKick?)
    ensures var r, r' := s.r, Next(s, a).r;
            && (!r.dirty && r'.dirty ==> a.ReaderStep? && r.pc.RCopy? && r.k == r.n)
            && (r.dirty && !r'.dirty ==> a.ReaderStep? && r.pc.REnable?)
  {
    hide Live, Irq;
  }

  /** The writer's spin test sees a change exactly when a byte has left since its snapshot. */
  lemma WriterSpinSound(s: System)
    requires Reachable(s)
    requires s.w.pc.WSpin? || s.w.pc.WSpinHost? || s.w.pc.WCheck?
    ensures s.w.mark <= s.dev.tx.Removed()
    ensures s.w.out == s.dev.tx.out <==> s.dev.tx.Removed() == s.w.mark
  {
    ReachableOk(s);
    TxLengths(s.dev.tx);
  }

  /** The reader's spin test sees a change exactly when a byte was stored since its snapshot. */
  lemma ReaderSpinSound(s: System)
    requires Reachable(s)
    requires s.r.pc.RSpin? || s.r.pc.RSpinHost? || s.r.pc.RCheck?
    ensures s.r.mark <= s.dev.rx.Stored()
    ensures s.r.inn == s.dev.rx.inn <==> s.dev.rx.Stored() == s.r.mark
  {
    hide *;
    ReachableOk(s);
    ReaderIndex(s);
  }

  lemma ReaderIndex(s: System)
    requires SysOk(s) && (s.r.pc.RSpin? || s.r.pc.RSpinHost? || s.r.pc.RCheck?)
    ensures s.r.mark <= s.dev.rx.Stored()
    ensures s.r.inn == s.dev.rx.inn <==> s.dev.rx.Stored() == s.r.mark
  {
    hide Live, WriterOk, TxOk;
    RxLengths(s.dev.rx);
  }

  /**
   * A finished write reports exactly how much of its data was appended to the accepted stream;
   * a blocking one falls short only if the host was seen to be inactive.
   */
  lemma WriteReports(s: System)
    requires Reachable(s) && s.w.pc.WIdle?
    ensures var w, t := s.w, s.dev.tx;
            && w.base + w.ptr == |t.accepted| && w.ptr <= |w.data|
            && t.accepted[w.base..] == w.data[..w.ptr]
            && w.result == (if w.ptr > 0 then w.ptr else if w.nonblock then -EWOULDBLOCK else -EIO)
            && (w.ptr < |w.data| && !w.nonblock ==> w.gone)
  {
    ReachableOk(s);
  }

  /** A finished read returns exactly the bytes appended to the delivered stream. */
  lemma ReadReports(s: System)
    requires Reachable(s) && s.r.pc.RIdle?
    ensures var r, x := s.r, s.dev.rx;
            && r.base <= |x.delivered| && x.delivered[r.base..] == r.dst && |r.dst| <= r.want
            && r.result == (if r.dst != [] then |r.dst| else if r.nonblock then -EWOULDBLOCK else -EIO)
            && (r.dst == [] && !r.nonblock && r.want > 0 ==> r.gone)
  {
    ReachableOk(s);
    assert s.r.dst[..|s.r.dst|] == s.r.dst;
  }

  // ---------------------------------------------------------------- progress

  /** After an interrupt, bytes wait in the ring only behind a FIFO too full to ask for more. */
  lemma NothingStranded(s: System, env: seq<seq<HwEvent>>)
    requires SysOk(s) && !s.w.dirty && !s.r.dirty
    ensures var d := Next(s, Interrupt(env)).dev;
            && (d.tx.inn != d.tx.out ==> |d.tx.fifo| > THRESHOLD)
            && (|d.rx.fifo| >= FIFO_DEPTH - THRESHOLD ==> (d.rx.inn + 1) % BUF_LEN == d.rx.out)
  {
    hide Live, Irq;
    IrqLeaves(s.dev.(env := env));
    NextOk(s, Interrupt(env));
    var d := Next(s, Interrupt(env)).dev;
    hide Next;
    assert WriterOk(s.w, d.tx) && ReaderOk(s.r, d.rx);
  }

  function Drains(n: nat): seq<Action> { seq(n, i => Host(Drain)) }

  /** The host empties the transmit FIFO and the device then interrupts. */
  function DrainRound(s: System): System
    requires SysOk(s)
  {
    RunOk(s, Drains(FIFO_DEPTH));
    Next(Run(s, Drains(FIFO_DEPTH)), Interrupt([]))
  }

  lemma {:induction false} DrainsEmpty(s: System, n: nat)
    requires SysOk(s) && |s.dev.tx.fifo| <= n && s.dev.env == []
    ensures var e := Run(s, Drains(n));
            && SysOk(e) && e.dev.tx.fifo == [] && e.w == s.w && e.r == s.r && e.dev.env == []
            && e.dev.tx.(fifo := s.dev.tx.fifo, got := s.dev.tx.got) == s.dev.tx
    decreases n
  {
    if n > 0 {
      NextOk(s, Host(Drain));
      assert Drains(n)[1..] == Drains(n - 1);
      DrainsEmpty(Next(s, Host(Drain)), n - 1);
    }
  }

  /** One round gets bytes moving whenever any wait and no writer is about to kick. */
  lemma DrainRoundMoves(s: System)
    requires SysOk(s) && !s.w.dirty && s.dev.env == []
    ensures var e := DrainRound(s);
            && SysOk(e) && !e.w.dirty && e.dev.env == [] && e.dev.tx.accepted == s.dev.tx.accepted
            && (s.dev.tx.Waiting() != [] ==> |e.dev.tx.Waiting()| < |s.dev.tx.Waiting()|)
            && (s.dev.tx.Waiting() == [] ==> e.dev.tx.Waiting() == [])
  {
    DrainsEmpty(s, FIFO_DEPTH);
    var m := Run(s, Drains(FIFO_DEPTH));
    NextOk(m, Interrupt([]));
    assert m.dev.(env := []) == m.dev;
    IrqOk(m.dev);
    TxLengths(m.dev.tx);
    TxLengths(Irq(m.dev).tx);
    if s.dev.tx.Waiting() != [] { IrqSends(m.dev); }
  }

  function DrainRounds(s: System, n: nat): System
    requires SysOk(s) && !s.w.dirty && s.dev.env == []
    decreases n
  {
    if n == 0 then s
    else
      DrainRoundMoves(s);
      DrainRounds(DrainRound(s), n - 1)
  }

  /** A host that keeps reading receives every accepted byte, in order: data is never stuck. */
  lemma {:induction false} EveryByteReachesHost(s: System, n: nat)
    requires SysOk(s) && !s.w.dirty && s.dev.env == []
    requires n >= |s.dev.tx.Waiting()|
    ensures var e := DrainRounds(s, n);
            && SysOk(e) && e.dev.env == [] && Run(e, Drains(FIFO_DEPTH)).dev.tx.got == s.dev.tx.accepted
    decreases n
  {
    hide Live, DrainRound, Next;
    if n == 0 {
      DrainsEmpty(s, FIFO_DEPTH);
      var t := Run(s, Drains(FIFO_DEPTH)).dev.tx;
      assert t.got + [] + [] == t.got;
    } else {
      DrainRoundMoves(s);
      EveryByteReachesHost(DrainRound(s), n - 1);
    }
  }

  /** Once the host pauses, an interrupt leaves no received byte outside the ring unless it is full. */
  lemma EveryByteReachesRing(s: System)
    requires SysOk(s) && !s.r.dirty
    ensures SysOk(Next(s, Host(Pause)))
    ensures var x := Next(Next(s, Host(Pause)), Interrupt([])).dev.rx;
            x.fifo == [] || (x.inn + 1) % BUF_LEN == x.out
  {
    hide Live, Irq;
    NextOk(s, Host(Pause));
    var m := Next(s, Host(Pause));
    NextOk(m, Interrupt([]));
    IrqEmptiesFifo(m.dev.(env := []));
  }

  // ---------------------------------------------------------------- a write left alone

  /** A write that nothing has come between: it ends short, or starts to wait, only with a full ring. */
  ghost predicate WritesAlone(s: System) {
    var w, t := s.w, s.dev.tx;
    && t.Wf()
    && (w.ptr < |w.data| && (w.pc.WKick? || w.pc.WIdle? || WSpinning(w)) ==> |t.Waiting()| == BUF_LEN - 1)
    && (w.ptr < |w.data| && (w.pc.WKick? || WSpinning(w)) ==> w.out == t.out)
  }

  /** A step of the writer sends nothing and leaves the reader and the timer's count alone. */
  ghost predicate OnlyWrites(s: System, e: System) {
    && e.r == s.r && e.dev.tx.got == s.dev.tx.got && e.dev.tx.fifo == s.dev.tx.fifo
    && e.dev.env == s.dev.env && e.w.base == s.w.base && e.w.data == s.w.data && e.w.nonblock == s.w.nonblock
    && e.dev.inactive == s.dev.inactive && e.dev.timeout == s.dev.timeout
    && (e.w.gone ==> s.w.gone || s.dev.inactive >= s.dev.timeout)
    && s.dev.tx.accepted <= e.dev.tx.accepted
  }

  lemma WritesAloneStep(s: System)
    requires SysOk(s) && WritesAlone(s)
    ensures SysOk(WStep(s)) && WritesAlone(WStep(s)) && OnlyWrites(s, WStep(s))
  {
    WStepOk(s);
    if s.w.pc.WSnapOut? {
      WritesAloneSnapOut(s);
      hide *;
    } else {
      WritesAloneElse(s);
      hide *;
    }
  }

  lemma WritesAloneSnapOut(s: System)
    requires SysOk(s) && WritesAlone(s) && s.w.pc.WSnapOut?
    ensures WritesAlone(WStep(s)) && OnlyWrites(s, WStep(s))
  {
    hide Live, ReaderOk, RxOk;
  }

  lemma WritesAloneElse(s: System)
    requires SysOk(s) && WritesAlone(s) && !s.w.pc.WSnapOut?
    ensures WritesAlone(WStep(s)) && OnlyWrites(s, WStep(s))
  {
    hide *;
    if s.w.pc.WCopy? { WritesAloneCopy(s); }
    else if s.w.pc.WKick? { WritesAloneKick(s); }
    else if s.w.pc.WSpin? { WritesAloneSpin(s); }
    else if s.w.pc.WSpinHost? { WritesAloneHost(s); }
    else if s.w.pc.WCheck? { WritesAloneCheck(s); }
    else { WritesAloneTop(s); }
  }

  lemma WritesAloneKick(s: System)
    requires SysOk(s) && WritesAlone(s) && s.w.pc.WKick?
    ensures WritesAlone(WStep(s)) && OnlyWrites(s, WStep(s))
  {
    hide Live, ReaderOk, RxOk, DevOk, SysOk, WriterOk, TxOk;
  }

  lemma WritesAloneSpin(s: System)
    requires SysOk(s) && WritesAlone(s) && s.w.pc.WSpin?
    ensures WritesAlone(WStep(s)) && OnlyWrites(s, WStep(s))
  {
    hide Live, ReaderOk, RxOk, DevOk, SysOk, WriterOk, TxOk;
  }

  lemma WritesAloneHost(s: System)
    requires SysOk(s) && WritesAlone(s) && s.w.pc.WSpinHost?
    ensures WritesAlone(WStep(s)) && OnlyWrites(s, WStep(s))
  {
    hide Live, ReaderOk, RxOk, DevOk, SysOk, WriterOk, TxOk;
  }

  lemma WritesAloneCheck(s: System)
    requires SysOk(s) && WritesAlone(s) && s.w.pc.WCheck?
    ensures WritesAlone(WStep(s)) && OnlyWrites(s, WStep(s))
  {
    hide Live, ReaderOk, RxOk, DevOk, SysOk, WriterOk, TxOk;
  }

  lemma WritesAloneTop(s: System)
    requires SysOk(s) && WritesAlone(s) && (s.w.pc.WIdle? || s.w.pc.WSnapIn?)
    ensures WritesAlone(WStep(s)) && OnlyWrites(s, WStep(s))
  {
    hide Live, ReaderOk, RxOk, DevOk, SysOk, WriterOk, TxOk;
  }

  lemma StepShaped(s: System)
    requires SysOk(s)
    ensures s.dev.tx.Wf()
  {
    hide Live, ReaderOk, RxOk, WriterOk;
  }

  lemma WritesAloneCopy(s: System)
    requires SysOk(s) && s.w.pc.WCopy?
    ensures WritesAlone(WStep(s)) && OnlyWrites(s, WStep(s))
  {
    hide Live, ReaderOk, RxOk, DevOk, SysOk, WriterOk, TxOk;
    WStepOk(s);
    StepShaped(WStep(s));
    CopyingInBounds(s);
    PublishesMore(s);
  }

  lemma PublishesMore(s: System)
    requires SysOk(s) && s.w.pc.WCopy? && s.w.ptr + s.w.n <= |s.w.data|
    ensures WStep(s).w.pc.WCopy? || WStep(s).w.pc.WSnapIn?
    ensures s.dev.tx.accepted <= WStep(s).dev.tx.accepted
  {
    hide Live, ReaderOk, RxOk, DevOk, SysOk, WriterOk, TxOk;
    var block := if s.w.k < s.w.n then [] else s.w.data[s.w.ptr..s.w.ptr + s.w.n];
    assert WStep(s).dev.tx.accepted == s.dev.tx.accepted + block;
  }

  /** What such a write has put in the ring when it ends or waits, by conservation. */
  lemma PutIn(s: System, e: System)
    requires SysOk(s) && SysOk(e) && WritesAlone(e) && OnlyWrites(s, e)
    requires s.w.ptr == 0 && (e.w.pc.WIdle? || WSpinning(e.w))
    ensures e.w.ptr == Min(|e.w.data|, BUF_LEN - 1 - |s.dev.tx.Waiting()|)
    ensures e.dev.tx.Waiting() == s.dev.tx.Waiting() + e.w.data[..e.w.ptr]
  {
    hide Live, ReaderOk, RxOk;
    var t, u, data := s.dev.tx, e.dev.tx, e.w.data[..e.w.ptr];
    TxLengths(t);
    TxLengths(u);
    assert u.accepted == t.accepted + u.accepted[|t.accepted|..];
    assert t.got + t.fifo + t.Waiting() + data == t.got + t.fifo + (t.Waiting() + data);
    SameFront(t.got + t.fifo, t.Waiting() + data, u.Waiting());
  }

  lemma SameFront(f: seq<byte>, a: seq<byte>, b: seq<byte>)
    requires f + a == f + b
    ensures a == b
  {
    assert a == (f + a)[|f|..] && b == (f + b)[|f|..];
  }

  // ---------------------------------------------------------------- from the host to a reader

  /** Bytes that the host has sent and no reader has got. */
  function Undelivered(x: Rx): nat
    requires x.Wf()
  {
    |x.Waiting()| + |x.fifo|
  }

  function ReaderSteps(n: nat): seq<Action> { seq(n, i => ReaderStep) }

  /** A bound on the steps that a read still takes if it is left alone and does not wait. */
  ghost function StepsLeft(r: Reader): int {
    match r.pc
    case RIdle => 0
    case REnable => 1
    case RCopy => 4 * (r.space - r.n) + 4 + (r.n - r.k)
    case RSnapOut => 4 * r.space + 2
    case _ => 4 * r.space + 3
  }

  /** A read that nothing has come between: it ends, or starts to wait, only with an empty ring. */
  ghost predicate Alone(s: System) {
    var r, x := s.r, s.dev.rx;
    && x.Wf()
    && (r.pc.RSnapOut? || r.pc.RCopy? || RSpinning(r) ==> r.inn == x.inn)
    && (r.pc.RIdle? || r.pc.REnable? ==> r.space == 0 || x.Waiting() == [])
    && (RSpinning(r) ==> x.Waiting() == [])
  }

  /** A step of the reader receives nothing and leaves the writer and the timer's count alone. */
  ghost predicate OnlyReads(s: System, e: System) {
    && e.w == s.w && e.dev.rx.sent == s.dev.rx.sent && e.dev.rx.fifo == s.dev.rx.fifo
    && e.dev.env == s.dev.env && e.r.base == s.r.base && e.r.want == s.r.want && e.r.nonblock == s.r.nonblock
    && e.dev.inactive == s.dev.inactive && e.dev.timeout == s.dev.timeout
    && (e.r.gone ==> s.r.gone || s.dev.inactive >= s.dev.timeout)
    && s.dev.rx.delivered <= e.dev.rx.delivered
  }

  lemma AloneStep(s: System)
    requires SysOk(s) && Alone(s)
    ensures SysOk(RStep(s)) && Alone(RStep(s)) && OnlyReads(s, RStep(s))
    ensures s.r.nonblock ==>
      if s.r.pc.RIdle? then RStep(s) == s else 0 <= StepsLeft(RStep(s).r) < StepsLeft(s.r)
  {
    RStepOk(s);
    if s.r.pc.RCopy? && s.r.k == s.r.n {
      hide *;
      AloneRelease(s);
    } else {
      AloneElse(s);
      hide *;
    }
  }

  lemma AloneElse(s: System)
    requires SysOk(s) && Alone(s) && !(s.r.pc.RCopy? && s.r.k == s.r.n)
    ensures Alone(RStep(s)) && OnlyReads(s, RStep(s))
    ensures s.r.nonblock ==>
      if s.r.pc.RIdle? then RStep(s) == s else 0 <= StepsLeft(RStep(s).r) < StepsLeft(s.r)
  {
    if s.r.pc.RSnapOut? {
      AloneSnapOut(s);
      hide *;
    } else if RSpinning(s.r) {
      AloneSpin(s);
      hide *;
    } else {
      hide Live, DevOk, WriterOk, TxOk, RxOk;
    }
  }

  lemma AloneSpin(s: System)
    requires SysOk(s) && Alone(s) && RSpinning(s.r)
    ensures Alone(RStep(s)) && OnlyReads(s, RStep(s)) && !s.r.nonblock
  {
    hide Live, DevOk, WriterOk, TxOk, RxOk;
  }

  lemma AloneSnapOut(s: System)
    requires SysOk(s) && Alone(s) && s.r.pc.RSnapOut?
    ensures Alone(RStep(s)) && OnlyReads(s, RStep(s))
    ensures s.r.nonblock ==> 0 <= StepsLeft(RStep(s).r) < StepsLeft(s.r)
  {
    EmptyIffEqual(s.dev.rx);
    hide Live, WriterOk, TxOk;
  }

  lemma EmptyIffEqual(x: Rx)
    requires x.Wf()
    ensures x.Waiting() == [] <==> x.inn == x.out
  {
  }

  lemma AloneRelease(s: System)
    requires SysOk(s) && Alone(s) && s.r.pc.RCopy? && s.r.k == s.r.n
    ensures Alone(RStep(s)) && OnlyReads(s, RStep(s))
    ensures s.r.nonblock ==> 0 <= StepsLeft(RStep(s).r) < StepsLeft(s.r)
  {
    CopiedSome(s);
    ReleaseRx(s.r, s.dev.rx);
    hide Live, SysOk, ReaderOk, RCopying, WriterOk, TxOk, RxOk, DevOk;
    var done := s.r.(space := s.r.space - s.r.n, dirty := true, k := 0);
    assert RStep(s).r == if done.space > 0 then done.(pc := RSnapIn) else done.(pc := REnable);
    assert s.dev.rx.delivered <= RStep(s).dev.rx.delivered;
  }

  lemma CopiedSome(s: System)
    requires SysOk(s) && s.r.pc.RCopy? && s.r.k == s.r.n
    ensures 0 < s.r.n <= |s.r.dst| && s.r.n <= s.r.space && RxOk(s.dev.rx) && ReaderOk(s.r, s.dev.rx)
    ensures (s.r.out + s.r.n) % BUF_LEN < BUF_LEN == |s.dev.rx.buf|
  {
    hide Live, WriterOk, TxOk;
  }

  lemma {:induction false} AloneFinishes(s: System, n: nat)
    requires SysOk(s) && Alone(s) && s.r.nonblock && n >= StepsLeft(s.r)
    ensures var e := Run(s, ReaderSteps(n)); SysOk(e) && Alone(e) && OnlyReads(s, e) && e.r.pc.RIdle?
    decreases n
  {
    hide SysOk, Alone, RStep, Next;
    AloneStep(s);
    NextIsStep(s);
    if n > 0 {
      NextOk(s, ReaderStep);
      assert ReaderSteps(n)[1..] == ReaderSteps(n - 1);
      AloneFinishes(RStep(s), n - 1);
    } else {
      IdleWhenNoneLeft(s);
    }
  }

  lemma NextIsStep(s: System)
    requires SysOk(s)
    ensures Next(s, ReaderStep) == RStep(s)
  {
    hide Live, WriterOk, ReaderOk;
  }

  lemma IdleWhenNoneLeft(s: System)
    requires SysOk(s) && Alone(s) && s.r.nonblock && StepsLeft(s.r) <= 0
    ensures s.r.pc.RIdle?
  {
    hide Live, WriterOk, TxOk;
  }

  /** A read of at most `space` bytes that does not wait, run on its own. */
  function Poll(s: System, space: nat): System
    requires SysOk(s)
  {
    NextOk(s, StartRead(space, true));
    Run(Next(s, StartRead(space, true)), ReaderSteps(4 * space + 3))
  }

  /** It returns as many of the waiting bytes as it was asked for, in order. */
  lemma PollTakes(s: System, space: nat)
    requires SysOk(s) && s.r.pc.RIdle? && space > 0
    ensures var e, n := Poll(s, space), Min(space, |s.dev.rx.Waiting()|);
      && SysOk(e) && e.r.pc.RIdle? && e.w == s.w && e.dev.rx.sent == s.dev.rx.sent && e.dev.env == s.dev.env
      && e.dev.rx.delivered == s.dev.rx.delivered + s.dev.rx.Waiting()[..n]
      && e.r.dst == s.dev.rx.Waiting()[..n]
      && Undelivered(e.dev.rx) == Undelivered(s.dev.rx) - n
  {
    NextOk(s, StartRead(space, true));
    var m := Next(s, StartRead(space, true));
    assert Alone(m) && StepsLeft(m.r) == 4 * space + 3 && m.dev == s.dev && m.w == s.w;
    assert m.r.base == |s.dev.rx.delivered| && m.r.want == space;
    AloneFinishes(m, 4 * space + 3);
    var e := Poll(s, space);
    hide Poll, Run, Next;
    Taken(s.dev.rx, e.dev.rx, e.r);
  }

  /** What a finished read has taken, by conservation. */
  lemma Taken(x: Rx, e: Rx, r: Reader)
    requires RxOk(x) && RxOk(e) && e.sent == x.sent && e.fifo == x.fifo
    requires ReaderOk(r, e) && !r.pc.RCopy? && r.base == |x.delivered| && (r.space == 0 || e.Waiting() == [])
    requires x.delivered <= e.delivered
    ensures var n := Min(r.want, |x.Waiting()|);
      && e.delivered == x.delivered + x.Waiting()[..n] && r.dst == x.Waiting()[..n]
      && Undelivered(e) == Undelivered(x) - n
  {
    hide Live;
    var a, w, f := x.delivered, x.Waiting(), x.fifo;
    var b, v := e.delivered, e.Waiting();
    SameRest(a + w, b + v, f);
    var n := |b| - |a|;
    assert b[|a|..] == r.dst;
    assert (a + w)[|a|..][..n] == (b + v)[|a|..][..n];
    assert (a + w)[|a|..] == w && (b + v)[|a|..][..n] == b[|a|..];
  }

  lemma SameRest(a: seq<byte>, b: seq<byte>, f: seq<byte>)
    requires a + f == b + f
    ensures a == b
  {
    assert |a| == |b|;
    assert a == (a + f)[..|a|] && b == (b + f)[..|b|];
  }

  /** The host pauses, the device interrupts, and a reader polls for at most `space` bytes. */
  function ReadRound(s: System, space: nat): System
    requires SysOk(s)
  {
    NextOk(s, Host(Pause));
    NextOk(Next(s, Host(Pause)), Interrupt([]));
    Poll(Next(Next(s, Host(Pause)), Interrupt([])), space)
  }

  lemma PauseAndInterrupt(s: System)
    requires SysOk(s) && s.r.pc.RIdle?
    ensures SysOk(Next(s, Host(Pause)))
    ensures var e := Next(Next(s, Host(Pause)), Interrupt([]));
      && SysOk(e) && e.r == s.r && e.w == s.w && e.dev.env == []
      && e.dev.rx.sent == s.dev.rx.sent && e.dev.rx.delivered == s.dev.rx.delivered
      && Undelivered(e.dev.rx) == Undelivered(s.dev.rx)
      && (Undelivered(s.dev.rx) > 0 ==> e.dev.rx.Waiting() != [])
  {
    hide Live, Irq;
    assert !s.r.dirty;
    EveryByteReachesRing(s);
    NextOk(s, Host(Pause));
    var m := Next(s, Host(Pause));
    NextOk(m, Interrupt([]));
    IrqOk(m.dev.(env := []));
    QuietIrq(m.dev.(env := []));
    var e := Next(m, Interrupt([]));
    SameCount(s.dev.rx, e.dev.rx);
    if (e.dev.rx.inn + 1) % BUF_LEN == e.dev.rx.out { FullIsNotEmpty(e.dev.rx); }
  }

  lemma SameCount(x: Rx, e: Rx)
    requires RxOk(x) && RxOk(e) && e.sent == x.sent && e.delivered == x.delivered
    ensures Undelivered(e) == Undelivered(x)
  {
    RxLengths(x);
    RxLengths(e);
  }

  lemma FullIsNotEmpty(x: Rx)
    requires x.Wf() && (x.inn + 1) % BUF_LEN == x.out
    ensures x.Waiting() != []
  {
  }

  /** One round brings a reader a byte whenever the host has sent any that nobody has got. */
  lemma ReadRoundMoves(s: System, space: nat)
    requires SysOk(s) && s.r.pc.RIdle? && space > 0
    ensures var e := ReadRound(s, space);
      && SysOk(e) && e.r.pc.RIdle? && e.dev.rx.sent == s.dev.rx.sent
      && (Undelivered(s.dev.rx) > 0 ==> Undelivered(e.dev.rx) < Undelivered(s.dev.rx))
      && (Undelivered(s.dev.rx) == 0 ==> Undelivered(e.dev.rx) == 0)
  {
    hide Live, Next, Poll;
    PauseAndInterrupt(s);
    PollTakes(Next(Next(s, Host(Pause)), Interrupt([])), space);
  }

  function ReadRounds(s: System, space: nat, n: nat): System
    requires SysOk(s) && s.r.pc.RIdle? && space > 0
    decreases n
  {
    if n == 0 then s
    else
      ReadRoundMoves(s, space);
      ReadRounds(ReadRound(s, space), space, n - 1)
  }

  /** A reader that keeps polling gets every byte the host has sent, in order: data is never stuck. */
  lemma {:induction false} EveryByteReachesReader(s: System, space: nat, n: nat)
    requires SysOk(s) && s.r.pc.RIdle? && space > 0 && n >= Undelivered(s.dev.rx)
    ensures var e := ReadRounds(s, space, n); SysOk(e) && e.dev.rx.delivered == s.dev.rx.sent
    decreases n
  {
    hide Live, ReadRound, ReaderOk, WriterOk, TxOk;
    if n == 0 {
      assert s.dev.rx.delivered + [] + [] == s.dev.rx.delivered;
    } else {
      ReadRoundMoves(s, space);
      EveryByteReachesReader(ReadRound(s, space), space, n - 1);
    }
  }

  lemma Arrives(s: System, b: byte)
    requires SysOk(s)
    ensures var t := Next(s, Host(Arrive(b))); var room := |s.dev.rx.fifo| < FIFO_DEPTH;
      && SysOk(t) && t.r == s.r
      && t.dev.rx.sent == s.dev.rx.sent + (if room then [b] else [])
      && Undelivered(t.dev.rx) == Undelivered(s.dev.rx) + (if room then 1 else 0)
  {
    NextOk(s, Host(Arrive(b)));
    hide SysOk, Irq, TimerStep;
  }

  /** One more byte from the host reaches the reader as the last one, if the FIFO has a free place. */
  lemma HostByteReachesReader(s: System, b: byte, space: nat, n: nat)
    requires SysOk(s) && s.r.pc.RIdle? && space > 0 && n > Undelivered(s.dev.rx)
    ensures var t := Next(s, Host(Arrive(b)));
      && SysOk(t) && t.r.pc.RIdle?
      && ReadRounds(t, space, n).dev.rx.delivered ==
         s.dev.rx.sent + (if |s.dev.rx.fifo| < FIFO_DEPTH then [b] else [])
  {
    Arrives(s, b);
    hide SysOk, Next, Undelivered;
    EveryByteReachesReader(Next(s, Host(Arrive(b))), space, n);
  }

  // ---------------------------------------------------------------- what the timer counts

  /** How many timer calls there were since the last that found the host active, or since the start. */
  ghost function QuietTicks(s: System, acts: seq<Action>): nat
    requires SysOk(s)
    decreases |acts|
  {
    if acts == [] then 0
    else
      var before := acts[..|acts| - 1];
      if !acts[|acts| - 1].Timer? then QuietTicks(s, before)
      else if Run(s, before).dev.ac then 0
      else QuietTicks(s, before) + 1
  }

  /** Only the timer touches its count. */
  lemma CountIsTimers(s: System, a: Action)
    requires SysOk(s) && !a.Timer?
    ensures Next(s, a).dev.inactive == s.dev.inactive && Next(s, a).dev.timeout == s.dev.timeout
  {
    hide Live, TxOk, RxOk, WriterOk, ReaderOk, Irq;
    match a
    case Interrupt(env) => IrqOk(s.dev.(env := env));
    case _ =>
  }

  /**
   * In every run the count of inactivity is the number of timer calls since the last one that
   * found the host active, up to its cap; and that call also clears the activity bit.
   */
  lemma {:induction false} TimerCounts(s: System, acts: seq<Action>)
    requires SysOk(s) && s.dev.inactive == 0
    ensures var e := Run(s, acts);
      e.dev.inactive == Min(QuietTicks(s, acts), INT_MAX - 2) && e.dev.timeout == s.dev.timeout
    ensures acts != [] && acts[|acts| - 1].Timer? ==> !Run(s, acts).dev.ac
    decreases |acts|
  {
    if acts != [] {
      var before, last := acts[..|acts| - 1], acts[|acts| - 1];
      assert acts == before + [last];
      TimerCounts(s, before);
      RunSnoc(s, before, last);
      var m := Run(s, before);
      if !last.Timer? {
        CountIsTimers(m, last);
        hide Next, SysOk;
      } else {
        TimerIsStep(m);
        hide Next, SysOk;
      }
      hide Run;
    }
  }

  lemma TimerIsStep(s: System)
    requires SysOk(s)
    ensures var e := Next(s, Timer).dev;
      && !e.ac && e.timeout == s.dev.timeout
      && e.inactive == if s.dev.ac then 0
                       else if s.dev.inactive < INT_MAX - 2 then s.dev.inactive + 1
                       else s.dev.inactive
  {
    hide Live, DevOk, WriterOk, ReaderOk;
  }

  /** The host is heard when it sends or pauses, and stays heard until the timer has seen it. */
  lemma HostIsHeard(s: System, a: Action)
    requires SysOk(s)
    ensures a.Host? && !a.e.Drain? ==> Next(s, a).dev.ac
    ensures s.dev.ac && !a.Timer? ==> Next(s, a).dev.ac
  {
    hide Live, TxOk, RxOk, WriterOk, ReaderOk, Irq;
    match a
    case Interrupt(env) => IrqHears(s.dev.(env := env));
    case _ =>
  }

  /** A call starts out waiting, and only a look at the count while it spins makes it give up. */
  lemma GivesUpOnlyThere(s: System, a: Action)
    requires SysOk(s)
    ensures a.StartWrite? && s.w.pc.WIdle? ==> !Next(s, a).w.gone
    ensures a.StartRead? && s.r.pc.RIdle? ==> !Next(s, a).r.gone
    ensures !s.w.gone && Next(s, a).w.gone ==> a.WriterStep? && s.w.pc.WSpinHost?
    ensures !s.r.gone && Next(s, a).r.gone ==> a.ReaderStep? && s.r.pc.RSpinHost?
  {
    hide Live, DevOk, WriterOk, ReaderOk, Irq, HwStep, TimerStep;
  }

  /** A spinning call that looks at the count gives up iff it has reached the time-out. */
  lemma LooksAtCount(s: System)
    requires SysOk(s)
    ensures s.w.pc.WSpinHost? && !s.w.gone ==> (Next(s, WriterStep).w.gone <==> s.dev.inactive >= s.dev.timeout)
    ensures s.r.pc.RSpinHost? && !s.r.gone ==> (Next(s, ReaderStep).r.gone <==> s.dev.inactive >= s.dev.timeout)
  {
    hide Live, TxOk, RxOk, WriterOk, ReaderOk, Irq, HwStep, TimerStep;
  }

  /**
   * A spinning call that looks at the count gives up exactly if the timer has since been called
   * as often as the time-out says without finding the host active; and never if there is no timer.
   */
  lemma GivesUpIff(s: System, acts: seq<Action>)
    requires SysOk(s) && s.dev.inactive == 0
    ensures SysOk(Run(s, acts))
    ensures var e, silent := Run(s, acts), s.dev.timeout <= INT_MAX - 2 && QuietTicks(s, acts) >= s.dev.timeout;
      && (e.w.pc.WSpinHost? && !e.w.gone ==> (Next(e, WriterStep).w.gone <==> silent))
      && (e.r.pc.RSpinHost? && !e.r.gone ==> (Next(e, ReaderStep).r.gone <==> silent))
  {
    RunOk(s, acts);
    TimerCounts(s, acts);
    LooksAtCount(Run(s, acts));
    hide Run, QuietTicks, Next, SysOk;
  }

  // ---------------------------------------------------------------- giving up on the host

  function Ticks(k: nat): seq<Action> { seq(k, i => Timer) }

  lemma {:induction false} SilentTicks(s: System, k: nat)
    requires SysOk(s) && !s.dev.ac && s.dev.inactive + k <= INT_MAX - 2
    ensures Run(s, Ticks(k)) == s.(dev := s.dev.(inactive := s.dev.inactive + k))
    decreases k
  {
    hide Live, SysOk;
    if k > 0 {
      NextOk(s, Timer);
      assert Ticks(k)[1..] == Ticks(k - 1);
      SilentTicks(Next(s, Timer), k - 1);
    }
  }

  /**
   * A writer that spins while nothing leaves the ring gives up exactly when the timer has seen the
   * host silent for the time-out.
   */
  lemma SpinEndsIff(s: System, k: nat)
    requires SysOk(s) && s.w.pc.WSpin? && s.w.out == s.dev.tx.out
    requires !s.dev.ac && s.dev.inactive + k <= INT_MAX - 2
    ensures SysOk(Run(s, Ticks(k)))
    ensures var e := Run(Run(s, Ticks(k)), [WriterStep, WriterStep]);
            e.w.pc.WCheck? && e.w.gone <==> s.dev.inactive + k >= s.dev.timeout
  {
    hide Live;
    RunOk(s, Ticks(k));
    SilentTicks(s, k);
    var m := Run(s, Ticks(k));
    NextOk(m, WriterStep);
    NextOk(Next(m, WriterStep), WriterStep);
    hide SysOk;
    assert [WriterStep, WriterStep][1..] == [WriterStep];
    assert [WriterStep][1..] == [];
  }

  /** The same for a reader that spins while nothing is stored in the ring. */
  lemma ReadSpinEndsIff(s: System, k: nat)
    requires SysOk(s) && s.r.pc.RSpin? && s.r.inn == s.dev.rx.inn
    requires !s.dev.ac && s.dev.inactive + k <= INT_MAX - 2
    ensures SysOk(Run(s, Ticks(k)))
    ensures var e := Run(Run(s, Ticks(k)), [ReaderStep, ReaderStep]);
            e.r.pc.RCheck? && e.r.gone <==> s.dev.inactive + k >= s.dev.timeout
  {
    hide Live;
    RunOk(s, Ticks(k));
    SilentTicks(s, k);
    var m := Run(s, Ticks(k));
    NextOk(m, ReaderStep);
    NextOk(Next(m, ReaderStep), ReaderStep);
    hide SysOk;
    assert [ReaderStep, ReaderStep][1..] == [ReaderStep];
    assert [ReaderStep][1..] == [];
  }
}
