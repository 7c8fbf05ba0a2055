// The JTAG UART device, its interrupt routine, and the two foreground routines that share two
// rings with it without a lock, as a machine whose steps may interleave in any order.
module JtagModel {
  import opened Words
  import opened Ring

  const BUF_LEN := 2048
  const FIFO_DEPTH := 64
  const THRESHOLD := 8
  const INT_MAX := 0x7FFF_FFFF
  const EIO := 5
  const EWOULDBLOCK := 11

  /** What the host side of the device may do at any moment. */
  datatype HwEvent =
    | Arrive(b: byte)  // the host pushes a byte into the receive FIFO
    | Pause            // the host pauses, which raises a read interrupt if bytes are waiting
    | Drain            // the host takes a byte from the transmit FIFO

  /** Transmit half: ring, interrupt enable (shadow and register), hardware FIFO and histories. */
  datatype Tx = Tx(
    buf: seq<byte>, inn: nat, out: nat, we: bool, weReg: bool,
    fifo: seq<byte>, got: seq<byte>, accepted: seq<byte>)
  {
    ghost predicate Wf() { |buf| == BUF_LEN && Shape(buf, inn, out) }

    function Waiting(): seq<byte>
      requires Shape(buf, inn, out)
    {
      Live(buf, inn, out)
    }

    /** Bytes that have left the ring: those with the host and those in the hardware FIFO. */
    function Removed(): nat { |got| + |fifo| }
  }

  /** Receive half, with everything the host has pushed and everything handed to readers. */
  datatype Rx = Rx(
    buf: seq<byte>, inn: nat, out: nat, re: bool, reReg: bool,
    fifo: seq<byte>, pause: bool, sent: seq<byte>, delivered: seq<byte>)
  {
    ghost predicate Wf() { |buf| == BUF_LEN && Shape(buf, inn, out) }

    function Waiting(): seq<byte>
      requires Shape(buf, inn, out)
    {
      Live(buf, inn, out)
    }

    /** Bytes that have ever been stored in the ring. */
    function Stored(): int { |sent| - |fifo| }
  }

  /** `env` holds the host events still to come, one batch before each register access. */
  datatype Dev = Dev(tx: Tx, rx: Rx, ac: bool, inactive: nat, timeout: nat, env: seq<seq<HwEvent>>)

  /** A control-register read, decoded. */
  datatype Control = Control(ri: bool, wi: bool, space: nat, ac: bool)

  // ---------------------------------------------------------------- what every step keeps

  ghost predicate TxOk(t: Tx) {
    && t.Wf()
    && |t.fifo| <= FIFO_DEPTH
    && t.got + t.fifo + t.Waiting() == t.accepted
  }

  ghost predicate RxOk(r: Rx) {
    && r.Wf()
    && |r.fifo| <= FIFO_DEPTH
    && (r.pause ==> r.fifo != [])
    && r.delivered + r.Waiting() + r.fifo == r.sent
  }

  /** The device and both rings are consistent and no byte has been lost or reordered. */
  ghost predicate DevOk(d: Dev) {
    TxOk(d.tx) && RxOk(d.rx) && d.tx.weReg == d.tx.we && d.rx.reReg == d.rx.re
  }

  ghost predicate RingFull(r: Rx)
    requires r.Wf()
  {
    |r.Waiting()| == BUF_LEN - 1
  }

  /** What a foreground routine can rely on across an interrupt: the transmit side only empties. */
  ghost predicate TxCalm(t0: Tx, t: Tx)
    requires t0.Wf() && t.Wf()
  {
    && t.buf == t0.buf && t.inn == t0.inn && t.accepted == t0.accepted
    && t0.Removed() <= t.Removed()
    && (t.we ==> t0.we)
    && (!t.we ==> !t0.we || t.Waiting() == [])
  }

  /** ... and the receive side only fills. */
  ghost predicate RxCalm(r0: Rx, r: Rx)
    requires r0.Wf() && r.Wf()
  {
    && r.out == r0.out && r.delivered == r0.delivered
    && r0.Waiting() <= r.Waiting()
    && (r.re ==> r0.re)
    && (!r.re ==> !r0.re || RingFull(r))
  }

  ghost predicate Calm(d0: Dev, d: Dev) {
    && DevOk(d0) && DevOk(d)
    && TxCalm(d0.tx, d.tx) && RxCalm(d0.rx, d.rx)
    && d.timeout == d0.timeout
  }

  lemma CalmTrans(a: Dev, b: Dev, c: Dev)
    requires Calm(a, b) && Calm(b, c)
    ensures Calm(a, c)
  {
    TxLengths(a.tx);
    TxLengths(b.tx);
    TxLengths(c.tx);
  }

  lemma TxLengths(t: Tx)
    requires TxOk(t)
    ensures |t.accepted| == t.Removed() + |t.Waiting()|
  {
    assert |t.got + t.fifo + t.Waiting()| == |t.accepted|;
  }

  lemma RxLengths(r: Rx)
    requires RxOk(r)
    ensures r.Stored() == |r.delivered| + |r.Waiting()|
  {
    assert |r.delivered + r.Waiting() + r.fifo| == |r.sent|;
  }

  // ---------------------------------------------------------------- hardware

  function HwStep(d: Dev, e: HwEvent): Dev {
    match e
    case Arrive(b) =>
      if |d.rx.fifo| < FIFO_DEPTH
      then d.(rx := d.rx.(fifo := d.rx.fifo + [b], sent := d.rx.sent + [b]), ac := true)
      else d.(ac := true)
    case Pause => d.(rx := d.rx.(pause := d.rx.pause || d.rx.fifo != []), ac := true)
    case Drain =>
      if d.tx.fifo == [] then d
      else d.(tx := d.tx.(fifo := d.tx.fifo[1..], got := d.tx.got + [d.tx.fifo[0]]))
  }

  /** The part of the state only the processor changes. */
  ghost predicate SameCpu(d0: Dev, d: Dev) {
    && d.tx.(fifo := d0.tx.fifo, got := d0.tx.got) == d0.tx
    && d.rx.(fifo := d0.rx.fifo, pause := d0.rx.pause, sent := d0.rx.sent) == d0.rx
    && d.inactive == d0.inactive && d.timeout == d0.timeout
  }

  function HwRun(d: Dev, es: seq<HwEvent>): (r: Dev)
    ensures SameCpu(d, r) && r.env == d.env
    decreases |es|
  {
    if es == [] then d else HwRun(HwStep(d, es[0]), es[1..])
  }

  /** The next batch of host events takes effect just before a register is accessed. */
  function Settle(d: Dev): (r: Dev)
    ensures SameCpu(d, r)
    ensures d.env == [] ==> r == d
    ensures d.env != [] ==> |r.env| < |d.env|
  {
    if d.env == [] then d else HwRun(d.(env := d.env[1..]), d.env[0])
  }

  lemma HwStepOk(d: Dev, e: HwEvent)
    requires TxOk(d.tx) && RxOk(d.rx)
    ensures var r := HwStep(d, e);
            && TxOk(r.tx) && RxOk(r.rx)
            && r.tx.Removed() == d.tx.Removed()
            && |r.tx.fifo| <= |d.tx.fifo|
            && |r.rx.fifo| >= |d.rx.fifo|
  {
    hide Live;
    match e
    case Arrive(b) =>
      assert d.rx.delivered + d.rx.Waiting() + (d.rx.fifo + [b]) == d.rx.sent + [b];
    case Pause =>
    case Drain =>
      if d.tx.fifo != [] { assert d.tx.fifo == [d.tx.fifo[0]] + d.tx.fifo[1..]; }
  }

  lemma {:induction false} HwRunOk(d: Dev, es: seq<HwEvent>)
    requires TxOk(d.tx) && RxOk(d.rx)
    ensures var r := HwRun(d, es);
            && TxOk(r.tx) && RxOk(r.rx)
            && r.tx.Removed() == d.tx.Removed()
            && |r.tx.fifo| <= |d.tx.fifo|
            && |r.rx.fifo| >= |d.rx.fifo|
    decreases |es|
  {
    hide HwStep, TxOk, RxOk;
    if es != [] {
      HwStepOk(d, es[0]);
      HwRunOk(HwStep(d, es[0]), es[1..]);
    }
  }

  lemma SettleOk(d: Dev)
    requires TxOk(d.tx) && RxOk(d.rx)
    ensures var r := Settle(d);
            && TxOk(r.tx) && RxOk(r.rx)
            && r.tx.Removed() == d.tx.Removed()
            && |r.tx.fifo| <= |d.tx.fifo|
            && |r.rx.fifo| >= |d.rx.fifo|
  {
    if d.env != [] { HwRunOk(d.(env := d.env[1..]), d.env[0]); }
  }

  function ControlOf(d: Dev): Control {
    Control(
      d.rx.reReg && (d.rx.pause || FIFO_DEPTH - |d.rx.fifo| <= THRESHOLD),
      d.tx.weReg && |d.tx.fifo| <= THRESHOLD,
      if |d.tx.fifo| <= FIFO_DEPTH then FIFO_DEPTH - |d.tx.fifo| else 0,
      d.ac)
  }

  /** A write to the control register loads both enable bits from the shadow word. */
  function WriteControl(d: Dev): Dev {
    var e := Settle(d);
    e.(tx := e.tx.(weReg := e.tx.we), rx := e.rx.(reReg := e.rx.re))
  }

  /** Reading the data register pops a byte if there is one; the result is what was popped. */
  function ReadData(d: Dev): (Dev, seq<byte>) {
    var e := Settle(d);
    if e.rx.fifo == [] then (e.(rx := e.rx.(pause := false)), [])
    else (e.(rx := e.rx.(fifo := e.rx.fifo[1..], pause := false)), [e.rx.fifo[0]])
  }

  /** A byte written to a full transmit FIFO is lost. */
  function WriteData(d: Dev, b: byte): Dev {
    var e := Settle(d);
    if |e.tx.fifo| < FIFO_DEPTH then e.(tx := e.tx.(fifo := e.tx.fifo + [b])) else e
  }

  // ---------------------------------------------------------------- interrupt routine

  /** Move bytes from the hardware to the ring; `avail` is RAVAIL of the last data read. */
  function RxFill(d: Dev, avail: bool): (Dev, bool)
    requires d.rx.Wf()
    decreases BUF_LEN - |d.rx.Waiting()|
  {
    if (d.rx.inn + 1) % BUF_LEN == d.rx.out then (d, avail)
    else
      var (e, popped) := ReadData(d);
      if popped == [] then (e, false)
      else
        Push(e.rx.buf, e.rx.inn, e.rx.out, popped[0]);
        RxFill(e.(rx := e.rx.(buf := e.rx.buf[e.rx.inn := popped[0]], inn := (e.rx.inn + 1) % BUF_LEN)),
               e.rx.fifo != [])
  }

  /** A control write followed by the dummy read. */
  function PostControl(d: Dev): Dev {
    Settle(WriteControl(d))
  }

  function RxService(d: Dev): Dev
    requires d.rx.Wf()
  {
    var (e, avail) := RxFill(d, true);
    if avail then PostControl(e.(rx := e.rx.(re := false))) else e
  }

  /** Move at most `space` bytes from the ring to the hardware; also what is left of `space`. */
  function TxSend(d: Dev, space: nat): (Dev, nat)
    requires d.tx.Wf()
    decreases space
  {
    if space > 0 && d.tx.out != d.tx.inn then
      var e := WriteData(d, d.tx.buf[d.tx.out]);
      TxSend(e.(tx := e.tx.(out := (e.tx.out + 1) % BUF_LEN)), space - 1)
    else (d, space)
  }

  function TxService(d: Dev, space: nat): Dev
    requires d.tx.Wf()
  {
    var (e, left) := TxSend(d, space);
    if left > 0 then PostControl(e.(tx := e.tx.(we := false))) else e
  }


  /** Hardware events leave every reliance intact. */
  lemma SettleCalm(d: Dev)
    requires DevOk(d)
    ensures Calm(d, Settle(d))
  {
    SettleOk(d);
  }

  /** One byte moved into the ring. */
  lemma StoreOk(d: Dev, b: byte)
    requires d.rx.Wf() && !RingFull(d.rx)
    requires TxOk(d.tx) && d.tx.weReg == d.tx.we && d.rx.reReg == d.rx.re
    requires |d.rx.fifo| <= FIFO_DEPTH && (d.rx.pause ==> d.rx.fifo != [])
    requires d.rx.delivered + d.rx.Waiting() + [b] + d.rx.fifo == d.rx.sent
    ensures var e := d.(rx := d.rx.(buf := d.rx.buf[d.rx.inn := b], inn := (d.rx.inn + 1) % BUF_LEN));
            DevOk(e) && e.rx.Waiting() == d.rx.Waiting() + [b]
  {
    Push(d.rx.buf, d.rx.inn, d.rx.out, b);
    assert d.rx.delivered + (d.rx.Waiting() + [b]) == d.rx.delivered + d.rx.Waiting() + [b];
  }

  lemma Regroup(a: seq<byte>, b: seq<byte>, c: seq<byte>, d: seq<byte>)
    ensures a + b + (c + d) == (a + (b + c)) + d
  {
  }

  /** One turn of the fill loop that finds a byte. */
  function FillOne(d: Dev): Dev
    requires d.rx.Wf()
  {
    var (e, popped) := ReadData(d);
    if popped == [] then e
    else e.(rx := e.rx.(buf := e.rx.buf[e.rx.inn := popped[0]], inn := (e.rx.inn + 1) % BUF_LEN))
  }

  lemma FillUnfolds(d: Dev, avail: bool)
    requires d.rx.Wf() && (d.rx.inn + 1) % BUF_LEN != d.rx.out
    ensures var f := FillOne(d);
            && f.rx.Wf()
            && (ReadData(d).1 == [] ==> f.rx.fifo == [] && RxFill(d, avail) == (f, false))
            && (ReadData(d).1 != [] ==> RxFill(d, avail) == RxFill(f, f.rx.fifo != []))
  {
  }

  lemma FillStops(d: Dev, avail: bool)
    requires d.rx.Wf()
    ensures (d.rx.inn + 1) % BUF_LEN == d.rx.out ==> RxFill(d, avail) == (d, avail)
  {
  }

  lemma FillOneGrows(d: Dev)
    requires d.rx.Wf() && (d.rx.inn + 1) % BUF_LEN != d.rx.out
    ensures FillOne(d).rx.Wf()
    ensures ReadData(d).1 != [] ==> |FillOne(d).rx.Waiting()| > |d.rx.Waiting()|
  {
    var (e, popped) := ReadData(d);
    if popped != [] { Push(e.rx.buf, e.rx.inn, e.rx.out, popped[0]); }
  }

  lemma FillOneOk(d: Dev)
    requires DevOk(d) && !RingFull(d.rx)
    ensures var f := FillOne(d);
            && DevOk(f) && f.inactive == d.inactive && f.timeout == d.timeout
            && f.tx == Settle(d).tx
            && RxCalm(d.rx, f.rx) && f.rx.re == d.rx.re
            && f.env == Settle(d).env
            && (ReadData(d).1 != [] ==> |f.rx.Waiting()| == |d.rx.Waiting()| + 1)
            && (ReadData(d).1 != [] ==> |f.rx.fifo| == |Settle(d).rx.fifo| - 1)
            && (ReadData(d).1 == [] ==> f.rx.fifo == [] && Settle(d).rx.fifo == [])
  {
    hide Live, Settle, TxOk;
    SettleOk(d);
    var s := Settle(d);
    var (e, popped) := ReadData(d);
    if popped != [] {
      assert s.rx.fifo == popped + e.rx.fifo;
      Regroup(s.rx.delivered, s.rx.Waiting(), popped, e.rx.fifo);
      StoreOk(e, popped[0]);
    }
  }

  lemma {:induction false} RxFillOk(d: Dev, avail: bool)
    requires DevOk(d)
    ensures var (e, more) := RxFill(d, avail);
            && DevOk(e) && e.inactive == d.inactive && e.timeout == d.timeout
            && RxCalm(d.rx, e.rx) && e.rx.re == d.rx.re
            && (more ==> RingFull(e.rx))
    ensures var e := RxFill(d, avail).0;
            && |e.env| <= |d.env| && |e.tx.fifo| <= |d.tx.fifo| && e.tx.Removed() == d.tx.Removed()
            && e.tx.(fifo := d.tx.fifo, got := d.tx.got) == d.tx
    ensures var (e, more) := RxFill(d, avail);
            d.env == [] ==>
                  && |e.rx.fifo| <= |d.rx.fifo|
                  && (e.rx.fifo == [] || RingFull(e.rx))
                  && (d.rx.fifo != [] && !RingFull(d.rx) ==> |e.rx.fifo| < |d.rx.fifo|)
                  && (d.rx.fifo != [] && RingFull(d.rx) ==> more == avail)
    decreases BUF_LEN - |d.rx.Waiting()|
  {
    hide Live, Settle, FillOne, ReadData;
    if (d.rx.inn + 1) % BUF_LEN != d.rx.out {
      FillOneOk(d);
      SettleOk(d);
      FillUnfolds(d, avail);
      if ReadData(d).1 != [] { RxFillOk(FillOne(d), FillOne(d).rx.fifo != []); }
    }
  }

  /** Writing the shadow word after one enable bit was cleared for a good reason. */
  lemma PostControlOk(d: Dev)
    requires TxOk(d.tx) && RxOk(d.rx)
    ensures var e := PostControl(d);
            && DevOk(e) && e.inactive == d.inactive && e.timeout == d.timeout
            && TxCalm(d.tx, e.tx) && RxCalm(d.rx, e.rx)
            && e.tx.we == d.tx.we && e.rx.re == d.rx.re
            && |e.env| <= |d.env| && |e.tx.fifo| <= |d.tx.fifo| && e.tx.Removed() == d.tx.Removed()
            && e.tx.out == d.tx.out
            && (d.env == [] ==> e == d.(tx := d.tx.(weReg := d.tx.we), rx := d.rx.(reReg := d.rx.re)))
  {
    SettleOk(d);
    var w := WriteControl(d);
    SettleOk(w);
  }

  lemma RxServiceOk(d: Dev)
    requires DevOk(d)
    ensures var e := RxService(d);
            && Calm(d, e) && e.inactive == d.inactive
            && |e.env| <= |d.env| && |e.tx.fifo| <= |d.tx.fifo| && e.tx.Removed() == d.tx.Removed()
            && e.tx.we == d.tx.we && e.tx.out == d.tx.out
            && (d.env == [] && d.rx.fifo != [] && d.rx.re ==> RxWork(e.rx) < RxWork(d.rx))
            && (d.env == [] ==> e.rx.fifo == [] || RingFull(e.rx))
  {
    hide Live;
    RxFillOk(d, true);
    var (e, avail) := RxFill(d, true);
    if avail { PostControlOk(e.(rx := e.rx.(re := false))); }
  }

  /** Interrupt work left on the receive side when the host is quiet. */
  ghost function RxWork(r: Rx): nat { |r.fifo| + if r.re then 1 else 0 }

  ghost function TxWork(t: Tx): nat
    requires t.Wf()
  {
    |t.Waiting()| + if t.we then 1 else 0
  }

  /** One turn of the send loop. */
  function SendOne(d: Dev): Dev
    requires d.tx.Wf()
  {
    var e := WriteData(d, d.tx.buf[d.tx.out]);
    e.(tx := e.tx.(out := (e.tx.out + 1) % BUF_LEN))
  }

  lemma SendUnfolds(d: Dev, space: nat)
    requires d.tx.Wf() && space > 0 && d.tx.out != d.tx.inn
    ensures SendOne(d).tx.Wf() && TxSend(d, space) == TxSend(SendOne(d), space - 1)
  {
  }

  lemma SendStops(d: Dev, space: nat)
    requires d.tx.Wf()
    ensures space == 0 || d.tx.out == d.tx.inn ==> TxSend(d, space) == (d, space)
  {
  }

  /** One byte moved from the ring into a FIFO with room. */
  lemma SendOneOk(d: Dev)
    requires DevOk(d) && d.tx.inn != d.tx.out && |d.tx.fifo| < FIFO_DEPTH
    ensures var f := SendOne(d);
            && TxOk(f.tx) && f.tx.weReg == f.tx.we
            && f.tx.(fifo := d.tx.fifo, got := d.tx.got, out := d.tx.out) == d.tx
            && f.tx.Waiting() == d.tx.Waiting()[1..]
            && f.tx.Removed() == d.tx.Removed() + 1
            && |f.tx.fifo| <= |d.tx.fifo| + 1
    ensures var f := SendOne(d);
            && f.rx == Settle(d).rx && f.env == Settle(d).env
            && f.inactive == d.inactive && f.timeout == d.timeout
  {
    hide Live;
    SettleOk(d);
    var s := Settle(d);
    Pop(d.tx.buf, d.tx.inn, d.tx.out);
    Regroup(s.tx.got, s.tx.fifo, [d.tx.buf[d.tx.out]], d.tx.Waiting()[1..]);
  }

  lemma {:induction false} TxSendOk(d: Dev, space: nat)
    requires DevOk(d) && |d.tx.fifo| + space <= FIFO_DEPTH
    ensures var (e, left) := TxSend(d, space);
            && TxOk(e.tx) && e.tx.weReg == e.tx.we
            && e.tx.(fifo := d.tx.fifo, got := d.tx.got, out := d.tx.out) == d.tx
            && (left > 0 ==> e.tx.Waiting() == [])
            && e.tx.Removed() + left == d.tx.Removed() + space
            && (space > 0 && d.tx.Waiting() != [] ==> |e.tx.Waiting()| < |d.tx.Waiting()|)
            && |e.tx.Waiting()| <= |d.tx.Waiting()|
    ensures var e := TxSend(d, space).0;
            && RxOk(e.rx) && e.rx.reReg == e.rx.re && RxCalm(d.rx, e.rx) && e.rx.re == d.rx.re
            && e.inactive == d.inactive && e.timeout == d.timeout
            && |e.env| <= |d.env|
            && (d.env == [] ==> e.rx == d.rx && e.env == [])
    decreases space
  {
    hide Live, Settle, SendOne;
    if space > 0 && d.tx.out != d.tx.inn {
      SendOneOk(d);
      SettleOk(d);
      SendUnfolds(d, space);
      TxSendOk(SendOne(d), space - 1);
    }
  }

  lemma TxServiceOk(d: Dev, space: nat)
    requires DevOk(d) && |d.tx.fifo| + space <= FIFO_DEPTH
    ensures var e := TxService(d, space);
            && Calm(d, e) && e.inactive == d.inactive
            && |e.env| <= |d.env|
            && (d.env == [] ==> e.rx == d.rx && e.env == [])
            && (space > 0 && d.tx.we ==> TxWork(e.tx) < TxWork(d.tx))
            && (space > 0 && d.tx.Waiting() != [] ==> |e.tx.Waiting()| < |d.tx.Waiting()|)
  {
    hide Live, TxSend, PostControl;
    TxSendOk(d, space);
    var (e, left) := TxSend(d, space);
    if left > 0 {
      PostControlOk(e.(tx := e.tx.(we := false)));
    }
  }

  /** One turn of the outer loop, for the control word `c` just read. */
  function Pass(d: Dev, c: Control): Dev
    requires DevOk(d)
  {
    RxServiceOk(d);
    var e := if c.ri then RxService(d) else d;
    if c.wi then TxService(e, c.space) else e
  }

  lemma PassOk(d: Dev)
    requires DevOk(d) && (ControlOf(d).ri || ControlOf(d).wi)
    ensures var e := Pass(d, ControlOf(d));
            && Calm(d, e) && e.inactive == d.inactive
            && |e.env| <= |d.env|
            && (d.env == [] ==> RxWork(e.rx) + TxWork(e.tx) < RxWork(d.rx) + TxWork(d.tx))
  {
    var c := ControlOf(d);
    RxServiceOk(d);
    var e := if c.ri then RxService(d) else d;
    TxLengths(d.tx);
    TxLengths(e.tx);
    if c.wi { TxServiceOk(e, c.space); CalmTrans(d, e, TxService(e, c.space)); }
  }

  /**
   * The interrupt routine: read the control register, serve what it reports, and repeat until
   * it reports nothing. It returns whatever finite burst of host events arrives meanwhile.
   */
  function Irq(d: Dev): Dev
    requires DevOk(d)
    decreases |d.env|, RxWork(d.rx) + TxWork(d.tx)
  {
    SettleCalm(d);
    var e := Settle(d);
    var c := ControlOf(e);
    if c.ri || c.wi then
      PassOk(e);
      Irq(Pass(e, c))
    else e
  }

  /** An interrupt keeps every byte and every reliance, and returns with nothing left to serve. */
  lemma {:induction false} IrqOk(d: Dev)
    requires DevOk(d)
    ensures Calm(d, Irq(d)) && Irq(d).inactive == d.inactive
    ensures !ControlOf(Irq(d)).ri && !ControlOf(Irq(d)).wi
    decreases |d.env|, RxWork(d.rx) + TxWork(d.tx)
  {
    SettleCalm(d);
    var e := Settle(d);
    var c := ControlOf(e);
    if c.ri || c.wi {
      PassOk(e);
      IrqOk(Pass(e, c));
      CalmTrans(d, e, Pass(e, c));
      CalmTrans(d, Pass(e, c), Irq(Pass(e, c)));
    }
  }

  /** With a quiet host, an interrupt that reports received bytes leaves none it could have stored. */
  lemma {:induction false} IrqEmptiesFifo(d: Dev)
    requires DevOk(d) && d.env == []
    requires ControlOf(d).ri || d.rx.fifo == [] || RingFull(d.rx)
    ensures DevOk(Irq(d)) && (Irq(d).rx.fifo == [] || RingFull(Irq(d).rx))
    decreases RxWork(d.rx) + TxWork(d.tx)
  {
    hide Live;
    var c := ControlOf(d);
    if c.ri || c.wi {
      PassOk(d);
      var e := if c.ri then RxService(d) else d;
      RxServiceOk(d);
      assert e.rx.fifo == [] || RingFull(e.rx);
      if c.wi { TxServiceOk(e, c.space); }
      IrqEmptiesFifo(Pass(d, c));
    }
  }

  /** An enabled transmit interrupt moves bytes whenever the FIFO is nearly empty. */
  lemma IrqSends(d: Dev)
    requires DevOk(d) && d.env == []
    requires d.tx.we && |d.tx.fifo| <= THRESHOLD && d.tx.Waiting() != []
    ensures DevOk(Irq(d)) && |Irq(d).tx.Waiting()| < |d.tx.Waiting()|
  {
    hide Live;
    var c := ControlOf(d);
    RxServiceOk(d);
    var e := if c.ri then RxService(d) else d;
    TxServiceOk(e, c.space);
    PassOk(d);
    IrqOk(Pass(d, c));
    TxLengths(Pass(d, c).tx);
    TxLengths(Irq(d).tx);
    TxLengths(d.tx);
  }

  lemma {:induction false} QuietFill(d: Dev, avail: bool)
    requires DevOk(d) && d.env == []
    ensures RxFill(d, avail).0.rx.sent == d.rx.sent && RxFill(d, avail).0.env == []
    decreases BUF_LEN - |d.rx.Waiting()|
  {
    if (d.rx.inn + 1) % BUF_LEN != d.rx.out {
      FillOneOk(d);
      FillUnfolds(d, avail);
      assert FillOne(d).rx.sent == d.rx.sent;
      hide Live, FillOne, ReadData, RxFill;
      if ReadData(d).1 != [] { QuietFill(FillOne(d), FillOne(d).rx.fifo != []); }
    }
  }

  lemma QuietService(d: Dev)
    requires DevOk(d) && d.env == []
    ensures RxService(d).rx.sent == d.rx.sent && RxService(d).env == []
  {
    hide Live, RxFill, PostControl;
    RxFillOk(d, true);
    QuietFill(d, true);
    var (e, avail) := RxFill(d, true);
    if avail { PostControlOk(e.(rx := e.rx.(re := false))); }
  }

  /** With a quiet host, an interrupt moves bytes but receives none. */
  lemma {:induction false} QuietIrq(d: Dev)
    requires DevOk(d) && d.env == []
    ensures Irq(d).rx.sent == d.rx.sent && Irq(d).env == []
    decreases RxWork(d.rx) + TxWork(d.tx)
  {
    hide Live, RxService, TxService;
    var c := ControlOf(d);
    if c.ri || c.wi {
      PassOk(d);
      QuietService(d);
      RxServiceOk(d);
      var e := if c.ri then RxService(d) else d;
      if c.wi { TxServiceOk(e, c.space); }
      QuietIrq(Pass(d, c));
    }
  }

  lemma {:induction false} HwRunHears(d: Dev, es: seq<HwEvent>)
    ensures d.ac ==> HwRun(d, es).ac
    decreases |es|
  {
    if es != [] { HwRunHears(HwStep(d, es[0]), es[1..]); }
  }

  lemma SettleHears(d: Dev)
    ensures d.ac ==> Settle(d).ac
  {
    if d.env != [] { HwRunHears(d.(env := d.env[1..]), d.env[0]); }
  }

  lemma {:induction false} FillHears(d: Dev, avail: bool)
    requires DevOk(d)
    ensures d.ac ==> RxFill(d, avail).0.ac
    decreases BUF_LEN - |d.rx.Waiting()|
  {
    if (d.rx.inn + 1) % BUF_LEN != d.rx.out {
      FillOneOk(d);
      FillUnfolds(d, avail);
      SettleHears(d);
      assert FillOne(d).ac == Settle(d).ac;
      hide Live, FillOne, ReadData, RxFill;
      if ReadData(d).1 != [] { FillHears(FillOne(d), FillOne(d).rx.fifo != []); }
    }
  }

  lemma {:induction false} SendHears(d: Dev, space: nat)
    requires DevOk(d) && |d.tx.fifo| + space <= FIFO_DEPTH
    ensures d.ac ==> TxSend(d, space).0.ac
    decreases space
  {
    if space > 0 && d.tx.out != d.tx.inn {
      SendOneOk(d);
      SettleOk(d);
      SendUnfolds(d, space);
      SettleHears(d);
      assert SendOne(d).ac == Settle(d).ac;
      hide Live, Settle, SendOne;
      SendHears(SendOne(d), space - 1);
    }
  }

  lemma PostHears(d: Dev)
    ensures d.ac ==> PostControl(d).ac
  {
    SettleHears(d);
    SettleHears(WriteControl(d));
  }

  lemma ServiceHears(d: Dev, c: Control)
    requires DevOk(d) && c == ControlOf(d)
    ensures d.ac ==> Pass(d, c).ac
  {
    hide Live, Settle, RxFill, TxSend, PostControl;
    RxServiceOk(d);
    RxFillOk(d, true);
    FillHears(d, true);
    var (f, more) := RxFill(d, true);
    PostHears(f.(rx := f.rx.(re := false)));
    var e := if c.ri then RxService(d) else d;
    assert d.ac ==> e.ac;
    if c.wi {
      SendHears(e, c.space);
      var (g, left) := TxSend(e, c.space);
      PostHears(g.(tx := g.tx.(we := false)));
    }
  }

  /** The routine never clears the activity bit: only the timer does. */
  lemma {:induction false} IrqHears(d: Dev)
    requires DevOk(d)
    ensures d.ac ==> Irq(d).ac
    decreases |d.env|, RxWork(d.rx) + TxWork(d.tx)
  {
    SettleCalm(d);
    SettleHears(d);
    var e := Settle(d);
    var c := ControlOf(e);
    if c.ri || c.wi {
      PassOk(e);
      ServiceHears(e, c);
      hide Pass;
      IrqHears(Pass(e, c));
    }
  }

  /** What an interrupt leaves on each side, in terms of the indices. */
  lemma IrqLeaves(d: Dev)
    requires DevOk(d)
    ensures var e := Irq(d);
            && DevOk(e)
            && (e.tx.we ==> |e.tx.fifo| > THRESHOLD)
            && (e.rx.re ==> |e.rx.fifo| < FIFO_DEPTH - THRESHOLD)
  {
    hide Live, TxOk, RxOk, Irq;
    IrqOk(d);
  }
}
