// The JTAG UART driver as written: one state structure updated in place by an interrupt routine,
// a timer callback and the foreground routines. Everything it does is a run of the machine.
module JtagDriver {
  import opened Words
  import opened Ring
  import opened JtagModel
  import opened JtagSystem
  import opened JtagTheorems
  import opened JtagCalls
  import opened Schedules

  datatype Outcome = Done(value: int) | StillWaiting

  /** The device behind the four registers, with the host events still to come. */
  class Device {
    var readEnable: bool
    var writeEnable: bool
    var rxFifo: seq<byte>
    var txFifo: seq<byte>
    var pause: bool
    var activity: bool
    var env: seq<seq<HwEvent>>
    ghost var sent: seq<byte>
    ghost var got: seq<byte>

    /** The machine's state, for the given processor side. */
    ghost function View(cpu: Dev): Dev
      reads this
    {
      cpu.(tx := cpu.tx.(weReg := writeEnable, fifo := txFifo, got := got),
           rx := cpu.rx.(reReg := readEnable, fifo := rxFifo, pause := pause, sent := sent),
           ac := activity, env := env)
    }

    /** The host acts just before a register access. */
    method HostActs(ghost cpu: Dev)
      modifies this
      ensures View(cpu) == Settle(old(View(cpu)))
    {
      if env != [] {
        var batch := env[0];
        env := env[1..];
        label start:
        var i := 0;
        while i < |batch|
          invariant i <= |batch|
          invariant HwRun(old@start(View(cpu)), batch) == HwRun(View(cpu), batch[i..])
        {
          HostAct(batch[i], cpu);
          i := i + 1;
        }
      }
    }

    method HostAct(e: HwEvent, ghost cpu: Dev)
      modifies this
      ensures View(cpu) == HwStep(old(View(cpu)), e)
    {
      match e
      case Arrive(b) =>
        if |rxFifo| < FIFO_DEPTH { rxFifo, sent := rxFifo + [b], sent + [b]; }
        activity := true;
      case Pause =>
        pause, activity := pause || rxFifo != [], true;
      case Drain =>
        if txFifo != [] { got, txFifo := got + [txFifo[0]], txFifo[1..]; }
    }

    method ReadControl(ghost cpu: Dev) returns (c: Control)
      modifies this
      ensures View(cpu) == Settle(old(View(cpu))) && c == ControlOf(View(cpu))
    {
      HostActs(cpu);
      c := Control(
        readEnable && (pause || FIFO_DEPTH - |rxFifo| <= THRESHOLD),
        writeEnable && |txFifo| <= THRESHOLD,
        if |txFifo| <= FIFO_DEPTH then FIFO_DEPTH - |txFifo| else 0,
        activity);
    }

    method WriteControl(re: bool, we: bool, ghost cpu: Dev)
      requires cpu.rx.re == re && cpu.tx.we == we
      modifies this
      ensures View(cpu) == JtagModel.WriteControl(old(View(cpu)))
    {
      HostActs(cpu);
      readEnable, writeEnable := re, we;
    }

    method ReadData(ghost cpu: Dev) returns (rvalid: bool, data: byte, ravail: nat)
      modifies this
      ensures View(cpu) == JtagModel.ReadData(old(View(cpu))).0
      ensures JtagModel.ReadData(old(View(cpu))).1 == if rvalid then [data] else []
      ensures ravail == |rxFifo| && (!rvalid ==> ravail == 0)
    {
      HostActs(cpu);
      rvalid, data := rxFifo != [], 0;
      if rvalid {
        data := rxFifo[0];
        rxFifo := rxFifo[1..];
      }
      pause, ravail := false, |rxFifo|;
    }

    method WriteData(b: byte, ghost cpu: Dev)
      modifies this
      ensures View(cpu) == JtagModel.WriteData(old(View(cpu)), b)
    {
      HostActs(cpu);
      if |txFifo| < FIFO_DEPTH { txFifo := txFifo + [b]; }
    }

    method WriteControlAndClearActivity(re: bool, we: bool)
      modifies this
      ensures readEnable == re && writeEnable == we && !activity
      ensures rxFifo == old(rxFifo) && txFifo == old(txFifo) && pause == old(pause) && env == old(env)
      ensures sent == old(sent) && got == old(got)
    {
      readEnable, writeEnable, activity := re, we, false;
    }
  }

  /** The machine run that accompanies a driver object. */
  class Trace {
    ghost var born: System
    ghost var history: seq<Action>
    ghost var sys: System

    ghost predicate Sound()
      reads this
    {
      SysOk(born) && SysOk(sys) && sys == Run(born, history)
    }

    ghost function Now(): Moment
      reads this
    {
      Moment(sys, history)
    }

    ghost method Begin(s: System)
      requires SysOk(s)
      modifies this
      ensures Sound() && sys == s && born == s && history == []
    {
      born, history, sys := s, [], s;
    }

    ghost method Log(a: Action)
      requires Sound()
      modifies this`history, this`sys
      ensures Sound() && sys == Next(old(sys), a) && history == old(history) + [a]
      ensures SysOk(old(sys)) && Now() == After(old(Now()), a)
    {
      NextOk(sys, a);
      RunSnoc(born, history, a);
      history, sys := history + [a], Next(sys, a);
    }
  }

  class JtagUart {
    var rxIn: nat
    var rxOut: nat
    var txIn: nat
    var txOut: nat
    const rxBuf: array<byte>
    const txBuf: array<byte>
    var readEnable: bool
    var writeEnable: bool
    var hostInactive: nat
    var timeout: nat
    const device: Device
    ghost const trace: Trace

    ghost predicate Shaped()
      reads this
    {
      && rxBuf.Length == BUF_LEN && txBuf.Length == BUF_LEN && rxBuf != txBuf
      && rxIn < BUF_LEN && rxOut < BUF_LEN && txIn < BUF_LEN && txOut < BUF_LEN
    }

    ghost function Cpu(): Dev
      reads this, rxBuf, txBuf, trace
    {
      Dev(Tx(txBuf[..], txIn, txOut, writeEnable, false, [], [], trace.sys.dev.tx.accepted),
          Rx(rxBuf[..], rxIn, rxOut, readEnable, false, [], false, [], trace.sys.dev.rx.delivered),
          false, hostInactive, timeout, [])
    }

    ghost function Abs(): Dev
      reads this, device, rxBuf, txBuf, trace
    {
      device.View(Cpu())
    }

    /** The state is consistent and is the outcome of the recorded run from initialisation. */
    ghost predicate Valid()
      reads this, device, rxBuf, txBuf, trace
    {
      && Shaped() && device.env == []
      && trace.Sound() && trace.sys.dev == Abs()
    }

    /** The statically initialised state of one device instance. */
    constructor (device: Device)
      ensures Shaped() && this.device == device && fresh(rxBuf) && fresh(txBuf) && fresh(trace)
      ensures rxIn == 0 && rxOut == 0 && txIn == 0 && txOut == 0
      ensures !readEnable && !writeEnable && hostInactive == 0 && timeout == DEFAULT_TIMEOUT
    {
      rxIn, rxOut, txIn, txOut := 0, 0, 0, 0;
      rxBuf := new byte[BUF_LEN](_ => 0);
      txBuf := new byte[BUF_LEN](_ => 0);
      readEnable, writeEnable := false, false;
      hostInactive := 0;
      timeout := DEFAULT_TIMEOUT;
      this.device := device;
      trace := new Trace;
    }

    /** Initialisation: receive interrupts on, and no timeout if the timer could not be started. */
    method Init(alarmStarted: bool)
      requires Shaped() && rxIn == 0 && rxOut == 0 && txIn == 0 && txOut == 0 && !writeEnable
      requires timeout == DEFAULT_TIMEOUT
      requires device.txFifo == [] && device.got == [] && device.sent == device.rxFifo && device.env == []
      requires |device.rxFifo| <= FIFO_DEPTH && (device.pause ==> device.rxFifo != [])
      modifies this, device, trace
      ensures Valid()
      ensures trace.history == [] && trace.sys.w.pc.WIdle? && trace.sys.r.pc.RIdle?
      ensures timeout == if alarmStarted then DEFAULT_TIMEOUT else INT_MAX
    {
      hide HwRun, SysOk, Run, Live, DevOk;
      readEnable := true;
      device.WriteControl(readEnable, writeEnable, Cpu());
      hostInactive := 0;
      if !alarmStarted { timeout := INT_MAX; }
      BeginTrace();
    }

    /** The recorded run starts here. */
    ghost method BeginTrace()
      requires Shaped() && rxIn == 0 && rxOut == 0 && txIn == 0 && txOut == 0 && !writeEnable && readEnable
      requires device.readEnable && !device.writeEnable && hostInactive == 0
      requires device.txFifo == [] && device.got == [] && device.sent == device.rxFifo && device.env == []
      requires |device.rxFifo| <= FIFO_DEPTH && (device.pause ==> device.rxFifo != [])
      modifies trace
      ensures Valid() && trace.history == [] && trace.sys.w.pc.WIdle? && trace.sys.r.pc.RIdle?
    {
      hide HwRun, SysOk, Run, Live, DevOk;
      InitialOk(rxBuf[..], txBuf[..], device.rxFifo, device.pause, device.activity, timeout);
      ghost var s := Initial(rxBuf[..], txBuf[..], device.rxFifo, device.pause, device.activity, timeout);
      trace.Begin(s);
    }

    // ------------------------------------------------------------ interrupt routine

    /** The interrupt routine does to the state exactly what the machine's interrupt does. */
    method Interrupt()
      requires Shaped() && DevOk(Abs())
      modifies this, device, rxBuf
      ensures Shaped() && Abs() == Irq(old(Abs()))
    {
      hide Live, Settle, TxWork, RxWork, Irq, Pass, DevOk, ControlOf;
      ghost var goal := Irq(Abs());
      while true
        invariant Shaped() && DevOk(Abs()) && Irq(Abs()) == goal
        decreases |device.env|, RxWork(Abs().rx) + TxWork(Abs().tx)
      {
        IrqUnfolds(Abs());
        var control := device.ReadControl(Cpu());
        if !control.ri && !control.wi { break; }
        Serve(control);
      }
    }

    /** Serve what one read of the control register reports. */
    method Serve(control: Control)
      requires Shaped() && DevOk(Abs()) && control == ControlOf(Abs()) && (control.ri || control.wi)
      modifies this, device, rxBuf
      ensures Shaped() && Abs() == Pass(old(Abs()), control)
    {
      hide Live, Settle, RxService, TxService;
      RxServiceOk(Abs());
      if control.ri { ReceiveInterrupt(); }
      if control.wi { TransmitInterrupt(control.space); }
    }

    method ReceiveInterrupt()
      requires Shaped() && DevOk(Abs())
      modifies this, device, rxBuf
      ensures Shaped() && Abs() == RxService(old(Abs()))
    {
      hide Live, Settle, DevOk, ReadData, FillOne, RxFill, PostControl;
      var more := true;
      ghost var goal := RxFill(Abs(), true);
      while true
        invariant Shaped() && RxFill(Abs(), more) == goal
        decreases BUF_LEN - |Abs().rx.Waiting()|
      {
        var next := (rxIn + 1) % BUF_LEN;
        FillStops(Abs(), more);
        if next == rxOut { break; }
        ghost var d := Abs();
        var rvalid, ravail := ReceiveByte();
        FillUnfolds(d, more);
        more := ravail != 0;
        if !rvalid { break; }
      }
      assert goal == (Abs(), more);
      if more {
        readEnable := false;
        PostControlReg();
      }
    }

    /** Take a byte from the device, if it has one, and store it. */
    method ReceiveByte() returns (rvalid: bool, ravail: nat)
      requires Shaped() && (rxIn + 1) % BUF_LEN != rxOut
      modifies this, device, rxBuf
      ensures Shaped() && Abs() == FillOne(old(Abs()))
      ensures rvalid <==> ReadData(old(Abs())).1 != []
      ensures ravail == |Abs().rx.fifo|
      ensures rvalid ==> |Abs().rx.Waiting()| > |old(Abs()).rx.Waiting()|
    {
      hide Live, Settle;
      var data;
      ghost var d := Abs();
      rvalid, data, ravail := device.ReadData(Cpu());
      FillOneGrows(d);
      if rvalid {
        ghost var e := Abs();
        rxBuf[rxIn] := data;
        rxIn := (rxIn + 1) % BUF_LEN;
        assert rxBuf[..] == e.rx.buf[e.rx.inn := data];
      }
    }

    /** A control write followed by the dummy read. */
    method PostControlReg()
      requires Shaped()
      modifies device
      ensures Shaped() && Abs() == PostControl(old(Abs()))
    {
      device.WriteControl(readEnable, writeEnable, Cpu());
      var _ := device.ReadControl(Cpu());
    }

    method TransmitInterrupt(wspace: nat)
      requires Shaped() && DevOk(Abs())
      modifies this, device
      ensures Shaped() && Abs() == TxService(old(Abs()), wspace)
    {
      hide Live, Settle, DevOk, SendOne, TxSend, PostControl;
      var space := wspace;
      ghost var goal := TxSend(Abs(), space);
      while space > 0 && txOut != txIn
        invariant Shaped() && TxSend(Abs(), space) == goal
      {
        SendUnfolds(Abs(), space);
        SendByte();
        space := space - 1;
      }
      SendStops(Abs(), space);
      if space > 0 {
        writeEnable := false;
        PostControlReg();
      }
    }

    method SendByte()
      requires Shaped() && txOut != txIn
      modifies this, device
      ensures Shaped() && Abs() == SendOne(old(Abs()))
    {
      hide Live, Settle;
      device.WriteData(txBuf[txOut], Cpu());
      txOut := (txOut + 1) % BUF_LEN;
    }

    /** The once-a-second host check. */
    method Timeout()
      requires Shaped()
      modifies this`hostInactive, device
      ensures Shaped() && Abs() == TimerStep(old(Abs()))
    {
      if device.activity {
        device.WriteControlAndClearActivity(readEnable, writeEnable);
        hostInactive := 0;
      } else if hostInactive < INT_MAX - 2 {
        hostInactive := hostInactive + 1;
      }
    }

    /** Over the whole history of an object the count is that of silent timer calls in a row. */
    lemma CountIsSilence()
      requires Valid() && trace.born.dev.inactive == 0
      ensures SysOk(trace.born) && hostInactive == Min(QuietTicks(trace.born, trace.history), INT_MAX - 2)
    {
      TimerCounts(trace.born, trace.history);
    }

    // ------------------------------------------------------------ foreground routines

    /** What other contexts do between two statements of a foreground routine. */
    method Preempt(acts: seq<Action>)
      requires Valid() && forall i :: 0 <= i < |acts| ==> IsPreemption(acts[i])
      modifies this, device, rxBuf, trace
      ensures Valid() && Preempted(old(trace.Now()), trace.Now(), acts)
    {
      hide Valid, Preempted, IsPreemption;
      var i := 0;
      NotPreempted(trace.Now());
      while i < |acts|
        invariant i <= |acts| && Valid() && Preempted(old(trace.Now()), trace.Now(), acts[..i])
      {
        ghost var m := trace.Now();
        PreemptOnce(acts[i]);
        PreemptedMore(old(trace.Now()), m, trace.Now(), acts[..i], acts[i]);
        assert acts[..i] + [acts[i]] == acts[..i + 1];
        i := i + 1;
      }
      assert acts[..i] == acts;
    }

    method PreemptOnce(a: Action)
      requires Valid() && IsPreemption(a)
      modifies this, device, rxBuf, trace
      ensures Valid() && Preempted(old(trace.Now()), trace.Now(), [a])
    {
      hide Live, WriterOk, ReaderOk, Run, TxOk, RxOk, Settle, HwRun, Preempted, Irq;
      ghost var m := trace.Now();
      OthersLeaveStreams(trace.sys, a);
      match a {
        case Host(e) => device.HostAct(e, Cpu());
        case Interrupt(env) => InterruptDuring(env);
        case Timer => Timeout();
      }
      trace.Log(a);
      PreemptedOnce(m, a);
    }

    /** An interrupt, while the given host events happen. */
    method InterruptDuring(env: seq<seq<HwEvent>>)
      requires Shaped() && DevOk(Abs()) && device.env == []
      modifies this, device, rxBuf
      ensures Shaped() && Abs() == Irq(old(Abs()).(env := env)).(env := [])
      ensures txIn == old(txIn) && rxOut == old(rxOut)
    {
      hide Live, TxOk, RxOk, Settle, HwRun, Irq;
      device.env := env;
      IrqOk(Abs());
      Interrupt();
      device.env := [];
    }

    /** The next turn of the schedule; once it is exhausted nothing else runs. */
    method PreemptNext(sched: seq<seq<Action>>, turn: nat) returns (next: nat)
      requires Valid() && IsSchedule(sched)
      modifies this, device, rxBuf, trace
      ensures Valid() && Preempted(old(trace.Now()), trace.Now(), Slot(sched, turn)) && next == turn + 1
      ensures old(trace.history) <= trace.history
      ensures trace.sys.w == old(trace.sys.w) && trace.sys.r == old(trace.sys.r)
      ensures trace.sys.dev.tx.accepted == old(trace.sys.dev.tx.accepted)
      ensures trace.sys.dev.rx.delivered == old(trace.sys.dev.rx.delivered)
      ensures turn >= |sched| ==> trace.sys == old(trace.sys)
    {
      hide Valid, Own, Others;
      NotPreempted(trace.Now());
      if turn < |sched| { Preempt(sched[turn]); }
      next := turn + 1;
    }

    // -- writer. Each access is preceded by a possible preemption.

    /** The write call in progress moved on and everything stayed consistent. */
    twostate predicate WriterMoved()
      reads this, device, rxBuf, txBuf, trace
    {
      && Valid() && old(trace.history) <= trace.history && trace.sys.r == old(trace.sys.r)
      && SameCall(old(trace.sys.w), trace.sys.w)
    }

    /** `in = sp->tx_in` */
    method ReadTxIn(sched: seq<seq<Action>>, turn: nat) returns (inn: nat, next: nat)
      requires Valid() && IsSchedule(sched) && trace.sys.w.pc.WSnapIn? && trace.sys.w.ptr < |trace.sys.w.data|
      modifies this, device, rxBuf, trace
      ensures WriterMoved() && next == turn + 1 && trace.sys.w == old(trace.sys.w).(inn := inn, pc := WSnapOut)
      ensures trace.sys.dev.tx.accepted == old(trace.sys.dev.tx.accepted)
      ensures WriterWent(old(trace.Now()), trace.Now(), sched, turn, next)
    {
      hide Live, Run, SysOk, Preempted, WriterWent, Own, Others, Slot;
      next := PreemptNext(sched, turn);
      ghost var m := trace.Now();
      inn := txIn;
      trace.Log(WriterStep);
      WriterWentOne(old(trace.Now()), m, sched, turn);
    }

    /** `out = sp->tx_out` and the room it leaves at `inn`. */
    method ReadTxOut(inn: nat, sched: seq<seq<Action>>, turn: nat) returns (out: nat, n: nat, next: nat)
      requires Valid() && IsSchedule(sched) && trace.sys.w.pc.WSnapOut? && trace.sys.w.inn == inn
      modifies this, device, rxBuf, trace
      ensures WriterMoved() && next == turn + 1 && trace.sys.w.ptr == old(trace.sys.w.ptr) && trace.sys.w.out == out
      ensures n == 0 ==> trace.sys.w.pc.WKick?
      ensures n > 0 ==> trace.sys.w.pc.WCopy? && trace.sys.w.k == 0 && trace.sys.w.inn == inn
                        && trace.sys.w.n == Min(n, |trace.sys.w.data| - trace.sys.w.ptr)
      ensures trace.sys.dev.tx.accepted == old(trace.sys.dev.tx.accepted)
      ensures WriterWent(old(trace.Now()), trace.Now(), sched, turn, next)
    {
      hide Live, Run, SysOk, Next, Preempted, WriterWent, Own, Others, Slot;
      next := PreemptNext(sched, turn);
      ghost var m := trace.Now();
      SnapshotInBounds(trace.sys);
      TxOutIsStep(trace.sys);
      out := txOut;
      n := if inn < out then out - 1 - inn else if out > 0 then BUF_LEN - inn else BUF_LEN - 1 - inn;
      assert n == Room(inn, out);
      hide Room, Min;
      trace.Log(WriterStep);
      WriterWentOne(old(trace.Now()), m, sched, turn);
    }

    /** One byte of `memcpy(sp->tx_buf + in, ptr, n)`. */
    method CopyByte(inn: nat, k: nat, b: byte, sched: seq<seq<Action>>, turn: nat) returns (next: nat)
      requires Valid() && IsSchedule(sched)
      requires trace.sys.w.pc.WCopy? && trace.sys.w.inn == inn && trace.sys.w.k == k < trace.sys.w.n
      requires trace.sys.w.ptr + k < |trace.sys.w.data| && b == trace.sys.w.data[trace.sys.w.ptr + k]
      modifies this, device, rxBuf, txBuf, trace
      ensures WriterMoved() && next == turn + 1 && trace.sys.w == old(trace.sys.w).(k := k + 1)
      ensures trace.sys.dev.tx.accepted == old(trace.sys.dev.tx.accepted)
      ensures WriterWent(old(trace.Now()), trace.Now(), sched, turn, next)
    {
      hide Valid, IsSchedule, Preempted, WriterWent, Own, Others, Slot;
      next := PreemptNext(sched, turn);
      ghost var m := trace.Now();
      CopyByteNow(inn, k, b);
      WriterWentOne(old(trace.Now()), m, sched, turn);
    }

    /** The copy itself. */
    method CopyByteNow(inn: nat, k: nat, b: byte)
      requires Valid()
      requires trace.sys.w.pc.WCopy? && trace.sys.w.inn == inn && trace.sys.w.k == k < trace.sys.w.n
      requires trace.sys.w.ptr + k < |trace.sys.w.data| && b == trace.sys.w.data[trace.sys.w.ptr + k]
      modifies txBuf, trace
      ensures WriterMoved() && trace.sys.w == old(trace.sys.w).(k := k + 1)
      ensures trace.sys.dev.tx.accepted == old(trace.sys.dev.tx.accepted)
      ensures SysOk(old(trace.sys)) && trace.Now() == After(old(trace.Now()), WriterStep)
    {
      hide Live, Run, SysOk;
      CopyingInBounds(trace.sys);
      ghost var t := trace.sys.dev.tx;
      txBuf[inn + k] := b;
      assert txBuf[..] == t.buf[inn + k := b];
      trace.Log(WriterStep);
    }

    /** `sp->tx_in = (in + n) % BUF_LEN`: the copied block is accepted. */
    method Publish(inn: nat, n: nat, sched: seq<seq<Action>>, turn: nat) returns (next: nat)
      requires Valid() && IsSchedule(sched)
      requires trace.sys.w.pc.WCopy? && trace.sys.w.inn == inn && trace.sys.w.k == n == trace.sys.w.n
      modifies this, device, rxBuf, trace
      ensures WriterMoved() && next == turn + 1 && trace.sys.w.pc.WSnapIn?
      ensures var w := old(trace.sys.w);
              && trace.sys.w.ptr == w.ptr + n <= |w.data|
              && trace.sys.dev.tx.accepted == old(trace.sys.dev.tx.accepted) + w.data[w.ptr..w.ptr + n]
      ensures WriterWent(old(trace.Now()), trace.Now(), sched, turn, next)
    {
      hide Valid, IsSchedule, Preempted, WriterWent, Own, Others, Slot;
      next := PreemptNext(sched, turn);
      ghost var m := trace.Now();
      PublishNow(inn, n);
      WriterWentOne(old(trace.Now()), m, sched, turn);
    }

    /** The publication itself. */
    method PublishNow(inn: nat, n: nat)
      requires Valid() && trace.sys.w.pc.WCopy? && trace.sys.w.inn == inn && trace.sys.w.k == n == trace.sys.w.n
      modifies this`txIn, trace
      ensures WriterMoved() && trace.sys.w.pc.WSnapIn?
      ensures var w := old(trace.sys.w);
              && trace.sys.w.ptr == w.ptr + n <= |w.data|
              && trace.sys.dev.tx.accepted == old(trace.sys.dev.tx.accepted) + w.data[w.ptr..w.ptr + n]
      ensures SysOk(old(trace.sys)) && trace.Now() == After(old(trace.Now()), WriterStep)
    {
      hide Live, Run, SysOk;
      CopyingInBounds(trace.sys);
      txIn := (inn + n) % BUF_LEN;
      trace.Log(WriterStep);
    }

    /**
     * The writer's inner loop: copy into the ring a block at a time until the data is all
     * accepted or a snapshot shows the ring full.
     */
    method CopyIn(data: seq<byte>, start: nat, sched: seq<seq<Action>>, first: nat)
      returns (ptr: nat, out: nat, turn: nat)
      requires Valid() && IsSchedule(sched)
      requires trace.sys.w.pc.WSnapIn? && trace.sys.w.data == data && trace.sys.w.ptr == start <= |data|
      modifies this, device, rxBuf, txBuf, trace
      ensures WriterMoved() && turn >= first && trace.sys.w.pc.WKick? && trace.sys.w.ptr == ptr
      ensures start <= ptr <= |data| && (ptr < |data| ==> trace.sys.w.out == out)
      ensures trace.sys.dev.tx.accepted == old(trace.sys.dev.tx.accepted) + data[start..ptr]
      ensures WriterWent(old(trace.Now()), trace.Now(), sched, first, turn)
    {
      hide Valid, IsSchedule, WriterWent;
      ptr, out, turn := start, 0, first;
      var full := false;
      WriterWentNowhere(trace.Now(), sched, first);
      while ptr < |data| && !full
        invariant WriterMoved() && turn >= first && start <= ptr <= |data| && trace.sys.w.ptr == ptr
        invariant if full then trace.sys.w.pc.WKick? && trace.sys.w.out == out else trace.sys.w.pc.WSnapIn?
        invariant trace.sys.dev.tx.accepted == old(trace.sys.dev.tx.accepted) + data[start..ptr]
        invariant WriterWent(old(trace.Now()), trace.Now(), sched, first, turn)
        decreases |data| - ptr, !full
      {
        var n;
        ghost var m, was := trace.Now(), turn;
        n, out, turn := CopyOneBlock(data, ptr, sched, turn);
        WriterWentOn(old(trace.Now()), m, trace.Now(), sched, first, was, turn);
        assert data[start..ptr + n] == data[start..ptr] + data[ptr..ptr + n];
        ptr, full := ptr + n, n == 0;
      }
      if !full {
        ghost var m := trace.Now();
        LeaveCopyLoop();
        WriterWentStill(m, sched, turn);
        WriterWentOn(old(trace.Now()), m, trace.Now(), sched, first, turn, turn);
      }
    }

    /** One turn of that loop: `n` bytes accepted, or none because the ring was full. */
    method CopyOneBlock(data: seq<byte>, ptr: nat, sched: seq<seq<Action>>, first: nat)
      returns (n: nat, out: nat, turn: nat)
      requires Valid() && IsSchedule(sched)
      requires trace.sys.w.pc.WSnapIn? && trace.sys.w.data == data && trace.sys.w.ptr == ptr < |data|
      modifies this, device, rxBuf, txBuf, trace
      ensures WriterMoved() && turn > first && ptr + n <= |data| && trace.sys.w.ptr == ptr + n
      ensures if n == 0 then trace.sys.w.pc.WKick? && trace.sys.w.out == out else trace.sys.w.pc.WSnapIn?
      ensures trace.sys.dev.tx.accepted == old(trace.sys.dev.tx.accepted) + data[ptr..ptr + n]
      ensures WriterWent(old(trace.Now()), trace.Now(), sched, first, turn)
    {
      hide Valid, IsSchedule, WriterWent;
      var inn;
      ghost var a := trace.Now();
      inn, turn := ReadTxIn(sched, first);
      ghost var b := trace.Now();
      out, n, turn := ReadTxOut(inn, sched, turn);
      ghost var c := trace.Now();
      WriterWentOn(a, b, c, sched, first, first + 1, turn);
      if n > 0 {
        if n > |data| - ptr { n := |data| - ptr; }
        turn := CopyBlock(data, ptr, inn, n, sched, turn);
        ghost var d, was := trace.Now(), turn;
        WriterWentOn(a, c, d, sched, first, first + 2, turn);
        turn := Publish(inn, n, sched, turn);
        WriterWentOn(a, d, trace.Now(), sched, first, was, turn);
      }
    }

    ghost method LeaveCopyLoop()
      requires Valid() && trace.sys.w.pc.WSnapIn? && trace.sys.w.ptr == |trace.sys.w.data|
      modifies trace
      ensures WriterMoved() && trace.sys.w == old(trace.sys.w).(pc := WKick)
      ensures trace.sys.dev.tx.accepted == old(trace.sys.dev.tx.accepted)
      ensures SysOk(old(trace.sys)) && trace.Now() == After(old(trace.Now()), WriterStep)
    {
      hide Live, Run, SysOk;
      trace.Log(WriterStep);
    }

    /** The block copy, byte by byte. */
    method CopyBlock(data: seq<byte>, ptr: nat, inn: nat, n: nat, sched: seq<seq<Action>>, first: nat)
      returns (turn: nat)
      requires Valid() && IsSchedule(sched)
      requires trace.sys.w.pc.WCopy? && trace.sys.w.k == 0 && trace.sys.w.n == n && trace.sys.w.inn == inn
      requires trace.sys.w.data == data && trace.sys.w.ptr == ptr && ptr + n <= |data|
      modifies this, device, rxBuf, txBuf, trace
      ensures WriterMoved() && turn >= first && trace.sys.w == old(trace.sys.w).(k := n)
      ensures trace.sys.dev.tx.accepted == old(trace.sys.dev.tx.accepted)
      ensures WriterWent(old(trace.Now()), trace.Now(), sched, first, turn)
    {
      hide Valid, IsSchedule, WriterWent;
      turn := first;
      var k := 0;
      WriterWentNowhere(trace.Now(), sched, first);
      while k < n
        invariant k <= n && WriterMoved() && turn >= first && trace.sys.w == old(trace.sys.w).(k := k)
        invariant trace.sys.dev.tx.accepted == old(trace.sys.dev.tx.accepted)
        invariant WriterWent(old(trace.Now()), trace.Now(), sched, first, turn)
      {
        ghost var m, was := trace.Now(), turn;
        turn := CopyByte(inn, k, data[ptr + k], sched, turn);
        WriterWentOn(old(trace.Now()), m, trace.Now(), sched, first, was, turn);
        k := k + 1;
      }
    }

    /** Turn transmit interrupts on, with interrupts held off around the update. */
    method KickTransmitter(sched: seq<seq<Action>>, turn: nat) returns (next: nat)
      requires Valid() && IsSchedule(sched) && trace.sys.w.pc.WKick?
      modifies this, device, rxBuf, trace
      ensures WriterMoved() && next == turn + 1
      ensures var w := old(trace.sys.w);
              if w.ptr == |w.data| || w.nonblock then trace.sys.w == WReturn(w.(dirty := false))
              else trace.sys.w == w.(dirty := false, pc := WSpin)
      ensures trace.sys.dev.tx.accepted == old(trace.sys.dev.tx.accepted)
      ensures WriterWent(old(trace.Now()), trace.Now(), sched, turn, next)
    {
      hide Live, Run, SysOk, Kick, Preempted, WriterWent, Own, Others, Slot;
      next := PreemptNext(sched, turn);
      ghost var m := trace.Now();
      EnableTransmit();
      trace.Log(WriterStep);
      WriterWentOne(old(trace.Now()), m, sched, turn);
    }

    method EnableTransmit()
      requires Shaped() && device.env == []
      modifies this`writeEnable, device
      ensures Shaped() && Abs() == Kick(old(Abs())) && device.env == []
    {
      writeEnable := true;
      device.WriteControl(readEnable, writeEnable, Cpu());
    }

    method EnableReceive()
      requires Shaped() && device.env == []
      modifies this`readEnable, device
      ensures Shaped() && Abs() == Unmask(old(Abs())) && device.env == []
    {
      readEnable := true;
      device.WriteControl(readEnable, writeEnable, Cpu());
    }

    /** Spin until a byte leaves the ring or the host is inactive. */
    method SpinOnTxOut(out: nat, sched: seq<seq<Action>>, first: nat) returns (stuck: bool, turn: nat)
      requires Valid() && IsSchedule(sched) && trace.sys.w.pc.WSpin? && trace.sys.w.out == out
      modifies this, device, rxBuf, trace
      ensures WriterMoved() && turn > first && trace.sys.w.ptr == old(trace.sys.w.ptr) && trace.sys.w.out == out
      ensures if stuck then trace.sys.w.pc.WSpin? && turn >= |sched| else trace.sys.w.pc.WCheck?
      ensures stuck ==> out == trace.sys.dev.tx.out && trace.sys.dev.inactive < trace.sys.dev.timeout
      ensures trace.sys.dev.tx.accepted == old(trace.sys.dev.tx.accepted)
      ensures WriterWent(old(trace.Now()), trace.Now(), sched, first, turn)
    {
      hide Valid, IsSchedule, WriterWent;
      stuck, turn := false, first;
      var same, active := true, true;
      WriterWentNowhere(trace.Now(), sched, first);
      while same && active && !stuck
        invariant WriterMoved() && turn >= first && trace.sys.w.ptr == old(trace.sys.w.ptr) && trace.sys.w.out == out
        invariant trace.sys.dev.tx.accepted == old(trace.sys.dev.tx.accepted)
        invariant if same && active then trace.sys.w.pc.WSpin? else trace.sys.w.pc.WCheck?
        invariant stuck ==> same && active && turn >= |sched|
        invariant stuck ==> out == trace.sys.dev.tx.out && trace.sys.dev.inactive < trace.sys.dev.timeout
        invariant turn > first || (same && active && !stuck)
        invariant WriterWent(old(trace.Now()), trace.Now(), sched, first, turn)
        decreases if turn < |sched| then |sched| - turn else 0, same && active && !stuck
      {
        ghost var m, was := trace.Now(), turn;
        var usedUp := turn >= |sched|;
        same, turn := TestTxOut(out, sched, turn);
        WriterWentOn(old(trace.Now()), m, trace.Now(), sched, first, was, turn);
        if same {
          m, was := trace.Now(), turn;
          active, turn := TestHost(sched, turn);
          WriterWentOn(old(trace.Now()), m, trace.Now(), sched, first, was, turn);
          stuck := active && usedUp;
        }
      }
    }

    /** `out == sp->tx_out` */
    method TestTxOut(out: nat, sched: seq<seq<Action>>, turn: nat) returns (same: bool, next: nat)
      requires Valid() && IsSchedule(sched) && trace.sys.w.pc.WSpin? && trace.sys.w.out == out
      modifies this, device, rxBuf, trace
      ensures WriterMoved() && next == turn + 1
      ensures trace.sys.w == old(trace.sys.w).(pc := if same then WSpinHost else WCheck)
      ensures same <==> out == trace.sys.dev.tx.out
      ensures turn >= |sched| ==> trace.sys.dev == old(trace.sys.dev)
      ensures trace.sys.dev.tx.accepted == old(trace.sys.dev.tx.accepted)
      ensures WriterWent(old(trace.Now()), trace.Now(), sched, turn, next)
    {
      hide Live, Run, SysOk, Preempted, WriterWent, Own, Others, Slot;
      next := PreemptNext(sched, turn);
      ghost var m := trace.Now();
      same := out == txOut;
      trace.Log(WriterStep);
      WriterWentOne(old(trace.Now()), m, sched, turn);
    }

    /** `sp->host_inactive < sp->timeout` */
    method TestHost(sched: seq<seq<Action>>, turn: nat) returns (active: bool, next: nat)
      requires Valid() && IsSchedule(sched) && trace.sys.w.pc.WSpinHost?
      modifies this, device, rxBuf, trace
      ensures WriterMoved() && next == turn + 1
      ensures trace.sys.w == if active then old(trace.sys.w).(pc := WSpin)
                             else old(trace.sys.w).(pc := WCheck, gone := true)
      ensures active <==> trace.sys.dev.inactive < trace.sys.dev.timeout
      ensures turn >= |sched| ==> trace.sys.dev == old(trace.sys.dev)
      ensures trace.sys.dev.tx.accepted == old(trace.sys.dev.tx.accepted)
      ensures WriterWent(old(trace.Now()), trace.Now(), sched, turn, next)
    {
      hide Live, Run, SysOk, Preempted, WriterWent, Own, Others, Slot;
      next := PreemptNext(sched, turn);
      ghost var m := trace.Now();
      active := hostInactive < timeout;
      trace.Log(WriterStep);
      WriterWentOne(old(trace.Now()), m, sched, turn);
    }

    /** The test after the spin: give up if still nothing has left the ring. */
    method RecheckTxOut(out: nat, sched: seq<seq<Action>>, turn: nat) returns (giveUp: bool, next: nat)
      requires Valid() && IsSchedule(sched) && trace.sys.w.pc.WCheck? && trace.sys.w.out == out
      modifies this, device, rxBuf, trace
      ensures WriterMoved() && next == turn + 1
      ensures trace.sys.w == if giveUp then WReturn(old(trace.sys.w)) else old(trace.sys.w).(pc := WSnapIn)
      ensures giveUp <==> out == trace.sys.dev.tx.out
      ensures turn >= |sched| ==> trace.sys.dev == old(trace.sys.dev)
      ensures trace.sys.dev.tx.accepted == old(trace.sys.dev.tx.accepted)
      ensures WriterWent(old(trace.Now()), trace.Now(), sched, turn, next)
    {
      hide Live, Run, SysOk, Preempted, WriterWent, Own, Others, Slot;
      next := PreemptNext(sched, turn);
      ghost var m := trace.Now();
      giveUp := out == txOut;
      trace.Log(WriterStep);
      WriterWentOne(old(trace.Now()), m, sched, turn);
    }

    /**
     * The write routine, with `sched` saying what other contexts do before each of its accesses.
     * It is a run of the machine: one call with its steps, between which exactly the schedule
     * happens. On return the reported prefix of `data` has joined the accepted stream, and a
     * blocking call falls short only if the host was seen to be inactive. It waits for ever only
     * with a full ring and a host that is still there. Left alone, it puts in what fits.
     */
    method Write(data: seq<byte>, nonblock: bool, sched: seq<seq<Action>>) returns (r: Outcome, ghost turns: nat)
      requires Valid() && IsSchedule(sched) && trace.sys.w.pc.WIdle?
      modifies this, device, rxBuf, txBuf, trace
      ensures Valid() && old(trace.history) <= trace.history && trace.sys.r == old(trace.sys.r)
      ensures Extends(Own(old(trace.history)) + [StartWrite(data, nonblock)], Own(trace.history), WriterStep)
      ensures Others(trace.history) == Others(old(trace.history)) + Slots(sched, 0, turns)
      ensures trace.sys.w.ptr <= |data|
              && trace.sys.dev.tx.accepted == old(trace.sys.dev.tx.accepted) + data[..trace.sys.w.ptr]
      ensures r.Done? ==>
                && trace.sys.w.pc.WIdle?
                && r.value == (if trace.sys.w.ptr > 0 then trace.sys.w.ptr else if nonblock then -EWOULDBLOCK else -EIO)
                && (trace.sys.w.ptr < |data| ==> nonblock || trace.sys.w.gone)
      ensures r.StillWaiting? ==> !nonblock && turns >= |sched| && Full(trace.sys) && hostInactive < timeout
      ensures Slots(sched, 0, turns) == [] ==>
                && old(trace.sys).dev.tx.Wf()
                && var n := Min(|data|, Vacant(old(trace.sys).dev.tx));
                && trace.sys.w.ptr == n
                && r == if n < |data| && !nonblock && hostInactive < timeout then StillWaiting
                        else Done(if n > 0 then n else if nonblock then -EWOULDBLOCK else -EIO)
    {
      hide Valid, IsSchedule, WriterWent, Own, Others, Slots, Extends, Full, Vacant, SysOk;
      ghost var before := trace.Now();
      IsSound();
      BeginWrite(data, nonblock);
      ghost var start := trace.Now();
      var ptr: nat, turn: nat, more := 0, 0, true;
      WriterWentNowhere(start, sched, 0);
      while more
        invariant Valid() && old(trace.history) <= trace.history && trace.sys.r == old(trace.sys.r)
        invariant SameCall(start.sys.w, trace.sys.w) && trace.sys.w.ptr == ptr <= |data|
        invariant more ==> trace.sys.w.pc.WSnapIn?
        invariant !more ==> trace.sys.w == WReturn(trace.sys.w) && (ptr < |data| ==> nonblock || trace.sys.w.gone)
        invariant trace.sys.dev.tx.accepted == old(trace.sys.dev.tx.accepted) + data[..ptr]
        invariant WriterWent(start, trace.Now(), sched, 0, turn)
        decreases more, if turn < |sched| then |sched| - turn else 0
      {
        ghost var from, m, was := ptr, trace.Now(), turn;
        var stuck;
        ptr, more, stuck, turn := WriteRound(data, ptr, nonblock, sched, turn);
        WriterWentOn(start, m, trace.Now(), sched, 0, was, turn);
        assert data[..ptr] == data[..from] + data[from..ptr];
        if stuck {
          IsSound();
          WholeWrite(before, data, nonblock, trace.Now(), sched, turn);
          return StillWaiting, turn;
        }
      }
      IsSound();
      WholeWrite(before, data, nonblock, trace.Now(), sched, turn);
      if ptr > 0 { return Done(ptr), turn; }
      return Done(if nonblock then -EWOULDBLOCK else -EIO), turn;
    }

    /** The machine's state is a good one, and the timer's count and the time-out are its own. */
    lemma IsSound()
      requires Valid()
      ensures SysOk(trace.sys)
      ensures hostInactive == trace.sys.dev.inactive && timeout == trace.sys.dev.timeout
    {
    }

    /** One turn of the writer's outer loop: fill the ring, kick, and wait if that is wanted. */
    method WriteRound(data: seq<byte>, start: nat, nonblock: bool, sched: seq<seq<Action>>, first: nat)
      returns (ptr: nat, more: bool, stuck: bool, turn: nat)
      requires Valid() && IsSchedule(sched) && trace.sys.w.pc.WSnapIn?
      requires trace.sys.w.data == data && trace.sys.w.ptr == start <= |data| && trace.sys.w.nonblock == nonblock
      modifies this, device, rxBuf, txBuf, trace
      ensures WriterMoved() && start <= ptr <= |data| && trace.sys.w.ptr == ptr
      ensures trace.sys.dev.tx.accepted == old(trace.sys.dev.tx.accepted) + data[start..ptr]
      ensures stuck ==> !nonblock && ptr < |data| && trace.sys.w.pc.WSpin? && turn >= |sched| && Full(trace.sys)
                        && trace.sys.dev.inactive < trace.sys.dev.timeout
      ensures !stuck && more ==> trace.sys.w.pc.WSnapIn? && first < turn && first < |sched|
      ensures !stuck && !more ==> trace.sys.w == WReturn(trace.sys.w) && (ptr < |data| ==> nonblock || trace.sys.w.gone)
      ensures WriterWent(old(trace.Now()), trace.Now(), sched, first, turn)
    {
      hide Valid, IsSchedule, WriterWent, Full, SysOk;
      var out;
      stuck := false;
      IsSound();
      ghost var a := trace.Now();
      ptr, out, turn := CopyIn(data, start, sched, first);
      ghost var b, was := trace.Now(), turn;
      turn := KickTransmitter(sched, turn);
      ghost var c := trace.Now();
      WriterWentOn(a, b, c, sched, first, was, turn);
      more := ptr < |data| && !nonblock;
      if !more {
        WriteDone();
      } else {
        var giveUp;
        was := turn;
        stuck, turn := SpinOnTxOut(out, sched, turn);
        ghost var d := trace.Now();
        WriterWentOn(a, c, d, sched, first, was, turn);
        if stuck { SpinsOnFull(); return; }
        if first >= |sched| { QuietSoFar(a, sched, first, turn); }
        was := turn;
        giveUp, turn := RecheckTxOut(out, sched, turn);
        WriterWentOn(a, d, trace.Now(), sched, first, was, turn);
        more := !giveUp;
        if giveUp { WriteDone(); }
      }
    }

    /** With nothing else going on a writer that stops spinning finds the ring as it left it. */
    lemma QuietSoFar(a: Moment, sched: seq<seq<Action>>, first: nat, turn: nat)
      requires Valid() && first >= |sched| && WriterWent(a, trace.Now(), sched, first, turn)
      requires SysOk(a.sys) && a.sys.w.pc.WSnapIn? && trace.sys.w.pc.WCheck? && trace.sys.w.ptr < |trace.sys.w.data|
      ensures trace.sys.w.out == trace.sys.dev.tx.out
    {
      hide Live, Run, Went, Slots;
      SlotsUsedUp(sched, first, turn);
    }

    lemma SpinsOnFull()
      requires Valid() && trace.sys.w.pc.WSpin? && trace.sys.w.out == trace.sys.dev.tx.out
      ensures Full(trace.sys) && !trace.sys.w.nonblock
    {
      hide Run;
      TxLengths(trace.sys.dev.tx);
    }

    lemma WriteDone()
      requires Valid() && trace.sys.w.pc.WIdle?
      ensures trace.sys.w == WReturn(trace.sys.w)
      ensures trace.sys.w.ptr < |trace.sys.w.data| ==> trace.sys.w.nonblock || trace.sys.w.gone
    {
    }

    ghost method BeginWrite(data: seq<byte>, nonblock: bool)
      requires Valid() && trace.sys.w.pc.WIdle?
      modifies trace
      ensures Valid() && old(trace.history) <= trace.history && trace.sys.r == old(trace.sys.r)
      ensures trace.sys.w.pc.WSnapIn? && trace.sys.w.ptr == 0 && !trace.sys.w.gone
      ensures trace.sys.w.data == data && trace.sys.w.nonblock == nonblock
      ensures trace.sys.dev.tx.accepted == old(trace.sys.dev.tx.accepted)
      ensures SysOk(old(trace.sys)) && trace.Now() == After(old(trace.Now()), StartWrite(data, nonblock))
    {
      hide Live, Run, SysOk;
      trace.Log(StartWrite(data, nonblock));
    }

    // -- reader. Each access is preceded by a possible preemption.

    /** The read call in progress moved on and everything stayed consistent. */
    twostate predicate ReaderMoved()
      reads this, device, rxBuf, txBuf, trace
    {
      && Valid() && old(trace.history) <= trace.history && trace.sys.w == old(trace.sys.w)
      && trace.sys.r.want == old(trace.sys.r.want) && trace.sys.r.nonblock == old(trace.sys.r.nonblock)
      && (old(trace.sys.r.gone) ==> trace.sys.r.gone)
    }

    /** `in = sp->rx_in` */
    method ReadRxIn(sched: seq<seq<Action>>, turn: nat) returns (inn: nat, next: nat)
      requires Valid() && IsSchedule(sched) && trace.sys.r.pc.RSnapIn?
      modifies this, device, rxBuf, trace
      ensures ReaderMoved() && next == turn + 1 && trace.sys.r.pc.RSnapOut? && trace.sys.r.inn == inn
      ensures trace.sys.r.dst == old(trace.sys.r.dst) && trace.sys.r.space == old(trace.sys.r.space)
      ensures trace.sys.dev.rx.delivered == old(trace.sys.dev.rx.delivered)
      ensures ReaderWent(old(trace.Now()), trace.Now(), sched, turn, next)
    {
      hide Live, Run, SysOk, Preempted, ReaderWent, Own, Others, Slot;
      next := PreemptNext(sched, turn);
      ghost var m := trace.Now();
      inn := rxIn;
      trace.Log(ReaderStep);
      ReaderWentOne(old(trace.Now()), m, sched, turn);
    }

    /** `out = sp->rx_out` and how much can be copied in one block. */
    method ReadRxOut(inn: nat, sched: seq<seq<Action>>, turn: nat) returns (out: nat, n: nat, next: nat)
      requires Valid() && IsSchedule(sched) && trace.sys.r.pc.RSnapOut? && trace.sys.r.inn == inn
      modifies this, device, rxBuf, trace
      ensures ReaderMoved() && next == turn + 1
      ensures trace.sys.r == AfterSnap(old(trace.sys.r), out, n)
      ensures trace.sys.dev.rx.delivered == old(trace.sys.dev.rx.delivered)
      ensures ReaderWent(old(trace.Now()), trace.Now(), sched, turn, next)
    {
      hide Valid, IsSchedule, AfterSnap, Preempted, ReaderWent, Own, Others, Slot;
      next := PreemptNext(sched, turn);
      ghost var m := trace.Now();
      ghost var r := trace.sys.r;
      out, n := ReadRxOutNow(inn);
      AfterSnapKeeps(r, out, n);
      ReaderWentOne(old(trace.Now()), m, sched, turn);
    }

    /** The snapshot itself. */
    method ReadRxOutNow(inn: nat) returns (out: nat, n: nat)
      requires Valid() && trace.sys.r.pc.RSnapOut? && trace.sys.r.inn == inn
      modifies trace
      ensures Valid() && old(trace.history) <= trace.history && trace.sys.w == old(trace.sys.w)
      ensures trace.sys.r == AfterSnap(old(trace.sys.r), out, n)
      ensures trace.sys.dev.rx.delivered == old(trace.sys.dev.rx.delivered)
      ensures SysOk(old(trace.sys)) && trace.Now() == After(old(trace.Now()), ReaderStep)
    {
      hide Live, Run, SysOk, Next, AfterSnap;
      ReadSnapshotInBounds(trace.sys);
      out := rxOut;
      n := if inn >= out then inn - out else BUF_LEN - out;
      assert n == Available(inn, out);
      hide Available;
      AfterSnapIsStep(trace.sys);
      trace.Log(ReaderStep);
    }

    /** One byte of `memcpy(ptr, sp->rx_buf + out, n)`. */
    method CopyByteOut(buffer: array<byte>, at: nat, out: nat, k: nat, sched: seq<seq<Action>>, turn: nat)
      returns (next: nat)
      requires Valid() && IsSchedule(sched) && buffer != rxBuf && buffer != txBuf
      requires trace.sys.r.pc.RCopy? && trace.sys.r.out == out && trace.sys.r.k == k < trace.sys.r.n
      requires at < buffer.Length && at == |trace.sys.r.dst| && buffer[..at] == trace.sys.r.dst
      modifies this, device, rxBuf, trace, buffer
      ensures ReaderMoved() && next == turn + 1 && buffer[..at + 1] == trace.sys.r.dst
      ensures trace.sys.r == old(trace.sys.r).(dst := trace.sys.r.dst, k := k + 1)
      ensures |trace.sys.r.dst| == at + 1 && trace.sys.r.dst[..at] == old(trace.sys.r.dst)
      ensures trace.sys.dev.rx.delivered == old(trace.sys.dev.rx.delivered)
      ensures ReaderWent(old(trace.Now()), trace.Now(), sched, turn, next)
    {
      hide Valid, IsSchedule, Preempted, ReaderWent, Own, Others, Slot;
      next := PreemptNext(sched, turn);
      ghost var m := trace.Now();
      CopyByteOutNow(buffer, at, out, k);
      ReaderWentOne(old(trace.Now()), m, sched, turn);
    }

    /** The copy itself. */
    method CopyByteOutNow(buffer: array<byte>, at: nat, out: nat, k: nat)
      requires Valid() && buffer != rxBuf && buffer != txBuf
      requires trace.sys.r.pc.RCopy? && trace.sys.r.out == out && trace.sys.r.k == k < trace.sys.r.n
      requires at < buffer.Length && at == |trace.sys.r.dst| && buffer[..at] == trace.sys.r.dst
      modifies trace, buffer
      ensures ReaderMoved() && buffer[..at + 1] == trace.sys.r.dst
      ensures trace.sys.r == old(trace.sys.r).(dst := trace.sys.r.dst, k := k + 1)
      ensures |trace.sys.r.dst| == at + 1 && trace.sys.r.dst[..at] == old(trace.sys.r.dst)
      ensures trace.sys.dev.rx.delivered == old(trace.sys.dev.rx.delivered)
      ensures SysOk(old(trace.sys)) && trace.Now() == After(old(trace.Now()), ReaderStep)
    {
      hide Live, Run, SysOk;
      CopyingOutInBounds(trace.sys);
      ghost var dst := trace.sys.r.dst;
      var b := rxBuf[out + k];
      buffer[at] := b;
      assert buffer[..at + 1] == dst + [b];
      trace.Log(ReaderStep);
    }

    /** `sp->rx_out = (out + n) % BUF_LEN`: the copied block is released. */
    method Release(out: nat, n: nat, sched: seq<seq<Action>>, turn: nat) returns (next: nat)
      requires Valid() && IsSchedule(sched)
      requires trace.sys.r.pc.RCopy? && trace.sys.r.out == out && trace.sys.r.k == n == trace.sys.r.n
      modifies this, device, rxBuf, trace
      ensures ReaderMoved() && next == turn + 1
      ensures n <= |trace.sys.r.dst| && trace.sys.r.dst == old(trace.sys.r.dst)
      ensures trace.sys.r.space == old(trace.sys.r.space) - n
      ensures trace.sys.r.pc == if trace.sys.r.space > 0 then RSnapIn else AfterCopyPc(trace.sys.r)
      ensures trace.sys.dev.rx.delivered == old(trace.sys.dev.rx.delivered) + trace.sys.r.dst[|trace.sys.r.dst| - n..]
      ensures ReaderWent(old(trace.Now()), trace.Now(), sched, turn, next)
    {
      hide Valid, IsSchedule, Preempted, ReaderWent, Own, Others, Slot;
      next := PreemptNext(sched, turn);
      ghost var m := trace.Now();
      ReleaseNow(out, n);
      ReaderWentOne(old(trace.Now()), m, sched, turn);
    }

    /** The release itself. */
    method ReleaseNow(out: nat, n: nat)
      requires Valid() && trace.sys.r.pc.RCopy? && trace.sys.r.out == out && trace.sys.r.k == n == trace.sys.r.n
      modifies this`rxOut, trace
      ensures ReaderMoved()
      ensures n <= |trace.sys.r.dst| && trace.sys.r.dst == old(trace.sys.r.dst)
      ensures trace.sys.r.space == old(trace.sys.r.space) - n
      ensures trace.sys.r.pc == if trace.sys.r.space > 0 then RSnapIn else AfterCopyPc(trace.sys.r)
      ensures trace.sys.dev.rx.delivered == old(trace.sys.dev.rx.delivered) + trace.sys.r.dst[|trace.sys.r.dst| - n..]
      ensures SysOk(old(trace.sys)) && trace.Now() == After(old(trace.Now()), ReaderStep)
    {
      hide Live, Run, SysOk;
      CopyingOutInBounds(trace.sys);
      rxOut := (out + n) % BUF_LEN;
      trace.Log(ReaderStep);
    }

    /** The block copy, byte by byte. */
    method CopyBlockOut(buffer: array<byte>, ptr: nat, out: nat, n: nat, sched: seq<seq<Action>>, first: nat)
      returns (turn: nat)
      requires Valid() && IsSchedule(sched) && buffer != rxBuf && buffer != txBuf
      requires trace.sys.r.pc.RCopy? && trace.sys.r.out == out && trace.sys.r.k == 0 && trace.sys.r.n == n
      requires ptr + n <= buffer.Length && ptr == |trace.sys.r.dst| && buffer[..ptr] == trace.sys.r.dst
      modifies this, device, rxBuf, trace, buffer
      ensures ReaderMoved() && turn >= first && buffer[..ptr + n] == trace.sys.r.dst
      ensures |trace.sys.r.dst| == ptr + n && trace.sys.r == old(trace.sys.r).(dst := trace.sys.r.dst, k := n)
      ensures trace.sys.r.dst[..ptr] == old(trace.sys.r.dst)
      ensures trace.sys.dev.rx.delivered == old(trace.sys.dev.rx.delivered)
      ensures ReaderWent(old(trace.Now()), trace.Now(), sched, first, turn)
    {
      hide Valid, IsSchedule, ReaderWent;
      turn := first;
      var k := 0;
      ReaderWentNowhere(trace.Now(), sched, first);
      while k < n
        invariant k <= n && ReaderMoved() && turn >= first && buffer[..ptr + k] == trace.sys.r.dst
        invariant |trace.sys.r.dst| == ptr + k && trace.sys.r.dst[..ptr] == old(trace.sys.r.dst)
        invariant trace.sys.r == old(trace.sys.r).(dst := trace.sys.r.dst, k := k)
        invariant trace.sys.dev.rx.delivered == old(trace.sys.dev.rx.delivered)
        invariant ReaderWent(old(trace.Now()), trace.Now(), sched, first, turn)
      {
        ghost var m, was := trace.Now(), turn;
        turn := CopyByteOut(buffer, ptr + k, out, k, sched, turn);
        ReaderWentOn(old(trace.Now()), m, trace.Now(), sched, first, was, turn);
        k := k + 1;
      }
    }

    /** The reader's inner loop: copy out of the ring a block at a time. */
    method CopyOut(buffer: array<byte>, space0: nat, sched: seq<seq<Action>>, first: nat)
      returns (ptr: nat, inn: nat, turn: nat)
      requires Valid() && IsSchedule(sched) && buffer != rxBuf && buffer != txBuf
      requires trace.sys.r.pc.RSnapIn? && trace.sys.r.dst == [] && 0 < space0 == trace.sys.r.space <= buffer.Length
      modifies this, device, rxBuf, trace, buffer
      ensures ReaderMoved() && turn > first && trace.sys.r.pc == AfterCopyPc(trace.sys.r)
      ensures ptr == |trace.sys.r.dst| <= space0 && buffer[..ptr] == trace.sys.r.dst
      ensures trace.sys.r.space + ptr == space0 && (ptr == 0 ==> trace.sys.r.inn == inn)
      ensures trace.sys.dev.rx.delivered == old(trace.sys.dev.rx.delivered) + trace.sys.r.dst
      ensures ReaderWent(old(trace.Now()), trace.Now(), sched, first, turn)
    {
      hide Valid, IsSchedule, ReaderWent;
      ptr, inn, turn := 0, 0, first;
      var space, more := space0, true;
      ReaderWentNowhere(trace.Now(), sched, first);
      while more
        invariant ReaderMoved() && turn >= first && ptr + space == space0 && trace.sys.r.space == space
        invariant ptr == |trace.sys.r.dst| && buffer[..ptr] == trace.sys.r.dst
        invariant more ==> trace.sys.r.pc.RSnapIn? && space > 0
        invariant !more ==> turn > first && trace.sys.r.pc == AfterCopyPc(trace.sys.r)
        invariant !more && ptr == 0 ==> trace.sys.r.inn == inn
        invariant trace.sys.dev.rx.delivered == old(trace.sys.dev.rx.delivered) + trace.sys.r.dst
        invariant ReaderWent(old(trace.Now()), trace.Now(), sched, first, turn)
        decreases more, space
      {
        var n;
        ghost var m, was := trace.Now(), turn;
        n, inn, turn := CopyOutOneBlock(buffer, ptr, space, sched, turn);
        ReaderWentOn(old(trace.Now()), m, trace.Now(), sched, first, was, turn);
        ptr, space := ptr + n, space - n;
        more := n != 0 && space > 0;
      }
    }

    /** One turn of that loop: `n` bytes delivered, or none because the ring was empty. */
    method CopyOutOneBlock(buffer: array<byte>, ptr: nat, space: nat, sched: seq<seq<Action>>, first: nat)
      returns (n: nat, inn: nat, turn: nat)
      requires Valid() && IsSchedule(sched) && buffer != rxBuf && buffer != txBuf
      requires trace.sys.r.pc.RSnapIn? && trace.sys.r.space == space > 0 && ptr + space <= buffer.Length
      requires ptr == |trace.sys.r.dst| && buffer[..ptr] == trace.sys.r.dst
      modifies this, device, rxBuf, trace, buffer
      ensures ReaderMoved() && turn > first && n <= space && trace.sys.r.space == space - n
      ensures ptr + n == |trace.sys.r.dst| && buffer[..ptr + n] == trace.sys.r.dst
      ensures trace.sys.r.dst[..ptr] == old(trace.sys.r.dst)
      ensures trace.sys.r.pc == if n > 0 && trace.sys.r.space > 0 then RSnapIn else AfterCopyPc(trace.sys.r)
      ensures n == 0 ==> trace.sys.r.inn == inn
      ensures trace.sys.dev.rx.delivered == old(trace.sys.dev.rx.delivered) + trace.sys.r.dst[ptr..]
      ensures ReaderWent(old(trace.Now()), trace.Now(), sched, first, turn)
    {
      hide Valid, IsSchedule, ReaderWent;
      ghost var a := trace.Now();
      inn, turn := ReadRxIn(sched, first);
      ghost var b := trace.Now();
      ghost var r := trace.sys.r;
      var out;
      out, n, turn := ReadRxOut(inn, sched, turn);
      ghost var c := trace.Now();
      ReaderWentOn(a, b, c, sched, first, first + 1, turn);
      AfterSnapKeeps(r, out, n);
      if n > 0 {
        if n > space { n := space; }
        turn := CopyBlockOut(buffer, ptr, out, n, sched, turn);
        ghost var d, was := trace.Now(), turn;
        ReaderWentOn(a, c, d, sched, first, first + 2, turn);
        turn := Release(out, n, sched, turn);
        ReaderWentOn(a, d, trace.Now(), sched, first, was, turn);
      }
    }

    /** `in == sp->rx_in` */
    method TestRxIn(inn: nat, sched: seq<seq<Action>>, turn: nat) returns (same: bool, next: nat)
      requires Valid() && IsSchedule(sched) && trace.sys.r.pc.RSpin? && trace.sys.r.inn == inn
      modifies this, device, rxBuf, trace
      ensures ReaderMoved() && next == turn + 1
      ensures trace.sys.r == old(trace.sys.r).(pc := if same then RSpinHost else RCheck)
      ensures same <==> inn == trace.sys.dev.rx.inn
      ensures turn >= |sched| ==> trace.sys.dev == old(trace.sys.dev)
      ensures trace.sys.dev.rx.delivered == old(trace.sys.dev.rx.delivered)
      ensures ReaderWent(old(trace.Now()), trace.Now(), sched, turn, next)
    {
      hide Live, Run, SysOk, Preempted, ReaderWent, Own, Others, Slot;
      next := PreemptNext(sched, turn);
      ghost var m := trace.Now();
      same := inn == rxIn;
      trace.Log(ReaderStep);
      ReaderWentOne(old(trace.Now()), m, sched, turn);
    }

    /** `sp->host_inactive < sp->timeout` */
    method TestHostForRead(sched: seq<seq<Action>>, turn: nat) returns (active: bool, next: nat)
      requires Valid() && IsSchedule(sched) && trace.sys.r.pc.RSpinHost?
      modifies this, device, rxBuf, trace
      ensures ReaderMoved() && next == turn + 1
      ensures trace.sys.r == if active then old(trace.sys.r).(pc := RSpin)
                             else old(trace.sys.r).(pc := RCheck, gone := true)
      ensures active <==> trace.sys.dev.inactive < trace.sys.dev.timeout
      ensures turn >= |sched| ==> trace.sys.dev == old(trace.sys.dev)
      ensures trace.sys.dev.rx.delivered == old(trace.sys.dev.rx.delivered)
      ensures ReaderWent(old(trace.Now()), trace.Now(), sched, turn, next)
    {
      hide Live, Run, SysOk, Preempted, ReaderWent, Own, Others, Slot;
      next := PreemptNext(sched, turn);
      ghost var m := trace.Now();
      active := hostInactive < timeout;
      trace.Log(ReaderStep);
      ReaderWentOne(old(trace.Now()), m, sched, turn);
    }

    /** Spin until a byte is stored or the host is inactive. */
    method SpinOnRxIn(inn: nat, sched: seq<seq<Action>>, first: nat) returns (stuck: bool, turn: nat)
      requires Valid() && IsSchedule(sched) && trace.sys.r.pc.RSpin? && trace.sys.r.inn == inn
      modifies this, device, rxBuf, trace
      ensures ReaderMoved() && turn > first && trace.sys.r.inn == inn && trace.sys.r.dst == old(trace.sys.r.dst)
      ensures trace.sys.r.space == old(trace.sys.r.space)
      ensures if stuck then trace.sys.r.pc.RSpin? && turn >= |sched| else trace.sys.r.pc.RCheck?
      ensures stuck ==> inn == trace.sys.dev.rx.inn && trace.sys.dev.inactive < trace.sys.dev.timeout
      ensures trace.sys.dev.rx.delivered == old(trace.sys.dev.rx.delivered)
      ensures ReaderWent(old(trace.Now()), trace.Now(), sched, first, turn)
    {
      hide Valid, IsSchedule, ReaderWent;
      stuck, turn := false, first;
      var same, active := true, true;
      ReaderWentNowhere(trace.Now(), sched, first);
      while same && active && !stuck
        invariant ReaderMoved() && turn >= first && trace.sys.r.inn == inn && trace.sys.r.dst == old(trace.sys.r.dst)
        invariant trace.sys.r.space == old(trace.sys.r.space)
        invariant trace.sys.dev.rx.delivered == old(trace.sys.dev.rx.delivered)
        invariant if same && active then trace.sys.r.pc.RSpin? else trace.sys.r.pc.RCheck?
        invariant stuck ==> same && active && turn >= |sched|
        invariant stuck ==> inn == trace.sys.dev.rx.inn && trace.sys.dev.inactive < trace.sys.dev.timeout
        invariant turn > first || (same && active && !stuck)
        invariant ReaderWent(old(trace.Now()), trace.Now(), sched, first, turn)
        decreases if turn < |sched| then |sched| - turn else 0, same && active && !stuck
      {
        ghost var m, was := trace.Now(), turn;
        var usedUp := turn >= |sched|;
        same, turn := TestRxIn(inn, sched, turn);
        ReaderWentOn(old(trace.Now()), m, trace.Now(), sched, first, was, turn);
        if same {
          m, was := trace.Now(), turn;
          active, turn := TestHostForRead(sched, turn);
          ReaderWentOn(old(trace.Now()), m, trace.Now(), sched, first, was, turn);
          stuck := active && usedUp;
        }
      }
    }

    /** The test after the spin: give up if still nothing has been stored. */
    method RecheckRxIn(inn: nat, sched: seq<seq<Action>>, turn: nat) returns (giveUp: bool, next: nat)
      requires Valid() && IsSchedule(sched) && trace.sys.r.pc.RCheck? && trace.sys.r.inn == inn
      modifies this, device, rxBuf, trace
      ensures ReaderMoved() && next == turn + 1
      ensures trace.sys.r == if giveUp then RLeave(old(trace.sys.r)) else old(trace.sys.r).(pc := RSnapIn)
      ensures giveUp <==> inn == trace.sys.dev.rx.inn
      ensures turn >= |sched| ==> trace.sys.dev == old(trace.sys.dev)
      ensures trace.sys.dev.rx.delivered == old(trace.sys.dev.rx.delivered)
      ensures ReaderWent(old(trace.Now()), trace.Now(), sched, turn, next)
    {
      hide Live, Run, SysOk, Preempted, ReaderWent, Own, Others, Slot;
      next := PreemptNext(sched, turn);
      ghost var m := trace.Now();
      giveUp := inn == rxIn;
      trace.Log(ReaderStep);
      ReaderWentOne(old(trace.Now()), m, sched, turn);
    }

    /** Turn receive interrupts back on, with interrupts held off around the update. */
    method UnmaskReceiver(sched: seq<seq<Action>>, turn: nat) returns (next: nat)
      requires Valid() && IsSchedule(sched) && trace.sys.r.pc.REnable?
      modifies this, device, rxBuf, trace
      ensures ReaderMoved() && next == turn + 1
      ensures trace.sys.r == old(trace.sys.r).(pc := RIdle, result := |trace.sys.r.dst|, dirty := false)
      ensures trace.sys.dev.rx.delivered == old(trace.sys.dev.rx.delivered)
      ensures ReaderWent(old(trace.Now()), trace.Now(), sched, turn, next)
    {
      hide Live, Run, SysOk, Unmask, Preempted, ReaderWent, Own, Others, Slot;
      next := PreemptNext(sched, turn);
      ghost var m := trace.Now();
      EnableReceive();
      trace.Log(ReaderStep);
      ReaderWentOne(old(trace.Now()), m, sched, turn);
    }

    /**
     * The read routine, with `sched` saying what other contexts do before each of its accesses.
     * It is a run of the machine: one call with its steps, between which exactly the schedule
     * happens. The bytes put in `buffer` are exactly the next bytes of the delivered stream, and a
     * blocking call returns none only if the host was seen to be inactive. It waits for ever only
     * with an empty ring and a host that is still there. Left alone, it takes what waits.
     */
    method Read(buffer: array<byte>, space: nat, nonblock: bool, sched: seq<seq<Action>>)
      returns (r: Outcome, ghost turns: nat)
      requires Valid() && IsSchedule(sched) && trace.sys.r.pc.RIdle?
      requires buffer != rxBuf && buffer != txBuf && space <= buffer.Length
      modifies this, device, rxBuf, trace, buffer
      ensures Valid() && old(trace.history) <= trace.history && trace.sys.w == old(trace.sys.w)
      ensures Extends(Own(old(trace.history)) + [StartRead(space, nonblock)], Own(trace.history), ReaderStep)
      ensures Others(trace.history) == Others(old(trace.history)) + Slots(sched, 0, turns)
      ensures |trace.sys.r.dst| <= space && buffer[..|trace.sys.r.dst|] == trace.sys.r.dst
              && trace.sys.dev.rx.delivered == old(trace.sys.dev.rx.delivered) + trace.sys.r.dst
      ensures r.Done? ==>
                && trace.sys.r.pc.RIdle?
                && r.value == (if trace.sys.r.dst != [] then |trace.sys.r.dst|
                               else if nonblock then -EWOULDBLOCK else -EIO)
                && (trace.sys.r.dst == [] && space > 0 ==> nonblock || trace.sys.r.gone)
      ensures r.StillWaiting? ==>
                !nonblock && turns >= |sched| && trace.sys.r.dst == [] && Empty(trace.sys) && hostInactive < timeout
      ensures Slots(sched, 0, turns) == [] ==>
                && old(trace.sys).dev.rx.Wf()
                && var waiting := old(trace.sys).dev.rx.Waiting();
                   var n := Min(space, |waiting|);
                && trace.sys.r.dst == waiting[..n]
                && r == if n == 0 && space > 0 && !nonblock && hostInactive < timeout then StillWaiting
                        else Done(if n > 0 then n else if nonblock then -EWOULDBLOCK else -EIO)
    {
      hide Valid, IsSchedule, ReaderWent, Own, Others, Slots, Extends, Empty, SysOk;
      ghost var before := trace.Now();
      IsSound();
      BeginRead(space, nonblock);
      ghost var start := trace.Now();
      var ptr: nat, inn, turn: nat, more := 0, 0, 0, space > 0;
      ReaderWentNowhere(start, sched, 0);
      while more
        invariant Valid() && old(trace.history) <= trace.history && trace.sys.w == old(trace.sys.w)
        invariant trace.sys.r.want == space && trace.sys.r.nonblock == nonblock
        invariant more ==> trace.sys.r.pc.RSnapIn? && ptr == 0 && trace.sys.r.space == space
        invariant !more ==> trace.sys.r.pc == if ptr > 0 then REnable else RIdle
        invariant ptr == |trace.sys.r.dst| <= space && buffer[..ptr] == trace.sys.r.dst
        invariant trace.sys.dev.rx.delivered == old(trace.sys.dev.rx.delivered) + trace.sys.r.dst
        invariant ReaderWent(start, trace.Now(), sched, 0, turn)
        decreases more, if turn < |sched| then |sched| - turn else 0
      {
        ghost var m, was := trace.Now(), turn;
        IsSound();
        ptr, inn, turn := CopyOut(buffer, space, sched, turn);
        ReaderWentOn(start, m, trace.Now(), sched, 0, was, turn);
        more := ptr == 0 && !nonblock;
        if more {
          ghost var copied, after := trace.Now(), turn;
          var stuck;
          stuck, more, turn := WaitForData(inn, sched, turn, m, was);
          ReaderWentOn(start, copied, trace.Now(), sched, 0, after, turn);
          if stuck {
            IsSound();
            WholeRead(before, space, nonblock, trace.Now(), sched, turn);
            return StillWaiting, turn;
          }
        }
      }
      if ptr > 0 {
        ghost var m, was := trace.Now(), turn;
        turn := UnmaskReceiver(sched, turn);
        ReaderWentOn(start, m, trace.Now(), sched, 0, was, turn);
      }
      ReadDone();
      IsSound();
      WholeRead(before, space, nonblock, trace.Now(), sched, turn);
      if ptr > 0 { return Done(ptr), turn; }
      return Done(if nonblock then -EWOULDBLOCK else -EIO), turn;
    }

    /**
     * Spin for data and test once more; `more` says whether to copy again. The round of the
     * reader's outer loop began at the moment `round` with access `first`.
     */
    method WaitForData(inn: nat, sched: seq<seq<Action>>, turn0: nat, ghost round: Moment, ghost first: nat)
      returns (stuck: bool, more: bool, turn: nat)
      requires Valid() && IsSchedule(sched) && trace.sys.r.pc.RSpin? && trace.sys.r.inn == inn && trace.sys.r.dst == []
      requires first <= turn0 && SysOk(round.sys) && round.sys.r.pc.RSnapIn?
      requires ReaderWent(round, trace.Now(), sched, first, turn0)
      modifies this, device, rxBuf, trace
      ensures ReaderMoved() && turn > turn0 && trace.sys.r.dst == [] && trace.sys.r.space == old(trace.sys.r.space)
      ensures stuck ==> !trace.sys.r.nonblock && trace.sys.r.pc.RSpin? && turn >= |sched| && Empty(trace.sys)
                        && trace.sys.dev.inactive < trace.sys.dev.timeout
      ensures !stuck ==> trace.sys.r.pc == if more then RSnapIn else RIdle
      ensures !stuck && more ==> first < |sched|
      ensures trace.sys.dev.rx.delivered == old(trace.sys.dev.rx.delivered)
      ensures ReaderWent(old(trace.Now()), trace.Now(), sched, turn0, turn)
    {
      hide Valid, IsSchedule, ReaderWent, Empty, SysOk;
      ghost var a := trace.Now();
      more := false;
      stuck, turn := SpinOnRxIn(inn, sched, turn0);
      ghost var b, was := trace.Now(), turn;
      if stuck { SpinsOnEmpty(); return; }
      ReaderWentOn(round, a, b, sched, first, turn0, turn);
      if first >= |sched| { QuietRead(round, sched, first, turn); }
      var giveUp;
      giveUp, turn := RecheckRxIn(inn, sched, turn);
      ReaderWentOn(a, b, trace.Now(), sched, turn0, was, turn);
      more := !giveUp;
    }

    /** With nothing else going on a reader that stops spinning finds the ring as it left it. */
    lemma QuietRead(a: Moment, sched: seq<seq<Action>>, first: nat, turn: nat)
      requires Valid() && first >= |sched| && ReaderWent(a, trace.Now(), sched, first, turn)
      requires SysOk(a.sys) && a.sys.r.pc.RSnapIn? && trace.sys.r.pc.RCheck?
      ensures trace.sys.r.inn == trace.sys.dev.rx.inn
    {
      hide Live, Run, Went, Slots;
      SlotsUsedUp(sched, first, turn);
    }

    lemma SpinsOnEmpty()
      requires Valid() && trace.sys.r.pc.RSpin? && trace.sys.r.inn == trace.sys.dev.rx.inn
      ensures Empty(trace.sys) && !trace.sys.r.nonblock
    {
      hide Run;
      RxLengths(trace.sys.dev.rx);
    }

    lemma ReadDone()
      requires Valid() && trace.sys.r.pc.RIdle?
      ensures trace.sys.r.dst == [] && trace.sys.r.want > 0 ==> trace.sys.r.nonblock || trace.sys.r.gone
    {
    }

    ghost method BeginRead(space: nat, nonblock: bool)
      requires Valid() && trace.sys.r.pc.RIdle?
      modifies trace
      ensures Valid() && old(trace.history) <= trace.history && trace.sys.w == old(trace.sys.w)
      ensures trace.sys.r.pc == if space > 0 then RSnapIn else RIdle
      ensures trace.sys.r.want == space == trace.sys.r.space && trace.sys.r.nonblock == nonblock
      ensures trace.sys.r.dst == [] && !trace.sys.r.gone
      ensures trace.sys.dev.rx.delivered == old(trace.sys.dev.rx.delivered)
      ensures SysOk(old(trace.sys)) && trace.Now() == After(old(trace.Now()), StartRead(space, nonblock))
    {
      hide Live, Run, SysOk;
      trace.Log(StartRead(space, nonblock));
    }

    /**
     * Closing waits for the ring to empty, unless the host is inactive or the caller will not wait.
     * A caller that will not wait has one look; any other waits for ever only behind a ring that is
     * not empty and a host that is still there.
     */
    method Close(nonblock: bool, sched: seq<seq<Action>>) returns (r: Outcome, ghost turns: nat)
      requires Valid() && IsSchedule(sched)
      modifies this, device, rxBuf, trace
      ensures Valid() && old(trace.history) <= trace.history
      ensures trace.sys.w == old(trace.sys.w) && trace.sys.r == old(trace.sys.r)
      ensures Own(trace.history) == Own(old(trace.history))
      ensures Others(trace.history) == Others(old(trace.history)) + Slots(sched, 0, turns)
      ensures r == Done(0) <==> txOut == txIn || hostInactive >= timeout
      ensures r != Done(0) ==> if nonblock then r == Done(-EWOULDBLOCK) else r == StillWaiting && turns >= |sched|
      ensures nonblock ==> turns == 1
      ensures Slots(sched, 0, turns) == [] ==> trace.sys == old(trace.sys)
    {
      hide Valid, IsSchedule, Preempted, Own, Others, Slots, Slot;
      var turn: nat := 0;
      NothingSlotted(trace.Now(), sched);
      while true
        invariant Valid() && old(trace.history) <= trace.history
        invariant trace.sys.w == old(trace.sys.w) && trace.sys.r == old(trace.sys.r)
        invariant nonblock ==> turn == 0
        invariant Preempted(old(trace.Now()), trace.Now(), Slots(sched, 0, turn))
        decreases if turn < |sched| then |sched| - turn else 0, true
      {
        ghost var m := trace.Now();
        var usedUp := turn >= |sched|;
        turn := PreemptNext(sched, turn);
        MoreSlots(old(trace.Now()), m, trace.Now(), sched, turn - 1);
        if !(txOut != txIn && hostInactive < timeout) {
          SlotsAre(old(trace.Now()), trace.Now(), Slots(sched, 0, turn));
          return Done(0), turn;
        }
        if nonblock || usedUp {
          SlotsAre(old(trace.Now()), trace.Now(), Slots(sched, 0, turn));
          return if nonblock then Done(-EWOULDBLOCK) else StillWaiting, turn;
        }
      }
    }
  }

  /** What the writer's second snapshot decides. */
  lemma TxOutIsStep(s: System)
    requires SysOk(s) && s.w.pc.WSnapOut? && s.w.inn < BUF_LEN && s.dev.tx.out < BUF_LEN && s.w.ptr <= |s.w.data|
    ensures var e, n := Next(s, WriterStep), Room(s.w.inn, s.dev.tx.out);
      && e.dev == s.dev && e.r == s.r && SameCall(s.w, e.w) && e.w.ptr == s.w.ptr && e.w.out == s.dev.tx.out
      && (n == 0 ==> e.w.pc.WKick?)
      && (n > 0 ==> e.w.pc.WCopy? && e.w.k == 0 && e.w.inn == s.w.inn && e.w.n == Min(n, |s.w.data| - s.w.ptr))
  {
    hide DevOk, TxOk, RxOk, WriterOk, ReaderOk, Room;
  }

  /** Preemptions accept and deliver nothing. */
  lemma OthersLeaveStreams(s: System, a: Action)
    requires SysOk(s) && IsPreemption(a)
    ensures Next(s, a).dev.tx.accepted == s.dev.tx.accepted && Next(s, a).dev.rx.delivered == s.dev.rx.delivered
  {
    hide Live, WriterOk, ReaderOk, TxOk, RxOk, Irq;
    match a
    case Interrupt(env) => IrqOk(s.dev.(env := env));
    case _ =>
  }

  /** Two moments of the same write call. */
  predicate SameCall(w0: Writer, w: Writer) {
    w.data == w0.data && w.nonblock == w0.nonblock && w.base == w0.base && (w0.gone ==> w.gone)
  }

  /** The reader once it knows `n` bytes can be copied from `out`. */
  function AfterSnap(r: Reader, out: nat, n: nat): Reader {
    if n == 0 then RAfterCopy(r.(out := out, n := 0, k := 0))
    else r.(out := out, n := Min(n, r.space), k := 0, pc := RCopy)
  }

  lemma AfterSnapKeeps(r: Reader, out: nat, n: nat)
    ensures var e := AfterSnap(r, out, n);
            && e.want == r.want && e.nonblock == r.nonblock && e.gone == r.gone && e.dst == r.dst
            && e.space == r.space && e.inn == r.inn && e.pc == (if n == 0 then AfterCopyPc(r) else RCopy)
  {
  }

  lemma AfterSnapIsStep(s: System)
    requires SysOk(s) && s.r.pc.RSnapOut? && s.r.inn < BUF_LEN
    ensures var out := s.dev.rx.out;
            out < BUF_LEN && Next(s, ReaderStep) == s.(r := AfterSnap(s.r, out, Available(s.r.inn, out)))
  {
  }

  /** Where the reader stands after its copy loop. */
  function AfterCopyPc(r: Reader): ReadPc {
    if r.dst != [] then REnable else if r.nonblock then RIdle else RSpin
  }

  /** One turn of the interrupt loop, and why it is not the last for ever. */
  lemma IrqUnfolds(d: Dev)
    requires DevOk(d)
    ensures var e := Settle(d);
            && DevOk(e) && |e.env| <= |d.env|
            && var c := ControlOf(e);
               if !c.ri && !c.wi then Irq(d) == e
               else
                 && DevOk(Pass(e, c)) && Irq(d) == Irq(Pass(e, c))
                 && (|Pass(e, c).env| < |d.env|
                     || (|Pass(e, c).env| == |d.env|
                         && RxWork(Pass(e, c).rx) + TxWork(Pass(e, c).tx) < RxWork(d.rx) + TxWork(d.tx)))
  {
    hide Live, Settle, TxWork, RxWork, RxService, TxService;
    SettleCalm(d);
    var e := Settle(d);
    if ControlOf(e).ri || ControlOf(e).wi { PassOk(e); }
  }
}
