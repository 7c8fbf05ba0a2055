// The buffered UART driver as written, transmit side: one state structure updated in place by an
// interrupt routine and by the write routine. Everything it does is a run of the machine.
module UartDriver {
  import opened Words
  import opened Ring
  import opened Schedules
  import opened UartTx
  import opened UartCalls

  datatype Outcome = Done(value: nat, wouldBlock: bool) | StillWaiting

  class Uart {
    const txBuf: array<byte>
    const flowControl: bool
    var txStart: nat
    var txEnd: nat
    var ctrl: Ctrl
    var hw: Hw
    ghost var born: System
    ghost var history: seq<Action>
    ghost var sys: System

    /** The machine state is the object's state; it was reached by the recorded actions. */
    ghost predicate Valid()
      reads this, txBuf
    {
      && Inv(born) && Inv(sys) && sys == Run(born, history)
      && Shows(sys)
    }

    ghost predicate Shows(s: System)
      reads this, txBuf
    {
      && s.buf == txBuf[..] && s.start == txStart && s.end == txEnd
      && s.ctrl == ctrl && s.fc == flowControl && s.hw == hw
    }

    ghost function Now(): Moment
      reads this
    {
      Moment(sys, history)
    }

    constructor (flowControl: bool, hw: Hw)
      ensures Valid() && fresh(txBuf) && history == [] && Initial(born)
      ensures this.flowControl == flowControl && this.hw == hw
    {
      this.flowControl, this.hw := flowControl, hw;
      txBuf := new byte[BUF_LEN];
      txStart, txEnd, ctrl := 0, 0, Ctrl(false, true);
      history := [];
      new;
      sys := System(txBuf[..], 0, 0, ctrl, flowControl, hw, Writer(Idle, [], 0, 0, false, []), [], [], 0, false);
      born := sys;
      InitialOk(sys);
    }

    ghost method Log(a: Action)
      requires Inv(born) && Inv(sys) && sys == Run(born, history)
      modifies this`history, this`sys
      ensures history == old(history) + [a] && sys == Next(old(sys), a)
      ensures Inv(sys) && sys == Run(born, history)
    {
      hide Next, Covered, WriterOk, Live;
      NextOk(sys, a);
      RunSnoc(born, history, a);
      history := history + [a];
      sys := Next(sys, a);
    }

    /** The transmit part of the interrupt routine. */
    method TransmitHandler(status: Hw)
      requires Inv(sys) && Shows(sys.(hw := hw))
      modifies this`hw, this`txStart, this`ctrl
      ensures Shows(TransmitIrq(sys.(hw := old(hw)), status))
    {
      hide Live, Covered, WriterOk;
      if txStart != txEnd {
        if !flowControl || status.cts {
          hw := hw.(ready := false);
          txStart := (txStart + 1) % BUF_LEN;
          ctrl := ctrl.(trdy := true);
        } else {
          if !hw.cts { ctrl := ctrl.(trdy := false); }
        }
      }
      if txStart == txEnd { ctrl := Ctrl(false, false); }
    }

    /** The interrupt routine, with what the device and the line do around its accesses. */
    method IrqHandler(g: Gaps)
      requires Valid()
      modifies this
      ensures Valid() && history == old(history) + [Interrupt(g)] && sys.w == old(sys.w)
      ensures sys.accepted == old(sys.accepted) && sys.dirty == old(sys.dirty)
    {
      hide Run, Inv, TransmitIrq;
      IrqKeepsWriter(sys, g);
      hw := Elapse(hw, g.before);
      var status := hw;
      hw := Elapse(hw, g.afterRead);
      hw := hw.(dcts := false);
      hw := Elapse(hw, g.afterClear);
      if status.ready || status.dcts { TransmitHandler(status); }
      hw := Elapse(hw, g.rest);
      Log(Interrupt(g));
    }

    method Preempt(acts: seq<Action>)
      requires Valid() && forall j :: 0 <= j < |acts| ==> IsPreemption(acts[j])
      modifies this
      ensures Valid() && Preempted(old(Now()), Now(), acts) && old(history) <= history && sys.w == old(sys.w)
      ensures sys.accepted == old(sys.accepted) && sys.dirty == old(sys.dirty)
    {
      hide Run, Inv, Preempted;
      var i := 0;
      NotPreempted(Now());
      while i < |acts|
        invariant i <= |acts| && Valid() && old(history) <= history && sys.w == old(sys.w)
        invariant sys.accepted == old(sys.accepted) && sys.dirty == old(sys.dirty)
        invariant Preempted(old(Now()), Now(), acts[..i])
      {
        ghost var m := Now();
        match acts[i] {
          case Interrupt(g) => IrqHandler(g);
          case Wait(g) =>
            hw := Elapse(hw, g);
            Log(Wait(g));
        }
        PreemptedMore(old(Now()), m, Now(), acts[..i], acts[i]);
        assert acts[..i] + [acts[i]] == acts[..i + 1];
        i := i + 1;
      }
      assert acts[..i] == acts;
    }

    method PreemptNext(sched: seq<seq<Action>>, turn: nat) returns (next: nat)
      requires Valid() && IsSchedule(sched)
      modifies this
      ensures Valid() && Preempted(old(Now()), Now(), Slot(sched, turn))
      ensures old(history) <= history && sys.w == old(sys.w) && next == turn + 1
      ensures sys.accepted == old(sys.accepted) && sys.dirty == old(sys.dirty)
      ensures turn >= |sched| ==> sys == old(sys)
    {
      hide Valid, Own, Others;
      NotPreempted(Now());
      if turn < |sched| { Preempt(sched[turn]); }
      next := turn + 1;
    }

    /** Find the next slot and see whether it is free. */
    method Look(sched: seq<seq<Action>>, turn: nat) returns (slot: nat, free: bool, next: nat)
      requires Valid() && IsSchedule(sched) && sys.w.pc.Top? && sys.w.ptr < |sys.w.data|
      modifies this
      ensures Valid() && old(history) <= history && next == turn + 1 && sys.accepted == old(sys.accepted)
      ensures sys.w == old(sys.w).(next := slot,
                         pc := if free then Store else if sys.w.nonblock then Final else Enable)
      ensures Went(old(Now()), Now(), sched, turn, next)
    {
      hide Run, Live, Covered, Preempted, Went, Own, Others, Slot;
      next := PreemptNext(sched, turn);
      ghost var m := Now();
      slot := (txEnd + 1) % BUF_LEN;
      free := slot != txStart;
      Log(Step);
      WentOne(old(Now()), m, Now(), sched, turn);
    }

    /** Enable both transmit interrupts, with interrupts held off around the update. */
    method EnableInterrupts(sched: seq<seq<Action>>, turn: nat) returns (next: nat)
      requires Valid() && IsSchedule(sched) && (sys.w.pc.Enable? || sys.w.pc.Final?)
      modifies this
      ensures Valid() && old(history) <= history && next == turn + 1 && sys.accepted == old(sys.accepted)
      ensures sys.w == old(sys.w).(pc := if old(sys.w.pc).Enable? then Spin else Idle)
      ensures Went(old(Now()), Now(), sched, turn, next)
    {
      hide Run, Live, Covered, Preempted, Went, Own, Others, Slot;
      next := PreemptNext(sched, turn);
      ghost var m := Now();
      ctrl := Ctrl(true, true);
      Log(Step);
      WentOne(old(Now()), m, Now(), sched, turn);
    }

    /** `next == sp->tx_start` */
    method TestFull(slot: nat, sched: seq<seq<Action>>, turn: nat) returns (full: bool, next: nat)
      requires Valid() && IsSchedule(sched) && sys.w.pc.Spin? && sys.w.next == slot
      modifies this
      ensures Valid() && old(history) <= history && next == turn + 1 && sys.accepted == old(sys.accepted)
      ensures sys.w == old(sys.w).(pc := if full then Spin else Store)
      ensures full <==> slot == sys.start
      ensures Went(old(Now()), Now(), sched, turn, next)
    {
      hide Run, Live, Covered, Preempted, Went, Own, Others, Slot;
      next := PreemptNext(sched, turn);
      ghost var m := Now();
      full := slot == txStart;
      Log(Step);
      WentOne(old(Now()), m, Now(), sched, turn);
    }

    method SpinForRoom(slot: nat, sched: seq<seq<Action>>, first: nat) returns (stuck: bool, turn: nat)
      requires Valid() && IsSchedule(sched) && sys.w.pc.Spin? && sys.w.next == slot
      modifies this
      ensures Valid() && old(history) <= history && turn >= first && sys.accepted == old(sys.accepted)
      ensures sys.w == old(sys.w).(pc := if stuck then Spin else Store)
      ensures stuck ==> turn >= |sched| && slot == sys.start
      ensures Went(old(Now()), Now(), sched, first, turn)
    {
      hide Valid, Went;
      turn, stuck := first, false;
      var full := true;
      WentNowhere(Now(), sched, first);
      while full && !stuck
        invariant Valid() && old(history) <= history && turn >= first && sys.accepted == old(sys.accepted)
        invariant sys.w == old(sys.w).(pc := if full then Spin else Store)
        invariant stuck ==> full && turn >= |sched| && slot == sys.start
        invariant Went(old(Now()), Now(), sched, first, turn)
        decreases if turn < |sched| then |sched| - turn else 0, full && !stuck
      {
        ghost var m, was := Now(), turn;
        var usedUp := turn >= |sched|;
        full, turn := TestFull(slot, sched, turn);
        WentOn(old(Now()), m, Now(), sched, first, was, turn);
        stuck := full && usedUp;
      }
    }

    /** Store the byte in the slot at the end of the ring. */
    method StoreByte(b: byte, sched: seq<seq<Action>>, turn: nat) returns (next: nat)
      requires Valid() && IsSchedule(sched) && sys.w.pc.Store?
      requires sys.w.ptr < |sys.w.data| && sys.w.data[sys.w.ptr] == b
      modifies this, txBuf
      ensures Valid() && old(history) <= history && next == turn + 1
      ensures sys.accepted == old(sys.accepted) && sys.w == old(sys.w).(pc := Bump)
      ensures Went(old(Now()), Now(), sched, turn, next)
    {
      hide Run, Live, Covered, Preempted, Went, Own, Others, Slot;
      next := PreemptNext(sched, turn);
      ghost var m := Now();
      txBuf[txEnd] := b;
      Log(Step);
      WentOne(old(Now()), m, Now(), sched, turn);
    }

    /** Then move the end of the ring past it. */
    method MoveEnd(slot: nat, sched: seq<seq<Action>>, turn: nat) returns (next: nat)
      requires Valid() && IsSchedule(sched) && sys.w.pc.Bump? && sys.w.next == slot
      requires sys.w.ptr < |sys.w.data|
      modifies this
      ensures Valid() && old(history) <= history && next == turn + 1
      ensures sys.accepted == old(sys.accepted) + [old(sys.w.data[sys.w.ptr])]
      ensures sys.w == old(sys.w).(pc := Top, ptr := old(sys.w.ptr) + 1)
      ensures Went(old(Now()), Now(), sched, turn, next)
    {
      hide Run, Live, Covered, Preempted, Went, Own, Others, Slot;
      next := PreemptNext(sched, turn);
      ghost var m := Now();
      txEnd := slot;
      Log(Step);
      WentOne(old(Now()), m, Now(), sched, turn);
    }

    method Append(b: byte, slot: nat, sched: seq<seq<Action>>, turn: nat) returns (next: nat)
      requires Valid() && IsSchedule(sched) && sys.w.pc.Store? && sys.w.next == slot
      requires sys.w.ptr < |sys.w.data| && sys.w.data[sys.w.ptr] == b
      modifies this, txBuf
      ensures Valid() && old(history) <= history && next == turn + 2
      ensures sys.accepted == old(sys.accepted) + [b]
      ensures sys.w == old(sys.w).(pc := Top, ptr := old(sys.w.ptr) + 1)
      ensures Went(old(Now()), Now(), sched, turn, next)
    {
      hide Valid, Went;
      next := StoreByte(b, sched, turn);
      ghost var m := Now();
      next := MoveEnd(slot, sched, next);
      WentOn(old(Now()), m, Now(), sched, turn, turn + 1, next);
    }

    /**
     * The write routine, with `sched` saying what happens before each of its accesses. It is a run
     * of the machine: one call with its steps, between which exactly the schedule happens. On
     * return exactly the reported prefix of `data` was accepted, the whole of it if the caller is
     * willing to wait. It waits for ever only with a full ring. Left alone, it puts in what fits.
     */
    method Write(data: seq<byte>, nonblock: bool, sched: seq<seq<Action>>) returns (r: Outcome, ghost turns: nat)
      requires Valid() && IsSchedule(sched) && sys.w.pc.Idle?
      modifies this, txBuf
      ensures Valid() && old(history) <= history
      ensures Extends(Own(old(history)) + [Call(data, nonblock)], Own(history), Step)
      ensures Others(history) == Others(old(history)) + Slots(sched, 0, turns)
      ensures sys.w.ptr <= |data| && sys.accepted == old(sys.accepted) + data[..sys.w.ptr]
      ensures r.Done? ==>
        && sys.w.pc.Idle? && r.value == sys.w.ptr
        && (r.wouldBlock <==> r.value < |data|) && (r.wouldBlock ==> nonblock)
      ensures r.StillWaiting? ==> sys.w.pc.Spin? && !nonblock && turns >= |sched| && Full(sys)
      ensures Slots(sched, 0, turns) == [] ==>
        && Shape(old(sys).buf, old(sys).end, old(sys).start)
        && var room := BUF_LEN - 1 - |Live(old(sys).buf, old(sys).end, old(sys).start)|;
           var n := if |data| <= room then |data| else room;
        && sys.w.ptr == n && r == if n < |data| && !nonblock then StillWaiting else Done(n, n < |data|)
    {
      hide Valid, Went, Own, Others, Slots, Extends, Full, Inv, Live;
      ghost var before := Now();
      IsSound();
      Begin(data, nonblock);
      ghost var start, w0 := Now(), sys.w;
      var turn: nat, count: nat, ptr: nat, wouldBlock := 0, |data|, 0, false;
      WentNowhere(start, sched, 0);
      while count > 0 && !wouldBlock
        invariant Valid() && old(history) <= history && 0 <= count && ptr + count == |data|
        invariant sys.accepted == old(sys.accepted) + data[..ptr]
        invariant sys.w == w0.(ptr := ptr, next := sys.w.next, pc := if wouldBlock then Final else Top)
        invariant wouldBlock ==> nonblock && count > 0
        invariant Went(start, Now(), sched, 0, turn)
        decreases count, !wouldBlock
      {
        var free, stuck;
        ghost var m, was := Now(), turn;
        free, stuck, turn := WriteOne(data, ptr, nonblock, sched, turn);
        WentOn(start, m, Now(), sched, 0, was, turn);
        if stuck {
          IsSound();
          WholeCall(before, start, Now(), data, nonblock, sched, turn);
          return StillWaiting, turn;
        }
        if free {
          OneMore(old(sys.accepted), data, ptr);
          count, ptr := count - 1, ptr + 1;
        } else {
          wouldBlock := true;
        }
      }
      ghost var m, was := Now(), turn;
      WentNowhere(m, sched, turn);
      if !wouldBlock { Leave(sched, turn); }
      turn := EnableInterruptsAtEnd(sched, turn, m);
      WentOn(start, m, Now(), sched, 0, was, turn);
      IsSound();
      WholeCall(before, start, Now(), data, nonblock, sched, turn);
      return Done(|data| - count, wouldBlock), turn;
    }

    lemma IsSound()
      requires Valid()
      ensures Inv(sys) && Shape(sys.buf, sys.end, sys.start)
    {
    }

    /** The last access of a call; `m` is the moment at which the loop was left. */
    method EnableInterruptsAtEnd(sched: seq<seq<Action>>, turn: nat, ghost m: Moment) returns (next: nat)
      requires Valid() && IsSchedule(sched) && sys.w.pc.Final? && Went(m, Now(), sched, turn, turn)
      modifies this
      ensures Valid() && old(history) <= history && next == turn + 1 && sys.accepted == old(sys.accepted)
      ensures sys.w == old(sys.w).(pc := Idle) && Went(m, Now(), sched, turn, next)
    {
      hide Valid, Went;
      ghost var b := Now();
      next := EnableInterrupts(sched, turn);
      WentOn(m, b, Now(), sched, turn, turn, next);
    }

    /** One byte: `free` if it was put in the ring, `stuck` if there will never be room. */
    method WriteOne(data: seq<byte>, ptr: nat, nonblock: bool, sched: seq<seq<Action>>, first: nat)
      returns (free: bool, stuck: bool, turn: nat)
      requires Valid() && IsSchedule(sched) && sys.w.pc.Top? && sys.w.data == data && sys.w.ptr == ptr < |data|
      requires sys.w.nonblock == nonblock
      modifies this, txBuf
      ensures Valid() && old(history) <= history && Went(old(Now()), Now(), sched, first, turn)
      ensures stuck ==> !nonblock && turn >= |sched| && Full(sys)
                        && sys.w == old(sys.w).(next := sys.w.next, pc := Spin) && sys.accepted == old(sys.accepted)
      ensures !stuck && !free ==>
                nonblock && sys.w == old(sys.w).(next := sys.w.next, pc := Final) && sys.accepted == old(sys.accepted)
      ensures !stuck && free ==>
                && sys.w == old(sys.w).(next := sys.w.next, ptr := ptr + 1)
                && sys.accepted == old(sys.accepted) + [data[ptr]]
    {
      hide Valid, Went, Full;
      ghost var a := Now();
      var slot;
      stuck := false;
      slot, free, turn := Look(sched, first);
      if !free && !nonblock {
        ghost var b, was := Now(), turn;
        turn := EnableInterrupts(sched, turn);
        WentOn(a, b, Now(), sched, first, was, turn);
        b, was := Now(), turn;
        stuck, turn := SpinForRoom(slot, sched, turn);
        WentOn(a, b, Now(), sched, first, was, turn);
        free := !stuck;
        if stuck { SpinsOnFull(); }
      }
      if free {
        ghost var b, was := Now(), turn;
        turn := Append(data[ptr], slot, sched, turn);
        WentOn(a, b, Now(), sched, first, was, turn);
      }
    }

    lemma SpinsOnFull()
      requires Valid() && sys.w.pc.Spin? && sys.w.next == sys.start
      ensures Full(sys)
    {
      hide Run;
    }

    ghost method Begin(data: seq<byte>, nonblock: bool)
      requires Valid() && sys.w.pc.Idle?
      modifies this`history, this`sys
      ensures Valid() && old(history) <= history && sys.accepted == old(sys.accepted)
      ensures sys.w == Writer(Top, data, 0, 0, nonblock, sys.accepted)
      ensures Inv(old(sys))
      ensures Now() == Moment(Next(old(sys), Call(data, nonblock)), old(history) + [Call(data, nonblock)])
    {
      hide Run, Live, Covered, WriterOk;
      Log(Call(data, nonblock));
    }

    /** The loop is left when nothing remains. */
    ghost method Leave(sched: seq<seq<Action>>, turn: nat)
      requires Valid() && sys.w.pc.Top? && sys.w.ptr == |sys.w.data|
      modifies this`history, this`sys
      ensures Valid() && old(history) <= history && sys.accepted == old(sys.accepted)
      ensures sys.w == old(sys.w).(pc := Final) && Went(old(Now()), Now(), sched, turn, turn)
    {
      hide Run, Live, Covered, Went;
      ghost var m := Now();
      Log(Step);
      WentStill(m, Now(), sched, turn);
    }
  }

  lemma IrqKeepsWriter(s: System, g: Gaps)
    requires Inv(s)
    ensures Irq(s, g).w == s.w && Irq(s, g).accepted == s.accepted && Irq(s, g).dirty == s.dirty
  {
  }

  lemma OneMore(a: seq<byte>, data: seq<byte>, k: nat)
    requires k < |data|
    ensures a + data[..k] + [data[k]] == a + data[..k + 1]
  {
  }
}
