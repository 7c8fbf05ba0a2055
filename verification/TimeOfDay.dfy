// Setting and reading the time of day on top of a wrapping tick counter.
module TimeOfDay {
  import opened Words

  const US: nat := 1000000

  datatype Time = Time(sec: int, usec: int) {
    ghost predicate Normal() {
      sec >= 0 && 0 <= usec < US
    }

    ghost function Total(): int {
      sec * US + usec
    }
  }

  /** Microseconds per tick, for a clock running at `rate` ticks per second. */
  function PerTick(rate: nat): nat
    requires rate > 0
  {
    US / rate
  }

  /** What setting the time stores: the product is taken in 32 bits. */
  function Reset(t: Time, nticks: u32, rate: nat): Time
    requires rate > 0
  {
    Time(t.sec - nticks / rate, t.usec - nticks * PerTick(rate) % WORD % US)
  }

  /** The borrowing loop of a read, with its clamp at zero. */
  function Borrow(t: Time): Time
    decreases if t.usec < 0 then -t.usec else 0
  {
    if t.usec >= 0 then t
    else if t.sec <= 0 then Time(0, 0)
    else Borrow(Time(t.sec - 1, t.usec + US))
  }

  function Carry(t: Time): Time
    decreases t.usec
  {
    if t.usec < US then t else Carry(Time(t.sec + 1, t.usec - US))
  }

  /** What a read returns: here the product is taken in 64 bits. */
  function Read(reset: Time, nticks: u32, rate: nat): Time
    requires rate > 0
  {
    Carry(Borrow(Time(reset.sec + nticks / rate, reset.usec + nticks * PerTick(rate) % US)))
  }

  class Clock {
    var resettime: Time
    var nticks: u32
    var rate: nat

    constructor ()
      ensures resettime == Time(0, 0) && nticks == 0 && rate == 0
    {
      resettime, nticks, rate := Time(0, 0), 0, 0;
    }

    method SetTimeOfDay(t: Time) returns (ok: bool)
      modifies this`resettime
      ensures ok <==> rate > 0
      ensures resettime == if rate > 0 then Reset(t, nticks, rate) else old(resettime)
    {
      if rate == 0 { return false; }
      var product: u32 := nticks * (US / rate) % WORD;
      resettime := Time(t.sec - nticks / rate, t.usec - product % US);
      return true;
    }

    method GetTimeOfDay() returns (ok: bool, t: Time)
      ensures ok <==> rate > 0
      ensures ok ==> t == Read(resettime, nticks, rate)
    {
      t := Time(0, 0);
      if rate == 0 { return false, t; }
      t := Time(resettime.sec + nticks / rate, resettime.usec + nticks * (US / rate) % US);
      ghost var raw := t;
      var clamped := false;
      while t.usec < 0 && !clamped
        invariant Borrow(raw) == if clamped then t else Borrow(t)
        invariant clamped ==> t == Time(0, 0)
        decreases !clamped, if t.usec < 0 then -t.usec else 0
      {
        if t.sec <= 0 {
          t := Time(0, 0);
          clamped := true;
        } else {
          t := Time(t.sec - 1, t.usec + US);
        }
      }
      ghost var borrowed := t;
      while t.usec >= US
        invariant Carry(borrowed) == Carry(t)
        decreases t.usec
      {
        t := Time(t.sec + 1, t.usec - US);
      }
      ok := true;
    }
  }

  // ----- what it means

  /** A read is always normalised in microseconds, whatever was stored. */
  lemma {:induction false} ReadIsNormal(reset: Time, nticks: u32, rate: nat)
    requires rate > 0
    ensures 0 <= Read(reset, nticks, rate).usec < US
  {
    var t := Time(reset.sec + nticks / rate, reset.usec + nticks * PerTick(rate) % US);
    BorrowNormal(t);
    CarryTotal(Borrow(t));
  }

  lemma {:induction false} BorrowNormal(t: Time)
    ensures Borrow(t).usec >= 0
    decreases if t.usec < 0 then -t.usec else 0
  {
    if t.usec < 0 && t.sec > 0 { BorrowNormal(Time(t.sec - 1, t.usec + US)); }
  }

  lemma {:induction false} CarryTotal(t: Time)
    requires t.usec >= 0
    ensures Carry(t).Total() == t.Total() && 0 <= Carry(t).usec < US
    decreases t.usec
  {
    if t.usec >= US { CarryTotal(Time(t.sec + 1, t.usec - US)); }
  }

  /** The clamp is never taken when the total is not negative. */
  lemma {:induction false} BorrowTotal(t: Time)
    requires t.Total() >= 0
    ensures Borrow(t).Total() == t.Total()
    decreases if t.usec < 0 then -t.usec else 0
  {
    if t.usec < 0 { BorrowTotal(Time(t.sec - 1, t.usec + US)); }
  }

  /**
   * A read is the stored time plus the ticks, except that one which would lie before the epoch and
   * needs a borrow is the epoch itself.
   */
  lemma ReadIs(reset: Time, nticks: u32, rate: nat)
    requires rate > 0
    ensures var raw, r := Time(reset.sec + nticks / rate, reset.usec + nticks * PerTick(rate) % US),
                          Read(reset, nticks, rate);
      if raw.usec < 0 && raw.Total() < 0 then r == Time(0, 0) else 0 <= r.usec < US && r.Total() == raw.Total()
  {
    var raw := Time(reset.sec + nticks / rate, reset.usec + nticks * PerTick(rate) % US);
    if raw.Total() >= 0 { BorrowTotal(raw); }
    if raw.usec < 0 && raw.Total() < 0 { BorrowClamps(raw); }
    BorrowNormal(raw);
    CarryTotal(Borrow(raw));
    hide PerTick;
  }

  lemma {:induction false} BorrowClamps(t: Time)
    requires t.usec < 0 && t.Total() < 0
    ensures Borrow(t) == Time(0, 0)
    decreases -t.usec
  {
    if t.sec > 0 { BorrowClamps(Time(t.sec - 1, t.usec + US)); }
  }

  /** Whole seconds and the rest of a tick count add up to its microseconds. */
  lemma TicksAddUp(n: nat, rate: nat, q: nat)
    requires rate > 0 && rate * q == US
    ensures n / rate * US + n * q % US == n * q
  {
    var s, r := n / rate, n % rate;
    assert n == rate * s + r;
    assert n * q == s * US + r * q by {
      assert (rate * s + r) * q == (rate * q) * s + r * q;
    }
    assert r * q < rate * q by { assert r + 1 <= rate; assert (r + 1) * q <= rate * q; assert q > 0; }
    assert (s * US + r * q) % US == r * q;
  }

  /** The microseconds by which a set time is off, seen by every later read. */
  ghost function Off(nticks: u32, q: nat): int {
    nticks * q % US - nticks * q % WORD % US
  }

  /**
   * A read `n1 - n0` ticks after the set returns the set time plus that many ticks, plus the
   * error made at the set, as long as that is not before the epoch.
   */
  lemma ReadAfterSet(t: Time, n0: u32, n1: u32, rate: nat, q: nat)
    requires rate > 0 && rate * q == US && n0 <= n1 && t.Normal()
    requires t.Total() + (n1 - n0) * q + Off(n0, q) >= 0
    ensures Read(Reset(t, n0, rate), n1, rate).Total() == t.Total() + (n1 - n0) * q + Off(n0, q)
  {
    assert PerTick(rate) == q by { Quotient(rate, q); }
    TicksAddUp(n0, rate, q);
    TicksAddUp(n1, rate, q);
    var reset := Reset(t, n0, rate);
    var raw := Time(reset.sec + n1 / rate, reset.usec + n1 * q % US);
    assert n1 * q - n0 * q == (n1 - n0) * q;
    assert raw.Total() == t.Total() + (n1 - n0) * q + Off(n0, q);
    BorrowTotal(raw);
    BorrowNormal(raw);
    CarryTotal(Borrow(raw));
  }

  lemma Quotient(rate: nat, q: nat)
    requires rate > 0 && rate * q == US
    ensures US / rate == q
  {
    var k := US / rate;
    if k < q { MulLe(rate, k + 1, q); }
    if k > q { MulLe(rate, q + 1, k); }
  }

  lemma MulLe(d: nat, a: nat, b: nat)
    requires a <= b
    ensures d * a <= d * b
  {
  }

  /** The clock runs on exactly from the time that was set, for this time and every later tick. */
  ghost predicate KeepsTime(t: Time, n0: u32, n1: u32, rate: nat, q: nat)
    requires rate > 0
  {
    var r := Read(Reset(t, n0, rate), n1, rate);
    r.Normal() && r.Total() == t.Total() + (n1 - n0) * q
  }

  /**
   * Reads return the time that was set plus the elapsed ticks, for every set time and every later
   * tick before the counter wraps, exactly if the high half of the product at the set is a
   * multiple of 15625; in particular if the product fits in 32 bits.
   */
  lemma SetThenReadIff(n0: u32, rate: nat, q: nat)
    requires rate > 0 && rate * q == US
    ensures (forall t: Time, n1: u32 :: t.Normal() && n0 <= n1 ==> KeepsTime(t, n0, n1, rate, q))
            <==> n0 * q / WORD % 15625 == 0
  {
    hide KeepsTime, Off;
    ExactSetIff(n0, q);
    if Off(n0, q) == 0 {
      forall t: Time, n1: u32 | t.Normal() && n0 <= n1 ensures KeepsTime(t, n0, n1, rate, q) {
        ExactSetKeepsTime(t, n0, n1, rate, q);
      }
    } else {
      InexactSetLosesTime(n0, rate, q);
    }
  }

  lemma ExactSetKeepsTime(t: Time, n0: u32, n1: u32, rate: nat, q: nat)
    requires rate > 0 && rate * q == US && n0 <= n1 && t.Normal() && Off(n0, q) == 0
    ensures KeepsTime(t, n0, n1, rate, q)
  {
    hide Read, Reset, Off;
    assert (n1 - n0) * q >= 0;
    ReadAfterSet(t, n0, n1, rate, q);
    ReadIsNormal(Reset(t, n0, rate), n1, rate);
  }

  lemma InexactSetLosesTime(n0: u32, rate: nat, q: nat)
    requires rate > 0 && rate * q == US && Off(n0, q) != 0
    ensures Time(2, 0).Normal() && !KeepsTime(Time(2, 0), n0, n0, rate, q)
  {
    assert -1000000 < Off(n0, q);
    hide Read, Reset, Off;
    assert (n0 - n0) * q == 0;
    ReadAfterSet(Time(2, 0), n0, n0, rate, q);
  }

  lemma ExactSetIff(n0: u32, q: nat)
    ensures Off(n0, q) == 0 <==> n0 * q / WORD % 15625 == 0
  {
    OffIsZeroIff(n0 * q);
  }

  lemma OffIsZeroIff(product: nat)
    ensures product % US - product % WORD % US == 0 <==> product / WORD % 15625 == 0
  {
    var k, low := product / WORD, product % WORD;
    assert product == WORD * k + low;
    if k % 15625 == 0 {
      var j := k / 15625;
      assert k == 15625 * j && WORD * k == US * (67108864 * j);
      SameRemainder(low, 67108864 * j);
    }
    if product % US == low % US {
      var z := product / US - low / US;
      assert WORD * k == US * z;
      assert 67108864 * k == 15625 * z;
      // 12659 is the inverse of 67108864 modulo 15625
      assert k == 15625 * (12659 * z - 54369991 * k);
      MultipleOf(k, 12659 * z - 54369991 * k);
    }
  }

  lemma SameRemainder(low: nat, n: nat)
    ensures (US * n + low) % US == low % US
  {
  }

  lemma MultipleOf(k: nat, n: int)
    requires k == 15625 * n
    ensures k % 15625 == 0
  {
  }

  /** With a millisecond tick the first failing set comes after some 72 minutes. */
  lemma FirstFailure()
    ensures forall n0: u32 :: n0 < 4294968 ==> n0 * 1000 / WORD % 15625 == 0
    ensures 4294968 * 1000 / WORD % 15625 != 0
  {
  }
}
