// The polled USB controller: a byte-wide DATA register with blocking accesses and a STATUS register.
module UsbController {
  import opened Words
  import opened UsbFormat

  const POLL_LIMIT: nat := 1000000
  const RETRY_LIMIT: nat := 16

  datatype Status = Status(error: bool, txFull: bool)

  /** Whether the byte went out, and the index of the next STATUS read. */
  datatype Attempt = Attempt(ok: bool, next: nat)

  // ----- one byte, seen as a function of what STATUS will show

  /** The STATUS reads of `usbctrl_clear_errors_and_wait`, `n` of them already made. */
  ghost function Cleared(status: nat -> Status, at: nat, n: nat): (next: nat)
    requires n <= RETRY_LIMIT
    ensures at < next <= at + RETRY_LIMIT - n + 1
    decreases RETRY_LIMIT - n
  {
    if n == RETRY_LIMIT || !status(at).error then at + 1 else Cleared(status, at + 1, n + 1)
  }

  ghost function Polling(status: nat -> Status, at: nat, polls: nat, retries: nat): Attempt
    requires polls <= POLL_LIMIT
    decreases POLL_LIMIT - polls
  {
    if polls == POLL_LIMIT then Attempt(false, at + 1)
    else if status(at).error then
      if retries < RETRY_LIMIT then Polling(status, Cleared(status, at + 1, 0), polls + 1, retries + 1)
      else Attempt(false, at + 1)
    else if status(at).txFull then Polling(status, at + 1, polls + 1, retries)
    else Attempt(true, at + 1)
  }

  /** One poll. */
  lemma PollingStep(status: nat -> Status, at: nat, polls: nat, retries: nat)
    requires polls <= POLL_LIMIT
    ensures Polling(status, at, polls, retries) ==
      if polls == POLL_LIMIT then Attempt(false, at + 1)
      else if status(at).error then
        if retries < RETRY_LIMIT then Polling(status, Cleared(status, at + 1, 0), polls + 1, retries + 1)
        else Attempt(false, at + 1)
      else if status(at).txFull then Polling(status, at + 1, polls + 1, retries)
      else Attempt(true, at + 1)
  {
    hide Cleared;
  }

  lemma {:induction false} PollingCost(status: nat -> Status, at: nat, polls: nat, retries: nat)
    requires polls <= POLL_LIMIT && retries <= RETRY_LIMIT
    ensures at < Polling(status, at, polls, retries).next
    ensures Polling(status, at, polls, retries).next <= at + POLL_LIMIT - polls + 17 * (RETRY_LIMIT - retries) + 1
    decreases POLL_LIMIT - polls
  {
    if polls < POLL_LIMIT {
      if status(at).error {
        if retries < RETRY_LIMIT { PollingCost(status, Cleared(status, at + 1, 0), polls + 1, retries + 1); }
      } else if status(at).txFull {
        PollingCost(status, at + 1, polls + 1, retries);
      }
    }
  }

  /** One byte never costs more than this many STATUS reads. */
  lemma WriteByteCost(status: nat -> Status, at: nat)
    ensures Polling(status, at, 0, 0).next - at <= 1000000 + 16 * 17 + 1
  {
    PollingCost(status, at, 0, 0);
  }

  /** The bound is attained: sixteen stubborn errors, then a FIFO that stays full. */
  ghost function Worst(): nat -> Status {
    i => if i < 18 * RETRY_LIMIT then Status(true, true) else Status(false, true)
  }

  lemma {:induction false} WorstClears(at: nat, n: nat)
    requires n <= RETRY_LIMIT && at + RETRY_LIMIT - n <= 18 * RETRY_LIMIT
    ensures Cleared(Worst(), at, n) == at + RETRY_LIMIT - n + 1
    decreases RETRY_LIMIT - n
  {
    if n < RETRY_LIMIT { WorstClears(at + 1, n + 1); }
  }

  lemma {:induction false} StaysFull(at: nat, polls: nat, retries: nat)
    requires polls <= POLL_LIMIT && at >= 18 * RETRY_LIMIT
    ensures Polling(Worst(), at, polls, retries) == Attempt(false, at + POLL_LIMIT - polls + 1)
    decreases POLL_LIMIT - polls
  {
    if polls < POLL_LIMIT { StaysFull(at + 1, polls + 1, retries); }
  }

  lemma {:induction false} StaysBroken(retries: nat)
    requires retries <= RETRY_LIMIT
    ensures Polling(Worst(), 18 * retries, retries, retries) == Attempt(false, 1000000 + 16 * 17 + 1)
    decreases RETRY_LIMIT - retries
  {
    hide Cleared;
    assert Worst()(18 * retries).error <==> retries < RETRY_LIMIT;
    if retries < RETRY_LIMIT {
      WorstClears(18 * retries + 1, 0);
      assert Cleared(Worst(), 18 * retries + 1, 0) == 18 * (retries + 1);
      StaysBroken(retries + 1);
    } else {
      hide Polling;
      StaysFull(18 * RETRY_LIMIT, RETRY_LIMIT, RETRY_LIMIT);
    }
  }

  lemma WriteByteCostIsTight()
    ensures exists status :: Polling(status, 0, 0, 0).next == 1000000 + 16 * 17 + 1
  {
    StaysBroken(0);
    assert Polling(Worst(), 0, 0, 0).next == 1000000 + 16 * 17 + 1;
  }

  /** Without errors the byte goes out exactly if the FIFO has room at one of the polls. */
  lemma {:induction false} SucceedsIffRoom(status: nat -> Status, at: nat, polls: nat, retries: nat)
    requires polls <= POLL_LIMIT
    requires forall i :: at <= i < at + POLL_LIMIT - polls ==> !status(i).error
    ensures Polling(status, at, polls, retries).ok <==>
            exists i :: at <= i < at + POLL_LIMIT - polls && !status(i).txFull
    decreases POLL_LIMIT - polls
  {
    if polls < POLL_LIMIT {
      assert !status(at).error;
      if status(at).txFull {
        SucceedsIffRoom(status, at + 1, polls + 1, retries);
        assert forall i :: at <= i < at + POLL_LIMIT - polls && !status(i).txFull ==> at + 1 <= i;
      }
    }
  }

  // ----- with errors: which polls are made, and which of them lets the byte go

  /** The clearing reads end with the first that shows no error, or with the seventeenth. */
  lemma {:induction false} ClearedIsFirst(status: nat -> Status, at: nat, n: nat)
    requires n <= RETRY_LIMIT
    ensures var last := Cleared(status, at, n) - 1;
      && at <= last <= at + RETRY_LIMIT - n && (forall i :: at <= i < last ==> status(i).error)
      && (last < at + RETRY_LIMIT - n ==> !status(last).error)
    decreases RETRY_LIMIT - n
  {
    if n < RETRY_LIMIT && status(at).error { ClearedIsFirst(status, at + 1, n + 1); }
  }

  /**
   * The STATUS read that poll number `k` makes, counted from `at`, if no earlier poll ends the
   * call: one read after a poll without an error, and the clearing reads after one with.
   */
  ghost function PollAt(status: nat -> Status, at: nat, k: nat): nat {
    if k == 0 then at
    else
      var p := PollAt(status, at, k - 1);
      if status(p).error then Cleared(status, p + 1, 0) else p + 1
  }

  /** How many of the first `k` polls show an error. */
  ghost function Errors(status: nat -> Status, at: nat, k: nat): nat {
    if k == 0 then 0
    else Errors(status, at, k - 1) + if status(PollAt(status, at, k - 1)).error then 1 else 0
  }

  ghost predicate Clear(s: Status) { !s.error && !s.txFull }

  /** Poll `k` lets the byte go: it shows room and no error, after at most sixteen errors. */
  ghost predicate LetsGo(status: nat -> Status, at: nat, k: nat) {
    Clear(status(PollAt(status, at, k))) && Errors(status, at, k) <= RETRY_LIMIT
  }

  /** The call has come to poll `k` if no earlier one ended it. */
  lemma {:induction false} ComesTo(status: nat -> Status, at: nat, k: nat)
    requires k <= POLL_LIMIT && Errors(status, at, k) <= RETRY_LIMIT
    requires forall j :: 0 <= j < k ==> !LetsGo(status, at, j)
    ensures Polling(status, at, 0, 0) == Polling(status, PollAt(status, at, k), k, Errors(status, at, k))
    decreases k
  {
    hide Cleared;
    if k > 0 {
      ComesTo(status, at, k - 1);
      assert !LetsGo(status, at, k - 1);
    }
  }

  lemma {:induction false} ErrorsGrow(status: nat -> Status, at: nat, j: nat, k: nat)
    requires j <= k
    ensures Errors(status, at, j) <= Errors(status, at, k)
    decreases k
  {
    hide PollAt;
    if j < k { ErrorsGrow(status, at, j, k - 1); }
  }

  /** Where the call ends: at the first poll that lets go, at the seventeenth error, or after all polls. */
  lemma {:induction false} EndsAt(status: nat -> Status, at: nat, k: nat)
    requires k <= POLL_LIMIT && Errors(status, at, k) <= RETRY_LIMIT
    requires forall j :: 0 <= j < k ==> !LetsGo(status, at, j)
    ensures Polling(status, at, 0, 0).ok <==> exists j :: k <= j < POLL_LIMIT && LetsGo(status, at, j)
    decreases POLL_LIMIT - k
  {
    ComesTo(status, at, k);
    hide Cleared, PollAt;
    if k < POLL_LIMIT && !LetsGo(status, at, k) {
      if Errors(status, at, k + 1) <= RETRY_LIMIT {
        EndsAt(status, at, k + 1);
      } else {
        forall j | k < j < POLL_LIMIT ensures !LetsGo(status, at, j) { ErrorsGrow(status, at, k + 1, j); }
      }
    }
  }

  /**
   * The exact condition with errors: the byte goes out if and only if, among the first million
   * polls, one shows neither an error nor a full FIFO and at most sixteen before it show an error.
   */
  lemma WriteByteSucceedsIff(status: nat -> Status, at: nat)
    ensures Polling(status, at, 0, 0).ok <==> exists k :: 0 <= k < POLL_LIMIT && LetsGo(status, at, k)
  {
    hide Polling, LetsGo;
    EndsAt(status, at, 0);
  }

  /** And a call that succeeds ends with that poll: it reads no further. */
  lemma StopsAtFirst(status: nat -> Status, at: nat, k: nat)
    requires k < POLL_LIMIT && LetsGo(status, at, k) && forall j :: 0 <= j < k ==> !LetsGo(status, at, j)
    ensures Polling(status, at, 0, 0) == Attempt(true, PollAt(status, at, k) + 1)
  {
    ComesTo(status, at, k);
    hide PollAt, Cleared;
  }

  /** An error that clears at once, with room behind it, costs three reads. */
  lemma OneErrorIsCleared(status: nat -> Status, at: nat)
    requires status(at).error && !status(at + 1).error && Clear(status(at + 2))
    ensures Polling(status, at, 0, 0) == Attempt(true, at + 3)
  {
    assert Cleared(status, at + 1, 0) == at + 2;
    assert PollAt(status, at, 1) == at + 2 by { assert PollAt(status, at, 0) == at; }
    assert Errors(status, at, 1) == 1 by { assert Errors(status, at, 0) == 0; }
    assert !LetsGo(status, at, 0);
    hide PollAt, Errors, Polling, Cleared;
    StopsAtFirst(status, at, 1);
  }

  /** How many of `m` bytes written one after the other go out, and the next STATUS read then. */
  ghost function Texting(status: nat -> Status, at: nat, m: nat): (r: (nat, nat))
    ensures r.0 <= m
    decreases m
  {
    if m == 0 then (0, at)
    else
      var a := Polling(status, at, 0, 0);
      if !a.ok then (0, a.next) else (Texting(status, a.next, m - 1).0 + 1, Texting(status, a.next, m - 1).1)
  }

  /** Hardware that shows neither an error nor a full FIFO takes every byte, one read each. */
  lemma {:induction false} ClearTexting(status: nat -> Status, at: nat, m: nat)
    requires forall i: nat :: Clear(status(i))
    ensures Texting(status, at, m) == (m, at + m)
    decreases m
  {
    if m > 0 {
      assert Clear(status(at));
      ClearTexting(status, at + 1, m - 1);
    }
  }

  // ----- the unrolled loops and 32-bit wrap-around

  /** The guard of the unrolled loops at index `i`, in 32-bit arithmetic. */
  predicate EightMore(i: u32, length: u32) {
    (i + 8) % WORD <= length
  }

  /**
   * The unrolled loop, taken on its own, comes to an end exactly when the length is below
   * 2^32 - 8; from there on `i + 8` wraps to a value below the length for ever.
   */
  lemma UnrolledLoopEnds(length: u32)
    ensures (exists n: nat :: !EightMore(8 * n % WORD, length)) <==> length < WORD - 8
  {
    if length < WORD - 8 {
      var n := length / 8;
      assert 8 * n % WORD == 8 * n && 8 * n + 8 < WORD;
      assert !EightMore(8 * n % WORD, length);
    } else {
      forall n: nat ensures EightMore(8 * n % WORD, length) {
        WrapsToMultiple(n);
      }
    }
  }

  lemma WrapsToMultiple(n: nat)
    ensures (8 * n % WORD + 8) % WORD <= WORD - 8
  {
    var i := 8 * n % WORD;
    assert i % 8 == 0 by {
      var q := 8 * n / WORD;
      assert i == 8 * (n - 0x2000_0000 * q);
    }
    assert i <= WORD - 8;
  }

  class Controller {
    /** What the STATUS register shows at each read, chosen by the hardware. */
    const status: nat -> Status
    /** Every byte that will ever arrive; an access to DATA waits until the next one is there. */
    const input: seq<byte>
    var looks: nat
    var sent: seq<byte>
    var taken: nat

    constructor (status: nat -> Status, input: seq<byte>)
      ensures this.status == status && this.input == input
      ensures looks == 0 && sent == [] && taken == 0
    {
      this.status, this.input := status, input;
      looks, sent, taken := 0, [], 0;
    }

    ghost predicate Valid()
      reads this
    {
      taken <= |input|
    }

    method ReadStatus() returns (s: Status)
      modifies this`looks
      ensures s == status(old(looks)) && looks == old(looks) + 1
    {
      s := status(looks);
      looks := looks + 1;
    }

    method ClearErrorsAndWait() returns (s: Status)
      modifies this`looks
      ensures looks == Cleared(status, old(looks), 0)
      ensures s == status(looks - 1)
    {
      var polls := 0;
      while polls < RETRY_LIMIT
        invariant polls <= RETRY_LIMIT
        invariant Cleared(status, looks, polls) == Cleared(status, old(looks), 0)
      {
        s := ReadStatus();
        if !s.error { return; }
        polls := polls + 1;
      }
      s := ReadStatus();
    }

    /** One byte through the checked write: sent exactly when it reports success. */
    method WriteByte(data: byte) returns (ok: bool)
      modifies this`looks, this`sent
      ensures Attempt(ok, looks) == Polling(status, old(looks), 0, 0)
      ensures sent == if ok then old(sent) + [data] else old(sent)
    {
      hide Polling, Cleared;
      var polls, retries := 0, 0;
      while polls < POLL_LIMIT
        invariant polls <= POLL_LIMIT && retries <= RETRY_LIMIT && sent == old(sent)
        invariant Polling(status, looks, polls, retries) == Polling(status, old(looks), 0, 0)
      {
        PollingStep(status, looks, polls, retries);
        var s := ReadStatus();
        if s.error {
          if retries < RETRY_LIMIT {
            retries := retries + 1;
            polls := polls + 1;
            var _ := ClearErrorsAndWait();
            continue;
          }
          return false;
        }
        if !s.txFull {
          sent := sent + [data];
          return true;
        }
        polls := polls + 1;
      }
      PollingStep(status, looks, polls, retries);
      var _ := ReadStatus();
      return false;
    }

    /** The fast write: eight bytes a turn, then the rest. */
    method WriteBytes(data: seq<byte>, length: u32) returns (r: u32)
      requires length <= |data| && length < WORD - 8
      modifies this`sent
      ensures r == length && sent == old(sent) + data[..length]
    {
      var i := 0;
      while EightMore(i, length)
        invariant i <= length && sent == old(sent) + data[..i]
        decreases length - i
      {
        sent := sent + [data[i]];
        sent := sent + [data[i + 1]];
        sent := sent + [data[i + 2]];
        sent := sent + [data[i + 3]];
        sent := sent + [data[i + 4]];
        sent := sent + [data[i + 5]];
        sent := sent + [data[i + 6]];
        sent := sent + [data[i + 7]];
        EightBytes(old(sent), data, i);
        i := i + 8;
      }
      while i < length
        invariant i <= length && sent == old(sent) + data[..i]
      {
        sent := sent + [data[i]];
        OneByte(old(sent), data, i);
        i := i + 1;
      }
      return length;
    }

    method ReadByte() returns (data: byte)
      requires taken < |input|
      modifies this`taken
      ensures data == input[old(taken)] && taken == old(taken) + 1
    {
      data := input[taken];
      taken := taken + 1;
    }

    /** One element of the fast read. */
    method ReadInto(buffer: array<byte>, at: nat, ghost was: seq<byte>, ghost from: nat, ghost offset: nat)
      requires offset <= at < buffer.Length && taken < |input| && from <= taken == from + at - offset
      requires Filled(buffer[..], was, input, from, offset, at - offset)
      modifies this`taken, buffer
      ensures taken == old(taken) + 1
      ensures Filled(buffer[..], was, input, from, offset, at + 1 - offset)
    {
      buffer[at] := ReadByte();
    }

    /** The fast read fills `buffer[offset..offset + length]` with the next bytes, in order. */
    method ReadBytes(buffer: array<byte>, offset: nat, length: u32) returns (r: u32)
      requires length < WORD - 8 && offset + length <= buffer.Length && taken + length <= |input|
      modifies this`taken, buffer
      ensures r == length && taken == old(taken) + length
      ensures buffer[..] == old(buffer[..offset]) + input[old(taken)..taken] + old(buffer[offset + length..])
    {
      hide Filled;
      var i := 0;
      ghost var was, from := buffer[..], taken;
      NothingFilled(was, input, from, offset);
      while EightMore(i, length)
        invariant i <= length && taken == from + i
        invariant Filled(buffer[..], was, input, from, offset, i)
        decreases length - i
      {
        ReadInto(buffer, offset + i, was, from, offset);
        ReadInto(buffer, offset + i + 1, was, from, offset);
        ReadInto(buffer, offset + i + 2, was, from, offset);
        ReadInto(buffer, offset + i + 3, was, from, offset);
        ReadInto(buffer, offset + i + 4, was, from, offset);
        ReadInto(buffer, offset + i + 5, was, from, offset);
        ReadInto(buffer, offset + i + 6, was, from, offset);
        ReadInto(buffer, offset + i + 7, was, from, offset);
        i := i + 8;
      }
      while i < length
        invariant i <= length && taken == from + i
        invariant Filled(buffer[..], was, input, from, offset, i)
      {
        ReadInto(buffer, offset + i, was, from, offset);
        i := i + 1;
      }
      FilledIs(buffer[..], was, input, from, offset, length);
      return length;
    }

    /** A text goes out up to the first byte whose write fails. */
    method WriteText(text: seq<byte>) returns (ok: bool, ghost n: nat)
      modifies this`looks, this`sent
      ensures n <= |text| && sent == old(sent) + text[..n]
      ensures ok <==> n == |text|
      ensures (n, looks) == Texting(status, old(looks), |text|)
    {
      hide Polling;
      n := 0;
      var at := 0;
      while at < |text|
        invariant n == at <= |text| && sent == old(sent) + text[..at]
        invariant Texting(status, old(looks), |text|)
               == (at + Texting(status, looks, |text| - at).0, Texting(status, looks, |text| - at).1)
      {
        ok := WriteByte(text[at]);
        if !ok { return; }
        OneByte(old(sent), text, at);
        at, n := at + 1, n + 1;
      }
      ok := true;
    }

    /** The two digits of a byte, high one first. */
    method WriteHexByte(value: byte) returns (ok: bool, ghost n: nat)
      modifies this`looks, this`sent
      ensures n <= 2 && sent == old(sent) + Hex(value)[..n]
      ensures ok <==> n == 2
      ensures (n, looks) == Texting(status, old(looks), 2)
    {
      hide Polling;
      n := 0;
      ok := WriteByte(HexDigit(value / 16));
      if ok {
        n := 1;
        ghost var at := looks;
        ok := WriteByte(HexDigit(value % 16));
        assert Texting(status, at, 1) == (if ok then 1 else 0, looks);
        if ok { n := 2; }
      }
    }
  }

  lemma OneByte(before: seq<byte>, data: seq<byte>, i: nat)
    requires i < |data|
    ensures before + data[..i] + [data[i]] == before + data[..i + 1]
  {
  }

  lemma EightBytes(before: seq<byte>, data: seq<byte>, i: nat)
    requires i + 8 <= |data|
    ensures before + data[..i] + [data[i]] + [data[i + 1]] + [data[i + 2]] + [data[i + 3]] + [data[i + 4]]
            + [data[i + 5]] + [data[i + 6]] + [data[i + 7]] == before + data[..i + 8]
  {
    OneByte(before, data, i);
    OneByte(before, data, i + 1);
    OneByte(before, data, i + 2);
    OneByte(before, data, i + 3);
    OneByte(before, data, i + 4);
    OneByte(before, data, i + 5);
    OneByte(before, data, i + 6);
    OneByte(before, data, i + 7);
  }

  /** `now` is `was` with `n` bytes of the input stored from `offset` on. */
  ghost predicate Filled(now: seq<byte>, was: seq<byte>, input: seq<byte>, from: nat, offset: nat, n: nat) {
    && |now| == |was| && offset + n <= |was| && from + n <= |input|
    && forall k :: 0 <= k < |was| ==> now[k] == if offset <= k < offset + n then input[from + k - offset] else was[k]
  }

  lemma NothingFilled(was: seq<byte>, input: seq<byte>, from: nat, offset: nat)
    requires offset <= |was| && from <= |input|
    ensures Filled(was, was, input, from, offset, 0)
  {
  }

  lemma FilledIs(now: seq<byte>, was: seq<byte>, input: seq<byte>, from: nat, offset: nat, n: nat)
    requires Filled(now, was, input, from, offset, n)
    ensures now == was[..offset] + input[from..from + n] + was[offset + n..]
  {
  }
}
