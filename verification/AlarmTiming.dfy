// When alarms fire: exact, without drift, for any number of laps of the 32-bit counter.
module AlarmTiming {
  import opened Words
  import opened AlarmClock

  /** `t` is `due`, or reached from it by adding, each time, what the callback returned. */
  predicate OnSchedule(t: nat, due: nat, p: nat -> u32)
    decreases t - due
  {
    t == due || (t > due && p(due) > 0 && OnSchedule(t, due + p(due), p))
  }

  /** The alarm `id` is neither started nor stopped, and at tick `t` its callback returns `p(t)`. */
  ghost predicate Answers<Id(!new)>(es: seq<Event<Id>>, id: Id, now: nat, p: nat -> u32)
    decreases |es|
  {
    es == [] ||
    (if es[0].Tick? then es[0].reply(id) == p(now + 1) && Answers(es[1..], id, now + 1, p)
     else es[0].id != id && Answers(es[1..], id, now, p))
  }

  ghost predicate Absent<Id>(list: seq<Entry<Id>>, id: Id) {
    forall i :: 0 <= i < |list| ==> list[i].id != id
  }

  /** At tick `now` the record of `id`, the only one, stands for the deadline `due`. */
  ghost predicate Registered<Id>(list: seq<Entry<Id>>, id: Id, due: nat, now: nat) {
    exists i ::
      0 <= i < |list| && Matches(list[i], Due(id, due), now) && Absent(list[..i], id) && Absent(list[i + 1..], id)
  }

  lemma RegisteredCons<Id>(e: Entry<Id>, list: seq<Entry<Id>>, id: Id, due: nat, now: nat)
    ensures e.id != id && Registered(list, id, due, now) ==> Registered([e] + list, id, due, now)
    ensures Matches(e, Due(id, due), now) && Absent(list, id) ==> Registered([e] + list, id, due, now)
    ensures e.id != id && Absent(list, id) ==> Absent([e] + list, id)
  {
    hide Matches;
    var all := [e] + list;
    if e.id != id && Registered(list, id, due, now) {
      var i :|
        0 <= i < |list| && Matches(list[i], Due(id, due), now) && Absent(list[..i], id) && Absent(list[i + 1..], id);
      assert all[i + 1] == list[i];
      assert all[..i + 1] == [e] + list[..i];
      assert all[i + 1 + 1..] == list[i + 1..];
    }
    if Matches(e, Due(id, due), now) && Absent(list, id) {
      assert all[0] == e && all[..0] == [] && all[1..] == list;
    }
  }

  lemma RegisteredTail<Id>(list: seq<Entry<Id>>, id: Id, due: nat, now: nat)
    requires Registered(list, id, due, now)
    ensures list != []
    ensures list[0].id != id ==> Registered(list[1..], id, due, now)
    ensures list[0].id == id ==> Matches(list[0], Due(id, due), now) && Absent(list[1..], id)
  {
    var i :|
      0 <= i < |list| && Matches(list[i], Due(id, due), now) && Absent(list[..i], id) && Absent(list[i + 1..], id);
    if i > 0 {
      assert list[..i][0] == list[0];
      assert list[1..][i - 1] == list[i];
      assert list[1..][..i - 1] == list[..i][1..];
      assert list[1..][i..] == list[i + 1..];
    }
  }

  lemma {:induction false} TickAbsent<Id>(list: seq<Entry<Id>>, n: u32, reply: Id -> u32, id: Id)
    requires Absent(list, id)
    ensures var (list', fired) := TickAll(list, n, reply);
            Absent(list', id) && id !in fired
  {
    if list != [] { TickAbsent(list[1..], n, reply, id); }
  }

  /** One tick: the other records may stand for anything, this one moves as its deadline says. */
  lemma {:induction false} TickRegistered<Id>(list: seq<Entry<Id>>, now: nat, reply: Id -> u32, id: Id, due: nat)
    requires Registered(list, id, due, now)
    ensures var (list', fired) := TickAll(list, (now + 1) % WORD, reply);
            && (id in fired <==> due == now + 1)
            && (due != now + 1 ==> Registered(list', id, due, now + 1))
            && (due == now + 1 && reply(id) == 0 ==> Absent(list', id))
            && (due == now + 1 && reply(id) > 0 ==> Registered(list', id, now + 1 + reply(id), now + 1))
  {
    hide Matches, Registered, TickOne;
    var n := (now + 1) % WORD;
    RegisteredTail(list, id, due, now);
    var kept := TickOne(list[0], n, reply).0;
    var (rest, others) := TickAll(list[1..], n, reply);
    TickOneKeepsId(list[0], n, reply);
    if list[0].id == id {
      TickAbsent(list[1..], n, reply, id);
      TickOwn(list[0], rest, now, reply, id, due);
    } else {
      TickRegistered(list[1..], now, reply, id, due);
      KeepsOther(kept, rest, id, due, now + 1);
      KeepsOther(kept, rest, id, now + 1 + reply(id), now + 1);
    }
  }

  /** The record of `id` itself at the tick, in front of others that are not its own. */
  lemma TickOwn<Id>(e: Entry<Id>, rest: seq<Entry<Id>>, now: nat, reply: Id -> u32, id: Id, due: nat)
    requires Matches(e, Due(id, due), now) && Absent(rest, id)
    ensures var (kept, fired) := TickOne(e, (now + 1) % WORD, reply);
            && (fired <==> due == now + 1)
            && (due != now + 1 ==> Registered(kept + rest, id, due, now + 1))
            && (due == now + 1 && reply(id) == 0 ==> Absent(kept + rest, id))
            && (due == now + 1 && reply(id) > 0 ==> Registered(kept + rest, id, now + 1 + reply(id), now + 1))
  {
    TickOneMatches(e, Due(id, due), now, reply);
    var kept := TickOne(e, (now + 1) % WORD, reply).0;
    assert e.id == id;
    hide Matches, Registered, TickOne;
    if kept == [] {
      assert kept + rest == rest;
    } else {
      assert kept + rest == [kept[0]] + rest;
      RegisteredCons(kept[0], rest, id, due, now + 1);
      RegisteredCons(kept[0], rest, id, now + 1 + reply(id), now + 1);
    }
  }

  lemma KeepsOther<Id>(kept: seq<Entry<Id>>, rest: seq<Entry<Id>>, id: Id, due: nat, now: nat)
    requires kept == [] || (|kept| == 1 && kept[0].id != id)
    ensures Registered(rest, id, due, now) ==> Registered(kept + rest, id, due, now)
    ensures Absent(rest, id) ==> Absent(kept + rest, id)
  {
    hide Registered;
    if kept == [] {
      assert kept + rest == rest;
    } else {
      assert kept + rest == [kept[0]] + rest;
      RegisteredCons(kept[0], rest, id, due, now);
    }
  }

  lemma TickOneKeepsId<Id>(e: Entry<Id>, n: u32, reply: Id -> u32)
    ensures var kept := TickOne(e, n, reply).0; kept == [] || (|kept| == 1 && kept[0].id == e.id)
  {
  }

  lemma {:induction false} WithoutKeeps<Id>(list: seq<Entry<Id>>, other: Id, id: Id, due: nat, now: nat)
    requires other != id
    ensures Absent(list, id) ==> Absent(Without(list, other), id)
    ensures Registered(list, id, due, now) ==> Registered(Without(list, other), id, due, now)
  {
    hide Matches;
    if list != [] {
      if Registered(list, id, due, now) { RegisteredTail(list, id, due, now); }
      if list[0].id != other {
        WithoutKeeps(list[1..], other, id, due, now);
        RegisteredCons(list[0], Without(list[1..], other), id, due, now);
      }
    }
  }

  lemma StampHas<Id>(tick: nat, ids: seq<Id>, id: Id)
    ensures Firing(tick, id) in Stamp(tick, ids) <==> id in ids
    ensures forall f :: f in Stamp(tick, ids) ==> f.tick == tick
  {
    if id in ids {
      var i :| 0 <= i < |ids| && ids[i] == id;
      assert Stamp(tick, ids)[i] == Firing(tick, id);
    }
  }

  /** The counter is the true tick number modulo 2^32, and nothing is logged for the future. */
  ghost predicate InTime<Id(!new)>(s: Stored<Id>) {
    s.n == s.ticks % WORD && forall f :: f in s.log ==> f.tick <= s.ticks
  }

  /** `id` is registered for `due`, or has been dropped if `due` is none. */
  ghost predicate Awaits<Id>(list: seq<Entry<Id>>, id: Id, due: int, now: nat) {
    if due >= 0 then Registered(list, id, due, now) else Absent(list, id)
  }

  /** The deadline after the tick `now`, where -1 stands for "none". */
  function NextDue(due: int, now: nat, p: nat -> u32): int {
    if due != now then due else if p(now) == 0 then -1 else now + p(now)
  }

  ghost predicate Expected(t: nat, due: int, p: nat -> u32) { due >= 0 && OnSchedule(t, due, p) }

  lemma {:induction false} StepInTime<Id(!new)>(s: Stored<Id>, e: Event<Id>)
    requires InTime(s)
    ensures var s' := StoredStep(s, e);
            && InTime(s') && s.log <= s'.log && s'.ticks == s.ticks + if e.Tick? then 1 else 0
  {
    Lap(s.ticks, s.ticks + 1);
    if e.Tick? {
      var fired := TickAll(s.list, (s.n + 1) % WORD, e.reply).1;
      forall f | f in Stamp(s.ticks + 1, fired) ensures f.tick == s.ticks + 1 { StampHas(s.ticks + 1, fired, f.id); }
    }
  }

  /** One event moves the deadline and the log as the schedule says. */
  lemma StepOnSchedule<Id(!new)>(s: Stored<Id>, e: Event<Id>, id: Id, due: int, p: nat -> u32)
    requires InTime(s) && Awaits(s.list, id, due, s.ticks) && (due >= 0 ==> due > s.ticks)
    requires if e.Tick? then e.reply(id) == p(s.ticks + 1) else e.id != id
    ensures var s' := StoredStep(s, e);
            var due' := if e.Tick? then NextDue(due, s.ticks + 1, p) else due;
            && Awaits(s'.list, id, due', s'.ticks) && (due' >= 0 ==> due' > s'.ticks)
            && (e.Tick? ==> (Firing(s'.ticks, id) in s'.log <==> due == s'.ticks))
            && (!e.Tick? ==> s'.log == s.log)
  {
    hide Registered, Absent;
    match e
    case Start(other, nticks) =>
      RegisteredCons(StartEntry(other, s.n, nticks), s.list, id, if due >= 0 then due else 0, s.ticks);
    case Stop(other) => WithoutKeeps(s.list, other, id, if due >= 0 then due else 0, s.ticks);
    case Tick(reply) =>
      Lap(s.ticks, s.ticks + 1);
      StampHas(s.ticks + 1, TickAll(s.list, (s.n + 1) % WORD, reply).1, id);
      if due >= 0 { TickRegistered(s.list, s.ticks, reply, id, due); }
      else { TickAbsent(s.list, (s.n + 1) % WORD, reply, id); }
  }

  /** Over any events that leave `id` alone it fires at exactly the ticks of its schedule. */
  lemma {:induction false} FiresOnSchedule<Id(!new)>(s: Stored<Id>, es: seq<Event<Id>>, id: Id, due: int,
      p: nat -> u32, t: nat)
    requires InTime(s) && Awaits(s.list, id, due, s.ticks) && (due >= 0 ==> due > s.ticks)
    requires Answers(es, id, s.ticks, p) && s.ticks < t <= StoredRun(s, es).ticks
    ensures Firing(t, id) in StoredRun(s, es).log <==> Expected(t, due, p)
    decreases |es|
  {
    hide InTime, Awaits;
    if es != [] {
      var s' := StoredStep(s, es[0]);
      StepInTime(s, es[0]);
      StepOnSchedule(s, es[0], id, due, p);
      var due' := if es[0].Tick? then NextDue(due, s.ticks + 1, p) else due;
      hide StoredStep;
      if s'.ticks < t {
        FiresOnSchedule(s', es[1..], id, due', p, t);
        assert Expected(t, due, p) <==> Expected(t, due', p);
      } else {
        assert t == s'.ticks;
        LaterLogKeeps(s', es[1..], t, id);
      }
    }
  }

  /** Later events add no firing for a tick that has passed. */
  lemma {:induction false} LaterLogKeeps<Id(!new)>(s: Stored<Id>, es: seq<Event<Id>>, t: nat, id: Id)
    requires InTime(s) && t <= s.ticks
    ensures InTime(StoredRun(s, es)) && s.ticks <= StoredRun(s, es).ticks
    ensures Firing(t, id) in StoredRun(s, es).log <==> Firing(t, id) in s.log
    decreases |es|
  {
    if es != [] {
      var s' := StoredStep(s, es[0]);
      StepInTime(s, es[0]);
      if es[0].Tick? { StampHas(s.ticks + 1, TickAll(s.list, (s.n + 1) % WORD, es[0].reply).1, id); }
      assert Firing(t, id) in s'.log <==> Firing(t, id) in s.log;
      LaterLogKeeps(s', es[1..], t, id);
    }
  }

  /**
   * An alarm started now, with an interval that its record can hold, first fires on exactly the
   * (nticks+1)-th later tick, then on exactly the p-th tick after each callback that returned
   * p > 0, and never again after one that returned 0: no drift, no early and no missed firing,
   * whatever the other alarms in the list are and whatever is started and stopped meanwhile.
   */
  lemma AlarmsAreOnTime<Id(!new)>(s: Stored<Id>, id: Id, nticks: u32, es: seq<Event<Id>>, p: nat -> u32, t: nat)
    requires InTime(s) && Absent(s.list, id) && Holds(s.n, nticks)
    requires Answers(es, id, s.ticks, p)
    requires s.ticks < t <= StoredRun(s, [Start(id, nticks)] + es).ticks
    ensures Firing(t, id) in StoredRun(s, [Start(id, nticks)] + es).log
            <==> OnSchedule(t, s.ticks + nticks + 1, p)
  {
    hide Matches, StartEntry, Registered, Answers, OnSchedule;
    assert ([Start(id, nticks)] + es)[1..] == es;
    var s' := StoredStep(s, Start(id, nticks));
    StartMatches(id, s.ticks, nticks);
    RegisteredCons(StartEntry(id, s.n, nticks), s.list, id, s.ticks + nticks + 1, s.ticks);
    FiresOnSchedule(s', es, id, s.ticks + nticks + 1, p, t);
  }

  /** The service at reset. */
  function AtReset<Id>(): Stored<Id> { Stored(0, [], 0, []) }

  /** The same in every run from reset, however long it was running when the alarm is started. */
  lemma OnTimeFromReset<Id(!new)>(before: seq<Event<Id>>, id: Id, nticks: u32, es: seq<Event<Id>>, p: nat -> u32,
      t: nat)
    requires var s := StoredRun(AtReset(), before);
      && Absent(s.list, id) && Holds(s.n, nticks) && Answers(es, id, s.ticks, p)
      && s.ticks < t <= StoredRun(s, [Start(id, nticks)] + es).ticks
    ensures var s := StoredRun(AtReset(), before);
      Firing(t, id) in StoredRun(s, [Start(id, nticks)] + es).log <==> OnSchedule(t, s.ticks + nticks + 1, p)
  {
    var s := StoredRun(AtReset(), before);
    LaterLogKeeps(AtReset(), before, 0, id);
    hide StoredRun;
    AlarmsAreOnTime(s, id, nticks, es, p, t);
  }

  // ---------------------------------------------------------------- the bound is exact

  /** Left alone from tick `now`, the stored alarm expires for the first time at tick `t`. */
  predicate FirstExpires<Id>(e: Entry<Id>, now: nat, t: nat)
    requires t > now
    decreases t - now
  {
    var n := (now + 1) % WORD;
    var c := Clear(e, n);
    if Expired(c, n) then t == now + 1 else t > now + 1 && FirstExpires(c, now + 1, t)
  }

  lemma {:induction false} MatchingExpires<Id>(e: Entry<Id>, d: Due<Id>, now: nat)
    requires Matches(e, d, now)
    ensures FirstExpires(e, now, d.deadline)
    decreases d.deadline - now
  {
    TickOneMatches(e, d, now, _ => 0);
    if d.deadline != now + 1 { MatchingExpires(Clear(e, (now + 1) % WORD), d, now + 1); }
  }

  /**
   * For every interval, the first expiry is on time exactly when the interval is not the whole
   * lap 2^32-1, or the counter stands at its last value when the alarm is started.
   */
  lemma StartOnTimeExactly<Id>(id: Id, now: nat, nticks: u32)
    ensures FirstExpires(StartEntry(id, now % WORD, nticks), now, now + nticks + 1)
            <==> nticks < WORD - 1 || now % WORD == WORD - 1
  {
    if Holds(now % WORD, nticks) {
      StartMatches(id, now, nticks);
      MatchingExpires(StartEntry(id, now % WORD, nticks), Due(id, now + nticks + 1), now);
    } else {
      WholeLapExpiresAtOnce(id, now);
    }
  }

  /** Otherwise the whole lap is taken for none: the alarm expires at the very next tick. */
  lemma WholeLapExpiresAtOnce<Id>(id: Id, now: nat)
    ensures FirstExpires(StartEntry(id, now % WORD, WORD - 1), now, now + 1) <==> now % WORD != WORD - 1
  {
    WholeLapEntry(id, now % WORD);
    NextCount(now);
    hide StartEntry;
  }

  lemma WholeLapEntry<Id>(id: Id, n: u32)
    ensures StartEntry(id, n, WORD - 1) == Entry(id, n, false)
  {
  }

  lemma NextCount(now: nat)
    ensures (now + 1) % WORD == if now % WORD == WORD - 1 then 0 else now % WORD + 1
  {
    Lap(now, now + 1);
  }
}
