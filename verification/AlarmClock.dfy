// Alarm deadlines: the 32-bit arithmetic of the alarm service against a clock that never wraps.
module AlarmClock {
  import opened Words

  /** A registered alarm as stored: a 32-bit deadline and a flag for "in the next lap of the counter". */
  datatype Entry<Id> = Entry(id: Id, time: u32, rollover: bool)

  /** A registered alarm as meant: the tick number, counted from reset, at which it expires. */
  datatype Due<Id> = Due(id: Id, deadline: nat)

  datatype Firing<Id> = Firing(tick: nat, id: Id)

  /** What can happen to the service. `reply` gives what each callback returns during that tick. */
  datatype Event<!Id> =
    | Start(id: Id, nticks: u32)
    | Stop(id: Id)
    | Tick(reply: Id -> u32)

  // ---------------------------------------------------------------- as stored

  function StartEntry<Id>(id: Id, n: u32, nticks: u32): Entry<Id> {
    var time := (nticks + n + 1) % WORD;
    Entry(id, time, time < n)
  }

  /** The flag is cleared when the counter itself rolls over. */
  function Clear<Id>(e: Entry<Id>, n: u32): Entry<Id> {
    if e.rollover && n == 0 then e.(rollover := false) else e
  }

  predicate Expired<Id>(e: Entry<Id>, n: u32) { e.time <= n && !e.rollover }

  function Rearm<Id>(e: Entry<Id>, n: u32, p: u32): Entry<Id> {
    var time := (e.time + p) % WORD;
    e.(time := time, rollover := e.rollover || time < n)
  }

  /** One alarm at the tick that makes the counter `n`: what is left of it, and whether it fired. */
  function TickOne<Id>(e: Entry<Id>, n: u32, reply: Id -> u32): (seq<Entry<Id>>, bool) {
    var c := Clear(e, n);
    if !Expired(c, n) then ([c], false)
    else if reply(e.id) == 0 then ([], true)
    else ([Rearm(c, n, reply(e.id))], true)
  }

  function TickAll<Id>(list: seq<Entry<Id>>, n: u32, reply: Id -> u32): (seq<Entry<Id>>, seq<Id>) {
    if list == [] then ([], [])
    else
      var (kept, fired) := TickOne(list[0], n, reply);
      var (rest, others) := TickAll(list[1..], n, reply);
      (kept + rest, if fired then [list[0].id] + others else others)
  }

  function EntryIds<Id>(list: seq<Entry<Id>>): (ids: seq<Id>)
    ensures |ids| == |list|
  {
    if list == [] then [] else [list[0].id] + EntryIds(list[1..])
  }

  ghost predicate NoRepeat<Id>(ids: seq<Id>) {
    forall i, j :: 0 <= i < j < |ids| ==> ids[i] != ids[j]
  }

  /** The ids of the alarms that satisfy `f`, in the order of the list. */
  function Select<Id>(list: seq<Entry<Id>>, f: Entry<Id> -> bool): seq<Id> {
    if list == [] then []
    else (if f(list[0]) then [list[0].id] else []) + Select(list[1..], f)
  }

  predicate Fires<Id>(e: Entry<Id>, n: u32) { Expired(Clear(e, n), n) }

  /** A tick fires exactly the expired alarms and keeps exactly the others and the re-armed, in order. */
  lemma {:induction false} TickSelects<Id>(list: seq<Entry<Id>>, n: u32, reply: Id -> u32)
    ensures var (left, fired) := TickAll(list, n, reply);
            && fired == Select(list, (e: Entry<Id>) => Fires(e, n))
            && EntryIds(left) == Select(list, (e: Entry<Id>) => !Fires(e, n) || reply(e.id) != 0)
  {
    if list != [] {
      TickSelects(list[1..], n, reply);
      var kept := TickOne(list[0], n, reply).0;
      var rest := TickAll(list[1..], n, reply).0;
      if kept == [] {
        assert kept + rest == rest;
      } else {
        assert kept + rest == [kept[0]] + rest;
      }
    }
  }

  /** A tick fires an alarm at most once and drops exactly the fired ones whose callback returned 0. */
  lemma {:induction false} TickDropsExactly<Id>(list: seq<Entry<Id>>, n: u32, reply: Id -> u32)
    requires NoRepeat(EntryIds(list))
    ensures var (left, fired) := TickAll(list, n, reply);
            && NoRepeat(fired) && NoRepeat(EntryIds(left))
            && (forall id :: id in fired ==> id in EntryIds(list))
            && (forall id :: id in EntryIds(left) <==> id in EntryIds(list) && !(id in fired && reply(id) == 0))
  {
    if list != [] {
      var id := list[0].id;
      NoRepeatCons(id, EntryIds(list[1..]));
      TickDropsExactly(list[1..], n, reply);
      var (kept, fired) := TickOne(list[0], n, reply);
      var (rest, others) := TickAll(list[1..], n, reply);
      NoRepeatCons(id, others);
      NoRepeatCons(id, EntryIds(rest));
      if kept == [] {
        assert kept + rest == rest;
      } else {
        assert kept + rest == [kept[0]] + rest && EntryIds(kept + rest) == [id] + EntryIds(rest);
      }
    }
  }

  lemma NoRepeatCons<Id>(id: Id, ids: seq<Id>)
    ensures NoRepeat([id] + ids) <==> id !in ids && NoRepeat(ids)
  {
    var all := [id] + ids;
    assert forall i :: 0 <= i < |ids| ==> all[i + 1] == ids[i];
    if NoRepeat(all) {
      forall i | 0 <= i < |ids| ensures ids[i] != id { assert all[0] != all[i + 1]; }
      forall i, j | 0 <= i < j < |ids| ensures ids[i] != ids[j] { assert all[i + 1] != all[j + 1]; }
    }
  }

  // ---------------------------------------------------------------- as meant

  function DueOne<Id>(d: Due<Id>, now: nat, reply: Id -> u32): (seq<Due<Id>>, bool) {
    if d.deadline != now then ([d], false)
    else if reply(d.id) == 0 then ([], true)
    else ([Due(d.id, now + reply(d.id))], true)
  }

  function DueAll<Id>(list: seq<Due<Id>>, now: nat, reply: Id -> u32): (seq<Due<Id>>, seq<Id>) {
    if list == [] then ([], [])
    else
      var (kept, fired) := DueOne(list[0], now, reply);
      var (rest, others) := DueAll(list[1..], now, reply);
      (kept + rest, if fired then [list[0].id] + others else others)
  }

  // ---------------------------------------------------------------- correspondence of one alarm

  /**
   * A deadline 1 to 2^32-1 ticks ahead, stored modulo 2^32 with its lap; or one a whole lap ahead
   * while the counter is at its top, so that the next tick comes before it even without the flag.
   */
  ghost predicate Matches<Id>(e: Entry<Id>, d: Due<Id>, now: nat) {
    && e.id == d.id && e.time == d.deadline % WORD
    && if d.deadline == now + WORD then now % WORD == WORD - 1 && !e.rollover
       else now < d.deadline < now + WORD && (e.rollover <==> d.deadline / WORD == now / WORD + 1)
  }

  /** The intervals that the 32-bit record can hold when the counter is at `n`. */
  predicate Holds(n: u32, nticks: u32) { nticks < WORD - 1 || n == WORD - 1 }

  lemma StartMatches<Id>(id: Id, now: nat, nticks: u32)
    requires Holds(now % WORD, nticks)
    ensures Matches(StartEntry(id, now % WORD, nticks), Due(id, now + nticks + 1), now)
  {
    if nticks < WORD - 1 {
      Lap(now, now + nticks + 1);
    } else {
      Lap(now, now + WORD - 1);
      Lap(now + WORD - 1, now + WORD);
    }
  }

  /** Reducing a number at most one lap ahead. */
  lemma Lap(a: nat, b: nat)
    requires a <= b < a + WORD
    ensures b / WORD == a / WORD || b / WORD == a / WORD + 1
    ensures b / WORD == a / WORD <==> b % WORD >= a % WORD
    ensures b % WORD == a % WORD + (b - a) - if b / WORD == a / WORD then 0 else WORD
  {
    assert a == WORD * (a / WORD) + a % WORD;
    assert b == WORD * (b / WORD) + b % WORD;
  }

  /** The stored alarm fires at a tick exactly when the meant one does, and they still match after. */
  lemma TickOneMatches<Id>(e: Entry<Id>, d: Due<Id>, now: nat, reply: Id -> u32)
    requires Matches(e, d, now)
    ensures var (kept, fired) := TickOne(e, (now + 1) % WORD, reply);
            var (kept', fired') := DueOne(d, now + 1, reply);
            fired == fired' && |kept| == |kept'| <= 1 && (kept != [] ==> Matches(kept[0], kept'[0], now + 1))
  {
    Lap(now, now + 1);
    Lap(now + 1, d.deadline);
    if d.deadline == now + 1 && reply(d.id) != 0 { Lap(now + 1, now + 1 + reply(d.id)); }
  }

  ghost predicate AllMatch<Id>(es: seq<Entry<Id>>, ds: seq<Due<Id>>, now: nat) {
    |es| == |ds| && forall i :: 0 <= i < |es| ==> Matches(es[i], ds[i], now)
  }

  lemma {:induction false} TickAllMatches<Id>(es: seq<Entry<Id>>, ds: seq<Due<Id>>, now: nat, reply: Id -> u32)
    requires AllMatch(es, ds, now)
    ensures var (es', fired) := TickAll(es, (now + 1) % WORD, reply);
            var (ds', fired') := DueAll(ds, now + 1, reply);
            fired == fired' && AllMatch(es', ds', now + 1)
  {
    hide Matches, TickOne, DueOne;
    if es != [] {
      assert Matches(es[0], ds[0], now);
      MatchingIds(es[0], ds[0], now);
      TickOneMatches(es[0], ds[0], now, reply);
      TickAllMatches(es[1..], ds[1..], now, reply);
      var n := (now + 1) % WORD;
      MatchAppend(TickOne(es[0], n, reply).0, DueOne(ds[0], now + 1, reply).0,
                  TickAll(es[1..], n, reply).0, DueAll(ds[1..], now + 1, reply).0, now + 1);
    }
  }

  lemma MatchingIds<Id>(e: Entry<Id>, d: Due<Id>, now: nat)
    requires Matches(e, d, now)
    ensures e.id == d.id
  {
  }

  lemma MatchAppend<Id>(es: seq<Entry<Id>>, ds: seq<Due<Id>>, es': seq<Entry<Id>>, ds': seq<Due<Id>>, now: nat)
    requires AllMatch(es, ds, now) && AllMatch(es', ds', now)
    ensures AllMatch(es + es', ds + ds', now)
  {
  }

  // ---------------------------------------------------------------- runs

  /** The service as stored, with every firing so far under the number of its tick. */
  datatype Stored<Id> = Stored(n: u32, list: seq<Entry<Id>>, ticks: nat, log: seq<Firing<Id>>)

  datatype Meant<Id> = Meant(now: nat, list: seq<Due<Id>>, log: seq<Firing<Id>>)

  function Stamp<Id>(tick: nat, ids: seq<Id>): seq<Firing<Id>> {
    seq(|ids|, i requires 0 <= i < |ids| => Firing(tick, ids[i]))
  }

  function StoredStep<Id(==)>(s: Stored<Id>, e: Event<Id>): Stored<Id> {
    match e
    case Start(id, nticks) => s.(list := [StartEntry(id, s.n, nticks)] + s.list)
    case Stop(id) => s.(list := Without(s.list, id))
    case Tick(reply) =>
      var n := (s.n + 1) % WORD;
      var (list, fired) := TickAll(s.list, n, reply);
      Stored(n, list, s.ticks + 1, s.log + Stamp(s.ticks + 1, fired))
  }

  function Without<Id(==)>(list: seq<Entry<Id>>, id: Id): seq<Entry<Id>> {
    if list == [] then []
    else if list[0].id == id then list[1..]
    else [list[0]] + Without(list[1..], id)
  }

  function DueWithout<Id(==)>(list: seq<Due<Id>>, id: Id): seq<Due<Id>> {
    if list == [] then []
    else if list[0].id == id then list[1..]
    else [list[0]] + DueWithout(list[1..], id)
  }

  function MeantStep<Id(==)>(s: Meant<Id>, e: Event<Id>): Meant<Id> {
    match e
    case Start(id, nticks) => s.(list := [Due(id, s.now + nticks + 1)] + s.list)
    case Stop(id) => s.(list := DueWithout(s.list, id))
    case Tick(reply) =>
      var (list, fired) := DueAll(s.list, s.now + 1, reply);
      Meant(s.now + 1, list, s.log + Stamp(s.now + 1, fired))
  }

  function StoredRun<Id(==)>(s: Stored<Id>, es: seq<Event<Id>>): Stored<Id>
    decreases |es|
  {
    if es == [] then s else StoredRun(StoredStep(s, es[0]), es[1..])
  }

  function MeantRun<Id(==)>(s: Meant<Id>, es: seq<Event<Id>>): Meant<Id>
    decreases |es|
  {
    if es == [] then s else MeantRun(MeantStep(s, es[0]), es[1..])
  }

  ghost predicate Agree<Id>(s: Stored<Id>, m: Meant<Id>) {
    s.ticks == m.now && s.n == m.now % WORD && s.log == m.log && AllMatch(s.list, m.list, m.now)
  }

  /** No alarm is started with an interval that its record cannot hold; the counter starts at `n`. */
  predicate InRange<Id>(es: seq<Event<Id>>, n: u32)
    decreases |es|
  {
    es == [] ||
    ((es[0].Start? ==> Holds(n, es[0].nticks)) && InRange(es[1..], if es[0].Tick? then (n + 1) % WORD else n))
  }

  lemma {:induction false} WithoutMatches<Id>(es: seq<Entry<Id>>, ds: seq<Due<Id>>, now: nat, id: Id)
    requires AllMatch(es, ds, now)
    ensures AllMatch(Without(es, id), DueWithout(ds, id), now)
  {
    if es != [] && es[0].id != id { WithoutMatches(es[1..], ds[1..], now, id); }
  }

  lemma StepAgrees<Id(!new)>(s: Stored<Id>, m: Meant<Id>, e: Event<Id>)
    requires Agree(s, m) && (e.Start? ==> Holds(s.n, e.nticks))
    ensures Agree(StoredStep(s, e), MeantStep(m, e))
  {
    hide Matches, TickAll, DueAll, StartEntry, Without, DueWithout;
    match e
    case Start(id, nticks) => StartMatches(id, m.now, nticks);
    case Stop(id) => WithoutMatches(s.list, m.list, m.now, id);
    case Tick(reply) =>
      Lap(m.now, m.now + 1);
      TickAllMatches(s.list, m.list, m.now, reply);
  }

  /**
   * Over any run, across any number of laps of the 32-bit counter, the service fires the same
   * alarms at the same ticks in the same order as a service whose clock never wraps.
   */
  lemma {:induction false} RunsAgree<Id(!new)>(s: Stored<Id>, m: Meant<Id>, es: seq<Event<Id>>)
    requires Agree(s, m) && InRange(es, s.n)
    ensures Agree(StoredRun(s, es), MeantRun(m, es))
    decreases |es|
  {
    if es != [] {
      StepAgrees(s, m, es[0]);
      RunsAgree(StoredStep(s, es[0]), MeantStep(m, es[0]), es[1..]);
    }
  }
}
