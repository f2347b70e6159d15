/**
 The velocity log of the fraud engine and its risk score.  Lookups prune the log, so that what a
 later lookup sees depends on earlier ones.  Times are in milliseconds, amounts in units of 0.0001.
 There are two storages: the Redis sorted set, which drops transfers up to and including the start
 of the window and expires as a whole 600 seconds after the last record, and the in-process list,
 which keeps the start of the window and never expires.  A call falls back to the list when Redis
 is missing or raises, and what raised may have been applied.
 */
module FraudVelocity {

  datatype Transfer = Transfer(at: int, amount: int)

  const TTL_MS := 600_000

  predicate Keeps(redis: bool, start: int, t: Transfer) {
    if redis then t.at > start else t.at >= start
  }

  /** The transfers inside the window that begins at `start`. */
  function Window(redis: bool, ts: seq<Transfer>, start: int): seq<Transfer> {
    if ts == [] then []
    else
      var init := Window(redis, ts[..|ts| - 1], start);
      if Keeps(redis, start, ts[|ts| - 1]) then init + [ts[|ts| - 1]] else init
  }

  ghost function Volume(ts: seq<Transfer>): int {
    if ts == [] then 0 else Volume(ts[..|ts| - 1]) + ts[|ts| - 1].amount
  }

  ghost function Max(a: int, b: int): int {
    if a >= b then a else b
  }

  lemma WindowAppend(redis: bool, ts: seq<Transfer>, t: Transfer, start: int)
    ensures Window(redis, ts + [t], start) ==
            if Keeps(redis, start, t) then Window(redis, ts, start) + [t] else Window(redis, ts, start)
  {}

  /** Pruning twice is pruning once at the later start. */
  lemma {:induction false} WindowTwice(redis: bool, ts: seq<Transfer>, a: int, b: int)
    ensures Window(redis, Window(redis, ts, a), b) == Window(redis, ts, Max(a, b))
  {
    if ts != [] {
      var init, last := ts[..|ts| - 1], ts[|ts| - 1];
      WindowTwice(redis, init, a, b);
      if Keeps(redis, a, last) { WindowAppend(redis, Window(redis, init, a), last, b); }
    }
  }

  lemma {:induction false} WindowEmpty(redis: bool, ts: seq<Transfer>, start: int)
    requires forall i :: 0 <= i < |ts| ==> !Keeps(redis, start, ts[i])
    ensures Window(redis, ts, start) == []
  {
    if ts != [] { WindowEmpty(redis, ts[..|ts| - 1], start); }
  }

  lemma {:induction false} WindowIsSubset(redis: bool, ts: seq<Transfer>, start: int)
    ensures |Window(redis, ts, start)| <= |ts|
    ensures forall t :: t in Window(redis, ts, start) <==> t in ts && Keeps(redis, start, t)
  {
    if ts != [] {
      WindowIsSubset(redis, ts[..|ts| - 1], start);
      assert ts == ts[..|ts| - 1] + [ts[|ts| - 1]];
    }
  }

  /** Two windows of one history agree in size exactly when no transfer lies between their starts. */
  lemma {:induction false} WindowsAgreeIff(redis: bool, ts: seq<Transfer>, a: int, b: int)
    requires a <= b
    ensures |Window(redis, ts, b)| <= |Window(redis, ts, a)|
    ensures |Window(redis, ts, a)| == |Window(redis, ts, b)| <==>
            forall i :: 0 <= i < |ts| && Keeps(redis, a, ts[i]) ==> Keeps(redis, b, ts[i])
    ensures (forall i :: 0 <= i < |ts| && Keeps(redis, a, ts[i]) ==> Keeps(redis, b, ts[i])) ==>
              Window(redis, ts, a) == Window(redis, ts, b)
  {
    if ts != [] {
      var init, last := ts[..|ts| - 1], ts[|ts| - 1];
      WindowsAgreeIff(redis, init, a, b);
      assert forall i :: 0 <= i < |init| ==> init[i] == ts[i];
    }
  }

  // ----- The stored log -----

  datatype Store = Store(log: seq<Transfer>, expiry: int)

  datatype Event = Record(now: int, amount: int) | Lookup(now: int, lookback: int)

  /** Redis has dropped the whole key once its time to live is over. */
  function Expire(redis: bool, s: Store, now: int): Store {
    if redis && s.expiry <= now then s.(log := []) else s
  }

  function Step(redis: bool, s: Store, e: Event): Store {
    var live := Expire(redis, s, e.now);
    match e
    case Record(now, amount) => Store(live.log + [Transfer(now, amount)], now + TTL_MS)
    case Lookup(now, lookback) => live.(log := Window(redis, live.log, now - lookback))
  }

  /** One storage of one account. */
  class VelocityLog {
    const redis: bool
    var log: seq<Transfer>
    var expiry: int

    constructor (redis: bool)
      ensures this.redis == redis && Stored() == Store([], 0)
    {
      this.redis := redis;
      log, expiry := [], 0;
    }

    function Stored(): Store
      reads this
    {
      Store(log, expiry)
    }

    method Append(now: int, amount: int)
      modifies this
      ensures Stored() == Step(redis, old(Stored()), Record(now, amount))
    {
      log := Expire(redis, Stored(), now).log;
      log := log + [Transfer(now, amount)];
      expiry := now + TTL_MS;
    }

    method Prune(now: int, lookback: int) returns (count: nat, volume: int)
      modifies this
      ensures Stored() == Step(redis, old(Stored()), Lookup(now, lookback))
      ensures count == |log| && volume == Volume(log)
    {
      log := Expire(redis, Stored(), now).log;
      var kept: seq<Transfer> := [];
      for i := 0 to |log|
        invariant kept == Window(redis, log[..i], now - lookback) && Stored() == Expire(redis, old(Stored()), now)
      {
        assert log[..i + 1][..i] == log[..i];
        if Keeps(redis, now - lookback, log[i]) { kept := kept + [log[i]]; }
      }
      assert log[..|log|] == log;
      log := kept;
      count := |log|;
      volume := 0;
      for i := 0 to |log|
        invariant volume == Volume(log[..i]) && log == kept && expiry == old(expiry)
      {
        assert log[..i + 1][..i] == log[..i];
        volume := volume + log[i].amount;
      }
      assert log[..|log|] == log;
    }
  }

  /**
   Which storages a call reaches: the list where Redis is missing or raises unapplied, both where the
   pipeline of a record or the pruning of a lookup was applied and a command then raised.
   */
  datatype Route = ByRedis | ByList | ByBoth

  predicate Reaches(route: Route, fallback: bool) {
    if fallback then route != ByRedis else route != ByList
  }

  /** Both storages of one account, as the service uses them. */
  class VelocityService {
    const sorted: VelocityLog
    const list: VelocityLog

    constructor ()
      ensures Valid() && fresh(sorted) && fresh(list)
      ensures sorted.Stored() == Store([], 0) && list.Stored() == Store([], 0)
    {
      sorted := new VelocityLog(true);
      list := new VelocityLog(false);
    }

    ghost predicate Valid() {
      sorted != list && sorted.redis && !list.redis
    }

    method RecordSuccessfulTransfer(now: int, amount: int, route: Route)
      requires Valid()
      modifies sorted, list
      ensures Valid()
      ensures sorted.Stored() == if Reaches(route, false) then Step(true, old(sorted.Stored()), Record(now, amount))
                                 else old(sorted.Stored())
      ensures list.Stored() == if Reaches(route, true) then Step(false, old(list.Stored()), Record(now, amount))
                               else old(list.Stored())
    {
      if route != ByList {
        sorted.Append(now, amount);
      }
      if route != ByRedis {
        list.Append(now, amount);
      }
    }

    /** The list answers whenever it is reached. */
    method GetAccountVelocity(now: int, lookback: int, route: Route) returns (count: nat, volume: int)
      requires Valid()
      modifies sorted, list
      ensures Valid()
      ensures sorted.Stored() == if Reaches(route, false) then Step(true, old(sorted.Stored()), Lookup(now, lookback))
                                 else old(sorted.Stored())
      ensures list.Stored() == if Reaches(route, true) then Step(false, old(list.Stored()), Lookup(now, lookback))
                               else old(list.Stored())
      ensures var log := if Reaches(route, true) then list.log else sorted.log; count == |log| && volume == Volume(log)
    {
      if route != ByList {
        count, volume := sorted.Prune(now, lookback);
      }
      if route != ByRedis {
        count, volume := list.Prune(now, lookback);
      }
    }
  }

  // ----- Runs of records and lookups -----

  ghost function After(redis: bool, events: seq<Event>): Store {
    if events == [] then Store([], 0)
    else Step(redis, After(redis, events[..|events| - 1]), events[|events| - 1])
  }

  /** Everything ever recorded. */
  ghost function History(events: seq<Event>): seq<Transfer> {
    if events == [] then []
    else
      var init, last := History(events[..|events| - 1]), events[|events| - 1];
      if last.Record? then init + [Transfer(last.now, last.amount)] else init
  }

  /** The clock does not run backwards and windows are not empty. */
  ghost predicate Timed(events: seq<Event>) {
    && (forall i, j :: 0 <= i < j < |events| ==> events[i].now <= events[j].now)
    && (forall i :: 0 <= i < |events| && events[i].Lookup? ==> events[i].lookback >= 1)
  }

  ghost predicate Dated(events: seq<Event>, ts: seq<Transfer>, expiry: int) {
    forall i :: 0 <= i < |ts| ==>
      ts[i].at + TTL_MS <= expiry && events != [] && ts[i].at <= events[|events| - 1].now
  }

  lemma {:induction false} HistoryDated(redis: bool, events: seq<Event>)
    requires Timed(events)
    ensures Dated(events, History(events), After(redis, events).expiry)
  {
    if events != [] {
      var init, last := events[..|events| - 1], events[|events| - 1];
      HistoryDated(redis, init);
      assert init != [] ==> init[|init| - 1] == events[|init| - 1] && init[|init| - 1].now <= last.now;
    }
  }

  /** How an event moves the start of the window that the stored log covers. */
  ghost function Advance(redis: bool, s: Store, h: int, e: Event): int {
    var h' := if redis && s.expiry <= e.now then Max(h, e.now - TTL_MS) else h;
    if e.Lookup? then Max(h', e.now - e.lookback) else h'
  }

  ghost function Horizon(redis: bool, events: seq<Event>): int
    requires events != []
  {
    var init, last := events[..|events| - 1], events[|events| - 1];
    Advance(redis, After(redis, init), if |events| == 1 then last.now - TTL_MS else Horizon(redis, init), last)
  }

  lemma ExpireWindow(redis: bool, history: seq<Transfer>, s: Store, h: int, now: int)
    requires s.log == Window(redis, history, h)
    requires forall i :: 0 <= i < |history| ==> history[i].at + TTL_MS <= s.expiry
    ensures Expire(redis, s, now).log ==
            Window(redis, history, if redis && s.expiry <= now then Max(h, now - TTL_MS) else h)
  {
    if redis && s.expiry <= now { WindowEmpty(redis, history, Max(h, now - TTL_MS)); }
  }

  lemma StepWindow(redis: bool, history: seq<Transfer>, s: Store, h: int, e: Event)
    requires s.log == Window(redis, history, h) && h < e.now && (e.Lookup? ==> e.lookback >= 1)
    requires forall i :: 0 <= i < |history| ==> history[i].at + TTL_MS <= s.expiry
    ensures Advance(redis, s, h, e) < e.now
    ensures Step(redis, s, e).log ==
            Window(redis, if e.Record? then history + [Transfer(e.now, e.amount)] else history, Advance(redis, s, h, e))
  {
    hide Window;
    ExpireWindow(redis, history, s, h, e.now);
    var h' := if redis && s.expiry <= e.now then Max(h, e.now - TTL_MS) else h;
    if e.Lookup? {
      WindowTwice(redis, history, h', e.now - e.lookback);
    } else {
      WindowAppend(redis, history, Transfer(e.now, e.amount), h');
    }
  }

  /** At every point of a run the stored log is a window of the full history. */
  lemma {:induction false} LogIsWindow(redis: bool, events: seq<Event>)
    requires Timed(events) && events != []
    ensures After(redis, events).log == Window(redis, History(events), Horizon(redis, events))
    ensures Horizon(redis, events) < events[|events| - 1].now
  {
    hide Window, Step, Advance;
    var init, last := events[..|events| - 1], events[|events| - 1];
    HistoryDated(redis, init);
    if init != [] {
      assert init[|init| - 1] == events[|init| - 1] && init[|init| - 1].now <= last.now;
      LogIsWindow(redis, init);
      StepWindow(redis, History(init), After(redis, init), Horizon(redis, init), last);
    } else {
      WindowEmpty(redis, [], last.now - TTL_MS);
      StepWindow(redis, [], After(redis, init), last.now - TTL_MS, last);
    }
  }

  lemma {:induction false} HorizonBound(redis: bool, events: seq<Event>, bound: int)
    requires Timed(events) && events != []
    requires forall i :: 0 <= i < |events| && events[i].Lookup? ==> events[i].now - events[i].lookback <= bound
    requires events[|events| - 1].now - TTL_MS <= bound
    ensures Horizon(redis, events) <= bound
  {
    var init, last := events[..|events| - 1], events[|events| - 1];
    if init != [] {
      assert init[|init| - 1] == events[|init| - 1] && init[|init| - 1].now <= last.now;
      HorizonBound(redis, init, bound);
    }
  }

  /**
   A lookup of at most 600 seconds sees exactly the full history in its window, whenever no earlier
   lookup used a shorter window.
   */
  lemma LookupIsExact(redis: bool, events: seq<Event>, now: int, lookback: int)
    requires Timed(events + [Lookup(now, lookback)]) && 1 <= lookback <= TTL_MS
    requires forall i :: 0 <= i < |events| && events[i].Lookup? ==> events[i].lookback >= lookback
    ensures Step(redis, After(redis, events), Lookup(now, lookback)).log ==
            Window(redis, History(events), now - lookback)
  {
    var all := events + [Lookup(now, lookback)];
    assert forall i :: 0 <= i < |events| ==> all[i] == events[i];
    assert all[|events|] == Lookup(now, lookback) && all[..|events|] == events;
    assert Timed(events);
    assert forall i :: 0 <= i < |events| ==> events[i].now <= now by {
      forall i | 0 <= i < |events| ensures events[i].now <= now { assert all[i].now <= all[|events|].now; }
    }
    LogIsWindow(redis, all);
    HorizonBound(redis, all, now - lookback);
    assert Horizon(redis, all) >= now - lookback;
    assert History(all) == History(events);
  }

  /** In general the answer is exact if and only if nothing lies between the wanted start and the horizon. */
  lemma LookupExactIff(redis: bool, events: seq<Event>, now: int, lookback: int)
    requires Timed(events + [Lookup(now, lookback)]) && lookback >= 1
    ensures var all := events + [Lookup(now, lookback)];
            |After(redis, all).log| == |Window(redis, History(events), now - lookback)| <==>
            forall i :: 0 <= i < |History(events)| && Keeps(redis, now - lookback, History(events)[i]) ==>
                          Keeps(redis, Horizon(redis, all), History(events)[i])
    ensures var log, exact := After(redis, events + [Lookup(now, lookback)]).log, Window(redis, History(events), now - lookback);
            |log| == |exact| ==> log == exact
  {
    var all := events + [Lookup(now, lookback)];
    assert all[|events|] == Lookup(now, lookback) && all[..|events|] == events;
    LogIsWindow(redis, all);
    assert Horizon(redis, all) >= now - lookback && History(all) == History(events);
    hide Window, After, Horizon, History, Keeps;
    WindowsAgreeIff(redis, History(events), now - lookback, Horizon(redis, all));
  }

  // ----- Volumes -----

  lemma {:induction false} WindowConcat(redis: bool, a: seq<Transfer>, b: seq<Transfer>, start: int)
    ensures Window(redis, a + b, start) == Window(redis, a, start) + Window(redis, b, start)
  {
    if b == [] {
      assert a + b == a;
    } else {
      var n := |b| - 1;
      assert a + b == (a + b[..n]) + [b[n]] && b == b[..n] + [b[n]];
      WindowConcat(redis, a, b[..n], start);
      WindowAppend(redis, a + b[..n], b[n], start);
      WindowAppend(redis, b[..n], b[n], start);
    }
  }

  lemma {:induction false} VolumeConcat(a: seq<Transfer>, b: seq<Transfer>)
    ensures Volume(a + b) == Volume(a) + Volume(b)
  {
    if b == [] {
      assert a + b == a;
    } else {
      var n := |b| - 1;
      assert a + b == (a + b[..n]) + [b[n]] && (a + b)[..|a + b| - 1] == a + b[..n];
      VolumeConcat(a, b[..n]);
    }
  }

  /** The volume is the sum of the amounts. */
  lemma VolumeIsSum(t: Transfer, a: seq<Transfer>, b: seq<Transfer>)
    ensures Volume([]) == 0 && Volume([t]) == t.amount && Volume(a + b) == Volume(a) + Volume(b)
  {
    VolumeConcat(a, b);
    assert [t][..0] == [];
  }

  /** What a lookup at the end of a run answers. */
  ghost function AnswerLog(redis: bool, events: seq<Event>, now: int, lookback: int): seq<Transfer> {
    Step(redis, After(redis, events), Lookup(now, lookback)).log
  }

  /** Before anything is recorded the answer is nothing; after one transfer inside the window it is that transfer. */
  lemma FirstAnswers(redis: bool, at: int, amount: int, now: int, lookback: int)
    requires at <= now && 1 <= lookback <= TTL_MS
    ensures Volume(AnswerLog(redis, [], now, lookback)) == 0 && |AnswerLog(redis, [], now, lookback)| == 0
    ensures var log := AnswerLog(redis, [Record(at, amount)], now, lookback);
            if Keeps(redis, now - lookback, Transfer(at, amount)) then |log| == 1 && Volume(log) == amount
            else |log| == 0 && Volume(log) == 0
  {
    assert [Record(at, amount)][..0] == [] && [Transfer(at, amount)][..0] == [];
    assert After(redis, [Record(at, amount)]) == Store([Transfer(at, amount)], at + TTL_MS);
    assert Window(redis, [], now - lookback) == [];
  }

  /** A transfer recorded last raises count and volume of the next answer by itself, if it lies in the window. */
  lemma RecordRaisesAnswer(redis: bool, events: seq<Event>, at: int, amount: int, now: int, lookback: int)
    requires Timed(events + [Record(at, amount), Lookup(now, lookback)]) && 1 <= lookback <= TTL_MS
    ensures var log, log' := AnswerLog(redis, events, now, lookback), AnswerLog(redis, events + [Record(at, amount)], now, lookback);
            if Keeps(redis, now - lookback, Transfer(at, amount))
            then |log'| == |log| + 1 && Volume(log') == Volume(log) + amount
            else |log'| == |log| && Volume(log') == Volume(log)
  {
    var all := events + [Record(at, amount), Lookup(now, lookback)];
    assert forall i :: 0 <= i < |events| ==> all[i] == events[i];
    assert all[|events|] == Record(at, amount) && all[|events| + 1] == Lookup(now, lookback);
    assert Timed(events);
    assert all[|events|].now <= all[|events| + 1].now;
    StoredDated(redis, events);
    ExpiryIsRecent(redis, events);
    assert events != [] ==> all[|events| - 1].now <= all[|events|].now;
    assert (events + [Record(at, amount)])[..|events|] == events;
    RecordThenLook(redis, After(redis, events), at, amount, now, lookback);
  }

  lemma {:induction false} StoredDated(redis: bool, events: seq<Event>)
    requires Timed(events)
    ensures forall t :: t in After(redis, events).log ==> t.at + TTL_MS <= After(redis, events).expiry
  {
    hide Window;
    HistoryDated(redis, events);
    if events != [] {
      LogIsWindow(redis, events);
      WindowIsSubset(redis, History(events), Horizon(redis, events));
      forall t | t in After(redis, events).log ensures t.at + TTL_MS <= After(redis, events).expiry {
        var i :| 0 <= i < |History(events)| && History(events)[i] == t;
      }
    }
  }

  lemma {:induction false} ExpiryIsRecent(redis: bool, events: seq<Event>)
    requires Timed(events)
    ensures After(redis, events).log == [] ||
            (events != [] && After(redis, events).expiry <= events[|events| - 1].now + TTL_MS)
  {
    if events != [] {
      var init, last := events[..|events| - 1], events[|events| - 1];
      ExpiryIsRecent(redis, init);
      assert init != [] ==> init[|init| - 1] == events[|init| - 1] && init[|init| - 1].now <= last.now;
    }
  }

  lemma RecordThenLook(redis: bool, s: Store, at: int, amount: int, now: int, lookback: int)
    requires at <= now && 1 <= lookback <= TTL_MS && forall t :: t in s.log ==> t.at + TTL_MS <= s.expiry
    requires s.log == [] || s.expiry <= at + TTL_MS
    ensures var t := Transfer(at, amount);
            var log, log' := Step(redis, s, Lookup(now, lookback)).log,
                             Step(redis, Step(redis, s, Record(at, amount)), Lookup(now, lookback)).log;
            log' == if Keeps(redis, now - lookback, t) then log + [t] else log
    ensures var t := Transfer(at, amount);
            var log := Step(redis, s, Lookup(now, lookback)).log; Volume(log + [t]) == Volume(log) + amount
  {
    hide Window;
    var t, start := Transfer(at, amount), now - lookback;
    var kept := Expire(redis, s, at).log;
    WindowAppend(redis, kept, t, start);
    if redis && s.expiry <= now {
      assert forall i :: 0 <= i < |kept| ==> kept[i] in s.log;
      WindowEmpty(redis, kept, start);
    }
    WindowEmpty(redis, [], start);
  }

  /** Under the conditions of `LookupIsExact` count and volume are those of the whole history in the window. */
  lemma AnswerIsExact(redis: bool, events: seq<Event>, now: int, lookback: int)
    requires Timed(events + [Lookup(now, lookback)]) && 1 <= lookback <= TTL_MS
    requires forall i :: 0 <= i < |events| && events[i].Lookup? ==> events[i].lookback >= lookback
    ensures var log := AnswerLog(redis, events, now, lookback);
            && |log| == CountIn(redis, History(events), now - lookback)
            && Volume(log) == SumIn(redis, History(events), now - lookback)
  {
    LookupIsExact(redis, events, now, lookback);
    WindowSums(redis, History(events), now - lookback);
  }

  /** How many transfers lie in the window, and the sum of their amounts, counted without building it. */
  ghost function CountIn(redis: bool, ts: seq<Transfer>, start: int): nat {
    if ts == [] then 0 else (if Keeps(redis, start, ts[0]) then 1 else 0) + CountIn(redis, ts[1..], start)
  }

  ghost function SumIn(redis: bool, ts: seq<Transfer>, start: int): int {
    if ts == [] then 0 else (if Keeps(redis, start, ts[0]) then ts[0].amount else 0) + SumIn(redis, ts[1..], start)
  }

  lemma {:induction false} WindowSums(redis: bool, ts: seq<Transfer>, start: int)
    ensures |Window(redis, ts, start)| == CountIn(redis, ts, start)
    ensures Volume(Window(redis, ts, start)) == SumIn(redis, ts, start)
  {
    if ts != [] {
      WindowSums(redis, ts[1..], start);
      assert ts == [ts[0]] + ts[1..];
      WindowConcat(redis, [ts[0]], ts[1..], start);
      VolumeConcat(Window(redis, [ts[0]], start), Window(redis, ts[1..], start));
      WindowAppend(redis, [], ts[0], start);
      assert [] + [ts[0]] == [ts[0]];
      VolumeIsSum(ts[0], [], []);
    }
  }

  // ----- Falling back -----

  datatype Call = Call(event: Event, route: Route)

  /** The calls that reach a storage, or those that do not. */
  ghost function Via(calls: seq<Call>, fallback: bool, reached: bool := true): seq<Event> {
    if calls == [] then []
    else
      var init, last := Via(calls[..|calls| - 1], fallback, reached), calls[|calls| - 1];
      if Reaches(last.route, fallback) == reached then init + [last.event] else init
  }

  /** The calls that reach only the other storage. */
  ghost function Missed(calls: seq<Call>, fallback: bool): seq<Event> {
    Via(calls, fallback, false)
  }

  ghost function EventsOf(calls: seq<Call>): seq<Event> {
    seq(|calls|, i requires 0 <= i < |calls| => calls[i].event)
  }

  lemma {:induction false} ViaTimed(calls: seq<Call>, fallback: bool, now: int)
    requires Timed(EventsOf(calls)) && forall i :: 0 <= i < |calls| ==> calls[i].event.now <= now
    ensures Timed(Via(calls, fallback)) && forall i :: 0 <= i < |Via(calls, fallback)| ==> Via(calls, fallback)[i].now <= now
  {
    if calls != [] {
      var n := |calls| - 1;
      var init := calls[..n];
      assert EventsOf(init) == EventsOf(calls)[..n];
      forall i | 0 <= i < n ensures init[i].event.now <= calls[n].event.now {
        assert EventsOf(calls)[i].now <= EventsOf(calls)[n].now;
      }
      assert EventsOf(calls)[n] == calls[n].event;
      ViaTimed(init, fallback, calls[n].event.now);
    }
  }

  /** The full history is what a storage recorded and what it missed. */
  lemma {:induction false} HistorySplits(redis: bool, calls: seq<Call>, fallback: bool, start: int)
    ensures |Window(redis, History(EventsOf(calls)), start)| ==
            |Window(redis, History(Via(calls, fallback)), start)| + |Window(redis, History(Missed(calls, fallback)), start)|
    ensures Volume(Window(redis, History(EventsOf(calls)), start)) ==
            Volume(Window(redis, History(Via(calls, fallback)), start)) + Volume(Window(redis, History(Missed(calls, fallback)), start))
  {
    if calls != [] {
      var n := |calls| - 1;
      var init, last := calls[..n], calls[n];
      HistorySplits(redis, init, fallback, start);
      assert EventsOf(calls) == EventsOf(init) + [last.event];
      OneMoreEvent(redis, EventsOf(init), last.event, start);
      OneMoreEvent(redis, Via(init, fallback, Reaches(last.route, fallback)), last.event, start);
    }
  }

  lemma OneMoreEvent(redis: bool, events: seq<Event>, e: Event, start: int)
    ensures |Window(redis, History(events + [e]), start)| == |Window(redis, History(events), start)|
              + if e.Record? && Keeps(redis, start, Transfer(e.now, e.amount)) then 1 else 0
    ensures Volume(Window(redis, History(events + [e]), start)) == Volume(Window(redis, History(events), start))
              + if e.Record? && Keeps(redis, start, Transfer(e.now, e.amount)) then e.amount else 0
  {
    assert (events + [e])[..|events|] == events;
    if e.Record? {
      WindowAppend(redis, History(events), Transfer(e.now, e.amount), start);
    }
  }

  /**
   An answer from one storage counts the whole history of its window, if and only if it is exact for
   what that storage recorded and no transfer in the window was recorded in the other storage only.
   */
  lemma FallbackExactIff(calls: seq<Call>, now: int, lookback: int, fallback: bool)
    requires Timed(EventsOf(calls)) && lookback >= 1 && forall i :: 0 <= i < |calls| ==> calls[i].event.now <= now
    ensures var own := Via(calls, fallback) + [Lookup(now, lookback)];
            var mine, other := History(Via(calls, fallback)), History(Missed(calls, fallback));
            |After(!fallback, own).log| == |Window(!fallback, History(EventsOf(calls)), now - lookback)| <==>
            && (forall i :: 0 <= i < |mine| && Keeps(!fallback, now - lookback, mine[i]) ==>
                              Keeps(!fallback, Horizon(!fallback, own), mine[i]))
            && (forall i :: 0 <= i < |other| ==> !Keeps(!fallback, now - lookback, other[i]))
    ensures var own := After(!fallback, Via(calls, fallback) + [Lookup(now, lookback)]).log;
            var exact := Window(!fallback, History(EventsOf(calls)), now - lookback);
            |own| == |exact| ==> Volume(own) == Volume(exact)
  {
    hide Window, After, Horizon, History, Keeps, Via;
    var via, own, redis, start := Via(calls, fallback), Via(calls, fallback) + [Lookup(now, lookback)], !fallback, now - lookback;
    var other := History(Missed(calls, fallback));
    ViaTimed(calls, fallback, now);
    assert Timed(own);
    LookupExactIff(redis, via, now, lookback);
    HistorySplits(redis, calls, fallback, start);
    AnswerIsPart(redis, via, now, lookback);
    NoneKeptIff(redis, other, start);
  }

  lemma AnswerIsPart(redis: bool, events: seq<Event>, now: int, lookback: int)
    requires Timed(events + [Lookup(now, lookback)]) && lookback >= 1
    ensures |After(redis, events + [Lookup(now, lookback)]).log| <= |Window(redis, History(events), now - lookback)|
  {
    var all := events + [Lookup(now, lookback)];
    assert all[|events|] == Lookup(now, lookback) && all[..|events|] == events;
    LogIsWindow(redis, all);
    assert Horizon(redis, all) >= now - lookback && History(all) == History(events);
    WindowsAgreeIff(redis, History(events), now - lookback, Horizon(redis, all));
  }

  lemma NoneKeptIff(redis: bool, ts: seq<Transfer>, start: int)
    ensures |Window(redis, ts, start)| == 0 <==> forall i :: 0 <= i < |ts| ==> !Keeps(redis, start, ts[i])
  {
    if forall i :: 0 <= i < |ts| ==> !Keeps(redis, start, ts[i]) {
      WindowEmpty(redis, ts, start);
    }
    WindowIsSubset(redis, ts, start);
    if |Window(redis, ts, start)| == 0 {
      forall i | 0 <= i < |ts| ensures !Keeps(redis, start, ts[i]) {
        assert ts[i] in ts && ts[i] !in Window(redis, ts, start);
      }
    }
  }

  /** A transfer recorded while Redis was failing is unseen by the next lookup that Redis answers. */
  lemma FallbackTransferUnseen(amount: int)
    ensures var calls := [Call(Record(0, amount), ByList)];
            && |After(true, Via(calls, false) + [Lookup(1, 300_000)]).log| == 0
            && |Window(true, History(EventsOf(calls)), 1 - 300_000)| == 1
  {
    var calls := [Call(Record(0, amount), ByList)];
    assert calls[..0] == [] && Via(calls, false) == [] && [] + [Lookup(1, 300_000)] == [Lookup(1, 300_000)];
    assert [Lookup(1, 300_000)][..0] == [];
    assert EventsOf(calls) == [Record(0, amount)] && [Record(0, amount)][..0] == [];
    assert History(EventsOf(calls)) == [Transfer(0, amount)] && [Transfer(0, amount)][..0] == [];
  }

  // ----- Risk score -----

  const BURST_COUNT := 3
  const BURST_VOLUME := 100_000_0000
  const SPIKE_AMOUNT := 50_000_0000

  datatype Decision = Approved | Flagged | Rejected

  function Score(blacklisted: bool, count: nat, volume: int, amount: int): nat {
    (if blacklisted then 100 else 0) + (if count >= BURST_COUNT then 40 else 0)
    + (if volume + amount > BURST_VOLUME then 40 else 0) + (if amount >= SPIKE_AMOUNT then 30 else 0)
  }

  function Decide(score: nat): Decision {
    if score >= 70 then Rejected else if score >= 30 then Flagged else Approved
  }

  function Severity(d: Decision): nat {
    match d
    case Approved => 0
    case Flagged => 1
    case Rejected => 2
  }

  method EvaluateTransfer(blacklisted: bool, count: nat, volume: int, amount: int)
    returns (score: nat, decision: Decision, rules: seq<string>)
    ensures score == Score(blacklisted, count, volume, amount) && decision == Decide(score)
    ensures "DESTINATION_ACCOUNT_BLACKLISTED" in rules <==> blacklisted
    ensures "VELOCITY_BURST_EXCEEDED" in rules <==> count >= BURST_COUNT || volume + amount > BURST_VOLUME
    ensures "VELOCITY_VOLUME_EXCEEDED" in rules <==> count >= BURST_COUNT && volume + amount > BURST_VOLUME
    ensures "HIGH_VALUE_SPIKE" in rules <==> amount >= SPIKE_AMOUNT
  {
    score, rules := 0, [];
    if blacklisted {
      score := score + 100;
      rules := rules + ["DESTINATION_ACCOUNT_BLACKLISTED"];
    }
    var projected := volume + amount;
    if count >= BURST_COUNT {
      score := score + 40;
      rules := rules + ["VELOCITY_BURST_EXCEEDED"];
    }
    if projected > BURST_VOLUME {
      if "VELOCITY_BURST_EXCEEDED" !in rules {
        score := score + 40;
        rules := rules + ["VELOCITY_BURST_EXCEEDED"];
      } else {
        score := score + 40;
        rules := rules + ["VELOCITY_VOLUME_EXCEEDED"];
      }
    }
    if amount >= SPIKE_AMOUNT {
      score := score + 30;
      rules := rules + ["HIGH_VALUE_SPIKE"];
    }
    decision := Decide(score);
  }

  /** A transfer of 60000, and within the window one of 45000: flagged with score 40 for the volume. */
  method BurstIsFlagged(at: int, now: int, route: Route) returns (score: nat, decision: Decision)
    requires at <= now < at + 300_000
    ensures score == 40 && decision == Flagged
  {
    var service := new VelocityService();
    service.RecordSuccessfulTransfer(at, 60_000_0000, route);
    FirstAnswers(true, at, 60_000_0000, now, 300_000);
    FirstAnswers(false, at, 60_000_0000, now, 300_000);
    assert [Record(at, 60_000_0000)][..0] == [];
    var count, volume := service.GetAccountVelocity(now, 300_000, route);
    var rules;
    score, decision, rules := EvaluateTransfer(false, count, volume, 45_000_0000);
  }

  ghost function Hits(count: nat, volume: int, amount: int): nat {
    (if count >= BURST_COUNT then 1 else 0) + (if volume + amount > BURST_VOLUME then 1 else 0)
    + (if amount >= SPIKE_AMOUNT then 1 else 0)
  }

  /** Rejected exactly for a blacklisted destination or two hits, flagged exactly for one hit. */
  lemma VerdictIff(blacklisted: bool, count: nat, volume: int, amount: int)
    ensures var d := Decide(Score(blacklisted, count, volume, amount));
            && (d == Rejected <==> blacklisted || Hits(count, volume, amount) >= 2)
            && (d == Flagged <==> !blacklisted && Hits(count, volume, amount) == 1)
  {}

  /** The score as documented: both kinds of burst are one rule of 40 points. */
  ghost function DocumentedScore(blacklisted: bool, count: nat, volume: int, amount: int): nat {
    (if blacklisted then 100 else 0) + (if count >= BURST_COUNT || volume + amount > BURST_VOLUME then 40 else 0)
    + (if amount >= SPIKE_AMOUNT then 30 else 0)
  }

  lemma ScoreIsDocumentedIff(blacklisted: bool, count: nat, volume: int, amount: int)
    ensures Score(blacklisted, count, volume, amount) == DocumentedScore(blacklisted, count, volume, amount) <==>
            !(count >= BURST_COUNT && volume + amount > BURST_VOLUME)
  {}

  lemma {:induction false} VolumeNotNegative(ts: seq<Transfer>)
    requires forall t :: t in ts ==> t.amount >= 0
    ensures Volume(ts) >= 0
  {
    if ts != [] {
      VolumeNotNegative(ts[..|ts| - 1]);
    }
  }

  /** More transfers anywhere in the history, or a larger amount, never lower the score or the verdict. */
  lemma RiskIsMonotone(redis: bool, blacklisted: bool, before: seq<Transfer>, more: seq<Transfer>, after: seq<Transfer>,
                       start: int, amount: int, amount': int)
    requires (forall t :: t in more ==> t.amount >= 0) && amount <= amount'
    ensures var w, w' := Window(redis, before + after, start), Window(redis, before + more + after, start);
            var s, s' := Score(blacklisted, |w|, Volume(w), amount), Score(blacklisted, |w'|, Volume(w'), amount');
            s <= s' && Severity(Decide(s)) <= Severity(Decide(s'))
  {
    hide Window, Volume;
    WindowConcat(redis, before, after, start);
    WindowConcat(redis, before + more, after, start);
    WindowConcat(redis, before, more, start);
    var a, m, b := Window(redis, before, start), Window(redis, more, start), Window(redis, after, start);
    VolumeConcat(a, b);
    VolumeConcat(a + m, b);
    VolumeConcat(a, m);
    WindowIsSubset(redis, more, start);
    VolumeNotNegative(m);
  }
}
