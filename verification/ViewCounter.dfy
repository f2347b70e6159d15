/**
 The write-behind view counter.  A view is counted in the pending hash and its user marked dirty;
 a flush extracts the whole hash atomically and later adds it to the persistent counters.  The two
 calls of a record, and the extraction and the database update of a flush, are separate steps, so
 records and flushes interleave.
 */
module ViewCounter {

  datatype UserId = UserId(value: int)

  type Counts = map<UserId, nat>

  function Count(m: Counts, user: UserId): nat {
    if user in m then m[user] else 0
  }

  function Bump(m: Counts, user: UserId, n: nat): Counts {
    m[user := Count(m, user) + n]
  }

  function Merge(m: Counts, batch: Counts): Counts {
    map user | user in m.Keys + batch.Keys :: Count(m, user) + Count(batch, user)
  }

  /** `midway` holds the users of records between their two calls; `inFlight` the extracted batches. */
  datatype State = State(
    pending: Counts,
    dirty: set<UserId>,
    midway: multiset<UserId>,
    inFlight: seq<Counts>,
    persistent: Counts,
    recorded: Counts,
    doubled: Counts,
    lost: Counts)

  datatype Step =
    | Increment(user: UserId)
    | IncrementFails(user: UserId)
    | IncrementReplyLost(user: UserId)
    | MarkDirty(user: UserId)
    | MarkDirtyFails(user: UserId)
    | MarkDirtyRaises(user: UserId)
    | Extract
    | ExtractReplyLost
    | Flush(batch: nat)
    | FlushFails(batch: nat)

  ghost predicate Enabled(s: State, step: Step) {
    match step
    case MarkDirty(user) => user in s.midway
    case MarkDirtyFails(user) => user in s.midway
    case MarkDirtyRaises(user) => user in s.midway
    case Flush(k) => k < |s.inFlight|
    case FlushFails(k) => k < |s.inFlight|
    case _ => true
  }

  function Without(batches: seq<Counts>, k: nat): seq<Counts>
    requires k < |batches|
  {
    batches[..k] + batches[k + 1..]
  }

  /**
   A record whose HINCRBY raised, whether or not it was applied, or whose SADD raised, falls back to
   the database, unless the database raises too.
   */
  ghost function Apply(s: State, step: Step): State
    requires Enabled(s, step)
  {
    match step
    case Increment(user) =>
      s.(pending := Bump(s.pending, user, 1), midway := s.midway + multiset{user}, recorded := Bump(s.recorded, user, 1))
    case IncrementFails(user) =>
      s.(persistent := Bump(s.persistent, user, 1), recorded := Bump(s.recorded, user, 1))
    case IncrementReplyLost(user) =>
      s.(pending := Bump(s.pending, user, 1), persistent := Bump(s.persistent, user, 1),
         recorded := Bump(s.recorded, user, 1), doubled := Bump(s.doubled, user, 1))
    case MarkDirty(user) =>
      s.(dirty := s.dirty + {user}, midway := s.midway - multiset{user})
    case MarkDirtyFails(user) =>
      s.(persistent := Bump(s.persistent, user, 1), midway := s.midway - multiset{user}, doubled := Bump(s.doubled, user, 1))
    case MarkDirtyRaises(user) =>
      s.(midway := s.midway - multiset{user})
    case ExtractReplyLost =>
      s.(pending := map[], dirty := {}, lost := Merge(s.lost, s.pending))
    case Extract =>
      s.(pending := map[], dirty := {}, inFlight := s.inFlight + [s.pending])
    case Flush(k) =>
      s.(persistent := Merge(s.persistent, s.inFlight[k]), inFlight := Without(s.inFlight, k))
    case FlushFails(k) =>
      s.(lost := Merge(s.lost, s.inFlight[k]), inFlight := Without(s.inFlight, k))
  }

  ghost predicate Run(s: State, steps: seq<Step>, end: State)
    decreases |steps|
  {
    if steps == [] then s == end
    else Enabled(s, steps[0]) && Run(Apply(s, steps[0]), steps[1..], end)
  }

  function Initial(persistent: Counts): State {
    State(map[], {}, multiset{}, [], persistent, persistent, map[], map[])
  }

  function InFlight(batches: seq<Counts>, user: UserId): nat {
    if batches == [] then 0 else Count(batches[0], user) + InFlight(batches[1..], user)
  }

  lemma {:induction false} InFlightConcat(a: seq<Counts>, b: seq<Counts>, user: UserId)
    ensures InFlight(a + b, user) == InFlight(a, user) + InFlight(b, user)
  {
    if a == [] {
      assert a + b == b;
    } else {
      assert (a + b)[1..] == a[1..] + b;
      InFlightConcat(a[1..], b, user);
    }
  }

  lemma InFlightWithout(batches: seq<Counts>, k: nat, user: UserId)
    requires k < |batches|
    ensures InFlight(batches, user) == InFlight(Without(batches, k), user) + Count(batches[k], user)
  {
    assert batches == batches[..k] + ([batches[k]] + batches[k + 1..]);
    InFlightConcat(batches[..k], [batches[k]] + batches[k + 1..], user);
    InFlightConcat([batches[k]], batches[k + 1..], user);
    InFlightConcat(batches[..k], batches[k + 1..], user);
  }

  /** Every view recorded or counted twice is persistent, pending, in flight or lost. */
  ghost predicate Accounted(s: State, user: UserId) {
    Count(s.recorded, user) + Count(s.doubled, user)
    == Count(s.persistent, user) + Count(s.pending, user) + InFlight(s.inFlight, user) + Count(s.lost, user)
  }

  lemma MergeCounts(m: Counts, batch: Counts, user: UserId)
    ensures Count(Merge(m, batch), user) == Count(m, user) + Count(batch, user)
    ensures Count(map[], user) == 0
  {}

  /** What the steps on whole batches do to the counters of a user. */
  lemma BatchCounts(s: State, step: Step, user: UserId)
    requires Enabled(s, step)
    ensures step.Extract? ==> InFlight(Apply(s, step).inFlight, user) == InFlight(s.inFlight, user) + Count(s.pending, user)
    ensures step.Flush? || step.FlushFails? ==>
              InFlight(s.inFlight, user) == InFlight(Without(s.inFlight, step.batch), user) + Count(s.inFlight[step.batch], user)
    ensures step.Flush? ==> Count(Apply(s, step).persistent, user) == Count(s.persistent, user) + Count(s.inFlight[step.batch], user)
    ensures step.FlushFails? ==> Count(Apply(s, step).lost, user) == Count(s.lost, user) + Count(s.inFlight[step.batch], user)
    ensures step.ExtractReplyLost? ==> Count(Apply(s, step).lost, user) == Count(s.lost, user) + Count(s.pending, user)
  {
    if step.Extract? {
      InFlightConcat(s.inFlight, [s.pending], user);
    } else if step.Flush? || step.FlushFails? {
      InFlightWithout(s.inFlight, step.batch, user);
      MergeCounts(s.persistent, s.inFlight[step.batch], user);
      MergeCounts(s.lost, s.inFlight[step.batch], user);
    } else {
      MergeCounts(s.lost, s.pending, user);
    }
  }

  lemma BumpCount(m: Counts, who: UserId, user: UserId)
    ensures Count(Bump(m, who, 1), user) == Count(m, user) + if who == user then 1 else 0
  {}

  /** What the steps of one record do to the counters of a user. */
  lemma BumpsCount(s: State, step: Step, user: UserId)
    ensures Count(map[], user) == 0
    ensures step.Increment? || step.IncrementFails? || step.IncrementReplyLost? || step.MarkDirtyFails? ==>
              forall m :: m in {s.pending, s.persistent, s.recorded, s.doubled} ==>
                Count(Bump(m, step.user, 1), user) == Count(m, user) + if step.user == user then 1 else 0
  {
    hide Bump;
    if step.Increment? || step.IncrementFails? || step.IncrementReplyLost? || step.MarkDirtyFails? {
      forall m | m in {s.pending, s.persistent, s.recorded, s.doubled}
        ensures Count(Bump(m, step.user, 1), user) == Count(m, user) + if step.user == user then 1 else 0
      {
        BumpCount(m, step.user, user);
      }
    }
  }

  lemma StepAccounts(s: State, step: Step, user: UserId)
    requires Enabled(s, step) && Accounted(s, user)
    ensures Accounted(Apply(s, step), user)
  {
    hide Count, Bump, Merge, InFlight, Without;
    BatchCounts(s, step, user);
    BumpsCount(s, step, user);
  }

  lemma {:induction false} RunAccounts(s: State, steps: seq<Step>, end: State, user: UserId)
    requires Run(s, steps, end) && Accounted(s, user)
    ensures Accounted(end, user)
    decreases |steps|
  {
    if steps != [] {
      StepAccounts(s, steps[0], user);
      RunAccounts(Apply(s, steps[0]), steps[1..], end, user);
    }
  }

  // ----- When recorded views are all there -----

  ghost predicate Whole(s: State, user: UserId) {
    Count(s.recorded, user) == Count(s.persistent, user) + Count(s.pending, user) + InFlight(s.inFlight, user)
  }

  /** The step does not fall back after the view was counted, and drops no view of the user. */
  ghost predicate Harmless(s: State, step: Step, user: UserId)
    requires Enabled(s, step)
  {
    && step != MarkDirtyFails(user) && step != IncrementReplyLost(user)
    && (step.ExtractReplyLost? ==> Count(s.pending, user) == 0)
    && (step.FlushFails? ==> Count(s.inFlight[step.batch], user) == 0)
  }

  lemma WholeKeptIff(s: State, step: Step, user: UserId)
    requires Enabled(s, step) && Whole(s, user)
    ensures Whole(Apply(s, step), user) <==> Harmless(s, step, user)
  {
    hide Count, Bump, Merge, InFlight, Without;
    BatchCounts(s, step, user);
    BumpsCount(s, step, user);
  }

  ghost predicate AlwaysWhole(s: State, steps: seq<Step>, end: State, user: UserId)
    requires Run(s, steps, end)
    decreases |steps|
  {
    Whole(s, user) && (steps != [] ==> AlwaysWhole(Apply(s, steps[0]), steps[1..], end, user))
  }

  ghost predicate AllHarmless(s: State, steps: seq<Step>, end: State, user: UserId)
    requires Run(s, steps, end)
    decreases |steps|
  {
    steps != [] ==> Harmless(s, steps[0], user) && AllHarmless(Apply(s, steps[0]), steps[1..], end, user)
  }

  /**
   Over every interleaving: in every state of the run the views recorded are those persistent,
   pending and in flight, if and only if every step is harmless.
   */
  lemma {:induction false} AlwaysWholeIff(s: State, steps: seq<Step>, end: State, user: UserId)
    requires Run(s, steps, end) && Whole(s, user)
    ensures AlwaysWhole(s, steps, end, user) <==> AllHarmless(s, steps, end, user)
    ensures AllHarmless(s, steps, end, user) ==> Whole(end, user)
    decreases |steps|
  {
    hide Whole, Harmless, Apply, Enabled;
    if steps != [] {
      var next := Apply(s, steps[0]);
      WholeKeptIff(s, steps[0], user);
      if Harmless(s, steps[0], user) {
        AlwaysWholeIff(next, steps[1..], end, user);
      }
    }
  }

  /** One view counted twice after a failing SADD, and one lost with a failing database update. */
  lemma FailuresMiscount(user: UserId) returns (twice: State, never: State)
    ensures Run(Initial(map[]), [Increment(user), MarkDirtyFails(user)], twice)
    ensures Count(twice.recorded, user) == 1 && Count(twice.persistent, user) + Count(twice.pending, user) == 2
    ensures Run(Initial(map[]), [Increment(user), MarkDirty(user), Extract, FlushFails(0)], never)
    ensures Count(never.recorded, user) == 1 && !Whole(never, user)
    ensures Count(never.persistent, user) + Count(never.pending, user) + InFlight(never.inFlight, user) == 0
  {
    var s1 := Apply(Initial(map[]), Increment(user));
    twice := Apply(s1, MarkDirtyFails(user));
    var s2 := Apply(s1, MarkDirty(user));
    var s3 := Apply(s2, Extract);
    never := Apply(s3, FlushFails(0));
    assert Run(s1, [MarkDirtyFails(user)], twice) by { assert Run(twice, [], twice); }
    assert Run(s3, [FlushFails(0)], never) by { assert Run(never, [], never); }
    assert Run(s2, [Extract, FlushFails(0)], never) by { assert [Extract, FlushFails(0)][1..] == [FlushFails(0)]; }
    assert Run(s1, [MarkDirty(user), Extract, FlushFails(0)], never) by {
      assert [MarkDirty(user), Extract, FlushFails(0)][1..] == [Extract, FlushFails(0)];
    }
    assert [Increment(user), MarkDirtyFails(user)][1..] == [MarkDirtyFails(user)];
    assert [Increment(user), MarkDirty(user), Extract, FlushFails(0)][1..] == [MarkDirty(user), Extract, FlushFails(0)];
  }

  // ----- Steps that are always harmless -----

  predicate Clean(step: Step) {
    && !step.IncrementReplyLost? && !step.MarkDirtyFails? && !step.MarkDirtyRaises?
    && !step.ExtractReplyLost? && !step.FlushFails?
  }

  /** Users with pending views are dirty or are about to be marked. */
  ghost predicate DirtyCovers(s: State) {
    forall user :: user in s.pending ==> user in s.dirty || user in s.midway
  }

  ghost predicate PositiveCounts(m: Counts) {
    forall user :: user in m ==> m[user] > 0
  }

  ghost predicate CleanInv(s: State) {
    DirtyCovers(s) && PositiveCounts(s.pending)
  }

  lemma CleanStep(s: State, step: Step)
    requires Enabled(s, step) && CleanInv(s) && Clean(step)
    ensures CleanInv(Apply(s, step))
    ensures forall user :: Count(s.persistent, user) <= Count(Apply(s, step).persistent, user)
    ensures forall user :: Harmless(s, step, user)
  {}

  lemma {:induction false} CleanRun(s: State, steps: seq<Step>, end: State, user: UserId)
    requires Run(s, steps, end) && CleanInv(s) && forall i :: 0 <= i < |steps| ==> Clean(steps[i])
    ensures CleanInv(end) && AllHarmless(s, steps, end, user)
    ensures Count(s.persistent, user) <= Count(end.persistent, user)
    decreases |steps|
  {
    hide CleanInv, Apply, Enabled, Count;
    if steps != [] {
      assert Clean(steps[0]);
      CleanStep(s, steps[0]);
      CleanRun(Apply(s, steps[0]), steps[1..], end, user);
    }
  }

  /** If only a HINCRBY that is not applied ever fails, no view is lost or counted twice in any interleaving. */
  lemma ViewsConserved(persistent: Counts, steps: seq<Step>, s: State, user: UserId)
    requires Run(Initial(persistent), steps, s) && forall i :: 0 <= i < |steps| ==> Clean(steps[i])
    ensures Whole(s, user)
    ensures user in s.pending ==> user in s.dirty || user in s.midway
  {
    CleanRun(Initial(persistent), steps, s, user);
    AlwaysWholeIff(Initial(persistent), steps, s, user);
  }

  lemma CleanStart(persistent: Counts, user: UserId)
    ensures CleanInv(Initial(persistent)) && Whole(Initial(persistent), user)
  {}

  /**
   A total read in two calls, the persistent part first: it never exceeds the views recorded, and
   it is exact when nothing is in flight at the second call and the persistent part has not changed
   in between.
   */
  lemma TotalNeverOvercounts(persistent: Counts, steps: seq<Step>, first: State, later: seq<Step>, second: State, user: UserId)
    requires Run(Initial(persistent), steps, first) && Run(first, later, second)
    requires forall i :: 0 <= i < |steps| ==> Clean(steps[i])
    requires forall i :: 0 <= i < |later| ==> Clean(later[i])
    ensures Count(first.persistent, user) + Count(second.pending, user) <= Count(second.recorded, user)
    ensures Count(first.persistent, user) + Count(second.pending, user) == Count(second.recorded, user)
            <==> Count(first.persistent, user) == Count(second.persistent, user) && InFlight(second.inFlight, user) == 0
  {
    hide Run, AllHarmless, AlwaysWhole, CleanInv, Clean;
    CleanStart(persistent, user);
    CleanRun(Initial(persistent), steps, first, user);
    CleanRun(first, later, second, user);
    AlwaysWholeIff(Initial(persistent), steps, first, user);
    AlwaysWholeIff(first, later, second, user);
  }

  // ----- The service -----

  /** How a call to Redis turns out: it can raise, whether it was applied or not. */
  datatype Fate = Answered | RaisedApplied | RaisedUnapplied

  datatype Mode = WriteBehind | DatabaseFallback | RecordRaised

  datatype Synced = RedisError | NoPendingData | Synced(records: nat, total: nat) | SyncRaised

  /** The sum of the counts of the listed users. */
  function Total(m: Counts, order: seq<UserId>): nat {
    if order == [] then 0 else Total(m, order[..|order| - 1]) + Count(m, order[|order| - 1])
  }

  lemma {:induction false} TotalIsSum(m: Counts, a: seq<UserId>, b: seq<UserId>, user: UserId)
    ensures Total(m, []) == 0 && Total(m, [user]) == Count(m, user)
    ensures Total(m, a + b) == Total(m, a) + Total(m, b)
    decreases |b|
  {
    assert [user][..0] == [];
    if b == [] {
      assert a + b == a;
    } else {
      var n := |b| - 1;
      assert (a + b)[..|a + b| - 1] == a + b[..n];
      TotalIsSum(m, a, b[..n], user);
    }
  }

  /** A flush raises the persistent counters by the total it reports. */
  lemma {:induction false} FlushAddsTotal(persistent: Counts, batch: Counts, order: seq<UserId>)
    ensures Total(Merge(persistent, batch), order) == Total(persistent, order) + Total(batch, order)
  {
    if order != [] {
      FlushAddsTotal(persistent, batch, order[..|order| - 1]);
    }
  }

  ghost predicate Lists(order: seq<UserId>, m: Counts) {
    && (forall i, j :: 0 <= i < j < |order| ==> order[i] != order[j])
    && (forall user :: user in order <==> user in m)
  }

  /** `m` with the counts of the batch added for the users visited so far. */
  ghost predicate Adding(m: Counts, batch: Counts, visited: seq<UserId>, sum: Counts) {
    && (forall user :: user in sum <==> user in m || user in visited)
    && (forall user :: user in sum ==> sum[user] == Count(m, user) + (if user in visited then Count(batch, user) else 0))
  }

  lemma AddOne(m: Counts, batch: Counts, visited: seq<UserId>, sum: Counts, user: UserId)
    requires Adding(m, batch, visited, sum) && user !in visited
    ensures Adding(m, batch, visited + [user], Bump(sum, user, Count(batch, user)))
  {}

  lemma AddedAll(m: Counts, batch: Counts, order: seq<UserId>, sum: Counts)
    requires Adding(m, batch, order, sum) && Lists(order, batch)
    ensures sum == Merge(m, batch)
  {}

  lemma Listed(order: seq<UserId>, m: Counts, user: UserId)
    requires Lists(order, m)
    ensures user in order <==> user in m
  {}

  lemma SameCounts(raw: Counts, order: seq<UserId>, views: Counts)
    requires Lists(order, raw) && forall user :: user in views <==> user in order
    requires forall user :: user in views ==> user in raw && views[user] == raw[user]
    ensures views == raw
  {}

  class AnalyticsService {
    var pending: Counts
    var dirty: set<UserId>
    var persistent: Counts

    ghost predicate Valid()
      reads this
    {
      PositiveCounts(pending)
    }

    constructor (views: Counts)
      ensures Valid() && pending == map[] && dirty == {} && persistent == views
    {
      pending, dirty, persistent := map[], {}, views;
    }

    /** `record_view`; HINCRBY, SADD and the database can raise. */
    method RecordView(user: UserId, increment: Fate, mark: Fate, databaseFails: bool) returns (mode: Mode)
      requires Valid()
      modifies this
      ensures Valid()
      ensures mode == if increment == Answered && mark == Answered then WriteBehind
                      else if databaseFails then RecordRaised else DatabaseFallback
      ensures pending == if increment == RaisedUnapplied then old(pending) else Bump(old(pending), user, 1)
      ensures dirty == if increment == Answered && mark != RaisedUnapplied then old(dirty) + {user} else old(dirty)
      ensures persistent == if mode == DatabaseFallback then Bump(old(persistent), user, 1) else old(persistent)
    {
      if increment != RaisedUnapplied {
        pending := pending[user := (if user in pending then pending[user] else 0) + 1];
      }
      if increment == Answered {
        if mark != RaisedUnapplied {
          dirty := dirty + {user};
        }
        if mark == Answered {
          return WriteBehind;
        }
      }
      if databaseFails {
        return RecordRaised;
      }
      var batch := map[user := 1];
      var n := IncrementViewsBatch(batch, [user]);
      assert persistent == Bump(old(persistent), user, 1);
      mode := DatabaseFallback;
    }

    /** `increment_views_batch`, visiting the batch in the given order. */
    method IncrementViewsBatch(batch: Counts, order: seq<UserId>) returns (updated: nat)
      requires Lists(order, batch)
      modifies this`persistent
      ensures updated == |order| && persistent == Merge(old(persistent), batch)
    {
      updated := 0;
      assert order[..0] == [];
      while updated < |order|
        invariant updated <= |order|
        invariant Adding(old(persistent), batch, order[..updated], persistent)
      {
        var user := order[updated];
        assert user in order && user !in order[..updated];
        AddOne(old(persistent), batch, order[..updated], persistent, user);
        assert order[..updated + 1] == order[..updated] + [user];
        persistent := persistent[user := (if user in persistent then persistent[user] else 0) + batch[user]];
        updated := updated + 1;
      }
      assert order[..updated] == order;
      AddedAll(old(persistent), batch, order, persistent);
    }

    /** `sync_pending_views_to_db`; `order` is the order in which the hash is returned. */
    method SyncPendingViews(order: seq<UserId>, extract: Fate, databaseFails: bool) returns (r: Synced)
      requires Valid() && Lists(order, pending)
      modifies this
      ensures Valid()
      ensures extract == RaisedUnapplied ==> pending == old(pending) && dirty == old(dirty)
      ensures extract != RaisedUnapplied ==> pending == map[] && dirty == {}
      ensures extract != Answered ==> r == RedisError && persistent == old(persistent)
      ensures extract == Answered ==>
                && persistent == (if databaseFails then old(persistent) else Merge(old(persistent), old(pending)))
                && r == if order == [] then NoPendingData else if databaseFails then SyncRaised
                        else Synced(|order|, Total(old(pending), order))
    {
      if extract == RaisedUnapplied {
        return RedisError;
      }
      var raw := pending;
      pending, dirty := map[], {};
      if extract == RaisedApplied {
        return RedisError;
      }
      var views: Counts := map[];
      var total := 0;
      var i := 0;
      while i < |order|
        invariant 0 <= i <= |order| && pending == map[] && dirty == {} && persistent == old(persistent)
        invariant forall user :: user in views <==> user in order[..i]
        invariant forall user :: user in views ==> user in raw && views[user] == raw[user]
        invariant total == Total(raw, order[..i])
      {
        assert order[..i + 1][..i] == order[..i];
        Listed(order, raw, order[i]);
        if raw[order[i]] > 0 {
          views := views[order[i] := raw[order[i]]];
          total := total + raw[order[i]];
        }
        i := i + 1;
      }
      assert order[..i] == order;
      SameCounts(raw, order, views);
      assert order != [] ==> order[0] in views;
      if views == map[] {
        assert Merge(persistent, map[]) == persistent;
        return NoPendingData;
      }
      if databaseFails {
        return SyncRaised;
      }
      var updated := IncrementViewsBatch(views, order);
      r := Synced(updated, total);
    }

    /** `get_user_views`; an error of Redis reads as no pending views. */
    method GetUserViews(user: UserId, redisFails: bool) returns (stored: nat, waiting: nat, total: nat)
      ensures stored == Count(persistent, user) && total == stored + waiting
      ensures waiting == if redisFails then 0 else Count(pending, user)
    {
      stored := if user in persistent then persistent[user] else 0;
      waiting := if !redisFails && user in pending then pending[user] else 0;
      total := stored + waiting;
    }
  }
}
