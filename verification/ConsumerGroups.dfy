/**
 Runs of the in-memory Kafka: any interleaving of sends, consumer (re)starts, polls, commits and
 seeks.  The history of a group records, per partition, the offsets returned to its consumers in
 the order in which they were returned.
 */
module ConsumerGroups {
  import opened Wrappers
  import opened KafkaLog

  /** A started consumer. */
  datatype Member = Member(group: string, assignment: set<TopicPartition>, positions: Positions)

  type History = map<TopicPartition, seq<nat>>

  datatype State = State(
    logs: Logs, committed: map<string, Positions>, members: map<nat, Member>, history: map<string, History>)

  datatype Step =
    | Send(tp: TopicPartition, key: Option<string>, value: string, timestamp: int)
    | Start(id: nat, group: string, assignment: set<TopicPartition>, earliest: bool)
    | PollFrom(id: nat, active: seq<TopicPartition>, room: int)
    | Commit(id: nat)
    | CommitAt(id: nat, offsets: Positions)
    | Seek(id: nat, tp: TopicPartition, offset: int)
    | SeekToCommitted(id: nat)

  function CommittedOf(s: State, g: string): Positions {
    if g in s.committed then s.committed[g] else map[]
  }

  function HistoryOf(s: State, g: string): History {
    if g in s.history then s.history[g] else map[]
  }

  function OffsetsSeen(h: History, tp: TopicPartition): seq<nat> {
    if tp in h then h[tp] else []
  }

  function Seen(s: State, g: string, tp: TopicPartition): seq<nat> {
    OffsetsSeen(HistoryOf(s, g), tp)
  }

  function Override(base: Positions, tps: set<TopicPartition>, f: TopicPartition -> nat): Positions {
    map tp | tp in base.Keys + tps :: if tp in tps then f(tp) else base[tp]
  }

  function Offsets(records: seq<Record>): (r: seq<nat>)
    ensures |r| == |records| && forall i :: 0 <= i < |r| ==> r[i] == records[i].offset
  {
    seq(|records|, i requires 0 <= i < |records| => records[i].offset)
  }

  function OffsetsIn(batch: Batch, tp: TopicPartition): seq<nat> {
    if tp in batch then Offsets(batch[tp]) else []
  }

  function Extend(h: History, batch: Batch): History {
    map tp | tp in h.Keys + batch.Keys :: OffsetsSeen(h, tp) + OffsetsIn(batch, tp)
  }

  /** What a poll returns and where it leaves the member. */
  function Polls(s: State, m: Member, active: seq<TopicPartition>, room: int): Polled {
    Poll(s.logs, Polled(m.positions, map[]), active, room)
  }

  ghost predicate Enabled(s: State, step: Step) {
    match step
    case Send(tp, key, value, ts) => true
    case Start(id, g, tps, earliest) => id in s.members ==> s.members[id].group == g
    case PollFrom(id, active, room) => id in s.members
    case Commit(id) => id in s.members
    case CommitAt(id, offsets) => id in s.members
    case Seek(id, tp, offset) => id in s.members && tp in s.members[id].assignment
    case SeekToCommitted(id) => id in s.members
  }

  function WithPositions(s: State, id: nat, positions: Positions): State
    requires id in s.members
  {
    s.(members := s.members[id := s.members[id].(positions := positions)])
  }

  ghost function Apply(s: State, step: Step): State
    requires Enabled(s, step)
  {
    match step
    case Send(tp, key, value, ts) => s.(logs := Append(s.logs, tp, key, value, ts))
    case Start(id, g, tps, earliest) =>
      var before := if id in s.members then s.members[id].positions else map[];
      var commits := CommittedOf(s, g);
      var positions := Override(before, tps, tp => StartPosition(commits, LogOf(s.logs, tp), earliest, tp));
      s.(members := s.members[id := Member(g, tps, positions)])
    case PollFrom(id, active, room) =>
      var m := s.members[id];
      var end := Polls(s, m, active, room);
      WithPositions(s, id, end.positions).(
        history := s.history[m.group := Extend(HistoryOf(s, m.group), end.batch)])
    case Commit(id) =>
      var m := s.members[id];
      s.(committed := s.committed[m.group :=
        Override(CommittedOf(s, m.group), m.assignment, tp => PositionOf(m.positions, tp))])
    case CommitAt(id, offsets) =>
      var m := s.members[id];
      s.(committed := s.committed[m.group :=
        Override(CommittedOf(s, m.group), offsets.Keys, tp => PositionOf(offsets, tp))])
    case Seek(id, tp, offset) =>
      WithPositions(s, id, s.members[id].positions[tp := if offset < 0 then 0 else offset])
    case SeekToCommitted(id) =>
      var m := s.members[id];
      var commits := CommittedOf(s, m.group);
      WithPositions(s, id, Override(m.positions, m.assignment, tp => PositionOf(commits, tp)))
  }

  // ----- Invariant -----

  /** Every offset below `p` has been returned. */
  ghost predicate Reached(seen: seq<nat>, p: nat) {
    forall a: nat :: a < p ==> a in seen
  }

  /** No offset is returned before all smaller ones have been. */
  ghost predicate GapFree(seen: seq<nat>) {
    forall j, a: nat :: 0 <= j < |seen| && a < seen[j] ==> a in seen[..j]
  }

  ghost predicate Numbered(logs: Logs) {
    forall tp, i :: tp in logs && 0 <= i < |logs[tp]| ==> logs[tp][i].offset == i
  }

  ghost predicate PositionsReached(s: State) {
    forall id, tp :: id in s.members && tp in s.members[id].positions ==>
      Reached(Seen(s, s.members[id].group, tp), s.members[id].positions[tp])
  }

  ghost predicate CommitsReached(s: State) {
    forall g, tp :: tp in CommittedOf(s, g) ==> Reached(Seen(s, g, tp), CommittedOf(s, g)[tp])
  }

  /** Records are first returned in log order, and whatever lies below a committed offset was returned. */
  ghost predicate Promise(s: State) {
    (forall g, tp :: GapFree(Seen(s, g, tp))) && CommitsReached(s)
  }

  /** The promise, and that fetch positions keep to it as well. */
  ghost predicate Inv(s: State) {
    Numbered(s.logs) && Promise(s) && PositionsReached(s)
  }

  /** The record just before offset `p` has been returned. */
  ghost predicate JustBefore(seen: seq<nat>, p: nat) {
    p == 0 || p - 1 in seen
  }

  /** The member's position in `tp` passes no record that was not returned. */
  ghost predicate InStep(s: State, m: Member, tp: TopicPartition) {
    JustBefore(Seen(s, m.group, tp), PositionOf(m.positions, tp))
  }

  /**
   Where the promise is at stake: a commit is for an offset, and a poll returns records from a
   position, whose record just before was returned to the group.
   */
  ghost predicate Guarded(s: State, step: Step)
    requires Enabled(s, step)
  {
    match step
    case PollFrom(id, active, room) =>
      var m := s.members[id];
      forall tp :: tp in Polls(s, m, active, room).batch ==> InStep(s, m, tp)
    case Commit(id) =>
      var m := s.members[id];
      forall tp :: tp in m.assignment ==> InStep(s, m, tp)
    case CommitAt(id, offsets) =>
      forall tp :: tp in offsets ==> JustBefore(Seen(s, s.members[id].group, tp), offsets[tp])
    case _ => true
  }

  /** A position or a commit is moved only to where the record just before it was returned to the group. */
  ghost predicate Safe(s: State, step: Step)
    requires Enabled(s, step)
  {
    match step
    case Start(id, g, tps, earliest) =>
      earliest || forall tp :: tp in tps && tp !in CommittedOf(s, g) ==> JustBefore(Seen(s, g, tp), |LogOf(s.logs, tp)|)
    case Seek(id, tp, offset) => offset > 0 ==> JustBefore(Seen(s, s.members[id].group, tp), offset)
    case CommitAt(id, offsets) =>
      forall tp :: tp in offsets ==> JustBefore(Seen(s, s.members[id].group, tp), offsets[tp])
    case _ => true
  }

  /** Without gaps, everything below `p` has been returned as soon as the record just before `p` has. */
  lemma ReachedIffJustBefore(seen: seq<nat>, p: nat)
    requires GapFree(seen)
    ensures Reached(seen, p) <==> JustBefore(seen, p)
  {
    if p > 0 && p - 1 in seen {
      var j :| 0 <= j < |seen| && seen[j] == p - 1;
      forall a: nat | a < p ensures a in seen {
        if a < p - 1 {
          assert a in seen[..j];
        }
      }
    }
  }

  // ----- A poll returns what comes next -----

  lemma ExtendRun(seen: seq<nat>, pos: nat, more: seq<nat>)
    requires GapFree(seen) && Reached(seen, pos)
    requires forall i :: 0 <= i < |more| ==> more[i] == pos + i
    ensures GapFree(seen + more) && Reached(seen + more, pos + |more|)
  {
    var all := seen + more;
    forall j, a: nat | 0 <= j < |all| && a < all[j] ensures a in all[..j] {
      if j < |seen| {
        assert all[..j] == seen[..j];
      } else if a >= pos {
        assert all[..j][|seen| + (a - pos)] == a;
      } else {
        assert a in seen;
        var i: nat :| i < |seen| && seen[i] == a;
        assert all[..j][i] == a;
      }
    }
    forall a: nat | a < pos + |more| ensures a in all {
      if a >= pos { assert all[|seen| + (a - pos)] == a; }
    }
  }

  /** Returning a stretch of records opens no gap exactly when the record just before it was returned. */
  lemma ExtendRunIff(seen: seq<nat>, pos: nat, more: seq<nat>)
    requires GapFree(seen) && more != []
    requires forall i :: 0 <= i < |more| ==> more[i] == pos + i
    ensures GapFree(seen + more) <==> JustBefore(seen, pos)
  {
    ReachedIffJustBefore(seen, pos);
    if JustBefore(seen, pos) {
      ExtendRun(seen, pos, more);
    }
    if GapFree(seen + more) {
      assert (seen + more)[|seen|] == pos && (seen + more)[..|seen|] == seen;
      assert Reached(seen, pos);
    }
  }

  ghost predicate Stretch(start: nat, now: nat, got: seq<nat>) {
    now == start + |got| && forall i :: 0 <= i < |got| ==> got[i] == start + i
  }

  /** What a poll in progress has gathered is, per partition, one stretch of offsets from where it started. */
  ghost predicate Stretches(start: Positions, s: Polled) {
    forall tp ::
      && Stretch(PositionOf(start, tp), PositionOf(s.positions, tp), OffsetsIn(s.batch, tp))
      && (tp in s.batch ==> OffsetsIn(s.batch, tp) != [])
  }

  lemma FetchNumbers(log: seq<Record>, pos: nat, room: int)
    requires forall i :: 0 <= i < |log| ==> log[i].offset == i
    ensures forall i :: 0 <= i < |Offsets(Fetch(log, pos, room))| ==> Offsets(Fetch(log, pos, room))[i] == pos + i
  {}

  lemma AddToOffsets(batch: Batch, tp: TopicPartition, got: seq<Record>, other: TopicPartition)
    ensures OffsetsIn(AddTo(batch, tp, got), other) == OffsetsIn(batch, other) + if other == tp then Offsets(got) else []
    ensures other in AddTo(batch, tp, got) <==> other in batch || (other == tp && got != [])
  {
    var was := if tp in batch then batch[tp] else [];
    assert Offsets(was + got) == Offsets(was) + Offsets(got);
  }

  lemma TurnStretches(logs: Logs, start: Positions, s: Polled, tp: TopicPartition, room: int)
    requires Numbered(logs) && Stretches(start, s)
    ensures Stretches(start, Turn(logs, s, tp, room))
  {
    hide Fetch, AddTo, Offsets, OffsetsIn;
    var t, got := Turn(logs, s, tp, room), Got(logs, s, tp, room);
    FetchNumbers(LogOf(logs, tp), PositionOf(s.positions, tp), room);
    forall other
      ensures Stretch(PositionOf(start, other), PositionOf(t.positions, other), OffsetsIn(t.batch, other))
      ensures other in t.batch ==> OffsetsIn(t.batch, other) != []
    {
      AddToOffsets(s.batch, tp, got, other);
      assert OffsetsIn(s.batch, other) + [] == OffsetsIn(s.batch, other);
    }
  }

  lemma {:induction false} PollStretches(logs: Logs, start: Positions, s: Polled, active: seq<TopicPartition>, room: int)
    requires Numbered(logs) && Stretches(start, s)
    ensures Stretches(start, Poll(logs, s, active, room))
    decreases |active|
  {
    hide Stretches, Turn, Got, Numbered;
    if active != [] && room > 0 {
      TurnStretches(logs, start, s, active[0], room);
      PollStretches(logs, start, Turn(logs, s, active[0], room), active[1..], room - |Got(logs, s, active[0], room)|);
    }
  }

  // ----- Steps -----

  lemma NothingGathered(start: Positions)
    ensures Stretches(start, Polled(start, map[]))
  {}

  /** A poll adds, per partition, a stretch of offsets to what its group has seen, and nothing else. */
  lemma PollAdds(s: State, id: nat, active: seq<TopicPartition>, room: int)
    requires Numbered(s.logs) && id in s.members
    ensures var m, s' := s.members[id], Apply(s, PollFrom(id, active, room));
            var end := Polls(s, m, active, room);
            && Stretches(m.positions, end)
            && (forall tp :: Seen(s', m.group, tp) == Seen(s, m.group, tp) + OffsetsIn(end.batch, tp))
            && (forall g, tp :: g != m.group ==> Seen(s', g, tp) == Seen(s, g, tp))
            && (forall g :: CommittedOf(s', g) == CommittedOf(s, g))
            && s'.logs == s.logs && s'.members == s.members[id := m.(positions := end.positions)]
    ensures var m := s.members[id];
            var end := Apply(s, PollFrom(id, active, room)).members[id].positions;
            Answers(s.logs, m.positions, active, room, end, Polls(s, m, active, room).batch)
  {
    hide Poll, Numbered, Offsets, Stretch, Answers;
    var m := s.members[id];
    PollAnswers(s.logs, m.positions, active, room);
    NothingGathered(m.positions);
    PollStretches(s.logs, m.positions, Polled(m.positions, map[]), active, room);
    var s', batch := Apply(s, PollFrom(id, active, room)), Polls(s, m, active, room).batch;
    forall tp ensures Seen(s', m.group, tp) == Seen(s, m.group, tp) + OffsetsIn(batch, tp) {
      assert Seen(s, m.group, tp) + [] == Seen(s, m.group, tp);
    }
  }

  lemma ReachedNothing(seen: seq<nat>)
    ensures Reached(seen, 0)
  {}

  /** Returning more records takes nothing back. */
  lemma ReachedMore(seen: seq<nat>, more: seq<nat>, p: nat)
    requires Reached(seen, p)
    ensures Reached(seen + more, p)
  {}

  lemma CommitsStayReached(s: State, s': State, group: string, batch: Batch)
    requires CommitsReached(s) && forall g :: CommittedOf(s', g) == CommittedOf(s, g)
    requires forall tp :: Seen(s', group, tp) == Seen(s, group, tp) + OffsetsIn(batch, tp)
    requires forall g, tp :: g != group ==> Seen(s', g, tp) == Seen(s, g, tp)
    ensures CommitsReached(s')
  {
    hide Reached, Seen, CommittedOf, OffsetsIn;
    forall g, tp | tp in CommittedOf(s', g) ensures Reached(Seen(s', g, tp), CommittedOf(s', g)[tp]) {
      assert tp in CommittedOf(s, g);
      ReachedMore(Seen(s, g, tp), OffsetsIn(batch, tp), CommittedOf(s, g)[tp]);
    }
  }

  lemma PollPromiseIff(s: State, step: Step)
    requires Numbered(s.logs) && Promise(s) && Enabled(s, step) && step.PollFrom?
    ensures Promise(Apply(s, step)) <==> Guarded(s, step)
  {
    hide Reached, GapFree, Seen, CommittedOf, Polls, JustBefore, Numbered, CommitsReached, OffsetsIn, Answers;
    var s', m := Apply(s, step), s.members[step.id];
    var end := Polls(s, m, step.active, step.room);
    PollAdds(s, step.id, step.active, step.room);
    CommitsStayReached(s, s', m.group, end.batch);
    forall tp ensures GapFree(Seen(s', m.group, tp)) <==> (tp in end.batch ==> InStep(s, m, tp)) {
      PollGapIff(s, m, end, tp);
    }
    if Guarded(s, step) {
      forall g, tp ensures GapFree(Seen(s', g, tp)) {
        if g != m.group { assert GapFree(Seen(s, g, tp)); }
      }
    }
  }

  lemma PollGapIff(s: State, m: Member, end: Polled, tp: TopicPartition)
    requires Stretches(m.positions, end) && GapFree(Seen(s, m.group, tp))
    ensures GapFree(Seen(s, m.group, tp) + OffsetsIn(end.batch, tp)) <==> (tp in end.batch ==> InStep(s, m, tp))
  {
    hide GapFree, Seen, JustBefore;
    var got := OffsetsIn(end.batch, tp);
    if tp in end.batch {
      ExtendRunIff(Seen(s, m.group, tp), PositionOf(m.positions, tp), got);
    } else {
      assert Seen(s, m.group, tp) + got == Seen(s, m.group, tp);
    }
  }

  lemma CommitPromiseIff(s: State, step: Step)
    requires Promise(s) && Enabled(s, step) && step.Commit?
    ensures Promise(Apply(s, step)) <==> Guarded(s, step)
  {
    hide Reached, GapFree, JustBefore;
    var s', m := Apply(s, step), s.members[step.id];
    forall g, tp ensures Seen(s', g, tp) == Seen(s, g, tp) {}
    forall tp ensures Reached(Seen(s, m.group, tp), PositionOf(m.positions, tp)) <==> InStep(s, m, tp) {
      ReachedIffJustBefore(Seen(s, m.group, tp), PositionOf(m.positions, tp));
    }
    if Guarded(s, step) {
      forall g, tp | tp in CommittedOf(s', g) ensures Reached(Seen(s', g, tp), CommittedOf(s', g)[tp]) {
        if g != m.group || tp !in m.assignment { assert tp in CommittedOf(s, g); }
      }
    } else {
      var tp :| tp in m.assignment && !InStep(s, m, tp);
      assert tp in CommittedOf(s', m.group);
    }
  }

  lemma CommitAtPromiseIff(s: State, step: Step)
    requires Promise(s) && Enabled(s, step) && step.CommitAt?
    ensures Promise(Apply(s, step)) <==> Guarded(s, step)
  {
    hide Reached, GapFree, JustBefore;
    var s', group := Apply(s, step), s.members[step.id].group;
    forall g, tp ensures Seen(s', g, tp) == Seen(s, g, tp) {}
    forall tp | tp in step.offsets
      ensures Reached(Seen(s, group, tp), step.offsets[tp]) <==> JustBefore(Seen(s, group, tp), step.offsets[tp])
    {
      ReachedIffJustBefore(Seen(s, group, tp), step.offsets[tp]);
    }
    if Guarded(s, step) {
      forall g, tp | tp in CommittedOf(s', g) ensures Reached(Seen(s', g, tp), CommittedOf(s', g)[tp]) {
        if g != group || tp !in step.offsets { assert tp in CommittedOf(s, g); }
      }
    } else {
      var tp :| tp in step.offsets && !JustBefore(Seen(s, group, tp), step.offsets[tp]);
      assert tp in CommittedOf(s', group);
    }
  }

  /** The promise survives a step exactly when the step is guarded. */
  lemma PromiseKeptIffGuarded(s: State, step: Step)
    requires Numbered(s.logs) && Promise(s) && Enabled(s, step)
    ensures Promise(Apply(s, step)) <==> Guarded(s, step)
    ensures Numbered(Apply(s, step).logs)
  {
    hide Promise, Guarded;
    match step
    case PollFrom(_, _, _) => PollPromiseIff(s, step);
    case Commit(_) => CommitPromiseIff(s, step);
    case CommitAt(_, _) => CommitAtPromiseIff(s, step);
    case _ => RestKeepsPromise(s, step);
  }

  lemma RestKeepsPromise(s: State, step: Step)
    requires Promise(s) && Enabled(s, step) && !step.PollFrom? && !step.Commit? && !step.CommitAt?
    ensures Promise(Apply(s, step)) && Guarded(s, step)
  {
    hide Reached, GapFree;
    var s' := Apply(s, step);
    forall g, tp ensures Seen(s', g, tp) == Seen(s, g, tp) {}
    forall g ensures CommittedOf(s', g) == CommittedOf(s, g) {}
  }

  /**
   Where starts and rewinds leave a member: at the committed offset, and without one at the start or,
   for a consumer that starts at the latest record, at the end of the log.
   */
  lemma PositionsAfter(s: State, step: Step, tp: TopicPartition)
    requires Enabled(s, step) && (step.Start? || step.SeekToCommitted?)
    ensures var s' := Apply(s, step);
            var m := s'.members[step.id];
            var commits := CommittedOf(s, m.group);
            && s'.logs == s.logs && s'.committed == s.committed && s'.history == s.history
            && (step.Start? ==> m.group == step.group && m.assignment == step.assignment)
            && (step.SeekToCommitted? ==> m.group == s.members[step.id].group && m.assignment == s.members[step.id].assignment)
            && (tp in m.assignment && tp in commits ==> PositionOf(m.positions, tp) == commits[tp])
            && (tp in m.assignment && tp !in commits ==>
                  PositionOf(m.positions, tp) == if step.Start? && !step.earliest then |LogOf(s.logs, tp)| else 0)
            && (forall other :: other in s.members && other != step.id ==> s'.members[other] == s.members[other])
  {}

  // ----- Fetch positions -----

  lemma PollStepKeeps(s: State, id: nat, active: seq<TopicPartition>, room: int)
    requires Inv(s) && id in s.members
    ensures Inv(Apply(s, PollFrom(id, active, room)))
  {
    hide Reached, GapFree, Seen, CommittedOf, Polls, Numbered, CommitsReached, OffsetsIn, Answers;
    var m, s' := s.members[id], Apply(s, PollFrom(id, active, room));
    var end := Polls(s, m, active, room);
    PollAdds(s, id, active, room);
    CommitsStayReached(s, s', m.group, end.batch);
    forall tp
      ensures GapFree(Seen(s', m.group, tp)) && Reached(Seen(s', m.group, tp), PositionOf(end.positions, tp))
    {
      ReachedNothing(Seen(s, m.group, tp));
      ExtendRun(Seen(s, m.group, tp), PositionOf(m.positions, tp), OffsetsIn(end.batch, tp));
    }
    forall g, tp ensures GapFree(Seen(s', g, tp)) {
      if g != m.group { assert GapFree(Seen(s, g, tp)); }
    }
    forall i, tp | i in s'.members && tp in s'.members[i].positions
      ensures Reached(Seen(s', s'.members[i].group, tp), s'.members[i].positions[tp])
    {
      if i != id {
        var o := s.members[i];
        assert tp in o.positions;
        ReachedMore(Seen(s, o.group, tp), OffsetsIn(end.batch, tp), o.positions[tp]);
      }
    }
  }

  lemma StartKeepsIff(s: State, step: Step)
    requires Inv(s) && Enabled(s, step) && step.Start?
    ensures Inv(Apply(s, step)) <==> Safe(s, step)
  {
    hide Reached, GapFree, Numbered, JustBefore;
    var s' := Apply(s, step);
    forall g, tp ensures Seen(s', g, tp) == Seen(s, g, tp) {}
    forall g ensures CommittedOf(s', g) == CommittedOf(s, g) {}
    forall tp | tp in step.assignment ensures s'.members[step.id].positions[tp] ==
                  StartPosition(CommittedOf(s, step.group), LogOf(s.logs, tp), step.earliest, tp) {}
    forall tp, p ensures Reached(Seen(s, step.group, tp), p) <==> JustBefore(Seen(s, step.group, tp), p) {
      ReachedIffJustBefore(Seen(s, step.group, tp), p);
    }
    if Safe(s, step) {
      forall i, tp | i in s'.members && tp in s'.members[i].positions
        ensures Reached(Seen(s', s'.members[i].group, tp), s'.members[i].positions[tp])
      {
        if i != step.id || tp !in step.assignment {
          assert tp in s.members[i].positions;
        } else {
          ReachedNothing(Seen(s, step.group, tp));
        }
      }
    } else {
      var tp :| tp in step.assignment && tp !in CommittedOf(s, step.group) &&
                !JustBefore(Seen(s, step.group, tp), |LogOf(s.logs, tp)|);
      assert tp in s'.members[step.id].positions;
    }
  }

  lemma SeekKeepsIff(s: State, step: Step)
    requires Inv(s) && Enabled(s, step) && step.Seek?
    ensures Inv(Apply(s, step)) <==> Safe(s, step)
  {
    hide Reached, GapFree, Numbered;
    var s' := Apply(s, step);
    forall g, tp ensures Seen(s', g, tp) == Seen(s, g, tp) {}
    forall g ensures CommittedOf(s', g) == CommittedOf(s, g) {}
    ReachedNothing(Seen(s, s.members[step.id].group, step.tp));
    if step.offset > 0 {
      ReachedIffJustBefore(Seen(s, s.members[step.id].group, step.tp), step.offset);
    }
    if Safe(s, step) {
      forall i, tp | i in s'.members && tp in s'.members[i].positions
        ensures Reached(Seen(s', s'.members[i].group, tp), s'.members[i].positions[tp])
      {
        if i != step.id || tp != step.tp { assert tp in s.members[i].positions; }
      }
    } else {
      assert step.tp in s'.members[step.id].positions;
    }
  }

  lemma CommitAtKeepsIff(s: State, step: Step)
    requires Inv(s) && Enabled(s, step) && step.CommitAt?
    ensures Inv(Apply(s, step)) <==> Safe(s, step)
  {
    hide Reached, GapFree, Numbered;
    var s', group := Apply(s, step), s.members[step.id].group;
    forall g, tp ensures Seen(s', g, tp) == Seen(s, g, tp) {}
    forall tp | tp in step.offsets
      ensures Reached(Seen(s, group, tp), step.offsets[tp]) <==> JustBefore(Seen(s, group, tp), step.offsets[tp])
    {
      ReachedIffJustBefore(Seen(s, group, tp), step.offsets[tp]);
    }
    if Safe(s, step) {
      forall g, tp | tp in CommittedOf(s', g) ensures Reached(Seen(s', g, tp), CommittedOf(s', g)[tp]) {
        if g != group || tp !in step.offsets { assert tp in CommittedOf(s, g); }
      }
    } else {
      var tp :| tp in step.offsets && !JustBefore(Seen(s, group, tp), step.offsets[tp]);
      assert tp in CommittedOf(s', group);
    }
  }

  lemma CommitKeeps(s: State, step: Step)
    requires Inv(s) && Enabled(s, step) && step.Commit?
    ensures Inv(Apply(s, step))
  {
    hide Reached, GapFree, Numbered;
    var s', m := Apply(s, step), s.members[step.id];
    forall g, tp ensures Seen(s', g, tp) == Seen(s, g, tp) {}
    forall g, tp | tp in CommittedOf(s', g) ensures Reached(Seen(s', g, tp), CommittedOf(s', g)[tp]) {
      if g != m.group || tp !in m.assignment {
        assert tp in CommittedOf(s, g);
      } else {
        ReachedNothing(Seen(s, g, tp));
      }
    }
  }

  lemma SeekToCommittedKeeps(s: State, step: Step)
    requires Inv(s) && Enabled(s, step) && step.SeekToCommitted?
    ensures Inv(Apply(s, step))
  {
    hide Reached, GapFree, Numbered;
    var s', m := Apply(s, step), s.members[step.id];
    forall g, tp ensures Seen(s', g, tp) == Seen(s, g, tp) {}
    forall g ensures CommittedOf(s', g) == CommittedOf(s, g) {}
    forall i, tp | i in s'.members && tp in s'.members[i].positions
      ensures Reached(Seen(s', s'.members[i].group, tp), s'.members[i].positions[tp])
    {
      if i != step.id || tp !in m.assignment {
        assert tp in s.members[i].positions;
      } else {
        ReachedNothing(Seen(s, m.group, tp));
      }
    }
  }

  lemma SendKeeps(s: State, step: Step)
    requires Inv(s) && Enabled(s, step) && step.Send?
    ensures Inv(Apply(s, step))
  {
    hide Reached, GapFree;
    var s' := Apply(s, step);
    forall g, tp ensures Seen(s', g, tp) == Seen(s, g, tp) {}
    forall g ensures CommittedOf(s', g) == CommittedOf(s, g) {}
  }

  /** The guarantees survive a step exactly when it respects what has been returned so far. */
  lemma InvKeptIffSafe(s: State, step: Step)
    requires Inv(s) && Enabled(s, step)
    ensures Inv(Apply(s, step)) <==> Safe(s, step)
  {
    hide Inv, Apply;
    match step
    case Send(_, _, _, _) => SendKeeps(s, step);
    case Start(_, _, _, _) => StartKeepsIff(s, step);
    case PollFrom(id, active, room) => PollStepKeeps(s, id, active, room);
    case Commit(_) => CommitKeeps(s, step);
    case CommitAt(_, _) => CommitAtKeepsIff(s, step);
    case Seek(_, _, _) => SeekKeepsIff(s, step);
    case SeekToCommitted(_) => SeekToCommittedKeeps(s, step);
  }

  /** Going back is always allowed. */
  lemma RewindIsSafe(s: State, id: nat, tp: TopicPartition, offset: int)
    requires Inv(s) && Enabled(s, Seek(id, tp, offset)) && offset <= PositionOf(s.members[id].positions, tp)
    ensures Safe(s, Seek(id, tp, offset))
  {
    var m := s.members[id];
    if offset > 0 {
      assert tp in m.positions && Reached(Seen(s, m.group, tp), m.positions[tp]);
    }
  }

  /** What a caller can see to: consumers start from the earliest record, seek only back and commit where they are. */
  ghost predicate Cautious(s: State, step: Step)
    requires Enabled(s, step)
  {
    match step
    case Start(_, _, _, earliest) => earliest
    case Seek(id, tp, offset) => offset <= PositionOf(s.members[id].positions, tp)
    case CommitAt(_, _) => false
    case _ => true
  }

  lemma CautiousIsSafe(s: State, step: Step)
    requires Inv(s) && Enabled(s, step) && Cautious(s, step)
    ensures Safe(s, step)
  {
    if step.Seek? {
      RewindIsSafe(s, step.id, step.tp, step.offset);
    }
  }

  /** As long as fetch positions keep to the promise, polls and plain commits cannot break it. */
  lemma SafeIsGuarded(s: State, step: Step)
    requires Inv(s) && Enabled(s, step) && Safe(s, step)
    ensures Guarded(s, step)
  {
    hide Polls;
    if step.PollFrom? || step.Commit? {
      var m := s.members[step.id];
      forall tp ensures InStep(s, m, tp) {
        if tp in m.positions { assert Reached(Seen(s, m.group, tp), m.positions[tp]); }
      }
    }
  }

  // ----- Runs -----

  ghost predicate Init(s: State) {
    s.logs == map[] && s.committed == map[] && s.members == map[] && s.history == map[]
  }

  ghost predicate Run(states: seq<State>, steps: seq<Step>) {
    && |states| == |steps| + 1
    && Init(states[0])
    && forall i :: 0 <= i < |steps| ==> Enabled(states[i], steps[i]) && states[i + 1] == Apply(states[i], steps[i])
  }

  ghost predicate AllGuarded(states: seq<State>, steps: seq<Step>)
    requires Run(states, steps)
  {
    forall i :: 0 <= i < |steps| ==> Guarded(states[i], steps[i])
  }

  ghost predicate AllSafe(states: seq<State>, steps: seq<Step>)
    requires Run(states, steps)
  {
    forall i :: 0 <= i < |steps| ==> Safe(states[i], steps[i])
  }

  ghost predicate AllCautious(states: seq<State>, steps: seq<Step>)
    requires Run(states, steps)
  {
    forall i :: 0 <= i < |steps| ==> Cautious(states[i], steps[i])
  }

  lemma {:induction false} RunInv(states: seq<State>, steps: seq<Step>, i: nat)
    requires Run(states, steps) && i < |states| && (AllSafe(states, steps) || AllCautious(states, steps))
    ensures Inv(states[i])
  {
    hide Inv, Safe, Cautious, Apply, Enabled;
    if i > 0 {
      RunInv(states, steps, i - 1);
      assert states[i - 1 + 1] == Apply(states[i - 1], steps[i - 1]);
      InvKeptIffSafe(states[i - 1], steps[i - 1]);
      if AllCautious(states, steps) {
        CautiousIsSafe(states[i - 1], steps[i - 1]);
      }
    } else {
      NothingYet(states[0]);
    }
  }

  lemma NothingYet(s: State)
    requires Init(s)
    ensures Inv(s)
  {}

  /** Over every run no fetch position ever passes an unreturned record if and only if every step is safe. */
  lemma AlwaysInvIffSafe(states: seq<State>, steps: seq<Step>)
    requires Run(states, steps)
    ensures (forall i :: 0 <= i < |states| ==> Inv(states[i])) <==> AllSafe(states, steps)
  {
    hide Inv, Safe, Apply, Enabled;
    if AllSafe(states, steps) {
      forall i | 0 <= i < |states| ensures Inv(states[i]) {
        RunInv(states, steps, i);
      }
    }
    if forall i :: 0 <= i < |states| ==> Inv(states[i]) {
      forall i | 0 <= i < |steps| ensures Safe(states[i], steps[i]) {
        assert Inv(states[i]) && Inv(states[i + 1]);
        InvKeptIffSafe(states[i], steps[i]);
      }
    }
  }

  lemma {:induction false} RunPromise(states: seq<State>, steps: seq<Step>, i: nat)
    requires Run(states, steps) && i < |states| && forall j :: 0 <= j < i ==> Guarded(states[j], steps[j])
    ensures Promise(states[i]) && Numbered(states[i].logs)
  {
    hide Promise, Guarded, Apply, Enabled, Numbered;
    if i > 0 {
      RunPromise(states, steps, i - 1);
      assert states[i - 1 + 1] == Apply(states[i - 1], steps[i - 1]);
      PromiseKeptIffGuarded(states[i - 1], steps[i - 1]);
    } else {
      NothingPromisedYet(states[0]);
    }
  }

  lemma NothingPromisedYet(s: State)
    requires Init(s)
    ensures Promise(s) && Numbered(s.logs)
  {}

  /**
   Over every run: whatever lies below a committed offset was returned, and first returns follow the
   log, in every state of the run, if and only if every commit and every poll is guarded.
   */
  lemma AlwaysPromisedIffGuarded(states: seq<State>, steps: seq<Step>)
    requires Run(states, steps)
    ensures (forall i :: 0 <= i < |states| ==> Promise(states[i])) <==> AllGuarded(states, steps)
  {
    hide Promise, Guarded, Apply, Enabled, Numbered;
    if AllGuarded(states, steps) {
      forall i | 0 <= i < |states| ensures Promise(states[i]) {
        RunPromise(states, steps, i);
      }
    }
    if forall i :: 0 <= i < |states| ==> Promise(states[i]) {
      var k := 0;
      while k < |steps|
        invariant 0 <= k <= |steps| && forall j :: 0 <= j < k ==> Guarded(states[j], steps[j])
      {
        RunPromise(states, steps, k);
        assert Promise(states[k + 1]);
        PromiseKeptIffGuarded(states[k], steps[k]);
        k := k + 1;
      }
    }
  }

  /** Cautious callers keep the promise. */
  lemma CautiousIsGuarded(states: seq<State>, steps: seq<Step>)
    requires Run(states, steps) && AllCautious(states, steps)
    ensures AllGuarded(states, steps)
  {
    hide Inv, Guarded, Safe, Cautious, Apply, Enabled;
    forall i | 0 <= i < |steps| ensures Guarded(states[i], steps[i]) {
      RunInv(states, steps, i);
      CautiousIsSafe(states[i], steps[i]);
      SafeIsGuarded(states[i], steps[i]);
    }
  }

  /** Whatever lies below a committed offset was returned to some consumer of the group. */
  lemma CommittedWasReturned(states: seq<State>, steps: seq<Step>, i: nat, g: string, tp: TopicPartition, offset: nat)
    requires Run(states, steps) && AllGuarded(states, steps) && i < |states|
    requires tp in CommittedOf(states[i], g) && offset < CommittedOf(states[i], g)[tp]
    ensures offset in Seen(states[i], g, tp)
  {
    RunPromise(states, steps, i);
    assert Reached(Seen(states[i], g, tp), CommittedOf(states[i], g)[tp]);
  }

  /** Within a group the first return of a record comes after that of every earlier one. */
  lemma FirstReturnsInOrder(
    states: seq<State>, steps: seq<Step>, i: nat, g: string, tp: TopicPartition, early: nat, j: nat)
    requires Run(states, steps) && AllGuarded(states, steps) && i < |states|
    requires j < |Seen(states[i], g, tp)| && early < Seen(states[i], g, tp)[j]
    ensures early in Seen(states[i], g, tp)[..j]
  {
    RunPromise(states, steps, i);
    assert GapFree(Seen(states[i], g, tp));
  }

  lemma {:induction false} LogsGrow(states: seq<State>, steps: seq<Step>, i: nat, j: nat, tp: TopicPartition)
    requires Run(states, steps) && i <= j < |states|
    ensures LogOf(states[i].logs, tp) <= LogOf(states[j].logs, tp)
  {
    if i < j {
      LogsGrow(states, steps, i, j - 1, tp);
      assert states[j - 1 + 1] == Apply(states[j - 1], steps[j - 1]);
    }
  }

  /** A producer's target for a record whose partition is left to its key. */
  ghost predicate SendsKey(step: Step, digest: string -> nat, partitions: nat, topic: string, key: string)
    requires partitions > 0
  {
    step.Send? && step.key == Some(key) &&
    step.tp == TopicPartition(topic, DeterminePartition(digest, partitions, Some(key)))
  }

  /** Records with one key are first returned to a group in the order in which they were sent. */
  lemma SameKeyInSendOrder(
    states: seq<State>, steps: seq<Step>, digest: string -> nat, partitions: nat, topic: string, key: string,
    i: nat, j: nat, end: nat, g: string, n: nat)
    requires partitions > 0 && Run(states, steps) && AllGuarded(states, steps) && i < j < |steps| && end < |states|
    requires SendsKey(steps[i], digest, partitions, topic, key) && SendsKey(steps[j], digest, partitions, topic, key)
    requires var tp := steps[i].tp;
             n < |Seen(states[end], g, tp)| && Seen(states[end], g, tp)[n] == |LogOf(states[j].logs, steps[j].tp)|
    ensures steps[i].tp == steps[j].tp
    ensures |LogOf(states[i].logs, steps[i].tp)| in Seen(states[end], g, steps[i].tp)[..n]
  {
    var tp := steps[i].tp;
    assert states[i + 1] == Apply(states[i], steps[i]);
    LogsGrow(states, steps, i + 1, j, tp);
    FirstReturnsInOrder(states, steps, end, g, tp, |LogOf(states[i].logs, tp)|, n);
  }

  // ----- A record that is skipped -----

  lemma Begin(s: State)
    requires Init(s)
    ensures Run([s], [])
  {}

  lemma Continue(states: seq<State>, steps: seq<Step>, step: Step) returns (states': seq<State>, steps': seq<Step>)
    requires Run(states, steps) && |states| > 0 && Enabled(states[|states| - 1], step)
    ensures Run(states', steps') && |states'| > 0 && states'[|states'| - 1] == Apply(states[|states| - 1], step)
  {
    states', steps' := states + [Apply(states[|states| - 1], step)], steps + [step];
  }

  /** Seeking past a record and committing leaves it below the committed offset without ever returning it. */
  lemma ForwardSeekSkips(tp: TopicPartition, g: string) returns (states: seq<State>, steps: seq<Step>)
    ensures Run(states, steps) && |states| > 0
    ensures var s := states[|states| - 1];
            |LogOf(s.logs, tp)| == 1 && CommittedOf(s, g) == map[tp := 1] && Seen(s, g, tp) == []
  {
    hide Run;
    var start := State(map[], map[], map[], map[]);
    Begin(start);
    states, steps := Continue([start], [], Send(tp, None, "", 0));
    states, steps := Continue(states, steps, Start(0, g, {tp}, true));
    states, steps := Continue(states, steps, Seek(0, tp, 1));
    assert var m := states[|states| - 1].members[0];
           m.group == g && m.assignment == {tp} && PositionOf(m.positions, tp) == 1;
    states, steps := Continue(states, steps, Commit(0));
  }
}
