/**
 The in-memory Kafka: append-only partition logs, a producer, and consumers that share committed
 offsets per group.  Bytes are strings here, and the digest of a key is an input.
 */
module KafkaLog {
  import opened Wrappers

  datatype TopicPartition = TopicPartition(topic: string, partition: int)
  datatype Record = Record(offset: nat, key: Option<string>, value: string, timestamp: int)
  datatype Metadata = Metadata(tp: TopicPartition, offset: nat, timestamp: int)

  type Logs = map<TopicPartition, seq<Record>>
  type Positions = map<TopicPartition, nat>
  type Batch = map<TopicPartition, seq<Record>>

  function LogOf(logs: Logs, tp: TopicPartition): seq<Record> {
    if tp in logs then logs[tp] else []
  }

  function PositionOf(positions: Positions, tp: TopicPartition): nat {
    if tp in positions then positions[tp] else 0
  }

  /** A record without a key goes to partition 0, any other to its digest modulo the partition count. */
  function DeterminePartition(digest: string -> nat, partitions: nat, key: Option<string>): int
    requires partitions > 0
  {
    match key
    case None => 0
    case Some(k) => digest(k) % partitions
  }

  function Append(logs: Logs, tp: TopicPartition, key: Option<string>, value: string, timestamp: int): Logs {
    logs[tp := LogOf(logs, tp) + [Record(|LogOf(logs, tp)|, key, value, timestamp)]]
  }

  function StartPosition(committed: Positions, log: seq<Record>, earliest: bool, tp: TopicPartition): nat {
    if tp in committed then committed[tp] else if earliest then 0 else |log|
  }

  /** What one partition yields from `pos` when `room` more records may be returned. */
  function Fetch(log: seq<Record>, pos: nat, room: int): seq<Record> {
    if room <= 0 || pos >= |log| then []
    else if room <= |log| - pos then log[pos..pos + room]
    else log[pos..]
  }

  function AddTo(batch: Batch, tp: TopicPartition, records: seq<Record>): Batch {
    if records == [] then batch
    else batch[tp := (if tp in batch then batch[tp] else []) + records]
  }

  lemma AddToAdds(batch: Batch, tp: TopicPartition, a: seq<Record>, b: seq<Record>)
    ensures AddTo(AddTo(batch, tp, a), tp, b) == AddTo(batch, tp, a + b)
  {
    var had := if tp in batch then batch[tp] else [];
    assert had + a + b == had + (a + b);
    assert a == [] ==> a + b == b;
    assert b == [] ==> a + b == a;
  }

  /** A poll in progress: the fetch positions and the records gathered so far. */
  datatype Polled = Polled(positions: Positions, batch: Batch)

  function Got(logs: Logs, s: Polled, tp: TopicPartition, room: int): seq<Record> {
    Fetch(LogOf(logs, tp), PositionOf(s.positions, tp), room)
  }

  function Turn(logs: Logs, s: Polled, tp: TopicPartition, room: int): Polled {
    var got := Got(logs, s, tp, room);
    Polled(s.positions[tp := PositionOf(s.positions, tp) + |got|], AddTo(s.batch, tp, got))
  }

  /** Polls the partitions in turn, with room for so many more records. */
  function Poll(logs: Logs, s: Polled, active: seq<TopicPartition>, room: int): Polled
    decreases |active|
  {
    if active == [] || room <= 0 then s
    else Poll(logs, Turn(logs, s, active[0], room), active[1..], room - |Got(logs, s, active[0], room)|)
  }

  lemma PollDone(logs: Logs, s: Polled, active: seq<TopicPartition>, room: int)
    requires active == [] || room <= 0
    ensures Poll(logs, s, active, room) == s
  {}

  lemma PollTurn(logs: Logs, s: Polled, active: seq<TopicPartition>, i: nat, room: int)
    requires i < |active| && room > 0
    ensures Poll(logs, s, active[i..], room) ==
            Poll(logs, Turn(logs, s, active[i], room), active[i + 1..], room - |Got(logs, s, active[i], room)|)
  {
    hide Turn, Got;
    assert active[i..][0] == active[i] && active[i..][1..] == active[i + 1..];
  }

  // ----- What a poll answers -----

  datatype Place = Place(tp: TopicPartition, index: nat)

  /** One place for each record of a batch. */
  ghost function Places(batch: Batch): set<Place> {
    set tp, i: nat | tp in batch && i < |batch[tp]| :: Place(tp, i)
  }

  lemma PlaceIff(batch: Batch, q: Place)
    ensures q in Places(batch) <==> q.tp in batch && q.index < |batch[q.tp]|
  {}

  /** Per partition, the records gathered are the part of the log between the old position and the new one. */
  ghost predicate Sliced(logs: Logs, start: Positions, positions: Positions, batch: Batch) {
    forall tp :: SlicedAt(LogOf(logs, tp), PositionOf(start, tp), PositionOf(positions, tp), batch, tp)
  }

  ghost predicate SlicedAt(log: seq<Record>, from: nat, to: nat, batch: Batch, tp: TopicPartition) {
    && from <= to && (from < to ==> to <= |log|)
    && (tp in batch <==> from < to)
    && (tp in batch ==> batch[tp] == log[from..to])
  }

  /**
   A poll of the `active` partitions with room for `limit` records: what it returns, that it returns
   as much as there is or as the limit allows, and that it empties earlier partitions first.
   */
  ghost predicate Answers(
    logs: Logs, start: Positions, active: seq<TopicPartition>, limit: int, positions: Positions, batch: Batch)
  {
    && Sliced(logs, start, positions, batch)
    && (forall tp :: tp in batch ==> tp in active)
    && |Places(batch)| <= (if limit > 0 then limit else 0)
    && (|Places(batch)| < limit ==> forall tp :: tp in active ==> PositionOf(positions, tp) >= |LogOf(logs, tp)|)
    && (forall i, j :: 0 <= i < j < |active| && active[j] in batch && active[j] !in active[..j] ==>
          PositionOf(positions, active[i]) >= |LogOf(logs, active[i])|)
  }

  lemma PlacesAddOne(batch: Batch, tp: TopicPartition, x: Record)
    ensures |Places(AddTo(batch, tp, [x]))| == |Places(batch)| + 1
  {
    var n: nat := if tp in batch then |batch[tp]| else 0;
    var after := AddTo(batch, tp, [x]);
    hide Places;
    forall q ensures q in Places(after) <==> q in Places(batch) || q == Place(tp, n) {
      PlaceIff(after, q);
      PlaceIff(batch, q);
    }
    assert Places(after) == Places(batch) + {Place(tp, n)};
  }

  lemma {:induction false} PlacesAdd(batch: Batch, tp: TopicPartition, records: seq<Record>)
    ensures |Places(AddTo(batch, tp, records))| == |Places(batch)| + |records|
  {
    hide AddTo, Places;
    if records == [] {
      AddNothing(batch, tp);
    } else {
      var n := |records| - 1;
      PlacesAdd(batch, tp, records[..n]);
      PlacesAddOne(AddTo(batch, tp, records[..n]), tp, records[n]);
      AddToAdds(batch, tp, records[..n], [records[n]]);
      assert records[..n] + [records[n]] == records;
    }
  }

  lemma AddNothing(batch: Batch, tp: TopicPartition)
    ensures AddTo(batch, tp, []) == batch
  {}

  /** One partition's turn: as much as there is room for, or all that is left. */
  lemma GotIsNext(logs: Logs, s: Polled, tp: TopicPartition, room: int)
    requires room > 0
    ensures var got, from, log := Got(logs, s, tp, room), PositionOf(s.positions, tp), LogOf(logs, tp);
            && |got| <= room && (got != [] ==> from + |got| <= |log| && got == log[from..from + |got|])
            && (|got| < room ==> from + |got| >= |log|)
  {}

  lemma TurnSliced(logs: Logs, start: Positions, s: Polled, tp: TopicPartition, room: int)
    requires Sliced(logs, start, s.positions, s.batch) && room > 0
    ensures var t := Turn(logs, s, tp, room); Sliced(logs, start, t.positions, t.batch)
  {
    hide Got, LogOf, SlicedAt;
    GotIsNext(logs, s, tp, room);
    var t, got := Turn(logs, s, tp, room), Got(logs, s, tp, room);
    forall other ensures SlicedAt(LogOf(logs, other), PositionOf(start, other), PositionOf(t.positions, other), t.batch, other) {
      assert SlicedAt(LogOf(logs, other), PositionOf(start, other), PositionOf(s.positions, other), s.batch, other);
      if other == tp {
        SliceGrows(LogOf(logs, tp), PositionOf(start, tp), PositionOf(s.positions, tp), s.batch, tp, got);
      } else {
        SliceStays(LogOf(logs, other), PositionOf(start, other), PositionOf(s.positions, other), s.batch, tp, got, other);
      }
    }
  }

  lemma SliceGrows(log: seq<Record>, from: nat, mid: nat, batch: Batch, tp: TopicPartition, got: seq<Record>)
    requires SlicedAt(log, from, mid, batch, tp)
    requires got != [] ==> mid + |got| <= |log| && got == log[mid..mid + |got|]
    ensures SlicedAt(log, from, mid + |got|, AddTo(batch, tp, got), tp)
  {
    if got != [] {
      assert log[from..mid] + log[mid..mid + |got|] == log[from..mid + |got|];
    }
  }

  lemma SliceStays(
    log: seq<Record>, from: nat, to: nat, batch: Batch, tp: TopicPartition, got: seq<Record>, other: TopicPartition)
    requires SlicedAt(log, from, to, batch, other) && other != tp
    ensures SlicedAt(log, from, to, AddTo(batch, tp, got), other)
  {}

  /** What is left to poll, seen from a poll in progress. */
  ghost predicate Goes(logs: Logs, s: Polled, active: seq<TopicPartition>, room: int, end: Polled) {
    var taken := |Places(end.batch)| - |Places(s.batch)|;
    && (forall tp :: PositionOf(s.positions, tp) <= PositionOf(end.positions, tp))
    && (forall tp :: tp !in active || room <= 0 ==> PositionOf(end.positions, tp) == PositionOf(s.positions, tp))
    && 0 <= taken <= (if room > 0 then room else 0)
    && (taken < room ==> forall tp :: tp in active ==> PositionOf(end.positions, tp) >= |LogOf(logs, tp)|)
    && (forall i, j :: 0 <= i < j < |active| && active[j] !in active[..j]
                       && PositionOf(s.positions, active[j]) < PositionOf(end.positions, active[j]) ==>
          PositionOf(end.positions, active[i]) >= |LogOf(logs, active[i])|)
  }

  lemma TurnThenRest(logs: Logs, s: Polled, active: seq<TopicPartition>, room: int, end: Polled)
    requires active != [] && room > 0
    requires var t, got := Turn(logs, s, active[0], room), Got(logs, s, active[0], room);
             |Places(t.batch)| == |Places(s.batch)| + |got| && Goes(logs, t, active[1..], room - |got|, end)
    ensures Goes(logs, s, active, room, end)
  {
    hide Got, Places, LogOf, AddTo;
    var t, got, rest := Turn(logs, s, active[0], room), Got(logs, s, active[0], room), active[1..];
    GotIsNext(logs, s, active[0], room);
    forall i, j | 0 <= i < j < |active| && active[j] !in active[..j]
                  && PositionOf(s.positions, active[j]) < PositionOf(end.positions, active[j])
      ensures PositionOf(end.positions, active[i]) >= |LogOf(logs, active[i])|
    {
      assert active[0] in active[..j] && active[j] != active[0] && rest[j - 1] == active[j];
      assert forall x :: x in rest[..j - 1] ==> x in active[..j];
      if i > 0 {
        assert rest[i - 1] == active[i];
      }
    }
  }

  lemma {:induction false} PollGoes(logs: Logs, start: Positions, s: Polled, active: seq<TopicPartition>, room: int)
    requires Sliced(logs, start, s.positions, s.batch)
    ensures var end := Poll(logs, s, active, room);
            Sliced(logs, start, end.positions, end.batch) && Goes(logs, s, active, room, end)
    decreases |active|
  {
    hide Sliced, Turn, Got, Places, LogOf;
    if active != [] && room > 0 {
      var t, got := Turn(logs, s, active[0], room), Got(logs, s, active[0], room);
      TurnSliced(logs, start, s, active[0], room);
      PollGoes(logs, start, t, active[1..], room - |got|);
      TurnAdds(logs, s, active[0], room);
      hide Goes;
      TurnThenRest(logs, s, active, room, Poll(logs, s, active, room));
    }
  }

  lemma TurnAdds(logs: Logs, s: Polled, tp: TopicPartition, room: int)
    ensures |Places(Turn(logs, s, tp, room).batch)| == |Places(s.batch)| + |Got(logs, s, tp, room)|
  {
    hide Places, Got, AddTo;
    PlacesAdd(s.batch, tp, Got(logs, s, tp, room));
  }

  /** What a poll from the given positions answers. */
  lemma PollAnswers(logs: Logs, start: Positions, active: seq<TopicPartition>, limit: int)
    ensures var end := Poll(logs, Polled(start, map[]), active, limit);
            Answers(logs, start, active, limit, end.positions, end.batch)
  {
    hide Poll, Places, LogOf;
    NothingYet(logs, start);
    PollGoes(logs, start, Polled(start, map[]), active, limit);
  }

  lemma NothingYet(logs: Logs, start: Positions)
    ensures Sliced(logs, start, start, map[]) && |Places(map[])| == 0
  {
    assert Places(map[]) == {};
  }

  function PollLimit(maxRecords: Option<int>, maxPollRecords: int): int {
    var wanted := if maxRecords.Some? && maxRecords.value != 0 then maxRecords.value else maxPollRecords;
    if wanted < maxPollRecords then wanted else maxPollRecords
  }

  class Storage {
    var logs: Logs
  }

  /** Committed offsets of all groups. */
  class Registry {
    var committed: map<string, Positions>

    function Group(g: string): Positions
      reads this
    {
      if g in committed then committed[g] else map[]
    }
  }

  class Producer {
    const storage: Storage
    const partitions: nat
    const digest: string -> nat
    var started: bool

    constructor (storage: Storage, partitions: nat, digest: string -> nat)
      ensures this.storage == storage && this.partitions == partitions && this.digest == digest && !started
    {
      this.storage, this.partitions, this.digest, started := storage, partitions, digest, false;
    }

    /** None stands for the error of a producer that was not started. */
    method SendAndWait(topic: string, value: string, key: Option<string>, partition: Option<int>, now: int)
      returns (r: Option<Metadata>)
      requires partitions > 0
      modifies storage
      ensures !started ==> r == None && storage.logs == old(storage.logs)
      ensures started ==>
                && r.Some?
                && r.value.tp == TopicPartition(topic, if partition.Some? then partition.value
                                                      else DeterminePartition(digest, partitions, key))
                && r.value.offset == |LogOf(old(storage.logs), r.value.tp)|
                && storage.logs == Append(old(storage.logs), r.value.tp, key, value, now)
                && r.value.timestamp == now
                && (partition.None? && key.Some? ==> r.value.tp.partition == digest(key.value) % partitions)
                && (partition.None? && key.None? ==> r.value.tp.partition == 0)
                && (forall tp :: LogOf(storage.logs, tp) ==
                      if tp != r.value.tp then LogOf(old(storage.logs), tp)
                      else LogOf(old(storage.logs), tp) + [Record(r.value.offset, key, value, now)])
    {
      if !started { return None; }
      var target := if partition.Some? then partition.value else DeterminePartition(digest, partitions, key);
      var tp := TopicPartition(topic, target);
      var log := LogOf(storage.logs, tp);
      storage.logs := storage.logs[tp := log + [Record(|log|, key, value, now)]];
      return Some(Metadata(tp, |log|, now));
    }
  }

  class Consumer {
    const storage: Storage
    const registry: Registry
    const topics: seq<string>
    const group: string
    const earliest: bool
    const maxPollRecords: int
    const partitions: nat
    var assignment: set<TopicPartition>
    var positions: Positions
    var started: bool

    constructor (storage: Storage, registry: Registry, topics: seq<string>, group: string,
                 earliest: bool, maxPollRecords: int, partitions: nat)
      ensures this.storage == storage && this.registry == registry && this.topics == topics
      ensures this.group == group && this.earliest == earliest && this.partitions == partitions
      ensures this.maxPollRecords == maxPollRecords
      ensures assignment == {} && positions == map[] && !started
    {
      this.storage, this.registry, this.topics, this.group := storage, registry, topics, group;
      this.earliest, this.maxPollRecords, this.partitions := earliest, maxPollRecords, partitions;
      assignment, positions, started := {}, map[], false;
    }

    ghost predicate Subscribed(tp: TopicPartition) {
      tp.topic in topics && 0 <= tp.partition < partitions
    }

    method Start()
      modifies this
      ensures started && forall tp :: tp in assignment <==> Subscribed(tp)
      ensures forall tp :: tp in positions <==> tp in old(positions) || Subscribed(tp)
      ensures forall tp :: Subscribed(tp) ==>
                var commits := registry.Group(group);
                && (tp in commits ==> positions[tp] == commits[tp])
                && (tp !in commits && earliest ==> positions[tp] == 0)
                && (tp !in commits && !earliest ==> positions[tp] == |LogOf(storage.logs, tp)|)
      ensures forall tp :: tp in positions && !Subscribed(tp) ==> positions[tp] == old(PositionOf(positions, tp))
    {
      started := true;
      assignment := {};
      for i := 0 to |topics|
        invariant started
        invariant forall tp :: tp in assignment <==> tp.topic in topics[..i] && 0 <= tp.partition < partitions
        invariant forall tp :: tp in positions <==> tp in old(positions) || tp in assignment
        invariant forall tp :: tp in positions ==>
                    positions[tp] == if tp in assignment
                                     then StartPosition(registry.Group(group), LogOf(storage.logs, tp), earliest, tp)
                                     else old(PositionOf(positions, tp))
      {
        ghost var before := assignment;
        for p := 0 to partitions
          invariant started
          invariant forall tp :: tp in assignment <==> tp in before || (tp.topic == topics[i] && 0 <= tp.partition < p)
          invariant forall tp :: tp in positions <==> tp in old(positions) || tp in assignment
          invariant forall tp :: tp in positions ==>
                      positions[tp] == if tp in assignment
                                       then StartPosition(registry.Group(group), LogOf(storage.logs, tp), earliest, tp)
                                       else old(PositionOf(positions, tp))
        {
          var tp := TopicPartition(topics[i], p);
          assignment := assignment + {tp};
          var commits: Positions := registry.Group(group);
          if tp in commits {
            positions := positions[tp := commits[tp]];
          } else if earliest {
            positions := positions[tp := 0];
          } else {
            positions := positions[tp := |LogOf(storage.logs, tp)|];
          }
        }
        assert topics[..i + 1] == topics[..i] + [topics[i]];
      }
      assert topics[..|topics|] == topics;
    }

    /** False stands for the error on a partition that is not assigned. */
    method Seek(tp: TopicPartition, offset: int) returns (ok: bool)
      modifies this
      ensures ok <==> tp in assignment
      ensures assignment == old(assignment) && started == old(started)
      ensures positions == if ok then old(positions)[tp := if offset < 0 then 0 else offset] else old(positions)
    {
      if tp !in assignment { return false; }
      positions := positions[tp := if offset < 0 then 0 else offset];
      return true;
    }

    /**
     None stands for the error of a consumer that was not started.  Without explicit partitions the
     assigned ones are polled, in the order `order` in which their set happens to be iterated.
     */
    method GetMany(wanted: seq<TopicPartition>, order: seq<TopicPartition>, maxRecords: Option<int>)
      returns (r: Option<Batch>)
      requires forall tp :: tp in order <==> tp in assignment
      modifies this
      ensures assignment == old(assignment) && started == old(started)
      ensures !started ==> r == None && positions == old(positions)
      ensures started ==>
                var active := if wanted != [] then wanted else order;
                var end := Poll(storage.logs, Polled(old(positions), map[]), active,
                                PollLimit(maxRecords, maxPollRecords));
                positions == end.positions && r == Some(end.batch)
      ensures started ==>
                var active := if wanted != [] then wanted else order;
                var limit := if maxRecords.Some? && maxRecords.value != 0 && maxRecords.value < maxPollRecords
                             then maxRecords.value else maxPollRecords;
                r.Some? && Answers(storage.logs, old(positions), active, limit, positions, r.value)
    {
      hide Turn, Got, Poll, Answers;
      if !started { return None; }
      var active := if wanted != [] then wanted else order;
      var limit := PollLimit(maxRecords, maxPollRecords);
      var result: Batch := map[];
      var total := 0;
      ghost var end := Poll(storage.logs, Polled(positions, map[]), active, limit);
      PollAnswers(storage.logs, positions, active, limit);
      assert active[0..] == active;
      var i := 0;
      while i < |active| && total < limit
        invariant 0 <= i <= |active| && assignment == old(assignment) && started
        invariant end == Poll(storage.logs, Polled(positions, result), active[i..], limit - total)
      {
        PollTurn(storage.logs, Polled(positions, result), active, i, limit - total);
        result, total := Drain(active[i], limit, total, result);
        i := i + 1;
      }
      PollDone(storage.logs, Polled(positions, result), active[i..], limit - total);
      return Some(result);
    }

    /** Reads one partition until its log or the limit is exhausted. */
    method Drain(tp: TopicPartition, limit: int, total: int, result: Batch) returns (result': Batch, total': int)
      requires total < limit
      modifies this
      ensures assignment == old(assignment) && started == old(started)
      ensures total' == total + |Got(storage.logs, Polled(old(positions), result), tp, limit - total)|
      ensures Polled(positions, result') == Turn(storage.logs, Polled(old(positions), result), tp, limit - total)
    {
      var pos := PositionOf(positions, tp);
      var log := LogOf(storage.logs, tp);
      ghost var from, got := pos, [];
      result', total' := result, total;
      while pos < |log| && total' < limit
        invariant assignment == old(assignment) && started == old(started) && positions == old(positions)
        invariant from <= pos && total' <= limit && total' - total == pos - from
        invariant (got == [] && pos == from) || (pos <= |log| && got == log[from..pos])
        invariant result' == AddTo(result, tp, got)
      {
        AddToAdds(result, tp, got, [log[pos]]);
        got := got + [log[pos]];
        result' := AddTo(result', tp, [log[pos]]);
        pos := pos + 1;
        total' := total' + 1;
      }
      assert got == Fetch(log, from, limit - total);
      positions := positions[tp := pos];
    }

    /** Commits the current position of every assigned partition. */
    method Commit() returns (ok: bool)
      modifies registry
      ensures ok <==> started
      ensures !ok ==> registry.committed == old(registry.committed)
      ensures ok ==>
                && (forall g :: g != group ==> registry.Group(g) == old(registry.Group(g)))
                && (forall tp :: tp in registry.Group(group) <==> tp in assignment || tp in old(registry.Group(group)))
                && (forall tp :: tp in registry.Group(group) ==>
                      registry.Group(group)[tp] == if tp in assignment then PositionOf(positions, tp)
                                                   else old(registry.Group(group))[tp])
    {
      if !started { return false; }
      var rest := assignment;
      var commits: Positions := registry.Group(group);
      ghost var before := commits;
      while rest != {}
        invariant rest <= assignment
        invariant forall tp :: tp in commits <==> tp in assignment - rest || tp in before
        invariant forall tp :: tp in commits ==>
                    commits[tp] == if tp in assignment - rest then PositionOf(positions, tp) else before[tp]
        decreases |rest|
      {
        var tp :| tp in rest;
        commits := commits[tp := PositionOf(positions, tp)];
        rest := rest - {tp};
      }
      registry.committed := registry.committed[group := commits];
      return true;
    }

    /** Commits the given offsets, assigned or not. */
    method CommitOffsets(offsets: Positions) returns (ok: bool)
      modifies registry
      ensures ok <==> started
      ensures !ok ==> registry.committed == old(registry.committed)
      ensures ok ==>
                && (forall g :: g != group ==> registry.Group(g) == old(registry.Group(g)))
                && (forall tp :: tp in registry.Group(group) <==> tp in offsets || tp in old(registry.Group(group)))
                && (forall tp :: tp in registry.Group(group) ==>
                      registry.Group(group)[tp] == if tp in offsets then offsets[tp] else old(registry.Group(group))[tp])
    {
      if !started { return false; }
      var rest := offsets.Keys;
      var commits: Positions := registry.Group(group);
      ghost var before := commits;
      while rest != {}
        invariant rest <= offsets.Keys
        invariant forall tp :: tp in commits <==> tp in offsets.Keys - rest || tp in before
        invariant forall tp :: tp in commits ==>
                    commits[tp] == if tp in offsets.Keys - rest then offsets[tp] else before[tp]
        decreases |rest|
      {
        var tp :| tp in rest;
        commits := commits[tp := offsets[tp]];
        rest := rest - {tp};
      }
      registry.committed := registry.committed[group := commits];
      return true;
    }

    method SeekToCommitted()
      modifies this
      ensures assignment == old(assignment) && started == old(started)
      ensures forall tp :: tp in positions <==> tp in old(positions) || tp in assignment
      ensures forall tp :: tp in positions ==>
                positions[tp] == if tp in assignment then PositionOf(registry.Group(group), tp)
                                 else old(PositionOf(positions, tp))
    {
      var rest := assignment;
      while rest != {}
        invariant rest <= assignment == old(assignment) && started == old(started)
        invariant forall tp :: tp in positions <==> tp in old(positions) || tp in assignment - rest
        invariant forall tp :: tp in positions ==>
                    positions[tp] == if tp in assignment - rest then PositionOf(registry.Group(group), tp)
                                     else old(PositionOf(positions, tp))
        decreases |rest|
      {
        var tp :| tp in rest;
        positions := positions[tp := PositionOf(registry.Group(group), tp)];
        rest := rest - {tp};
      }
    }
  }
}
