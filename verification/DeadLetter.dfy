/**
 The dead-letter queue: a message is retried with exponential backoff, then quarantined and still
 acknowledged; quarantined messages are redriven or purged.
 */
module DeadLetter {
  import opened Wrappers
  import opened Powers

  datatype Envelope = Envelope(id: string, topic: string, payload: string, error: string, retries: int)

  // ----- Redrive and purge on values -----

  predicate Matches(e: Envelope, topic: Option<string>) {
    topic.None? || e.topic == topic.value
  }

  function Matching(store: seq<Envelope>, topic: Option<string>): seq<Envelope> {
    if store == [] then []
    else if Matches(store[0], topic) then [store[0]] + Matching(store[1..], topic)
    else Matching(store[1..], topic)
  }

  function Others(store: seq<Envelope>, topic: Option<string>): seq<Envelope> {
    if store == [] then []
    else if Matches(store[0], topic) then Others(store[1..], topic)
    else [store[0]] + Others(store[1..], topic)
  }

  /** What a redrive takes: matches, until `limit` of them are taken. */
  function Taken(store: seq<Envelope>, topic: Option<string>, limit: int): seq<Envelope> {
    if store == [] then []
    else if Matches(store[0], topic) && 0 < limit then [store[0]] + Taken(store[1..], topic, limit - 1)
    else Taken(store[1..], topic, limit)
  }

  function Remaining(store: seq<Envelope>, topic: Option<string>, limit: int): seq<Envelope> {
    if store == [] then []
    else if Matches(store[0], topic) && 0 < limit then Remaining(store[1..], topic, limit - 1)
    else [store[0]] + Remaining(store[1..], topic, limit)
  }

  lemma {:induction false} MatchingConcat(a: seq<Envelope>, b: seq<Envelope>, topic: Option<string>)
    ensures Matching(a + b, topic) == Matching(a, topic) + Matching(b, topic)
  {
    if a == [] {
      assert a + b == b;
    } else {
      assert (a + b)[1..] == a[1..] + b;
      MatchingConcat(a[1..], b, topic);
    }
  }

  lemma {:induction false} NothingTaken(store: seq<Envelope>, topic: Option<string>, limit: int)
    requires limit <= 0
    ensures Taken(store, topic, limit) == [] && Remaining(store, topic, limit) == store
  {
    if store != [] {
      NothingTaken(store[1..], topic, limit);
    }
  }

  lemma {:induction false} NoneTaken(store: seq<Envelope>, topic: Option<string>, limit: int)
    ensures Taken(store, topic, limit) == [] ==> Remaining(store, topic, limit) == store
  {
    if store != [] {
      NoneTaken(store[1..], topic, limit);
    }
  }

  /** A redrive takes exactly the first `limit` matches, in order. */
  lemma {:induction false} TakenIsPrefix(store: seq<Envelope>, topic: Option<string>, limit: nat)
    ensures var all := Matching(store, topic);
            Taken(store, topic, limit) == if limit <= |all| then all[..limit] else all
  {
    if store != [] {
      if limit == 0 {
        NothingTaken(store, topic, limit);
      } else {
        TakenIsPrefix(store[1..], topic, if Matches(store[0], topic) then limit - 1 else limit);
      }
    }
  }

  lemma {:induction false} OtherTopicsNotTaken(store: seq<Envelope>, topic: Option<string>, limit: int, other: string)
    requires topic.Some? && topic.value != other
    ensures Matching(Taken(store, topic, limit), Some(other)) == []
  {
    if store != [] {
      if Matches(store[0], topic) && 0 < limit {
        OtherTopicsNotTaken(store[1..], topic, limit - 1, other);
      } else {
        OtherTopicsNotTaken(store[1..], topic, limit, other);
      }
    }
  }

  /** Per topic, what a redrive takes comes before everything it leaves. */
  lemma {:induction false} SplitKeepsOrder(store: seq<Envelope>, topic: Option<string>, limit: int, q: string)
    ensures Matching(Taken(store, topic, limit), Some(q)) + Matching(Remaining(store, topic, limit), Some(q))
            == Matching(store, Some(q))
  {
    if store != [] {
      var e, rest := store[0], store[1..];
      if Matches(e, topic) && 0 < limit {
        SplitKeepsOrder(rest, topic, limit - 1, q);
      } else {
        SplitKeepsOrder(rest, topic, limit, q);
        if limit <= 0 {
          NothingTaken(rest, topic, limit);
        } else if e.topic == q {
          OtherTopicsNotTaken(rest, topic, limit, q);
        }
      }
    }
  }

  lemma {:induction false} PurgeSplits(store: seq<Envelope>, topic: Option<string>, q: string)
    ensures Matching(Matching(store, topic), Some(q)) + Matching(Others(store, topic), Some(q)) == Matching(store, Some(q))
    ensures topic.Some? && topic.value != q ==> Matching(Matching(store, topic), Some(q)) == []
  {
    if store != [] {
      PurgeSplits(store[1..], topic, q);
    }
  }

  lemma {:induction false} OthersConcat(a: seq<Envelope>, b: seq<Envelope>, topic: Option<string>)
    ensures Others(a + b, topic) == Others(a, topic) + Others(b, topic)
  {
    if a == [] {
      assert a + b == b;
    } else {
      assert (a + b)[1..] == a[1..] + b;
      OthersConcat(a[1..], b, topic);
    }
  }

  /** Filtering by topic: one envelope, and envelopes put together. */
  lemma FiltersAre(e: Envelope, a: seq<Envelope>, b: seq<Envelope>, topic: Option<string>)
    ensures topic.None? || e.topic == topic.value ==> Matching([e], topic) == [e] && Others([e], topic) == []
    ensures topic.Some? && e.topic != topic.value ==> Matching([e], topic) == [] && Others([e], topic) == [e]
    ensures Matching(a + b, topic) == Matching(a, topic) + Matching(b, topic)
    ensures Others(a + b, topic) == Others(a, topic) + Others(b, topic)
  {
    assert [e][1..] == [];
    MatchingConcat(a, b, topic);
    OthersConcat(a, b, topic);
  }

  /** A redrive goes through the store up to where its limit is met, and leaves the rest as it is. */
  lemma {:induction false} RedriveCut(store: seq<Envelope>, topic: Option<string>, limit: nat) returns (n: nat)
    ensures n <= |store| && Taken(store, topic, limit) == Matching(store[..n], topic)
    ensures Remaining(store, topic, limit) == Others(store[..n], topic) + store[n..]
    ensures |Taken(store, topic, limit)| <= limit && (n < |store| ==> |Taken(store, topic, limit)| == limit)
  {
    if store == [] || limit == 0 {
      n := 0;
      NothingTaken(store, topic, 0);
    } else {
      n := RedriveCut(store[1..], topic, if Matches(store[0], topic) then limit - 1 else limit);
      assert store[..n + 1][1..] == store[1..][..n] && store[n + 1..] == store[1..][n..];
      n := n + 1;
    }
  }

  // ----- Conservation over every run -----

  /** A redrive between its partition of the store and its end; `read` is the store it partitioned. */
  datatype Redriving = Redriving(read: seq<Envelope>, topic: Option<string>, limit: int, sent: nat)

  /**
   Everything ever quarantined, everything redriven or purged, what is in quarantine, and the
   redrives in progress.  An envelope counts as redriven when its redrive ends.
   */
  datatype State = State(
    arrived: seq<Envelope>, left: seq<Envelope>, store: seq<Envelope>, redrives: map<nat, Redriving>)

  /**
   A redrive awaits every send, so that other calls fall between its steps.  One with nothing to
   send, or without a republish function, awaits nothing.
   */
  datatype Step =
    | Quarantine(e: Envelope)
    | Purge(topic: Option<string>)
    | Redrive(topic: Option<string>, limit: int)
    | Begin(id: nat, topic: Option<string>, limit: int)
    | Send(id: nat)
    | Rebind(id: nat)
    | SendRaises(id: nat)

  function Candidates(d: Redriving): seq<Envelope> {
    Taken(d.read, d.topic, d.limit)
  }

  ghost predicate Enabled(s: State, step: Step) {
    match step
    case Quarantine(_) => true
    case Purge(_) => true
    case Redrive(_, _) => true
    case Begin(id, _, _) => id !in s.redrives
    case Send(id) => id in s.redrives && s.redrives[id].sent < |Candidates(s.redrives[id])|
    case SendRaises(id) => id in s.redrives && s.redrives[id].sent < |Candidates(s.redrives[id])|
    case Rebind(id) => id in s.redrives && s.redrives[id].sent == |Candidates(s.redrives[id])|
  }

  function Next(s: State, step: Step): State
    requires Enabled(s, step)
  {
    match step
    case Quarantine(e) => s.(arrived := s.arrived + [e], store := s.store + [e])
    case Purge(t) => s.(left := s.left + Matching(s.store, t), store := Others(s.store, t))
    case Redrive(t, limit) =>
      s.(left := s.left + Taken(s.store, t, limit), store := Remaining(s.store, t, limit))
    case Begin(id, t, limit) =>
      if Taken(s.store, t, limit) == [] then s.(store := Remaining(s.store, t, limit))
      else s.(redrives := s.redrives[id := Redriving(s.store, t, limit, 0)])
    case Send(id) => s.(redrives := s.redrives[id := s.redrives[id].(sent := s.redrives[id].sent + 1)])
    case Rebind(id) =>
      var d := s.redrives[id];
      s.(left := s.left + Candidates(d), store := Remaining(d.read, d.topic, d.limit), redrives := s.redrives - {id})
    case SendRaises(id) =>
      var d := s.redrives[id];
      s.(left := s.left + Candidates(d)[..d.sent], redrives := s.redrives - {id})
  }

  ghost predicate ConservedFor(s: State, q: string) {
    Matching(s.arrived, Some(q)) == Matching(s.left, Some(q)) + Matching(s.store, Some(q))
  }

  /** Each topic's envelopes leave once each, in the order they arrived. */
  ghost predicate Conserved(s: State) {
    forall q :: ConservedFor(s, q)
  }

  ghost predicate SameTopics(a: seq<Envelope>, b: seq<Envelope>) {
    forall q :: Matching(a, Some(q)) == Matching(b, Some(q))
  }

  /** A redrive rebinds the store while it is, topic by topic, the one it read; one that raises has sent nothing. */
  ghost predicate Timely(s: State, step: Step)
    requires Enabled(s, step)
  {
    match step
    case Rebind(id) => SameTopics(s.store, s.redrives[id].read)
    case SendRaises(id) => s.redrives[id].sent == 0
    case _ => true
  }

  lemma PlainStepConserves(s: State, step: Step, q: string)
    requires Enabled(s, step) && !step.Rebind? && !step.SendRaises? && ConservedFor(s, q)
    ensures ConservedFor(Next(s, step), q)
  {
    match step
    case Quarantine(e) =>
      MatchingConcat(s.arrived, [e], Some(q));
      MatchingConcat(s.store, [e], Some(q));
    case Purge(t) =>
      MatchingConcat(s.left, Matching(s.store, t), Some(q));
      PurgeSplits(s.store, t, q);
    case Redrive(t, limit) =>
      MatchingConcat(s.left, Taken(s.store, t, limit), Some(q));
      SplitKeepsOrder(s.store, t, limit, q);
    case Begin(_, t, limit) =>
      NoneTaken(s.store, t, limit);
    case _ =>
  }

  lemma RebindConservesIff(s: State, id: nat, q: string)
    requires Enabled(s, Rebind(id)) && ConservedFor(s, q)
    ensures ConservedFor(Next(s, Rebind(id)), q) <==>
            Matching(s.store, Some(q)) == Matching(s.redrives[id].read, Some(q))
  {
    var d := s.redrives[id];
    MatchingConcat(s.left, Candidates(d), Some(q));
    SplitKeepsOrder(d.read, d.topic, d.limit, q);
    var l, c, r := Matching(s.left, Some(q)), Matching(Candidates(d), Some(q)),
                   Matching(Remaining(d.read, d.topic, d.limit), Some(q));
    assert (l + c) + r == l + (c + r);
    SamePrefix(l, Matching(s.store, Some(q)), c + r);
  }

  lemma SamePrefix<T>(l: seq<T>, a: seq<T>, b: seq<T>)
    ensures l + a == l + b <==> a == b
  {
    assert a == (l + a)[|l|..] && b == (l + b)[|l|..];
  }

  lemma RaiseConservesIff(s: State, id: nat)
    requires Enabled(s, SendRaises(id)) && Conserved(s)
    ensures Conserved(Next(s, SendRaises(id))) <==> s.redrives[id].sent == 0
  {
    var d, after := s.redrives[id], Next(s, SendRaises(id));
    var out := Candidates(d)[..d.sent];
    if d.sent == 0 {
      assert s.left + out == s.left;
      forall q ensures ConservedFor(after, q) {
        assert ConservedFor(s, q);
      }
    } else {
      var q := out[0].topic;
      assert ConservedFor(s, q);
      MatchingConcat(s.left, out, Some(q));
      assert out[0] in Matching(out, Some(q));
      assert !ConservedFor(after, q);
    }
  }

  /** A step conserves exactly when it is timely. */
  lemma StepConservesIff(s: State, step: Step)
    requires Enabled(s, step) && Conserved(s)
    ensures Conserved(Next(s, step)) <==> Timely(s, step)
  {
    hide ConservedFor;
    var after := Next(s, step);
    if step.Rebind? {
      forall q ensures ConservedFor(after, q) <==>
                       Matching(s.store, Some(q)) == Matching(s.redrives[step.id].read, Some(q))
      {
        assert ConservedFor(s, q);
        RebindConservesIff(s, step.id, q);
      }
    } else if step.SendRaises? {
      RaiseConservesIff(s, step.id);
    } else {
      forall q ensures ConservedFor(after, q) {
        assert ConservedFor(s, q);
        PlainStepConserves(s, step, q);
      }
    }
  }

  ghost predicate Run(s: State, steps: seq<Step>, end: State)
    decreases |steps|
  {
    if steps == [] then s == end
    else Enabled(s, steps[0]) && Run(Next(s, steps[0]), steps[1..], end)
  }

  ghost predicate AlwaysConserved(s: State, steps: seq<Step>, end: State)
    requires Run(s, steps, end)
    decreases |steps|
  {
    Conserved(s) && (steps != [] ==> AlwaysConserved(Next(s, steps[0]), steps[1..], end))
  }

  ghost predicate AllTimely(s: State, steps: seq<Step>, end: State)
    requires Run(s, steps, end)
    decreases |steps|
  {
    steps != [] ==> Timely(s, steps[0]) && AllTimely(Next(s, steps[0]), steps[1..], end)
  }

  /**
   Over every interleaving: nothing is lost, repeated or reordered within its topic in any state of
   the run, if and only if every redrive that ends is timely.
   */
  lemma {:induction false} AlwaysConservedIff(s: State, steps: seq<Step>, end: State)
    requires Run(s, steps, end) && Conserved(s)
    ensures AlwaysConserved(s, steps, end) <==> AllTimely(s, steps, end)
    ensures AllTimely(s, steps, end) ==> Conserved(end)
    decreases |steps|
  {
    hide Conserved, Timely, Next, Enabled;
    if steps != [] {
      StepConservesIff(s, steps[0]);
      if Timely(s, steps[0]) {
        AlwaysConservedIff(Next(s, steps[0]), steps[1..], end);
      }
    }
  }

  // ----- Redrives that nothing falls into -----

  ghost predicate Fresh(s: State) {
    forall id :: id in s.redrives ==> s.redrives[id].read == s.store
  }

  /** While a redrive is in progress nothing is quarantined or purged and no other redrive ends; no send raises. */
  ghost predicate Undisturbed(s: State, step: Step) {
    match step
    case Quarantine(_) => s.redrives == map[]
    case Purge(_) => s.redrives == map[]
    case Redrive(_, _) => s.redrives == map[]
    case Rebind(id) => forall other :: other in s.redrives ==> other == id
    case SendRaises(id) => id in s.redrives ==> s.redrives[id].sent == 0
    case _ => true
  }

  ghost predicate AllUndisturbed(s: State, steps: seq<Step>, end: State)
    requires Run(s, steps, end)
    decreases |steps|
  {
    steps != [] ==> Undisturbed(s, steps[0]) && AllUndisturbed(Next(s, steps[0]), steps[1..], end)
  }

  lemma {:induction false} UndisturbedIsTimely(s: State, steps: seq<Step>, end: State)
    requires Run(s, steps, end) && Fresh(s) && AllUndisturbed(s, steps, end)
    ensures AllTimely(s, steps, end)
    decreases |steps|
  {
    if steps != [] {
      if steps[0].Begin? {
        NoneTaken(s.store, steps[0].topic, steps[0].limit);
      }
      assert Fresh(Next(s, steps[0]));
      UndisturbedIsTimely(Next(s, steps[0]), steps[1..], end);
    }
  }

  // ----- Three ways to disturb a redrive -----

  lemma Extend(s: State, steps: seq<Step>, end: State, step: Step) returns (steps': seq<Step>, end': State)
    requires Run(s, steps, end) && Enabled(end, step)
    ensures steps' == steps + [step] && end' == Next(end, step) && Run(s, steps', end')
    decreases |steps|
  {
    steps', end' := steps + [step], Next(end, step);
    if steps == [] {
      assert steps'[1..] == [] && Run(end', [], end');
    } else {
      assert steps'[1..] == steps[1..] + [step];
      var more, last := Extend(Next(s, steps[0]), steps[1..], end, step);
    }
  }

  function Empty(): State {
    State([], [], [], map[])
  }

  lemma TakenOne(e: Envelope)
    ensures Taken([e], None, 1) == [e] && Remaining([e], None, 1) == []
    ensures Matching([e], Some(e.topic)) == [e] && Matching([e], None) == [e] && Others([e], None) == []
  {
    assert [e][1..] == [];
  }

  lemma Start()
    ensures Run(Empty(), [], Empty())
  {}

  lemma NotConserved(s: State, q: string)
    requires !ConservedFor(s, q)
    ensures !Conserved(s)
  {}

  /** One envelope is in quarantine and a redrive has taken and sent it. */
  lemma SentOne(e: Envelope) returns (steps: seq<Step>, s: State)
    ensures Run(Empty(), steps, s) && s == State([e], [], [e], map[0 := Redriving([e], None, 1, 1)])
  {
    hide Run;
    Start();
    TakenOne(e);
    steps, s := Extend(Empty(), [], Empty(), Quarantine(e));
    assert s == State([e], [], [e], map[]);
    steps, s := Extend(Empty(), steps, s, Begin(0, None, 1));
    steps, s := Extend(Empty(), steps, s, Send(0));
  }

  /** Two redrives that overlap send the same envelope twice. */
  lemma OverlapSendsTwice(e: Envelope) returns (steps: seq<Step>, end: State)
    ensures Run(Empty(), steps, end) && end == State([e], [e, e], [], map[]) && !Conserved(end)
  {
    hide Run;
    TakenOne(e);
    steps, end := SentOne(e);
    steps, end := Extend(Empty(), steps, end, Begin(1, None, 1));
    steps, end := Extend(Empty(), steps, end, Send(1));
    steps, end := Extend(Empty(), steps, end, Rebind(0));
    steps, end := Extend(Empty(), steps, end, Rebind(1));
    assert Candidates(Redriving([e], None, 1, 1)) == [e] && [] + [e] + [e] == [e, e];
    MatchingConcat([e], [e], Some(e.topic));
    NotConserved(end, e.topic);
  }

  /** An envelope that arrives during a redrive is lost. */
  lemma ArrivalIsLost(e: Envelope) returns (steps: seq<Step>, end: State)
    ensures Run(Empty(), steps, end) && end == State([e, e], [e], [], map[]) && !Conserved(end)
  {
    hide Run;
    TakenOne(e);
    steps, end := SentOne(e);
    steps, end := Extend(Empty(), steps, end, Quarantine(e));
    steps, end := Extend(Empty(), steps, end, Rebind(0));
    assert [e] + [e] == [e, e];
    MatchingConcat([e], [e], Some(e.topic));
    assert |Matching(end.arrived, Some(e.topic))| == 2 && Matching(end.left, Some(e.topic)) == [e];
    NotConserved(end, e.topic);
  }

  lemma TakenOfTwo(e: Envelope, f: Envelope)
    requires e.topic != f.topic
    ensures Taken([e, f], Some(e.topic), 1) == [e] && Remaining([e, f], Some(e.topic), 1) == [f]
    ensures Matching([e, f], Some(f.topic)) == [f] && Others([e, f], Some(f.topic)) == [e]
  {
    assert [e, f][1..] == [f] && [f][1..] == [];
    NothingTaken([f], Some(e.topic), 0);
    FiltersAre(f, [], [], Some(f.topic));
  }

  /** Envelopes that a redrive leaves come back when they are purged before it ends. */
  lemma PurgedComesBack(e: Envelope, f: Envelope) returns (steps: seq<Step>, end: State)
    requires e.topic != f.topic
    ensures Run(Empty(), steps, end) && end == State([e, f], [f, e], [f], map[]) && !Conserved(end)
  {
    hide Run;
    Start();
    TakenOfTwo(e, f);
    steps, end := Extend(Empty(), [], Empty(), Quarantine(e));
    steps, end := Extend(Empty(), steps, end, Quarantine(f));
    assert end == State([e, f], [], [e, f], map[]);
    steps, end := Extend(Empty(), steps, end, Begin(0, Some(e.topic), 1));
    steps, end := Extend(Empty(), steps, end, Send(0));
    steps, end := Extend(Empty(), steps, end, Purge(Some(f.topic)));
    assert end == State([e, f], [f], [e], map[0 := Redriving([e, f], Some(e.topic), 1, 1)]);
    steps, end := Extend(Empty(), steps, end, Rebind(0));
    assert [f, e][1..] == [e] && [f][1..] == [] && [e][1..] == [];
    assert Matching([f, e], Some(f.topic)) == [f];
    NotConserved(end, f.topic);
  }

  // ----- The service -----

  /** What one call of the handler does. */
  datatype Attempt = Done(result: string) | Raised(error: string)

  datatype Processed = Success(result: string) | Quarantined(envelope: Envelope) | AckRaised(envelope: Envelope)

  /** The handler and the acknowledgement as the calls at each attempt turn out. */
  datatype Script = Script(handler: nat -> Attempt, hasAck: bool, ackError: nat -> Option<string>)

  ghost predicate Succeeds(s: Script, k: nat) {
    s.handler(k).Done? && (s.hasAck ==> s.ackError(k).None?)
  }

  /** The error an attempt that does not succeed is charged with. */
  ghost function ErrorAt(s: Script, k: nat): string
    requires !Succeeds(s, k)
  {
    if s.handler(k).Raised? then s.handler(k).error else s.ackError(k).value
  }

  /** Sleeping after each of the first `n` attempts. */
  function TotalBackoff(base: real, n: nat): real {
    if base <= 0.0 then 0.0 else base * (Pow2(n) - 1) as real
  }

  lemma BackoffStep(base: real, n: nat)
    ensures base > 0.0 ==> TotalBackoff(base, n + 1) == TotalBackoff(base, n) + base * Pow2(n) as real
    ensures base > 0.0 <==> base * Pow2(n) as real > 0.0
    ensures TotalBackoff(base, 0) == 0.0
  {
    var p := Pow2(n) as real;
    assert (Pow2(n + 1) - 1) as real == (Pow2(n) - 1) as real + p;
    assert base * ((Pow2(n) - 1) as real + p) == base * (Pow2(n) - 1) as real + base * p;
  }

  /** One turn of the partition of the store. */
  lemma SplitOne(store: seq<Envelope>, i: nat, topic: Option<string>, limit: int)
    requires i < |store|
    ensures var (takes, e) := (Matches(store[i], topic) && 0 < limit, store[i]);
            var limit' := if takes then limit - 1 else limit;
            && Taken(store[i..], topic, limit) == (if takes then [e] else []) + Taken(store[i + 1..], topic, limit')
            && Remaining(store[i..], topic, limit) == (if takes then [] else [e]) + Remaining(store[i + 1..], topic, limit')
  {
    assert store[i..][1..] == store[i + 1..];
  }

  lemma NothingLeft(store: seq<Envelope>, topic: Option<string>, limit: int)
    ensures Taken(store[|store|..], topic, limit) == [] && Remaining(store[|store|..], topic, limit) == []
  {}

  class Service {
    var store: seq<Envelope>
    /** Messages handed to the republish function, in order. */
    var republished: seq<(string, string)>
    /** Acknowledgements that went through. */
    var acked: nat
    var slept: real

    constructor ()
      ensures store == [] && republished == [] && acked == 0 && slept == 0.0
    {
      store, republished, acked, slept := [], [], 0, 0.0;
    }

    /** `process_with_dlq`; `freshId` is the identifier generated when none is given. */
    method Process(topic: string, payload: string, script: Script, messageId: Option<string>, freshId: string,
                   baseDelay: real, maxRetries: int) returns (r: Processed, calls: nat)
      modifies this`store, this`acked, this`slept
      ensures calls <= (if maxRetries > 0 then maxRetries else 0)
      ensures forall k: nat :: k < calls - 1 ==> !Succeeds(script, k)
      ensures r.Success? <==> exists k: nat :: k < maxRetries && Succeeds(script, k)
      ensures r.Success? ==> calls > 0 && Succeeds(script, calls - 1) && r.result == script.handler(calls - 1).result
                             && store == old(store)
      ensures !r.Success? ==>
                && calls == (if maxRetries > 0 then maxRetries else 0)
                && store == old(store) + [r.envelope]
                && r.envelope.topic == topic && r.envelope.payload == payload && r.envelope.retries == maxRetries
                && r.envelope.error == (if calls == 0 then "Unknown error" else ErrorAt(script, calls - 1))
                && r.envelope.id == (if messageId.Some? && messageId.value != "" then messageId.value else freshId)
      ensures r.AckRaised? <==> !r.Success? && script.hasAck && script.ackError(calls).Some?
      ensures acked == old(acked) + (if script.hasAck && !r.AckRaised? then 1 else 0)
      ensures slept == old(slept) + TotalBackoff(baseDelay, if calls == 0 then 0 else calls - 1)
    {
      var lastError := "Unknown error";
      calls := 0;
      BackoffStep(baseDelay, 0);
      while calls < maxRetries
        invariant 0 <= calls <= (if maxRetries > 0 then maxRetries else 0)
        invariant forall k: nat :: k < calls ==> !Succeeds(script, k)
        invariant lastError == (if calls == 0 then "Unknown error" else ErrorAt(script, calls - 1))
        invariant store == old(store) && acked == old(acked)
        invariant slept == old(slept) + TotalBackoff(baseDelay, if 0 < calls == maxRetries then calls - 1 else calls)
      {
        var attempt := calls;
        calls := calls + 1;
        match script.handler(attempt) {
          case Done(result) =>
            if !script.hasAck || script.ackError(attempt).None? {
              if script.hasAck {
                acked := acked + 1;
              }
              assert Succeeds(script, attempt);
              return Success(result), calls;
            }
            lastError := script.ackError(attempt).value;
          case Raised(error) =>
            lastError := error;
        }
        if calls < maxRetries {
          BackoffStep(baseDelay, attempt);
          var delay := baseDelay * Pow2(attempt) as real;
          if delay > 0.0 {
            slept := slept + delay;
          }
        }
      }
      var id := if messageId.Some? && messageId.value != "" then messageId.value else freshId;
      var envelope := Envelope(id, topic, payload, lastError, maxRetries);
      store := store + [envelope];
      if script.hasAck {
        if script.ackError(calls).Some? {
          return AckRaised(envelope), calls;
        }
        acked := acked + 1;
      }
      r := Quarantined(envelope);
    }

    method Partition(topic: Option<string>, limit: int) returns (candidates: seq<Envelope>, remaining: seq<Envelope>)
      ensures candidates == Taken(store, topic, limit) && remaining == Remaining(store, topic, limit)
    {
      hide Taken, Remaining;
      candidates, remaining := [], [];
      assert store[0..] == store;
      var i := 0;
      while i < |store|
        invariant 0 <= i <= |store|
        invariant Taken(store, topic, limit) == candidates + Taken(store[i..], topic, limit - |candidates|)
        invariant Remaining(store, topic, limit) == remaining + Remaining(store[i..], topic, limit - |candidates|)
      {
        SplitOne(store, i, topic, limit - |candidates|);
        if (topic.None? || store[i].topic == topic.value) && |candidates| < limit {
          candidates := candidates + [store[i]];
        } else {
          remaining := remaining + [store[i]];
        }
        i := i + 1;
      }
      NothingLeft(store, topic, limit - |candidates|);
    }

    /** Republish until a call raises; `done` messages went out. */
    method Republish(candidates: seq<Envelope>, raises: nat -> bool) returns (done: nat)
      modifies this`republished
      ensures done <= |candidates| && (forall k: nat :: k < done ==> !raises(k))
      ensures done < |candidates| ==> raises(done)
      ensures republished == old(republished) + Sent(candidates[..done])
      ensures |republished| == |old(republished)| + done && old(republished) <= republished
      ensures forall k :: 0 <= k < done ==>
                republished[|old(republished)| + k] == (candidates[k].topic, candidates[k].payload)
    {
      done := 0;
      while done < |candidates| && !raises(done)
        invariant 0 <= done <= |candidates| && forall k: nat :: k < done ==> !raises(k)
        invariant republished == old(republished) + Sent(candidates[..done])
      {
        SentAppend(candidates[..done], candidates[done]);
        assert candidates[..done + 1] == candidates[..done] + [candidates[done]];
        republished := republished + [(candidates[done].topic, candidates[done].payload)];
        done := done + 1;
      }
    }

    /** `redrive_messages`; `raises(k)` says that republishing the k-th candidate raises, None that the call raises. */
    method RedriveMessages(topic: Option<string>, limit: int, hasRepublish: bool, raises: nat -> bool)
      returns (count: Option<nat>, ghost sent: nat)
      modifies this`store, this`republished
      ensures var out := Taken(old(store), topic, limit);
              && sent <= |out| && (hasRepublish ==> forall k: nat :: k < sent ==> !raises(k))
              && republished == old(republished) + (if hasRepublish then Sent(out[..sent]) else [])
              && (count.Some? ==> sent == count.value == |out| && store == Remaining(old(store), topic, limit))
              && (count.None? ==> hasRepublish && sent < |out| && raises(sent) && store == old(store))
      ensures old(republished) <= republished
      ensures hasRepublish ==>
                var out := Taken(old(store), topic, limit);
                && |republished| == |old(republished)| + sent
                && forall k :: 0 <= k < sent && k < |out| ==>
                     republished[|old(republished)| + k] == (out[k].topic, out[k].payload)
    {
      var candidates, remaining := Partition(topic, limit);
      sent := |candidates|;
      if hasRepublish {
        var done := Republish(candidates, raises);
        if done < |candidates| {
          return None, done;
        }
      }
      store := remaining;
      count := Some(|candidates|);
    }

    /** `purge_dlq` */
    method PurgeDlq(topic: Option<string>) returns (count: nat)
      modifies this`store
      ensures store == Others(old(store), topic)
      ensures count == |Matching(old(store), topic)|
    {
      PurgeCounts(store, topic);
      if topic.None? {
        count := |store|;
        store := [];
        return;
      }
      var kept := [];
      var i := 0;
      while i < |store|
        invariant 0 <= i <= |store| && store == old(store)
        invariant kept + Others(store[i..], topic) == Others(store, topic)
      {
        assert store[i..][1..] == store[i + 1..];
        if store[i].topic != topic.value {
          kept := kept + [store[i]];
        }
        i := i + 1;
      }
      count := |store| - |kept|;
      store := kept;
    }
  }

  function Sent(es: seq<Envelope>): seq<(string, string)> {
    seq(|es|, i requires 0 <= i < |es| => (es[i].topic, es[i].payload))
  }

  lemma SentAppend(es: seq<Envelope>, e: Envelope)
    ensures Sent(es + [e]) == Sent(es) + [(e.topic, e.payload)]
  {}

  lemma {:induction false} PurgeCounts(store: seq<Envelope>, topic: Option<string>)
    ensures |Matching(store, topic)| + |Others(store, topic)| == |store|
    ensures topic.None? ==> Others(store, topic) == [] && Matching(store, topic) == store
  {
    if store != [] {
      PurgeCounts(store[1..], topic);
    }
  }
}
