/**
 One idempotency key between its first use and its expiry.  Requests run `check_or_acquire` and,
 when told to execute, charge and record their success or failure.  Every Redis command is one
 atomic step, and the commands of different requests interleave freely.  The handler that records
 a failure also covers the recording of the success, so that a request that charged can end up
 recorded as failed.
 */
module Idempotency {
  import opened Wrappers

  type Hash = nat
  type Response = nat

  /** The stored record; a failure record carries no request hash. */
  datatype Record =
    | InProgress(hash: Hash)
    | Completed(hash: Hash, response: Response)
    | Failed

  /** Where a request with a given payload hash stands. */
  datatype Request =
    | Arrived(hash: Hash)                            // before SET NX
    | Looking(hash: Hash)                            // SET NX failed, before GET
    | Retaking(hash: Hash)                           // read a failure, before the overwriting SET
    | Executing(hash: Hash, charge: Option<Response>) // told to execute; what the charge gave, once it went through
    | Unconfirmed(hash: Hash, response: Response)    // stored its success, but the command raised
    | Succeeded(hash: Hash, response: Response)      // recorded its success
    | Errored(hash: Hash, charge: Option<Response>)  // recorded its failure
    | Replayed(hash: Hash, response: Response)       // returned a stored response
    | Conflict(hash: Hash)                           // 409: another request is in progress
    | Tampered(hash: Hash)                           // 422: the key belongs to another payload

  datatype State = State(record: Option<Record>, requests: map<nat, Request>)

  datatype Step =
    | Arrive(id: nat, hash: Hash)
    | SetNx(id: nat)
    | Get(id: nat)
    | Overwrite(id: nat)
    | CheckAtomically(id: nat)
    | Charge(id: nat, response: Response)
    | RecordSuccess(id: nat)
    | SuccessReplyLost(id: nat)
    | RecordFailure(id: nat)

  /** What a request makes of the record it reads. */
  function Judge(record: Record, hash: Hash): Request {
    match record
    case InProgress(h) => if h != hash then Tampered(hash) else Conflict(hash)
    case Completed(h, response) => if h != hash then Tampered(hash) else Replayed(hash, response)
    case Failed => Retaking(hash)
  }

  ghost predicate Enabled(s: State, step: Step) {
    match step
    case Arrive(id, hash) => id !in s.requests
    case SetNx(id) => id in s.requests && s.requests[id].Arrived?
    case Get(id) => id in s.requests && s.requests[id].Looking? && s.record.Some?
    case Overwrite(id) => id in s.requests && s.requests[id].Retaking?
    case CheckAtomically(id) => id in s.requests && s.requests[id].Arrived?
    case Charge(id, response) => id in s.requests && s.requests[id].Executing? && s.requests[id].charge.None?
    case RecordSuccess(id) => id in s.requests && s.requests[id].Executing? && s.requests[id].charge.Some?
    case SuccessReplyLost(id) => id in s.requests && s.requests[id].Executing? && s.requests[id].charge.Some?
    case RecordFailure(id) => id in s.requests && (s.requests[id].Executing? || s.requests[id].Unconfirmed?)
  }

  function With(s: State, id: nat, r: Request): State {
    s.(requests := s.requests[id := r])
  }

  /** What a request has charged. */
  function ChargeOf(r: Request): Option<Response> {
    match r
    case Executing(_, charge) => charge
    case Unconfirmed(_, response) => Some(response)
    case Succeeded(_, response) => Some(response)
    case Errored(_, charge) => charge
    case _ => None
  }

  function Apply(s: State, step: Step): State
    requires Enabled(s, step)
  {
    match step
    case Arrive(id, hash) => With(s, id, Arrived(hash))
    case SetNx(id) =>
      var h := s.requests[id].hash;
      if s.record.None? then With(s, id, Executing(h, None)).(record := Some(InProgress(h)))
      else With(s, id, Looking(h))
    case Get(id) => With(s, id, Judge(s.record.value, s.requests[id].hash))
    case Overwrite(id) =>
      var h := s.requests[id].hash;
      With(s, id, Executing(h, None)).(record := Some(InProgress(h)))
    case CheckAtomically(id) =>
      var h := s.requests[id].hash;
      if s.record.None? || s.record.value.Failed? then With(s, id, Executing(h, None)).(record := Some(InProgress(h)))
      else With(s, id, Judge(s.record.value, h))
    case Charge(id, response) => With(s, id, Executing(s.requests[id].hash, Some(response)))
    case RecordSuccess(id) =>
      var (h, response) := (s.requests[id].hash, s.requests[id].charge.value);
      With(s, id, Succeeded(h, response)).(record := Some(Completed(h, response)))
    case SuccessReplyLost(id) =>
      var (h, response) := (s.requests[id].hash, s.requests[id].charge.value);
      With(s, id, Unconfirmed(h, response)).(record := Some(Completed(h, response)))
    case RecordFailure(id) =>
      With(s, id, Errored(s.requests[id].hash, ChargeOf(s.requests[id]))).(record := Some(Failed))
  }

  /** The atomic check is the three commands run without interruption. */
  lemma AtomicIsUninterrupted(s: State, id: nat)
    requires Enabled(s, CheckAtomically(id))
    ensures var s1 := Apply(s, SetNx(id));
            var s2 := if s1.requests[id].Looking? then Apply(s1, Get(id)) else s1;
            var s3 := if s2.requests[id].Retaking? then Apply(s2, Overwrite(id)) else s2;
            s3 == Apply(s, CheckAtomically(id))
  {}

  ghost predicate Init(s: State) {
    s == State(None, map[])
  }

  ghost predicate Run(states: seq<State>, steps: seq<Step>) {
    && |states| == |steps| + 1
    && Init(states[0])
    && forall i :: 0 <= i < |steps| ==> Enabled(states[i], steps[i]) && states[i + 1] == Apply(states[i], steps[i])
  }

  /** It executes, or it has charged. */
  ghost predicate Executor(r: Request) {
    r.Executing? || ChargeOf(r).Some?
  }

  // ----- All interleavings of all commands -----

  ghost predicate FailedUncharged(s: State) {
    s.record == Some(Failed) && forall id :: id in s.requests && s.requests[id].Errored? ==> s.requests[id].charge.None?
  }

  /** A failure is taken over only while it is still there, and only if nothing was charged. */
  ghost predicate SafeRetake(s: State, step: Step) {
    match step
    case Overwrite(_) => FailedUncharged(s)
    case CheckAtomically(_) => s.record == Some(Failed) ==> FailedUncharged(s)
    case _ => true
  }

  ghost predicate SafeRetakes(states: seq<State>, steps: seq<Step>)
    requires |states| == |steps| + 1
  {
    forall i :: 0 <= i < |steps| ==> SafeRetake(states[i], steps[i])
  }

  /** No two requests execute or have charged. */
  ghost predicate AtMostOne(s: State) {
    forall c, d :: c in s.requests && d in s.requests && Executor(s.requests[c]) && Executor(s.requests[d]) ==> c == d
  }

  /** The record that stands while a request executes or has succeeded. */
  ghost predicate Stands(record: Option<Record>, r: Request) {
    match r
    case Executing(h, _) => record == Some(InProgress(h))
    case Unconfirmed(h, response) => record == Some(Completed(h, response))
    case Succeeded(h, response) => record == Some(Completed(h, response))
    case Looking(_) => record.Some?
    case Retaking(_) => record.Some?
    case Errored(_, _) => record.Some?
    case _ => true
  }

  ghost predicate Holds(r: Request) {
    r.Executing? || r.Unconfirmed? || r.Succeeded?
  }

  /** The record names the one request that was told to execute. */
  ghost predicate OneExecutor(s: State) {
    && AtMostOne(s)
    && (forall id :: id in s.requests ==> Stands(s.record, s.requests[id]))
    && (s.record.Some? && !s.record.value.Failed? ==> exists id :: id in s.requests && Holds(s.requests[id]))
  }

  /** The guarantee survives a command exactly when it is no unsafe retake. */
  lemma OneExecutorKeptIff(s: State, step: Step)
    requires OneExecutor(s) && Enabled(s, step)
    ensures OneExecutor(Apply(s, step)) <==> SafeRetake(s, step)
    ensures AtMostOne(Apply(s, step)) <==> SafeRetake(s, step)
  {
    if !SafeRetake(s, step) {
      UnsafeMakesTwo(s, step);
    } else if step.Overwrite? || step.CheckAtomically? || step.SetNx? {
      if s.record.Some? && !s.record.value.Failed? {
        CheckRefused(s, step);
      } else {
        TakeKeeps(s, step);
      }
    } else if step.Arrive? || step.Get? {
      WatcherKeeps(s, step);
    } else {
      HolderKeeps(s, step);
    }
  }

  lemma UnsafeMakesTwo(s: State, step: Step)
    requires OneExecutor(s) && Enabled(s, step) && !SafeRetake(s, step)
    ensures !AtMostOne(Apply(s, step))
  {
    var s' := Apply(s, step);
    var e;
    if s.record == Some(Failed) {
      e :| e in s.requests && s.requests[e].Errored? && s.requests[e].charge.Some?;
    } else {
      e :| e in s.requests && Holds(s.requests[e]);
    }
    assert e in s'.requests && e != step.id && Executor(s'.requests[e]) && Executor(s'.requests[step.id]);
  }

  /** A check that finds the key in progress or completed. */
  lemma CheckRefused(s: State, step: Step)
    requires OneExecutor(s) && Enabled(s, step) && s.record.Some? && !s.record.value.Failed?
    requires step.CheckAtomically? || step.SetNx?
    ensures OneExecutor(Apply(s, step))
  {
    var s' := Apply(s, step);
    var e :| e in s.requests && Holds(s.requests[e]);
    assert s'.record == s.record && !Executor(s'.requests[step.id]);
    assert e in s'.requests && Holds(s'.requests[e]);
  }

  /** A check that finds no record, or a failure, and takes over. */
  lemma TakeKeeps(s: State, step: Step)
    requires OneExecutor(s) && Enabled(s, step) && SafeRetake(s, step) && (s.record.Some? ==> s.record.value.Failed?)
    requires step.Overwrite? || step.CheckAtomically? || step.SetNx?
    ensures OneExecutor(Apply(s, step))
  {
    var s' := Apply(s, step);
    forall id | id in s.requests && (step.SetNx? ==> s.record.None?) ensures !Executor(s.requests[id]) {
      assert Stands(s.record, s.requests[id]);
    }
    assert s'.record.Some? && !s'.record.value.Failed? ==> Holds(s'.requests[step.id]);
  }

  lemma WatcherKeeps(s: State, step: Step)
    requires OneExecutor(s) && Enabled(s, step) && (step.Arrive? || step.Get?)
    ensures OneExecutor(Apply(s, step))
  {
    var s' := Apply(s, step);
    assert !Executor(s'.requests[step.id]) && Stands(s.record, s'.requests[step.id]);
    assert forall id :: id in s'.requests && id != step.id ==> id in s.requests && s'.requests[id] == s.requests[id];
    if s.record.Some? && !s.record.value.Failed? {
      var e :| e in s.requests && Holds(s.requests[e]);
      assert e in s'.requests && Holds(s'.requests[e]);
    }
  }

  lemma HolderKeeps(s: State, step: Step)
    requires OneExecutor(s) && Enabled(s, step)
    requires step.Charge? || step.RecordSuccess? || step.SuccessReplyLost? || step.RecordFailure?
    ensures OneExecutor(Apply(s, step))
  {
    var s' := Apply(s, step);
    assert Holds(s.requests[step.id]) && Executor(s.requests[step.id]);
    assert Holds(s'.requests[step.id]) || s'.record == Some(Failed);
  }

  lemma {:induction false} OneExecutorRun(states: seq<State>, steps: seq<Step>, i: nat)
    requires Run(states, steps) && i < |states|
    requires forall j :: 0 <= j < i ==> SafeRetake(states[j], steps[j]) || AtMostOne(states[j + 1])
    ensures OneExecutor(states[i])
  {
    hide OneExecutor, AtMostOne, SafeRetake, Apply, Enabled;
    if i > 0 {
      OneExecutorRun(states, steps, i - 1);
      assert states[i - 1 + 1] == Apply(states[i - 1], steps[i - 1]);
      OneExecutorKeptIff(states[i - 1], steps[i - 1]);
    } else {
      NobodyExecutes();
    }
  }

  lemma NobodyExecutes()
    ensures OneExecutor(State(None, map[]))
  {}

  /** Over every interleaving of single commands: never two executors, if and only if every retake is safe. */
  lemma AtMostOneIffSafeRetakes(states: seq<State>, steps: seq<Step>)
    requires Run(states, steps)
    ensures (forall i :: 0 <= i < |states| ==> AtMostOne(states[i])) <==> SafeRetakes(states, steps)
  {
    hide AtMostOne, SafeRetake, Apply, Enabled;
    if SafeRetakes(states, steps) {
      forall i | 0 <= i < |states| ensures AtMostOne(states[i]) {
        OneExecutorRun(states, steps, i);
      }
    }
    if forall i :: 0 <= i < |states| ==> AtMostOne(states[i]) {
      forall i | 0 <= i < |steps| ensures SafeRetake(states[i], steps[i]) {
        OneExecutorRun(states, steps, i);
        assert AtMostOne(states[i + 1]);
        OneExecutorKeptIff(states[i], steps[i]);
      }
    }
  }

  // ----- Charges -----

  ghost predicate ChargedTwice(s: State) {
    exists c, d :: c in s.requests && d in s.requests && c != d &&
                   ChargeOf(s.requests[c]).Some? && ChargeOf(s.requests[d]).Some?
  }

  /** No run with safe retakes charges twice. */
  lemma SafeRetakesChargeOnce(states: seq<State>, steps: seq<Step>, i: nat)
    requires Run(states, steps) && SafeRetakes(states, steps) && i < |states|
    ensures !ChargedTwice(states[i])
  {
    OneExecutorRun(states, steps, i);
  }

  /** Of two executors each can still charge, if it has not. */
  lemma LetCharge(states: seq<State>, steps: seq<Step>, id: nat) returns (states': seq<State>, steps': seq<Step>)
    requires Run(states, steps) && id in states[|steps|].requests && Executor(states[|steps|].requests[id])
    ensures Run(states', steps') && steps <= steps' && id in states'[|steps'|].requests
    ensures ChargeOf(states'[|steps'|].requests[id]).Some?
    ensures states'[|steps'|].requests.Keys == states[|steps|].requests.Keys
    ensures forall other :: other in states[|steps|].requests && other != id ==>
              states'[|steps'|].requests[other] == states[|steps|].requests[other]
  {
    states', steps' := states, steps;
    if ChargeOf(states[|steps|].requests[id]).None? {
      states', steps' := Extend(states, steps, Charge(id, 0));
    }
  }

  /** The first unsafe retake of a run can be followed by a second charge. */
  lemma UnsafeRetakeChargesTwice(states: seq<State>, steps: seq<Step>, k: nat)
    returns (states': seq<State>, steps': seq<Step>)
    requires Run(states, steps) && k < |steps| && !SafeRetake(states[k], steps[k])
    requires forall i :: 0 <= i < k ==> SafeRetake(states[i], steps[i])
    ensures Run(states', steps') && steps[..k + 1] <= steps' && ChargedTwice(states'[|steps'|])
  {
    hide Apply, Enabled, SafeRetake, Executor, ChargeOf;
    OneExecutorRun(states, steps, k);
    OneExecutorKeptIff(states[k], steps[k]);
    assert states[k + 1] == Apply(states[k], steps[k]);
    var c, d := TwoExecutors(states[k + 1]);
    states', steps' := states[..k + 2], steps[..k + 1];
    states', steps' := LetCharge(states', steps', c);
    states', steps' := LetCharge(states', steps', d);
  }

  lemma TwoExecutors(s: State) returns (c: nat, d: nat)
    requires !AtMostOne(s)
    ensures c in s.requests && d in s.requests && c != d && Executor(s.requests[c]) && Executor(s.requests[d])
  {
    c, d :| c in s.requests && d in s.requests && Executor(s.requests[c]) && Executor(s.requests[d]) && c != d;
  }

  ghost predicate Replays(s: State) {
    forall id :: id in s.requests && s.requests[id].Replayed? ==>
      exists e :: e in s.requests && IsCharge(s.requests[e], s.requests[id].hash, s.requests[id].response)
  }

  ghost predicate IsCharge(e: Request, hash: Hash, response: Response) {
    ChargeOf(e) == Some(response) && e.hash == hash
  }

  lemma ReplaysKept(s: State, step: Step)
    requires OneExecutor(s) && Replays(s) && Enabled(s, step)
    ensures Replays(Apply(s, step))
  {
    hide AtMostOne;
    var s' := Apply(s, step);
    forall id | id in s'.requests && s'.requests[id].Replayed?
      ensures exists e :: e in s'.requests && IsCharge(s'.requests[e], s'.requests[id].hash, s'.requests[id].response)
    {
      var (h, response) := (s'.requests[id].hash, s'.requests[id].response);
      var e;
      if id in s.requests && s.requests[id].Replayed? {
        e :| e in s.requests && IsCharge(s.requests[e], h, response);
      } else {
        assert s.record == Some(Completed(h, response));
        e :| e in s.requests && Holds(s.requests[e]);
      }
      assert e in s'.requests && IsCharge(s'.requests[e], h, response);
    }
  }

  lemma {:induction false} ReplaysRun(states: seq<State>, steps: seq<Step>, i: nat)
    requires Run(states, steps) && SafeRetakes(states, steps) && i < |states|
    ensures Replays(states[i])
  {
    hide OneExecutor, Replays, SafeRetake, Apply, Enabled;
    if i > 0 {
      ReplaysRun(states, steps, i - 1);
      OneExecutorRun(states, steps, i - 1);
      assert states[i - 1 + 1] == Apply(states[i - 1], steps[i - 1]);
      ReplaysKept(states[i - 1], steps[i - 1]);
    } else {
      NothingReplayed();
    }
  }

  lemma NothingReplayed()
    ensures Replays(State(None, map[]))
  {}

  /** Every replay is the response of the one charge, for the same payload hash. */
  lemma ReplaysTheExecutor(states: seq<State>, steps: seq<Step>, i: nat, r: nat)
    requires Run(states, steps) && SafeRetakes(states, steps) && i < |states|
    requires r in states[i].requests && states[i].requests[r].Replayed?
    ensures exists e :: e in states[i].requests &&
              IsCharge(states[i].requests[e], states[i].requests[r].hash, states[i].requests[r].response)
    ensures AtMostOne(states[i])
  {
    ReplaysRun(states, steps, i);
    OneExecutorRun(states, steps, i);
  }

  // ----- Two ways to be safe -----

  ghost predicate NoFailures(steps: seq<Step>) {
    forall i :: 0 <= i < |steps| ==> !steps[i].RecordFailure?
  }

  ghost predicate NeverFailed(s: State) {
    s.record != Some(Failed) && forall id :: id in s.requests ==> !s.requests[id].Retaking?
  }

  lemma {:induction false} NeverFailedRun(states: seq<State>, steps: seq<Step>, i: nat)
    requires Run(states, steps) && NoFailures(steps) && i < |states|
    ensures NeverFailed(states[i])
  {
    if i > 0 {
      NeverFailedRun(states, steps, i - 1);
      assert states[i - 1 + 1] == Apply(states[i - 1], steps[i - 1]);
    }
  }

  /** Without a recorded failure every interleaving is safe. */
  lemma NoFailuresAreSafe(states: seq<State>, steps: seq<Step>)
    requires Run(states, steps) && NoFailures(steps)
    ensures SafeRetakes(states, steps)
  {
    forall i | 0 <= i < |steps| ensures SafeRetake(states[i], steps[i]) {
      NeverFailedRun(states, steps, i);
    }
  }

  ghost predicate ChecksAtomic(steps: seq<Step>) {
    forall i :: 0 <= i < |steps| ==> !steps[i].SetNx? && !steps[i].Get? && !steps[i].Overwrite?
  }

  /** No request that has charged is recorded as failed. */
  ghost predicate ChargesRecorded(states: seq<State>, steps: seq<Step>)
    requires Run(states, steps)
  {
    forall i :: 0 <= i < |steps| && steps[i].RecordFailure? ==> ChargeOf(states[i].requests[steps[i].id]).None?
  }

  lemma {:induction false} ErroredUncharged(states: seq<State>, steps: seq<Step>, i: nat, id: nat)
    requires Run(states, steps) && ChargesRecorded(states, steps) && i < |states|
    requires id in states[i].requests && states[i].requests[id].Errored?
    ensures states[i].requests[id].charge.None?
  {
    if i > 0 {
      assert states[i - 1 + 1] == Apply(states[i - 1], steps[i - 1]);
      if id in states[i - 1].requests && states[i - 1].requests[id].Errored? {
        ErroredUncharged(states, steps, i - 1, id);
      }
    }
  }

  /** With atomic checks, failures or not, as long as no request that has charged is recorded as failed. */
  lemma AtomicChecksAreSafe(states: seq<State>, steps: seq<Step>)
    requires Run(states, steps) && ChecksAtomic(steps) && ChargesRecorded(states, steps)
    ensures forall i :: 0 <= i < |states| ==> AtMostOne(states[i])
  {
    hide AtMostOne, Apply, Enabled;
    forall i | 0 <= i < |steps| ensures SafeRetake(states[i], steps[i]) {
      forall id | id in states[i].requests && states[i].requests[id].Errored?
        ensures states[i].requests[id].charge.None?
      {
        ErroredUncharged(states, steps, i, id);
      }
    }
    AtMostOneIffSafeRetakes(states, steps);
  }

  // ----- Two charges -----

  /** Two requests have read a failure, and neither has overwritten it yet. */
  lemma FailureReadTwice() returns (states: seq<State>, steps: seq<Step>)
    ensures Run(states, steps) && |states| == |steps| + 1 && ChargesRecorded(states, steps)
    ensures states[|steps|] == State(Some(Failed), map[0 := Errored(7, None), 1 := Retaking(7), 2 := Retaking(7)])
  {
    hide Run, ChargesRecorded;
    states, steps := [State(None, map[])], [];
    Start();
    states, steps := ExtendRecorded(states, steps, Arrive(0, 7));
    states, steps := ExtendRecorded(states, steps, SetNx(0));
    states, steps := ExtendRecorded(states, steps, RecordFailure(0));
    assert states[|steps|] == State(Some(Failed), map[0 := Errored(7, None)]);
    states, steps := ExtendRecorded(states, steps, Arrive(1, 7));
    states, steps := ExtendRecorded(states, steps, Arrive(2, 7));
    states, steps := ExtendRecorded(states, steps, SetNx(1));
    states, steps := ExtendRecorded(states, steps, SetNx(2));
    states, steps := ExtendRecorded(states, steps, Get(1));
    states, steps := ExtendRecorded(states, steps, Get(2));
  }

  /**
   With a recorded failure and interleaved commands two requests can read the failure before
   either overwrites it; then both are told to execute, and charge.
   */
  lemma FailureAllowsTwo() returns (states: seq<State>, steps: seq<Step>)
    ensures Run(states, steps) && ChargesRecorded(states, steps) && ChargedTwice(states[|steps|])
  {
    hide Run, ChargesRecorded;
    states, steps := FailureReadTwice();
    states, steps := ExtendRecorded(states, steps, Overwrite(1));
    states, steps := ExtendRecorded(states, steps, Overwrite(2));
    states, steps := ExtendRecorded(states, steps, Charge(1, 0));
    states, steps := ExtendRecorded(states, steps, Charge(2, 0));
    var s := states[|steps|];
    assert 1 in s.requests && 2 in s.requests && ChargeOf(s.requests[1]).Some? && ChargeOf(s.requests[2]).Some?;
  }

  lemma ChargedAndFailed() returns (states: seq<State>, steps: seq<Step>)
    ensures Run(states, steps) && |states| == |steps| + 1 && ChecksAtomic(steps)
    ensures states[|steps|] == State(Some(Failed), map[0 := Errored(7, Some(1))])
  {
    hide Run;
    states, steps := [State(None, map[])], [];
    Start();
    states, steps := Extend(states, steps, Arrive(0, 7));
    states, steps := Extend(states, steps, CheckAtomically(0));
    states, steps := Extend(states, steps, Charge(0, 1));
    states, steps := Extend(states, steps, RecordFailure(0));
  }

  /** A charge whose success could not be recorded is recorded as failed, and the retry charges again. */
  lemma UnrecordedChargeIsRepeated() returns (states: seq<State>, steps: seq<Step>)
    ensures Run(states, steps) && ChecksAtomic(steps) && ChargedTwice(states[|steps|])
  {
    hide Run;
    states, steps := ChargedAndFailed();
    states, steps := Extend(states, steps, Arrive(1, 7));
    states, steps := Extend(states, steps, CheckAtomically(1));
    states, steps := Extend(states, steps, Charge(1, 2));
    var s := states[|steps|];
    assert 0 in s.requests && 1 in s.requests && ChargeOf(s.requests[0]).Some? && ChargeOf(s.requests[1]).Some?;
  }

  lemma ExtendRecorded(states: seq<State>, steps: seq<Step>, step: Step) returns (states': seq<State>, steps': seq<Step>)
    requires Run(states, steps) && |states| == |steps| + 1 && Enabled(states[|steps|], step)
    requires ChargesRecorded(states, steps) && (step.RecordFailure? ==> ChargeOf(states[|steps|].requests[step.id]).None?)
    ensures Run(states', steps') && |states'| == |steps'| + 1 && ChargesRecorded(states', steps')
    ensures states'[|steps'|] == Apply(states[|steps|], step)
  {
    states', steps' := Extend(states, steps, step);
  }

  lemma Start()
    ensures Run([State(None, map[])], []) && ChargesRecorded([State(None, map[])], [])
  {}

  lemma Extend(states: seq<State>, steps: seq<Step>, step: Step) returns (states': seq<State>, steps': seq<Step>)
    requires Run(states, steps) && |states| == |steps| + 1 && Enabled(states[|steps|], step)
    ensures Run(states', steps') && steps' == steps + [step] && states' == states + [Apply(states[|steps|], step)]
  {
    states', steps' := states + [Apply(states[|steps|], step)], steps + [step];
  }

  // ----- The manager -----

  class IdempotencyManager {
    var record: Option<Record>

    constructor ()
      ensures record == None
    {
      record := None;
    }

    /** `check_or_acquire` with nobody in between; `expires` says that the key expires after SET NX failed. */
    method CheckOrAcquire(hash: Hash, expires: bool) returns (r: Request)
      modifies this
      ensures old(record).None? || !expires ==>
                forall s: State, id: nat :: s.record == old(record) && id in s.requests && s.requests[id] == Arrived(hash) ==>
                  Apply(s, CheckAtomically(id)) == With(s, id, r).(record := record)
      ensures expires ==> r == Executing(hash, None) && record == Some(InProgress(hash))
      ensures old(record).None? || old(record).value.Failed? ==> r == Executing(hash, None) && record == Some(InProgress(hash))
      ensures !expires && old(record).Some? && !old(record).value.Failed? ==>
                var stored := old(record).value;
                && record == old(record)
                && (stored.hash != hash ==> r == Tampered(hash))
                && (stored.hash == hash && stored.InProgress? ==> r == Conflict(hash))
                && (stored.hash == hash && stored.Completed? ==> r == Replayed(hash, stored.response))
    {
      if record.None? {
        record := Some(InProgress(hash));
        return Executing(hash, None);
      }
      if expires {
        record := Some(InProgress(hash));
        return Executing(hash, None);
      }
      var stored := record.value;
      if !stored.Failed? && stored.hash != hash {
        return Tampered(hash);
      }
      if stored.InProgress? {
        return Conflict(hash);
      }
      if stored.Completed? {
        return Replayed(hash, stored.response);
      }
      record := Some(InProgress(hash));
      r := Executing(hash, None);
    }

    /** A success recorded by the executor is what every later request with the same hash gets. */
    method RecordThenCheck(hash: Hash, response: Response, later: Hash) returns (r: Request)
      modifies this
      ensures record == Some(Completed(hash, response))
      ensures r == if later == hash then Replayed(hash, response) else Tampered(later)
    {
      record := Some(Completed(hash, response));
      ghost var s := State(record, map[0 := Arrived(later)]);
      r := CheckOrAcquire(later, false);
      assert Apply(s, CheckAtomically(0)).requests[0] == r;
    }
  }
}
