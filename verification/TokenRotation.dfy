/**
 Refresh-token rotation.  A login opens a family with one active token; a refresh that presents
 the active token replaces it, one that presents another token of the family revokes the family.
 A refresh is two store operations, a read and then a write or a delete, so it is two steps here
 and requests of different threads interleave.
 */
module TokenRotation {
  import opened Wrappers

  type Id = nat

  datatype Token = Token(family: Id, jti: Id)

  /** The record kept per family. */
  datatype Family = Family(active: Id, role: string)

  /** A refresh between its read and its write. */
  datatype Pending = Pending(token: Token, read: Family)

  datatype Event =
    | Rotated(used: Token, next: Token, role: string)
    | Reused(token: Token)
    | LoggedOut(family: Id)
    | Expired(family: Id)

  datatype State = State(
    families: map<Id, Family>,
    pending: map<nat, Pending>,
    seen: map<Id, string>,
    issued: set<Token>,
    log: seq<Event>)

  datatype Step =
    | Login(family: Id, jti: Id, role: string)
    | Read(thread: nat, token: Token)
    | Finish(thread: nat, jti: Id)
    | Logout(token: Token)
    | Expire(family: Id)

  ghost predicate FreshJti(s: State, jti: Id) {
    forall t :: t in s.issued ==> t.jti != jti
  }

  /** Generated identifiers are new, and only issued tokens pass the signature check. */
  ghost predicate Enabled(s: State, step: Step) {
    match step
    case Login(f, jti, _) => f !in s.seen && FreshJti(s, jti)
    case Read(th, token) => th !in s.pending && token in s.issued
    case Finish(th, jti) => th in s.pending && FreshJti(s, jti)
    case Logout(token) => token in s.issued
    case Expire(f) => f in s.families
  }

  function Apply(s: State, step: Step): State {
    match step
    case Login(f, jti, role) =>
      s.(families := s.families[f := Family(jti, role)], seen := s.seen[f := role],
         issued := s.issued + {Token(f, jti)})
    case Read(th, token) =>
      if token.family !in s.families then s
      else s.(pending := s.pending[th := Pending(token, s.families[token.family])])
    case Finish(th, jti) =>
      if th !in s.pending then s
      else
        var p := s.pending[th];
        var f := p.token.family;
        var done := s.(pending := s.pending - {th});
        if p.token.jti != p.read.active then
          done.(families := s.families - {f}, log := s.log + [Reused(p.token)])
        else
          var t := Token(f, jti);
          done.(families := s.families[f := p.read.(active := jti)], issued := s.issued + {t},
                log := s.log + [Rotated(p.token, t, p.read.role)])
    case Logout(token) =>
      s.(families := s.families - {token.family}, log := s.log + [LoggedOut(token.family)])
    case Expire(f) =>
      s.(families := s.families - {f}, log := s.log + [Expired(f)])
  }

  ghost predicate Run(s: State, steps: seq<Step>, end: State)
    decreases |steps|
  {
    if steps == [] then s == end
    else Enabled(s, steps[0]) && Run(Apply(s, steps[0]), steps[1..], end)
  }

  function Initial(): State {
    State(map[], map[], map[], {}, [])
  }

  predicate Ends(e: Event, f: Id) {
    match e
    case Rotated(_, _, _) => false
    case Reused(t) => t.family == f
    case LoggedOut(g) => g == f
    case Expired(g) => g == f
  }

  predicate Uses(e: Event, token: Token) {
    e.Rotated? && e.used == token
  }

  /** What the service promises: no token is rotated twice, and nothing happens to a family after its end. */
  ghost predicate SafeLog(log: seq<Event>) {
    && (forall i, j :: 0 <= i < j < |log| && log[i].Rotated? && log[j].Rotated? ==> log[i].used.jti != log[j].used.jti)
    && (forall i, j, f :: 0 <= i < j < |log| && Ends(log[i], f) && log[j].Rotated? ==> log[j].used.family != f)
  }

  // ----- What every step keeps -----

  ghost predicate Matched(p: Pending) {
    p.token.jti == p.read.active
  }

  ghost predicate Active(s: State, token: Token) {
    token.family in s.families && s.families[token.family].active == token.jti
  }

  /** A refresh that read its token as the active one writes while it still is. */
  ghost predicate Timely(s: State, step: Step) {
    step.Finish? && step.thread in s.pending && Matched(s.pending[step.thread]) ==>
      Active(s, s.pending[step.thread].token)
  }

  ghost predicate TimelyRun(s: State, steps: seq<Step>)
    decreases |steps|
  {
    steps != [] ==> Timely(s, steps[0]) && TimelyRun(Apply(s, steps[0]), steps[1..])
  }

  ghost predicate TokensKnown(s: State) {
    && (forall t :: t in s.issued ==> t.family in s.seen)
    && (forall t, u :: t in s.issued && u in s.issued && t.jti == u.jti ==> t == u)
    && (forall f :: f in s.families ==>
          && f in s.seen && s.families[f].role == s.seen[f]
          && Token(f, s.families[f].active) in s.issued)
  }

  /** The active token has not been rotated away, and an ended family is gone. */
  ghost predicate LogMatches(s: State) {
    && (forall i :: 0 <= i < |s.log| && s.log[i].Rotated? ==>
          && s.log[i].used in s.issued && !Active(s, s.log[i].used)
          && s.log[i].used.family in s.seen && s.log[i].role == s.seen[s.log[i].used.family])
    && (forall i, f :: 0 <= i < |s.log| && Ends(s.log[i], f) ==> f in s.seen && f !in s.families)
  }

  ghost predicate Spent(log: seq<Event>, token: Token) {
    exists i :: 0 <= i < |log| && (Uses(log[i], token) || Ends(log[i], token.family))
  }

  /** A token read as the active one is still active, or was rotated or its family ended since. */
  ghost predicate PendingExplained(s: State) {
    forall th :: th in s.pending ==>
      && s.pending[th].token in s.issued
      && s.pending[th].token.family in s.seen && s.pending[th].read.role == s.seen[s.pending[th].token.family]
      && (Matched(s.pending[th]) ==> Active(s, s.pending[th].token) || Spent(s.log, s.pending[th].token))
  }

  ghost predicate Inv(s: State) {
    TokensKnown(s) && LogMatches(s) && PendingExplained(s) && SafeLog(s.log)
  }

  lemma TokensKept(s: State, step: Step)
    requires Inv(s) && Enabled(s, step) && Timely(s, step)
    ensures TokensKnown(Apply(s, step))
  {
    hide SafeLog, LogMatches;
  }

  lemma LogKeptByFinish(s: State, thread: nat, jti: Id)
    requires Inv(s) && Enabled(s, Finish(thread, jti)) && Timely(s, Finish(thread, jti))
    ensures LogMatches(Apply(s, Finish(thread, jti)))
  {
    hide SafeLog, Spent;
    var after := Apply(s, Finish(thread, jti));
    assert forall i :: 0 <= i < |s.log| ==> after.log[i] == s.log[i];
  }

  lemma LogKept(s: State, step: Step)
    requires Inv(s) && Enabled(s, step) && Timely(s, step)
    ensures LogMatches(Apply(s, step))
  {
    hide SafeLog, Spent;
    if step.Finish? {
      hide *;
      LogKeptByFinish(s, step.thread, step.jti);
    }
  }

  lemma SpentStays(log: seq<Event>, more: seq<Event>, token: Token)
    requires log <= more && Spent(log, token)
    ensures Spent(more, token)
  {
    var i :| 0 <= i < |log| && (Uses(log[i], token) || Ends(log[i], token.family));
    assert more[i] == log[i];
  }

  /** A step that makes an active token inactive logs why. */
  lemma InactiveIsSpent(s: State, step: Step, token: Token)
    requires Enabled(s, step) && Timely(s, step) && Active(s, token) && token in s.issued && TokensKnown(s)
    ensures Active(Apply(s, step), token) || Spent(Apply(s, step).log, token)
  {
    var after := Apply(s, step);
    if |after.log| > |s.log| {
      var e := after.log[|s.log|];
      assert Uses(e, token) || Ends(e, token.family) || Active(after, token);
    }
  }

  lemma PendingKept(s: State, step: Step)
    requires Inv(s) && Enabled(s, step) && Timely(s, step)
    ensures PendingExplained(Apply(s, step))
  {
    hide SafeLog, LogMatches, Spent;
    var after := Apply(s, step);
    forall th | th in after.pending && Matched(after.pending[th])
      ensures Active(after, after.pending[th].token) || Spent(after.log, after.pending[th].token)
    {
      var token := after.pending[th].token;
      if th in s.pending && after.pending[th] == s.pending[th] {
        if Spent(s.log, token) {
          SpentStays(s.log, after.log, token);
        } else {
          InactiveIsSpent(s, step, token);
        }
      }
    }
  }

  /** A rotation is safe to log exactly when its token was never used and its family has not ended. */
  lemma SafeAppendIff(log: seq<Event>, e: Event)
    requires SafeLog(log)
    ensures SafeLog(log + [e]) <==>
            (e.Rotated? ==> forall i :: 0 <= i < |log| ==>
                              && (log[i].Rotated? ==> log[i].used.jti != e.used.jti)
                              && !Ends(log[i], e.used.family))
  {
    var all := log + [e];
    assert all[|log|] == e && forall i :: 0 <= i < |log| ==> all[i] == log[i];
  }

  /** A step keeps the promise exactly when it is not a late write. */
  lemma SafeKeptIff(s: State, step: Step)
    requires Inv(s) && Enabled(s, step)
    ensures SafeLog(Apply(s, step).log) <==> Timely(s, step)
  {
    hide SafeLog;
    var log := Apply(s, step).log;
    if |s.log| < |log| {
      SafeAppendIff(s.log, log[|s.log|]);
    }
  }

  lemma InvKept(s: State, step: Step)
    requires Inv(s) && Enabled(s, step) && Timely(s, step)
    ensures Inv(Apply(s, step))
  {
    hide TokensKnown, LogMatches, PendingExplained, SafeLog, Apply, Enabled, Timely;
    TokensKept(s, step);
    LogKept(s, step);
    PendingKept(s, step);
    SafeKeptIff(s, step);
  }

  // ----- Whole runs -----

  lemma {:induction false} LogGrows(s: State, steps: seq<Step>, end: State)
    requires Run(s, steps, end)
    ensures s.log <= end.log
    decreases |steps|
  {
    if steps != [] {
      LogGrows(Apply(s, steps[0]), steps[1..], end);
    }
  }

  lemma SafePrefix(log: seq<Event>, more: seq<Event>)
    requires log <= more && SafeLog(more)
    ensures SafeLog(log)
  {
    assert forall i :: 0 <= i < |log| ==> more[i] == log[i];
  }

  /** Over every interleaving: the promise is kept if and only if no refresh writes late. */
  lemma {:induction false} RunSafeIff(s: State, steps: seq<Step>, end: State)
    requires Inv(s) && Run(s, steps, end)
    ensures SafeLog(end.log) <==> TimelyRun(s, steps)
    ensures TimelyRun(s, steps) ==> Inv(end)
    decreases |steps|
  {
    hide Inv, Enabled, Apply, SafeLog, Timely;
    if steps == [] {
      InvIsSafe(s);
    } else {
      var next := Apply(s, steps[0]);
      SafeKeptIff(s, steps[0]);
      if Timely(s, steps[0]) {
        InvKept(s, steps[0]);
        RunSafeIff(next, steps[1..], end);
      } else if SafeLog(end.log) {
        LogGrows(next, steps[1..], end);
        SafePrefix(next.log, end.log);
      }
    }
  }

  lemma InvIsSafe(s: State)
    requires Inv(s)
    ensures SafeLog(s.log)
  {}

  lemma Start()
    ensures Inv(Initial())
  {}

  // ----- What the service promises -----

  /** A refresh token succeeds at most once. */
  lemma EachTokenSucceedsOnce(steps: seq<Step>, end: State, i: nat, j: nat)
    requires Run(Initial(), steps, end) && TimelyRun(Initial(), steps)
    requires i < j < |end.log| && end.log[i].Rotated? && end.log[j].Rotated?
    ensures end.log[i].used != end.log[j].used
  {
    RunSafeIff(Initial(), steps, end);
  }

  /** No token of a family succeeds after a reuse, a logout or the expiry. */
  lemma EndedFamilyStaysEnded(steps: seq<Step>, end: State, i: nat, j: nat, f: Id)
    requires Run(Initial(), steps, end) && TimelyRun(Initial(), steps)
    requires i < j < |end.log| && Ends(end.log[i], f) && end.log[j].Rotated?
    ensures end.log[j].used.family != f
  {
    RunSafeIff(Initial(), steps, end);
  }

  /** The role in every access token a family yields is the role its login granted. */
  lemma RoleIsTheLoginRole(steps: seq<Step>, end: State, i: nat)
    requires Run(Initial(), steps, end) && TimelyRun(Initial(), steps)
    requires i < |end.log| && end.log[i].Rotated?
    ensures end.log[i].used.family in end.seen && end.log[i].role == end.seen[end.log[i].used.family]
  {
    RunSafeIff(Initial(), steps, end);
  }

  // ----- Excluding refreshes of one family is enough -----

  /** No refresh of the family is between its read and its write. */
  ghost predicate Quiet(s: State, f: Id) {
    forall th :: th in s.pending ==> s.pending[th].token.family != f
  }

  ghost predicate Exclusive(s: State, step: Step) {
    match step
    case Login(_, _, _) => true
    case Read(_, token) => Quiet(s, token.family)
    case Finish(_, _) => true
    case Logout(token) => Quiet(s, token.family)
    case Expire(f) => Quiet(s, f)
  }

  ghost predicate ExclusiveRun(s: State, steps: seq<Step>)
    decreases |steps|
  {
    steps != [] ==> Exclusive(s, steps[0]) && ExclusiveRun(Apply(s, steps[0]), steps[1..])
  }

  /** Pending refreshes are of different families and have read what is still stored. */
  ghost predicate PendingCurrent(s: State) {
    && (forall th :: th in s.pending ==>
          && s.pending[th].token.family in s.families
          && s.families[s.pending[th].token.family] == s.pending[th].read)
    && (forall th, ti :: th in s.pending && ti in s.pending && s.pending[th].token.family == s.pending[ti].token.family ==>
          th == ti)
    && (forall f :: f in s.families ==> f in s.seen)
  }

  lemma CurrentKeptByFinish(s: State, thread: nat, jti: Id)
    requires PendingCurrent(s) && thread in s.pending
    ensures PendingCurrent(Apply(s, Finish(thread, jti)))
  {
    var f, after := s.pending[thread].token.family, Apply(s, Finish(thread, jti));
    assert forall th :: th in after.pending ==>
             th in s.pending && after.pending[th] == s.pending[th] && s.pending[th].token.family != f;
    assert forall g :: g != f && g in s.families ==> g in after.families && after.families[g] == s.families[g];
  }

  lemma CurrentKept(s: State, step: Step)
    requires PendingCurrent(s) && Enabled(s, step) && Exclusive(s, step)
    ensures Timely(s, step) && PendingCurrent(Apply(s, step))
  {
    if step.Finish? {
      CurrentKeptByFinish(s, step.thread, step.jti);
    }
  }

  lemma {:induction false} ExclusiveIsTimely(s: State, steps: seq<Step>, end: State)
    requires PendingCurrent(s) && Run(s, steps, end) && ExclusiveRun(s, steps)
    ensures TimelyRun(s, steps)
    decreases |steps|
  {
    hide PendingCurrent, Enabled, Exclusive, Apply, Timely;
    if steps != [] {
      CurrentKept(s, steps[0]);
      ExclusiveIsTimely(Apply(s, steps[0]), steps[1..], end);
    }
  }

  /** One whole refresh. */
  function Refresh(s: State, thread: nat, token: Token, jti: Id): State {
    Apply(Apply(s, Read(thread, token)), Finish(thread, jti))
  }

  ghost predicate Refreshed(s: State, after: State) {
    |after.log| == |s.log| + 1 && after.log[|s.log|].Rotated?
  }

  /** A refresh succeeds exactly when its token is the active one; otherwise the family is gone afterwards. */
  lemma RefreshSucceedsIff(steps: seq<Step>, s: State, thread: nat, token: Token, jti: Id)
    requires Run(Initial(), steps, s) && TimelyRun(Initial(), steps) && Enabled(s, Read(thread, token))
    ensures var after := Refresh(s, thread, token, jti);
            && (Refreshed(s, after) <==> Active(s, token))
            && (Refreshed(s, after) ==> !Spent(s.log, token))
            && (!Refreshed(s, after) ==> token.family !in after.families)
  {
    RunSafeIff(Initial(), steps, s);
  }

  /** Presenting a token that was already rotated ends its family. */
  lemma StaleTokenEndsFamily(steps: seq<Step>, s: State, i: nat, thread: nat, token: Token, jti: Id)
    requires Run(Initial(), steps, s) && TimelyRun(Initial(), steps)
    requires i < |s.log| && Uses(s.log[i], token) && thread !in s.pending
    ensures !Refreshed(s, Refresh(s, thread, token, jti))
    ensures token.family !in Refresh(s, thread, token, jti).families
  {
    RunSafeIff(Initial(), steps, s);
    RefreshSucceedsIff(steps, s, thread, token, jti);
  }

  // ----- Late writes -----

  lemma {:induction false} Extend(s: State, steps: seq<Step>, end: State, step: Step) returns (steps': seq<Step>, end': State)
    requires Run(s, steps, end) && Enabled(end, step)
    ensures steps' == steps + [step] && end' == Apply(end, step) && Run(s, steps', end')
    decreases |steps|
  {
    steps', end' := steps + [step], Apply(end, step);
    if steps == [] {
      assert steps'[1..] == [] && Run(end', [], end');
    } else {
      assert steps'[1..] == steps[1..] + [step];
      var more, last := Extend(Apply(s, steps[0]), steps[1..], end, step);
    }
  }

  lemma NoSteps(s: State)
    ensures Run(s, [], s)
  {}

  /** A login and the first half of a refresh with its token. */
  lemma OneRefreshHasRead(role: string) returns (steps: seq<Step>, s: State)
    ensures Run(Initial(), steps, s) && s.log == [] && s.families == map[1 := Family(2, role)] && s.issued == {Token(1, 2)}
    ensures s.pending == map[0 := Pending(Token(1, 2), Family(2, role))]
  {
    hide Run;
    NoSteps(Initial());
    steps, s := Extend(Initial(), [], Initial(), Login(1, 2, role));
    steps, s := Extend(Initial(), steps, s, Read(0, Token(1, 2)));
  }

  /** A second refresh that reads before the first one writes: the token succeeds twice. */
  lemma InterleavedRefreshSucceedsTwice(role: string) returns (steps: seq<Step>, end: State)
    ensures Run(Initial(), steps, end) && |end.log| == 2
    ensures Uses(end.log[0], Token(1, 2)) && Uses(end.log[1], Token(1, 2)) && !SafeLog(end.log)
  {
    hide Run;
    steps, end := OneRefreshHasRead(role);
    steps, end := Extend(Initial(), steps, end, Read(1, Token(1, 2)));
    steps, end := Extend(Initial(), steps, end, Finish(0, 3));
    assert end.issued == {Token(1, 2), Token(1, 3)};
    steps, end := Extend(Initial(), steps, end, Finish(1, 4));
    assert end.log[0].used.jti == end.log[1].used.jti;
  }

  /** A logout between the read and the write of a refresh is undone by the write. */
  lemma InterleavedLogoutIsUndone(role: string) returns (steps: seq<Step>, end: State)
    ensures Run(Initial(), steps, end) && |end.log| == 2
    ensures Ends(end.log[0], 1) && 1 in end.families && !SafeLog(end.log)
  {
    hide Run;
    steps, end := OneRefreshHasRead(role);
    steps, end := Extend(Initial(), steps, end, Logout(Token(1, 2)));
    steps, end := Extend(Initial(), steps, end, Finish(0, 3));
    assert Ends(end.log[0], 1) && end.log[1].used.family == 1;
  }

  // ----- The service -----

  /** The claims of a decoded refresh token; a missing or empty claim is None. */
  datatype Claims = Claims(family: Option<Id>, jti: Option<Id>)

  datatype Refreshing = Undecodable | Malformed | Revoked | ReuseDetected | Tokens(token: Token, role: string)

  class AuthService {
    var families: map<Id, Family>

    constructor ()
      ensures families == Initial().families
    {
      families := map[];
    }

    /** `login` once the credentials are accepted; the identifiers are freshly generated. */
    method Login(role: string, familyId: Id, jti: Id) returns (token: Token)
      modifies this
      ensures token == Token(familyId, jti) && families == old(families)[familyId := Family(jti, role)]
      ensures forall s: State :: s.families == old(families) ==> families == Apply(s, Step.Login(familyId, jti, role)).families
    {
      families := families[familyId := Family(jti, role)];
      token := Token(familyId, jti);
    }

    /** `refresh_tokens`; None is a token that does not decode. */
    method RefreshTokens(claims: Option<Claims>, newJti: Id) returns (r: Refreshing)
      modifies this
      ensures r.Undecodable? <==> claims.None?
      ensures r.Malformed? <==> claims.Some? && (claims.value.family.None? || claims.value.jti.None?)
      ensures r.Undecodable? || r.Malformed? ==> families == old(families)
      ensures !r.Undecodable? && !r.Malformed? ==>
                var token := Token(claims.value.family.value, claims.value.jti.value);
                && (r.Revoked? <==> token.family !in old(families))
                && (r.ReuseDetected? <==> token.family in old(families) && old(families)[token.family].active != token.jti)
                && (r.ReuseDetected? ==> families == old(families) - {token.family})
                && (r.Revoked? ==> families == old(families))
                && (r.Tokens? ==>
                      && r.token == Token(token.family, newJti) && r.role == old(families)[token.family].role
                      && families == old(families)[token.family := Family(newJti, r.role)])
                && forall s: State :: s.families == old(families) && s.pending == map[] ==>
                     var after := Refresh(s, 0, token, newJti);
                     && families == after.families
                     && (r.Tokens? <==> Refreshed(s, after))
                     && (r.Tokens? ==> after.log == s.log + [Rotated(token, r.token, r.role)])
    {
      if claims.None? {
        return Undecodable;
      }
      if claims.value.family.None? || claims.value.jti.None? {
        return Malformed;
      }
      var familyId, incoming := claims.value.family.value, claims.value.jti.value;
      if familyId !in families {
        return Revoked;
      }
      var state := families[familyId];
      if incoming != state.active {
        families := families - {familyId};
        return ReuseDetected;
      }
      families := families[familyId := state.(active := newJti)];
      r := Tokens(Token(familyId, newJti), state.role);
    }

    /** `logout`; an undecodable token or one without a family changes nothing. */
    method Logout(claims: Option<Claims>)
      modifies this
      ensures families == if claims.Some? && claims.value.family.Some? then old(families) - {claims.value.family.value}
                          else old(families)
    {
      if claims.Some? && claims.value.family.Some? {
        families := families - {claims.value.family.value};
      }
    }
  }
}
