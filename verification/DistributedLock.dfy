/**
 The Redis lock as a protocol: any number of clients run `acquire_multiple` against one key store.
 Every Redis command is one atomic step; time passes in milliseconds and may expire keys between
 any two steps.
 */
module DistributedLock {
  import opened Orders

  type Client = nat
  type Token = nat

  const PREFIX := "lock:"

  function LockKey(resource: string): string {
    if PREFIX <= resource then resource else PREFIX + resource
  }

  /** A stored key: SET key token NX PX ttl. */
  datatype Cell = Cell(token: Token, expiry: int)

  datatype Phase = Idle | Acquiring | Holding | Releasing

  /**
   One client: the sorted resources it asked for, what it has acquired so far with which token,
   the token of the running `acquire`, and the tokens it has lost track of while they were stored.
   */
  datatype ClientState = ClientState(
    phase: Phase, keys: seq<string>, acquired: seq<(string, Token)>, token: Token, ttl: int, stray: set<Token>)

  /** The history of a successful SET. */
  datatype Grant = Grant(client: Client, key: string, expiry: int, released: bool)

  datatype State = State(
    now: int,
    store: map<string, Cell>,
    clients: map<Client, ClientState>,
    grants: map<Token, Grant>,
    issued: set<Token>)

  datatype Step =
    | Start(client: Client, resources: set<string>, ttlSeconds: int, token: Token)
    | TrySet(client: Client, nextToken: Token)
    | SetRaises(client: Client, applied: bool)
    | TimedOut(client: Client)
    | Leave(client: Client)
    | Release(client: Client, raised: bool)
    | Tick(ms: nat)

  const NEW_CLIENT := ClientState(Idle, [], [], 0, 0, {})

  function Get(s: State, c: Client): ClientState {
    if c in s.clients then s.clients[c] else NEW_CLIENT
  }

  ghost predicate Live(s: State, key: string) {
    key in s.store && s.now < s.store[key].expiry
  }

  ghost predicate Enabled(s: State, step: Step) {
    match step
    case Start(c, resources, ttl, t) => Get(s, c).phase.Idle? && t !in s.issued
    case TrySet(c, t) => Get(s, c).phase.Acquiring? && |Get(s, c).acquired| < |Get(s, c).keys| && t !in s.issued
    case SetRaises(c, _) => Get(s, c).phase.Acquiring? && |Get(s, c).acquired| < |Get(s, c).keys|
    case TimedOut(c) => Get(s, c).phase.Acquiring?
    case Leave(c) => Get(s, c).phase.Holding?
    case Release(c, raised) => Get(s, c).phase.Releasing?
    case Tick(ms) => true
  }

  function TtlMs(ttlSeconds: int): int {
    if ttlSeconds * 1000 < 100 then 100 else ttlSeconds * 1000
  }

  /** A lock lives for its time to live in milliseconds, and for no less than 100. */
  lemma TtlIs(ttlSeconds: int)
    ensures TtlMs(ttlSeconds) >= 100 && TtlMs(ttlSeconds) >= 1000 * ttlSeconds
    ensures TtlMs(ttlSeconds) == 100 || TtlMs(ttlSeconds) == 1000 * ttlSeconds
  {}

  ghost function SortedNames(resources: set<string>): (keys: seq<string>)
    ensures Sorted(keys, Lexicographic) && forall r :: r in keys <==> r in resources
    ensures |keys| == |resources|
  {
    LexicographicIsStrictTotal();
    Ascending(resources, Lexicographic)
  }

  ghost function Update(s: State, c: Client, cs: ClientState): State {
    s.(clients := s.clients[c := cs])
  }

  ghost function ApplyStart(s: State, c: Client, resources: set<string>, ttlSeconds: int, t: Token): State {
    var keys := SortedNames(resources);
    var phase := if keys == [] then Holding else Acquiring;
    Update(s, c, ClientState(phase, keys, [], t, TtlMs(ttlSeconds), Get(s, c).stray)).(issued := s.issued + {t})
  }

  /** SET key token NX PX ttl: on success the next `acquire` starts with a token of its own. */
  ghost function ApplyTrySet(s: State, c: Client, nextToken: Token): State
    requires |Get(s, c).acquired| < |Get(s, c).keys|
  {
    var cs := Get(s, c);
    var resource := cs.keys[|cs.acquired|];
    var key := LockKey(resource);
    if Live(s, key) then s
    else
      var acquired := cs.acquired + [(resource, cs.token)];
      var phase := if |acquired| == |cs.keys| then Holding else Acquiring;
      Update(s, c, cs.(phase := phase, acquired := acquired, token := nextToken)).(
        store := s.store[key := Cell(cs.token, s.now + cs.ttl)],
        grants := s.grants[cs.token := Grant(c, key, s.now + cs.ttl, false)],
        issued := s.issued + {nextToken})
  }

  /** A SET whose call raises, applied by the store or not; either way the token is not noted. */
  ghost function ApplySetRaises(s: State, c: Client, applied: bool): State
    requires |Get(s, c).acquired| < |Get(s, c).keys|
  {
    var cs := Get(s, c);
    var key := LockKey(cs.keys[|cs.acquired|]);
    if !applied || Live(s, key) then Update(s, c, cs.(phase := Releasing))
    else
      Update(s, c, cs.(phase := Releasing, stray := cs.stray + {cs.token})).(
        store := s.store[key := Cell(cs.token, s.now + cs.ttl)],
        grants := s.grants[cs.token := Grant(c, key, s.now + cs.ttl, false)])
  }

  /** The lock to release next is still in place. */
  ghost predicate Releasable(s: State, c: Client) {
    var cs := Get(s, c);
    cs.acquired != [] &&
      var (resource, t) := cs.acquired[|cs.acquired| - 1];
      Live(s, LockKey(resource)) && s.store[LockKey(resource)].token == t && t in s.grants
  }

  /** The release script for the lock acquired last; `raised` is an error before the store applied it. */
  ghost function ApplyRelease(s: State, c: Client, raised: bool): State {
    var cs := Get(s, c);
    if cs.acquired == [] then Update(s, c, cs.(phase := Idle))
    else
      var (resource, t) := cs.acquired[|cs.acquired| - 1];
      var shorter := cs.(acquired := cs.acquired[..|cs.acquired| - 1]);
      if !Releasable(s, c) then Update(s, c, shorter)
      else if raised then Update(s, c, shorter.(stray := cs.stray + {t}))
      else Update(s, c, shorter).(store := s.store - {LockKey(resource)}, grants := s.grants[t := s.grants[t].(released := true)])
  }

  ghost function Apply(s: State, step: Step): State
    requires Enabled(s, step)
  {
    match step
    case Start(c, resources, ttl, t) => ApplyStart(s, c, resources, ttl, t)
    case TrySet(c, t) => ApplyTrySet(s, c, t)
    case SetRaises(c, applied) => ApplySetRaises(s, c, applied)
    case TimedOut(c) => Update(s, c, Get(s, c).(phase := Releasing))
    case Leave(c) => Update(s, c, Get(s, c).(phase := Releasing))
    case Release(c, raised) => ApplyRelease(s, c, raised)
    case Tick(ms) => s.(now := s.now + ms)
  }

  // ----- Invariants -----

  /** The store holds exactly the grants that were neither released nor have expired. */
  ghost predicate StoreMatchesGrants(s: State) {
    && (forall k :: k in s.store ==>
          && s.store[k].token in s.grants
          && s.grants[s.store[k].token].key == k
          && s.grants[s.store[k].token].expiry == s.store[k].expiry
          && !s.grants[s.store[k].token].released)
    && (forall t :: t in s.grants && !s.grants[t].released && s.now < s.grants[t].expiry ==>
          s.grants[t].key in s.store && s.store[s.grants[t].key].token == t)
  }

  ghost predicate TokensFresh(s: State) {
    && s.grants.Keys <= s.issued
    && (forall c :: Get(s, c).phase.Acquiring? ==> Get(s, c).token in s.issued && Get(s, c).token !in s.grants)
    && (forall c, d :: c != d && Get(s, c).phase.Acquiring? && Get(s, d).phase.Acquiring? ==>
          Get(s, c).token != Get(s, d).token)
  }

  /** A client has acquired its resources in sorted order, as a prefix of what it asked for. */
  ghost predicate InOrder(s: State, c: Client) {
    var cs := Get(s, c);
    && Sorted(cs.keys, Lexicographic)
    && |cs.acquired| <= |cs.keys|
    && (cs.phase.Acquiring? ==> |cs.acquired| < |cs.keys|)
    && (cs.phase.Idle? ==> cs.acquired == [])
    && (forall i :: 0 <= i < |cs.acquired| ==>
          && cs.acquired[i].0 == cs.keys[i]
          && cs.acquired[i].1 in s.grants
          && s.grants[cs.acquired[i].1].client == c
          && s.grants[cs.acquired[i].1].key == LockKey(cs.keys[i]))
  }

  /** Tokens are noted once, and those lost track of are neither noted nor released. */
  ghost predicate Tracked(s: State, c: Client) {
    var cs := Get(s, c);
    && (forall i, j :: 0 <= i < j < |cs.acquired| ==> cs.acquired[i].1 != cs.acquired[j].1)
    && (forall t :: t in cs.stray ==> t in s.grants && s.grants[t].client == c && !s.grants[t].released && !Listed(cs, t))
  }

  ghost predicate Listed(cs: ClientState, t: Token) {
    exists i :: 0 <= i < |cs.acquired| && cs.acquired[i].1 == t
  }

  /** A token in the store is one its owner has noted or lost track of. */
  ghost predicate Unwound(s: State) {
    forall k :: Live(s, k) && s.store[k].token in s.grants ==>
      var owner := Get(s, s.grants[s.store[k].token].client);
      Listed(owner, s.store[k].token) || s.store[k].token in owner.stray
  }

  ghost predicate Inv(s: State) {
    && StoreMatchesGrants(s)
    && TokensFresh(s)
    && (forall c :: InOrder(s, c) && Tracked(s, c))
    && Unwound(s)
  }

  ghost function Actor(step: Step): set<Client> {
    if step.Tick? then {} else {step.client}
  }

  /** A step changes the state of the client that takes it, and of no other. */
  lemma OthersUnchanged(s: State, step: Step)
    requires Enabled(s, step)
    ensures forall d :: d !in Actor(step) ==> Get(Apply(s, step), d) == Get(s, d)
  {}

  lemma StoreMatchesGrantsKept(s: State, step: Step)
    requires Inv(s) && Enabled(s, step)
    ensures StoreMatchesGrants(Apply(s, step))
  {
    hide Sorted, LockKey, Unwound, Tracked;
    if step.TrySet? || step.SetRaises? {
      SetMatchesGrants(s, step);
    }
  }

  lemma SetMatchesGrants(s: State, step: Step)
    requires Inv(s) && Enabled(s, step) && (step.TrySet? || step.SetRaises?)
    ensures StoreMatchesGrants(Apply(s, step))
  {
    hide Sorted, LockKey, Unwound, Tracked;
    assert InOrder(s, step.client) && Get(s, step.client).token !in s.grants;
  }

  lemma TokensFreshKept(s: State, step: Step)
    requires Inv(s) && Enabled(s, step)
    ensures TokensFresh(Apply(s, step))
  {
    var s' := Apply(s, step);
    OthersUnchanged(s, step);
    forall c | Get(s', c).phase.Acquiring? ensures Get(s', c).token in s'.issued && Get(s', c).token !in s'.grants {
      assert c !in Actor(step) ==> Get(s, c).phase.Acquiring?;
    }
    forall c, d | c != d && Get(s', c).phase.Acquiring? && Get(s', d).phase.Acquiring?
      ensures Get(s', c).token != Get(s', d).token
    {
      assert c !in Actor(step) ==> Get(s, c).phase.Acquiring?;
      assert d !in Actor(step) ==> Get(s, d).phase.Acquiring?;
    }
  }

  /** Grants are never forgotten; only the released mark of a grant can change. */
  lemma GrantsGrow(s: State, step: Step)
    requires Inv(s) && Enabled(s, step)
    ensures forall t :: t in s.grants ==>
              && t in Apply(s, step).grants
              && Apply(s, step).grants[t].client == s.grants[t].client
              && Apply(s, step).grants[t].key == s.grants[t].key
              && Apply(s, step).grants[t].expiry == s.grants[t].expiry
  {
    hide Sorted, LockKey, Unwound, Tracked, StoreMatchesGrants;
  }

  lemma InOrderTrySet(s: State, c: Client, t: Token)
    requires InOrder(s, c) && Get(s, c).phase.Acquiring? && |Get(s, c).acquired| < |Get(s, c).keys|
    requires Get(s, c).token !in s.grants
    ensures InOrder(ApplyTrySet(s, c, t), c)
  {}

  lemma InOrderKept(s: State, step: Step, c: Client)
    requires Inv(s) && Enabled(s, step)
    ensures InOrder(Apply(s, step), c)
  {
    hide Sorted, LockKey, Unwound, StoreMatchesGrants, Tracked;
    OthersUnchanged(s, step);
    GrantsGrow(s, step);
    assert InOrder(s, c);
    if step.TrySet? && step.client == c { InOrderTrySet(s, c, step.nextToken); }
  }

  lemma TrackedTrySet(s: State, c: Client, t: Token)
    requires InOrder(s, c) && Tracked(s, c) && |Get(s, c).acquired| < |Get(s, c).keys| && Get(s, c).token !in s.grants
    ensures Tracked(ApplyTrySet(s, c, t), c)
  {
    hide Sorted, LockKey;
    var cs, cs', s' := Get(s, c), Get(ApplyTrySet(s, c, t), c), ApplyTrySet(s, c, t);
    forall u | u in cs'.stray ensures u in s'.grants && s'.grants[u].client == c && !s'.grants[u].released && !Listed(cs', u) {
      assert u in cs.stray;
      forall i | 0 <= i < |cs'.acquired| ensures cs'.acquired[i].1 != u {
        assert i < |cs.acquired| ==> cs'.acquired[i] == cs.acquired[i];
      }
    }
  }

  lemma TrackedSetRaises(s: State, c: Client, applied: bool)
    requires InOrder(s, c) && Tracked(s, c) && |Get(s, c).acquired| < |Get(s, c).keys| && Get(s, c).token !in s.grants
    ensures Tracked(ApplySetRaises(s, c, applied), c)
  {
    hide Sorted, LockKey;
  }

  lemma TrackedRelease(s: State, c: Client, raised: bool)
    requires InOrder(s, c) && Tracked(s, c) && StoreMatchesGrants(s)
    ensures Tracked(ApplyRelease(s, c, raised), c)
  {
    hide Sorted, LockKey;
    var cs, cs', s' := Get(s, c), Get(ApplyRelease(s, c, raised), c), ApplyRelease(s, c, raised);
    assert forall i :: 0 <= i < |cs'.acquired| ==> cs'.acquired[i] == cs.acquired[i];
    forall u | u in cs'.stray ensures u in s'.grants && s'.grants[u].client == c && !s'.grants[u].released && !Listed(cs', u) {
      if u in cs.stray {
        assert !Listed(cs, u);
        assert forall i :: 0 <= i < |cs.acquired| ==> cs.acquired[i].1 != u;
      }
    }
  }

  /** Steps of others do not touch the tokens of a client. */
  lemma TrackedOthers(s: State, step: Step, c: Client)
    requires Inv(s) && Enabled(s, step) && c !in Actor(step)
    ensures Tracked(Apply(s, step), c)
  {
    hide Sorted, LockKey, Unwound;
    OthersUnchanged(s, step);
    var s', cs := Apply(s, step), Get(s, c);
    assert Tracked(s, c);
    forall t | t in cs.stray ensures t in s'.grants && s'.grants[t].client == c && !s'.grants[t].released {
      if step.Release? {
        assert InOrder(s, step.client);
      } else if step.TrySet? || step.SetRaises? {
        assert Get(s, step.client).token !in s.grants;
      }
    }
  }

  lemma TrackedKept(s: State, step: Step, c: Client)
    requires Inv(s) && Enabled(s, step)
    ensures Tracked(Apply(s, step), c)
  {
    hide Sorted, LockKey, Unwound, StoreMatchesGrants;
    assert InOrder(s, c) && Tracked(s, c);
    if c !in Actor(step) {
      TrackedOthers(s, step, c);
    } else if step.TrySet? {
      TrackedTrySet(s, c, step.nextToken);
    } else if step.SetRaises? {
      TrackedSetRaises(s, c, step.applied);
    } else if step.Release? {
      TrackedRelease(s, c, step.raised);
    } else {
      var cs, cs' := Get(s, c), Get(Apply(s, step), c);
      assert cs'.stray == cs.stray && (cs'.acquired == cs.acquired || cs'.acquired == []);
    }
  }

  lemma UnwoundKept(s: State, step: Step)
    requires Inv(s) && Enabled(s, step)
    ensures Unwound(Apply(s, step))
  {
    var s' := Apply(s, step);
    OthersUnchanged(s, step);
    GrantsGrow(s, step);
    forall k | Live(s', k) && s'.store[k].token in s'.grants
      ensures var owner := Get(s', s'.grants[s'.store[k].token].client);
              Listed(owner, s'.store[k].token) || s'.store[k].token in owner.stray
    {
      var t := s'.store[k].token;
      if k in s.store && s.store[k] == s'.store[k] {
        ListedKept(s, step, k);
      } else {
        assert step.TrySet? || step.SetRaises?;
        if step.TrySet? {
          var acquired := Get(s', step.client).acquired;
          assert acquired[|acquired| - 1].1 == t;
        }
      }
    }
  }

  lemma ListedAfterRelease(s: State, c: Client, raised: bool, k: string)
    requires InOrder(s, c) && Live(s, k) && Listed(Get(s, c), s.store[k].token)
    requires s.store[k].token in s.grants && s.grants[s.store[k].token].key == k
    requires k in ApplyRelease(s, c, raised).store
    ensures var cs := Get(ApplyRelease(s, c, raised), c);
            Listed(cs, s.store[k].token) || s.store[k].token in cs.stray
  {
    hide Sorted, LockKey;
    var t, cs, cs' := s.store[k].token, Get(s, c), Get(ApplyRelease(s, c, raised), c);
    var i :| 0 <= i < |cs.acquired| && cs.acquired[i].1 == t;
    assert LockKey(cs.acquired[i].0) == k;
    if i < |cs.acquired| - 1 { assert cs'.acquired[i].1 == t; }
  }

  lemma ListedKept(s: State, step: Step, k: string)
    requires Inv(s) && Enabled(s, step) && Live(s, k)
    requires k in Apply(s, step).store && Apply(s, step).store[k] == s.store[k]
    ensures var t := s.store[k].token;
            var owner := Get(Apply(s, step), s.grants[t].client);
            Listed(owner, t) || t in owner.stray
  {
    hide Sorted, LockKey, TokensFresh;
    var t := s.store[k].token;
    var c := s.grants[t].client;
    var cs, cs' := Get(s, c), Get(Apply(s, step), c);
    OthersUnchanged(s, step);
    assert InOrder(s, c);
    if Listed(cs, t) && c in Actor(step) {
      if step.Release? {
        ListedAfterRelease(s, c, step.raised, k);
      } else {
        ListedStays(s, step, c, t);
      }
    }
  }

  lemma ListedStays(s: State, step: Step, c: Client, t: Token)
    requires Enabled(s, step) && c in Actor(step) && !step.Release? && !step.Start? && Listed(Get(s, c), t)
    ensures Listed(Get(Apply(s, step), c), t)
  {
    hide LockKey;
    var cs, cs' := Get(s, c), Get(Apply(s, step), c);
    var i :| 0 <= i < |cs.acquired| && cs.acquired[i].1 == t;
    assert cs'.acquired[i].1 == t;
  }

  lemma InvKept(s: State, step: Step)
    requires Inv(s) && Enabled(s, step)
    ensures Inv(Apply(s, step))
  {
    StoreMatchesGrantsKept(s, step);
    TokensFreshKept(s, step);
    forall c ensures InOrder(Apply(s, step), c) && Tracked(Apply(s, step), c) {
      InOrderKept(s, step, c);
      TrackedKept(s, step, c);
    }
    UnwoundKept(s, step);
  }

  // ----- Runs -----

  ghost predicate Init(s: State) {
    s.store == map[] && s.clients == map[] && s.grants == map[] && s.issued == {}
  }

  /** A run in which clients only name resources from `names`. */
  ghost predicate Run(names: iset<string>, states: seq<State>, steps: seq<Step>) {
    && |states| == |steps| + 1
    && Init(states[0])
    && (forall i :: 0 <= i < |steps| ==> Enabled(states[i], steps[i]) && states[i + 1] == Apply(states[i], steps[i]))
    && (forall i :: 0 <= i < |steps| && steps[i].Start? ==> forall r :: r in steps[i].resources ==> r in names)
  }

  ghost predicate Named(names: iset<string>, s: State) {
    forall c, r :: r in Get(s, c).keys ==> r in names
  }

  lemma NamedKept(names: iset<string>, s: State, step: Step)
    requires Named(names, s) && Enabled(s, step)
    requires step.Start? ==> forall r :: r in step.resources ==> r in names
    ensures Named(names, Apply(s, step))
  {
    OthersUnchanged(s, step);
    forall c, r | r in Get(Apply(s, step), c).keys ensures r in names {
      if !(step.Start? && step.client == c) { assert r in Get(s, c).keys; }
    }
  }

  lemma {:induction false} RunInv(names: iset<string>, states: seq<State>, steps: seq<Step>, i: nat)
    requires Run(names, states, steps) && i < |states|
    ensures Inv(states[i]) && Named(names, states[i])
  {
    if i > 0 {
      RunInv(names, states, steps, i - 1);
      assert states[i - 1 + 1] == Apply(states[i - 1], steps[i - 1]);
      InvKept(states[i - 1], steps[i - 1]);
      NamedKept(names, states[i - 1], steps[i - 1]);
    }
  }

  // ----- Safety -----

  /** Two grants of one key that are both unreleased and unexpired are the same grant. */
  lemma MutualExclusion(names: iset<string>, states: seq<State>, steps: seq<Step>, i: nat, t: Token, u: Token)
    requires Run(names, states, steps) && i < |states|
    requires t in states[i].grants && u in states[i].grants && states[i].grants[t].key == states[i].grants[u].key
    requires !states[i].grants[t].released && states[i].now < states[i].grants[t].expiry
    requires !states[i].grants[u].released && states[i].now < states[i].grants[u].expiry
    ensures t == u
  {
    RunInv(names, states, steps, i);
  }

  /** A live lock survives every step except a release by the client that holds it. */
  lemma OnlyHolderReleases(s: State, step: Step, k: string)
    requires Inv(s) && Enabled(s, step) && Live(s, k)
    requires step.Release? ==> step.client != s.grants[s.store[k].token].client
    ensures k in Apply(s, step).store && Apply(s, step).store[k] == s.store[k]
    ensures !Apply(s, step).grants[s.store[k].token].released
  {
    if step.Release? { assert InOrder(s, step.client); }
    if step.TrySet? || step.SetRaises? { assert Get(s, step.client).token !in s.grants; }
  }

  lemma TimePasses(s: State, step: Step)
    requires Enabled(s, step)
    ensures s.now <= Apply(s, step).now
  {}

  /** From its SET until its expiry a token stays in place, unless its own client releases. */
  lemma {:induction false} HolderKeepsLock(
    names: iset<string>, states: seq<State>, steps: seq<Step>, i: nat, j: nat, k: string)
    requires Run(names, states, steps) && i <= j < |states|
    requires Live(states[i], k) && states[i].store[k].token in states[i].grants
    requires states[j].now < states[i].store[k].expiry
    requires forall m :: i <= m < j && steps[m].Release? ==>
                           steps[m].client != states[i].grants[states[i].store[k].token].client
    ensures Live(states[j], k) && states[j].store[k] == states[i].store[k]
    ensures states[i].store[k].token in states[j].grants
    ensures states[j].grants[states[i].store[k].token].client == states[i].grants[states[i].store[k].token].client
  {
    hide Inv, Apply, Enabled, Init, Named;
    if i < j {
      assert states[j - 1 + 1] == Apply(states[j - 1], steps[j - 1]);
      TimePasses(states[j - 1], steps[j - 1]);
      HolderKeepsLock(names, states, steps, i, j - 1, k);
      RunInv(names, states, steps, j - 1);
      GrantsGrow(states[j - 1], steps[j - 1]);
      OnlyHolderReleases(states[j - 1], steps[j - 1], k);
    }
  }

  /**
   The two ways to lose track of a stored token: a SET that was applied and raised, and a release
   that raised before it was applied, of a lock that was still in place.
   */
  ghost predicate LosesTrack(s: State, step: Step)
    requires Enabled(s, step)
  {
    match step
    case SetRaises(c, applied) => applied && !Live(s, LockKey(Get(s, c).keys[|Get(s, c).acquired|]))
    case Release(c, raised) => raised && Releasable(s, c)
    case _ => false
  }

  lemma StrayGrowsIff(s: State, step: Step, c: Client)
    requires Inv(s) && Enabled(s, step)
    ensures Get(s, c).stray <= Get(Apply(s, step), c).stray
    ensures Get(s, c).stray != Get(Apply(s, step), c).stray <==> c in Actor(step) && LosesTrack(s, step)
  {
    hide Sorted, LockKey, Unwound, StoreMatchesGrants;
    OthersUnchanged(s, step);
    assert InOrder(s, c) && Tracked(s, c);
    var cs := Get(s, c);
    if c in Actor(step) && LosesTrack(s, step) {
      var t := if step.SetRaises? then cs.token else cs.acquired[|cs.acquired| - 1].1;
      if step.Release? {
        assert Listed(cs, t);
      }
      assert t !in cs.stray && t in Get(Apply(s, step), c).stray;
    }
  }

  /** Outside its block a client still has a lock exactly when it has lost track of a token that has not expired. */
  lemma LeftBehindIff(names: iset<string>, states: seq<State>, steps: seq<Step>, i: nat, c: Client)
    requires Run(names, states, steps) && i < |states| && Get(states[i], c).phase.Idle?
    ensures (exists k :: HoldsKey(states[i], c, k)) <==> (exists t :: UnexpiredStray(states[i], c, t))
  {
    var s := states[i];
    RunInv(names, states, steps, i);
    assert InOrder(s, c) && Tracked(s, c);
    if k :| HoldsKey(s, c, k) {
      assert UnexpiredStray(s, c, s.store[k].token);
    }
    if t :| UnexpiredStray(s, c, t) {
      assert HoldsKey(s, c, s.grants[t].key);
    }
  }

  ghost predicate HoldsKey(s: State, c: Client, k: string) {
    Live(s, k) && s.store[k].token in s.grants && s.grants[s.store[k].token].client == c
  }

  ghost predicate UnexpiredStray(s: State, c: Client, t: Token) {
    t in Get(s, c).stray && t in s.grants && s.now < s.grants[t].expiry
  }

  lemma {:induction false} NoStray(names: iset<string>, states: seq<State>, steps: seq<Step>, i: nat, c: Client)
    requires Run(names, states, steps) && i < |states|
    requires forall j :: 0 <= j < i && c in Actor(steps[j]) ==> !LosesTrack(states[j], steps[j])
    ensures Get(states[i], c).stray == {}
  {
    if i > 0 {
      NoStray(names, states, steps, i - 1, c);
      RunInv(names, states, steps, i - 1);
      assert states[i - 1 + 1] == Apply(states[i - 1], steps[i - 1]);
      StrayGrowsIff(states[i - 1], steps[i - 1], c);
    }
  }

  /** A client that never lost track of a token has no lock outside its block. */
  lemma NothingLeftBehind(names: iset<string>, states: seq<State>, steps: seq<Step>, i: nat, c: Client, k: string)
    requires Run(names, states, steps) && i < |states| && Get(states[i], c).phase.Idle?
    requires forall j :: 0 <= j < i && c in Actor(steps[j]) ==> !LosesTrack(states[j], steps[j])
    ensures !HoldsKey(states[i], c, k)
  {
    NoStray(names, states, steps, i, c);
    LeftBehindIff(names, states, steps, i, c);
  }

  /** A SET that was applied although its call raised leaves a lock that nobody releases. */
  lemma AppliedSetIsLeft(name: string) returns (states: seq<State>, steps: seq<Step>)
    ensures Run(iset{name}, states, steps) && |states| > 0
    ensures var s := states[|states| - 1]; Get(s, 0).phase.Idle? && HoldsKey(s, 0, LockKey(name))
  {
    hide LockKey;
    var s0 := State(0, map[], map[], map[], {});
    var keys := SortedNames({name});
    assert |keys| == 1 && keys[0] == name by { assert name in keys; }
    steps := [Start(0, {name}, 10, 1), SetRaises(0, true), Release(0, false)];
    var s1 := Apply(s0, steps[0]);
    assert Get(s1, 0) == ClientState(Acquiring, keys, [], 1, 10000, {});
    var s2 := Apply(s1, steps[1]);
    assert Get(s2, 0) == ClientState(Releasing, keys, [], 1, 10000, {1});
    var s3 := Apply(s2, steps[2]);
    states := [s0, s1, s2, s3];
  }

  // ----- Circular waiting -----

  ghost predicate Waiting(s: State, c: Client) {
    Get(s, c).phase.Acquiring? && |Get(s, c).acquired| < |Get(s, c).keys|
  }

  ghost function Wanted(s: State, c: Client): string
    requires Waiting(s, c)
  {
    Get(s, c).keys[|Get(s, c).acquired|]
  }

  /** The SET that `c` retries keeps failing because of a lock that `d` holds. */
  ghost predicate WaitsFor(s: State, c: Client, d: Client) {
    && Waiting(s, c)
    && Live(s, LockKey(Wanted(s, c)))
    && Listed(Get(s, d), s.store[LockKey(Wanted(s, c))].token)
  }

  ghost predicate CircularWait(s: State, cs: seq<Client>) {
    && |cs| >= 2 && cs[0] == cs[|cs| - 1]
    && forall i, j :: 0 <= i && j == i + 1 < |cs| ==> WaitsFor(s, cs[i], cs[j])
  }

  ghost predicate OneNamePerKey(names: iset<string>) {
    forall a, b :: a in names && b in names && LockKey(a) == LockKey(b) ==> a == b
  }

  lemma WaitingAscends(names: iset<string>, s: State, c: Client, d: Client)
    requires Inv(s) && Named(names, s) && OneNamePerKey(names)
    requires WaitsFor(s, c, d) && Waiting(s, d)
    ensures Lexicographic(Wanted(s, c), Wanted(s, d))
  {
    var k, ds := LockKey(Wanted(s, c)), Get(s, d);
    var i :| 0 <= i < |ds.acquired| && ds.acquired[i].1 == s.store[k].token;
    assert InOrder(s, d);
    assert LockKey(ds.keys[i]) == k;
    assert ds.keys[i] in ds.keys && Wanted(s, c) in Get(s, c).keys;
  }

  lemma {:induction false} ChainAscends(names: iset<string>, s: State, cs: seq<Client>)
    requires Inv(s) && Named(names, s) && OneNamePerKey(names)
    requires |cs| >= 2 && Waiting(s, cs[|cs| - 1])
    requires forall i, j :: 0 <= i && j == i + 1 < |cs| ==> WaitsFor(s, cs[i], cs[j])
    ensures Waiting(s, cs[0]) && Lexicographic(Wanted(s, cs[0]), Wanted(s, cs[|cs| - 1]))
  {
    assert WaitsFor(s, cs[0], cs[1]);
    if |cs| > 2 {
      ChainAscends(names, s, cs[1..]);
      WaitingAscends(names, s, cs[0], cs[1]);
      LexicographicTransitive(Wanted(s, cs[0]), Wanted(s, cs[1]), Wanted(s, cs[|cs| - 1]));
    } else {
      WaitingAscends(names, s, cs[0], cs[1]);
    }
  }

  lemma NoCircularWait(names: iset<string>, states: seq<State>, steps: seq<Step>, i: nat, cs: seq<Client>)
    requires Run(names, states, steps) && i < |states| && OneNamePerKey(names)
    ensures !CircularWait(states[i], cs)
  {
    if CircularWait(states[i], cs) {
      RunInv(names, states, steps, i);
      assert WaitsFor(states[i], cs[0], cs[1]);
      ChainAscends(names, states[i], cs);
      LexicographicTrichotomy(Wanted(states[i], cs[0]), Wanted(states[i], cs[0]));
    }
  }

  /** A client that names one key twice takes the lock and then waits for itself. */
  lemma TwoNamesSelfWait(names: iset<string>, a: string, b: string)
    returns (states: seq<State>, steps: seq<Step>)
    requires a in names && b in names && a != b && LockKey(a) == LockKey(b)
    ensures Run(names, states, steps) && CircularWait(states[|states| - 1], [0, 0])
  {
    hide LockKey;
    var s0 := State(0, map[], map[], map[], {});
    var start := Start(0, {a, b}, 10, 1);
    var s1 := Apply(s0, start);
    var keys := SortedNames({a, b});
    TwoSorted(a, b);
    assert Get(s1, 0) == ClientState(Acquiring, keys, [], 1, 10000, {});
    var set1 := TrySet(0, 2);
    var s2 := Apply(s1, set1);
    assert LockKey(keys[0]) == LockKey(keys[1]);
    assert Get(s2, 0).acquired == [(keys[0], 1)];
    assert Get(s2, 0).acquired[0].1 == 1;
    WaitsForItself(s2, 0);
    TwoStepRun(names, s0, start, s1, set1, s2);
    states, steps := [s0, s1, s2], [start, set1];
  }

  lemma TwoStepRun(names: iset<string>, s0: State, first: Step, s1: State, second: Step, s2: State)
    requires Init(s0) && Enabled(s0, first) && s1 == Apply(s0, first) && Enabled(s1, second) && s2 == Apply(s1, second)
    requires !second.Start? && (first.Start? ==> forall r :: r in first.resources ==> r in names)
    ensures Run(names, [s0, s1, s2], [first, second])
  {
    hide Apply, Enabled, Init;
  }

  lemma WaitsForItself(s: State, c: Client)
    requires WaitsFor(s, c, c)
    ensures CircularWait(s, [c, c])
  {
    hide WaitsFor;
  }

  lemma TwoSorted(a: string, b: string)
    requires a != b
    ensures |SortedNames({a, b})| == 2
    ensures SortedNames({a, b})[0] in {a, b} && SortedNames({a, b})[1] in {a, b}
  {}

  ghost predicate EndsInCircularWait(states: seq<State>, cs: seq<Client>) {
    states != [] && CircularWait(states[|states| - 1], cs)
  }

  ghost predicate CanDeadlock(names: iset<string>) {
    exists states, steps, cs :: Run(names, states, steps) && EndsInCircularWait(states, cs)
  }

  /** Circular waiting is possible exactly when callers use two names for one key. */
  lemma DeadlockIffTwoNames(names: iset<string>)
    ensures CanDeadlock(names) <==> !OneNamePerKey(names)
  {
    if OneNamePerKey(names) {
      forall states, steps, cs | Run(names, states, steps) ensures !EndsInCircularWait(states, cs) {
        NoCircularWait(names, states, steps, |states| - 1, cs);
      }
    } else {
      var a, b :| a in names && b in names && LockKey(a) == LockKey(b) && a != b;
      var states, steps := TwoNamesSelfWait(names, a, b);
      assert EndsInCircularWait(states, [0, 0]);
    }
  }

  /** Using only plain names, or only names that carry the prefix, is enough. */
  lemma OneNamingForm(names: iset<string>)
    requires (forall n :: n in names ==> !(PREFIX <= n)) || (forall n :: n in names ==> PREFIX <= n)
    ensures OneNamePerKey(names)
  {
    forall a, b | a in names && b in names && LockKey(a) == LockKey(b) ensures a == b {
      assert (PREFIX + a)[|PREFIX|..] == a && (PREFIX + b)[|PREFIX|..] == b;
    }
  }
}
