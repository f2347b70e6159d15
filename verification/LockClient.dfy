/**
 One client's code around the lock store: the retry loop, the loop over sorted names, and the
 reverse unwinding.  Before each of its commands anything may happen to the store: keys expire,
 and other clients come and go, with tokens of their own.
 */
module LockClient {
  import opened Orders
  import opened DistributedLock
  import OrderedMap

  type Store = map<string, Token>

  /** What happens between two commands: keys that expire, and everything other clients then hold. */
  datatype Change = Change(foreign: Store, expired: set<string>)

  /** Other clients cannot take a key that this client still holds. */
  function Disturb(own: Token -> bool, store: Store, c: Change): Store {
    c.foreign + map key | key in store && own(store[key]) && key !in c.expired :: store[key]
  }

  ghost predicate NoneOwn(own: Token -> bool, store: Store) {
    forall key :: key in store ==> !own(store[key])
  }

  /** The client's tokens in the store are among the locks it has noted, or it has lost track of them. */
  ghost predicate Noted(own: Token -> bool, store: Store, locks: seq<(string, Token)>, stray: set<Token>) {
    forall key :: key in store && own(store[key]) && store[key] !in stray ==>
      exists i :: 0 <= i < |locks| && LockKey(locks[i].0) == key && locks[i].1 == store[key]
  }

  lemma DisturbedStillNoted(own: Token -> bool, store: Store, c: Change, locks: seq<(string, Token)>, stray: set<Token>)
    requires Noted(own, store, locks, stray) && NoneOwn(own, c.foreign)
    ensures Noted(own, Disturb(own, store, c), locks, stray)
  {
    var after := Disturb(own, store, c);
    forall key | key in after && own(after[key]) && after[key] !in stray
      ensures exists i :: 0 <= i < |locks| && LockKey(locks[i].0) == key && locks[i].1 == after[key]
    {
      assert key in store && store[key] == after[key];
    }
  }

  lemma NotedAfterSet(
    own: Token -> bool, store: Store, name: string, token: Token, locks: seq<(string, Token)>, stray: set<Token>)
    requires Noted(own, store, locks, stray)
    ensures Noted(own, store[LockKey(name) := token], locks + [(name, token)], stray)
    ensures Noted(own, store[LockKey(name) := token], locks, stray + {token})
  {
    var all, after := locks + [(name, token)], store[LockKey(name) := token];
    forall key | key in after && own(after[key]) && after[key] !in stray
      ensures exists i :: 0 <= i < |all| && LockKey(all[i].0) == key && all[i].1 == after[key]
    {
      if key == LockKey(name) {
        assert all[|locks|] == (name, token);
      } else {
        var i :| 0 <= i < |locks| && LockKey(locks[i].0) == key && locks[i].1 == store[key];
        assert all[i] == locks[i];
      }
    }
  }

  /** Releasing the lock noted last, or losing track of it, leaves only the locks noted before it. */
  lemma NotedAfterRelease(
    own: Token -> bool, store: Store, after: Store, locks: seq<(string, Token)>, stray: set<Token>, stray': set<Token>)
    requires locks != [] && Noted(own, store, locks, stray) && stray <= stray'
    requires forall key :: key in after ==> key in store && after[key] == store[key]
    requires var (name, token) := locks[|locks| - 1];
             LockKey(name) in after && after[LockKey(name)] == token ==> token in stray'
    ensures Noted(own, after, locks[..|locks| - 1], stray')
  {
    var rest := locks[..|locks| - 1];
    forall key | key in after && own(after[key]) && after[key] !in stray'
      ensures exists i :: 0 <= i < |rest| && LockKey(rest[i].0) == key && rest[i].1 == after[key]
    {
      var i :| 0 <= i < |locks| && LockKey(locks[i].0) == key && locks[i].1 == store[key];
      assert i < |rest| && rest[i] == locks[i];
    }
  }

  ghost function TokensOf(locks: seq<(string, Token)>): set<Token> {
    set l | l in locks :: l.1
  }

  /** The tokens generated for the first `n` names. */
  ghost function Tokens(tokens: nat -> Token, n: nat): set<Token> {
    set i: nat | i < n :: tokens(i)
  }

  lemma TokensOfLocks(locks: seq<(string, Token)>, tokens: nat -> Token, n: nat)
    requires |locks| <= n && forall i :: 0 <= i < |locks| ==> locks[i].1 == tokens(i)
    ensures TokensOf(locks) <= Tokens(tokens, n)
    ensures |locks| < n ==> tokens(|locks|) in Tokens(tokens, n)
  {
    forall l | l in locks ensures l.1 in Tokens(tokens, n) {
      var i :| 0 <= i < |locks| && locks[i] == l;
      assert l.1 == tokens(i);
    }
  }

  /** How a call to the store turns out: it can raise, whether the command was applied or not. */
  datatype Fate = Answered | RaisedApplied | RaisedUnapplied

  datatype Reply = Taken | Busy | SetRaised

  datatype Exit = Normal | BodyRaised | Refused | Failed

  class LockManager {
    const own: Token -> bool
    /** What the world does before the n-th command, and how that command turns out. */
    const world: nat -> Change
    const fate: nat -> Fate
    var store: Store
    var commands: nat
    /** Tokens that were stored when the client lost track of them. */
    ghost var stray: set<Token>

    constructor (own: Token -> bool, world: nat -> Change, fate: nat -> Fate, store: Store)
      ensures this.own == own && this.world == world && this.fate == fate && this.store == store
      ensures commands == 0 && stray == {}
    {
      this.own, this.world, this.fate, this.store := own, world, fate, store;
      commands, stray := 0, {};
    }

    ghost predicate Fair() {
      forall n: nat :: NoneOwn(own, world(n).foreign)
    }

    /** Every command from number `from` on and before number `to` is answered. */
    ghost predicate AllAnswered(from: nat, to: nat) {
      forall n: nat :: from <= n < to ==> fate(n) == Answered
    }

    /** The store after `k` more commands of this client that change nothing, from command number `n` on. */
    ghost function Idle(store: Store, n: nat, k: nat): Store {
      if k == 0 then store else Disturb(own, Idle(store, n, k - 1), world(n + k - 1))
    }

    /** Command number `n + k` is answered and finds the key taken. */
    ghost predicate BusyAt(store: Store, n: nat, key: string, k: nat) {
      key in Idle(store, n, k + 1) && fate(n + k) == Answered
    }

    ghost predicate BusyFor(store: Store, n: nat, key: string, k: nat) {
      forall j: nat :: j < k ==> BusyAt(store, n, key, j)
    }

    /** After `k` commands that find the key taken, the next one finds it free and is answered. */
    ghost predicate FreeAt(store: Store, n: nat, key: string, k: nat) {
      BusyFor(store, n, key, k) && key !in Idle(store, n, k + 1) && fate(n + k) == Answered
    }

    ghost predicate RaisesAt(store: Store, n: nat, key: string, k: nat) {
      BusyFor(store, n, key, k) && fate(n + k) != Answered
    }

    lemma NextTry(store: Store, n: nat, key: string, k: nat)
      ensures Idle(store, n, 0) == store && BusyFor(store, n, key, 0)
      ensures Idle(store, n, k + 1) == Disturb(own, Idle(store, n, k), world(n + k))
      ensures BusyFor(store, n, key, k) ==>
                if fate(n + k) != Answered then RaisesAt(store, n, key, k)
                else if key in Idle(store, n, k + 1) then BusyFor(store, n, key, k + 1)
                else FreeAt(store, n, key, k)
    {}

    /** What a retry loop of at most `attempts` commands has come to after `used` of them. */
    ghost predicate Tried(store: Store, n: nat, key: string, attempts: nat, reply: Reply, used: nat) {
      && used <= attempts && (reply != Busy ==> used > 0)
      && match reply
         case Busy => BusyFor(store, n, key, used)
         case Taken => FreeAt(store, n, key, used - 1)
         case SetRaised => RaisesAt(store, n, key, used - 1)
    }

    lemma FirstTry(store: Store, n: nat, key: string, k: nat, j: nat)
      requires FreeAt(store, n, key, k) || RaisesAt(store, n, key, k)
      ensures FreeAt(store, n, key, j) || RaisesAt(store, n, key, j) ==> j == k
      ensures BusyFor(store, n, key, j) ==> j <= k
      ensures !(FreeAt(store, n, key, k) && RaisesAt(store, n, key, k))
    {
      assert BusyFor(store, n, key, k) && !BusyAt(store, n, key, k);
      hide Idle;
      if j > k {
        assert BusyFor(store, n, key, j) ==> BusyAt(store, n, key, k);
      } else if j < k {
        assert BusyAt(store, n, key, j);
      }
    }

    /** How the loop ends is decided by the first command that does not find the key taken. */
    lemma ReplyIff(store: Store, n: nat, key: string, attempts: nat, reply: Reply, used: nat)
      requires Tried(store, n, key, attempts, reply, used) && (reply == Busy ==> used == attempts)
      ensures reply == Busy <==> BusyFor(store, n, key, attempts)
      ensures reply == Taken <==> exists k: nat :: k < attempts && FreeAt(store, n, key, k)
      ensures reply == SetRaised <==> exists k: nat :: k < attempts && RaisesAt(store, n, key, k)
    {
      hide Idle, FreeAt, RaisesAt, BusyFor;
      forall k: nat | k < attempts && (FreeAt(store, n, key, k) || RaisesAt(store, n, key, k))
        ensures reply != Busy && k == used - 1
      {
        FirstTry(store, n, key, k, if reply == Busy then attempts else used - 1);
      }
      if reply != Busy {
        FirstTry(store, n, key, used - 1, attempts);
      }
    }

    /** Each name from the `i`-th on is found free, in turn, within `attempts` answered commands. */
    ghost predicate Obtainable(store: Store, n: nat, names: seq<string>, i: nat, tokens: nat -> Token, attempts: nat)
      decreases |names| - i
    {
      i < |names| ==>
        exists k: nat :: k < attempts && FreeAt(store, n, LockKey(names[i]), k) &&
          Obtainable(Idle(store, n, k + 1)[LockKey(names[i]) := tokens(i)], n + k + 1, names, i + 1, tokens, attempts)
    }

    /** After the `i`-th name was found free at try `k`, the rest decides. */
    lemma ObtainableNext(store: Store, n: nat, names: seq<string>, i: nat, tokens: nat -> Token, attempts: nat, k: nat)
      requires i < |names| && k < attempts
      requires FreeAt(store, n, LockKey(names[i]), k)
      ensures Obtainable(store, n, names, i, tokens, attempts) <==>
              Obtainable(Idle(store, n, k + 1)[LockKey(names[i]) := tokens(i)], n + k + 1, names, i + 1, tokens, attempts)
    {
      hide Idle, FreeAt, LockKey;
      forall j: nat | FreeAt(store, n, LockKey(names[i]), j) ensures j == k {
        FirstTry(store, n, LockKey(names[i]), k, j);
      }
    }

    lemma NotObtainable(store: Store, n: nat, names: seq<string>, i: nat, tokens: nat -> Token, attempts: nat)
      requires i < |names| && forall k: nat :: k < attempts ==> !FreeAt(store, n, LockKey(names[i]), k)
      ensures !Obtainable(store, n, names, i, tokens, attempts)
    {}

    lemma NothingToObtain(store: Store, n: nat, names: seq<string>, tokens: nat -> Token, attempts: nat)
      ensures Obtainable(store, n, names, |names|, tokens, attempts)
    {}

    /** Alone and with every command answered, a client gets all its locks if their keys differ and are free. */
    lemma {:induction false} AloneGetsAll(
      store: Store, n: nat, names: seq<string>, i: nat, tokens: nat -> Token, attempts: nat)
      requires (forall m: nat :: world(m).foreign == map[] && fate(m) == Answered) && attempts >= 1 && i <= |names|
      requires forall a, b :: i <= a < b < |names| ==> LockKey(names[a]) != LockKey(names[b])
      requires forall a :: i <= a < |names| ==> LockKey(names[a]) !in store
      ensures Obtainable(store, n, names, i, tokens, attempts)
      decreases |names| - i
    {
      hide LockKey;
      if i < |names| {
        var key := LockKey(names[i]);
        var seen := Idle(store, n, 1);
        assert seen == Disturb(own, Idle(store, n, 0), world(n)) && seen.Keys <= store.Keys;
        assert FreeAt(store, n, key, 0);
        AloneGetsAll(seen[key := tokens(i)], n + 0 + 1, names, i + 1, tokens, attempts);
        assert Obtainable(Idle(store, n, 0 + 1)[key := tokens(i)], n + 0 + 1, names, i + 1, tokens, attempts);
      }
    }

    /** SET key token NX, after whatever happened in between. */
    method SetNx(key: string, token: Token) returns (reply: Reply)
      modifies this
      ensures var n, seen := old(commands), Disturb(own, old(store), world(old(commands)));
              var applied := fate(n) != RaisedUnapplied && key !in seen;
              && reply == (if fate(n) != Answered then SetRaised else if key in seen then Busy else Taken)
              && store == (if applied then seen[key := token] else seen)
              && stray == (if applied && reply == SetRaised then old(stray) + {token} else old(stray))
      ensures commands == old(commands) + 1
    {
      var n := commands;
      store := Disturb(own, store, world(n));
      commands := commands + 1;
      var absent := key !in store;
      if absent && fate(n) != RaisedUnapplied {
        store := store[key := token];
      }
      if fate(n) != Answered {
        stray := if absent && fate(n) != RaisedUnapplied then stray + {token} else stray;
        return SetRaised;
      }
      return if absent then Taken else Busy;
    }

    /** The release script: deletes the key only if it still carries the token. */
    method Release(name: string, token: Token) returns (released: bool)
      modifies this
      ensures var n, seen := old(commands), Disturb(own, old(store), world(old(commands)));
              var mine := LockKey(name) in seen && seen[LockKey(name)] == token;
              && released == (mine && fate(n) == Answered)
              && store == (if mine && fate(n) != RaisedUnapplied then seen - {LockKey(name)} else seen)
              && stray == (if mine && fate(n) == RaisedUnapplied then old(stray) + {token} else old(stray))
      ensures commands == old(commands) + 1
    {
      var key, n := LockKey(name), commands;
      store := Disturb(own, store, world(n));
      commands := commands + 1;
      var mine := key in store && store[key] == token;
      if mine && fate(n) != RaisedUnapplied {
        store := store - {key};
      }
      stray := if mine && fate(n) == RaisedUnapplied then stray + {token} else stray;
      released := mine && fate(n) == Answered;
    }

    /** `acquire`: at most `attempts` tries before the deadline; a SET that raises ends it at once. */
    method Acquire(name: string, token: Token, attempts: nat, ghost locks: seq<(string, Token)>) returns (reply: Reply)
      requires Fair() && Noted(own, store, locks, stray)
      modifies this
      ensures reply == Busy <==> BusyFor(old(store), old(commands), LockKey(name), attempts)
      ensures reply == Taken <==> exists k: nat :: k < attempts && FreeAt(old(store), old(commands), LockKey(name), k)
      ensures reply == SetRaised <==> exists k: nat :: k < attempts && RaisesAt(old(store), old(commands), LockKey(name), k)
      ensures reply == Busy ==> commands == old(commands) + attempts && store == Idle(old(store), old(commands), attempts)
      ensures reply == Taken ==>
                var used := commands - old(commands);
                && 1 <= used <= attempts && FreeAt(old(store), old(commands), LockKey(name), used - 1)
                && store == Idle(old(store), old(commands), used)[LockKey(name) := token]
      ensures stray == old(stray) || (reply == SetRaised && stray == old(stray) + {token})
      ensures commands >= old(commands)
      ensures AllAnswered(old(commands), commands) ==> reply != SetRaised && stray == old(stray)
      ensures Noted(own, store, if reply == Taken then locks + [(name, token)] else locks, stray)
      ensures reply == Taken ==> LockKey(name) in store && store[LockKey(name)] == token
    {
      hide Noted, LockKey, Idle, FreeAt, RaisesAt, BusyFor, Disturb;
      reply := Busy;
      var tries := 0;
      ghost var key, n, was := LockKey(name), commands, store;
      NextTry(was, n, key, 0);
      while reply == Busy && tries < attempts
        invariant 0 <= tries && commands == n + tries && Tried(was, n, key, attempts, reply, tries)
        invariant reply == Busy ==> store == Idle(was, n, tries)
        invariant reply == Taken ==> store == Idle(was, n, tries)[key := token]
        invariant stray == old(stray) || (reply == SetRaised && stray == old(stray) + {token})
        invariant commands >= old(commands)
        invariant AllAnswered(old(commands), commands) ==> reply != SetRaised && stray == old(stray)
        invariant Noted(own, store, if reply == Taken then locks + [(name, token)] else locks, stray)
        invariant reply == Taken ==> LockKey(name) in store && store[LockKey(name)] == token
        decreases reply == Busy, attempts - tries
      {
        ghost var seen := Disturb(own, store, world(commands));
        DisturbedStillNoted(own, store, world(commands), locks, stray);
        NotedAfterSet(own, seen, name, token, locks, stray);
        NextTry(was, n, key, tries);
        reply := SetNx(LockKey(name), token);
        tries := tries + 1;
      }
      ReplyIff(was, n, key, attempts, reply, tries);
    }

    /** Releases in reverse order of acquisition. */
    method Unwind(locks: seq<(string, Token)>)
      requires Fair() && Noted(own, store, locks, stray)
      modifies this
      ensures Noted(own, store, [], stray)
      ensures old(stray) <= stray <= old(stray) + TokensOf(locks)
      ensures commands == old(commands) + |locks| && (AllAnswered(old(commands), commands) ==> stray == old(stray))
    {
      var left := |locks|;
      assert locks[..left] == locks;
      while left > 0
        invariant 0 <= left <= |locks| && old(stray) <= stray <= old(stray) + TokensOf(locks)
        invariant commands == old(commands) + |locks| - left
        invariant AllAnswered(old(commands), commands) ==> stray == old(stray)
        invariant Noted(own, store, locks[..left], stray)
      {
        left := left - 1;
        ghost var before, lost, seen := locks[..left + 1], stray, Disturb(own, store, world(commands));
        DisturbedStillNoted(own, store, world(commands), before, stray);
        var released := Release(locks[left].0, locks[left].1);
        assert before[left] == locks[left] && before[..left] == locks[..left];
        NotedAfterRelease(own, seen, store, before, lost, stray);
      }
    }

    /** The loop over the sorted names; it stops at the first lock it does not get. */
    method TakeInOrder(names: seq<string>, tokens: nat -> Token, attempts: nat)
      returns (locks: seq<(string, Token)>, reply: Reply)
      requires Fair() && Noted(own, store, [], stray)
      modifies this
      ensures |locks| <= |names| && OrderedMap.Keys(locks) == names[..|locks|]
      ensures TokensOf(locks) <= Tokens(tokens, |names|)
      ensures old(stray) <= stray <= old(stray) + Tokens(tokens, |names|) && (reply != SetRaised ==> stray == old(stray))
      ensures commands >= old(commands)
      ensures AllAnswered(old(commands), commands) ==> reply != SetRaised && stray == old(stray)
      ensures reply == Taken <==> |locks| == |names|
      ensures reply == Taken <==> Obtainable(old(store), old(commands), names, 0, tokens, attempts)
      ensures Noted(own, store, locks, stray)
    {
      hide Noted, LockKey, Obtainable, FreeAt, RaisesAt, BusyFor, Idle;
      locks, reply := [], Taken;
      while |locks| < |names|
        invariant |locks| <= |names| && OrderedMap.Keys(locks) == names[..|locks|] && reply == Taken
        invariant forall i :: 0 <= i < |locks| ==> locks[i].1 == tokens(i)
        invariant Noted(own, store, locks, stray) && stray == old(stray) && commands >= old(commands)
        invariant Obtainable(old(store), old(commands), names, 0, tokens, attempts) <==>
                  Obtainable(store, commands, names, |locks|, tokens, attempts)
      {
        var name, token := names[|locks|], tokens(|locks|);
        TokensOfLocks(locks, tokens, |names|);
        ghost var was, n := store, commands;
        reply := Acquire(name, token, attempts, locks);
        if reply != Taken {
          NotObtainable(was, n, names, |locks|, tokens, attempts);
          return;
        }
        ObtainableNext(was, n, names, |locks|, tokens, attempts, commands - n - 1);
        locks := locks + [(name, token)];
      }
      TokensOfLocks(locks, tokens, |names|);
      NothingToObtain(store, commands, names, tokens, attempts);
    }

    /**
     `acquire_multiple` around a block that may raise.  Names are taken in sorted order; however the
     block is left, and whatever others did meanwhile, every token of this client that is still
     stored is one of this call that it lost track of: by a SET that was applied and raised, or a
     release that raised before it was applied.  If every command is answered, none is stored.
     */
    method AcquireMultiple(resources: set<string>, tokens: nat -> Token, attempts: nat, bodyRaises: bool)
      returns (exit: Exit, locks: seq<(string, Token)>)
      requires Fair() && forall key :: key in store && own(store[key]) ==> store[key] in stray
      modifies this
      ensures forall key :: key in store && own(store[key]) ==> store[key] in stray
      ensures old(stray) <= stray <= old(stray) + Tokens(tokens, |resources|)
      ensures commands >= old(commands)
      ensures AllAnswered(old(commands), commands) ==>
                exit != Failed && stray == old(stray) && (stray == {} ==> NoneOwn(own, store))
      ensures |locks| <= |resources| && OrderedMap.Keys(locks) == SortedNames(resources)[..|locks|]
      ensures |locks| < |resources| <==> exit == Refused || exit == Failed
      ensures |locks| == |resources| <==>
                Obtainable(old(store), old(commands), SortedNames(resources), 0, tokens, attempts)
      ensures |locks| == |resources| ==> exit == if bodyRaises then BodyRaised else Normal
    {
      hide Noted, NoneOwn, Lexicographic, Sorted, StrictTotal, Tokens, TokensOf, OrderedMap.Keys, Obtainable;
      NothingNoted(own, store, stray);
      LexicographicIsStrictTotal();
      var names := Ascending(resources, Lexicographic);
      SameOrder(names, resources);
      var reply;
      locks, reply := TakeInOrder(names, tokens, attempts);
      exit := match reply
        case Taken => if bodyRaises then BodyRaised else Normal
        case Busy => Refused
        case SetRaised => Failed;
      Unwind(locks);
      NothingNoted(own, store, stray);
    }
  }

  lemma NothingNoted(own: Token -> bool, store: Store, stray: set<Token>)
    ensures Noted(own, store, [], stray) <==> forall key :: key in store && own(store[key]) ==> store[key] in stray
    ensures NoneOwn(own, store) ==> Noted(own, store, [], stray)
    ensures Noted(own, store, [], {}) ==> NoneOwn(own, store)
  {}

  lemma SameOrder(names: seq<string>, resources: set<string>)
    requires Sorted(names, Lexicographic) && forall r :: r in names <==> r in resources
    ensures names == SortedNames(resources)
  {
    LexicographicIsStrictTotal();
    SortedUnique(names, SortedNames(resources), Lexicographic);
  }
}
