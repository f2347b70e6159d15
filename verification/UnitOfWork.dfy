/**
 The in-memory unit of work: dictionaries are heap objects that repositories change in place, and
 entering a block copies every dictionary so that a rollback can put copies of the copies back.
 The copies are shallow: a dictionary value may be a reference to a user object.
 */
module UnitOfWork {
  import opened Wrappers

  /** The dictionary attributes of the seven repositories that the unit of work snapshots. */
  datatype Slot =
    | UserStore | UserEmailIndex | UserNameIndex
    | PostStore | ProductStore | OrderStore | OutboxStore
    | LedgerAccounts | LedgerAccountsByNumber | LedgerEntries | LedgerEntriesByRef
    | ReconciliationBatches | ReconciliationByReference

  datatype Counter = UserId | PostId | ProductId

  class User {
    var email: string

    constructor (email: string)
      ensures this.email == email
    {
      this.email := email;
    }
  }

  /** An immutable entity or index entry, or a reference to a stored user. */
  datatype Value = Plain(text: string) | Ref(user: User)

  type Contents = map<string, Value>

  class Dict {
    var m: Contents

    constructor (m: Contents)
      ensures this.m == m
    {
      this.m := m;
    }
  }

  const SLOTS: seq<Slot> := [
    UserStore, UserEmailIndex, UserNameIndex, PostStore, ProductStore, OrderStore, OutboxStore,
    LedgerAccounts, LedgerAccountsByNumber, LedgerEntries, LedgerEntriesByRef,
    ReconciliationBatches, ReconciliationByReference]

  lemma SlotsComplete(slot: Slot)
    ensures exists i :: 0 <= i < |SLOTS| && SLOTS[i] == slot
  {
    assert SLOTS[0] == UserStore && SLOTS[1] == UserEmailIndex && SLOTS[2] == UserNameIndex;
    assert SLOTS[3] == PostStore && SLOTS[4] == ProductStore && SLOTS[5] == OrderStore && SLOTS[6] == OutboxStore;
    assert SLOTS[7] == LedgerAccounts && SLOTS[8] == LedgerAccountsByNumber && SLOTS[9] == LedgerEntries;
    assert SLOTS[10] == LedgerEntriesByRef && SLOTS[11] == ReconciliationBatches;
    assert SLOTS[12] == ReconciliationByReference;
  }

  // ----- Blocks as values -----

  /** Everything the snapshots cover. */
  datatype View = View(dicts: map<Slot, Contents>, counters: map<Counter, int>, postings: seq<string>)

  datatype Op =
    | Put(slot: Slot, key: string, value: Value)
    | Delete(slot: Slot, key: string)
    | Clear(slot: Slot)
    | SetCounter(counter: Counter, n: int)
    | Post(posting: string)
    | ChangeEmail(user: User, email: string)
    | Commit
    | Rollback

  ghost function At(v: View, slot: Slot): Contents {
    if slot in v.dicts then v.dicts[slot] else map[]
  }

  ghost function Step(v: View, saved: Option<View>, op: Op): (View, Option<View>) {
    match op
    case Put(slot, key, value) => (v.(dicts := v.dicts[slot := At(v, slot)[key := value]]), saved)
    case Delete(slot, key) => (v.(dicts := v.dicts[slot := At(v, slot) - {key}]), saved)
    case Clear(slot) => (v.(dicts := v.dicts[slot := map[]]), saved)
    case SetCounter(c, n) => (v.(counters := v.counters[c := n]), saved)
    case Post(p) => (v.(postings := v.postings + [p]), saved)
    case ChangeEmail(user, email) => (v, saved)
    case Commit => (v, None)
    case Rollback => (if saved.Some? then saved.value else v, saved)
  }

  /** The state after the operations of a block, and what a rollback would restore. */
  ghost function Exec(v: View, saved: Option<View>, ops: seq<Op>): (View, Option<View>)
    decreases |ops|
  {
    if ops == [] then (v, saved)
    else
      var (v', saved') := Step(v, saved, ops[0]);
      Exec(v', saved', ops[1..])
  }

  /** The state after the block, which may end with an exception. */
  ghost function Block(v: View, ops: seq<Op>, raises: bool): View {
    var (end, saved) := Exec(v, Some(v), ops);
    if raises && saved.Some? then saved.value else end
  }

  lemma {:induction false} ExecAppend(v: View, saved: Option<View>, a: seq<Op>, b: seq<Op>)
    ensures Exec(v, saved, a + b) == Exec(Exec(v, saved, a).0, Exec(v, saved, a).1, b)
    decreases |a|
  {
    if a == [] {
      assert a + b == b;
    } else {
      assert (a + b)[1..] == a[1..] + b;
      var (v', saved') := Step(v, saved, a[0]);
      ExecAppend(v', saved', a[1..], b);
    }
  }

  /** What each operation changes, and that it changes nothing else. */
  lemma StepTakesEffect(v: View, saved: Option<View>, op: Op)
    ensures var (v', saved') := Step(v, saved, op);
            && (!op.Commit? ==> saved' == saved)
            && (op.Commit? ==> v' == v && saved' == None)
            && (op.Rollback? ==> v' == if saved.Some? then saved.value else v)
            && (op.ChangeEmail? ==> v' == v)
            && (op.SetCounter? ==>
                  && v'.dicts == v.dicts && v'.postings == v.postings && v'.counters.Keys == v.counters.Keys + {op.counter}
                  && v'.counters[op.counter] == op.n
                  && forall c :: c in v.counters && c != op.counter ==> v'.counters[c] == v.counters[c])
            && (op.Post? ==> v'.dicts == v.dicts && v'.counters == v.counters && v'.postings == v.postings + [op.posting])
            && (op.Put? || op.Delete? || op.Clear? ==>
                  && v'.counters == v.counters && v'.postings == v.postings
                  && forall slot :: slot != op.slot ==> At(v', slot) == At(v, slot))
            && (op.Put? ==>
                  && At(v', op.slot).Keys == At(v, op.slot).Keys + {op.key} && At(v', op.slot)[op.key] == op.value
                  && forall k :: k in At(v, op.slot) && k != op.key ==> At(v', op.slot)[k] == At(v, op.slot)[k])
            && (op.Delete? ==>
                  && At(v', op.slot).Keys == At(v, op.slot).Keys - {op.key}
                  && forall k :: k in At(v', op.slot) ==> At(v', op.slot)[k] == At(v, op.slot)[k])
            && (op.Clear? ==> At(v', op.slot) == map[])
  {}

  lemma {:induction false} SavedUntilCommit(v: View, saved: Option<View>, ops: seq<Op>)
    ensures Exec(v, saved, ops).1 == if Commit in ops then None else saved
    decreases |ops|
  {
    if ops != [] {
      var (v', saved') := Step(v, saved, ops[0]);
      SavedUntilCommit(v', saved', ops[1..]);
    }
  }

  /** A block that raises before any commit leaves no trace in the snapshotted state. */
  lemma RaiseBeforeCommit(v: View, ops: seq<Op>)
    requires Commit !in ops
    ensures Block(v, ops, true) == v
  {
    SavedUntilCommit(v, Some(v), ops);
  }

  /** A rollback before any commit: the block goes on as if it had just begun. */
  lemma RollbackStartsOver(v: View, before: seq<Op>, after: seq<Op>, raises: bool)
    requires Commit !in before
    ensures Block(v, before + [Rollback] + after, raises) == Block(v, after, raises)
  {
    SavedUntilCommit(v, Some(v), before);
    assert before + [Rollback] + after == before + ([Rollback] + after);
    ExecAppend(v, Some(v), before, [Rollback] + after);
    assert ([Rollback] + after)[1..] == after;
  }

  ghost function WithoutRollbacks(ops: seq<Op>): seq<Op> {
    if ops == [] then []
    else if ops[0].Rollback? then WithoutRollbacks(ops[1..])
    else [ops[0]] + WithoutRollbacks(ops[1..])
  }

  lemma {:induction false} NothingToRestore(v: View, ops: seq<Op>)
    ensures Exec(v, None, ops).0 == Exec(v, None, WithoutRollbacks(ops)).0
    decreases |ops|
  {
    if ops != [] {
      var (v', saved') := Step(v, None, ops[0]);
      NothingToRestore(v', ops[1..]);
      if !ops[0].Rollback? {
        assert WithoutRollbacks(ops)[1..] == WithoutRollbacks(ops[1..]);
      }
    }
  }

  /** After a commit nothing is undone: neither a raise nor a rollback has any effect. */
  lemma RaiseAfterCommit(v: View, before: seq<Op>, after: seq<Op>, raises: bool)
    ensures Block(v, before + [Commit] + after, raises) ==
            Exec(Exec(v, Some(v), before).0, None, WithoutRollbacks(after)).0
  {
    var ops := before + [Commit] + after;
    assert Commit in ops by { assert ops[|before|] == Commit; }
    SavedUntilCommit(v, Some(v), ops);
    var (mid, saved) := Exec(v, Some(v), before);
    assert ops == before + ([Commit] + after);
    ExecAppend(v, Some(v), before, [Commit] + after);
    assert ([Commit] + after)[1..] == after;
    NothingToRestore(mid, after);
  }

  // ----- Blocks on the heap -----

  class PostingList {
    var items: seq<string>

    constructor (items: seq<string>)
      ensures this.items == items
    {
      this.items := items;
    }
  }

  ghost predicate Total(dicts: map<Slot, Dict>) {
    forall slot: Slot :: slot in dicts
  }

  /** The contents of a family of dictionaries. */
  ghost function ContentsOf(dicts: map<Slot, Dict>): map<Slot, Contents>
    reads dicts.Values
  {
    map slot | slot in dicts :: dicts[slot].m
  }

  /** `dict(d)` for every dictionary of a family. */
  method CopyAll(dicts: map<Slot, Dict>) returns (copies: map<Slot, Dict>)
    requires Total(dicts)
    ensures Total(copies) && fresh(copies.Values)
    ensures ContentsOf(copies) == ContentsOf(dicts)
    ensures forall a, b :: a in copies && b in copies && a != b ==> copies[a] != copies[b]
  {
    copies := map[];
    for i := 0 to |SLOTS|
      invariant forall slot :: slot in copies ==> fresh(copies[slot])
      invariant forall slot :: slot in copies ==> slot in dicts && copies[slot].m == dicts[slot].m
      invariant forall j :: 0 <= j < i ==> SLOTS[j] in copies
      invariant forall a, b :: a in copies && b in copies && a != b ==> copies[a] != copies[b]
    {
      var slot := SLOTS[i];
      var d := new Dict(dicts[slot].m);
      copies := copies[slot := d];
    }
    forall slot: Slot ensures slot in copies { SlotsComplete(slot); }
  }

  class InMemoryUnitOfWork {
    var live: map<Slot, Dict>
    var counters: map<Counter, int>
    var postings: PostingList
    /** The snapshot fields; they are set together on entry and cleared together. */
    var open: bool
    var savedDicts: map<Slot, Dict>
    var savedCounters: map<Counter, int>
    var savedPostings: PostingList

    /** No dictionary is shared, neither between attributes nor with a snapshot. */
    ghost predicate Valid()
      reads this
    {
      && Total(live)
      && (forall a, b :: a in live && b in live && a != b ==> live[a] != live[b])
      && (open ==> Total(savedDicts) && savedDicts.Values !! live.Values && savedPostings != postings)
    }

    ghost function Now(): View
      reads this, live.Values, postings
    {
      View(ContentsOf(live), counters, postings.items)
    }

    ghost function Saved(): Option<View>
      reads this, savedDicts.Values, savedPostings
    {
      if open then Some(View(ContentsOf(savedDicts), savedCounters, savedPostings.items)) else None
    }

    ghost function Repr(): set<object>
      reads this
    {
      {this, postings} + live.Values
    }

    constructor (live: map<Slot, Dict>, counters: map<Counter, int>, postings: PostingList)
      requires Total(live) && forall a, b :: a in live && b in live && a != b ==> live[a] != live[b]
      ensures Valid() && !open && this.live == live && this.counters == counters && this.postings == postings
    {
      this.live, this.counters, this.postings := live, counters, postings;
      open, savedDicts, savedCounters, savedPostings := false, map[], map[], postings;
    }

    method Enter()
      requires Valid()
      modifies this`open, this`savedDicts, this`savedCounters, this`savedPostings
      ensures Valid() && Saved() == Some(old(Now())) && Now() == old(Now())
      ensures live == old(live) && postings == old(postings)
    {
      hide ContentsOf;
      var copies := CopyAll(live);
      assert copies.Values !! live.Values;
      var list := new PostingList(postings.items);
      savedDicts, savedCounters, savedPostings, open := copies, counters, list, true;
    }

    method ClearSnapshots()
      requires Valid()
      modifies this`open
      ensures Valid() && !open
    {
      open := false;
    }

    method DoRollback()
      requires Valid()
      modifies this`live, this`counters, this`postings
      ensures Valid() && Saved() == old(Saved()) && open == old(open)
      ensures Now() == if open then old(Saved()).value else old(Now())
      ensures forall o :: o in Repr() ==> o in old(Repr()) || fresh(o)
    {
      if open {
        live := CopyAll(savedDicts);
        counters := savedCounters;
        postings := new PostingList(savedPostings.items);
      }
    }

    /** Changes one dictionary object in place. */
    method Change(slot: Slot, m: Contents)
      requires Valid()
      modifies live[slot]
      ensures Valid() && Saved() == old(Saved())
      ensures Now() == old(Now()).(dicts := old(Now()).dicts[slot := m])
    {
      live[slot].m := m;
      assert ContentsOf(live) == old(ContentsOf(live))[slot := m];
    }

    /** A call that changes a dictionary. */
    method DoSlot(op: Op)
      requires Valid() && (op.Put? || op.Delete? || op.Clear?)
      modifies live[op.slot]
      ensures Valid() && (Now(), Saved()) == Step(old(Now()), old(Saved()), op)
    {
      assert forall slot: Slot :: At(Now(), slot) == live[slot].m;
      hide ContentsOf;
      match op
      case Put(slot, key, value) => Change(slot, live[slot].m[key := value]);
      case Delete(slot, key) => Change(slot, live[slot].m - {key});
      case Clear(slot) => Change(slot, map[]);
    }

    /** One repository call, or a commit or rollback inside the block. */
    method Do(op: Op)
      requires Valid()
      modifies Repr(), if op.ChangeEmail? then {op.user} else {}
      ensures Valid() && (Now(), Saved()) == Step(old(Now()), old(Saved()), op)
      ensures forall o :: o in Repr() ==> o in old(Repr()) || fresh(o)
      ensures op.ChangeEmail? ==> op.user.email == op.email
      ensures forall user: User :: allocated(user) && old(allocated(user)) && !(op.ChangeEmail? && op.user == user) ==>
                user.email == old(user.email)
    {
      hide ContentsOf;
      match op
      case Put(_, _, _) => DoSlot(op);
      case Delete(_, _) => DoSlot(op);
      case Clear(_) => DoSlot(op);
      case SetCounter(counter, n) =>
        counters := counters[counter := n];
      case Post(posting) =>
        postings.items := postings.items + [posting];
      case ChangeEmail(user, email) =>
        user.email := email;
      case Commit =>
        ClearSnapshots();
      case Rollback =>
        DoRollback();
    }

    /** The whole `async with` block: what it leaves behind is what the value-level block says. */
    method RunBlock(ops: seq<Op>, raises: bool)
      requires Valid()
      modifies Repr(), UsersOf(ops)
      ensures Valid() && !open
      ensures Now() == Block(old(Now()), ops, raises)
      ensures forall user :: user in UsersOf(ops) ==> user.email == LastEmail(ops, user, old(user.email))
    {
      ghost var entry := Now();
      Enter();
      for i := 0 to |ops|
        invariant Valid()
        invariant forall o :: o in Repr() ==> o in old(Repr()) || fresh(o)
        invariant (Now(), Saved()) == Exec(entry, Some(entry), ops[..i])
        invariant forall user :: user in UsersOf(ops) ==> user.email == LastEmail(ops[..i], user, old(user.email))
      {
        assert ops[..i + 1] == ops[..i] + [ops[i]];
        ExecAppend(entry, Some(entry), ops[..i], [ops[i]]);
        ExecOne(Now(), Saved(), ops[i]);
        Do(ops[i]);
      }
      assert ops[..|ops|] == ops;
      if raises { DoRollback(); }
      ClearSnapshots();
    }
  }

  lemma ExecOne(v: View, saved: Option<View>, op: Op)
    ensures Exec(v, saved, [op]) == Step(v, saved, op)
  {}

  /** The address a user is left with: the last one written in place, commit or rollback or not. */
  ghost function LastEmail(ops: seq<Op>, user: User, email: string): string {
    if ops == [] then email
    else
      var op := ops[|ops| - 1];
      if op.ChangeEmail? && op.user == user then op.email else LastEmail(ops[..|ops| - 1], user, email)
  }

  ghost function UsersOf(ops: seq<Op>): set<User> {
    set i | 0 <= i < |ops| && ops[i].ChangeEmail? :: ops[i].user
  }

  /**
   The limit of shallow snapshots: a user changed in place inside a block that raises keeps the
   change, while the e-mail index goes back, so that the index no longer finds the stored user.
   */
  method InPlaceChangeSurvives(uow: InMemoryUnitOfWork, user: User, id: string, email: string)
    requires uow.Valid() && uow.Now().dicts[UserStore] == map[id := Ref(user)]
    requires uow.Now().dicts[UserEmailIndex] == map[user.email := Plain(id)] && email != user.email
    modifies uow.Repr(), user
    ensures uow.Valid() && uow.Now() == old(uow.Now())
    ensures user.email == email && email !in uow.Now().dicts[UserEmailIndex]
  {
    hide Step, ContentsOf;
    ghost var entry := uow.Now();
    uow.Enter();
    StepKeepsSaved(uow.Now(), uow.Saved(), Delete(UserEmailIndex, user.email));
    uow.Do(Delete(UserEmailIndex, user.email));
    StepKeepsSaved(uow.Now(), uow.Saved(), Put(UserEmailIndex, email, Plain(id)));
    uow.Do(Put(UserEmailIndex, email, Plain(id)));
    StepKeepsSaved(uow.Now(), uow.Saved(), ChangeEmail(user, email));
    uow.Do(ChangeEmail(user, email));
    uow.DoRollback();
    uow.ClearSnapshots();
  }

  lemma StepKeepsSaved(v: View, saved: Option<View>, op: Op)
    requires !op.Commit?
    ensures Step(v, saved, op).1 == saved
  {}
}
