/**
 The double-entry ledger: the in-memory repository with its append-only postings, and the domain
 service that admits only balanced entries.  Amounts are counted in units of 0.0001.
 */
module Ledger {
  import opened Wrappers

  type Uuid = nat

  datatype Direction = Debit | Credit
  datatype AccountType = Asset | Liability | Equity | Revenue | Expense
  datatype Account = Account(id: Uuid, number: string, name: string, kind: AccountType, currency: string, active: bool)
  datatype Leg = Leg(account: Uuid, amount: int, direction: Direction)
  datatype Posting = Posting(id: Uuid, entry: Uuid, account: Uuid, amount: int, direction: Direction)
  datatype Entry = Entry(id: Uuid, reference: string, description: string, postings: seq<Posting>, flagged: bool)

  datatype Error = DuplicateReference | TooFewLegs | NotPositive | Unbalanced | NoSuchAccount | InactiveAccount

  // ----- Totals -----

  function Amount(p: Posting, d: Direction): int {
    if p.direction == d then p.amount else 0
  }

  /** Everything posted in one direction. */
  ghost function Total(ps: seq<Posting>, d: Direction): int {
    if ps == [] then 0 else Total(ps[..|ps| - 1], d) + Amount(ps[|ps| - 1], d)
  }

  ghost function Of(ps: seq<Posting>, account: Uuid): seq<Posting> {
    if ps == [] then []
    else Of(ps[..|ps| - 1], account) + if ps[|ps| - 1].account == account then [ps[|ps| - 1]] else []
  }

  ghost function AccountTotal(ps: seq<Posting>, account: Uuid, d: Direction): int {
    Total(Of(ps, account), d)
  }

  ghost function Pick<T>(s: set<T>): T
    requires s != {}
  {
    var x :| x in s; x
  }

  /** The sum of the account totals over a set of accounts. */
  ghost function SumOver(accounts: set<Uuid>, ps: seq<Posting>, d: Direction): int {
    if accounts == {} then 0
    else
      var a := Pick(accounts);
      AccountTotal(ps, a, d) + SumOver(accounts - {a}, ps, d)
  }

  lemma TotalAppend(ps: seq<Posting>, p: Posting, d: Direction)
    ensures Total(ps + [p], d) == Total(ps, d) + Amount(p, d)
  {}

  lemma {:induction false} TotalConcat(ps: seq<Posting>, qs: seq<Posting>, d: Direction)
    ensures Total(ps + qs, d) == Total(ps, d) + Total(qs, d)
  {
    if qs == [] {
      assert ps + qs == ps;
    } else {
      var init, last := qs[..|qs| - 1], qs[|qs| - 1];
      TotalConcat(ps, init, d);
      TotalAppend(ps + init, last, d);
      assert ps + qs == ps + init + [last];
    }
  }

  lemma AccountTotalAppend(ps: seq<Posting>, p: Posting, account: Uuid, d: Direction)
    ensures AccountTotal(ps + [p], account, d) ==
            AccountTotal(ps, account, d) + if p.account == account then Amount(p, d) else 0
  {
    assert (ps + [p])[..|ps|] == ps;
    assert Of(ps, account) + [] == Of(ps, account);
    TotalAppend(Of(ps, account), p, d);
  }

  lemma {:induction false} SumOverAppend(accounts: set<Uuid>, ps: seq<Posting>, p: Posting, d: Direction)
    ensures SumOver(accounts, ps + [p], d) ==
            SumOver(accounts, ps, d) + if p.account in accounts then Amount(p, d) else 0
  {
    if accounts != {} {
      var a := Pick(accounts);
      AccountTotalAppend(ps, p, a, d);
      SumOverAppend(accounts - {a}, ps, p, d);
    }
  }

  lemma {:induction false} SumOverEmpty(accounts: set<Uuid>, d: Direction)
    ensures SumOver(accounts, [], d) == 0
  {
    if accounts != {} { SumOverEmpty(accounts - {Pick(accounts)}, d); }
  }

  /** Splitting the postings by account loses nothing and counts nothing twice. */
  lemma {:induction false} SumOverAccounts(accounts: set<Uuid>, ps: seq<Posting>, d: Direction)
    requires forall i :: 0 <= i < |ps| ==> ps[i].account in accounts
    ensures SumOver(accounts, ps, d) == Total(ps, d)
  {
    if ps == [] {
      SumOverEmpty(accounts, d);
    } else {
      var init, last := ps[..|ps| - 1], ps[|ps| - 1];
      SumOverAccounts(accounts, init, d);
      SumOverAppend(accounts, init, last, d);
      assert ps == init + [last];
    }
  }

  lemma {:induction false} SumOverSplit(accounts: set<Uuid>, part: set<Uuid>, ps: seq<Posting>, d: Direction)
    requires part <= accounts
    ensures SumOver(accounts, ps, d) == SumOver(part, ps, d) + SumOver(accounts - part, ps, d)
  {
    if ps == [] {
      SumOverEmpty(accounts, d);
      SumOverEmpty(part, d);
      SumOverEmpty(accounts - part, d);
    } else {
      var init, last := ps[..|ps| - 1], ps[|ps| - 1];
      assert ps == init + [last];
      SumOverSplit(accounts, part, init, d);
      SumOverAppend(accounts, init, last, d);
      SumOverAppend(part, init, last, d);
      SumOverAppend(accounts - part, init, last, d);
    }
  }

  // ----- What the service checks -----

  function LegTotal(legs: seq<Leg>, d: Direction): int {
    if legs == [] then 0
    else LegTotal(legs[..|legs| - 1], d) + if legs[|legs| - 1].direction == d then legs[|legs| - 1].amount else 0
  }

  ghost predicate AllPositive(legs: seq<Leg>) {
    forall i :: 0 <= i < |legs| ==> legs[i].amount > 0
  }

  ghost predicate Postable(accounts: map<Uuid, Account>, account: Uuid) {
    account in accounts && accounts[account].active
  }

  /** The error of the first leg whose account cannot take postings. */
  ghost predicate FirstBadAccount(accounts: map<Uuid, Account>, legs: seq<Leg>, e: Error) {
    exists i :: 0 <= i < |legs|
      && (forall j :: 0 <= j < i ==> Postable(accounts, legs[j].account))
      && !Postable(accounts, legs[i].account)
      && e == if legs[i].account in accounts then InactiveAccount else NoSuchAccount
  }

  datatype Outcome = Posted(entry: Entry) | Rejected(error: Error)

  function MakePosting(leg: Leg, entry: Uuid, id: Uuid): Posting {
    Posting(id, entry, leg.account, leg.amount, leg.direction)
  }

  ghost predicate Legs(ps: seq<Posting>, entry: Uuid, legs: seq<Leg>) {
    |ps| == |legs| && forall i :: 0 <= i < |legs| ==> ps[i] == MakePosting(legs[i], entry, ps[i].id)
  }

  lemma {:induction false} LegsTotal(ps: seq<Posting>, entry: Uuid, legs: seq<Leg>, d: Direction)
    requires Legs(ps, entry, legs)
    ensures Total(ps, d) == LegTotal(legs, d)
  {
    if legs != [] { LegsTotal(ps[..|ps| - 1], entry, legs[..|legs| - 1], d); }
  }

  /** The stored entries' postings, one entry after the other. */
  ghost function Journal(entries: map<Uuid, Entry>, order: seq<Uuid>): seq<Posting>
    requires forall i :: 0 <= i < |order| ==> order[i] in entries
  {
    if order == [] then []
    else Journal(entries, order[..|order| - 1]) + entries[order[|order| - 1]].postings
  }

  lemma {:induction false} JournalFrame(entries: map<Uuid, Entry>, order: seq<Uuid>, e: Entry)
    requires forall i :: 0 <= i < |order| ==> order[i] in entries
    requires e.id !in entries
    ensures Journal(entries[e.id := e], order) == Journal(entries, order)
  {
    if order != [] { JournalFrame(entries, order[..|order| - 1], e); }
  }

  // ----- The repository -----

  /** The postings are those of the stored entries, entry by entry in the order of creation. */
  ghost predicate Chronicle(entries: map<Uuid, Entry>, order: seq<Uuid>, postings: seq<Posting>) {
    && (forall i :: 0 <= i < |order| ==> order[i] in entries)
    && (forall i, j :: 0 <= i < j < |order| ==> order[i] != order[j])
    && (forall id :: id in entries ==> id in order && entries[id].id == id)
    && postings == Journal(entries, order)
  }

  lemma ChronicleExtends(entries: map<Uuid, Entry>, order: seq<Uuid>, postings: seq<Posting>, e: Entry)
    requires Chronicle(entries, order, postings) && e.id !in entries
    ensures Chronicle(entries[e.id := e], order + [e.id], postings + e.postings)
  {
    JournalFrame(entries, order, e);
    var all := order + [e.id];
    assert all[..|order|] == order && all[|order|] == e.id;
    forall i | 0 <= i < |all| ensures all[i] in entries[e.id := e] {}
    hide Journal;
    JournalLast(entries[e.id := e], order, e.id);
  }

  lemma JournalLast(entries: map<Uuid, Entry>, order: seq<Uuid>, id: Uuid)
    requires (forall i :: 0 <= i < |order| ==> order[i] in entries) && id in entries
    ensures forall i :: 0 <= i < |order + [id]| ==> (order + [id])[i] in entries
    ensures Journal(entries, order + [id]) == Journal(entries, order) + entries[id].postings
  {
    assert (order + [id])[..|order|] == order;
  }

  class Repository {
    var accounts: map<Uuid, Account>
    var accountsByNumber: map<string, Uuid>
    var entries: map<Uuid, Entry>
    var entriesByRef: map<string, Uuid>
    var postings: seq<Posting>
    ghost var order: seq<Uuid>

    constructor ()
      ensures accounts == map[] && accountsByNumber == map[] && entries == map[] && entriesByRef == map[]
      ensures postings == [] && Consistent() && Books()
    {
      accounts, accountsByNumber, entries, entriesByRef, postings := map[], map[], map[], map[], [];
      order := [];
    }

    /** The postings are the stored entries' postings in the order of creation. */
    ghost predicate Consistent()
      reads this
    {
      Chronicle(entries, order, postings)
    }

    /** Debits equal credits, and every posting is on an account of the ledger. */
    ghost predicate Books()
      reads this
    {
      && Total(postings, Debit) == Total(postings, Credit)
      && (forall i :: 0 <= i < |postings| ==> postings[i].account in accounts)
    }

    /** References are used once. */
    ghost predicate Referenced()
      reads this
    {
      && (forall r :: r in entriesByRef ==> entriesByRef[r] in entries && entries[entriesByRef[r]].reference == r)
      && (forall id :: id in entries ==>
            entries[id].reference in entriesByRef && entriesByRef[entries[id].reference] == id)
    }

    /** `upper` is Python's `str.upper`. */
    method CreateAccount(
      id: Uuid, number: string, name: string, kind: AccountType, currency: string, upper: string -> string)
      returns (account: Account)
      modifies this`accounts, this`accountsByNumber
      ensures account == Account(id, number, name, kind, upper(currency), true)
      ensures accounts == old(accounts)[id := account]
      ensures accountsByNumber == old(accountsByNumber)[number := id]
      ensures old(Books()) ==> Books()
    {
      account := Account(id, number, name, kind, upper(currency), true);
      accounts := accounts[id := account];
      accountsByNumber := accountsByNumber[number := id];
    }

    method CreateJournalEntry(
      reference: string, description: string, legs: seq<Leg>, flagged: bool, id: Uuid, postingIds: seq<Uuid>)
      returns (entry: Entry)
      requires |postingIds| == |legs|
      modifies this`postings, this`entries, this`entriesByRef, this`order
      ensures entry == Entry(id, reference, description, entry.postings, flagged)
      ensures Legs(entry.postings, id, legs)
      ensures forall i :: 0 <= i < |legs| ==> entry.postings[i].id == postingIds[i]
      ensures postings == old(postings) + entry.postings
      ensures entries == old(entries)[id := entry]
      ensures entriesByRef == old(entriesByRef)[reference := id]
      ensures old(Consistent()) && id !in old(entries) ==> Consistent()
    {
      hide Chronicle;
      var created: seq<Posting> := [];
      for i := 0 to |legs|
        invariant |created| == i && postings == old(postings) + created
        invariant forall j :: 0 <= j < i ==> created[j] == MakePosting(legs[j], id, postingIds[j])
        invariant entries == old(entries) && entriesByRef == old(entriesByRef) && order == old(order)
      {
        var p := MakePosting(legs[i], id, postingIds[i]);
        created := created + [p];
        postings := postings + [p];
      }
      entry := Entry(id, reference, description, created, flagged);
      entries := entries[id := entry];
      entriesByRef := entriesByRef[reference := id];
      order := order + [id];
      if old(Consistent()) && id !in old(entries) {
        ChronicleExtends(old(entries), old(order), old(postings), entry);
      }
    }

    method GetPostingsByAccountId(account: Uuid) returns (found: seq<Posting>)
      ensures found == Of(postings, account)
    {
      found := [];
      for i := 0 to |postings|
        invariant found == Of(postings[..i], account)
      {
        assert postings[..i + 1][..i] == postings[..i];
        if postings[i].account == account { found := found + [postings[i]]; }
      }
      assert postings[..|postings|] == postings;
    }

    method GetAccountBalanceAggregates(account: Uuid) returns (debits: int, credits: int)
      ensures debits == AccountTotal(postings, account, Debit)
      ensures credits == AccountTotal(postings, account, Credit)
    {
      debits, credits := 0, 0;
      for i := 0 to |postings|
        invariant debits == AccountTotal(postings[..i], account, Debit)
        invariant credits == AccountTotal(postings[..i], account, Credit)
      {
        var p := postings[i];
        AccountTotalAppend(postings[..i], p, account, Debit);
        AccountTotalAppend(postings[..i], p, account, Credit);
        assert postings[..i + 1] == postings[..i] + [p];
        if p.account == account {
          if p.direction == Debit {
            debits := debits + p.amount;
          } else if p.direction == Credit {
            credits := credits + p.amount;
          }
        }
      }
      assert postings[..|postings|] == postings;
    }
  }

  // ----- The domain service -----

  /** The sums of the legs, or none if a leg is not positive. */
  method SumLegs(legs: seq<Leg>) returns (r: Option<(int, int)>)
    ensures r.None? <==> !AllPositive(legs)
    ensures r.Some? ==> r.value == (LegTotal(legs, Debit), LegTotal(legs, Credit))
  {
    var debits, credits := 0, 0;
    for i := 0 to |legs|
      invariant debits == LegTotal(legs[..i], Debit) && credits == LegTotal(legs[..i], Credit)
      invariant AllPositive(legs[..i])
    {
      if legs[i].amount <= 0 { return None; }
      assert legs[..i + 1][..i] == legs[..i];
      if legs[i].direction == Debit {
        debits := debits + legs[i].amount;
      } else if legs[i].direction == Credit {
        credits := credits + legs[i].amount;
      }
    }
    assert legs[..|legs|] == legs;
    return Some((debits, credits));
  }

  method CheckAccounts(accounts: map<Uuid, Account>, legs: seq<Leg>) returns (r: Option<Error>)
    ensures r.None? <==> forall i :: 0 <= i < |legs| ==> Postable(accounts, legs[i].account)
    ensures r.Some? ==> FirstBadAccount(accounts, legs, r.value)
  {
    var seen: set<Uuid> := {};
    for i := 0 to |legs|
      invariant forall j :: 0 <= j < i ==> Postable(accounts, legs[j].account)
      invariant forall a :: a in seen ==> Postable(accounts, a)
    {
      var account := legs[i].account;
      if account !in seen {
        if account !in accounts { return Some(NoSuchAccount); }
        if !accounts[account].active { return Some(InactiveAccount); }
        seen := seen + {account};
      }
    }
    return None;
  }

  /**
   Posts an entry exactly when its reference is new, it has two legs or more, all amounts are
   positive, debits equal credits and all accounts can take postings; otherwise reports the first
   of these that fails and changes nothing.
   */
  method RecordJournalEntry(
    repo: Repository, reference: string, description: string, legs: seq<Leg>, id: Uuid, postingIds: seq<Uuid>)
    returns (r: Outcome)
    requires repo.Consistent() && repo.Books() && repo.Referenced()
    requires id !in repo.entries && |postingIds| == |legs|
    modifies repo
    ensures repo.Consistent() && repo.Books() && repo.Referenced()
    ensures repo.accounts == old(repo.accounts) && repo.accountsByNumber == old(repo.accountsByNumber)
    ensures r.Rejected? ==> repo.postings == old(repo.postings) && repo.entries == old(repo.entries)
                            && repo.entriesByRef == old(repo.entriesByRef)
    ensures r.Posted? ==> Legs(r.entry.postings, id, legs) && repo.postings == old(repo.postings) + r.entry.postings
    ensures r == Rejected(DuplicateReference) <==> reference in old(repo.entriesByRef)
    ensures r == Rejected(TooFewLegs) <==> reference !in old(repo.entriesByRef) && |legs| < 2
    ensures reference !in old(repo.entriesByRef) && |legs| >= 2 ==>
              && (r == Rejected(NotPositive) <==> !AllPositive(legs))
              && (r == Rejected(Unbalanced) <==> AllPositive(legs) && LegTotal(legs, Debit) != LegTotal(legs, Credit))
              && (r.Posted? <==>
                    && AllPositive(legs) && LegTotal(legs, Debit) == LegTotal(legs, Credit)
                    && forall i :: 0 <= i < |legs| ==> Postable(old(repo.accounts), legs[i].account))
              && (r.Rejected? && AllPositive(legs) && LegTotal(legs, Debit) == LegTotal(legs, Credit) ==>
                    FirstBadAccount(old(repo.accounts), legs, r.error))
  {
    if reference in repo.entriesByRef && repo.entriesByRef[reference] in repo.entries {
      return Rejected(DuplicateReference);
    }
    if |legs| < 2 { return Rejected(TooFewLegs); }
    var sums := SumLegs(legs);
    if sums.None? { return Rejected(NotPositive); }
    if sums.value.0 != sums.value.1 { return Rejected(Unbalanced); }
    var bad := CheckAccounts(repo.accounts, legs);
    if bad.Some? { return Rejected(bad.value); }
    var entry := repo.CreateJournalEntry(reference, description, legs, false, id, postingIds);
    PostedKeepsBooks(old(repo.postings), entry.postings, id, legs);
    return Posted(entry);
  }

  lemma PostedKeepsBooks(ps: seq<Posting>, more: seq<Posting>, id: Uuid, legs: seq<Leg>)
    requires Total(ps, Debit) == Total(ps, Credit) && Legs(more, id, legs)
    requires LegTotal(legs, Debit) == LegTotal(legs, Credit)
    ensures Total(ps + more, Debit) == Total(ps + more, Credit)
  {
    LegsTotal(more, id, legs, Debit);
    LegsTotal(more, id, legs, Credit);
    TotalConcat(ps, more, Debit);
    TotalConcat(ps, more, Credit);
  }

  // ----- What the books say -----

  /** Over all accounts of the ledger, debit totals and credit totals agree. */
  lemma TrialBalance(repo: Repository)
    requires repo.Books()
    ensures SumOver(repo.accounts.Keys, repo.postings, Debit) == SumOver(repo.accounts.Keys, repo.postings, Credit)
  {
    SumOverAccounts(repo.accounts.Keys, repo.postings, Debit);
    SumOverAccounts(repo.accounts.Keys, repo.postings, Credit);
  }

  predicate DebitNormal(kind: AccountType) {
    kind == Asset || kind == Expense
  }

  /** The balance shown for an account, on the side that is normal for its type. */
  ghost function Balance(account: Account, ps: seq<Posting>): int {
    var debits, credits := AccountTotal(ps, account.id, Debit), AccountTotal(ps, account.id, Credit);
    if DebitNormal(account.kind) then debits - credits else credits - debits
  }

  /**
   A debit raises the balance of assets and expenses and lowers that of liabilities, equity and
   revenue, a credit does the opposite, and postings to other accounts do not matter.
   */
  lemma PostingMovesBalance(account: Account, ps: seq<Posting>, p: Posting)
    ensures Balance(account, []) == 0
    ensures p.account != account.id ==> Balance(account, ps + [p]) == Balance(account, ps)
    ensures p.account == account.id && p.direction == Debit ==>
              Balance(account, ps + [p]) ==
              Balance(account, ps) + if account.kind == Asset || account.kind == Expense then p.amount else -p.amount
    ensures p.account == account.id && p.direction == Credit ==>
              Balance(account, ps + [p]) ==
              Balance(account, ps) + if account.kind == Asset || account.kind == Expense then -p.amount else p.amount
  {
    AccountTotalAppend(ps, p, account.id, Debit);
    AccountTotalAppend(ps, p, account.id, Credit);
  }

  /** The postings of an account are those that name it, in their order. */
  lemma {:induction false} OfIsFilter(ps: seq<Posting>, qs: seq<Posting>, p: Posting, account: Uuid)
    ensures Of([p], account) == if p.account == account then [p] else []
    ensures Of(ps + qs, account) == Of(ps, account) + Of(qs, account)
    decreases |qs|
  {
    assert [p][..0] == [];
    if qs == [] {
      assert ps + qs == ps;
    } else {
      var n := |qs| - 1;
      assert (ps + qs)[..|ps + qs| - 1] == ps + qs[..n];
      OfIsFilter(ps, qs[..n], p, account);
    }
  }

  /** `get_account_balance`; None stands for an unknown account. */
  method GetAccountBalance(repo: Repository, id: Uuid) returns (balance: Option<int>)
    requires forall a :: a in repo.accounts ==> repo.accounts[a].id == a
    ensures balance.None? <==> id !in repo.accounts
    ensures balance.Some? ==> balance.value == Balance(repo.accounts[id], repo.postings)
  {
    if id !in repo.accounts { return None; }
    var debits, credits := repo.GetAccountBalanceAggregates(id);
    if repo.accounts[id].kind == Asset || repo.accounts[id].kind == Expense {
      return Some(debits - credits);
    }
    return Some(credits - debits);
  }

  ghost function BalanceSum(accounts: map<Uuid, Account>, ids: set<Uuid>, ps: seq<Posting>): int
    requires ids <= accounts.Keys
  {
    if ids == {} then 0
    else
      var a := Pick(ids);
      Balance(accounts[a], ps) + BalanceSum(accounts, ids - {a}, ps)
  }

  ghost function OfSide(accounts: map<Uuid, Account>, debitNormal: bool): set<Uuid> {
    set a | a in accounts && DebitNormal(accounts[a].kind) == debitNormal
  }

  lemma {:induction false} BalanceSumOneSide(
    accounts: map<Uuid, Account>, ids: set<Uuid>, ps: seq<Posting>, debitNormal: bool)
    requires ids <= OfSide(accounts, debitNormal) && forall a :: a in accounts ==> accounts[a].id == a
    ensures BalanceSum(accounts, ids, ps) ==
            if debitNormal then SumOver(ids, ps, Debit) - SumOver(ids, ps, Credit)
            else SumOver(ids, ps, Credit) - SumOver(ids, ps, Debit)
  {
    if ids != {} {
      var a := Pick(ids);
      assert a in OfSide(accounts, debitNormal);
      BalanceSumOneSide(accounts, ids - {a}, ps, debitNormal);
    }
  }

  /** Assets and expenses together equal liabilities, equity and revenue together. */
  lemma AccountingEquation(repo: Repository)
    requires repo.Books() && forall a :: a in repo.accounts ==> repo.accounts[a].id == a
    ensures BalanceSum(repo.accounts, OfSide(repo.accounts, true), repo.postings) ==
            BalanceSum(repo.accounts, OfSide(repo.accounts, false), repo.postings)
  {
    var all, left, right := repo.accounts.Keys, OfSide(repo.accounts, true), OfSide(repo.accounts, false);
    assert right == all - left;
    TrialBalance(repo);
    SumOverSplit(all, left, repo.postings, Debit);
    SumOverSplit(all, left, repo.postings, Credit);
    BalanceSumOneSide(repo.accounts, left, repo.postings, true);
    BalanceSumOneSide(repo.accounts, right, repo.postings, false);
  }

  // ----- One currency at a time -----

  ghost function InCurrency(accounts: map<Uuid, Account>, currency: string): set<Uuid> {
    set a | a in accounts && accounts[a].currency == currency
  }

  ghost predicate BalancedOn(accounts: set<Uuid>, ps: seq<Posting>) {
    SumOver(accounts, ps, Debit) == SumOver(accounts, ps, Credit)
  }

  lemma {:induction false} SumOverConcat(accounts: set<Uuid>, ps: seq<Posting>, qs: seq<Posting>, d: Direction)
    ensures SumOver(accounts, ps + qs, d) == SumOver(accounts, ps, d) + SumOver(accounts, qs, d)
    decreases |qs|
  {
    if qs == [] {
      assert ps + qs == ps;
      SumOverEmpty(accounts, d);
    } else {
      var n := |qs| - 1;
      assert ps + qs == (ps + qs[..n]) + [qs[n]] && qs == qs[..n] + [qs[n]];
      SumOverConcat(accounts, ps, qs[..n], d);
      SumOverAppend(accounts, ps + qs[..n], qs[n], d);
      SumOverAppend(accounts, qs[..n], qs[n], d);
    }
  }

  ghost function Flattened(entries: seq<seq<Posting>>): seq<Posting> {
    if entries == [] then [] else Flattened(entries[..|entries| - 1]) + entries[|entries| - 1]
  }

  /**
   The debits and credits of the accounts of one currency agree after every entry, if and only if
   every entry balances within that currency.  The service checks only the sum over all currencies.
   */
  lemma {:induction false} CurrencyBalancesIff(accounts: map<Uuid, Account>, currency: string, entries: seq<seq<Posting>>)
    ensures (forall k :: 0 <= k <= |entries| ==> BalancedOn(InCurrency(accounts, currency), Flattened(entries[..k]))) <==>
            (forall i :: 0 <= i < |entries| ==> BalancedOn(InCurrency(accounts, currency), entries[i]))
  {
    hide BalancedOn;
    var part := InCurrency(accounts, currency);
    if entries == [] {
      NothingPosted(part);
      assert entries[..0] == [];
    } else {
      var n := |entries| - 1;
      CurrencyBalancesIff(accounts, currency, entries[..n]);
      assert forall k :: 0 <= k <= n ==> entries[..n][..k] == entries[..k];
      assert entries[..n + 1] == entries && Flattened(entries) == Flattened(entries[..n]) + entries[n];
      OneMoreBalances(part, Flattened(entries[..n]), entries[n]);
      assert entries[..n][..n] == entries[..n];
    }
  }

  lemma NothingPosted(part: set<Uuid>)
    ensures BalancedOn(part, [])
  {
    SumOverEmpty(part, Debit);
    SumOverEmpty(part, Credit);
  }

  lemma OneMoreBalances(part: set<Uuid>, ps: seq<Posting>, more: seq<Posting>)
    ensures BalancedOn(part, ps) ==> (BalancedOn(part, ps + more) <==> BalancedOn(part, more))
  {
    SumOverConcat(part, ps, more, Debit);
    SumOverConcat(part, ps, more, Credit);
  }

  /** Two legs of the same amount on accounts in two currencies: they balance, but neither currency does. */
  lemma TwoCurrencyLegs(accounts: map<Uuid, Account>, id: Uuid, legs: seq<Leg>, ps: seq<Posting>)
    requires 1 in accounts && accounts[1].currency == "EUR" && 2 in accounts && accounts[2].currency == "USD"
    requires legs == [Leg(1, 100, Debit), Leg(2, 100, Credit)]
    ensures AllPositive(legs) && LegTotal(legs, Debit) == LegTotal(legs, Credit)
    ensures Legs(ps, id, legs) ==>
              !BalancedOn(InCurrency(accounts, "EUR"), ps) && !BalancedOn(InCurrency(accounts, "USD"), ps)
  {
    assert legs[..1] == [legs[0]] && legs[..1][..0] == [];
    assert LegTotal(legs[..1], Debit) == LegTotal(legs[..1][..0], Debit) + 100;
    assert LegTotal(legs[..1], Credit) == LegTotal(legs[..1][..0], Credit);
    if Legs(ps, id, legs) {
      assert ps == [ps[0]] + [ps[1]] && [ps[0]] == [] + [ps[0]];
      forall part, d ensures SumOver(part, ps, d) ==
                             (if ps[0].account in part then Amount(ps[0], d) else 0)
                             + (if ps[1].account in part then Amount(ps[1], d) else 0)
      {
        SumOverAppend(part, [ps[0]], ps[1], d);
        SumOverAppend(part, [], ps[0], d);
        SumOverEmpty(part, d);
      }
    }
  }

  /** The service posts such an entry to a new ledger, and neither currency balances. */
  method TwoCurrencyEntry(upper: string -> string) returns (repo: Repository, r: Outcome)
    requires upper("EUR") == "EUR" && upper("USD") == "USD"
    ensures r.Posted? && repo.postings == r.entry.postings
    ensures !BalancedOn(InCurrency(repo.accounts, "EUR"), repo.postings)
    ensures !BalancedOn(InCurrency(repo.accounts, "USD"), repo.postings)
  {
    hide BalancedOn, InCurrency;
    repo := new Repository();
    var euros := repo.CreateAccount(1, "1", "euros", Asset, "EUR", upper);
    var dollars := repo.CreateAccount(2, "2", "dollars", Asset, "USD", upper);
    var legs := [Leg(1, 100, Debit), Leg(2, 100, Credit)];
    TwoCurrencyLegs(repo.accounts, 0, legs, []);
    r := RecordJournalEntry(repo, "r", "", legs, 0, [0, 1]);
    TwoCurrencyLegs(repo.accounts, 0, legs, r.entry.postings);
  }
}
