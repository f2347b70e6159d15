/**
 The in-memory user repository: a primary store, two inverted indexes and a version per user.
 The first part treats the repository as a value; the second is the class whose entities are
 changed in place, proved to do what the first part says.
 */
module UserStore {
  import opened Wrappers

  /** A user; fields that no index or lock depends on are kept together as `profile`. */
  datatype User = User(
    email: string, username: string, version: int, permissions: int, nid: Option<string>, profile: map<string, string>)

  datatype Repo = Repo(
    users: map<int, User>, emailIndex: map<string, int>, usernameIndex: map<string, int>, currentId: int)

  /** Fields that an update sets; None and absent profile keys leave a field alone. */
  datatype Changes = Changes(email: Option<string>, username: Option<string>, profile: map<string, string>)

  function SetUser(r: Repo, id: int, u: User): Repo {
    r.(users := r.users[id := u])
  }

  function Create(r: Repo, email: string, username: string, permissions: int, nid: Option<string>, profile: map<string, string>): Repo {
    var id := r.currentId + 1;
    Repo(r.users[id := User(email, username, 1, permissions, nid, profile)],
         r.emailIndex[email := id], r.usernameIndex[username := id], id)
  }

  function SetEmail(r: Repo, id: int, email: Option<string>): Repo
    requires id in r.users
  {
    var u := r.users[id];
    if email.None? || email.value == u.email then r
    else SetUser(r, id, u.(email := email.value)).(emailIndex := (r.emailIndex - {u.email})[email.value := id])
  }

  function SetUsername(r: Repo, id: int, username: Option<string>): Repo
    requires id in r.users
  {
    var u := r.users[id];
    if username.None? || username.value == u.username then r
    else SetUser(r, id, u.(username := username.value)).(
           usernameIndex := (r.usernameIndex - {u.username})[username.value := id])
  }

  function SetProfile(r: Repo, id: int, profile: map<string, string>, bump: int): Repo
    requires id in r.users
  {
    var u := r.users[id];
    SetUser(r, id, u.(profile := u.profile + profile, version := u.version + bump))
  }

  /** `update`: an unknown id changes nothing; the version stays. */
  function Update(r: Repo, id: int, c: Changes): Repo {
    if id !in r.users then r
    else SetProfile(SetUsername(SetEmail(r, id, c.email), id, c.username), id, c.profile, 0)
  }

  /** `update_with_optimistic_lock`: refused unless the expected version is the current one. */
  function UpdateOptimistic(r: Repo, id: int, expected: int, c: Changes): Option<Repo> {
    if id !in r.users || r.users[id].version != expected then None
    else Some(SetProfile(SetUsername(SetEmail(r, id, c.email), id, c.username), id, c.profile, 1))
  }

  function UpdateNid(r: Repo, id: int, nid: Option<string>): Repo {
    if id !in r.users then r
    else SetUser(r, id, r.users[id].(nid := nid, version := r.users[id].version + 1))
  }

  /** `update_permissions` builds a new entity and does not carry the national id over. */
  function UpdatePermissions(r: Repo, id: int, permissions: int): Repo {
    if id !in r.users then r
    else SetUser(r, id, r.users[id].(permissions := permissions, nid := None, version := r.users[id].version + 1))
  }

  function Delete(r: Repo, id: int): Repo {
    if id !in r.users then r
    else r.(users := r.users - {id},
            emailIndex := r.emailIndex - {r.users[id].email},
            usernameIndex := r.usernameIndex - {r.users[id].username})
  }

  function FindByEmail(r: Repo, email: string): Option<User> {
    if email in r.emailIndex && r.emailIndex[email] in r.users then Some(r.users[r.emailIndex[email]]) else None
  }

  function FindByUsername(r: Repo, username: string): Option<User> {
    if username in r.usernameIndex && r.usernameIndex[username] in r.users
    then Some(r.users[r.usernameIndex[username]]) else None
  }

  // ----- The indexes are inverses of the store -----

  ghost predicate EmailsExact(r: Repo) {
    && (forall id :: id in r.users ==> r.users[id].email in r.emailIndex && r.emailIndex[r.users[id].email] == id)
    && (forall e :: e in r.emailIndex ==> r.emailIndex[e] in r.users && r.users[r.emailIndex[e]].email == e)
  }

  ghost predicate UsernamesExact(r: Repo) {
    && (forall id :: id in r.users ==>
          r.users[id].username in r.usernameIndex && r.usernameIndex[r.users[id].username] == id)
    && (forall n :: n in r.usernameIndex ==>
          r.usernameIndex[n] in r.users && r.users[r.usernameIndex[n]].username == n)
  }

  ghost predicate Exact(r: Repo) {
    && EmailsExact(r) && UsernamesExact(r)
    && (forall id :: id in r.users ==> id <= r.currentId)
  }

  /** An e-mail address that nobody else has. */
  ghost predicate EmailFree(r: Repo, id: int, email: Option<string>) {
    email.Some? && email.value in r.emailIndex ==> r.emailIndex[email.value] == id
  }

  ghost predicate UsernameFree(r: Repo, id: int, username: Option<string>) {
    username.Some? && username.value in r.usernameIndex ==> r.usernameIndex[username.value] == id
  }

  lemma CreateKeepsIff(r: Repo, email: string, username: string, permissions: int, nid: Option<string>, profile: map<string, string>)
    requires Exact(r)
    ensures Exact(Create(r, email, username, permissions, nid, profile)) <==>
            email !in r.emailIndex && username !in r.usernameIndex
  {
    var r', id := Create(r, email, username, permissions, nid, profile), r.currentId + 1;
    assert id !in r.users && r'.users[id].email == email && r'.users[id].username == username;
    if email in r.emailIndex {
      var other := r.emailIndex[email];
      assert other in r'.users && r'.users[other].email == email && other != id;
    }
    if username in r.usernameIndex {
      var other := r.usernameIndex[username];
      assert other in r'.users && r'.users[other].username == username && other != id;
    }
  }

  lemma SetEmailKeepsIff(r: Repo, id: int, email: Option<string>)
    requires Exact(r) && id in r.users
    ensures Exact(SetEmail(r, id, email)) <==> EmailFree(r, id, email)
    ensures EmailsExact(SetEmail(r, id, email)) <==> EmailFree(r, id, email)
    ensures SetEmail(r, id, email).usernameIndex == r.usernameIndex && id in SetEmail(r, id, email).users
  {}

  lemma SetUsernameKeepsIff(r: Repo, id: int, username: Option<string>)
    requires Exact(r) && id in r.users
    ensures Exact(SetUsername(r, id, username)) <==> UsernameFree(r, id, username)
    ensures id in SetUsername(r, id, username).users
  {}

  lemma SetProfileKeeps(r: Repo, id: int, profile: map<string, string>, bump: int)
    requires id in r.users
    ensures Exact(SetProfile(r, id, profile, bump)) <==> Exact(r)
  {
    var r' := SetProfile(r, id, profile, bump);
    assert r'.users.Keys == r.users.Keys;
    assert forall i :: i in r.users ==> r'.users[i].email == r.users[i].email && r'.users[i].username == r.users[i].username;
  }

  /** Renaming a user leaves the e-mail side as it was. */
  lemma SetUsernameSameEmails(r: Repo, id: int, username: Option<string>)
    requires id in r.users
    ensures EmailsExact(SetUsername(r, id, username)) <==> EmailsExact(r)
    ensures id in SetUsername(r, id, username).users
  {
    var r' := SetUsername(r, id, username);
    assert r'.users.Keys == r.users.Keys;
    assert forall i :: i in r.users ==> r'.users[i].email == r.users[i].email;
  }

  ghost function UpdateFields(r: Repo, id: int, c: Changes, bump: int): Repo
    requires id in r.users
  {
    SetProfile(SetUsername(SetEmail(r, id, c.email), id, c.username), id, c.profile, bump)
  }

  /** An update keeps both indexes exact if and only if nobody else has the new address or name. */
  lemma UpdateKeepsIff(r: Repo, id: int, c: Changes, bump: int)
    requires Exact(r) && id in r.users
    ensures Exact(UpdateFields(r, id, c, bump)) <==> EmailFree(r, id, c.email) && UsernameFree(r, id, c.username)
  {
    hide SetEmail, SetUsername, SetProfile, EmailsExact, UsernamesExact;
    var r1 := SetEmail(r, id, c.email);
    SetEmailKeepsIff(r, id, c.email);
    SetUsernameSameEmails(r1, id, c.username);
    SetProfileKeeps(SetUsername(r1, id, c.username), id, c.profile, bump);
    if EmailFree(r, id, c.email) {
      SetUsernameKeepsIff(r1, id, c.username);
    }
  }

  /** Changing permissions leaves the rest of a user as it was exactly when there is no national id to lose. */
  lemma PermissionsKeepRestIff(r: Repo, id: int, permissions: int)
    requires id in r.users
    ensures UpdatePermissions(r, id, permissions)
            == SetUser(r, id, r.users[id].(permissions := permissions, version := r.users[id].version + 1))
            <==> r.users[id].nid == None
  {
    var u, t := UpdatePermissions(r, id, permissions).users[id], r.users[id];
    assert u == t.(permissions := permissions, version := t.version + 1) <==> t.nid == None;
  }

  lemma DeleteKeeps(r: Repo, id: int)
    requires Exact(r)
    ensures Exact(Delete(r, id))
  {}

  /** With exact indexes a lookup finds precisely the user a scan of the store would find. */
  lemma LookupIsScan(r: Repo, email: string, u: User)
    requires Exact(r)
    ensures FindByEmail(r, email) == Some(u) <==> exists id :: id in r.users && r.users[id] == u && u.email == email
    ensures FindByEmail(r, email) == None <==> forall id :: id in r.users ==> r.users[id].email != email
  {
    forall id | id in r.users && r.users[id].email == email ensures FindByEmail(r, email) == Some(r.users[id]) {}
    if email in r.emailIndex {
      var id := r.emailIndex[email];
      assert id in r.users && r.users[id].email == email;
    }
  }

  lemma UsernameLookupIsScan(r: Repo, username: string, u: User)
    requires Exact(r)
    ensures FindByUsername(r, username) == Some(u) <==>
            exists id :: id in r.users && r.users[id] == u && u.username == username
    ensures FindByUsername(r, username) == None <==> forall id :: id in r.users ==> r.users[id].username != username
  {
    forall id | id in r.users && r.users[id].username == username
      ensures FindByUsername(r, username) == Some(r.users[id]) {}
    if username in r.usernameIndex {
      var id := r.usernameIndex[username];
      assert id in r.users && r.users[id].username == username;
    }
  }

  // ----- What a call leaves behind -----

  function Chosen(wanted: Option<string>, had: string): string {
    if wanted.Some? then wanted.value else had
  }

  /** Ids, counters and all users but one are as they were. */
  ghost predicate OthersKept(r: Repo, r': Repo, id: int) {
    && r'.currentId == r.currentId && r'.users.Keys == r.users.Keys
    && (forall other :: other in r.users && other != id ==> r'.users[other] == r.users[other])
  }

  /** The fields named in the changes have their new values and all other fields their old ones. */
  ghost predicate FieldsSet(u: User, u': User, c: Changes, bump: int) {
    && (c.email.Some? ==> u'.email == c.email.value) && (c.email.None? ==> u'.email == u.email)
    && (c.username.Some? ==> u'.username == c.username.value) && (c.username.None? ==> u'.username == u.username)
    && u'.profile.Keys == u.profile.Keys + c.profile.Keys
    && (forall k :: k in c.profile ==> u'.profile[k] == c.profile[k])
    && (forall k :: k in u.profile && k !in c.profile ==> u'.profile[k] == u.profile[k])
    && u'.version == u.version + bump && u'.permissions == u.permissions && u'.nid == u.nid
  }

  lemma SetEmailSets(r: Repo, id: int, email: Option<string>)
    requires id in r.users
    ensures OthersKept(r, SetEmail(r, id, email), id)
    ensures SetEmail(r, id, email).users[id] == r.users[id].(email := Chosen(email, r.users[id].email))
  {}

  lemma SetUsernameSets(r: Repo, id: int, username: Option<string>)
    requires id in r.users
    ensures OthersKept(r, SetUsername(r, id, username), id)
    ensures SetUsername(r, id, username).users[id] == r.users[id].(username := Chosen(username, r.users[id].username))
  {}

  lemma FieldsAreSet(r: Repo, id: int, c: Changes, bump: int)
    requires id in r.users
    ensures var r' := UpdateFields(r, id, c, bump);
            OthersKept(r, r', id) && FieldsSet(r.users[id], r'.users[id], c, bump)
  {
    hide SetEmail, SetUsername;
    SetEmailSets(r, id, c.email);
    var r1 := SetEmail(r, id, c.email);
    SetUsernameSets(r1, id, c.username);
  }

  /** `update` sets the fields it names on the user it names, and nothing else; an unknown id changes nothing. */
  lemma UpdateTakesEffect(r: Repo, id: int, c: Changes)
    ensures id !in r.users ==> Update(r, id, c) == r
    ensures id in r.users ==>
              var r' := Update(r, id, c);
              OthersKept(r, r', id) && FieldsSet(r.users[id], r'.users[id], c, 0)
  {
    if id in r.users { FieldsAreSet(r, id, c, 0); }
  }

  /** The optimistic update does the same and raises the version by one, exactly when the version is the expected one. */
  lemma OptimisticTakesEffect(r: Repo, id: int, expected: int, c: Changes)
    ensures UpdateOptimistic(r, id, expected, c).Some? <==> id in r.users && r.users[id].version == expected
    ensures UpdateOptimistic(r, id, expected, c).Some? ==>
              var r' := UpdateOptimistic(r, id, expected, c).value;
              OthersKept(r, r', id) && FieldsSet(r.users[id], r'.users[id], c, 1)
  {
    if id in r.users { FieldsAreSet(r, id, c, 1); }
  }

  /** With free names: the new address and name lead to the user, abandoned ones to nobody, all others where they led. */
  ghost predicate LookupsMoved(r: Repo, r': Repo, id: int)
    requires id in r.users && id in r'.users
  {
    var u, u' := r.users[id], r'.users[id];
    && FindByEmail(r', u'.email) == Some(u') && FindByUsername(r', u'.username) == Some(u')
    && (u.email != u'.email ==> FindByEmail(r', u.email) == None)
    && (u.username != u'.username ==> FindByUsername(r', u.username) == None)
    && (forall e :: e != u.email && e != u'.email ==> FindByEmail(r', e) == FindByEmail(r, e))
    && (forall n :: n != u.username && n != u'.username ==> FindByUsername(r', n) == FindByUsername(r, n))
  }

  lemma LookupsFollow(r: Repo, r': Repo, id: int)
    requires Exact(r) && Exact(r') && id in r.users && OthersKept(r, r', id)
    ensures LookupsMoved(r, r', id)
  {
    var u, u' := r.users[id], r'.users[id];
    forall e | e != u.email && e != u'.email ensures FindByEmail(r', e) == FindByEmail(r, e) {
      if e in r.emailIndex { assert r.emailIndex[e] != id && r'.users[r.emailIndex[e]].email == e; }
      if e in r'.emailIndex { assert r'.emailIndex[e] != id && r.users[r'.emailIndex[e]].email == e; }
    }
    forall n | n != u.username && n != u'.username ensures FindByUsername(r', n) == FindByUsername(r, n) {
      if n in r.usernameIndex { assert r.usernameIndex[n] != id && r'.users[r.usernameIndex[n]].username == n; }
      if n in r'.usernameIndex { assert r'.usernameIndex[n] != id && r.users[r'.usernameIndex[n]].username == n; }
    }
    forall j | j in r.users && j != id ensures r'.users[j].email != u.email && r'.users[j].username != u.username {
      assert r.emailIndex[r.users[j].email] == j && r.usernameIndex[r.users[j].username] == j;
    }
    LookupIsScan(r', u.email, u');
    UsernameLookupIsScan(r', u.username, u');
  }

  lemma UpdateMovesLookups(r: Repo, id: int, c: Changes)
    requires Exact(r) && id in r.users && EmailFree(r, id, c.email) && UsernameFree(r, id, c.username)
    ensures var r' := Update(r, id, c); id in r'.users && LookupsMoved(r, r', id)
    ensures var r' := UpdateOptimistic(r, id, r.users[id].version, c); r'.Some? && id in r'.value.users && LookupsMoved(r, r'.value, id)
  {
    hide SetEmail, SetUsername, SetProfile, LookupsMoved;
    FieldsAreSet(r, id, c, 0);
    FieldsAreSet(r, id, c, 1);
    UpdateKeepsIff(r, id, c, 0);
    UpdateKeepsIff(r, id, c, 1);
    LookupsFollow(r, UpdateFields(r, id, c, 0), id);
    LookupsFollow(r, UpdateFields(r, id, c, 1), id);
  }

  /** A created user gets the next id, version 1 and the fields passed, and is found by address and name. */
  lemma CreateTakesEffect(r: Repo, email: string, username: string, permissions: int, nid: Option<string>, profile: map<string, string>)
    ensures var r', id := Create(r, email, username, permissions, nid, profile), r.currentId + 1;
            && r'.currentId == id && r'.users.Keys == r.users.Keys + {id}
            && (forall other :: other in r.users && other != id ==> r'.users[other] == r.users[other])
            && var u := r'.users[id];
            && u.email == email && u.username == username && u.version == 1
            && u.permissions == permissions && u.nid == nid && u.profile == profile
            && FindByEmail(r', email) == Some(u) && FindByUsername(r', username) == Some(u)
  {}

  /** A deleted user is gone from the store and from both lookups; nobody else is. */
  lemma DeleteTakesEffect(r: Repo, id: int)
    requires Exact(r)
    ensures var r' := Delete(r, id);
            && r'.users.Keys == r.users.Keys - {id} && r'.currentId == r.currentId
            && (forall other :: other in r.users && other != id ==>
                  && r'.users[other] == r.users[other]
                  && FindByEmail(r', r.users[other].email) == Some(r.users[other])
                  && FindByUsername(r', r.users[other].username) == Some(r.users[other]))
            && (id in r.users ==>
                  FindByEmail(r', r.users[id].email) == None && FindByUsername(r', r.users[id].username) == None)
  {
    var r' := Delete(r, id);
    forall other | other in r.users && other != id
      ensures FindByEmail(r', r.users[other].email) == Some(r.users[other])
      ensures FindByUsername(r', r.users[other].username) == Some(r.users[other])
    {
      assert id in r.users ==> r.users[id].email != r.users[other].email && r.users[id].username != r.users[other].username;
    }
  }

  /** A new national id or new permissions raise the version, move no lookup and touch no other user. */
  lemma FieldUpdatesTakeEffect(r: Repo, id: int, nid: Option<string>, permissions: int)
    requires id in r.users
    ensures var r1, r2 := UpdateNid(r, id, nid), UpdatePermissions(r, id, permissions);
            && OthersKept(r, r1, id) && r1.users[id] == r.users[id].(nid := nid, version := r.users[id].version + 1)
            && OthersKept(r, r2, id) && r2.users[id].(nid := r.users[id].nid) ==
                 r.users[id].(permissions := permissions, version := r.users[id].version + 1)
            && r1.emailIndex == r2.emailIndex == r.emailIndex && r1.usernameIndex == r2.usernameIndex == r.usernameIndex
  {}

  // ----- Runs -----

  datatype Step =
    | DoCreate(email: string, username: string, permissions: int, nid: Option<string>, profile: map<string, string>)
    | DoUpdate(id: int, changes: Changes)
    | DoOptimistic(id: int, expected: int, changes: Changes)
    | DoNid(id: int, nid: Option<string>)
    | DoPermissions(id: int, permissions: int)
    | DoDelete(id: int)

  ghost function Apply(r: Repo, step: Step): Repo {
    match step
    case DoCreate(e, n, p, nid, profile) => Create(r, e, n, p, nid, profile)
    case DoUpdate(id, c) => Update(r, id, c)
    case DoOptimistic(id, v, c) => if UpdateOptimistic(r, id, v, c).Some? then UpdateOptimistic(r, id, v, c).value else r
    case DoNid(id, nid) => UpdateNid(r, id, nid)
    case DoPermissions(id, p) => UpdatePermissions(r, id, p)
    case DoDelete(id) => Delete(r, id)
  }

  /** Callers pass only addresses and names that are free. */
  ghost predicate Polite(r: Repo, step: Step) {
    match step
    case DoCreate(e, n, _, _, _) => e !in r.emailIndex && n !in r.usernameIndex
    case DoUpdate(id, c) => id in r.users ==> EmailFree(r, id, c.email) && UsernameFree(r, id, c.username)
    case DoOptimistic(id, v, c) =>
      id in r.users && r.users[id].version == v ==> EmailFree(r, id, c.email) && UsernameFree(r, id, c.username)
    case _ => true
  }

  ghost predicate Run(repos: seq<Repo>, steps: seq<Step>) {
    && |repos| == |steps| + 1
    && repos[0] == Repo(map[], map[], map[], 0)
    && forall i :: 0 <= i < |steps| ==> repos[i + 1] == Apply(repos[i], steps[i])
  }

  /** A step keeps both indexes exact if and only if it passes free addresses and names. */
  lemma ExactKeptIff(r: Repo, step: Step)
    requires Exact(r)
    ensures Exact(Apply(r, step)) <==> Polite(r, step)
  {
    match step
    case DoCreate(e, n, p, nid, profile) => CreateKeepsIff(r, e, n, p, nid, profile);
    case DoUpdate(id, c) => if id in r.users { UpdateKeepsIff(r, id, c, 0); }
    case DoOptimistic(id, v, c) => if id in r.users { UpdateKeepsIff(r, id, c, 1); }
    case DoNid(id, nid) =>
    case DoPermissions(id, p) =>
    case DoDelete(id) => DeleteKeeps(r, id);
  }

  lemma {:induction false} RunExact(repos: seq<Repo>, steps: seq<Step>, i: nat)
    requires Run(repos, steps) && i < |repos|
    requires forall j :: 0 <= j < |steps| ==> Polite(repos[j], steps[j])
    ensures Exact(repos[i])
  {
    if i > 0 {
      RunExact(repos, steps, i - 1);
      assert repos[i - 1 + 1] == Apply(repos[i - 1], steps[i - 1]);
      ExactKeptIff(repos[i - 1], steps[i - 1]);
    }
  }

  /** Ids are never reused, and the version of a user never goes back. */
  ghost predicate Later(r: Repo, r': Repo) {
    && r.currentId <= r'.currentId
    && (forall id :: id in r'.users && id <= r.currentId ==>
          id in r.users && r.users[id].version <= r'.users[id].version)
    && (forall id :: id in r'.users ==> id <= r'.currentId)
  }

  lemma StepIsLater(r: Repo, step: Step)
    requires forall id :: id in r.users ==> id <= r.currentId
    ensures Later(r, Apply(r, step))
    ensures step.DoOptimistic? && UpdateOptimistic(r, step.id, step.expected, step.changes).Some? ==>
              step.id in Apply(r, step).users && Apply(r, step).users[step.id].version > step.expected
              && step.id <= r.currentId
  {}

  lemma {:induction false} RunIsLater(repos: seq<Repo>, steps: seq<Step>, i: nat, j: nat)
    requires Run(repos, steps) && i <= j < |repos|
    ensures Later(repos[i], repos[j])
  {
    if i == j {
      if i > 0 {
        RunIsLater(repos, steps, 0, i - 1);
        assert repos[i - 1 + 1] == Apply(repos[i - 1], steps[i - 1]);
        StepIsLater(repos[i - 1], steps[i - 1]);
      }
    } else {
      RunIsLater(repos, steps, i, j - 1);
      assert repos[j - 1 + 1] == Apply(repos[j - 1], steps[j - 1]);
      StepIsLater(repos[j - 1], steps[j - 1]);
    }
  }

  ghost predicate Wins(r: Repo, step: Step, id: int, expected: int) {
    step.DoOptimistic? && step.id == id && step.expected == expected &&
    UpdateOptimistic(r, id, expected, step.changes).Some?
  }

  /** Of all optimistic updates with one id and one expected version at most one ever succeeds. */
  lemma OneWinnerPerVersion(repos: seq<Repo>, steps: seq<Step>, i: nat, j: nat, id: int, expected: int)
    requires Run(repos, steps) && i < j < |steps|
    requires Wins(repos[i], steps[i], id, expected)
    ensures !Wins(repos[j], steps[j], id, expected)
  {
    RunIsLater(repos, steps, i, i);
    assert repos[i + 1] == Apply(repos[i], steps[i]);
    StepIsLater(repos[i], steps[i]);
    RunIsLater(repos, steps, i + 1, j);
  }

  // ----- The class -----

  /** A stored entity; repository methods change its fields in place. */
  class UserEntity {
    const id: int
    var email: string
    var username: string
    var version: int
    var permissions: int
    var nid: Option<string>
    var profile: map<string, string>

    constructor (id: int, u: User)
      ensures this.id == id && Value() == u
    {
      this.id := id;
      email, username, version, permissions, nid, profile :=
        u.email, u.username, u.version, u.permissions, u.nid, u.profile;
    }

    function Value(): User
      reads this
    {
      User(email, username, version, permissions, nid, profile)
    }
  }

  class UserRepository {
    var store: map<int, UserEntity>
    var emailIndex: map<string, int>
    var usernameIndex: map<string, int>
    var currentId: int

    constructor ()
      ensures Valid() && View() == Repo(map[], map[], map[], 0)
    {
      store, emailIndex, usernameIndex, currentId := map[], map[], map[], 0;
    }

    ghost predicate Valid()
      reads this
    {
      forall id :: id in store ==> store[id].id == id
    }

    ghost function Users(): map<int, User>
      reads this, store.Values
    {
      map id | id in store :: store[id].Value()
    }

    ghost function View(): Repo
      reads this, store.Values
    {
      Repo(Users(), emailIndex, usernameIndex, currentId)
    }

    method CreateUser(email: string, username: string, permissions: int, nid: Option<string>, profile: map<string, string>)
      returns (user: UserEntity)
      requires Valid()
      modifies this
      ensures Valid() && fresh(user) && store == old(store)[currentId := user]
      ensures View() == Create(old(View()), email, username, permissions, nid, profile)
    {
      currentId := currentId + 1;
      user := new UserEntity(currentId, User(email, username, 1, permissions, nid, profile));
      store := store[currentId := user];
      emailIndex := emailIndex[email := currentId];
      usernameIndex := usernameIndex[username := currentId];
      assert Users() == old(Users())[currentId := user.Value()];
    }

    /** The e-mail part of both update methods: index entry and entity field move together. */
    method ChangeEmail(id: int, email: Option<string>)
      requires Valid() && id in store
      modifies this`emailIndex, store[id]
      ensures Valid() && View() == SetEmail(old(View()), id, email)
    {
      var user := store[id];
      if email.Some? && email.value != user.email {
        emailIndex := (emailIndex - {user.email})[email.value := user.id];
        user.email := email.value;
        OnlyOneChanged(id, old(Users()));
      }
      assert Users() == SetEmail(old(View()), id, email).users;
    }

    method ChangeUsername(id: int, username: Option<string>)
      requires Valid() && id in store
      modifies this`usernameIndex, store[id]
      ensures Valid() && View() == SetUsername(old(View()), id, username)
    {
      var user := store[id];
      if username.Some? && username.value != user.username {
        usernameIndex := (usernameIndex - {user.username})[username.value := user.id];
        user.username := username.value;
        OnlyOneChanged(id, old(Users()));
      }
      assert Users() == SetUsername(old(View()), id, username).users;
    }

    lemma OnlyOneChanged(id: int, before: map<int, User>)
      requires Valid() && id in store && before.Keys == store.Keys
      requires forall i :: i in store && store[i] != store[id] ==> store[i].Value() == before[i]
      ensures Users() == before[id := store[id].Value()]
    {
      var after := before[id := store[id].Value()];
      forall i | i in store ensures Users()[i] == after[i] {
        assert store[i].id == i && store[id].id == id;
      }
      assert Users().Keys == store.Keys == after.Keys;
    }

    method UpdateUser(id: int, c: Changes) returns (user: UserEntity?)
      requires Valid()
      modifies this, if id in store then {store[id]} else {}
      ensures Valid() && store == old(store) && (user == null <==> id !in store)
      ensures View() == Update(old(View()), id, c)
    {
      if id !in store { return null; }
      user := store[id];
      ChangeEmail(id, c.email);
      ChangeUsername(id, c.username);
      ghost var before := Users();
      user.profile := user.profile + c.profile;
      OnlyOneChanged(id, before);
    }

    /** False stands for OptimisticLockException. */
    method UpdateWithOptimisticLock(id: int, expected: int, c: Changes) returns (ok: bool)
      requires Valid()
      modifies this, if id in store then {store[id]} else {}
      ensures Valid() && store == old(store)
      ensures ok <==> UpdateOptimistic(old(View()), id, expected, c).Some?
      ensures View() == if ok then UpdateOptimistic(old(View()), id, expected, c).value else old(View())
    {
      if id !in store || store[id].version != expected { return false; }
      var user := store[id];
      ChangeEmail(id, c.email);
      ChangeUsername(id, c.username);
      ghost var before := Users();
      user.profile := user.profile + c.profile;
      user.version := user.version + 1;
      OnlyOneChanged(id, before);
      return true;
    }

    method UpdatePermissionsOf(id: int, permissions: int) returns (user: UserEntity?)
      requires Valid()
      modifies this`store
      ensures Valid() && (user == null <==> id !in old(store))
      ensures View() == UpdatePermissions(old(View()), id, permissions)
    {
      if id !in store { return null; }
      var u := store[id].Value();
      user := new UserEntity(id, u.(permissions := permissions, nid := None, version := u.version + 1));
      store := store[id := user];
      assert Users() == old(Users())[id := user.Value()];
    }

    method DeleteUser(id: int) returns (ok: bool)
      requires Valid()
      modifies this
      ensures Valid() && (ok <==> id in old(store))
      ensures View() == Delete(old(View()), id)
    {
      if id !in store { return false; }
      var user := store[id];
      emailIndex := emailIndex - {user.email};
      usernameIndex := usernameIndex - {user.username};
      store := store - {id};
      assert Users() == old(Users()) - {id};
      return true;
    }

    method GetByEmail(email: string) returns (user: UserEntity?)
      ensures (if user == null then None else Some(user.Value())) == FindByEmail(View(), email)
    {
      if email !in emailIndex || emailIndex[email] !in store { return null; }
      return store[emailIndex[email]];
    }
  }
}
