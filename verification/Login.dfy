/** docs/ecosystem_shared/auth_pkce.py, _get_or_create_user: provisioning a user at each login. */
module Login {
  import opened Wrappers

  /** A row of the user table; the password counts only as usable or not. */
  datatype User = User(
    username: string, email: string, firstName: string, lastName: string,
    isStaff: bool, isSuperuser: bool, usablePassword: bool)

  type Store = seq<User>

  type Claims = map<string, string>

  /** Where the database may raise during one login. */
  datatype Fault = NoFault | GetOrCreateFails | PasswordSaveFails | ElevationSaveFails

  /** None returned, an exception let through, or the user of the session. */
  datatype Outcome = Rejected | Raised | LoggedIn(user: User)

  datatype Attempt = Attempt(claims: Claims, fault: Fault)

  function Claim(claims: Claims, key: string): (r: string)
    ensures key in claims ==> r == claims[key]
    ensures key !in claims ==> r == ""
  {
    if key in claims then claims[key] else ""
  }

  /** The username column's unique constraint. */
  predicate Unique(store: Store) {
    forall i, j | 0 <= i < j < |store| :: store[i].username != store[j].username
  }

  function Find(store: Store, username: string): (i: nat)
    ensures i <= |store|
    ensures i < |store| ==> store[i].username == username
    ensures forall j | 0 <= j < i :: store[j].username != username
  {
    if store == [] || store[0].username == username then 0 else 1 + Find(store[1..], username)
  }

  /** A row as get_or_create inserts it; Django counts the empty password as usable. */
  function NewUser(claims: Claims): User {
    User(Claim(claims, "sub"), Claim(claims, "email"), Claim(claims, "given_name"), Claim(claims, "family_name"),
         false, false, true)
  }

  predicate IsAdmin(adminDid: Option<string>, sub: string) {
    adminDid.Some? && adminDid.value != "" && sub == adminDid.value
  }

  /** Both flags, and no password to log in with. */
  predicate IsElevated(u: User) {
    u.isStaff && u.isSuperuser && !u.usablePassword
  }

  function Elevated(u: User): (v: User)
    ensures IsElevated(v)
  {
    u.(isStaff := true, isSuperuser := true, usablePassword := false)
  }

  /** The privilege step for the row at i. */
  function Elevate(store: Store, adminDid: Option<string>, i: nat, fault: Fault): (Store, Outcome)
    requires i < |store|
  {
    var u := store[i];
    if !IsAdmin(adminDid, u.username) || u == Elevated(u) then (store, LoggedIn(u))
    else if fault.ElevationSaveFails? then (store, Raised)
    else (store[i := Elevated(u)], LoggedIn(Elevated(u)))
  }

  /** One login: the table afterwards and what the caller gets. */
  function Provision(store: Store, adminDid: Option<string>, a: Attempt): (Store, Outcome) {
    var sub := Claim(a.claims, "sub");
    if sub == "" || a.fault.GetOrCreateFails? then (store, Rejected)
    else
      var i := Find(store, sub);
      if i < |store| then Elevate(store, adminDid, i, a.fault)
      else if a.fault.PasswordSaveFails? then (store + [NewUser(a.claims)], Rejected)
      else Elevate(store + [NewUser(a.claims).(usablePassword := false)], adminDid, i, a.fault)
  }

  class Backend {
    const adminDid: Option<string>
    var store: Store

    constructor (adminDid: Option<string>, store: Store)
      ensures this.adminDid == adminDid && this.store == store
    {
      this.adminDid, this.store := adminDid, store;
    }

    /** get, by the unique username. */
    method Position(username: string) returns (i: nat)
      ensures i == Find(store, username)
    {
      i := 0;
      while i < |store| && store[i].username != username
        invariant i <= |store|
        invariant forall j | 0 <= j < i :: store[j].username != username
      {
        i := i + 1;
      }
    }

    method GetOrCreateUser(a: Attempt) returns (outcome: Outcome)
      modifies this
      ensures (store, outcome) == Provision(old(store), adminDid, a)
    {
      var sub := Claim(a.claims, "sub");
      if sub == "" {
        return Rejected;
      }
      if a.fault.GetOrCreateFails? {
        return Rejected;
      }
      var i := Position(sub);
      var created := i == |store|;
      if created {
        store := store + [NewUser(a.claims)];
      }
      var user := store[i];
      if created {
        user := user.(usablePassword := false);
        if a.fault.PasswordSaveFails? {
          return Rejected;
        }
        store := store[i := store[i].(usablePassword := user.usablePassword)];
        assert store == old(store) + [NewUser(a.claims).(usablePassword := false)];
      }
      var isAdmin := adminDid.Some? && adminDid.value != "" && sub == adminDid.value;
      var dirty := false;
      if isAdmin {
        if !user.isStaff {
          user := user.(isStaff := true);
          dirty := true;
        }
        if !user.isSuperuser {
          user := user.(isSuperuser := true);
          dirty := true;
        }
        if user.usablePassword {
          user := user.(usablePassword := false);
          dirty := true;
        }
      }
      if dirty {
        if a.fault.ElevationSaveFails? {
          return Raised;
        }
        store := store[i := store[i].(isStaff := user.isStaff, isSuperuser := user.isSuperuser,
                                      usablePassword := user.usablePassword)];
      }
      return LoggedIn(user);
    }
  }

  // ----- what one login and any sequence of logins may change -----

  /** A row between an earlier and a later table. */
  predicate RowEvolves(adminDid: Option<string>, u: User, v: User) {
    && v.username == u.username && v.email == u.email && v.firstName == u.firstName && v.lastName == u.lastName
    && (u.isStaff ==> v.isStaff) && (u.isSuperuser ==> v.isSuperuser)
    && (v.usablePassword ==> u.usablePassword)
    && (v != u ==> adminDid == Some(u.username) && u.username != "")
  }

  /** A row that a login created. */
  predicate RowCreated(adminDid: Option<string>, v: User) {
    (v.isStaff || v.isSuperuser ==> adminDid == Some(v.username)) && v.username != ""
  }

  predicate Evolves(adminDid: Option<string>, before: Store, after: Store) {
    && |before| <= |after|
    && (forall i | 0 <= i < |before| :: RowEvolves(adminDid, before[i], after[i]))
    && (forall i | |before| <= i < |after| :: RowCreated(adminDid, after[i]))
  }

  lemma EvolvesTransitive(adminDid: Option<string>, a: Store, b: Store, c: Store)
    requires Evolves(adminDid, a, b) && Evolves(adminDid, b, c)
    ensures Evolves(adminDid, a, c)
  {
    forall i | 0 <= i < |a| ensures RowEvolves(adminDid, a[i], c[i]) {
      assert RowEvolves(adminDid, a[i], b[i]) && RowEvolves(adminDid, b[i], c[i]);
    }
    forall i | |a| <= i < |c| ensures RowCreated(adminDid, c[i]) {
      if i < |b| {
        assert RowCreated(adminDid, b[i]) && RowEvolves(adminDid, b[i], c[i]);
      }
    }
  }

  lemma ElevateEvolves(store: Store, adminDid: Option<string>, i: nat, fault: Fault)
    requires Unique(store) && i < |store|
    ensures var after := Elevate(store, adminDid, i, fault).0;
      Unique(after) && Evolves(adminDid, store, after) && |after| == |store|
  {
  }

  lemma AppendEvolves(store: Store, adminDid: Option<string>, u: User)
    requires Unique(store) && Find(store, u.username) == |store| && RowCreated(adminDid, u)
    ensures Unique(store + [u]) && Evolves(adminDid, store, store + [u])
  {
  }

  lemma ProvisionEvolves(store: Store, adminDid: Option<string>, a: Attempt)
    requires Unique(store)
    ensures var after := Provision(store, adminDid, a).0;
      Unique(after) && Evolves(adminDid, store, after) && |after| <= |store| + 1
  {
    var sub := Claim(a.claims, "sub");
    var i := Find(store, sub);
    if i < |store| {
      ElevateEvolves(store, adminDid, i, a.fault);
    } else if sub != "" {
      var u := NewUser(a.claims);
      AppendEvolves(store, adminDid, u);
      var v := u.(usablePassword := false);
      AppendEvolves(store, adminDid, v);
      ElevateEvolves(store + [v], adminDid, i, a.fault);
      EvolvesTransitive(adminDid, store, store + [v], Elevate(store + [v], adminDid, i, a.fault).0);
    }
  }

  /** The table after a sequence of logins. */
  function After(store: Store, adminDid: Option<string>, attempts: seq<Attempt>): Store
    decreases |attempts|
  {
    if attempts == [] then store else After(Provision(store, adminDid, attempts[0]).0, adminDid, attempts[1..])
  }

  /**
   Over every sequence of logins under one ADMIN_DID, faults included: usernames stay unique, no
   row disappears or changes its profile, flags are never lost, a password never becomes usable,
   and only the row named ADMIN_DID changes or gains a flag.
   */
  lemma {:induction false} LoginsEvolve(store: Store, adminDid: Option<string>, attempts: seq<Attempt>)
    requires Unique(store)
    ensures Unique(After(store, adminDid, attempts)) && Evolves(adminDid, store, After(store, adminDid, attempts))
    decreases |attempts|
  {
    if attempts != [] {
      var next := Provision(store, adminDid, attempts[0]).0;
      ProvisionEvolves(store, adminDid, attempts[0]);
      LoginsEvolve(next, adminDid, attempts[1..]);
      EvolvesTransitive(adminDid, store, next, After(store, adminDid, attempts));
    }
  }

  /** Without ADMIN_DID, or with the empty one, no row ever changes and none is created with a flag. */
  lemma NobodyIsAdmin(store: Store, adminDid: Option<string>, attempts: seq<Attempt>)
    requires Unique(store) && (adminDid == None || adminDid == Some(""))
    ensures var after := After(store, adminDid, attempts);
      && |store| <= |after| && after[..|store|] == store
      && forall i | |store| <= i < |after| :: !after[i].isStaff && !after[i].isSuperuser
  {
    LoginsEvolve(store, adminDid, attempts);
    var after := After(store, adminDid, attempts);
    assert forall i | 0 <= i < |store| :: RowEvolves(adminDid, store[i], after[i]);
    assert forall i | |store| <= i < |after| :: RowCreated(adminDid, after[i]);
  }

  /** With one, only the row of that name ever changes or has a flag it did not have. */
  lemma OnlyTheAdminGains(store: Store, d: string, attempts: seq<Attempt>)
    requires Unique(store) && d != ""
    ensures var after := After(store, Some(d), attempts);
      && |store| <= |after|
      && (forall i | 0 <= i < |store| :: after[i] != store[i] ==> after[i].username == d)
      && (forall i | |store| <= i < |after| :: after[i].isStaff || after[i].isSuperuser ==> after[i].username == d)
  {
    LoginsEvolve(store, Some(d), attempts);
    var after := After(store, Some(d), attempts);
    assert forall i | 0 <= i < |store| :: RowEvolves(Some(d), store[i], after[i]);
    assert forall i | |store| <= i < |after| :: RowCreated(Some(d), after[i]);
  }

  /** The subject of a login; a missing claim counts as the empty text. */
  ghost predicate LogsInAs(a: Attempt, username: string) {
    "sub" in a.claims && a.claims["sub"] == username != ""
  }

  /** A login without a subject is refused and touches nothing, as is one that cannot reach the table. */
  lemma NoSubjectRefused(store: Store, adminDid: Option<string>, a: Attempt)
    requires "sub" !in a.claims || a.claims["sub"] == "" || a.fault.GetOrCreateFails?
    ensures Provision(store, adminDid, a) == (store, Rejected)
  {
  }

  /** What a login does to the row of its subject, for every state of the row and every fault. */
  lemma KnownSubject(store: Store, adminDid: Option<string>, a: Attempt, i: nat)
    requires Unique(store) && i < |store| && LogsInAs(a, store[i].username) && !a.fault.GetOrCreateFails?
    ensures var u := store[i];
      var v := User(u.username, u.email, u.firstName, u.lastName, true, true, false);
      Provision(store, adminDid, a) ==
        if adminDid != Some(u.username) || (u.isStaff && u.isSuperuser && !u.usablePassword) then (store, LoggedIn(u))
        else if a.fault == ElevationSaveFails then (store, Raised)
        else (store[i := v], LoggedIn(v))
  {
    UniqueFind(store, i);
  }

  /** What the first login of a subject does. */
  lemma NewSubject(store: Store, adminDid: Option<string>, a: Attempt, sub: string)
    requires LogsInAs(a, sub) && NoRowOf(store, sub) && !a.fault.GetOrCreateFails?
    ensures var email, given := Claim(a.claims, "email"), Claim(a.claims, "given_name");
      var family := Claim(a.claims, "family_name");
      var plain := User(sub, email, given, family, false, false, false);
      var admin := User(sub, email, given, family, true, true, false);
      Provision(store, adminDid, a) ==
        if a.fault == PasswordSaveFails then
          (store + [User(sub, email, given, family, false, false, true)], Rejected)
        else if adminDid != Some(sub) then (store + [plain], LoggedIn(plain))
        else if a.fault == ElevationSaveFails then (store + [plain], Raised)
        else (store + [admin], LoggedIn(admin))
  {
    assert Find(store, sub) == |store|;
    var row := NewUser(a.claims).(usablePassword := false);
    assert (store + [row])[|store| := Elevated(row)] == store + [Elevated(row)];
  }

  /** No dirty write is lost: the user of the session is the stored row, elevated if it is the admin's. */
  lemma SessionUserIsStored(store: Store, adminDid: Option<string>, a: Attempt)
    requires Unique(store) && Provision(store, adminDid, a).1.LoggedIn?
    ensures var (after, outcome) := Provision(store, adminDid, a);
      var i := Find(after, Claim(a.claims, "sub"));
      && i < |after| && after[i] == outcome.user && outcome.user.username == Claim(a.claims, "sub")
      && (adminDid == Some(outcome.user.username) ==> IsElevated(outcome.user))
  {
    var sub := Claim(a.claims, "sub");
    var (after, outcome) := Provision(store, adminDid, a);
    var i := Find(store, sub);
    assert after[i] == outcome.user;
    assert forall j | 0 <= j < i :: after[j].username == store[j].username;
    FindIs(after, sub, i);
  }

  lemma FindIs(store: Store, username: string, i: nat)
    requires i < |store| && store[i].username == username
    requires forall j | 0 <= j < i :: store[j].username != username
    ensures Find(store, username) == i
  {
  }

  /** Logging in again, with the same or other profile claims, writes nothing and yields the same user. */
  lemma RepeatedLoginWritesNothing(store: Store, adminDid: Option<string>, a: Attempt, again: Attempt)
    requires Unique(store) && Provision(store, adminDid, a).1.LoggedIn?
    requires Claim(again.claims, "sub") == Claim(a.claims, "sub") && !again.fault.GetOrCreateFails?
    ensures Provision(Provision(store, adminDid, a).0, adminDid, again) == Provision(store, adminDid, a)
  {
    SessionUserIsStored(store, adminDid, a);
  }

  predicate NoRowOf(store: Store, username: string) {
    forall i | 0 <= i < |store| :: store[i].username != username
  }

  /**
   A login adds a row exactly when its subject is new and the table can be reached; the row holds
   the subject and the profile claims. Its password is usable exactly when saving the unusable one
   failed, in which case the login is rejected.
   */
  lemma CreatedRow(store: Store, adminDid: Option<string>, a: Attempt)
    ensures var (after, outcome) := Provision(store, adminDid, a);
      var sub := Claim(a.claims, "sub");
      && (|after| > |store| <==> sub != "" && !a.fault.GetOrCreateFails? && NoRowOf(store, sub))
      && (|after| > |store| ==>
            var v := after[|store|];
            && v.username == sub && v.email == Claim(a.claims, "email")
            && v.firstName == Claim(a.claims, "given_name")
            && v.lastName == Claim(a.claims, "family_name")
            && (v.usablePassword <==> a.fault.PasswordSaveFails?)
            && (a.fault.PasswordSaveFails? ==> outcome == Rejected))
  {
    var i := Find(store, Claim(a.claims, "sub"));
    assert i < |store| ==> store[i].username == Claim(a.claims, "sub");
  }

  /** When saving the unusable password never fails, every created row has an unusable password. */
  lemma {:induction false} CreatedPasswordsUnusable(store: Store, adminDid: Option<string>, attempts: seq<Attempt>)
    requires Unique(store) && forall k | 0 <= k < |attempts| :: !attempts[k].fault.PasswordSaveFails?
    ensures var after := After(store, adminDid, attempts);
      |store| <= |after| && forall i | |store| <= i < |after| :: !after[i].usablePassword
    decreases |attempts|
  {
    LoginsEvolve(store, adminDid, attempts);
    if attempts != [] {
      var next := Provision(store, adminDid, attempts[0]).0;
      ProvisionEvolves(store, adminDid, attempts[0]);
      LoginsEvolve(next, adminDid, attempts[1..]);
      CreatedPasswordsUnusable(next, adminDid, attempts[1..]);
      if |next| > |store| {
        CreatedRow(store, adminDid, attempts[0]);
        assert RowEvolves(adminDid, next[|store|], After(next, adminDid, attempts[1..])[|store|]);
      }
    }
  }

  /** After a failed save, later logins of a user who is not the admin leave the password usable. */
  lemma UsablePasswordSticks(store: Store, adminDid: Option<string>, attempts: seq<Attempt>, i: nat)
    requires Unique(store) && i < |store| && store[i].usablePassword
    requires adminDid != Some(store[i].username) || store[i].username == ""
    ensures var after := After(store, adminDid, attempts); i < |after| && after[i] == store[i]
  {
    LoginsEvolve(store, adminDid, attempts);
    assert RowEvolves(adminDid, store[i], After(store, adminDid, attempts)[i]);
  }

  // ----- the password of a row over whole runs -----

  /** A login that reaches and saves the elevation of the row of this name. */
  ghost predicate ElevatesRow(adminDid: Option<string>, a: Attempt, username: string) {
    && LogsInAs(a, username) && adminDid == Some(username)
    && !a.fault.GetOrCreateFails? && !a.fault.ElevationSaveFails?
  }

  ghost predicate NeverElevated(adminDid: Option<string>, attempts: seq<Attempt>, username: string) {
    forall k | 0 <= k < |attempts| :: !ElevatesRow(adminDid, attempts[k], username)
  }

  lemma UniqueFind(store: Store, i: nat)
    requires Unique(store) && i < |store|
    ensures Find(store, store[i].username) == i
  {
  }

  lemma ProvisionKeepsPasswordIff(store: Store, adminDid: Option<string>, a: Attempt, i: nat)
    requires Unique(store) && i < |store|
    ensures var after := Provision(store, adminDid, a).0;
      i < |after| && (after[i].usablePassword <==>
        store[i].usablePassword && !ElevatesRow(adminDid, a, store[i].username))
  {
    ProvisionEvolves(store, adminDid, a);
    UniqueFind(store, i);
    var sub := Claim(a.claims, "sub");
    if sub != store[i].username {
      assert Find(store, sub) != i;
    }
  }

  /** A row keeps a usable password over a run exactly when no login of the run elevates it. */
  lemma {:induction false} PasswordStaysUsableIff(store: Store, adminDid: Option<string>, attempts: seq<Attempt>,
                                                    i: nat)
    requires Unique(store) && i < |store|
    ensures var after := After(store, adminDid, attempts);
      i < |after| && (after[i].usablePassword <==>
        store[i].usablePassword && NeverElevated(adminDid, attempts, store[i].username))
    decreases |attempts|
  {
    if attempts != [] {
      var next, rest := Provision(store, adminDid, attempts[0]).0, attempts[1..];
      ProvisionEvolves(store, adminDid, attempts[0]);
      ProvisionKeepsPasswordIff(store, adminDid, attempts[0], i);
      assert RowEvolves(adminDid, store[i], next[i]);
      PasswordStaysUsableIff(next, adminDid, rest, i);
      assert forall k | 0 < k < |attempts| :: attempts[k] == rest[k - 1];
      assert forall k | 0 <= k < |rest| :: rest[k] == attempts[k + 1];
    }
  }

  lemma {:induction false} AfterConcat(store: Store, adminDid: Option<string>, first: seq<Attempt>, rest: seq<Attempt>)
    ensures After(store, adminDid, first + rest) == After(After(store, adminDid, first), adminDid, rest)
    decreases |first|
  {
    if first == [] {
      assert first + rest == rest;
    } else {
      assert (first + rest)[1..] == first[1..] + rest;
      AfterConcat(Provision(store, adminDid, first[0]).0, adminDid, first[1..], rest);
    }
  }

  /**
   At the end of any run, a row that login a created after `before` has a usable password if and
   only if saving the unusable one failed in a and no login since has elevated the row.
   */
  lemma CreatedPasswordUsableIff(store: Store, adminDid: Option<string>, before: seq<Attempt>, a: Attempt,
                                 since: seq<Attempt>)
    requires Unique(store)
    requires var at := After(store, adminDid, before); |Provision(at, adminDid, a).0| > |at|
    ensures var i := |After(store, adminDid, before)|;
      var end := After(store, adminDid, before + [a] + since);
      && i < |end| && end[i].username == Claim(a.claims, "sub")
      && (end[i].usablePassword <==>
            a.fault.PasswordSaveFails? && NeverElevated(adminDid, since, Claim(a.claims, "sub")))
  {
    var at := After(store, adminDid, before);
    var next := Provision(at, adminDid, a).0;
    LoginsEvolve(store, adminDid, before);
    ProvisionEvolves(at, adminDid, a);
    CreatedRow(at, adminDid, a);
    assert before + [a] + since == before + ([a] + since);
    AfterConcat(store, adminDid, before, [a] + since);
    AfterConcat(at, adminDid, [a], since);
    assert After(at, adminDid, [a]) == next by {
      assert [a][1..] == [];
    }
    PasswordStaysUsableIff(next, adminDid, since, |at|);
    LoginsEvolve(next, adminDid, since);
    assert RowEvolves(adminDid, next[|at|], After(next, adminDid, since)[|at|]);
  }

  /** Once the admin has logged in, the admin's row is elevated and without a usable password for good. */
  lemma AdminStaysElevated(store: Store, adminDid: Option<string>, a: Attempt, later: seq<Attempt>)
    returns (i: nat)
    requires Unique(store) && Provision(store, adminDid, a).1.LoggedIn?
    requires adminDid == Some(Claim(a.claims, "sub"))
    ensures var end := After(Provision(store, adminDid, a).0, adminDid, later);
      i < |end| && LogsInAs(a, end[i].username) && IsElevated(end[i])
  {
    var sub := Claim(a.claims, "sub");
    var next := Provision(store, adminDid, a).0;
    SessionUserIsStored(store, adminDid, a);
    ProvisionEvolves(store, adminDid, a);
    i := Find(next, sub);
    LoginsEvolve(next, adminDid, later);
    var end := After(next, adminDid, later);
    assert RowEvolves(adminDid, next[i], end[i]);
  }
}
