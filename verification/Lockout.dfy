/** Locking an account, `SessionService::login` of BACKEND/core/session_service.cpp: what any interleaving of
    logins from any sessions does to the failed count of an account. */
module Lockout {
  import opened AccountRules
  import opened Accounts
  import opened BackendErrors
  import opened UserFile
  import opened Users

  datatype Attempt = Attempt(sid: string, username: string, password: string, io: Io)

  function Try(st: State, a: Attempt): State { Login(st, a.sid, a.username, a.password, a.io).0 }

  function TryAll(st: State, attempts: seq<Attempt>): State {
    if attempts == [] then st else Try(TryAll(st, attempts[..|attempts| - 1]), attempts[|attempts| - 1])
  }

  /** Logins only change failed counts and the users of existing sessions. */
  predicate SameAccounts(a: State, b: State) {
    a.present == b.present && |a.users| == |b.users| && a.sessions.Keys == b.sessions.Keys
    && forall i :: 0 <= i < |a.users| ==> SetFailed(a.users[i], 0) == SetFailed(b.users[i], 0)
  }

  lemma {:induction false} SameFind(a: seq<User>, b: seq<User>, name: string)
    requires |a| == |b| && forall i :: 0 <= i < |a| ==> a[i].name == b[i].name
    ensures Find(a, name) == Find(b, name)
  {
    if a != [] && a[0].name != name { SameFind(a[1..], b[1..], name); }
  }

  /** The save of the attempt loses the file. */
  predicate Loses(st: State, a: Attempt) { LosesStore(st, LoginOp(a.sid, a.username, a.password), a.io) }

  lemma TryKeepsAccounts(st: State, a: Attempt)
    ensures if Loses(st, a) then Try(st, a) == Gone(st) else SameAccounts(st, Try(st, a))
  {
  }

  /** The attempt concerns an account and gets through to its count: the session exists, the store can be
      read and the new count is saved. */
  predicate Counts(st: State, a: Attempt, name: string) {
    a.username == name && a.sid in st.sessions && LoadUsers(st, a.io).Some? && !a.io.throws && a.io.saves.add.InPlace?
  }

  /** What an attempt does to the count of an account with a given password. */
  function NextCount(count: int, right: bool): int { if count > 7 then count else if right then 0 else count + 1 }

  function Count(st: State, name: string): int
    requires Has(st.users, name)
  {
    st.users[Find(st.users, name)].failed
  }

  function Password(st: State, name: string): string
    requires Has(st.users, name)
  {
    st.users[Find(st.users, name)].password
  }

  lemma HasAdminSame(a: State, b: State)
    requires SameAccounts(a, b) && HasAdmin(a.users)
    ensures HasAdmin(b.users)
  {
    var i :| 0 <= i < |a.users| && a.users[i].kind == "admin";
    assert SetFailed(a.users[i], 0).kind == "admin" && SetFailed(b.users[i], 0).kind == b.users[i].kind;
  }

  lemma SameNames(a: State, b: State)
    requires SameAccounts(a, b)
    ensures forall i :: 0 <= i < |a.users| ==>
      a.users[i].name == b.users[i].name && a.users[i].password == b.users[i].password
  {
    forall i | 0 <= i < |a.users|
      ensures a.users[i].name == b.users[i].name && a.users[i].password == b.users[i].password
    {
      assert SetFailed(a.users[i], 0) == SetFailed(b.users[i], 0);
    }
  }

  lemma SameStays(a: State, b: State, name: string)
    requires SameAccounts(a, b)
    ensures Has(a.users, name) == Has(b.users, name)
    ensures Has(a.users, name) ==> Password(a, name) == Password(b, name)
    ensures HasAdmin(a.users) == HasAdmin(b.users)
  {
    SameNames(a, b);
    SameFind(a.users, b.users, name);
    if HasAdmin(a.users) { HasAdminSame(a, b); }
    if HasAdmin(b.users) { HasAdminSame(b, a); }
  }

  function CountAfterOne(st: State, a: Attempt, name: string): int
    requires Has(st.users, name)
  {
    if Counts(st, a, name) then NextCount(Count(st, name), a.password == Password(st, name)) else Count(st, name)
  }

  /** One attempt moves the count of an account by `NextCount`, or not at all, or it loses the file and no account
      is left. */
  lemma TryCounts(st: State, a: Attempt, name: string)
    requires Has(st.users, name)
    ensures Loses(st, a) ==> Try(st, a) == Gone(st)
    ensures !Loses(st, a) ==> Has(Try(st, a).users, name) && Count(Try(st, a), name) == CountAfterOne(st, a, name)
  {
    var op := LoginOp(a.sid, a.username, a.password);
    if Loses(st, a) { TryKeepsAccounts(st, a); }
    LoginEffect(st, op, a.io);
    if Changed(st, op, a.io) { CountedCount(st.users, name, a.username, AttemptedCount(st, op)); }
  }

  lemma CountedCount(users: seq<User>, name: string, other: string, failed: int)
    requires Has(users, name) && Has(users, other)
    ensures var after := Counted(users, other, failed);
      Has(after, name)
      && after[Find(after, name)].failed == if other == name then failed else users[Find(users, name)].failed
  {
    SameFind(users, Counted(users, other, failed), name);
  }

  /** Some attempt of the run loses the file. */
  predicate Lost(st: State, attempts: seq<Attempt>) {
    attempts != []
    && (Lost(st, attempts[..|attempts| - 1])
      || Loses(TryAll(st, attempts[..|attempts| - 1]), attempts[|attempts| - 1]))
  }

  /** The count of an account after a run, from the attempts alone. */
  function CountAfter(st: State, attempts: seq<Attempt>, name: string): int
    requires Has(st.users, name)
  {
    if attempts == [] then Count(st, name) else
    var before, last := CountAfter(st, attempts[..|attempts| - 1], name), attempts[|attempts| - 1];
    if Counts(st, last, name) then NextCount(before, last.password == Password(st, name)) else before
  }

  /** A run of logins keeps all but counts and sessions, unless it loses the file: then no account is left, and no
      login brings one back. */
  lemma {:induction false} RunKeepsAccounts(st: State, attempts: seq<Attempt>)
    ensures var after := TryAll(st, attempts);
      if Lost(st, attempts) then !after.present && after.users == [] && after.sessions.Keys == st.sessions.Keys
      else SameAccounts(st, after)
  {
    if attempts != [] {
      RunKeepsAccounts(st, attempts[..|attempts| - 1]);
      TryKeepsAccounts(TryAll(st, attempts[..|attempts| - 1]), attempts[|attempts| - 1]);
    }
  }

  /** Whatever other sessions and other accounts do in between, the count of an account is determined by the
      attempts on it that are saved; the account is there unless the file is lost. */
  lemma {:induction false} RunCounts(st: State, attempts: seq<Attempt>, name: string)
    requires Has(st.users, name)
    ensures Has(TryAll(st, attempts).users, name) <==> !Lost(st, attempts)
    ensures !Lost(st, attempts) ==> Count(TryAll(st, attempts), name) == CountAfter(st, attempts, name)
  {
    RunKeepsAccounts(st, attempts);
    if attempts != [] && !Lost(st, attempts) {
      var before, last := attempts[..|attempts| - 1], attempts[|attempts| - 1];
      RunCounts(st, before, name);
      RunKeepsAccounts(st, before);
      SameStays(st, TryAll(st, before), name);
      TryCounts(TryAll(st, before), last, name);
    }
  }

  /** The number of saved attempts on an account. */
  function Saved(st: State, attempts: seq<Attempt>, name: string): nat {
    if attempts == [] then 0 else
    Saved(st, attempts[..|attempts| - 1], name) + (if Counts(st, attempts[|attempts| - 1], name) then 1 else 0)
  }

  /** No attempt uses the right password. */
  predicate AllWrong(st: State, attempts: seq<Attempt>, name: string)
    requires Has(st.users, name)
  {
    forall i :: 0 <= i < |attempts| && attempts[i].username == name ==> attempts[i].password != Password(st, name)
  }

  /** From a count of at most 7, an account locks after exactly 8 - count wrong passwords and its count stays
      at 8. */
  lemma {:induction false} LocksAfter(st: State, attempts: seq<Attempt>, name: string)
    requires Has(st.users, name) && Count(st, name) <= 7 && AllWrong(st, attempts, name)
    ensures Has(TryAll(st, attempts).users, name) <==> !Lost(st, attempts)
    ensures var wrong := Saved(st, attempts, name);
      !Lost(st, attempts) ==>
      Count(TryAll(st, attempts), name) == if wrong < 8 - Count(st, name) then Count(st, name) + wrong else 8
  {
    RunCounts(st, attempts, name);
    if attempts != [] && !Lost(st, attempts) {
      LocksAfter(st, attempts[..|attempts| - 1], name);
      RunCounts(st, attempts[..|attempts| - 1], name);
    }
  }

  /** Over any run at all the count never goes above 8, nor above where it started. */
  lemma {:induction false} NeverAboveEight(st: State, attempts: seq<Attempt>, name: string)
    requires Has(st.users, name)
    ensures Has(TryAll(st, attempts).users, name) <==> !Lost(st, attempts)
    ensures !Lost(st, attempts) ==>
      Count(TryAll(st, attempts), name) <= if Count(st, name) > 8 then Count(st, name) else 8
  {
    RunCounts(st, attempts, name);
    if attempts != [] && !Lost(st, attempts) {
      NeverAboveEight(st, attempts[..|attempts| - 1], name);
      RunCounts(st, attempts[..|attempts| - 1], name);
    }
  }

  /** A locked account rejects every login, with the right password too, and nothing changes. */
  lemma LockedRejects(st: State, a: Attempt)
    requires Has(st.users, a.username) && Count(st, a.username) > 7
    ensures var (after, reply) := Login(st, a.sid, a.username, a.password, a.io);
      after == st && reply ==
        if a.sid !in st.sessions then Failed(SessionExpired)
        else if LoadUsers(st, a.io).None? then Failed(StorageError) else Failed(PermissionDenied)
  {
  }

  /** Whatever logins follow, on this account or others, a locked account keeps its count, unless one of them loses
      the file. */
  lemma {:induction false} LockedStays(st: State, attempts: seq<Attempt>, name: string)
    requires Has(st.users, name) && Count(st, name) > 7
    ensures Has(TryAll(st, attempts).users, name) <==> !Lost(st, attempts)
    ensures !Lost(st, attempts) ==> Count(TryAll(st, attempts), name) == Count(st, name)
  {
    RunCounts(st, attempts, name);
    if attempts != [] && !Lost(st, attempts) {
      LockedStays(st, attempts[..|attempts| - 1], name);
      TryCounts(TryAll(st, attempts[..|attempts| - 1]), attempts[|attempts| - 1], name);
    }
  }

  // ---- Locked through any run of operations ----

  predicate LockedIn(users: seq<User>, name: string) { Has(users, name) && users[Find(users, name)].failed > 7 }

  /** What unlocks an account or ends it: a reset, an edit or a deletion that names it and is saved, the first
      user in the place of the placeholder, and a save that loses the file. */
  predicate Unlocks(st: State, op: Op, io: Io, name: string) {
    UnlocksByChange(st, op, io, name)
    || (Adds(st, op, io) && PlaceholderOnly(st.users) && name == "null" && Added(st.users, NewUser(op), io.saves).1)
    || LosesStore(st, op, io)
  }

  predicate UnlocksByChange(st: State, op: Op, io: Io, name: string) {
    (op.ResetFailedCountOp? && Changed(st, op, io) && op.name == name)
    || (Edits(st, op, io) && op.name == name && !(EditOf(st, op).name == name && EditOf(st, op).failed > 7))
    || (Deletes(st, op, io) && op.name == name)
  }

  // ---- Names ----

  lemma FoundAt(users: seq<User>, name: string, i: nat)
    requires i < |users| && users[i].name == name && Distinct(users)
    ensures Find(users, name) == i
  {
  }

  lemma ReplacedNames(users: seq<User>, other: string, user: User)
    requires Distinct(users) && Has(users, other) && (user.name == other || !Has(users, user.name))
    ensures Distinct(Replaced(users, other, user))
  {
    assert forall k :: 0 <= k < |users| && k != Find(users, other) ==> users[k].name != user.name;
  }

  lemma RemovedAt(users: seq<User>, i: nat, k: nat)
    requires i < |users| && k < |users| - 1
    ensures (users[..i] + users[i + 1..])[k] == users[if k < i then k else k + 1]
  {
  }

  lemma RemovedNames(users: seq<User>, other: string)
    requires Distinct(users) && Has(users, other)
    ensures Distinct(Removed(users, other))
  {
    var i, after := Find(users, other), Removed(users, other);
    forall k, l | 0 <= k < l < |after| ensures after[k].name != after[l].name {
      RemovedAt(users, i, k);
      RemovedAt(users, i, l);
    }
  }

  lemma ReplacedLocked(users: seq<User>, name: string, other: string, user: User)
    requires Distinct(users) && LockedIn(users, name) && Has(users, other)
    requires user.name == other || !Has(users, user.name)
    ensures LockedIn(Replaced(users, other, user), name) <==> (other == name ==> user.name == name && user.failed > 7)
  {
    var i, j, after := Find(users, other), Find(users, name), Replaced(users, other, user);
    ReplacedNames(users, other, user);
    assert after[i] == user && forall k :: 0 <= k < |users| && k != i ==> after[k] == users[k];
    if other != name {
      assert after[j] == users[j];
      FoundAt(after, name, j);
    } else if user.name == name {
      FoundAt(after, name, i);
    } else {
      assert forall k :: 0 <= k < |after| ==> after[k].name != name;
    }
  }

  lemma RemovedLocked(users: seq<User>, name: string, other: string)
    requires Distinct(users) && LockedIn(users, name) && Has(users, other)
    ensures LockedIn(Removed(users, other), name) <==> other != name
  {
    RemovedNames(users, other);
    if other != name {
      RemovedOther(users, Find(users, other), Find(users, name));
    } else {
      RemovedSelf(users, Find(users, name));
    }
  }

  lemma RemovedOther(users: seq<User>, i: nat, j: nat)
    requires Distinct(users) && i < |users| && j < |users| && i != j && Distinct(users[..i] + users[i + 1..])
    ensures var after, name := users[..i] + users[i + 1..], users[j].name;
      Has(after, name) && after[Find(after, name)] == users[j]
  {
    var k := if j < i then j else j - 1;
    RemovedAt(users, i, k);
    FoundAt(users[..i] + users[i + 1..], users[j].name, k);
  }

  lemma RemovedSelf(users: seq<User>, i: nat)
    requires Distinct(users) && i < |users|
    ensures !Has(users[..i] + users[i + 1..], users[i].name)
  {
    var after := users[..i] + users[i + 1..];
    forall k | 0 <= k < |after| ensures after[k].name != users[i].name { RemovedAt(users, i, k); }
  }

  lemma AddedLocked(users: seq<User>, user: User, saves: Saves, name: string)
    requires Distinct(users) && LockedIn(users, name) && user.name != "null" && Added(users, user, saves).0.Some?
    ensures var (after, ok) := Added(users, user, saves);
      Distinct(after.value)
      && (LockedIn(after.value, name) <==> !(PlaceholderOnly(users) && name == "null" && ok))
  {
    var i := Find(users, name);
    if !Has(users, user.name) {
      assert Distinct(users + [user]) && (users + [user])[i] == users[i];
      FoundAt(users + [user], name, i);
    }
  }

  lemma CountedLocked(users: seq<User>, name: string, other: string, failed: int)
    requires Distinct(users) && LockedIn(users, name) && Has(users, other)
    ensures Distinct(Counted(users, other, failed))
    ensures LockedIn(Counted(users, other, failed), name) <==> !(other == name && failed <= 7)
  {
    ReplacedNames(users, other, SetFailed(users[Find(users, other)], failed));
    ReplacedLocked(users, name, other, SetFailed(users[Find(users, other)], failed));
  }

  lemma ChangedLocked(st: State, op: Op, io: Io, name: string)
    requires Changed(st, op, io) && StillLocked(name, st)
    ensures Distinct(ChangedList(st, op, io))
    ensures LockedIn(ChangedList(st, op, io), name) <==> !UnlocksByChange(st, op, io, name)
  {
    match op
    case UpdateUserOp(_, other, _, _) =>
      ReplacedNames(st.users, other, EditOf(st, op));
      ReplacedLocked(st.users, name, other, EditOf(st, op));
    case DeleteUserOp(_, other) =>
      RemovedNames(st.users, other);
      RemovedLocked(st.users, name, other);
    case ResetFailedCountOp(_, other) => CountedLocked(st.users, name, other, 0);
    case DisableUserOp(_, other) => CountedLocked(st.users, name, other, 8);
    case UpdateOwnAccountOp(sid, password, hint) => OwnLocked(st, op, io, name);
    case LoginOp(_, username, _) => CountedLocked(st.users, name, username, AttemptedCount(st, op));
  }

  lemma OwnLocked(st: State, op: Op, io: Io, name: string)
    requires op.UpdateOwnAccountOp? && Changed(st, op, io) && StillLocked(name, st)
    ensures Distinct(ChangedList(st, op, io)) && LockedIn(ChangedList(st, op, io), name)
  {
    var own := RequireStoredUser(st, op.sid, io).user;
    ReplacedNames(st.users, own.name, OwnEdit(own, op.newPassword, op.newHint));
    ReplacedLocked(st.users, name, own.name, OwnEdit(own, op.newPassword, op.newHint));
  }

  /** The account is locked, in a list of distinct names. */
  ghost predicate StillLocked(name: string, st: State) { Distinct(st.users) && LockedIn(st.users, name) }

  /** A locked account stays locked over any step exactly unless it is one of these. */
  lemma StepKeepsLocked(st: State, op: Op, io: Io, name: string)
    requires StillLocked(name, st)
    ensures StillLocked(name, Step(st, op, io).0) <==> !Unlocks(st, op, io, name)
  {
    StepEffect(st, op, io);
    if Adds(st, op, io) && !LosesStore(st, op, io) {
      AddedLocked(st.users, NewUser(op), io.saves, name);
    } else if Changed(st, op, io) {
      ChangedLocked(st, op, io, name);
    }
  }

  /** Over any run of operations of all users, a locked account stays locked throughout exactly when none of them
      unlocks or ends it. */
  lemma RunKeepsLocked(st: State, steps: seq<(Op, Io)>, name: string)
    requires StillLocked(name, st)
    ensures Throughout(st, steps, s => StillLocked(name, s)) <==>
      Never(st, steps, (s, op, io) => Unlocks(s, op, io, name))
  {
    forall s, op, io | StillLocked(name, s)
      ensures StillLocked(name, Step(s, op, io).0) <==> !Unlocks(s, op, io, name)
    {
      StepKeepsLocked(s, op, io, name);
    }
    RunKeeps(st, steps, s => StillLocked(name, s), (s, op, io) => Unlocks(s, op, io, name));
  }

  /** The password of an unlocked account is right and the reset of its count is saved. */
  predicate Succeeds(st: State, a: Attempt) {
    Counts(st, a, a.username) && Has(st.users, a.username)
    && Count(st, a.username) <= 7 && a.password == Password(st, a.username)
  }

  /** A login is accepted exactly then, and only then does the session change, to that user with a count
      of zero. */
  lemma SessionChangesOnSavedReset(st: State, a: Attempt)
    ensures (Login(st, a.sid, a.username, a.password, a.io).1 == Done) == Succeeds(st, a)
    ensures !Succeeds(st, a) ==> Try(st, a).sessions == st.sessions
    ensures Succeeds(st, a) ==> Has(Try(st, a).users, a.username) && Count(Try(st, a), a.username) == 0
    ensures Succeeds(st, a) ==>
      Try(st, a).sessions == st.sessions[a.sid := Try(st, a).users[Find(Try(st, a).users, a.username)]]
  {
    if Succeeds(st, a) {
      SuccessEffect(st, a);
      CountedSelf(st.users, a.username, 0);
    }
  }

  lemma SuccessEffect(st: State, a: Attempt)
    requires Succeeds(st, a)
    ensures Try(st, a).users == Counted(st.users, a.username, 0)
    ensures Try(st, a).sessions == st.sessions[a.sid := SetFailed(st.users[Find(st.users, a.username)], 0)]
  {
  }

  lemma CountedSelf(users: seq<User>, name: string, failed: int)
    requires Has(users, name)
    ensures var after := Counted(users, name, failed);
      Has(after, name) && after[Find(after, name)] == SetFailed(users[Find(users, name)], failed)
  {
    SameFind(users, Counted(users, name, failed), name);
  }
}
