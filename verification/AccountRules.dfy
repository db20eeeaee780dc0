/** What every step of the account services keeps: well-formed users, an active administrator, and a file
    that can be read again; with the exact exceptions. */
module AccountRules {
  import opened Accounts
  import opened Ascii
  import opened BackendErrors
  import opened FileReplace
  import opened UserFile
  import opened Users

  // ---- Lists ----

  /** In a list of distinct names, the others are those at other positions. */
  lemma {:induction false} CountOthers(users: seq<User>, name: string)
    ensures ActiveAdminCount(users, name) > 0 <==>
      exists k :: 0 <= k < |users| && users[k].name != name && ActiveAdmin(users[k])
  {
    if users != [] {
      CountOthers(users[1..], name);
      if ActiveAdminCount(users[1..], name) > 0 {
        var k :| 0 <= k < |users[1..]| && users[1..][k].name != name && ActiveAdmin(users[1..][k]);
        assert users[k + 1] == users[1..][k];
      }
      forall k | 0 < k < |users| && users[k].name != name && ActiveAdmin(users[k])
        ensures ActiveAdminCount(users[1..], name) > 0
      {
        assert users[k] == users[1..][k - 1];
      }
    }
  }

  lemma ActiveBefore(users: seq<User>, name: string)
    requires Distinct(users) && Has(users, name)
    ensures HasActiveAdmin(users) <==> ActiveAdmin(users[Find(users, name)]) || ActiveAdminCount(users, name) > 0
  {
    CountOthers(users, name);
  }

  lemma ActiveReplaced(users: seq<User>, name: string, user: User)
    requires Distinct(users) && Has(users, name)
    ensures HasActiveAdmin(Replaced(users, name, user)) <==> ActiveAdmin(user) || ActiveAdminCount(users, name) > 0
  {
    CountOthers(users, name);
    var i, after := Find(users, name), Replaced(users, name, user);
    assert after[i] == user;
    assert forall k :: 0 <= k < |users| && k != i ==> after[k] == users[k] && users[k].name != name;
  }

  lemma ActiveEither(a: seq<User>, b: seq<User>)
    ensures HasActiveAdmin(a + b) <==> HasActiveAdmin(a) || HasActiveAdmin(b)
  {
    if HasActiveAdmin(a) {
      var k :| 0 <= k < |a| && ActiveAdmin(a[k]);
      assert (a + b)[k] == a[k];
    }
    if HasActiveAdmin(b) {
      var k :| 0 <= k < |b| && ActiveAdmin(b[k]);
      assert (a + b)[|a| + k] == b[k];
    }
  }

  lemma ActiveRemoved(users: seq<User>, name: string)
    requires Distinct(users) && Has(users, name)
    ensures HasActiveAdmin(Removed(users, name)) <==> ActiveAdminCount(users, name) > 0
  {
    var i := Find(users, name);
    CountOthers(users, name);
    ActiveEither(users[..i], users[i + 1..]);
    if ActiveAdminCount(users, name) > 0 {
      var j :| 0 <= j < |users| && users[j].name != name && ActiveAdmin(users[j]);
      ActiveSplit(users, i, j);
    }
    if HasActiveAdmin(users[..i]) || HasActiveAdmin(users[i + 1..]) {
      var k := ActiveAround(users, i);
    }
  }

  lemma ActiveSplit(users: seq<User>, i: nat, j: nat)
    requires i < |users| && j < |users| && j != i && ActiveAdmin(users[j])
    ensures HasActiveAdmin(users[..i]) || HasActiveAdmin(users[i + 1..])
  {
    if j < i { assert users[..i][j] == users[j]; } else { assert users[i + 1..][j - i - 1] == users[j]; }
  }

  lemma ActiveAround(users: seq<User>, i: nat) returns (k: nat)
    requires i < |users| && (HasActiveAdmin(users[..i]) || HasActiveAdmin(users[i + 1..]))
    ensures k < |users| && k != i && ActiveAdmin(users[k])
  {
    if HasActiveAdmin(users[..i]) {
      k :| 0 <= k < i && ActiveAdmin(users[..i][k]);
    } else {
      var j :| 0 <= j < |users| - i - 1 && ActiveAdmin(users[i + 1..][j]);
      k := i + 1 + j;
    }
  }

  // ---- Well-formed users ----

  lemma LowerTwice(s: string)
    ensures Lower(Lower(s)) == Lower(s)
  {
  }

  predicate MayStay(u: User) { Ruled(u) || Placeholder(u) }

  lemma AddKeeps(users: seq<User>, user: User, saves: Saves)
    requires WellFormed(users) && Ruled(user)
    ensures var after := Added(users, user, saves).0; after.Some? ==> WellFormed(after.value)
  {
  }

  lemma ReplaceKeeps(users: seq<User>, name: string, user: User)
    requires WellFormed(users) && Has(users, name) && (user.name == name || !Has(users, user.name))
    ensures WellFormed(Replaced(users, name, user)) <==> MayStay(user)
  {
    var i, after := Find(users, name), Replaced(users, name, user);
    assert after[i] == user;
    assert forall k :: 0 <= k < |users| && k != i ==> after[k] == users[k];
    if MayStay(user) {
      assert forall k :: 0 <= k < |users| && k != i ==> users[k].name != user.name;
    }
  }

  lemma RemoveKeeps(users: seq<User>, name: string)
    requires WellFormed(users)
    ensures WellFormed(Removed(users, name))
  {
    var i, after := Find(users, name), Removed(users, name);
    if i < |users| {
      forall k, l | 0 <= k < l < |after| ensures after[k].name != after[l].name {
        assert after[k] == users[if k < i then k else k + 1] && after[l] == users[if l < i then l else l + 1];
      }
      forall k | 0 <= k < |after| ensures MayStay(after[k]) {
        assert after[k] == users[if k < i then k else k + 1];
      }
    }
  }

  /** What the checks let through obeys the rules. */
  lemma CreatedIsRuled(user: User, existing: seq<User>)
    requires Valid(Normalized(user), existing, "", false, true)
    ensures Ruled(Normalized(user))
  {
    LowerTwice(Trim(user.kind));
  }

  lemma EditedIsRuled(before: User, user: User, existing: seq<User>, name: string, provided: bool)
    requires Valid(Edited(before, user, provided), existing, name, true, provided)
    ensures Ruled(Edited(before, user, provided)) <==> provided || PasswordMeetsRules(before.password)
  {
    LowerTwice(Trim(user.kind));
  }

  // ---- What a step does to the list ----

  /** The session's user manages users, and they can be read. */
  predicate Managing(st: State, sid: string, io: Io) { RequireManager(st, sid, io).Is? && LoadUsers(st, io).Some? }

  /** The user a creation adds. */
  function NewUser(op: Op): User
    requires op.CreateInitialAdminOp? || op.CreateUserOp?
  {
    if op.CreateUserOp? then Normalized(op.user) else InitialAdmin(op.username, op.password, op.hint)
  }

  /** A creation that is allowed and gets as far as the store. */
  predicate Adds(st: State, op: Op, io: Io) {
    !io.throws
    && match op
      case CreateInitialAdminOp(_, _, _) =>
        SetupRefused(st, io).None? && Valid(NewUser(op), [], "", false, true)
      case CreateUserOp(sid, _) => Managing(st, sid, io) && Valid(NewUser(op), st.users, "", false, true)
      case _ => false
  }

  function EditOf(st: State, op: Op): User
    requires op.UpdateUserOp? && Has(st.users, op.name)
  {
    Edited(st.users[Find(st.users, op.name)], op.user, op.passwordProvided)
  }

  /** The session's user may change the own password and hint as asked. */
  predicate MayChangeOwn(st: State, op: Op, io: Io)
    requires op.UpdateOwnAccountOp?
  {
    var current := RequireStoredUser(st, op.sid, io);
    current.Is? && Lower(current.user.kind) != "debug"
    && (op.newPassword.Some? ==> PasswordMeetsRules(op.newPassword.value))
    && var own := OwnEdit(current.user, op.newPassword, op.newHint); own.hint == "" || own.hint != own.password
  }

  /** Any other operation that is allowed and gets as far as saving a changed list. */
  predicate Changes(st: State, op: Op, io: Io) {
    !io.throws
    && match op
      case UpdateUserOp(sid, name, _, provided) =>
        Managing(st, sid, io) && Has(st.users, name) && Valid(EditOf(st, op), st.users, name, true, provided)
      case DeleteUserOp(sid, name) => Managing(st, sid, io) && Has(st.users, name) && !LastActiveAdmin(st.users, name)
      case ResetFailedCountOp(sid, name) => Managing(st, sid, io) && Has(st.users, name)
      case DisableUserOp(sid, name) => Managing(st, sid, io) && Has(st.users, name) && !LastActiveAdmin(st.users, name)
      case UpdateOwnAccountOp(sid, _, _) => MayChangeOwn(st, op, io)
      case LoginOp(sid, username, _) =>
        sid in st.sessions && LoadUsers(st, io).Some? && Has(st.users, username)
        && st.users[Find(st.users, username)].failed <= 7
      case _ => false
  }

  /** The count of a login goes up, or back to 0. */
  function AttemptedCount(st: State, op: Op): int
    requires op.LoginOp? && Has(st.users, op.username)
  {
    var found := st.users[Find(st.users, op.username)];
    if found.password == op.password then 0 else found.failed + 1
  }

  /** The list with another failed count of a user. */
  function Counted(users: seq<User>, name: string, failed: int): seq<User>
    requires Has(users, name)
  {
    Replaced(users, name, SetFailed(users[Find(users, name)], failed))
  }

  /** The changed list. */
  function ChangedList(st: State, op: Op, io: Io): seq<User>
    requires Changes(st, op, io)
  {
    match op
    case UpdateUserOp(_, name, _, _) => Replaced(st.users, name, EditOf(st, op))
    case DeleteUserOp(_, name) => Removed(st.users, name)
    case ResetFailedCountOp(_, name) => Counted(st.users, name, 0)
    case DisableUserOp(_, name) => Counted(st.users, name, 8)
    case UpdateOwnAccountOp(sid, password, hint) =>
      var own := RequireStoredUser(st, sid, io).user;
      Replaced(st.users, own.name, OwnEdit(own, password, hint))
    case LoginOp(_, username, _) => Counted(st.users, username, AttemptedCount(st, op))
  }

  /** The change is saved. */
  predicate Changed(st: State, op: Op, io: Io) { Changes(st, op, io) && io.saves.add.InPlace? }

  /** A save the step gets as far as loses the file. */
  predicate LosesStore(st: State, op: Op, io: Io) {
    (Adds(st, op, io) && AddLoses(st.users, NewUser(op), io.saves))
    || (Changes(st, op, io) && io.saves.add.RestoreFailed?)
  }

  /** The list after a step, from what the step gets as far as and what the disk does. */
  function ListAfter(st: State, op: Op, io: Io): seq<User> {
    if LosesStore(st, op, io) then []
    else if Adds(st, op, io) then Added(st.users, NewUser(op), io.saves).0.value
    else if Changed(st, op, io) then ChangedList(st, op, io)
    else st.users
  }

  /** The list and the store after a step are what the guards and the disk say. */
  predicate Effected(st: State, op: Op, io: Io, after: State) {
    after.users == ListAfter(st, op, io)
    && (after.present <==>
      !LosesStore(st, op, io) && (st.present || (Adds(st, op, io) && Added(st.users, NewUser(op), io.saves).1)))
  }

  lemma StepEffect(st: State, op: Op, io: Io)
    ensures Effected(st, op, io, Step(st, op, io).0)
  {
    match op
    case CreateInitialAdminOp(_, _, _) => InitialEffect(st, op, io);
    case CreateUserOp(_, _) => CreateEffect(st, op, io);
    case UpdateUserOp(_, _, _, _) => EditEffect(st, op, io);
    case DeleteUserOp(_, _) => DeletionEffect(st, op, io);
    case ResetFailedCountOp(_, _) => CountEffect(st, op, io);
    case DisableUserOp(_, _) => CountEffect(st, op, io);
    case UpdateOwnAccountOp(_, _, _) => OwnEffect(st, op, io);
    case LoginOp(_, _, _) => LoginEffect(st, op, io);
    case LogoutOp(_) =>
    case StartSessionOp(_, _) =>
  }

  lemma InitialEffect(st: State, op: Op, io: Io)
    requires op.CreateInitialAdminOp?
    ensures Effected(st, op, io, Step(st, op, io).0)
  {
  }

  lemma CreateEffect(st: State, op: Op, io: Io)
    requires op.CreateUserOp?
    ensures Effected(st, op, io, Step(st, op, io).0)
  {
  }

  lemma EditEffect(st: State, op: Op, io: Io)
    requires op.UpdateUserOp?
    ensures Effected(st, op, io, Step(st, op, io).0)
  {
  }

  lemma DeletionEffect(st: State, op: Op, io: Io)
    requires op.DeleteUserOp?
    ensures Effected(st, op, io, Step(st, op, io).0)
  {
  }

  lemma CountEffect(st: State, op: Op, io: Io)
    requires op.ResetFailedCountOp? || op.DisableUserOp?
    ensures Effected(st, op, io, Step(st, op, io).0)
  {
  }

  lemma OwnEffect(st: State, op: Op, io: Io)
    requires op.UpdateOwnAccountOp?
    ensures Effected(st, op, io, Step(st, op, io).0)
  {
  }

  lemma LoginEffect(st: State, op: Op, io: Io)
    requires op.LoginOp?
    ensures Effected(st, op, io, Step(st, op, io).0)
  {
  }

  /** An allowed edit that is saved. */
  predicate Edits(st: State, op: Op, io: Io) { op.UpdateUserOp? && Changed(st, op, io) }

  /** An allowed creation in the place of the placeholder that is saved. */
  predicate CreatesFirst(st: State, op: Op, io: Io) {
    op.CreateUserOp? && Adds(st, op, io) && PlaceholderOnly(st.users)
    && io.saves.add.InPlace? && io.saves.removePlaceholder.InPlace?
  }

  /** An allowed deletion that is saved. */
  predicate Deletes(st: State, op: Op, io: Io) { op.DeleteUserOp? && Changed(st, op, io) }

  // ---- Well-formed users after a step ----

  /** An edit that keeps a password of the placeholder that is against the rules. */
  predicate KeepsBadPassword(st: State, op: Op, io: Io) {
    Edits(st, op, io) && op.name == "null" && !op.passwordProvided
    && !PasswordMeetsRules(st.users[Find(st.users, "null")].password)
  }

  /** Every step keeps the users well formed, whatever the disk does, except an edit of the placeholder that
      leaves it a password against the rules. */
  lemma StepKeepsWellFormed(st: State, op: Op, io: Io)
    requires WellFormed(st.users)
    ensures WellFormed(Step(st, op, io).0.users) <==> !KeepsBadPassword(st, op, io)
  {
    StepEffect(st, op, io);
    if Adds(st, op, io) { AddKeepsWellFormed(st, op, io); }
    if Changes(st, op, io) { ChangeKeepsWellFormed(st, op, io); }
  }

  lemma AddKeepsWellFormed(st: State, op: Op, io: Io)
    requires Adds(st, op, io) && WellFormed(st.users)
    ensures var after := Added(st.users, NewUser(op), io.saves).0; after.Some? ==> WellFormed(after.value)
  {
    if op.CreateUserOp? { CreatedIsRuled(op.user, st.users); }
    AddKeeps(st.users, NewUser(op), io.saves);
  }

  lemma ChangeKeepsWellFormed(st: State, op: Op, io: Io)
    requires Changes(st, op, io) && WellFormed(st.users)
    ensures WellFormed(ChangedList(st, op, io)) <==>
      !(op.UpdateUserOp? && op.name == "null" && !op.passwordProvided
        && !PasswordMeetsRules(st.users[Find(st.users, "null")].password))
  {
    match op
    case UpdateUserOp(_, name, user, provided) =>
      EditedIsRuled(st.users[Find(st.users, name)], user, st.users, name, provided);
      ReplaceKeeps(st.users, name, EditOf(st, op));
    case DeleteUserOp(_, name) => RemoveKeeps(st.users, name);
    case ResetFailedCountOp(_, name) => CountedKeeps(st.users, name, 0);
    case DisableUserOp(_, name) => CountedKeeps(st.users, name, 8);
    case UpdateOwnAccountOp(sid, password, hint) => OwnKeepsWellFormed(st, op, io);
    case LoginOp(_, username, _) =>
      ReplaceKeeps(st.users, username, SetFailed(st.users[Find(st.users, username)], AttemptedCount(st, op)));
  }

  lemma CountedKeeps(users: seq<User>, name: string, failed: int)
    requires WellFormed(users) && 0 <= failed <= 8 && Has(users, name)
    ensures WellFormed(Counted(users, name, failed))
  {
    ReplaceKeeps(users, name, SetFailed(users[Find(users, name)], failed));
  }

  lemma OwnKeepsWellFormed(st: State, op: Op, io: Io)
    requires op.UpdateOwnAccountOp? && Changes(st, op, io) && WellFormed(st.users)
    ensures WellFormed(ChangedList(st, op, io))
  {
    var own := RequireStoredUser(st, op.sid, io).user;
    ReplaceKeeps(st.users, own.name, OwnEdit(own, op.newPassword, op.newHint));
  }

  // ---- An active administrator ----

  /** A wrong password that disables the only active administrator. */
  predicate DisablesLast(st: State, op: Op, io: Io) {
    op.LoginOp? && Changed(st, op, io) && LastActiveAdmin(st.users, op.username) && AttemptedCount(st, op) > 7
  }

  /** A first user that is not an active administrator, in the place of the placeholder. */
  predicate ReplacesPlaceholder(st: State, op: Op, io: Io) {
    CreatesFirst(st, op, io) && !ActiveAdmin(NewUser(op))
  }

  predicate Strands(st: State, op: Op, io: Io) {
    DisablesLast(st, op, io) || ReplacesPlaceholder(st, op, io) || LosesStore(st, op, io)
  }

  /** No step takes the last active administrator away, except a failed login that disables it, the creation of
      a user that is none in the place of the placeholder, and a save that loses the file. */
  lemma StepKeepsActiveAdmin(st: State, op: Op, io: Io)
    requires WellFormed(st.users) && HasActiveAdmin(st.users)
    ensures HasActiveAdmin(Step(st, op, io).0.users) <==> !Strands(st, op, io)
  {
    StepEffect(st, op, io);
    if Adds(st, op, io) {
      AddKeepsActive(st, op, io);
    } else if Changed(st, op, io) {
      ChangedKeepsActive(st, op, io);
    }
  }

  lemma ChangedKeepsActive(st: State, op: Op, io: Io)
    requires Changed(st, op, io) && WellFormed(st.users) && HasActiveAdmin(st.users)
    ensures HasActiveAdmin(ChangedList(st, op, io)) <==> !DisablesLast(st, op, io)
  {
    ChangeKeepsActive(st, op, io);
  }

  lemma AddKeepsActive(st: State, op: Op, io: Io)
    requires Adds(st, op, io) && HasActiveAdmin(st.users)
    ensures var after := Added(st.users, NewUser(op), io.saves).0;
      after.Some? ==> (HasActiveAdmin(after.value) <==> !ReplacesPlaceholder(st, op, io))
  {
    AddedActive(st.users, NewUser(op), io.saves);
  }

  lemma AddedActive(users: seq<User>, user: User, saves: Saves)
    requires HasActiveAdmin(users)
    ensures var (after, ok) := Added(users, user, saves);
      after.Some? ==> (HasActiveAdmin(after.value) <==> !(PlaceholderOnly(users) && ok && !ActiveAdmin(user)))
  {
    var i :| 0 <= i < |users| && ActiveAdmin(users[i]);
    assert (users + [user])[i] == users[i];
    assert [user][0] == user;
  }

  lemma ChangeKeepsActive(st: State, op: Op, io: Io)
    requires Changes(st, op, io) && WellFormed(st.users) && HasActiveAdmin(st.users)
    ensures HasActiveAdmin(ChangedList(st, op, io)) <==>
      !(op.LoginOp? && LastActiveAdmin(st.users, op.username) && AttemptedCount(st, op) > 7)
  {
    match op
    case UpdateUserOp(_, name, _, _) =>
      ActiveBefore(st.users, name);
      ActiveReplaced(st.users, name, EditOf(st, op));
    case DeleteUserOp(_, name) =>
      ActiveBefore(st.users, name);
      ActiveRemoved(st.users, name);
    case ResetFailedCountOp(_, name) => CountActive(st.users, name, 0);
    case DisableUserOp(_, name) => CountActive(st.users, name, 8);
    case UpdateOwnAccountOp(sid, password, hint) => OwnKeepsActive(st, op, io);
    case LoginOp(_, username, _) => CountActive(st.users, username, AttemptedCount(st, op));
  }

  lemma CountActive(users: seq<User>, name: string, failed: int)
    requires Distinct(users) && Has(users, name)
    ensures var u := users[Find(users, name)];
      (HasActiveAdmin(users) <==> ActiveAdmin(u) || ActiveAdminCount(users, name) > 0)
      && (HasActiveAdmin(Counted(users, name, failed))
          <==> ActiveAdmin(SetFailed(u, failed)) || ActiveAdminCount(users, name) > 0)
  {
    ActiveBefore(users, name);
    ActiveReplaced(users, name, SetFailed(users[Find(users, name)], failed));
  }

  lemma OwnKeepsActive(st: State, op: Op, io: Io)
    requires op.UpdateOwnAccountOp? && Changes(st, op, io) && WellFormed(st.users) && HasActiveAdmin(st.users)
    ensures HasActiveAdmin(ChangedList(st, op, io))
  {
    var own := RequireStoredUser(st, op.sid, io).user;
    ActiveBefore(st.users, own.name);
    ActiveReplaced(st.users, own.name, OwnEdit(own, op.newPassword, op.newHint));
  }

  // ---- A readable file ----

  predicate ByDebug(st: State, sid: string) { sid in st.sessions && SyntheticDebug(st.sessions[sid]) }

  /** The user of this name is the only entry of type "admin". */
  predicate OnlyAdmin(users: seq<User>, name: string) {
    Has(users, name) && users[Find(users, name)].kind == "admin"
    && forall k :: 0 <= k < |users| && users[k].kind == "admin" ==> users[k].name == name
  }

  /** What takes the last entry of type "admin" out of the list: deleting the only one, which is then disabled,
      editing it into a plain user, and a first user that is no administrator in the place of the placeholder. */
  predicate LosesEntry(st: State, op: Op, io: Io) {
    (Deletes(st, op, io) && OnlyAdmin(st.users, op.name))
    || (Edits(st, op, io) && OnlyAdmin(st.users, op.name) && EditOf(st, op).kind != "admin")
    || (CreatesFirst(st, op, io) && NewUser(op).kind != "admin")
  }

  predicate Loses(st: State, op: Op, io: Io) { LosesEntry(st, op, io) || LosesStore(st, op, io) }

  /** Without an entry of type "admin" the file cannot be read again; a step leaves none exactly then. */
  lemma StepKeepsFileReadable(st: State, op: Op, io: Io)
    requires WellFormed(st.users) && HasAdmin(st.users)
    ensures HasAdmin(Step(st, op, io).0.users) <==> !Loses(st, op, io)
  {
    StepEffect(st, op, io);
    if Adds(st, op, io) {
      AddKeepsAdmin(st, op, io);
    } else if Changed(st, op, io) {
      ChangedKeepsAdmin(st, op, io);
    }
  }

  lemma AddKeepsAdmin(st: State, op: Op, io: Io)
    requires Adds(st, op, io) && HasAdmin(st.users)
    ensures var after := Added(st.users, NewUser(op), io.saves).0;
      after.Some? ==> (HasAdmin(after.value) <==> !LosesEntry(st, op, io))
  {
    AddedAdmin(st.users, NewUser(op), io.saves);
  }

  lemma ChangedKeepsAdmin(st: State, op: Op, io: Io)
    requires Changed(st, op, io) && WellFormed(st.users) && HasAdmin(st.users)
    ensures HasAdmin(ChangedList(st, op, io)) <==> !LosesEntry(st, op, io)
  {
    ChangeKeepsAdmin(st, op, io);
  }

  lemma AddedAdmin(users: seq<User>, user: User, saves: Saves)
    requires HasAdmin(users)
    ensures var (after, ok) := Added(users, user, saves);
      after.Some? ==> (HasAdmin(after.value) <==> !(PlaceholderOnly(users) && ok && user.kind != "admin"))
  {
    var i :| 0 <= i < |users| && users[i].kind == "admin";
    assert (users + [user])[i] == users[i];
    assert [user][0] == user;
  }

  lemma ChangeKeepsAdmin(st: State, op: Op, io: Io)
    requires Changes(st, op, io) && WellFormed(st.users) && HasAdmin(st.users)
    ensures HasAdmin(ChangedList(st, op, io)) <==>
      !((op.DeleteUserOp? && OnlyAdmin(st.users, op.name))
        || (op.UpdateUserOp? && OnlyAdmin(st.users, op.name) && EditOf(st, op).kind != "admin"))
  {
    match op
    case UpdateUserOp(_, name, _, _) => ReplacedAdmin(st.users, name, EditOf(st, op));
    case DeleteUserOp(_, name) => RemovedAdmin(st.users, name);
    case ResetFailedCountOp(_, name) => KindKeepsAdmin(st.users, name, SetFailed(st.users[Find(st.users, name)], 0));
    case DisableUserOp(_, name) => KindKeepsAdmin(st.users, name, SetFailed(st.users[Find(st.users, name)], 8));
    case UpdateOwnAccountOp(sid, password, hint) =>
      var own := RequireStoredUser(st, sid, io).user;
      KindKeepsAdmin(st.users, own.name, OwnEdit(own, password, hint));
    case LoginOp(_, username, _) =>
      KindKeepsAdmin(st.users, username, SetFailed(st.users[Find(st.users, username)], AttemptedCount(st, op)));
  }

  lemma KindKeepsAdmin(users: seq<User>, name: string, user: User)
    requires HasAdmin(users) && Has(users, name) && user.kind == users[Find(users, name)].kind
    ensures HasAdmin(Replaced(users, name, user))
  {
    var i :| 0 <= i < |users| && users[i].kind == "admin";
    assert Replaced(users, name, user)[i].kind == "admin";
  }

  lemma ReplacedAdmin(users: seq<User>, name: string, user: User)
    requires Distinct(users) && Has(users, name) && HasAdmin(users)
    ensures HasAdmin(Replaced(users, name, user)) <==> !(OnlyAdmin(users, name) && user.kind != "admin")
  {
    var i, after := Find(users, name), Replaced(users, name, user);
    assert after[i] == user;
    var j :| 0 <= j < |users| && users[j].kind == "admin";
    assert j != i ==> after[j] == users[j];
    if !OnlyAdmin(users, name) && users[i].kind == "admin" {
      var k :| 0 <= k < |users| && users[k].kind == "admin" && users[k].name != name;
      assert after[k] == users[k];
    }
    assert forall k :: 0 <= k < |users| && k != i ==> after[k] == users[k] && users[k].name != name;
  }

  lemma RemovedAdmin(users: seq<User>, name: string)
    requires Distinct(users) && Has(users, name) && HasAdmin(users)
    ensures HasAdmin(Removed(users, name)) <==> !OnlyAdmin(users, name)
  {
    var i := Find(users, name);
    if HasAdmin(Removed(users, name)) { var k := AdminElsewhere(users, i); }
    if !OnlyAdmin(users, name) {
      var j :| 0 <= j < |users| && users[j].kind == "admin";
      assert j != i ==> users[j].name != name;
      var k :| 0 <= k < |users| && users[k].kind == "admin" && users[k].name != name;
      AdminStays(users, i, k);
    }
  }

  lemma AdminElsewhere(users: seq<User>, i: nat) returns (k: nat)
    requires i < |users| && HasAdmin(users[..i] + users[i + 1..])
    ensures k < |users| && k != i && users[k].kind == "admin"
  {
    var after := users[..i] + users[i + 1..];
    var j :| 0 <= j < |after| && after[j].kind == "admin";
    k := if j < i then j else j + 1;
  }

  lemma AdminStays(users: seq<User>, i: nat, k: nat)
    requires i < |users| && k < |users| && k != i && users[k].kind == "admin"
    ensures HasAdmin(users[..i] + users[i + 1..])
  {
    var after := users[..i] + users[i + 1..];
    assert after[if k < i then k else k - 1] == users[k];
  }

  /** Any manager but the synthetic debug user is an active administrator: when the only entry of type "admin" is
      managed by one, it is the last active administrator itself. */
  lemma OnlyAdminIsManager(st: State, sid: string, name: string, io: Io)
    requires Managing(st, sid, io) && !ByDebug(st, sid) && WellFormed(st.users) && OnlyAdmin(st.users, name)
    ensures LastActiveAdmin(st.users, name)
  {
    var manager := st.users[Find(st.users, st.sessions[sid].name)];
    assert MayStay(manager) && ActiveAdmin(manager);
    CountOthers(st.users, name);
    forall k | 0 <= k < |st.users| && ActiveAdmin(st.users[k]) ensures st.users[k].kind == "admin" {
      assert MayStay(st.users[k]);
    }
  }

  /** So deleting or editing it away takes the debug user. */
  lemma OnlyDebugLoses(st: State, op: Op, io: Io)
    requires WellFormed(st.users) && LosesEntry(st, op, io) && !op.CreateUserOp?
    ensures ByDebug(st, op.sid)
  {
    if !ByDebug(st, op.sid) {
      OnlyAdminIsManager(st, op.sid, op.name, io);
      if op.UpdateUserOp? { LowerTwice(Trim(op.user.kind)); }
    }
  }

  /** A store is there after a step exactly unless a save has lost it. */
  lemma StoreStays(st: State, op: Op, io: Io)
    requires st.present
    ensures Step(st, op, io).0.present <==> !LosesStore(st, op, io)
    ensures LosesStore(st, op, io) ==>
      Step(st, op, io) == (Gone(st), if op.LoginOp? then Failed(StorageError) else Failed(Conflict))
  {
    StepEffect(st, op, io);
    if Adds(st, op, io) {
      AddLost(st, op, io);
    } else if Changes(st, op, io) && io.saves.add.RestoreFailed? {
      ChangeLost(st, op, io);
    }
  }

  lemma AddLost(st: State, op: Op, io: Io)
    requires Adds(st, op, io)
    ensures AddLoses(st.users, NewUser(op), io.saves) ==> Step(st, op, io) == (Gone(st), Failed(Conflict))
  {
  }

  lemma ChangeLost(st: State, op: Op, io: Io)
    requires Changes(st, op, io) && io.saves.add.RestoreFailed?
    ensures Step(st, op, io) == (Gone(st), if op.LoginOp? then Failed(StorageError) else Failed(Conflict))
  {
  }

  // ---- Together ----

  /** The three rules over one step, each with its exact exceptions. */
  ghost predicate Kept(st: State, op: Op, io: Io, after: State) {
    (WellFormed(st.users) ==> (WellFormed(after.users) <==> !KeepsBadPassword(st, op, io)))
    && (WellFormed(st.users) && HasActiveAdmin(st.users) ==> (HasActiveAdmin(after.users) <==> !Strands(st, op, io)))
    && (WellFormed(st.users) && HasAdmin(st.users) ==> (HasAdmin(after.users) <==> !Loses(st, op, io)))
  }

  lemma StepKept(st: State, op: Op, io: Io)
    ensures Kept(st, op, io, Step(st, op, io).0)
  {
    if WellFormed(st.users) {
      StepKeepsWellFormed(st, op, io);
      if HasActiveAdmin(st.users) { StepKeepsActiveAdmin(st, op, io); }
      if HasAdmin(st.users) { StepKeepsFileReadable(st, op, io); }
    }
  }

  // ---- The exceptions occur ----

  lemma DeletionDone(st: State, op: Op, io: Io)
    requires Deletes(st, op, io)
    ensures Step(st, op, io) == (st.(users := Removed(st.users, op.name)), Done)
  {
  }

  lemma EditDone(st: State, op: Op, io: Io)
    requires Edits(st, op, io)
    ensures Step(st, op, io) == (st.(users := Replaced(st.users, op.name, EditOf(st, op))), Done)
  {
  }

  lemma FirstDone(st: State, op: Op, io: Io)
    requires CreatesFirst(st, op, io)
    ensures Step(st, op, io) == (st.(users := [Normalized(op.user)]), Done)
  {
  }

  /** The debug user may manage any list with an administrator. */
  lemma DebugManages(st: State, io: Io)
    requires st.present && HasAdmin(st.users) && io.readable && "s" in st.sessions
    requires st.sessions["s"] == User("debug", "debug", "", "", 0)
    ensures Managing(st, "s", io)
  {
    assert Lower("debug") == "debug";
  }

  /** The debug user can delete a last administrator that is disabled; the file is then unreadable. */
  lemma DebugCanStrandTheFile()
    ensures var st, op := State(true, [ROOT], DEBUG_SESSION), DeleteUserOp("s", "root");
      WellFormed(st.users) && HasAdmin(st.users) && Loses(st, op, WORKING)
      && Step(st, op, WORKING) == (State(true, [], DEBUG_SESSION), Done)
  {
    var users := [ROOT];
    var st := State(true, users, DEBUG_SESSION);
    ConcretePasswords();
    ConcreteTexts();
    assert users[0].kind == "admin" && Ruled(ROOT) && !ActiveAdmin(ROOT);
    assert Find(users, "root") == 0 && Removed(users, "root") == [];
    DebugManages(st, WORKING);
    DeletionDone(st, DeleteUserOp("s", "root"), WORKING);
  }

  const ROOT := User("admin", "root", "Secret1", "", 8)

  const PLACEHOLDER := User("admin", "null", "", "", 0)

  const DEBUG_SESSION := map["s" := User("debug", "debug", "", "", 0)]

  const WORKING := Io(true, false, Saves(InPlace, InPlace, InPlace))

  lemma ConcretePasswords()
    ensures PasswordMeetsRules("Secret1") && !PasswordMeetsRules("")
  {
    assert "Secret1"[0] == 'S' && "Secret1"[1] == 'e' && "Secret1"[6] == '1';
  }

  lemma ConcreteTexts()
    ensures Trim("ann") == "ann" && Trim("root") == "root" && Trim("user") == "user" && Trim("admin") == "admin"
    ensures Trim("") == "" && !HasWhitespace("ann") && !HasWhitespace("root")
  {
  }

  lemma ConcreteKinds()
    ensures Lower("user") == "user" && Lower("admin") == "admin" && Lower("debug") == "debug"
  {
  }

  lemma PlaceholderAlone()
    ensures var users := [PLACEHOLDER];
      WellFormed(users) && HasActiveAdmin(users) && HasAdmin(users) && Find(users, "null") == 0
      && Replaced(users, "null", RENAMED) == [RENAMED]
  {
    ConcreteKinds();
    var users := [PLACEHOLDER];
    assert users[0].kind == "admin" && ActiveAdmin(users[0]);
  }

  const ANN := User("user", "ann", "Secret1", "", 0)

  const RENAMED := User("admin", "root", "", "", 0)

  lemma ConcreteChecks()
    ensures Normalized(ANN) == ANN && Valid(ANN, [PLACEHOLDER], "", false, true)
    ensures Edited(PLACEHOLDER, RENAMED, false) == RENAMED && Valid(RENAMED, [PLACEHOLDER], "null", true, false)
  {
    ConcretePasswords();
    ConcreteTexts();
    ConcreteKinds();
    assert Find([PLACEHOLDER], "null") == 0 && Find([PLACEHOLDER], "ann") == 1 && Find([PLACEHOLDER], "root") == 1;
  }

  /** A plain user created in the place of the placeholder: no administrator is left. */
  lemma FirstUserCanStrand()
    ensures var st, op := State(true, [PLACEHOLDER], DEBUG_SESSION), CreateUserOp("s", ANN);
      WellFormed(st.users) && HasActiveAdmin(st.users) && Strands(st, op, WORKING) && Loses(st, op, WORKING)
      && Step(st, op, WORKING) == (State(true, [ANN], DEBUG_SESSION), Done)
  {
    var users, op := [PLACEHOLDER], CreateUserOp("s", ANN);
    var st := State(true, users, DEBUG_SESSION);
    ConcreteKinds();
    ConcreteChecks();
    PlaceholderAlone();
    DebugManages(st, WORKING);
    FirstDone(st, op, WORKING);
  }

  /** The placeholder edited without a new password: it keeps the empty one. */
  lemma PlaceholderKeepsPassword()
    ensures var st, op := State(true, [PLACEHOLDER], DEBUG_SESSION), UpdateUserOp("s", "null", RENAMED, false);
      WellFormed(st.users) && KeepsBadPassword(st, op, WORKING)
      && Step(st, op, WORKING) == (State(true, [RENAMED], DEBUG_SESSION), Done)
  {
    var users, op := [PLACEHOLDER], UpdateUserOp("s", "null", RENAMED, false);
    var st := State(true, users, DEBUG_SESSION);
    ConcretePasswords();
    ConcreteChecks();
    PlaceholderAlone();
    DebugManages(st, WORKING);
    EditDone(st, op, WORKING);
  }

  /** A manager resets a count, and the save loses the file: no user is left. */
  lemma ResetCanLoseStore()
    ensures var st, op := State(true, [ROOT.(failed := 0)], DEBUG_SESSION), ResetFailedCountOp("s", "root");
      WellFormed(st.users) && HasActiveAdmin(st.users) && LosesStore(st, op, LOSING)
      && Step(st, op, LOSING) == (State(false, [], DEBUG_SESSION), Failed(Conflict))
  {
    var users := [ROOT.(failed := 0)];
    var st := State(true, users, DEBUG_SESSION);
    ConcretePasswords();
    ConcreteTexts();
    ConcreteKinds();
    assert users[0].kind == "admin" && Ruled(users[0]) && ActiveAdmin(users[0]);
    assert Find(users, "root") == 0;
    DebugManages(st, LOSING);
    ChangeLost(st, ResetFailedCountOp("s", "root"), LOSING);
  }

  const LOSING := Io(true, false, Saves(RestoreFailed, RestoreFailed, RestoreFailed))

  // ---- Whole runs ----

  function Run(st: State, steps: seq<(Op, Io)>): State {
    if steps == [] then st else Step(Run(st, steps[..|steps| - 1]), steps[|steps| - 1].0, steps[|steps| - 1].1).0
  }

  /** In the state after a run, and in every state on the way there. */
  ghost predicate Throughout(st: State, steps: seq<(Op, Io)>, good: State -> bool) {
    good(Run(st, steps)) && (steps == [] || Throughout(st, steps[..|steps| - 1], good))
  }

  /** In no step of a run. */
  ghost predicate Never(st: State, steps: seq<(Op, Io)>, bad: (State, Op, Io) -> bool) {
    steps == []
    || (!bad(Run(st, steps[..|steps| - 1]), steps[|steps| - 1].0, steps[|steps| - 1].1)
      && Never(st, steps[..|steps| - 1], bad))
  }

  /** What each step keeps but for its exceptions, a run keeps throughout exactly when none of them occurs. */
  lemma {:induction false} RunKeeps(st: State, steps: seq<(Op, Io)>, good: State -> bool, bad: (State, Op, Io) -> bool)
    requires good(st) && forall s, op, io :: good(s) ==> (good(Step(s, op, io).0) <==> !bad(s, op, io))
    ensures Throughout(st, steps, good) <==> Never(st, steps, bad)
  {
    if steps != [] { RunKeeps(st, steps[..|steps| - 1], good, bad); }
  }

  predicate Lawful(st: State) { WellFormed(st.users) }

  /** In every run the users are well formed throughout exactly when no edit of the placeholder keeps a bad
      password. */
  lemma RunKeepsWellFormed(st: State, steps: seq<(Op, Io)>)
    requires Lawful(st)
    ensures Throughout(st, steps, Lawful) <==> Never(st, steps, KeepsBadPassword)
  {
    forall s, op, io | Lawful(s) ensures Lawful(Step(s, op, io).0) <==> !KeepsBadPassword(s, op, io) {
      StepKeepsWellFormed(s, op, io);
    }
    RunKeeps(st, steps, Lawful, KeepsBadPassword);
  }

  ghost predicate Active(st: State) { Lawful(st) && HasActiveAdmin(st.users) }

  ghost predicate EndsActive(st: State, op: Op, io: Io) { KeepsBadPassword(st, op, io) || Strands(st, op, io) }

  /** And some administrator is active throughout exactly when moreover no step takes the last one away. */
  lemma RunKeepsActiveAdmin(st: State, steps: seq<(Op, Io)>)
    requires Active(st)
    ensures Throughout(st, steps, Active) <==> Never(st, steps, EndsActive)
  {
    forall s, op, io | Active(s) ensures Active(Step(s, op, io).0) <==> !EndsActive(s, op, io) {
      StepKeepsWellFormed(s, op, io);
      StepKeepsActiveAdmin(s, op, io);
    }
    RunKeeps(st, steps, Active, EndsActive);
  }

  ghost predicate Readable(st: State) { Lawful(st) && HasAdmin(st.users) }

  ghost predicate EndsReadable(st: State, op: Op, io: Io) { KeepsBadPassword(st, op, io) || Loses(st, op, io) }

  /** And an administrator entry, without which the file is unreadable, stays throughout exactly when no step
      loses it. */
  lemma RunKeepsFileReadable(st: State, steps: seq<(Op, Io)>)
    requires Readable(st)
    ensures Throughout(st, steps, Readable) <==> Never(st, steps, EndsReadable)
  {
    forall s, op, io | Readable(s) ensures Readable(Step(s, op, io).0) <==> !EndsReadable(s, op, io) {
      StepKeepsWellFormed(s, op, io);
      StepKeepsFileReadable(s, op, io);
    }
    RunKeeps(st, steps, Readable, EndsReadable);
  }
}
