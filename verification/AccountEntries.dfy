/** What the operations of BACKEND/core/user_service.cpp and BACKEND/core/session_service.cpp do to the entries of the
    stored users, field by field, who may do it, and what follows from it for a later login. */
module AccountEntries {
  import opened Accounts
  import opened AccountRules
  import opened Ascii
  import opened BackendErrors
  import opened Lockout
  import opened UserFile
  import opened Users

  // ---- Texts ----

  predicate Blank(s: string) { forall i :: 0 <= i < |s| ==> s[i] in " \t\r\n" }

  /** `part` is `s` without the blanks at both ends. */
  ghost predicate IsTrimmed(s: string, part: string) {
    (exists a, b :: s == a + part + b && Blank(a) && Blank(b))
    && (part != "" ==> part[0] !in " \t\r\n" && part[|part| - 1] !in " \t\r\n")
  }

  lemma TrimMeans(s: string)
    ensures IsTrimmed(s, Trim(s))
  {
    var a := LeftTrimmed(s);
    var b := RightTrimmed(TrimLeft(s));
    RightStops(TrimLeft(s));
    assert s == a + (Trim(s) + b) == a + Trim(s) + b;
  }

  lemma {:induction false} LeftTrimmed(s: string) returns (a: string)
    ensures s == a + TrimLeft(s) && Blank(a) && (TrimLeft(s) != "" ==> TrimLeft(s)[0] !in " \t\r\n")
  {
    a := "";
    if s != "" && Trimmed(s[0]) {
      var more := LeftTrimmed(s[1..]);
      a := [s[0]] + more;
      assert s == [s[0]] + s[1..];
    }
  }

  lemma {:induction false} RightTrimmed(s: string) returns (b: string)
    ensures s == TrimRight(s) + b && Blank(b)
  {
    b := "";
    if s != "" && Trimmed(s[|s| - 1]) {
      var init, last := s[..|s| - 1], s[|s| - 1];
      var more := RightTrimmed(init);
      b := more + [last];
      assert s == init + [last] == TrimRight(init) + (more + [last]);
    }
  }

  lemma {:induction false} RightStops(s: string)
    ensures var r := TrimRight(s); r != "" ==> r[|r| - 1] !in " \t\r\n"
  {
    if s != "" && Trimmed(s[|s| - 1]) { RightStops(s[..|s| - 1]); }
  }

  /** The letters of `s` in lower case, all else as it is. */
  predicate IsLowered(s: string, t: string) {
    |t| == |s| && forall i :: 0 <= i < |s| ==>
      t[i] == if 'A' <= s[i] <= 'Z' then (s[i] as int - 'A' as int + 'a' as int) as char else s[i]
  }

  lemma LowerMeans(s: string)
    ensures IsLowered(s, Lower(s))
  {
  }

  // ---- One entry ----

  /** Only the entry at the position of `name` is another. */
  ghost predicate OnlyEntry(before: seq<User>, after: seq<User>, name: string) {
    |after| == |before| && Has(before, name)
    && forall k :: 0 <= k < |before| && k != Find(before, name) ==> after[k] == before[k]
  }

  /** An own change that is answered with `Done`: the new password and the new hint without the blanks around it
      are stored, what was not given stays, and so does everything else. */
  lemma OwnChangeStored(st: State, op: Op, io: Io)
    requires op.UpdateOwnAccountOp? && Step(st, op, io).1 == Done
    ensures op.sid in st.sessions && Has(st.users, st.sessions[op.sid].name)
    ensures var (after, name) := (Step(st, op, io).0, st.sessions[op.sid].name);
      var i := Find(st.users, name);
      OnlyEntry(st.users, after.users, name) && after.present == st.present && after.sessions == st.sessions
      && after.users[i].name == name
      && after.users[i].kind == st.users[i].kind && after.users[i].failed == st.users[i].failed
      && after.users[i].password == (if op.newPassword.Some? then op.newPassword.value else st.users[i].password)
      && (if op.newHint.Some? then IsTrimmed(op.newHint.value, after.users[i].hint)
          else after.users[i].hint == st.users[i].hint)
  {
    if op.newHint.Some? { TrimMeans(op.newHint.value); }
  }

  /** Nothing else answers `Done`: a new password within the rules, a hint that is not the password, and a save that
      goes through. */
  lemma OwnChangeDone(st: State, op: Op, io: Io)
    requires op.UpdateOwnAccountOp?
    ensures Step(st, op, io).1 == Done <==>
      StoredUserOf(st, op.sid, io) && !SyntheticDebug(st.sessions[op.sid])
      && !io.throws && io.saves.add.InPlace?
      && var u := st.users[Find(st.users, st.sessions[op.sid].name)];
        Lower(u.kind) != "debug" && (op.newPassword.Some? ==> PasswordMeetsRules(op.newPassword.value))
        && var hint := if op.newHint.Some? then Trim(op.newHint.value) else u.hint;
          hint == "" || hint != if op.newPassword.Some? then op.newPassword.value else u.password
  {
  }

  /** The session exists, is no guest, and its user is stored, readable and not locked. */
  predicate StoredUserOf(st: State, sid: string, io: Io) {
    sid in st.sessions && st.sessions[sid].kind != "guest" && st.sessions[sid].name != ""
    && st.present && io.readable && (exists k :: 0 <= k < |st.users| && st.users[k].kind == "admin")
    && Has(st.users, st.sessions[sid].name) && st.users[Find(st.users, st.sessions[sid].name)].failed <= 7
  }

  /** Who manages users: the synthetic debug user, and stored users that are administrators or of type "debug". */
  predicate ManagerOf(st: State, sid: string, io: Io) {
    (sid in st.sessions && st.sessions[sid].name == "debug" && st.sessions[sid].password == ""
      && IsLowered(st.sessions[sid].kind, "debug"))
    || (StoredUserOf(st, sid, io)
      && var kind := st.users[Find(st.users, st.sessions[sid].name)].kind;
        IsLowered(kind, "admin") || IsLowered(kind, "debug"))
  }

  lemma ManagersManage(st: State, sid: string, io: Io)
    ensures RequireManager(st, sid, io).Is? <==> ManagerOf(st, sid, io)
    ensures Managing(st, sid, io) <==>
      ManagerOf(st, sid, io) && st.present && io.readable
      && exists k :: 0 <= k < |st.users| && st.users[k].kind == "admin"
  {
    if sid in st.sessions {
      var session := st.sessions[sid];
      LoweredIs(session.kind, "debug");
      LoweredGuest(session.kind);
      if Has(st.users, session.name) {
        var kind := st.users[Find(st.users, session.name)].kind;
        LoweredIs(kind, "admin");
        LoweredIs(kind, "debug");
      }
    }
  }

  lemma LoweredIs(s: string, t: string)
    ensures Lower(s) == t <==> IsLowered(s, t)
  {
    LowerMeans(s);
    if IsLowered(s, t) { assert forall i :: 0 <= i < |s| ==> Lower(s)[i] == t[i]; }
  }

  lemma LoweredGuest(s: string)
    ensures IsLowered(s, "debug") ==> s != "guest"
  {
    assert "guest"[0] == 'g' && "debug"[0] == 'd';
  }

  /** Why a user without a manager's rights is refused. */
  lemma WhyRefused(st: State, sid: string, io: Io)
    requires !ManagerOf(st, sid, io)
    ensures RequireManager(st, sid, io).Not?
    ensures var code := RequireManager(st, sid, io).code;
      (code == SessionExpired <==> sid !in st.sessions)
      && (sid in st.sessions && (st.sessions[sid].kind == "guest" || st.sessions[sid].name == "") ==>
        code == PermissionDenied)
      && (StoredUserOf(st, sid, io) ==> code == PermissionDenied)
  {
    ManagersManage(st, sid, io);
  }

  // ---- Entries that are created or edited ----

  /** The fields of an entry made from a request. */
  ghost predicate MadeFrom(u: User, asked: User) {
    (exists kind :: IsTrimmed(asked.kind, kind) && IsLowered(kind, u.kind))
    && IsTrimmed(asked.name, u.name) && IsTrimmed(asked.hint, u.hint) && u.failed == asked.failed
  }

  lemma NormalizedMade(asked: User)
    ensures MadeFrom(Normalized(asked), asked) && Normalized(asked).password == asked.password
  {
    TrimMeans(asked.kind);
    TrimMeans(asked.name);
    TrimMeans(asked.hint);
    LowerMeans(Trim(asked.kind));
  }

  /** A creation that is answered with `Done` puts one new entry, as asked, behind all others, or in the place of the
      lone placeholder. */
  lemma CreationStored(st: State, op: Op, io: Io)
    requires op.CreateUserOp? && Step(st, op, io).1 == Done
    ensures var after := Step(st, op, io).0;
      && after.present && after.sessions == st.sessions && after.users != []
      && var u := after.users[|after.users| - 1];
        MadeFrom(u, op.user) && u.password == op.user.password
        && after.users == (if |st.users| == 1 && st.users[0].name == "null" then [u] else st.users + [u])
  {
    NormalizedMade(op.user);
    CreateAdds(st, op, io);
    AddedLast(st, Normalized(op.user), io);
  }

  lemma CreateAdds(st: State, op: Op, io: Io)
    requires (op.CreateUserOp? || op.CreateInitialAdminOp?) && Step(st, op, io).1 == Done
    ensures Step(st, op, io) == Accounts.Add(st, NewUser(op), io)
    ensures op.CreateInitialAdminOp? && st.present ==> PlaceholderOnly(st.users)
  {
  }

  lemma AddedLast(st: State, user: User, io: Io)
    requires Accounts.Add(st, user, io).1 == Done
    ensures Accounts.Add(st, user, io).0 ==
      State(true, if |st.users| == 1 && st.users[0].name == "null" then [user] else st.users + [user], st.sessions)
  {
  }

  lemma InitialAdminStored(st: State, op: Op, io: Io)
    requires op.CreateInitialAdminOp? && Step(st, op, io).1 == Done
    ensures var after := Step(st, op, io).0;
      && after.present && after.sessions == st.sessions && after.users != []
      && var u := after.users[|after.users| - 1];
        u.kind == "admin" && IsTrimmed(op.username, u.name) && u.password == op.password && IsTrimmed(op.hint, u.hint)
        && u.failed == 0 && (st.present ==> after.users == [u])
        && (!st.present ==>
          after.users == (if |st.users| == 1 && st.users[0].name == "null" then [u] else st.users + [u]))
  {
    TrimMeans(op.username);
    TrimMeans(op.hint);
    CreateAdds(st, op, io);
    AddedLast(st, NewUser(op), io);
  }

  /** An edit that is answered with `Done` replaces one entry, as asked; without a new password the old one stays. */
  lemma EditStored(st: State, op: Op, io: Io)
    requires op.UpdateUserOp? && Step(st, op, io).1 == Done
    ensures Has(st.users, op.name)
    ensures var (after, i) := (Step(st, op, io).0, Find(st.users, op.name));
      OnlyEntry(st.users, after.users, op.name) && after.present == st.present && after.sessions == st.sessions
      && MadeFrom(after.users[i], op.user)
      && after.users[i].password == if op.passwordProvided then op.user.password else st.users[i].password
  {
    NormalizedMade(op.user);
    EditUpdates(st, op, io);
    UpdatedEntry(st, op.name, EditOf(st, op), io);
  }

  lemma EditUpdates(st: State, op: Op, io: Io)
    requires op.UpdateUserOp? && Step(st, op, io).1 == Done
    ensures Has(st.users, op.name) && Step(st, op, io) == Accounts.Update(st, op.name, EditOf(st, op), io)
  {
  }

  lemma UpdatedEntry(st: State, name: string, user: User, io: Io)
    requires Accounts.Update(st, name, user, io).1 == Done
    ensures Has(st.users, name)
    ensures Accounts.Update(st, name, user, io).0 == st.(users := st.users[Find(st.users, name) := user])
  {
  }

  /** Resetting and disabling set the count of one entry and leave all else. */
  lemma CountStored(st: State, op: Op, io: Io)
    requires (op.ResetFailedCountOp? || op.DisableUserOp?) && Step(st, op, io).1 == Done
    ensures Has(st.users, op.name)
    ensures var (after, i) := (Step(st, op, io).0, Find(st.users, op.name));
      OnlyEntry(st.users, after.users, op.name) && after.present == st.present && after.sessions == st.sessions
      && after.users[i] == st.users[i].(failed := if op.ResetFailedCountOp? then 0 else 8)
  {
  }

  /** A deletion takes out one entry and leaves the others in their order. */
  lemma DeletionStored(st: State, op: Op, io: Io)
    requires op.DeleteUserOp? && Step(st, op, io).1 == Done
    ensures Has(st.users, op.name)
    ensures var (after, i) := (Step(st, op, io).0, Find(st.users, op.name));
      |after.users| == |st.users| - 1 && after.present == st.present && after.sessions == st.sessions
      && forall k :: 0 <= k < |after.users| ==> after.users[k] == st.users[if k < i then k else k + 1]
  {
  }

  /** Nobody but a manager creates, edits, deletes, resets or disables. */
  lemma OnlyManagers(st: State, op: Op, io: Io)
    requires op.CreateUserOp? || op.UpdateUserOp? || op.DeleteUserOp? || op.ResetFailedCountOp? || op.DisableUserOp?
    ensures Step(st, op, io).1 == Done ==> ManagerOf(st, op.sid, io)
    ensures !ManagerOf(st, op.sid, io) ==> Step(st, op, io).0 == st
  {
    ManagersManage(st, op.sid, io);
  }

  /** And what a manager asks for within the rules is done when the save goes through. */
  lemma ManagersSucceed(st: State, op: Op, io: Io)
    requires op.DeleteUserOp? || op.ResetFailedCountOp? || op.DisableUserOp?
    ensures Step(st, op, io).1 == Done <==>
      ManagerOf(st, op.sid, io) && st.present && io.readable
      && (exists k :: 0 <= k < |st.users| && st.users[k].kind == "admin")
      && Has(st.users, op.name) && !io.throws && io.saves.add.InPlace?
      && (op.ResetFailedCountOp? || !LastActiveAdmin(st.users, op.name))
  {
    ManagersManage(st, op.sid, io);
  }

  /** A user is created when a manager asks for one within the rules, under a free name, and the saves go through: one,
      or two beside the lone placeholder. */
  lemma CreatedExactly(st: State, op: Op, io: Io)
    requires op.CreateUserOp?
    ensures Step(st, op, io).1 == Done <==>
      ManagerOf(st, op.sid, io) && st.present && io.readable
      && (exists k :: 0 <= k < |st.users| && st.users[k].kind == "admin")
      && Valid(Normalized(op.user), st.users, "", false, true) && !io.throws && io.saves.add.InPlace?
      && (|st.users| == 1 && st.users[0].name == "null" ==> io.saves.removePlaceholder.InPlace?)
  {
    ManagersManage(st, op.sid, io);
  }

  /** Setup is done when there is no store yet, or it can be read and holds the lone placeholder, for an administrator
      within the rules, when the saves go through. */
  lemma SetUpExactly(st: State, op: Op, io: Io)
    requires op.CreateInitialAdminOp? && (!st.present ==> st.users == [])
    ensures Step(st, op, io).1 == Done <==>
      io.readable && (st.present ==> |st.users| == 1 && st.users[0].name == "null" && st.users[0].kind == "admin")
      && Valid(NewUser(op), [], "", false, true) && !io.throws && io.saves.add.InPlace?
      && (st.present ==> io.saves.removePlaceholder.InPlace?)
  {
  }

  /** An entry is edited when a manager asks for an edit within the rules and the save goes through. */
  lemma EditedExactly(st: State, op: Op, io: Io)
    requires op.UpdateUserOp?
    ensures Step(st, op, io).1 == Done <==>
      ManagerOf(st, op.sid, io) && st.present && io.readable
      && (exists k :: 0 <= k < |st.users| && st.users[k].kind == "admin")
      && Has(st.users, op.name) && Valid(EditOf(st, op), st.users, op.name, true, op.passwordProvided)
      && !io.throws && io.saves.add.InPlace?
  {
    ManagersManage(st, op.sid, io);
  }

  /** A stored entry can become another exactly within the rules, under its own or a free name, unless that takes the
      last active administrator away. */
  lemma EditableExactly(before: User, asked: User, existing: seq<User>, name: string, provided: bool)
    ensures var u := Edited(before, asked, provided);
      Valid(u, existing, name, true, provided) <==>
      u.name != "" && u.name != "null" && (forall i :: 0 <= i < |u.name| ==> u.name[i] !in " \t\n\r\U{b}\U{c}")
      && (u.kind == "admin" || u.kind == "user") && (provided ==> PasswordMeetsRules(u.password))
      && (u.hint == "" || u.hint != u.password) && 0 <= u.failed <= 8
      && (u.name == name || forall k :: 0 <= k < |existing| ==> existing[k].name != u.name)
      && EditAllowed(u, existing, name)
  {
    LowerTwice(Trim(asked.kind));
  }

  /** A normalized user can be created exactly when it is within the rules and its name is free. */
  lemma CreatableExactly(asked: User, existing: seq<User>)
    ensures var u := Normalized(asked);
      Valid(u, existing, "", false, true) <==>
      u.name != "" && u.name != "null" && (forall i :: 0 <= i < |u.name| ==> u.name[i] !in " \t\n\r\U{b}\U{c}")
      && (u.kind == "admin" || u.kind == "user") && PasswordMeetsRules(u.password)
      && (u.hint == "" || u.hint != u.password) && 0 <= u.failed <= 8
      && forall k :: 0 <= k < |existing| ==> existing[k].name != u.name
  {
    LowerTwice(Trim(asked.kind));
  }

  /** The password rules at their bounds. */
  lemma PasswordBounds()
    ensures PasswordMeetsRules("Abcde1") && !PasswordMeetsRules("Abcd1") && !PasswordMeetsRules("abcde1")
    ensures !PasswordMeetsRules("ABCDE1") && !PasswordMeetsRules("Abcdef")
  {
    assert "Abcde1"[0] == 'A' && "Abcde1"[1] == 'b' && "Abcde1"[5] == '1';
  }

  // ---- Sessions ----

  /** After a logout the session is a guest's, which may do nothing that needs a user; all else is as before. */
  lemma LoggedOut(st: State, sid: string, io: Io)
    ensures var (after, reply) := Step(st, LogoutOp(sid), io);
      after.users == st.users && after.present == st.present
      && (reply == Done <==> sid in st.sessions)
      && (sid in st.sessions ==>
        after.sessions.Keys == st.sessions.Keys
        && after.sessions[sid].kind == "guest" && after.sessions[sid].name == ""
        && after.sessions[sid].password == ""
        && (forall other :: other in st.sessions && other != sid ==> after.sessions[other] == st.sessions[other]))
      && (sid !in st.sessions ==> after == st && reply == Failed(SessionExpired))
  {
  }

  lemma GuestsMayNothing(st: State, sid: string, io: Io)
    ensures sid in st.sessions && st.sessions[sid].name == "" ==>
      RequireStoredUser(st, sid, io) == Not(PermissionDenied) && RequireManager(st, sid, io) == Not(PermissionDenied)
  {
  }

  /** A session that starts is a new one for the given user, and no other changes. */
  lemma SessionStarted(st: State, user: User, drawn: seq<string>, io: Io)
    ensures var (after, reply) := Step(st, StartSessionOp(user, drawn), io);
      after.users == st.users && after.present == st.present
      && (reply == Done <==> exists sid :: sid in drawn && sid !in st.sessions)
      && (reply == Done ==>
        exists sid :: sid in drawn && sid !in st.sessions && after.sessions == st.sessions[sid := user])
      && (reply != Done ==> after == st)
  {
    var i := FirstFree(drawn, st.sessions);
    if i < |drawn| {
      assert drawn[i] in drawn;
    } else {
      assert forall sid :: sid in drawn ==> sid in st.sessions;
    }
  }

  // ---- A changed password ----

  /** A stored password that is given, or any other, for an unlocked account whose count can be saved. */
  lemma LoginAnswered(st: State, sid: string, name: string, password: string, io: Io)
    requires sid in st.sessions && LoadUsers(st, io).Some? && !io.throws && io.saves.add.InPlace?
    requires Has(st.users, name) && st.users[Find(st.users, name)].failed <= 7
    ensures Step(st, LoginOp(sid, name, password), io).1 ==
      if password == st.users[Find(st.users, name)].password then Done else Failed(AuthenticationFailed)
  {
  }

  /** Another session logs in with a changed password when the count can be saved, and with no other password. */
  lemma NewPasswordLogsIn(st: State, op: Op, io: Io, sid: string, password: string, later: Io)
    requires op.UpdateOwnAccountOp? && op.newPassword.Some? && Step(st, op, io).1 == Done && sid in st.sessions
    requires later.readable && !later.throws && later.saves.add.InPlace?
    ensures var name := st.sessions[op.sid].name;
      Step(Step(st, op, io).0, LoginOp(sid, name, password), later).1
        == if password == op.newPassword.value then Done else Failed(AuthenticationFailed)
  {
    OwnChangeStored(st, op, io);
    var (before, after, name) := (st.users, Step(st, op, io).0, st.sessions[op.sid].name);
    SameFind(before, after.users, name);
    var k :| 0 <= k < |before| && before[k].kind == "admin";
    assert after.users[k].kind == "admin";
    LoginAnswered(after, sid, name, password, later);
  }

  /** A created user logs in with the password it was given. */
  lemma CreatedLogsIn(st: State, op: Op, io: Io, sid: string, later: Io)
    requires op.CreateUserOp? && Step(st, op, io).1 == Done && sid in st.sessions && op.user.failed <= 7
    requires HasAdmin(Step(st, op, io).0.users)
    requires later.readable && !later.throws && later.saves.add.InPlace?
    ensures var after := Step(st, op, io).0;
      var name := after.users[|after.users| - 1].name;
      Step(after, LoginOp(sid, name, op.user.password), later).1 == Done
  {
    CreationStored(st, op, io);
    CreatedFound(st, op, io);
    var after := Step(st, op, io).0;
    LoginAnswered(after, sid, after.users[|after.users| - 1].name, op.user.password, later);
  }

  lemma CreatedFound(st: State, op: Op, io: Io)
    requires op.CreateUserOp? && Step(st, op, io).1 == Done
    ensures var after := Step(st, op, io).0.users;
      after != [] && Find(after, after[|after| - 1].name) == |after| - 1
  {
  }
}
