/** The services as objects: the sessions of BACKEND/core/session_service.cpp and the user management of
    BACKEND/core/user_service.cpp, on the user file. What the file holds is the state of the state machine: every
    method takes a step of it, which its calls of the store carry out on the file. */
module AccountServices {
  import opened AccountRules
  import opened Accounts
  import opened AccountStorage
  import opened Ascii
  import opened BackendErrors
  import opened Bytes
  import opened UserFile
  import opened Users
  import opened UserStores
  import opened Wrappers

  /** The store of the services: the file, and the list it holds. */
  class StoredUsers {
    const file: UserStore
    ghost var present: bool
    ghost var users: seq<User>
    ghost var strict: bool

    ghost function List(): State
      reads this
    {
      State(present, users, map[])
    }

    ghost predicate Valid()
      reads this, file.disk
    {
      Represents(file.disk.files.target, List(), strict, file.key)
    }

    /** What the disk does, on the list. */
    ghost function IoOf(d: DiskIo, fits: bool): Io
      reads this, file.disk
    {
      ListIo(file.disk.files.target, List(), strict, file.key, d, fits)
    }

    /** The store of a saved file, or of a missing or empty one. */
    constructor (file: UserStore, ghost present: bool, ghost users: seq<User>, ghost strict: bool)
      requires Represents(file.disk.files.target, State(present, users, map[]), strict, file.key)
      ensures Valid() && this.file == file && List() == State(present, users, map[])
    {
      this.file, this.present, this.users, this.strict := file, present, users, strict;
    }

    /** The list is that of `st`, and `io` is what the disk does to it. */
    ghost predicate Is(st: State, d: DiskIo, fits: bool, io: Io)
      reads this, file.disk
    {
      st.present == present && st.users == users && io == IoOf(d, fits)
    }

    method ListUsers(d: DiskIo, ghost st: State, ghost fits: bool, ghost io: Io) returns (r: Option<seq<User>>)
      requires Valid() && Is(st, d, fits, io)
      ensures r == LoadUsers(st, io)
    {
      ListedIsLoaded(file.disk.files.target, List(), strict, file.key, d.listed, io);
      r := file.ListUsers(d.listed);
    }

    method IsStoreEmpty(d: DiskIo, ghost st: State, ghost fits: bool, ghost io: Io) returns (r: Option<bool>)
      requires Valid() && Is(st, d, fits, io)
      ensures r == if !io.readable || (st.present && !HasAdmin(st.users)) then None
        else Some(!st.present || PlaceholderOnly(st.users))
    {
      EmptyIsEmpty(file.disk.files.target, List(), strict, file.key);
      r := file.IsStoreEmpty(d.listed);
    }

    method AddUser(user: User, d: DiskIo, ghost st: State, ghost io: Io) returns (r: Option<bool>)
      requires Valid() && Is(st, d, Storable(user), io) && Representable(user)
      requires io.readable && (st.present ==> HasAdmin(st.users))
      modifies this, file.disk
      ensures Valid() && (State(present, users, st.sessions), Answer(r)) == Accounts.Add(st, user, io)
    {
      AddedInBoth(file.disk.files.target, st, strict, file.key, user, d, io);
      ghost var next := Accounts.Add(st, user, io).0;
      r := file.AddUser(user, d.valid, d.created, d.saves);
      present, users, strict := next.present, next.users, present && strict;
    }

    method UpdateUser(name: string, user: User, d: DiskIo, ghost st: State, ghost io: Io) returns (r: Option<bool>)
      requires Valid() && Is(st, d, Storable(user), io) && Representable(user) && LoadUsers(st, io).Some?
      modifies this, file.disk
      ensures Valid() && (State(present, users, st.sessions), Answer(r)) == Accounts.Update(st, name, user, io)
    {
      UpdatedInBoth(file.disk.files.target, st, strict, file.key, name, user, d, io);
      ghost var next := Accounts.Update(st, name, user, io).0;
      r := file.UpdateUser(name, user, d.valid, d.saves.add);
      present, users := next.present, next.users;
    }

    method RemoveUser(name: string, d: DiskIo, ghost st: State, ghost io: Io) returns (r: Option<bool>)
      requires Valid() && Is(st, d, true, io) && LoadUsers(st, io).Some?
      modifies this, file.disk
      ensures Valid() && (State(present, users, st.sessions), Answer(r)) == Accounts.Remove(st, name, io)
    {
      RemovedInBoth(file.disk.files.target, st, strict, file.key, name, d, io);
      ghost var next := Accounts.Remove(st, name, io).0;
      r := file.RemoveUser(name, d.valid, d.saves.add);
      present, users := next.present, next.users;
    }
  }

  /** The strings an operation would have saved are not too long for the file. */
  predicate Fits(st: State, op: Op) {
    match op
    case CreateInitialAdminOp(_, _, _) => Storable(NewUser(op))
    case CreateUserOp(_, _) => Storable(NewUser(op))
    case UpdateUserOp(_, name, _, _) => Has(st.users, name) ==> Storable(EditOf(st, op))
    case UpdateOwnAccountOp(sid, password, hint) =>
      sid in st.sessions && Has(st.users, st.sessions[sid].name) ==>
        Storable(OwnEdit(st.users[Find(st.users, st.sessions[sid].name)], password, hint))
    case _ => true
  }

  // ---- What the operations write ----

  /** The users can be read, the entry that is written fits if the operation's strings do, and it is in bytes. */
  predicate Writes(st: State, op: Op, io: Io, user: User) {
    LoadUsers(st, io).Some? && (Fits(st, op) <==> Storable(user)) && Representable(user)
  }

  lemma StoredHoldable(users: seq<User>, name: string)
    requires Holdable(users) && Has(users, name)
    ensures Representable(users[Find(users, name)]) && Storable(users[Find(users, name)])
  {
  }

  lemma OwnWritten(st: State, op: Op, io: Io)
    requires op.UpdateOwnAccountOp? && MayChangeOwn(st, op, io) && Holdable(st.users)
    requires op.newPassword.Some? ==> AreBytes(op.newPassword.value)
    ensures var own := RequireStoredUser(st, op.sid, io).user;
      var edited := OwnEdit(own, op.newPassword, op.newHint);
      Writes(st, op, io, edited) && Step(st, op, io) == Accounts.Update(st, own.name, edited, io)
  {
    StoredHoldable(st.users, st.sessions[op.sid].name);
  }

  class SessionService {
    const store: StoredUsers
    var sessions: map<string, User>

    ghost function Current(): State
      reads this, store
    {
      State(store.present, store.users, sessions)
    }

    constructor (store: StoredUsers)
      ensures this.store == store && sessions == map[]
    {
      this.store, sessions := store, map[];
    }

    /** The random identifier is drawn again until no session has it. */
    method StartSession(user: User, candidates: seq<string>) returns (sid: string)
      requires exists i :: 0 <= i < |candidates| && candidates[i] !in sessions
      modifies this
      ensures sid !in old(sessions)
      ensures (Current(), Done) == Accounts.StartSession(old(Current()), user, candidates)
      ensures sid in sessions && sessions[sid] == user
    {
      var i := 0;
      while candidates[i] in sessions
        invariant 0 <= i < |candidates| && FirstFree(candidates, sessions) == i + FirstFree(candidates[i..], sessions)
        invariant exists k :: i <= k < |candidates| && candidates[k] !in sessions
        decreases |candidates| - i
      {
        assert candidates[i..][1..] == candidates[i + 1..];
        i := i + 1;
      }
      sid := candidates[i];
      sessions := sessions[sid := user];
    }

    method SaveCount(found: User, failed: int, d: DiskIo, ghost st: State, ghost io: Io) returns (saved: bool)
      requires store.Valid() && store.Is(st, d, true, io) && LoadUsers(st, io).Some?
      requires Has(st.users, found.name) && found == st.users[Find(st.users, found.name)] && IsInt32(failed)
      modifies store, store.file.disk
      ensures store.Valid()
      ensures (State(store.present, store.users, st.sessions), saved) == Accounts.SaveCount(st, found.name, failed, io)
    {
      StoredHoldable(st.users, found.name);
      var stored := store.UpdateUser(found.name, SetFailed(found, failed), d, st, io);
      saved := stored == Some(true);
    }

    /** The account a login may try, or why there is none. */
    method AccountFor(sid: string, username: string, d: DiskIo, ghost io: Io)
      returns (found: Option<User>, code: ErrorCode)
      requires store.Valid() && io == store.IoOf(d, true)
      ensures found.Some? ==>
        sid in sessions && LoadUsers(Current(), io).Some? && Has(store.users, username)
        && found.value == store.users[Find(store.users, username)] && found.value.failed <= 7
      ensures found.None? ==>
        forall password :: Accounts.Login(Current(), sid, username, password, io) == (Current(), Failed(code))
    {
      if sid !in sessions { return None, SessionExpired; }
      var users := store.ListUsers(d, Current(), true, io);
      if users.None? { return None, StorageError; }
      var i := Find(users.value, username);
      if i == |users.value| { return None, AuthenticationFailed; }
      if users.value[i].failed > 7 { return None, PermissionDenied; }
      found, code := Some(users.value[i]), AuthenticationFailed;
    }

    method Login(sid: string, username: string, password: string, d: DiskIo) returns (reply: Reply)
      requires store.Valid()
      modifies this, store, store.file.disk
      ensures store.Valid()
      ensures var op, io := LoginOp(sid, username, password), old(store.IoOf(d, true));
        (Current(), reply) == Step(old(Current()), op, io) && Kept(old(Current()), op, io, Current())
    {
      ghost var st, io := Current(), store.IoOf(d, true);
      StepKept(st, LoginOp(sid, username, password), io);
      var found, code := AccountFor(sid, username, d, io);
      if found.None? { return Failed(code); }
      reply := TryPassword(sid, found.value, password, d, st, io);
    }

    /** The count of the account goes up, or back to 0 for the right password, which then has the session. */
    method TryPassword(sid: string, found: User, password: string, d: DiskIo, ghost st: State, ghost io: Io)
      returns (reply: Reply)
      requires store.Valid() && st == Current() && io == store.IoOf(d, true) && sid in sessions
      requires LoadUsers(st, io).Some? && Has(st.users, found.name) && found == st.users[Find(st.users, found.name)]
      requires found.failed <= 7
      modifies this, store, store.file.disk
      ensures store.Valid() && (Current(), reply) == Accounts.Login(st, sid, found.name, password, io)
    {
      StoredHoldable(st.users, found.name);
      if found.password != password {
        var saved := SaveCount(found, found.failed + 1, d, st, io);
        return Failed(if saved then AuthenticationFailed else StorageError);
      }
      var saved := SaveCount(found, 0, d, st, io);
      if !saved { return Failed(StorageError); }
      sessions := sessions[sid := SetFailed(found, 0)];
      reply := Done;
    }

    method Logout(sid: string) returns (reply: Reply)
      modifies this
      ensures (Current(), reply) == Accounts.Logout(old(Current()), sid)
    {
      if sid !in sessions { return Failed(SessionExpired); }
      sessions := sessions[sid := GUEST];
      reply := Done;
    }
  }

  /** Why an operation does not begin: no manager, or else unreadable users. */
  function Refusal(manager: Resolved): ErrorCode { if manager.Not? then manager.code else StorageError }

  class UserService {
    const sessions: SessionService
    const store: StoredUsers

    constructor (sessions: SessionService)
      ensures this.sessions == sessions && store == sessions.store
    {
      this.sessions, store := sessions, sessions.store;
    }

    ghost function Current(): State
      reads sessions, store
    {
      State(store.present, store.users, sessions.sessions)
    }

    /** What the disk does, on the list the file holds. */
    ghost function IoFor(op: Op, d: DiskIo): Io
      reads sessions, store, store.file.disk
    {
      store.IoOf(d, Fits(Current(), op))
    }

    /** The current state and a reply are those of a step, which keeps the rules but for its exceptions. */
    ghost predicate Took(before: State, op: Op, io: Io, reply: Reply)
      reads sessions, store
    {
      (Current(), reply) == Step(before, op, io) && Kept(before, op, io, Current())
    }

    method RequireStoredSessionUser(sid: string, d: DiskIo, ghost fits: bool, ghost io: Io) returns (r: Resolved)
      requires store.Valid() && io == store.IoOf(d, fits)
      ensures r == RequireStoredUser(Current(), sid, io)
    {
      if sid !in sessions.sessions { return Not(SessionExpired); }
      var session := sessions.sessions[sid];
      if session.kind == "guest" || session.name == "" { return Not(PermissionDenied); }
      if SyntheticDebug(session) { return Is(session); }
      var users := store.ListUsers(d, Current(), fits, io);
      if users.None? { return Not(StorageError); }
      var i := Find(users.value, session.name);
      if i == |users.value| { return Not(NotFound); }
      r := if users.value[i].failed > 7 then Not(PermissionDenied) else Is(users.value[i]);
    }

    method RequireUserManager(sid: string, d: DiskIo, ghost fits: bool, ghost io: Io) returns (r: Resolved)
      requires store.Valid() && io == store.IoOf(d, fits)
      ensures r == RequireManager(Current(), sid, io)
    {
      r := RequireStoredSessionUser(sid, d, fits, io);
      if r.Is? && Lower(r.user.kind) != "admin" && Lower(r.user.kind) != "debug" { r := Not(PermissionDenied); }
    }

    /** The manager's rights and the stored users, which most operations begin with. */
    method Begin(sid: string, d: DiskIo, ghost fits: bool, ghost io: Io)
      returns (users: Option<seq<User>>, code: ErrorCode)
      requires store.Valid() && io == store.IoOf(d, fits)
      ensures users == if RequireManager(Current(), sid, io).Is? then LoadUsers(Current(), io) else None
      ensures users.None? ==> code == Refusal(RequireManager(Current(), sid, io))
    {
      var manager := RequireUserManager(sid, d, fits, io);
      if manager.Not? { return None, manager.code; }
      users := store.ListUsers(d, Current(), fits, io);
      code := StorageError;
    }

    method RequireSetupOpen(d: DiskIo, ghost fits: bool, ghost io: Io) returns (refused: Option<ErrorCode>)
      requires store.Valid() && io == store.IoOf(d, fits)
      ensures refused == SetupRefused(Current(), io)
    {
      var empty := store.IsStoreEmpty(d, Current(), fits, io);
      refused := if empty.None? then Some(StorageError) else if empty.value then None else Some(PermissionDenied);
    }

    method CreateInitialAdmin(username: string, password: string, hint: string, d: DiskIo) returns (reply: Reply)
      requires store.Valid() && AreBytes(password)
      modifies store, store.file.disk
      ensures store.Valid()
      ensures var op := CreateInitialAdminOp(username, password, hint);
        Took(old(Current()), op, old(IoFor(op, d)), reply)
    {
      ghost var op := CreateInitialAdminOp(username, password, hint);
      ghost var st, fits, io := Current(), Fits(Current(), op), IoFor(op, d);
      StepKept(st, op, io);
      var refused := RequireSetupOpen(d, fits, io);
      if refused.Some? { return Failed(refused.value); }
      var admin := InitialAdmin(username, password, hint);
      if !Accounts.Valid(admin, [], "", false, true) { return Failed(InvalidParams); }
      var stored := store.AddUser(admin, d, st, io);
      reply := Answer(stored);
    }

    method CreateUser(sid: string, user: User, d: DiskIo) returns (reply: Reply)
      requires store.Valid() && AreBytes(user.password)
      modifies store, store.file.disk
      ensures store.Valid()
      ensures var op := CreateUserOp(sid, user); Took(old(Current()), op, old(IoFor(op, d)), reply)
    {
      ghost var op := CreateUserOp(sid, user);
      ghost var st, fits, io := Current(), Fits(Current(), op), IoFor(op, d);
      StepKept(st, op, io);
      var users, code := Begin(sid, d, fits, io);
      if users.None? { return Failed(code); }
      var normalized := Normalized(user);
      if !Accounts.Valid(normalized, users.value, "", false, true) { return Failed(InvalidParams); }
      var stored := store.AddUser(normalized, d, st, io);
      reply := Answer(stored);
    }

    method UpdateUser(sid: string, name: string, user: User, provided: bool, d: DiskIo) returns (reply: Reply)
      requires store.Valid() && (provided ==> AreBytes(user.password))
      modifies store, store.file.disk
      ensures store.Valid()
      ensures var op := UpdateUserOp(sid, name, user, provided); Took(old(Current()), op, old(IoFor(op, d)), reply)
    {
      ghost var op := UpdateUserOp(sid, name, user, provided);
      ghost var st, fits, io := Current(), Fits(Current(), op), IoFor(op, d);
      StepKept(st, op, io);
      var users, code := Begin(sid, d, fits, io);
      if users.None? { return Failed(code); }
      var i := Find(users.value, name);
      if i == |users.value| { return Failed(NotFound); }
      var edited := Normalized(user);
      if !provided { edited := edited.(password := users.value[i].password); }
      if !Accounts.Valid(edited, users.value, name, true, provided) { return Failed(InvalidParams); }
      var stored := store.UpdateUser(name, edited, d, st, io);
      reply := Answer(stored);
    }

    method DeleteUser(sid: string, name: string, d: DiskIo) returns (reply: Reply)
      requires store.Valid()
      modifies store, store.file.disk
      ensures store.Valid()
      ensures var op := DeleteUserOp(sid, name); Took(old(Current()), op, old(IoFor(op, d)), reply)
    {
      ghost var op := DeleteUserOp(sid, name);
      ghost var st, fits, io := Current(), Fits(Current(), op), IoFor(op, d);
      StepKept(st, op, io);
      var users, code := Begin(sid, d, fits, io);
      if users.None? { return Failed(code); }
      var i := Find(users.value, name);
      if i == |users.value| { return Failed(NotFound); }
      var others := CountActiveAdmins(users.value, name);
      if ActiveAdmin(users.value[i]) && others == 0 { return Failed(InvalidParams); }
      var stored := store.RemoveUser(name, d, st, io);
      reply := Answer(stored);
    }

    method ResetFailedCount(sid: string, name: string, d: DiskIo) returns (reply: Reply)
      requires store.Valid()
      modifies store, store.file.disk
      ensures store.Valid()
      ensures var op := ResetFailedCountOp(sid, name); Took(old(Current()), op, old(IoFor(op, d)), reply)
    {
      ghost var op := ResetFailedCountOp(sid, name);
      ghost var st, fits, io := Current(), Fits(Current(), op), IoFor(op, d);
      StepKept(st, op, io);
      var users, code := Begin(sid, d, fits, io);
      if users.None? { return Failed(code); }
      var i := Find(users.value, name);
      if i == |users.value| { return Failed(NotFound); }
      var stored := store.UpdateUser(name, SetFailed(users.value[i], 0), d, st, io);
      reply := Answer(stored);
    }

    method DisableUser(sid: string, name: string, d: DiskIo) returns (reply: Reply)
      requires store.Valid()
      modifies store, store.file.disk
      ensures store.Valid()
      ensures var op := DisableUserOp(sid, name); Took(old(Current()), op, old(IoFor(op, d)), reply)
    {
      ghost var op := DisableUserOp(sid, name);
      ghost var st, fits, io := Current(), Fits(Current(), op), IoFor(op, d);
      StepKept(st, op, io);
      var users, code := Begin(sid, d, fits, io);
      if users.None? { return Failed(code); }
      var i := Find(users.value, name);
      if i == |users.value| { return Failed(NotFound); }
      var others := CountActiveAdmins(users.value, name);
      if ActiveAdmin(users.value[i]) && others == 0 { return Failed(InvalidParams); }
      var stored := store.UpdateUser(name, SetFailed(users.value[i], 8), d, st, io);
      reply := Answer(stored);
    }

    /** The session's user with the new password and hint, if that is allowed. */
    method OwnChange(sid: string, password: Option<string>, hint: Option<string>, d: DiskIo,
        ghost fits: bool, ghost io: Io)
      returns (own: Option<User>, code: ErrorCode)
      requires store.Valid() && io == store.IoOf(d, fits)
      ensures var op := UpdateOwnAccountOp(sid, password, hint);
        && (own.Some? <==> MayChangeOwn(Current(), op, io))
        && (own.Some? ==> own.value == OwnEdit(RequireStoredUser(Current(), sid, io).user, password, hint))
        && (own.None? ==> Accounts.UpdateOwnAccount(Current(), sid, password, hint, io) == (Current(), Failed(code)))
    {
      code := InvalidParams;
      var current := RequireStoredSessionUser(sid, d, fits, io);
      if current.Not? { return None, current.code; }
      if Lower(current.user.kind) == "debug" { return None, PermissionDenied; }
      var updated := current.user;
      if password.Some? {
        if !PasswordMeetsRules(password.value) { return None, code; }
        updated := updated.(password := password.value);
      }
      if hint.Some? { updated := updated.(hint := Trim(hint.value)); }
      own := if updated.hint != "" && updated.hint == updated.password then None else Some(updated);
    }

    method UpdateOwnAccount(sid: string, password: Option<string>, hint: Option<string>, d: DiskIo)
      returns (reply: Reply)
      requires store.Valid() && (password.Some? ==> AreBytes(password.value))
      modifies store, store.file.disk
      ensures store.Valid()
      ensures var op := UpdateOwnAccountOp(sid, password, hint); Took(old(Current()), op, old(IoFor(op, d)), reply)
    {
      ghost var op := UpdateOwnAccountOp(sid, password, hint);
      ghost var st, fits, io := Current(), Fits(Current(), op), IoFor(op, d);
      StepKept(st, op, io);
      var own, code := OwnChange(sid, password, hint, d, fits, io);
      if own.None? { return Failed(code); }
      OwnWritten(st, op, io);
      var stored := store.UpdateUser(own.value.name, own.value, d, st, io);
      reply := Answer(stored);
    }
  }

  method CountActiveAdmins(users: seq<User>, excluding: string) returns (count: nat)
    ensures count == ActiveAdminCount(users, excluding)
  {
    count := 0;
    for i := 0 to |users|
      invariant count + ActiveAdminCount(users[i..], excluding) == ActiveAdminCount(users, excluding)
    {
      if users[i].name != excluding && ActiveAdmin(users[i]) { count := count + 1; }
      assert users[i..][1..] == users[i + 1..];
    }
  }
}
