/** The account services, BACKEND/core/user_service.cpp and BACKEND/core/session_service.cpp, as steps of a
    state machine over the stored users and the sessions. */
module Accounts {
  import opened Ascii
  import opened BackendErrors
  import opened UserFile
  import opened Users
  import opened Wrappers

  // ---- Text ----

  predicate Trimmed(c: char) { c in " \t\r\n" }

  function TrimLeft(s: string): string { if s != "" && Trimmed(s[0]) then TrimLeft(s[1..]) else s }

  function TrimRight(s: string): string { if s != "" && Trimmed(s[|s| - 1]) then TrimRight(s[..|s| - 1]) else s }

  function Trim(s: string): string { TrimRight(TrimLeft(s)) }

  predicate HasWhitespace(s: string) { exists i :: 0 <= i < |s| && IsSpace(s[i]) }

  predicate PasswordMeetsRules(s: string) {
    |s| >= 6
    && (exists i :: 0 <= i < |s| && 'A' <= s[i] <= 'Z')
    && (exists i :: 0 <= i < |s| && 'a' <= s[i] <= 'z')
    && (exists i :: 0 <= i < |s| && '0' <= s[i] <= '9')
  }

  // ---- Users ----

  predicate ActiveAdmin(u: User) { Lower(u.kind) == "admin" && u.failed <= 7 }

  predicate SyntheticDebug(u: User) { Lower(u.kind) == "debug" && u.name == "debug" && u.password == "" }

  function ActiveAdminCount(users: seq<User>, excluding: string): nat {
    if users == [] then 0
    else
      var first := if users[0].name != excluding && ActiveAdmin(users[0]) then 1 else 0;
      first + ActiveAdminCount(users[1..], excluding)
  }

  predicate HasActiveAdmin(users: seq<User>) { exists i :: 0 <= i < |users| && ActiveAdmin(users[i]) }

  /** What the rules ask of a user. */
  predicate Ruled(u: User) {
    u.name != "" && u.name != "null" && !HasWhitespace(u.name)
    && (u.kind == "admin" || u.kind == "user")
    && PasswordMeetsRules(u.password)
    && (u.hint == "" || u.hint != u.password)
    && 0 <= u.failed <= 8
  }

  /** The user of a fresh installation, under the reserved name. */
  predicate Placeholder(u: User) { u.name == "null" && u.kind == "admin" }

  predicate WellFormed(users: seq<User>) {
    Distinct(users) && forall i :: 0 <= i < |users| ==> Ruled(users[i]) || Placeholder(users[i])
  }

  /** `validateManagedUser` finds nothing wrong. */
  predicate Valid(u: User, existing: seq<User>, original: string, editing: bool, passwordProvided: bool) {
    u.name != "" && u.name != "null" && !HasWhitespace(u.name)
    && (Has(existing, u.name) ==> editing && u.name == original)
    && (Lower(u.kind) == "admin" || Lower(u.kind) == "user")
    && (passwordProvided ==> u.password != "" && PasswordMeetsRules(u.password))
    && (u.hint == "" || u.hint != u.password)
    && 0 <= u.failed <= 8
    && (editing ==> EditAllowed(u, existing, original))
  }

  /** An edit may not take the last active administrator away. */
  predicate EditAllowed(u: User, existing: seq<User>, original: string) {
    Has(existing, original)
    && (ActiveAdmin(existing[Find(existing, original)]) && (Lower(u.kind) != "admin" || u.failed > 7)
        ==> ActiveAdminCount(existing, original) > 0)
  }

  // ---- State and steps ----

  /** The stored users; `present` is false while there is no file or an empty one. */
  datatype State = State(present: bool, users: seq<User>, sessions: map<string, User>)

  datatype Reply = Done | Failed(code: ErrorCode)

  /** What the disk does: whether it can be read, whether the store throws, and what becomes of its saves; an
      operation that changes one entry needs the first only. */
  datatype Io = Io(readable: bool, throws: bool, saves: Saves)

  const GUEST := User("guest", "", "", "", 0)

  function LoadUsers(st: State, io: Io): Option<seq<User>> {
    if st.present && HasAdmin(st.users) && io.readable then Some(st.users) else None
  }

  datatype Resolved = Is(user: User) | Not(code: ErrorCode)

  function RequireStoredUser(st: State, sid: string, io: Io): Resolved {
    if sid !in st.sessions then Not(SessionExpired) else
    var session := st.sessions[sid];
    if session.kind == "guest" || session.name == "" then Not(PermissionDenied)
    else if SyntheticDebug(session) then Is(session)
    else if LoadUsers(st, io).None? then Not(StorageError)
    else if !Has(st.users, session.name) then Not(NotFound)
    else
      var found := st.users[Find(st.users, session.name)];
      if found.failed > 7 then Not(PermissionDenied) else Is(found)
  }

  function RequireManager(st: State, sid: string, io: Io): Resolved {
    var user := RequireStoredUser(st, sid, io);
    if user.Not? then user
    else if Lower(user.user.kind) == "admin" || Lower(user.user.kind) == "debug" then user
    else Not(PermissionDenied)
  }

  /** After a save that lost the file: there is no store, and the sessions go on. */
  function Gone(st: State): State { State(false, [], st.sessions) }

  /** The store's answers. */
  function Add(st: State, user: User, io: Io): (State, Reply) {
    if io.throws then (st, Failed(StorageError)) else
    var (users, ok) := Added(st.users, user, io.saves);
    if users.None? then (Gone(st), Failed(Conflict))
    else (State(st.present || ok, users.value, st.sessions), if ok then Done else Failed(Conflict))
  }

  function Update(st: State, name: string, user: User, io: Io): (State, Reply) {
    if io.throws then (st, Failed(StorageError))
    else if !Has(st.users, name) || io.saves.add.Kept? then (st, Failed(Conflict))
    else if io.saves.add.RestoreFailed? then (Gone(st), Failed(Conflict))
    else (st.(users := Replaced(st.users, name, user)), Done)
  }

  function Remove(st: State, name: string, io: Io): (State, Reply) {
    if io.throws then (st, Failed(StorageError))
    else if !Has(st.users, name) || io.saves.add.Kept? then (st, Failed(Conflict))
    else if io.saves.add.RestoreFailed? then (Gone(st), Failed(Conflict))
    else (st.(users := Removed(st.users, name)), Done)
  }

  function InitialAdmin(username: string, password: string, hint: string): User {
    User("admin", Trim(username), password, Trim(hint), 0)
  }

  /** Why setup is not open: the store cannot be read, or somebody has been set up. */
  function SetupRefused(st: State, io: Io): Option<ErrorCode> {
    if !io.readable || (st.present && !HasAdmin(st.users)) then Some(StorageError)
    else if st.present && !PlaceholderOnly(st.users) then Some(PermissionDenied)
    else None
  }

  function CreateInitialAdmin(st: State, admin: User, io: Io): (State, Reply) {
    if SetupRefused(st, io).Some? then (st, Failed(SetupRefused(st, io).value))
    else if !Valid(admin, [], "", false, true) then (st, Failed(InvalidParams))
    else Add(st, admin, io)
  }

  function Normalized(u: User): User {
    User(Lower(Trim(u.kind)), Trim(u.name), u.password, Trim(u.hint), u.failed)
  }

  function CreateUser(st: State, sid: string, user: User, io: Io): (State, Reply) {
    var manager := RequireManager(st, sid, io);
    if manager.Not? then (st, Failed(manager.code))
    else if LoadUsers(st, io).None? then (st, Failed(StorageError))
    else if !Valid(Normalized(user), st.users, "", false, true) then (st, Failed(InvalidParams))
    else Add(st, Normalized(user), io)
  }

  /** The user an edit asks for; without a new password the old one stays. */
  function Edited(before: User, user: User, passwordProvided: bool): User {
    if passwordProvided then Normalized(user) else Normalized(user).(password := before.password)
  }

  function UpdateUser(st: State, sid: string, name: string, user: User, passwordProvided: bool,
    io: Io): (State, Reply) {
    var manager := RequireManager(st, sid, io);
    if manager.Not? then (st, Failed(manager.code))
    else if LoadUsers(st, io).None? then (st, Failed(StorageError))
    else if !Has(st.users, name) then (st, Failed(NotFound))
    else
      var edited := Edited(st.users[Find(st.users, name)], user, passwordProvided);
      if !Valid(edited, st.users, name, true, passwordProvided) then (st, Failed(InvalidParams))
      else Update(st, name, edited, io)
  }

  /** The guard of deletion and disabling: the last active administrator stays. */
  predicate LastActiveAdmin(users: seq<User>, name: string)
    requires Has(users, name)
  {
    ActiveAdmin(users[Find(users, name)]) && ActiveAdminCount(users, name) == 0
  }

  function DeleteUser(st: State, sid: string, name: string, io: Io): (State, Reply) {
    var manager := RequireManager(st, sid, io);
    if manager.Not? then (st, Failed(manager.code))
    else if LoadUsers(st, io).None? then (st, Failed(StorageError))
    else if !Has(st.users, name) then (st, Failed(NotFound))
    else if LastActiveAdmin(st.users, name) then (st, Failed(InvalidParams))
    else Remove(st, name, io)
  }

  function SetFailed(u: User, failed: int): User { u.(failed := failed) }

  function ResetFailedCount(st: State, sid: string, name: string, io: Io): (State, Reply) {
    var manager := RequireManager(st, sid, io);
    if manager.Not? then (st, Failed(manager.code))
    else if LoadUsers(st, io).None? then (st, Failed(StorageError))
    else if !Has(st.users, name) then (st, Failed(NotFound))
    else Update(st, name, SetFailed(st.users[Find(st.users, name)], 0), io)
  }

  function DisableUser(st: State, sid: string, name: string, io: Io): (State, Reply) {
    var manager := RequireManager(st, sid, io);
    if manager.Not? then (st, Failed(manager.code))
    else if LoadUsers(st, io).None? then (st, Failed(StorageError))
    else if !Has(st.users, name) then (st, Failed(NotFound))
    else if LastActiveAdmin(st.users, name) then (st, Failed(InvalidParams))
    else Update(st, name, SetFailed(st.users[Find(st.users, name)], 8), io)
  }

  function OwnEdit(u: User, password: Option<string>, hint: Option<string>): User {
    var changed := if password.Some? then u.(password := password.value) else u;
    if hint.Some? then changed.(hint := Trim(hint.value)) else changed
  }

  function UpdateOwnAccount(st: State, sid: string, password: Option<string>, hint: Option<string>,
    io: Io): (State, Reply) {
    var current := RequireStoredUser(st, sid, io);
    if current.Not? then (st, Failed(current.code))
    else if Lower(current.user.kind) == "debug" then (st, Failed(PermissionDenied))
    else if password.Some? && !PasswordMeetsRules(password.value) then (st, Failed(InvalidParams))
    else
      var edited := OwnEdit(current.user, password, hint);
      if edited.hint != "" && edited.hint == edited.password then (st, Failed(InvalidParams))
      else Update(st, current.user.name, edited, io)
  }

  /** A save that fails is a storage error here. */
  function SaveCount(st: State, name: string, failed: int, io: Io): (State, bool)
    requires Has(st.users, name)
  {
    var (after, reply) := Update(st, name, SetFailed(st.users[Find(st.users, name)], failed), io);
    (after, reply == Done)
  }

  function Login(st: State, sid: string, username: string, password: string, io: Io): (State, Reply) {
    if sid !in st.sessions then (st, Failed(SessionExpired))
    else if LoadUsers(st, io).None? then (st, Failed(StorageError))
    else if !Has(st.users, username) then (st, Failed(AuthenticationFailed))
    else
      var found := st.users[Find(st.users, username)];
      if found.failed > 7 then (st, Failed(PermissionDenied))
      else if found.password != password then
        var (after, saved) := SaveCount(st, username, found.failed + 1, io);
        (after, Failed(if saved then AuthenticationFailed else StorageError))
      else
        var (after, saved) := SaveCount(st, username, 0, io);
        if saved then (after.(sessions := st.sessions[sid := SetFailed(found, 0)]), Done)
        else (after, Failed(StorageError))
  }

  /** The position of the first identifier that no session has. */
  function FirstFree(drawn: seq<string>, sessions: map<string, User>): (i: nat)
    ensures i <= |drawn| && (i < |drawn| ==> drawn[i] !in sessions)
    ensures forall k :: 0 <= k < i ==> drawn[k] in sessions
  {
    if drawn == [] || drawn[0] !in sessions then 0 else 1 + FirstFree(drawn[1..], sessions)
  }

  /** Identifiers are drawn until one is free; as long as none is, nothing has happened. */
  function StartSession(st: State, user: User, drawn: seq<string>): (State, Reply) {
    var i := FirstFree(drawn, st.sessions);
    if i == |drawn| then (st, Failed(InternalError)) else (st.(sessions := st.sessions[drawn[i] := user]), Done)
  }

  function Logout(st: State, sid: string): (State, Reply) {
    if sid !in st.sessions then (st, Failed(SessionExpired)) else (st.(sessions := st.sessions[sid := GUEST]), Done)
  }

  datatype Op =
    | CreateInitialAdminOp(username: string, password: string, hint: string)
    | CreateUserOp(sid: string, user: User)
    | UpdateUserOp(sid: string, name: string, user: User, passwordProvided: bool)
    | DeleteUserOp(sid: string, name: string)
    | ResetFailedCountOp(sid: string, name: string)
    | DisableUserOp(sid: string, name: string)
    | UpdateOwnAccountOp(sid: string, newPassword: Option<string>, newHint: Option<string>)
    | LoginOp(sid: string, username: string, password: string)
    | LogoutOp(sid: string)
    | StartSessionOp(sessionUser: User, drawn: seq<string>)

  function Step(st: State, op: Op, io: Io): (State, Reply) {
    match op
    case CreateInitialAdminOp(username, password, hint) =>
      CreateInitialAdmin(st, InitialAdmin(username, password, hint), io)
    case CreateUserOp(sid, user) => CreateUser(st, sid, user, io)
    case UpdateUserOp(sid, name, user, provided) => UpdateUser(st, sid, name, user, provided, io)
    case DeleteUserOp(sid, name) => DeleteUser(st, sid, name, io)
    case ResetFailedCountOp(sid, name) => ResetFailedCount(st, sid, name, io)
    case DisableUserOp(sid, name) => DisableUser(st, sid, name, io)
    case UpdateOwnAccountOp(sid, password, hint) => UpdateOwnAccount(st, sid, password, hint, io)
    case LoginOp(sid, username, password) => Login(st, sid, username, password, io)
    case LogoutOp(sid) => Logout(st, sid)
    case StartSessionOp(user, drawn) => StartSession(st, user, drawn)
  }
}
