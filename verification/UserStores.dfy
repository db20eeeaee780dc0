/** The user list in memory and on disk: `DataManager` of USER/udata/udata.cpp and the store the services
    use, BACKEND/adapters/data_manager_user_store.cpp. What the disk does to each save is
    an argument. */
module UserStores {
  import opened Bytes
  import opened Concat
  import opened FileReplace
  import opened UserFile
  import opened Users
  import opened Wrappers

  /** What memory holds after reading a file. */
  function LoadedFrom(file: Option<string>, key: Keystream): Data {
    if file.Some? && Load(file.value, key).Some? then Load(file.value, key).value else Data([], false)
  }

  /** What the disk does to a save: whether the temporary file can be written, what happens when it is put in
      the place of the old one, and whether a leftover cannot be removed. */
  datatype SaveIo = SaveIo(written: bool, faults: Faults, leftover: bool)

  /** What the disk makes of a save. */
  function SaveOutcome(io: SaveIo): Outcome { if io.written then Result(io.faults) else Kept }

  /** A save needs a file to replace and strings that fit; then it is up to the disk. */
  function Saving(file: Option<string>, users: seq<User>, io: SaveIo): Outcome {
    if file.Some? && AllStorable(users) then SaveOutcome(io) else Kept
  }

  datatype Mutation =
    | Add(user: User)
    | Update(name: string, user: User)
    | Remove(name: string)
    | SetStrict(enabled: bool)

  /** The data a mutation asks for; nothing when the name is taken or missing. */
  function Changed(d: Data, m: Mutation): Option<Data> {
    match m
    case Add(user) => if Has(d.users, user.name) then None else Some(d.(users := d.users + [user]))
    case Update(name, user) => if Has(d.users, name) then Some(d.(users := Replaced(d.users, name, user))) else None
    case Remove(name) => if Has(d.users, name) then Some(d.(users := Removed(d.users, name))) else None
    case SetStrict(enabled) => Some(d.(strict := enabled))
  }

  /** What is there after a change: another flag, an entry more, an entry less, or another entry in its place. */
  lemma ChangedExactly(d: Data, m: Mutation)
    ensures Changed(d, m).None? <==>
      (m.Add? && NameTaken(d, m.user.name)) || ((m.Update? || m.Remove?) && !NameTaken(d, m.name))
    ensures Changed(d, m).Some? ==> ChangesTo(d, m, Changed(d, m).value)
  {
  }

  predicate NameTaken(d: Data, name: string) { exists k :: 0 <= k < |d.users| && d.users[k].name == name }

  predicate ChangesTo(d: Data, m: Mutation, after: Data) {
    match m
    case Add(user) => after == Data(d.users + [user], d.strict)
    case SetStrict(enabled) => after == Data(d.users, enabled)
    case Update(name, user) =>
      exists i :: (0 <= i < |d.users| && d.users[i].name == name && after == Data(d.users[i := user], d.strict))
    case Remove(name) =>
      exists i :: (0 <= i < |d.users| && d.users[i].name == name
        && after == Data(d.users[..i] + d.users[i + 1..], d.strict))
  }

  datatype Store = Store(memory: Data, file: Option<string>)

  /** Memory and file after a mutation, and its result. Both change, or neither does, or the file is lost: then it
      is missing, and memory is as before. */
  function Mutate(s: Store, m: Mutation, io: SaveIo, key: Keystream): (Store, bool) {
    var changed := Changed(s.memory, m);
    if changed.None? then (s, false) else
    match Saving(s.file, changed.value.users, io)
    case InPlace => (Store(changed.value, Some(Encode(changed.value, key))), true)
    case Kept => (s, false)
    case RestoreFailed => (s.(file := None), false)
  }

  type Mutations = seq<(Mutation, SaveIo)>

  function Run(s: Store, ms: Mutations, key: Keystream): Store {
    if ms == [] then s else
    var (m, io) := ms[|ms| - 1];
    Mutate(Run(s, ms[..|ms| - 1], key), m, io, key).0
  }

  /** What becomes of the save a mutation asks for. */
  function Attempt(s: Store, m: Mutation, io: SaveIo): Outcome {
    var changed := Changed(s.memory, m);
    if changed.None? then Kept else Saving(s.file, changed.value.users, io)
  }

  /** The data that was put in place of the file during a run, save by save. */
  function Written(s: Store, ms: Mutations, key: Keystream): seq<Data> {
    if ms == [] then [] else
    var before, last := Run(s, ms[..|ms| - 1], key), ms[|ms| - 1];
    Written(s, ms[..|ms| - 1], key)
    + (if Attempt(before, last.0, last.1).InPlace? then [Changed(before.memory, last.0).value] else [])
  }

  /** Some save of the run lost the file. */
  predicate Lost(s: Store, ms: Mutations, key: Keystream) {
    exists k :: 0 <= k < |ms| && Attempt(Run(s, ms[..k], key), ms[k].0, ms[k].1).RestoreFailed?
  }

  function LastOr<T>(s: seq<T>, default: T): T { if s == [] then default else s[|s| - 1] }

  /** After any run of mutations, whatever the disk does to each save, memory is the last data that was put in place
      of the file, or what it was at the start. The file holds the same data, except that it is missing exactly
      when it was missing at the start or a save has lost it. */
  lemma {:induction false} RunKeepsSync(s: Store, ms: Mutations, key: Keystream)
    ensures var after, written := Run(s, ms, key), Written(s, ms, key);
      after.memory == LastOr(written, s.memory)
      && (after.file.None? <==> s.file.None? || Lost(s, ms, key))
      && (after.file.Some? ==> after.file == if written == [] then s.file else Some(Encode(after.memory, key)))
  {
    if ms != [] {
      var init := ms[..|ms| - 1];
      RunKeepsSync(s, init, key);
      LostStep(s, ms, key);
      MutateAttempts(Run(s, init, key), ms[|ms| - 1].0, ms[|ms| - 1].1, key);
    }
  }

  /** A mutation, by what becomes of its save. */
  lemma MutateAttempts(s: Store, m: Mutation, io: SaveIo, key: Keystream)
    ensures var after := Mutate(s, m, io, key).0;
      match Attempt(s, m, io)
      case InPlace =>
        Changed(s.memory, m) == Some(after.memory) && after.file == Some(Encode(after.memory, key)) && s.file.Some?
      case Kept => after == s
      case RestoreFailed => after == s.(file := None) && s.file.Some?
  {
  }

  lemma LostStep(s: Store, ms: Mutations, key: Keystream)
    requires ms != []
    ensures var init, last := ms[..|ms| - 1], ms[|ms| - 1];
      Lost(s, ms, key) <==> Lost(s, init, key) || Attempt(Run(s, init, key), last.0, last.1).RestoreFailed?
  {
    var init := ms[..|ms| - 1];
    assert forall k :: 0 <= k < |init| ==> init[..k] == ms[..k] && init[k] == ms[k];
    if Lost(s, init, key) {
      var k :| 0 <= k < |init| && Attempt(Run(s, init[..k], key), init[k].0, init[k].1).RestoreFailed?;
      assert Attempt(Run(s, ms[..k], key), ms[k].0, ms[k].1).RestoreFailed?;
    }
  }

  /** Reading the file again after a save gives memory back exactly when the data is loadable. */
  lemma Reopened(d: Data, key: Keystream)
    requires AllRepresentable(d.users) && AllStorable(d.users) && |d.users| < WORD
    ensures LoadedFrom(Some(Encode(d, key)), key) == if Loadable(d, key) then d else Data([], false)
  {
    LoadSaved(d, key);
  }

  class DataManager {
    const disk: FileSystem
    const key: Keystream
    var users: seq<User>
    var strict: bool

    ghost function Contents(): Data
      reads this
    {
      Data(users, strict)
    }

    ghost function Both(): Store
      reads this, disk
    {
      Store(Contents(), disk.files.target)
    }

    constructor (disk: FileSystem, key: Keystream)
      ensures fresh(this) && this.disk == disk && this.key == key
      ensures Contents() == LoadedFrom(disk.files.target, key)
    {
      this.disk, this.key := disk, key;
      users, strict := [], false;
      new;
      if disk.files.target.Some? {
        var loaded := LoadText(disk.files.target.value, key);
        if loaded.Some? { users, strict := loaded.value.users, loaded.value.strict; }
      }
    }

    /** Writes the temporary file and puts it in the place of the old one; a file that is lost is still under
        the backup's name. */
    method SaveUsersToFile(io: SaveIo) returns (ok: bool)
      modifies disk
      ensures ok == Saving(old(disk.files.target), users, io).InPlace?
      ensures disk.files.target ==
        match Saving(old(disk.files.target), users, io)
        case InPlace => Some(Encode(Contents(), key))
        case Kept => old(disk.files.target)
        case RestoreFailed => None
      ensures old(disk.files.target.Some?) && disk.files.target.None? ==> disk.files.backup == old(disk.files.target)
    {
      if disk.files.target.None? { return false; }
      var text := EncodeText(Data(users, strict), key);
      if text.None? || !io.written { return false; }
      disk.Become(disk.files.(temp := text));
      ok := disk.FinishSave(io.faults, io.leftover);
    }

    method AddUser(user: User, io: SaveIo) returns (ok: bool)
      modifies this, disk
      ensures (Both(), ok) == Mutate(old(Both()), Add(user), io, key)
    {
      if Find(users, user.name) < |users| { return false; }
      users := users + [user];
      ok := SaveUsersToFile(io);
      if !ok { users := users[..|users| - 1]; }
    }

    method UpdateUser(name: string, user: User, io: SaveIo) returns (ok: bool)
      modifies this, disk
      ensures (Both(), ok) == Mutate(old(Both()), Update(name, user), io, key)
    {
      var i := Find(users, name);
      if i == |users| { return false; }
      var previous := users[i];
      ReplaceBack(users, i, user);
      users := users[i := user];
      ok := SaveUsersToFile(io);
      if !ok { users := users[i := previous]; }
    }

    /** A removal that cannot be saved puts the user back where it was. */
    method RemoveUser(name: string, io: SaveIo) returns (ok: bool)
      modifies this, disk
      ensures (Both(), ok) == Mutate(old(Both()), Remove(name), io, key)
    {
      var i := Find(users, name);
      if i == |users| { return false; }
      var removed := users[i];
      PutBack(users, i);
      users := users[..i] + users[i + 1..];
      assert Changed(old(Contents()), Remove(name)) == Some(Contents());
      ok := SaveUsersToFile(io);
      if !ok { users := users[..i] + [removed] + users[i..]; }
    }

    method SetStrictMode(enabled: bool, io: SaveIo) returns (ok: bool)
      modifies this, disk
      ensures (Both(), ok) == Mutate(old(Both()), SetStrict(enabled), io, key)
    {
      var previous := strict;
      strict := enabled;
      assert Changed(old(Both()).memory, SetStrict(enabled)) == Some(Contents());
      ok := SaveUsersToFile(io);
      if !ok { strict := previous; }
    }
  }

  /** The writing loop: it gives up at the first string that is too long. */
  method EncodeText(d: Data, key: Keystream) returns (text: Option<string>)
    ensures text == if AllStorable(d.users) then Some(Encode(d, key)) else None
  {
    var written := Prefix(d);
    for i := 0 to |d.users|
      invariant forall k :: 0 <= k < i ==> Storable(d.users[k])
      invariant written + EncodeUsers(d.users[i..], key) == Encode(d, key)
    {
      if !Storable(d.users[i]) { return None; }
      EncodeNext(d.users, i, written, key);
      written := written + EncodeUser(d.users[i], key);
    }
    assert written + "" == written;
    text := Some(written);
  }

  lemma EncodeNext(users: seq<User>, i: nat, text: string, key: Keystream)
    requires i < |users|
    ensures text + EncodeUser(users[i], key) + EncodeUsers(users[i + 1..], key) == text + EncodeUsers(users[i..], key)
  {
    assert users[i..][1..] == users[i + 1..];
    Assoc(text, EncodeUser(users[i], key), EncodeUsers(users[i + 1..], key));
  }

  /** `LoadUsersFromFile`. */
  method LoadText(file: string, key: Keystream) returns (r: Option<Data>)
    ensures r == Load(file, key)
  {
    if |file| > MAX_FILE || |file| < 13 || ToInt32(file[..4]) != VERSION || file[4] as int > 1 { return None; }
    var count := FromLittle(file[5..13]);
    if count > MAX_COUNT { return None; }
    var users := LoadRecords(file[13..], count, key);
    if users.None? { return None; }
    var admin := AnyAdmin(users.value);
    r := if admin then Some(Data(users.value, file[4] as int == 1)) else None;
  }

  /** The records are taken from the stream one by one. */
  method LoadRecords(records: string, count: nat, key: Keystream) returns (r: Option<seq<User>>)
    ensures r == TakeUsers(records, count, key)
  {
    var users: seq<User> := [];
    var stream := records;
    ThenNothing(TakeUsers(records, count, key));
    for i := 0 to count
      invariant TakeUsers(records, count, key) == Then(users, TakeUsers(stream, count - i, key))
    {
      TakeOne(stream, count - i, key);
      var next := TakeUser(stream, key);
      if next.None? { return None; }
      ThenThen(users, next.value.0, TakeUsers(next.value.1, count - i - 1, key));
      users := users + [next.value.0];
      stream := next.value.1;
    }
    assert users + [] == users;
    r := Some(users);
  }

  lemma TakeOne(stream: string, count: nat, key: Keystream)
    requires count > 0
    ensures TakeUsers(stream, count, key) ==
      var next := TakeUser(stream, key);
      if next.None? then None else Then([next.value.0], TakeUsers(next.value.1, count - 1, key))
  {
  }

  method AnyAdmin(users: seq<User>) returns (admin: bool)
    ensures admin == HasAdmin(users)
  {
    for i := 0 to |users|
      invariant forall k :: 0 <= k < i ==> users[k].kind != "admin"
    {
      if users[i].kind == "admin" { return true; }
    }
    admin := false;
  }

  // ---- Undoing a change of the list ----

  lemma ReplaceBack(users: seq<User>, i: nat, user: User)
    requires i < |users|
    ensures users[i := user][i := users[i]] == users
  {
  }

  lemma PutBack(users: seq<User>, i: nat)
    requires i < |users|
    ensures var less := users[..i] + users[i + 1..];
      |less| == |users| - 1 && less[..i] + [users[i]] + less[i..] == users
  {
    var less := users[..i] + users[i + 1..];
    assert less[..i] == users[..i] && less[i..] == users[i + 1..];
  }

  // ---- The store of the services ----

  /** The users a file lists; a missing, empty or unreadable file lists none and is an error. */
  function Listed(file: Option<string>, key: Keystream): Option<seq<User>> {
    if file.None? || file.value == "" || LoadedFrom(file, key).users == [] then None
    else Some(LoadedFrom(file, key).users)
  }

  predicate Usable(file: Option<string>, key: Keystream) {
    file.None? || file.value == "" || LoadedFrom(file, key).users != []
  }

  /** The file after a change of the loaded users, and the answer; `None` is an exception, and `valid` says that the
      path could be examined and is a regular file. */
  function StoreChange(file: Option<string>, m: Mutation, valid: bool, io: SaveIo, key: Keystream)
    : (Option<string>, Option<bool>)
  {
    if !valid || Listed(file, key).None? then (file, None) else
    var (after, ok) := Mutate(Store(LoadedFrom(file, key), file), m, io, key);
    (after.file, Some(ok))
  }

  /** The file after adding a user, and the answer; `created` says whether a missing file could be created. */
  function StoreAdd(file: Option<string>, user: User, valid: bool, created: bool, saves: FileSaves, key: Keystream)
    : (Option<string>, Option<bool>)
  {
    if !valid || !Usable(file, key) || (file.None? && !created) then (file, None) else
    var (after, ok) := AddVia(if file.None? then Some("") else file, user, saves, key);
    (after, Some(ok))
  }

  class UserStore {
    const disk: FileSystem
    const key: Keystream

    constructor (disk: FileSystem, key: Keystream)
      ensures this.disk == disk && this.key == key
    {
      this.disk, this.key := disk, key;
    }

    /** `None` is an exception; `valid` says that the path could be examined and is a regular file. */
    method ListUsers(valid: bool) returns (r: Option<seq<User>>)
      ensures r == if valid then Listed(disk.files.target, key) else None
    {
      if !valid || disk.files.target.None? || disk.files.target.value == "" { return None; }
      var manager := new DataManager(disk, key);
      r := if manager.users == [] then None else Some(manager.users);
    }

    method IsStoreEmpty(valid: bool) returns (r: Option<bool>)
      ensures r == if !valid || !Usable(disk.files.target, key) then None
        else Some(Listed(disk.files.target, key).None? || PlaceholderOnly(Listed(disk.files.target, key).value))
    {
      if !valid { return None; }
      if disk.files.target.None? || disk.files.target.value == "" { return Some(true); }
      var manager := new DataManager(disk, key);
      r := if manager.users == [] then None else Some(PlaceholderOnly(manager.users));
    }

    method UpdateUser(name: string, user: User, valid: bool, io: SaveIo) returns (r: Option<bool>)
      modifies disk
      ensures (disk.files.target, r) == StoreChange(old(disk.files.target), Update(name, user), valid, io, key)
    {
      if !valid || disk.files.target.None? || disk.files.target.value == "" { return None; }
      var manager := new DataManager(disk, key);
      if manager.users == [] { return None; }
      var ok := manager.UpdateUser(name, user, io);
      r := Some(ok);
    }

    method RemoveUser(name: string, valid: bool, io: SaveIo) returns (r: Option<bool>)
      modifies disk
      ensures (disk.files.target, r) == StoreChange(old(disk.files.target), Remove(name), valid, io, key)
    {
      if !valid || disk.files.target.None? || disk.files.target.value == "" { return None; }
      var manager := new DataManager(disk, key);
      if manager.users == [] { return None; }
      var ok := manager.RemoveUser(name, io);
      r := Some(ok);
    }

    /** `created` says whether a missing file could be created. */
    method AddUser(user: User, valid: bool, created: bool, saves: FileSaves) returns (r: Option<bool>)
      modifies disk
      ensures (disk.files.target, r) == StoreAdd(old(disk.files.target), user, valid, created, saves, key)
    {
      if !valid || (disk.files.target.None? && !created) { return None; }
      var existed := disk.files.target.Some? && disk.files.target.value != "";
      if disk.files.target.None? { disk.Become(disk.files.(target := Some(""))); }
      var manager := new DataManager(disk, key);
      if existed && manager.users == [] { return None; }
      var placeholderOnly := PlaceholderOnly(manager.users);
      var ok := manager.AddUser(user, saves.add);
      if !ok { return Some(false); }
      if placeholderOnly {
        ok := manager.RemoveUser("null", saves.removePlaceholder);
        if !ok {
          var _ := manager.RemoveUser(user.name, saves.undo);
          return Some(false);
        }
      }
      r := Some(true);
    }
  }

  /** What the disk does to each of the saves that adding a user may need. */
  datatype FileSaves = FileSaves(add: SaveIo, removePlaceholder: SaveIo, undo: SaveIo)

  /** The file after adding a user, in up to three saves. */
  function AddVia(file: Option<string>, user: User, saves: FileSaves, key: Keystream): (Option<string>, bool) {
    AddFrom(Store(LoadedFrom(file, key), file), user, saves, key)
  }

  function AddFrom(s: Store, user: User, saves: FileSaves, key: Keystream): (Option<string>, bool) {
    var (added, ok) := Mutate(s, Add(user), saves.add, key);
    if !ok then (added.file, false)
    else if !PlaceholderOnly(s.memory.users) then (added.file, true)
    else ReplacePlaceholder(added, user, saves, key)
  }

  /** With the new user beside the placeholder, that is removed, or else the new user is. */
  function ReplacePlaceholder(added: Store, user: User, saves: FileSaves, key: Keystream): (Option<string>, bool) {
    var (replaced, removed) := Mutate(added, Remove("null"), saves.removePlaceholder, key);
    if removed then (replaced.file, true)
    else (Mutate(replaced, Remove(user.name), saves.undo, key).0.file, false)
  }

  function OnList(saves: FileSaves): Saves {
    Saves(SaveOutcome(saves.add), SaveOutcome(saves.removePlaceholder), SaveOutcome(saves.undo))
  }

  /** The file was saved from these users, or they and it are unchanged, or there are neither. */
  predicate Holds(file: Option<string>, s: Store, users: Option<seq<User>>, key: Keystream) {
    match users
    case Some(list) => file == Some(Encode(s.memory.(users := list), key)) || (file == s.file && list == s.memory.users)
    case None => file == None
  }

  /** Adding to the file is adding to the list, whichever saves fail or lose the file: it then holds the new list,
      or is untouched when nothing was saved, or is missing when there is no list any more. */
  lemma AddedInFile(s: Store, user: User, saves: FileSaves, key: Keystream)
    requires s.file.Some? && AllStorable(s.memory.users) && Storable(user)
    ensures var (users, ok) := Added(s.memory.users, user, OnList(saves));
      var (file, done) := AddFrom(s, user, saves, key);
      done == ok && Holds(file, s, users, key)
  {
    var users := s.memory.users;
    if !Has(users, user.name) {
      StorableParts(users, user);
      Saved(s, Add(user), s.memory.(users := users + [user]), saves.add, key);
      if PlaceholderOnly(users) && SaveOutcome(saves.add).InPlace? { AddedBesidePlaceholder(s, user, saves, key); }
    }
  }

  lemma AddedBesidePlaceholder(s: Store, user: User, saves: FileSaves, key: Keystream)
    requires s.file.Some? && PlaceholderOnly(s.memory.users) && AllStorable(s.memory.users) && Storable(user)
    requires SaveOutcome(saves.add).InPlace? && !Has(s.memory.users, user.name)
    ensures var (users, ok) := Added(s.memory.users, user, OnList(saves));
      AddFrom(s, user, saves, key) ==
        (if users.None? then None else Some(Encode(s.memory.(users := users.value), key)), ok)
  {
    var users := s.memory.users;
    var both := s.memory.(users := users + [user]);
    StorableParts(users, user);
    Saved(s, Add(user), both, saves.add, key);
    PlaceholderReplaced(Store(both, Some(Encode(both, key))), users, user, saves, key);
  }

  lemma PlaceholderReplaced(added: Store, users: seq<User>, user: User, saves: FileSaves, key: Keystream)
    requires PlaceholderOnly(users) && !Has(users, user.name) && AllStorable(users) && Storable(user)
    requires added.memory.users == users + [user] && added.file == Some(Encode(added.memory, key))
    ensures ReplacePlaceholder(added, user, saves, key) ==
      match SaveOutcome(saves.removePlaceholder)
      case InPlace => (Some(Encode(added.memory.(users := [user]), key)), true)
      case RestoreFailed => (None, false)
      case Kept =>
        match SaveOutcome(saves.undo)
        case InPlace => (Some(Encode(added.memory.(users := users), key)), false)
        case RestoreFailed => (None, false)
        case Kept => (added.file, false)
  {
    PlaceholderRemoved(added, users, user, saves.removePlaceholder, key);
    NewUserRemoved(added, users, user, saves.undo, key);
    NothingWithoutFile(added.(file := None), Remove(user.name), saves.undo, key);
  }

  /** Beside the placeholder: what removing it comes to, and what removing the new user does. */
  lemma PlaceholderRemoved(added: Store, users: seq<User>, user: User, io: SaveIo, key: Keystream)
    requires PlaceholderOnly(users) && !Has(users, user.name) && Storable(user)
    requires added.memory.users == users + [user] && added.file.Some?
    ensures Mutate(added, Remove("null"), io, key) == SaveResult(added, added.memory.(users := [user]), io, key)
  {
    PlaceholderGivesWay(users, user);
    OneStorable(user);
    Saved(added, Remove("null"), added.memory.(users := [user]), io, key);
  }

  lemma OneStorable(user: User)
    requires Storable(user)
    ensures AllStorable([user])
  {
  }

  lemma NewUserRemoved(added: Store, users: seq<User>, user: User, io: SaveIo, key: Keystream)
    requires PlaceholderOnly(users) && !Has(users, user.name) && AllStorable(users)
    requires added.memory.users == users + [user] && added.file.Some?
    ensures Mutate(added, Remove(user.name), io, key) == SaveResult(added, added.memory.(users := users), io, key)
  {
    PlaceholderGivesWay(users, user);
    Saved(added, Remove(user.name), added.memory.(users := users), io, key);
  }

  /** Nothing is saved when there is no file. */
  lemma NothingWithoutFile(s: Store, m: Mutation, io: SaveIo, key: Keystream)
    requires s.file.None?
    ensures Mutate(s, m, io, key) == (s, false)
  {
  }

  /** A mutation that can be saved depends on the disk alone. */
  lemma Saved(s: Store, m: Mutation, changed: Data, io: SaveIo, key: Keystream)
    requires s.file.Some? && AllStorable(changed.users) && Changed(s.memory, m) == Some(changed)
    ensures Mutate(s, m, io, key) == SaveResult(s, changed, io, key)
  {
  }

  function SaveResult(s: Store, changed: Data, io: SaveIo, key: Keystream): (Store, bool) {
    match SaveOutcome(io)
    case InPlace => (Store(changed, Some(Encode(changed, key))), true)
    case Kept => (s, false)
    case RestoreFailed => (s.(file := None), false)
  }

  lemma StorableParts(users: seq<User>, user: User)
    requires AllStorable(users) && Storable(user)
    ensures AllStorable(users + [user]) && AllStorable([user])
  {
  }

  lemma PlaceholderGivesWay(users: seq<User>, user: User)
    requires PlaceholderOnly(users) && !Has(users, user.name)
    ensures Has(users + [user], "null") && Removed(users + [user], "null") == [user]
    ensures Has(users + [user], user.name) && Removed(users + [user], user.name) == users
  {
    assert Find(users + [user], "null") == 0;
    assert Find(users + [user], user.name) == 1;
  }

  // ---- Failed additions ----

  /** A file saved from the list is untouched by a failed addition unless the new user stays beside the
      placeholder or the file is lost. */
  lemma FailedAddKeepsFile(s: Store, user: User, saves: FileSaves, key: Keystream)
    requires s.file == Some(Encode(s.memory, key)) && AllStorable(s.memory.users) && Storable(user)
    requires !AddFrom(s, user, saves, key).1
    ensures AddFrom(s, user, saves, key).0 == s.file <==>
      !BothStay(s.memory.users, user, OnList(saves)) && !AddLoses(s.memory.users, user, OnList(saves))
  {
    AddedInFile(s, user, saves, key);
    FailedAddKeepsList(s.memory.users, user, OnList(saves));
    if BothStay(s.memory.users, user, OnList(saves)) {
      EncodeLonger(s.memory.users, user, key);
      assert |Encode(s.memory.(users := s.memory.users + [user]), key)| > |Encode(s.memory, key)|;
    }
  }

  lemma EncodeLonger(users: seq<User>, user: User, key: Keystream)
    requires |users| == 1
    ensures |EncodeUsers(users + [user], key)| > |EncodeUsers(users, key)|
  {
    assert (users + [user])[1..] == [user] && users[1..] == [];
    assert |EncodeUsers([user], key)| > 0;
  }

  const BROKEN := SaveIo(false, Faults(false, false, false, false, false, false), false)

  const WORKING := SaveIo(true, Faults(false, false, false, false, false, false), false)

  /** Two users in the file after a failed addition. */
  lemma BothCanStayInFile(key: Keystream)
    ensures var placeholder, ann := User("admin", "null", "", "", 0), User("user", "ann", "Secret1", "", 0);
      var s := Store(Data([placeholder], false), Some(Encode(Data([placeholder], false), key)));
      AddFrom(s, ann, FileSaves(WORKING, BROKEN, BROKEN), key)
        == (Some(Encode(Data([placeholder, ann], false), key)), false)
  {
    var placeholder, ann := User("admin", "null", "", "", 0), User("user", "ann", "Secret1", "", 0);
    var users, saves := [placeholder], FileSaves(WORKING, BROKEN, BROKEN);
    var s := Store(Data(users, false), Some(Encode(Data(users, false), key)));
    assert Find(users, "ann") == 1;
    BothCanStay(placeholder, ann);
    AddedBesidePlaceholder(s, ann, saves, key);
    assert users + [ann] == [placeholder, ann];
  }

  const LOSING := SaveIo(true, Faults(true, false, false, true, true, false), false)

  /** A save that loses the file: neither the rename nor the replacement nor the restoring goes through. */
  lemma SaveCanLose(s: Store, m: Mutation)
    requires s.file.Some? && Changed(s.memory, m).Some? && AllStorable(Changed(s.memory, m).value.users)
    ensures Attempt(s, m, LOSING).RestoreFailed?
  {
  }

  /** A store whose file was lost counts as empty, so that setup is open again. */
  lemma LossOpensSetup(s: Store, m: Mutation, io: SaveIo, key: Keystream)
    requires Attempt(s, m, io).RestoreFailed?
    ensures var (after, ok) := Mutate(s, m, io, key);
      !ok && after.memory == s.memory && Usable(after.file, key) && Listed(after.file, key) == None
  {
  }
}
