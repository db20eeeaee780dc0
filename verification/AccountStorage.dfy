/** The list of users the services work on is what the user file holds: each call of the store on the file is
    the corresponding step on the list. */
module AccountStorage {
  import opened Accounts
  import opened BackendErrors
  import opened Bytes
  import opened FileReplace
  import opened UserFile
  import opened Users
  import opened UserStores
  import opened Wrappers

  /** The file was saved from the list, or there is no store yet or any more. */
  predicate Represents(file: Option<string>, st: State, strict: bool, key: Keystream) {
    if st.present then Holdable(st.users) && file == Some(Encode(Data(st.users, strict), key))
    else st.users == [] && (file.None? || file.value == "")
  }

  /** The users are such as a file can hold. */
  predicate Holdable(users: seq<User>) {
    AllRepresentable(users) && AllStorable(users) && |users| < WORD
  }

  predicate WithinLimits(users: seq<User>, strict: bool, key: Keystream) {
    |users| <= MAX_COUNT && |Encode(Data(users, strict), key)| <= MAX_FILE
  }

  /** What the disk does while the services serve one call: whether the path is usable when the users are read and
      again when they are changed, whether a missing file can be created, and what becomes of the saves. */
  datatype DiskIo = DiskIo(listed: bool, valid: bool, created: bool, saves: FileSaves)

  /** What that comes to on the list: a file over the limits counts as unreadable, and users that do not fit are not
      saved. */
  function ListIo(file: Option<string>, st: State, strict: bool, key: Keystream, d: DiskIo, fits: bool): Io {
    Io(d.listed && WithinLimits(st.users, strict, key),
      !d.valid || (file.None? && !d.created),
      OnList(d.saves).(add := if fits then SaveOutcome(d.saves.add) else Kept))
  }

  /** What the service answers when the store answers. */
  function Answer(stored: Option<bool>): Reply {
    if stored.None? then Failed(StorageError) else if stored.value then Done else Failed(Conflict)
  }

  // ---- Reading ----

  lemma EmptyLoads(key: Keystream)
    ensures LoadedFrom(Some(""), key) == Data([], false) && LoadedFrom(None, key) == Data([], false)
  {
  }

  /** Listing the file is loading the list. */
  lemma ListedIsLoaded(file: Option<string>, st: State, strict: bool, key: Keystream, listed: bool, io: Io)
    requires Represents(file, st, strict, key) && io.readable == (listed && WithinLimits(st.users, strict, key))
    ensures (if listed then Listed(file, key) else None) == LoadUsers(st, io)
  {
    if st.present { Reopened(Data(st.users, strict), key); }
  }

  /** The store is empty, as far as that can be told, when there is none or the placeholder is alone. */
  lemma EmptyIsEmpty(file: Option<string>, st: State, strict: bool, key: Keystream)
    requires Represents(file, st, strict, key)
    ensures Usable(file, key) <==> WithinLimits(st.users, strict, key) && (st.present ==> HasAdmin(st.users))
    ensures Usable(file, key) && st.present ==> Listed(file, key) == Some(st.users)
    ensures !st.present ==> Listed(file, key) == None
  {
    if st.present {
      Reopened(Data(st.users, strict), key);
    } else {
      assert |Encode(Data([], strict), key)| == 13;
    }
  }

  /** A list that can be loaded is what memory holds after reading the file. */
  lemma LoadedIsList(file: Option<string>, st: State, strict: bool, key: Keystream, io: Io)
    requires Represents(file, st, strict, key) && LoadUsers(st, io).Some? && WithinLimits(st.users, strict, key)
    ensures LoadedFrom(file, key) == Data(st.users, strict) && Listed(file, key).Some? && Usable(file, key)
  {
    Reopened(Data(st.users, strict), key);
  }

  // ---- Changing ----

  /** A change of the loaded list in memory and file, and in the list alone. */
  lemma UpdatedInBoth(file: Option<string>, st: State, strict: bool, key: Keystream, name: string, user: User,
    d: DiskIo, io: Io)
    requires Represents(file, st, strict, key) && io == ListIo(file, st, strict, key, d, Storable(user))
    requires LoadUsers(st, io).Some? && Representable(user)
    ensures var (after, r) := StoreChange(file, Mutation.Update(name, user), d.valid, d.saves.add, key);
      var (next, reply) := Accounts.Update(st, name, user, io);
      Represents(after, next, strict, key) && reply == Answer(r)
  {
    LoadedIsList(file, st, strict, key, io);
    if Has(st.users, name) { ReplacedHoldable(st.users, name, user); }
  }

  lemma ReplacedHoldable(users: seq<User>, name: string, user: User)
    requires Holdable(users) && Has(users, name)
    ensures AllStorable(Replaced(users, name, user)) <==> Storable(user)
    ensures Storable(user) && Representable(user) ==> Holdable(Replaced(users, name, user))
  {
    assert Replaced(users, name, user)[Find(users, name)] == user;
  }

  lemma RemovedInBoth(file: Option<string>, st: State, strict: bool, key: Keystream, name: string, d: DiskIo, io: Io)
    requires Represents(file, st, strict, key) && io == ListIo(file, st, strict, key, d, true)
    requires LoadUsers(st, io).Some?
    ensures var (after, r) := StoreChange(file, Mutation.Remove(name), d.valid, d.saves.add, key);
      var (next, reply) := Accounts.Remove(st, name, io);
      Represents(after, next, strict, key) && reply == Answer(r)
  {
    LoadedIsList(file, st, strict, key, io);
    if Has(st.users, name) { RemovedHoldable(st.users, name); }
  }

  lemma RemovedHoldable(users: seq<User>, name: string)
    requires Holdable(users)
    ensures Holdable(Removed(users, name))
  {
    var i, after := Find(users, name), Removed(users, name);
    forall k | 0 <= k < |after| ensures Representable(after[k]) && Storable(after[k]) {
      assert after[k] == users[if k < i then k else k + 1];
    }
  }

  /** So is an addition, with its up to three saves and whichever of them fail or lose the file. The first user of
      all goes into an empty file that is created for it. */
  lemma AddedInBoth(file: Option<string>, st: State, strict: bool, key: Keystream, user: User, d: DiskIo, io: Io)
    requires Represents(file, st, strict, key) && io == ListIo(file, st, strict, key, d, Storable(user))
    requires io.readable && (st.present ==> HasAdmin(st.users)) && Representable(user)
    ensures var (after, r) := StoreAdd(file, user, d.valid, d.created, d.saves, key);
      var (next, reply) := Accounts.Add(st, user, io);
      Represents(after, next, st.present && strict, key) && reply == Answer(r) && next.sessions == st.sessions
  {
    SessionsStay(st, user, io);
    var start := if file.None? then Some("") else file;
    StartIsList(file, st, strict, key);
    if io.throws {
    } else if Storable(user) {
      if st.present {
        AddedToFile(file, st, strict, key, user, d.saves, io);
      } else {
        AddedToEmpty(start, st, key, user, d.saves, io);
      }
    } else {
      NotAdded(Store(LoadedFrom(start, key), start), user, d.saves, key);
    }
  }

  lemma SessionsStay(st: State, user: User, io: Io)
    ensures Accounts.Add(st, user, io).0.sessions == st.sessions
  {
  }

  /** What an addition starts from. */
  lemma StartIsList(file: Option<string>, st: State, strict: bool, key: Keystream)
    requires Represents(file, st, strict, key) && WithinLimits(st.users, strict, key)
    requires st.present ==> HasAdmin(st.users)
    ensures var start := if file.None? then Some("") else file;
      && Usable(file, key) && LoadedFrom(start, key) == Data(st.users, st.present && strict)
      && Represents(start, st, st.present && strict, key)
  {
    EmptyIsEmpty(file, st, strict, key);
    EmptyLoads(key);
    if st.present { Reopened(Data(st.users, strict), key); }
  }

  lemma AddedToFile(file: Option<string>, st: State, strict: bool, key: Keystream, user: User, saves: FileSaves, io: Io)
    requires st.present && Represents(file, st, strict, key) && |st.users| <= MAX_COUNT
    requires Storable(user) && Representable(user) && !io.throws && io.saves == OnList(saves)
    ensures var (after, ok) := AddFrom(Store(Data(st.users, strict), file), user, saves, key);
      var (next, reply) := Accounts.Add(st, user, io);
      Represents(after, next, strict, key) && reply == Answer(Some(ok))
  {
    AddedInFile(Store(Data(st.users, strict), file), user, saves, key);
    AddedHoldable(st.users, user, OnList(saves));
  }

  lemma AddedToEmpty(file: Option<string>, st: State, key: Keystream, user: User, saves: FileSaves, io: Io)
    requires !st.present && file.Some? && Represents(file, st, false, key)
    requires Storable(user) && Representable(user) && !io.throws && io.saves == OnList(saves)
    ensures var (after, ok) := AddFrom(Store(Data([], false), file), user, saves, key);
      var (next, reply) := Accounts.Add(st, user, io);
      Represents(after, next, false, key) && reply == Answer(Some(ok))
  {
    var s := Store(Data([], false), file);
    assert [] + [user] == [user];
    Saved(s, Mutation.Add(user), Data([user], false), saves.add, key);
    assert AddFrom(s, user, saves, key) ==
      (SaveResult(s, Data([user], false), saves.add, key).0.file, SaveResult(s, Data([user], false), saves.add, key).1);
  }

  lemma AddedHoldable(users: seq<User>, user: User, saves: Saves)
    requires AllRepresentable(users) && AllStorable(users) && |users| <= MAX_COUNT
    requires Storable(user) && Representable(user)
    ensures var after := Added(users, user, saves).0; after.Some? ==> Holdable(after.value)
  {
  }

  /** A user that does not fit is not saved. */
  lemma NotAdded(s: Store, user: User, saves: FileSaves, key: Keystream)
    requires !Storable(user)
    ensures AddFrom(s, user, saves, key) == (s.file, false)
  {
    var users := s.memory.users;
    assert (users + [user])[|users|] == user;
  }
}
