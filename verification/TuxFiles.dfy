/** TUX files and their owners, BACKEND/core/tux_service.cpp over BACKEND/adapters/filesystem_tux_store.cpp:
    the operations as steps on a map from paths to the bytes of files. */
module TuxFiles {
  import opened Accounts
  import opened Ascii
  import opened BackendErrors
  import opened TuxFormat
  import opened Users
  import opened Wrappers

  type Files = map<Path, string>

  predicate Privileged(u: User) { Lower(u.kind) == "admin" || Lower(u.kind) == "debug" }

  predicate CanAccess(u: User, m: Metadata) { Privileged(u) || (u.name != "" && m.creator == u.name) }

  /** The user a session stands for, if it may use TUX files at all. */
  function RequireTuxAccess(st: State, sid: string, io: Io): Resolved {
    if sid !in st.sessions then Not(SessionExpired) else
    var session := st.sessions[sid];
    if session.kind == "guest" || session.name == "" then Not(PermissionDenied)
    else if session.kind == "debug" && session.name == "debug" && session.password == "" then Is(session)
    else if LoadUsers(st, io).None? then Not(StorageError)
    else if !Has(st.users, session.name) then Not(NotFound)
    else
      var found := st.users[Find(st.users, session.name)];
      if found.kind == "guest" || found.name == "" || found.failed > 7 then Not(PermissionDenied) else Is(found)
  }

  // ---- The store ----

  datatype Answer<T> = Good(value: T) | Bad(code: ErrorCode)

  function MetadataOf(files: Files, name: string): Answer<Metadata> {
    var path := SplitApiPath(name);
    if path.None? then Bad(InvalidPath)
    else if path.value !in files then Bad(NotFound)
    else
      var m := ReadMetadata(files[path.value]);
      if m.None? then Bad(StorageError) else Good(m.value)
  }

  function ContentOf(files: Files, name: string): Answer<Content> {
    var path := SplitApiPath(name);
    if path.None? then Bad(InvalidPath)
    else if path.value !in files then Bad(NotFound)
    else
      var c := ReadAll(files[path.value]);
      if c.None? then Bad(StorageError) else Good(c.value)
  }

  function StoreFile(files: Files, path: Path, c: Content, disk: bool): (Files, Reply) {
    if Writable(c) && disk then (files[path := Encode(c)], Done) else (files, Failed(StorageError))
  }

  function StoreCreate(files: Files, name: string, m: Metadata, overwrite: bool, disk: bool): (Files, Reply) {
    var path := SplitApiPath(name);
    if path.None? then (files, Failed(InvalidPath))
    else if path.value in files && !overwrite then (files, Failed(AlreadyExists))
    else StoreFile(files, path.value, Content("", m), disk)
  }

  function StoreWrite(files: Files, name: string, content: string, m: Metadata, disk: bool): (Files, Reply) {
    var path := SplitApiPath(name);
    if path.None? then (files, Failed(InvalidPath)) else StoreFile(files, path.value, Content(content, m), disk)
  }

  function StoreDelete(files: Files, name: string, disk: bool): (Files, Reply) {
    var path := SplitApiPath(name);
    if path.None? then (files, Failed(InvalidPath))
    else if path.value !in files then (files, Failed(NotFound))
    else if !disk then (files, Failed(StorageError))
    else (files - {path.value}, Done)
  }

  function StoreCopy(files: Files, from: string, to: string, m: Metadata, overwrite: bool, disk: bool): (Files, Reply) {
    var source, destination := SplitApiPath(from), SplitApiPath(to);
    if source.None? || destination.None? then (files, Failed(InvalidPath))
    else if source == destination then (files, Failed(Conflict))
    else if destination.value in files && !overwrite then (files, Failed(AlreadyExists))
    else
      var c := ContentOf(files, from);
      if c.Bad? then (files, Failed(c.code)) else StoreFile(files, destination.value, Content(c.value.content, m), disk)
  }

  function StoreMove(files: Files, from: string, to: string, overwrite: bool, disk: bool): (Files, Reply) {
    var source, destination := SplitApiPath(from), SplitApiPath(to);
    if source.None? || destination.None? then (files, Failed(InvalidPath))
    else if source == destination then (files, Failed(Conflict))
    else if destination.value in files && !overwrite then (files, Failed(AlreadyExists))
    else if source.value !in files then (files, Failed(NotFound))
    else if !disk then (files, Failed(StorageError))
    else ((files - {source.value})[destination.value := files[source.value]], Done)
  }

  /** Nothing happened to files at other paths. */
  ghost predicate Only(before: Files, after: Files, paths: set<Path>) {
    forall p :: p !in paths ==> (p in before <==> p in after) && (p in before ==> after[p] == before[p])
  }

  /** A file that was written is read back, all else is as before, and a failure changes nothing. */
  ghost predicate Wrote(before: Files, after: Files, name: string, c: Content, reply: Reply) {
    if reply == Done then
      SplitApiPath(name).Some? && Only(before, after, {SplitApiPath(name).value})
      && (Times(c.metadata) ==> ContentOf(after, name) == Good(c))
    else after == before
  }

  lemma StoredReads(files: Files, name: string, c: Content, disk: bool)
    requires SplitApiPath(name).Some?
    ensures var (after, reply) := StoreFile(files, SplitApiPath(name).value, c, disk);
      Wrote(files, after, name, c, reply)
  {
    if Times(c.metadata) { CreatedReads(c); }
  }

  /** A copy leaves its source alone. */
  lemma SourceStays(before: Files, after: Files, from: string, to: string)
    requires SplitApiPath(from) != SplitApiPath(to) && SplitApiPath(from).Some? && SplitApiPath(to).Some?
    requires Only(before, after, {SplitApiPath(to).value})
    ensures ContentOf(after, from) == ContentOf(before, from)
  {
  }

  // ---- The service ----

  /** Why a user may not touch a file; nothing when it may. */
  function Refused(files: Files, u: User, name: string): Option<ErrorCode> {
    var m := MetadataOf(files, name);
    if m.Bad? then Some(m.code) else if CanAccess(u, m.value) then None else Some(PermissionDenied)
  }

  /** A destination that does not exist refuses nobody. */
  function RefusedDestination(files: Files, u: User, name: string, overwrite: bool): Option<ErrorCode> {
    if !overwrite || Refused(files, u, name) == Some(NotFound) then None else Refused(files, u, name)
  }

  function NewMetadata(u: User, now: int): Metadata { Metadata(u.name, u.name, now, now) }

  function UpdatedMetadata(u: User, m: Metadata, now: int): Metadata { m.(lastEditor := u.name, modifyTime := now) }

  datatype TuxOp =
    | Create(name: string, overwrite: bool)
    | Write(name: string, content: string)
    | Delete(name: string)
    | Copy(from: string, to: string, overwrite: bool)
    | Move(from: string, to: string, overwrite: bool)

  /** What a user's operation does at a time; `disk` says whether the disk works. Renaming is moving. */
  function Apply(files: Files, u: User, op: TuxOp, now: int, disk: bool): (Files, Reply) {
    match op
    case Create(name, overwrite) =>
      var refused := RefusedDestination(files, u, name, overwrite);
      if refused.Some? then (files, Failed(refused.value))
      else StoreCreate(files, name, NewMetadata(u, now), overwrite, disk)
    case Write(name, content) =>
      var refused := Refused(files, u, name);
      if refused.Some? then (files, Failed(refused.value))
      else StoreWrite(files, name, content, UpdatedMetadata(u, MetadataOf(files, name).value, now), disk)
    case Delete(name) =>
      var refused := Refused(files, u, name);
      if refused.Some? then (files, Failed(refused.value)) else StoreDelete(files, name, disk)
    case Copy(from, to, overwrite) =>
      var refused := RefusedBoth(files, u, from, to, overwrite);
      if refused.Some? then (files, Failed(refused.value))
      else StoreCopy(files, from, to, NewMetadata(u, now), overwrite, disk)
    case Move(from, to, overwrite) =>
      var refused := RefusedBoth(files, u, from, to, overwrite);
      if refused.Some? then (files, Failed(refused.value)) else StoreMove(files, from, to, overwrite, disk)
  }

  function RefusedBoth(files: Files, u: User, from: string, to: string, overwrite: bool): Option<ErrorCode> {
    if Refused(files, u, from).Some? then Refused(files, u, from) else RefusedDestination(files, u, to, overwrite)
  }

  // ---- Ownership ----

  predicate CreatedBy(file: string, name: string) {
    ReadMetadata(file).Some? && ReadMetadata(file).value.creator == name
  }

  predicate Unchanged(before: Files, after: Files, path: Path) {
    path in before && path in after && before[path] == after[path]
  }

  /** Files created by others, or by nobody readable, are unchanged, and what is new or changed is the user's. */
  ghost predicate OwnOnly(before: Files, after: Files, name: string) {
    (forall p :: p in before && !CreatedBy(before[p], name) ==> Unchanged(before, after, p))
    && forall p :: p in after && !Unchanged(before, after, p) ==> CreatedBy(after[p], name)
  }

  lemma OwnStored(files: Files, path: Path, c: Content, disk: bool)
    requires Times(c.metadata) && (path in files ==> CreatedBy(files[path], c.metadata.creator))
    ensures OwnOnly(files, StoreFile(files, path, c, disk).0, c.metadata.creator)
  {
    CreatedReads(c);
    if Writable(c) && disk { OwnSet(files, path, Encode(c), c.metadata.creator); }
  }

  lemma OwnSet(files: Files, path: Path, file: string, name: string)
    requires CreatedBy(file, name) && (path in files ==> CreatedBy(files[path], name))
    ensures OwnOnly(files, files[path := file], name)
  {
  }

  lemma OwnMoved(files: Files, from: Path, to: Path, name: string)
    requires from in files && from != to && CreatedBy(files[from], name) && (to in files ==> CreatedBy(files[to], name))
    ensures OwnOnly(files, (files - {from})[to := files[from]], name)
  {
  }

  /** A destination is free or the user's own. */
  lemma OwnDestination(files: Files, u: User, name: string, overwrite: bool)
    requires !Privileged(u) && RefusedDestination(files, u, name, overwrite).None?
    requires SplitApiPath(name).Some? && (overwrite || SplitApiPath(name).value !in files)
    ensures SplitApiPath(name).value in files ==> CreatedBy(files[SplitApiPath(name).value], u.name)
  {
  }

  lemma OwnCreate(files: Files, u: User, name: string, overwrite: bool, now: int, disk: bool)
    requires !Privileged(u) && IsInt64(now)
    ensures OwnOnly(files, Apply(files, u, Create(name, overwrite), now, disk).0, u.name)
  {
    var path := SplitApiPath(name);
    if RefusedDestination(files, u, name, overwrite).None? && path.Some? && (overwrite || path.value !in files) {
      OwnDestination(files, u, name, overwrite);
      OwnStored(files, path.value, Content("", NewMetadata(u, now)), disk);
    }
  }

  lemma OwnWrite(files: Files, u: User, name: string, content: string, now: int, disk: bool)
    requires !Privileged(u) && IsInt64(now)
    ensures OwnOnly(files, Apply(files, u, Write(name, content), now, disk).0, u.name)
  {
    if Refused(files, u, name).None? {
      var path := SplitApiPath(name).value;
      MetadataTimes(files[path]);
      OwnStored(files, path, Content(content, UpdatedMetadata(u, MetadataOf(files, name).value, now)), disk);
    }
  }

  lemma OwnCopy(files: Files, u: User, from: string, to: string, overwrite: bool, now: int, disk: bool)
    requires !Privileged(u) && IsInt64(now)
    ensures OwnOnly(files, Apply(files, u, Copy(from, to, overwrite), now, disk).0, u.name)
  {
    var destination, c := SplitApiPath(to), ContentOf(files, from);
    if RefusedBoth(files, u, from, to, overwrite).None? && destination.Some? && c.Good?
      && (overwrite || destination.value !in files) {
      OwnDestination(files, u, to, overwrite);
      var copy := Content(c.value.content, NewMetadata(u, now));
      OwnStored(files, destination.value, copy, disk);
      assert StoreCopy(files, from, to, copy.metadata, overwrite, disk).0
        in {files, StoreFile(files, destination.value, copy, disk).0};
    }
  }

  lemma OwnMove(files: Files, u: User, from: string, to: string, overwrite: bool, now: int, disk: bool)
    requires !Privileged(u)
    ensures OwnOnly(files, Apply(files, u, Move(from, to, overwrite), now, disk).0, u.name)
  {
    var source, destination := SplitApiPath(from), SplitApiPath(to);
    if RefusedBoth(files, u, from, to, overwrite).None? && StoreMove(files, from, to, overwrite, disk).1 == Done {
      assert CreatedBy(files[source.value], u.name);
      OwnDestination(files, u, to, overwrite);
      OwnMoved(files, source.value, destination.value, u.name);
    }
  }

  /** Without privileges a user neither changes a file created by someone else, nor one whose creator cannot be
      read; and every file the operation leaves new or changed is the user's own. */
  lemma OnlyOwnFiles(files: Files, u: User, op: TuxOp, now: int, disk: bool)
    requires !Privileged(u) && IsInt64(now)
    ensures OwnOnly(files, Apply(files, u, op, now, disk).0, u.name)
  {
    match op
    case Create(name, overwrite) => OwnCreate(files, u, name, overwrite, now, disk);
    case Write(name, content) => OwnWrite(files, u, name, content, now, disk);
    case Delete(name) =>
    case Copy(from, to, overwrite) => OwnCopy(files, u, from, to, overwrite, now, disk);
    case Move(from, to, overwrite) => OwnMove(files, u, from, to, overwrite, now, disk);
  }

  lemma CreatedReads(c: Content)
    requires Times(c.metadata)
    ensures Writable(c) ==> ReadMetadata(Encode(c)) == Some(c.metadata) && ReadAll(Encode(c)) == Some(c)
  {
    if Writable(c) { EncodedReads(c); }
  }

  lemma MetadataTimes(file: string)
    ensures ReadMetadata(file).Some? ==> Times(ReadMetadata(file).value)
  {
  }

  datatype Event = Event(user: User, op: TuxOp, now: int, disk: bool)

  function ApplyAll(files: Files, events: seq<Event>): Files {
    if events == [] then files else
    var last := events[|events| - 1];
    Apply(ApplyAll(files, events[..|events| - 1]), last.user, last.op, last.now, last.disk).0
  }

  /** In every run of operations by users without privileges, a file created by none of them keeps its path
      and every byte. */
  lemma {:induction false} RunKeepsOthersFiles(files: Files, events: seq<Event>, path: Path)
    requires path in files
    requires forall i :: 0 <= i < |events| ==>
      !Privileged(events[i].user) && IsInt64(events[i].now) && !CreatedBy(files[path], events[i].user.name)
    ensures Unchanged(files, ApplyAll(files, events), path)
  {
    if events != [] {
      var before, last := events[..|events| - 1], events[|events| - 1];
      RunKeepsOthersFiles(files, before, path);
      OnlyOwnFiles(ApplyAll(files, before), last.user, last.op, last.now, last.disk);
    }
  }

  // ---- What the operations do ----

  /** An operation that fails changes nothing. */
  lemma FailureKeepsFiles(files: Files, u: User, op: TuxOp, now: int, disk: bool)
    ensures Apply(files, u, op, now, disk).1 != Done ==> Apply(files, u, op, now, disk).0 == files
  {
  }

  /** Writing replaces the content, keeps creator and creation time, and touches nothing else. */
  lemma WriteKeepsCreator(files: Files, u: User, name: string, content: string, now: int, disk: bool)
    requires IsInt64(now) && Apply(files, u, Write(name, content), now, disk).1 == Done
    ensures var path := SplitApiPath(name).value;
      var after := Apply(files, u, Write(name, content), now, disk).0;
      var m := ReadMetadata(files[path]).value;
      ReadAll(after[path]) == Some(Content(content, Metadata(m.creator, u.name, m.createTime, now)))
      && after.Keys == files.Keys && forall p :: p in files && p != path ==> after[p] == files[p]
  {
    var path := SplitApiPath(name).value;
    MetadataTimes(files[path]);
    CreatedReads(Content(content, UpdatedMetadata(u, MetadataOf(files, name).value, now)));
  }

  /** Moving conserves: the source is gone, the destination has every byte of it, all else is the same, and a
      destination that was there is only replaced on request by someone who may touch it. */
  lemma MoveConserves(files: Files, u: User, from: string, to: string, overwrite: bool, now: int, disk: bool)
    requires Apply(files, u, Move(from, to, overwrite), now, disk).1 == Done
    ensures var (source, destination) := (SplitApiPath(from).value, SplitApiPath(to).value);
      var after := Apply(files, u, Move(from, to, overwrite), now, disk).0;
      source != destination && source in files && source !in after
      && destination in after && after[destination] == files[source]
      && (destination in files ==> overwrite && CanAccess(u, ReadMetadata(files[destination]).value))
      && forall p :: p != source && p != destination ==>
        (p in files <==> p in after) && (p in files ==> after[p] == files[p])
  {
  }

  /** Copying keeps the source and everything else; the copy has its content and belongs to the user. */
  lemma CopyBelongsToUser(files: Files, u: User, from: string, to: string, overwrite: bool, now: int, disk: bool)
    requires IsInt64(now) && Apply(files, u, Copy(from, to, overwrite), now, disk).1 == Done
    ensures var (source, destination) := (SplitApiPath(from).value, SplitApiPath(to).value);
      var after := Apply(files, u, Copy(from, to, overwrite), now, disk).0;
      source != destination && source in files
      && ReadAll(after[destination]) == Some(Content(ReadAll(files[source]).value.content, NewMetadata(u, now)))
      && forall p :: p != destination ==> (p in files <==> p in after) && (p in files ==> after[p] == files[p])
  {
    CreatedReads(Content(ContentOf(files, from).value.content, NewMetadata(u, now)));
  }
}
