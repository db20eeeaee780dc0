/** The TUX service and its store as objects. A thrown exception is an answer with its code. */
module TuxServices {
  import opened Accounts
  import opened AccountServices
  import opened AccountStorage
  import opened BackendErrors
  import opened TuxFiles
  import opened TuxFormat
  import opened Users
  import opened Wrappers

  class TuxStore {
    var files: Files

    method ReadMetadata(name: string) returns (r: Answer<Metadata>)
      ensures r == MetadataOf(files, name)
    {
      var path := SplitApiPath(name);
      if path.None? { return Bad(InvalidPath); }
      if path.value !in files { return Bad(NotFound); }
      var m := TuxFormat.ReadMetadata(files[path.value]);
      r := if m.None? then Bad(StorageError) else Good(m.value);
    }

    method Read(name: string) returns (r: Answer<Content>)
      ensures r == ContentOf(files, name)
    {
      var path := SplitApiPath(name);
      if path.None? { return Bad(InvalidPath); }
      if path.value !in files { return Bad(NotFound); }
      var c := ReadAll(files[path.value]);
      r := if c.None? then Bad(StorageError) else Good(c.value);
    }

    /** Written to a temporary file first, which then takes the place of the old one. */
    method WriteFile(path: Path, c: Content, disk: bool) returns (reply: Reply)
      modifies this
      ensures (files, reply) == StoreFile(old(files), path, c, disk)
    {
      if !Writable(c) || !disk { return Failed(StorageError); }
      files := files[path := Encode(c)];
      reply := Done;
    }

    method Create(name: string, m: Metadata, overwrite: bool, disk: bool) returns (reply: Reply)
      modifies this
      ensures (files, reply) == StoreCreate(old(files), name, m, overwrite, disk)
      ensures Wrote(old(files), files, name, Content("", m), reply)
    {
      var path := SplitApiPath(name);
      if path.None? { return Failed(InvalidPath); }
      if path.value in files && !overwrite { return Failed(AlreadyExists); }
      StoredReads(files, name, Content("", m), disk);
      reply := WriteFile(path.value, Content("", m), disk);
    }

    method Write(name: string, content: string, m: Metadata, disk: bool) returns (reply: Reply)
      modifies this
      ensures (files, reply) == StoreWrite(old(files), name, content, m, disk)
      ensures Wrote(old(files), files, name, Content(content, m), reply)
    {
      var path := SplitApiPath(name);
      if path.None? { return Failed(InvalidPath); }
      StoredReads(files, name, Content(content, m), disk);
      reply := WriteFile(path.value, Content(content, m), disk);
    }

    method DeleteFile(name: string, disk: bool) returns (reply: Reply)
      modifies this
      ensures (files, reply) == StoreDelete(old(files), name, disk)
      ensures if reply == Done then
          MetadataOf(files, name) == Bad(NotFound) && Only(old(files), files, {SplitApiPath(name).value})
        else files == old(files)
    {
      var path := SplitApiPath(name);
      if path.None? { return Failed(InvalidPath); }
      if path.value !in files { return Failed(NotFound); }
      if !disk { return Failed(StorageError); }
      files := files - {path.value};
      reply := Done;
    }

    method CopyFile(from: string, to: string, m: Metadata, overwrite: bool, disk: bool) returns (reply: Reply)
      modifies this
      ensures (files, reply) == StoreCopy(old(files), from, to, m, overwrite, disk)
      ensures if reply == Done then
          Wrote(old(files), files, to, Content(old(ContentOf(files, from)).value.content, m), reply)
          && ContentOf(files, from) == old(ContentOf(files, from))
        else files == old(files)
    {
      var source, destination := SplitApiPath(from), SplitApiPath(to);
      if source.None? || destination.None? { return Failed(InvalidPath); }
      if source == destination { return Failed(Conflict); }
      if destination.value in files && !overwrite { return Failed(AlreadyExists); }
      var c := Read(from);
      if c.Bad? { return Failed(c.code); }
      ghost var before := files;
      StoredReads(files, to, Content(c.value.content, m), disk);
      reply := WriteFile(destination.value, Content(c.value.content, m), disk);
      SourceStays(before, files, from, to);
    }

    method MoveFile(from: string, to: string, overwrite: bool, disk: bool) returns (reply: Reply)
      modifies this
      ensures (files, reply) == StoreMove(old(files), from, to, overwrite, disk)
      ensures if reply == Done then
          ContentOf(files, to) == old(ContentOf(files, from)) && ContentOf(files, from) == Bad(NotFound)
          && Only(old(files), files, {SplitApiPath(from).value, SplitApiPath(to).value})
        else files == old(files)
    {
      var source, destination := SplitApiPath(from), SplitApiPath(to);
      if source.None? || destination.None? { return Failed(InvalidPath); }
      if source == destination { return Failed(Conflict); }
      if destination.value in files && !overwrite { return Failed(AlreadyExists); }
      if source.value !in files { return Failed(NotFound); }
      if !disk { return Failed(StorageError); }
      var moved := files[source.value];
      files := (files - {source.value})[destination.value := moved];
      reply := Done;
    }
  }

  /** The reply of an operation by the user of a session, if it gets that far. */
  function Served(files: Files, access: Resolved, op: TuxOp, now: int, disk: bool): (Files, Reply) {
    if access.Not? then (files, Failed(access.code)) else Apply(files, access.user, op, now, disk)
  }

  /** What every caller of a mutation may rely on: without access nothing changes, and without privileges nobody
      else's files do, nor is anything left behind that is not the user's own. */
  ghost predicate Respects(before: Files, after: Files, access: Resolved, now: int) {
    (access.Not? ==> after == before)
    && (access.Is? && !Privileged(access.user) && IsInt64(now) ==> OwnOnly(before, after, access.user.name))
  }

  lemma ServedRespects(files: Files, access: Resolved, op: TuxOp, now: int, disk: bool)
    ensures Respects(files, Served(files, access, op, now, disk).0, access, now)
    ensures Served(files, access, op, now, disk).1 != Done ==> Served(files, access, op, now, disk).0 == files
  {
    if access.Is? {
      FailureKeepsFiles(files, access.user, op, now, disk);
      if !Privileged(access.user) && IsInt64(now) { OnlyOwnFiles(files, access.user, op, now, disk); }
    }
  }

  /** Listed files that the user may not access are left out; directories stay. */
  datatype Listed = Directory(name: string) | TuxFile(name: string)

  predicate Visible(files: Files, u: User, entry: Listed) {
    entry.Directory? || Privileged(u) || Refused(files, u, entry.name).None?
  }

  predicate Unlistable(files: Files, entry: Listed) { entry.TuxFile? && MetadataOf(files, entry.name).Bad? }

  function VisibleOnly(files: Files, u: User, entries: seq<Listed>): seq<Listed> {
    if entries == [] then [] else
    VisibleOnly(files, u, entries[..|entries| - 1])
    + (if Visible(files, u, entries[|entries| - 1]) then [entries[|entries| - 1]] else [])
  }

  /** A user sees exactly the directories and the files it may access. */
  lemma {:induction false} VisibleMeans(files: Files, u: User, entries: seq<Listed>)
    ensures forall e :: e in VisibleOnly(files, u, entries) <==> e in entries && Visible(files, u, e)
  {
    if entries != [] {
      var init, last := entries[..|entries| - 1], entries[|entries| - 1];
      VisibleMeans(files, u, init);
      assert entries == init + [last];
    }
  }

  class TuxService {
    const store: TuxStore
    const sessions: SessionService
    const users: StoredUsers

    constructor (store: TuxStore, sessions: SessionService)
      ensures this.store == store && this.sessions == sessions && users == sessions.store
    {
      this.store, this.sessions, users := store, sessions, sessions.store;
    }

    /** The user file says who may use TUX files. */
    ghost function Access(sid: string, d: DiskIo): Resolved
      reads users, users.file.disk, sessions
    {
      RequireTuxAccess(State(users.present, users.users, sessions.sessions), sid, users.IoOf(d, true))
    }

    method RequireAccess(sid: string, d: DiskIo) returns (r: Resolved)
      requires users.Valid()
      ensures r == Access(sid, d)
    {
      ghost var st := State(users.present, users.users, sessions.sessions);
      if sid !in sessions.sessions { return Not(SessionExpired); }
      var session := sessions.sessions[sid];
      if session.kind == "guest" || session.name == "" { return Not(PermissionDenied); }
      if session.kind == "debug" && session.name == "debug" && session.password == "" { return Is(session); }
      var list := users.ListUsers(d, st, true, users.IoOf(d, true));
      if list.None? { return Not(StorageError); }
      var i := Find(list.value, session.name);
      if i == |list.value| { return Not(NotFound); }
      var found := list.value[i];
      r := if found.kind == "guest" || found.name == "" || found.failed > 7 then Not(PermissionDenied) else Is(found);
    }

    method RequireOwner(u: User, name: string) returns (refused: Option<ErrorCode>, m: Answer<Metadata>)
      ensures refused == Refused(store.files, u, name) && m == MetadataOf(store.files, name)
    {
      m := store.ReadMetadata(name);
      refused := if m.Bad? then Some(m.code) else if CanAccess(u, m.value) then None else Some(PermissionDenied);
    }

    method RequireDestinationAccessForOverwrite(u: User, name: string, overwrite: bool)
      returns (refused: Option<ErrorCode>)
      ensures refused == RefusedDestination(store.files, u, name, overwrite)
    {
      if !overwrite { return None; }
      var code, _ := RequireOwner(u, name);
      refused := if code == Some(NotFound) then None else code;
    }

    method Read(sid: string, name: string, d: DiskIo) returns (r: Answer<Content>)
      requires users.Valid()
      ensures var access := Access(sid, d);
        r == if access.Not? then Bad(access.code)
          else if Refused(store.files, access.user, name).Some? then Bad(Refused(store.files, access.user, name).value)
          else ContentOf(store.files, name)
    {
      var access := RequireAccess(sid, d);
      if access.Not? { return Bad(access.code); }
      var refused, _ := RequireOwner(access.user, name);
      if refused.Some? { return Bad(refused.value); }
      r := store.Read(name);
    }

    method Create(sid: string, name: string, overwrite: bool, now: int, d: DiskIo, disk: bool) returns (reply: Reply)
      requires users.Valid()
      modifies store
      ensures (store.files, reply) ==
        Served(old(store.files), old(Access(sid, d)), TuxOp.Create(name, overwrite), now, disk)
      ensures Respects(old(store.files), store.files, old(Access(sid, d)), now)
      ensures reply != Done ==> store.files == old(store.files)
    {
      ServedRespects(store.files, Access(sid, d), TuxOp.Create(name, overwrite), now, disk);
      var access := RequireAccess(sid, d);
      if access.Not? { return Failed(access.code); }
      var refused := RequireDestinationAccessForOverwrite(access.user, name, overwrite);
      if refused.Some? { return Failed(refused.value); }
      reply := store.Create(name, NewMetadata(access.user, now), overwrite, disk);
    }

    method Write(sid: string, name: string, content: string, now: int, d: DiskIo, disk: bool) returns (reply: Reply)
      requires users.Valid()
      modifies store
      ensures (store.files, reply) ==
        Served(old(store.files), old(Access(sid, d)), TuxOp.Write(name, content), now, disk)
      ensures Respects(old(store.files), store.files, old(Access(sid, d)), now)
      ensures reply != Done ==> store.files == old(store.files)
    {
      ServedRespects(store.files, Access(sid, d), TuxOp.Write(name, content), now, disk);
      var access := RequireAccess(sid, d);
      if access.Not? { return Failed(access.code); }
      var refused, m := RequireOwner(access.user, name);
      if refused.Some? { return Failed(refused.value); }
      reply := store.Write(name, content, UpdatedMetadata(access.user, m.value, now), disk);
    }

    method DeleteFile(sid: string, name: string, now: int, d: DiskIo, disk: bool) returns (reply: Reply)
      requires users.Valid()
      modifies store
      ensures (store.files, reply) == Served(old(store.files), old(Access(sid, d)), TuxOp.Delete(name), now, disk)
      ensures Respects(old(store.files), store.files, old(Access(sid, d)), now)
      ensures reply != Done ==> store.files == old(store.files)
    {
      ServedRespects(store.files, Access(sid, d), TuxOp.Delete(name), now, disk);
      var access := RequireAccess(sid, d);
      if access.Not? { return Failed(access.code); }
      var refused, _ := RequireOwner(access.user, name);
      if refused.Some? { return Failed(refused.value); }
      reply := store.DeleteFile(name, disk);
    }

    method CopyFile(sid: string, from: string, to: string, overwrite: bool, now: int, d: DiskIo, disk: bool)
      returns (reply: Reply)
      requires users.Valid()
      modifies store
      ensures (store.files, reply) ==
        Served(old(store.files), old(Access(sid, d)), TuxOp.Copy(from, to, overwrite), now, disk)
      ensures Respects(old(store.files), store.files, old(Access(sid, d)), now)
      ensures reply != Done ==> store.files == old(store.files)
    {
      ServedRespects(store.files, Access(sid, d), TuxOp.Copy(from, to, overwrite), now, disk);
      var access := RequireAccess(sid, d);
      if access.Not? { return Failed(access.code); }
      var refused, _ := RequireOwner(access.user, from);
      if refused.Some? { return Failed(refused.value); }
      refused := RequireDestinationAccessForOverwrite(access.user, to, overwrite);
      if refused.Some? { return Failed(refused.value); }
      reply := store.CopyFile(from, to, NewMetadata(access.user, now), overwrite, disk);
    }

    method MoveFile(sid: string, from: string, to: string, overwrite: bool, now: int, d: DiskIo, disk: bool)
      returns (reply: Reply)
      requires users.Valid()
      modifies store
      ensures (store.files, reply) ==
        Served(old(store.files), old(Access(sid, d)), TuxOp.Move(from, to, overwrite), now, disk)
      ensures Respects(old(store.files), store.files, old(Access(sid, d)), now)
      ensures reply != Done ==> store.files == old(store.files)
    {
      ServedRespects(store.files, Access(sid, d), TuxOp.Move(from, to, overwrite), now, disk);
      var access := RequireAccess(sid, d);
      if access.Not? { return Failed(access.code); }
      var refused, _ := RequireOwner(access.user, from);
      if refused.Some? { return Failed(refused.value); }
      refused := RequireDestinationAccessForOverwrite(access.user, to, overwrite);
      if refused.Some? { return Failed(refused.value); }
      reply := store.MoveFile(from, to, overwrite, disk);
    }

    /** One file whose metadata cannot be read makes the whole listing fail, unless the user is privileged. */
    method FilterVisibleEntries(u: User, entries: seq<Listed>) returns (r: Answer<seq<Listed>>)
      ensures r.Good? ==> r.value == VisibleOnly(store.files, u, entries)
      ensures r.Bad? <==> !Privileged(u) && exists i :: 0 <= i < |entries| && Unlistable(store.files, entries[i])
    {
      if Privileged(u) {
        AllVisible(store.files, u, entries);
        return Good(entries);
      }
      var filtered := [];
      for i := 0 to |entries|
        invariant filtered == VisibleOnly(store.files, u, entries[..i])
        invariant forall k :: 0 <= k < i ==> !Unlistable(store.files, entries[k])
      {
        assert entries[..i + 1][..i] == entries[..i];
        if entries[i].Directory? {
          filtered := filtered + [entries[i]];
        } else {
          var m := store.ReadMetadata(entries[i].name);
          if m.Bad? { return Bad(m.code); }
          if CanAccess(u, m.value) { filtered := filtered + [entries[i]]; }
        }
      }
      assert entries[..|entries|] == entries;
      r := Good(filtered);
    }
  }

  lemma {:induction false} AllVisible(files: Files, u: User, entries: seq<Listed>)
    requires Privileged(u)
    ensures VisibleOnly(files, u, entries) == entries
  {
    if entries != [] {
      AllVisible(files, u, entries[..|entries| - 1]);
      assert entries == entries[..|entries| - 1] + [entries[|entries| - 1]];
    }
  }
}
