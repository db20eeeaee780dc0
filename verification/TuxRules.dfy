/** Who may do what with TUX files, BACKEND/core/tux_service.cpp, spelled out: when an operation succeeds, why it fails,
    and which names BACKEND/adapters/filesystem_tux_store.cpp takes. */
module TuxRules {
  import opened Accounts
  import opened AccountEntries
  import opened Ascii
  import opened BackendErrors
  import opened FileGuards
  import opened Lines
  import opened TuxFiles
  import opened TuxFormat
  import opened Users
  import opened Wrappers

  // ---- Users ----

  /** The synthetic debug user has access without being stored. */
  predicate DebugSession(u: User) { u == User("debug", "debug", "", u.hint, u.failed) }

  /** Access is for the synthetic debug user and for stored users that are not locked and no guests, as they are
      stored; a locked one is told that it may not. */
  lemma AccessExactly(st: State, sid: string, io: Io)
    ensures var access := RequireTuxAccess(st, sid, io);
      (access.Is? <==>
        sid in st.sessions
        && (DebugSession(st.sessions[sid])
          || (StoredUserOf(st, sid, io) && st.users[Find(st.users, st.sessions[sid].name)].kind != "guest")))
      && (access == Not(SessionExpired) <==> sid !in st.sessions)
    ensures RequireTuxAccess(st, sid, io).Is? ==> RequireTuxAccess(st, sid, io).user == AccessUser(st, sid)
    ensures sid in st.sessions && !DebugSession(st.sessions[sid]) && LoadUsers(st, io).Some?
      && Has(st.users, st.sessions[sid].name) && st.users[Find(st.users, st.sessions[sid].name)].failed > 7
      ==> RequireTuxAccess(st, sid, io) == Not(PermissionDenied)
  {
  }

  /** The user behind a session, as it is stored. */
  function AccessUser(st: State, sid: string): User
    requires sid in st.sessions && (DebugSession(st.sessions[sid]) || Has(st.users, st.sessions[sid].name))
  {
    if DebugSession(st.sessions[sid]) then st.sessions[sid] else st.users[Find(st.users, st.sessions[sid].name)]
  }

  /** Administrators and debug users may touch any file whose metadata can be read, others their own. */
  predicate MayTouch(u: User, file: string) {
    ReadMetadata(file).Some?
    && (IsLowered(u.kind, "admin") || IsLowered(u.kind, "debug")
      || (u.name != "" && ReadMetadata(file).value.creator == u.name))
  }

  predicate MayTouchAt(u: User, files: Files, name: string) {
    SplitApiPath(name).Some? && SplitApiPath(name).value in files && MayTouch(u, files[SplitApiPath(name).value])
  }

  /** The name is free, or the file there may be replaced. */
  predicate MayReplaceAt(u: User, files: Files, name: string, overwrite: bool) {
    SplitApiPath(name).Some? && (SplitApiPath(name).value in files ==> overwrite && MayTouchAt(u, files, name))
  }

  lemma RefusedExactly(files: Files, u: User, name: string)
    ensures Refused(files, u, name).None? <==> MayTouchAt(u, files, name)
    ensures Refused(files, u, name) == Some(InvalidPath) <==> SplitApiPath(name).None?
    ensures Refused(files, u, name) == Some(NotFound) <==>
      SplitApiPath(name).Some? && SplitApiPath(name).value !in files
    ensures Refused(files, u, name) == Some(StorageError) <==>
      SplitApiPath(name).Some? && SplitApiPath(name).value in files
      && ReadMetadata(files[SplitApiPath(name).value]).None?
    ensures SplitApiPath(name).Some? && SplitApiPath(name).value in files
      && ReadMetadata(files[SplitApiPath(name).value]).Some? && !MayTouchAt(u, files, name)
      ==> Refused(files, u, name) == Some(PermissionDenied)
  {
    LoweredIs(u.kind, "admin");
    LoweredIs(u.kind, "debug");
  }

  lemma DestinationExactly(files: Files, u: User, name: string, overwrite: bool)
    requires SplitApiPath(name).Some?
    ensures RefusedDestination(files, u, name, overwrite).None? && (SplitApiPath(name).value in files ==> overwrite)
      <==> MayReplaceAt(u, files, name, overwrite)
  {
    RefusedExactly(files, u, name);
  }

  // ---- Creating ----

  /** A file is created when the name is valid and free, or taken by one that may be replaced on request, and the
      user's name fits and the disk works. It is empty and the user's, and nothing else changes. */
  lemma CreatesExactly(files: Files, u: User, name: string, overwrite: bool, now: int, disk: bool)
    ensures Apply(files, u, TuxOp.Create(name, overwrite), now, disk).1 == Done <==>
      MayReplaceAt(u, files, name, overwrite) && |u.name| <= 1024 && disk
    ensures var (after, reply) := Apply(files, u, TuxOp.Create(name, overwrite), now, disk);
      reply == Done ==>
        Only(files, after, {SplitApiPath(name).value})
        && (IsInt64(now) ==> ContentOf(after, name) == Good(Content("", Metadata(u.name, u.name, now, now))))
  {
    if SplitApiPath(name).Some? {
      DestinationExactly(files, u, name, overwrite);
      StoredReads(files, name, Content("", NewMetadata(u, now)), disk);
    } else {
      RefusedExactly(files, u, name);
    }
  }

  /** Without the request to overwrite, a name that is taken is refused as such. */
  lemma TakenIsRefused(files: Files, u: User, name: string, now: int, disk: bool)
    requires SplitApiPath(name).Some? && SplitApiPath(name).value in files
    ensures Apply(files, u, TuxOp.Create(name, false), now, disk) == (files, Failed(AlreadyExists))
  {
  }

  // ---- Writing and deleting ----

  /** A file is written when the user may touch it and everything fits and the disk works. */
  lemma WritesExactly(files: Files, u: User, name: string, content: string, now: int, disk: bool)
    ensures Apply(files, u, TuxOp.Write(name, content), now, disk).1 == Done <==>
      MayTouchAt(u, files, name) && |u.name| <= 1024 && |content| <= 16 * 1024 * 1024 && disk
    ensures Apply(files, u, TuxOp.Write(name, content), now, disk).1 == Failed(PermissionDenied) <==>
      SplitApiPath(name).Some? && SplitApiPath(name).value in files
      && ReadMetadata(files[SplitApiPath(name).value]).Some? && !MayTouchAt(u, files, name)
  {
    RefusedExactly(files, u, name);
    if MayTouchAt(u, files, name) { CreatorFits(files[SplitApiPath(name).value]); }
  }

  /** A creator that was read fits. */
  lemma CreatorFits(file: string)
    requires ReadMetadata(file).Some?
    ensures |ReadMetadata(file).value.creator| <= 1024
  {
  }

  lemma DeletesExactly(files: Files, u: User, name: string, now: int, disk: bool)
    ensures var (after, reply) := Apply(files, u, TuxOp.Delete(name), now, disk);
      (reply == Done <==> MayTouchAt(u, files, name) && disk)
      && (reply == Done ==> SplitApiPath(name).value !in after && Only(files, after, {SplitApiPath(name).value}))
      && (reply == Failed(InvalidPath) <==> SplitApiPath(name).None?)
      && (reply == Failed(NotFound) <==> SplitApiPath(name).Some? && SplitApiPath(name).value !in files)
  {
    RefusedExactly(files, u, name);
  }

  // ---- Copying and moving ----

  lemma BothExactly(files: Files, u: User, from: string, to: string, overwrite: bool)
    requires SplitApiPath(to).Some?
    ensures RefusedBoth(files, u, from, to, overwrite).None? && (SplitApiPath(to).value in files ==> overwrite) <==>
      MayTouchAt(u, files, from) && MayReplaceAt(u, files, to, overwrite)
  {
    RefusedExactly(files, u, from);
    DestinationExactly(files, u, to, overwrite);
  }

  /** A file is copied when the user may touch it, it can be read, the destination is another one that is free or may
      be replaced, the user's name fits and the disk works. */
  lemma CopiesExactly(files: Files, u: User, from: string, to: string, overwrite: bool, now: int, disk: bool)
    ensures Apply(files, u, TuxOp.Copy(from, to, overwrite), now, disk).1 == Done <==>
      MayTouchAt(u, files, from) && MayReplaceAt(u, files, to, overwrite) && SplitApiPath(from) != SplitApiPath(to)
      && ReadAll(files[SplitApiPath(from).value]).Some? && |u.name| <= 1024 && disk
  {
    RefusedExactly(files, u, from);
    if SplitApiPath(to).Some? {
      BothExactly(files, u, from, to, overwrite);
      if MayTouchAt(u, files, from) { ContentFits(files[SplitApiPath(from).value]); }
    }
  }

  lemma ContentFits(file: string)
    ensures ReadAll(file).Some? ==> |ReadAll(file).value.content| <= 16 * 1024 * 1024
  {
  }

  /** A file is moved when the user may touch it, the destination is another one that is free or may be replaced, and
      the disk works. */
  lemma MovesExactly(files: Files, u: User, from: string, to: string, overwrite: bool, now: int, disk: bool)
    ensures Apply(files, u, TuxOp.Move(from, to, overwrite), now, disk).1 == Done <==>
      MayTouchAt(u, files, from) && MayReplaceAt(u, files, to, overwrite) && SplitApiPath(from) != SplitApiPath(to)
      && disk
  {
    RefusedExactly(files, u, from);
    if SplitApiPath(to).Some? { BothExactly(files, u, from, to, overwrite); }
  }

  // ---- Names ----

  /** A part of a name is made of letters, digits, hyphens and underscores, and is no device and not the temporary
      directory. */
  lemma UsableExactly(part: string)
    ensures Usable(part) <==>
      part != ""
      && (forall i :: 0 <= i < |part| ==>
        'a' <= part[i] <= 'z' || 'A' <= part[i] <= 'Z' || '0' <= part[i] <= '9' || part[i] in "-_")
      && Lower(part) !in DEVICES && Lower(part) != "temp"
  {
    DeviceBase(Lower(part));
  }

  /** A name is taken exactly when it is some usable parts between separators, with or without one at the end. */
  lemma NamesExactly(name: string)
    ensures SplitApiPath(name).Some? ==>
      var parts := SplitApiPath(name).value;
      parts != [] && (forall i :: 0 <= i < |parts| ==> Usable(parts[i]))
      && (name == Join(parts, '/') || name == Join(parts, '/') + "/")
    ensures forall parts: seq<string> :: parts != [] && (forall i :: 0 <= i < |parts| ==> Usable(parts[i])) ==>
      SplitApiPath(Join(parts, '/')) == Some(parts)
  {
    if SplitApiPath(name).Some? { PartsDetermineName(name); }
    forall parts: seq<string> | parts != [] && (forall i :: 0 <= i < |parts| ==> Usable(parts[i]))
      ensures SplitApiPath(Join(parts, '/')) == Some(parts)
    {
      JoinedTaken(parts);
    }
  }

  lemma JoinedTaken(parts: seq<string>)
    requires parts != [] && forall i :: 0 <= i < |parts| ==> Usable(parts[i])
    ensures SplitApiPath(Join(parts, '/')) == Some(parts)
  {
    JoinedPlain(parts);
    forall i | 0 <= i < |parts| ensures parts[i] != "" && '/' !in parts[i] { PlainPart(parts[i]); }
    LinesOfJoined(parts);
    assert forall i :: 0 <= i < |parts| ==> Usable(parts[i]);
  }

  lemma LinesOfJoined(parts: seq<string>)
    requires parts != [] && forall i :: 0 <= i < |parts| ==> parts[i] != "" && '/' !in parts[i]
    ensures GetLines(Join(parts, '/'), '/') == parts
  {
    SplitJoin(parts, '/');
    GetLinesSplit(Join(parts, '/'), '/');
  }

  lemma PlainPart(part: string)
    requires Usable(part)
    ensures part != "" && '/' !in part && '\\' !in part
  {
  }

  lemma {:induction false} JoinedPlain(parts: seq<string>)
    requires parts != [] && forall i :: 0 <= i < |parts| ==> Usable(parts[i])
    ensures var name := Join(parts, '/'); name != "" && name[0] != '/' && '\\' !in name
  {
    PlainPart(parts[0]);
    if |parts| > 1 { JoinedPlain(parts[1..]); }
  }
}
