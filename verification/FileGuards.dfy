/** Which names BACKEND/adapters/filesystem_file_store.cpp protects and which it refuses, spelled out, and what that
    means for whole trees. */
module FileGuards {
  import opened Ascii
  import opened FileTree
  import opened Lines

  // ---- Protected names ----

  /** The user file, the temporary directory, and what ends in `.tux` or `.tlog` behind something else, in any
      case. */
  ghost predicate Guarded(name: string) {
    Lower(name) == "user_data.dat" || Lower(name) == "temp"
    || exists stem :: stem != "" && (Lower(name) == stem + ".tux" || Lower(name) == stem + ".tlog")
  }

  ghost predicate GuardedPath(path: Path) { exists i :: 0 <= i < |path| && Guarded(path[i]) }

  lemma ProtectedExactly(name: string)
    ensures ProtectedName(name) <==> Guarded(name)
  {
    ExtensionIs(name, ".tux");
    ExtensionIs(name, ".tlog");
  }

  /** The extension is read off the end of the name. */
  lemma ExtensionIs(name: string, ext: string)
    requires ext in [".tux", ".tlog"]
    ensures Lower(Extension(name)) == ext <==> exists stem :: stem != "" && Lower(name) == stem + ext
  {
    if Lower(Extension(name)) == ext {
      LowerTail(name, LastDot(name));
      assert Lower(name) == Lower(name)[..LastDot(name)] + ext;
    }
    forall stem | stem != "" && Lower(name) == stem + ext ensures Lower(Extension(name)) == ext {
      DotAt(name, stem, ext);
    }
  }

  lemma LowerTail(name: string, i: int)
    requires 0 <= i <= |name|
    ensures Lower(name[i..]) == Lower(name)[i..] && Lower(name) == Lower(name)[..i] + Lower(name)[i..]
  {
  }

  lemma DotAt(name: string, stem: string, ext: string)
    requires stem != "" && Lower(name) == stem + ext && |ext| > 1 && ext[0] == '.' && '.' !in ext[1..]
    ensures Lower(Extension(name)) == ext
  {
    var i := |stem|;
    assert Lower(name)[i] == '.' && name[i] == '.';
    forall k | i < k < |name| ensures name[k] != '.' {
      assert Lower(name)[k] == ext[1..][k - i - 1];
    }
    assert LastDot(name) == i && name !in [".", ".."];
    LowerTail(name, i);
  }

  lemma ProtectedPathExactly(path: Path)
    ensures Protected(path) <==> GuardedPath(path)
  {
    forall i | 0 <= i < |path| ensures ProtectedName(path[i]) <==> Guarded(path[i]) { ProtectedExactly(path[i]); }
  }

  // ---- Whole trees ----

  /** A link in the tree. */
  predicate HasLink(node: Node)
    decreases node, 0
  {
    node.Link? || (node.Dir? && HasLinkIn(node.entries))
  }

  predicate HasLinkIn(entries: seq<Entry>)
    decreases entries
  {
    entries != [] && (HasLink(entries[0].node) || HasLinkIn(entries[1..]))
  }

  /** A guarded name on the way to the tree or in it. */
  ghost predicate HasGuarded(path: Path, node: Node) { exists p :: p in Paths(path, node) && GuardedPath(p) }

  /** The walk is blocked exactly by such a name or a link. */
  lemma {:induction false} BlockedExactly(path: Path, node: Node)
    ensures Blocked(path, node) <==> HasGuarded(path, node) || HasLink(node)
    decreases node, 0
  {
    ProtectedPathExactly(path);
    if node.Dir? { BlockedInExactly(path, node.entries); }
  }

  lemma {:induction false} BlockedInExactly(path: Path, entries: seq<Entry>)
    ensures BlockedIn(path, entries) <==>
      (exists p :: p in PathsOf(path, entries) && GuardedPath(p)) || HasLinkIn(entries)
    decreases entries
  {
    if entries != [] {
      BlockedExactly(path + [entries[0].name], entries[0].node);
      BlockedInExactly(path, entries[1..]);
    }
  }

  // ---- Refused names ----

  /** The names of devices, in lower case. */
  const DEVICES := [
    "con", "prn", "aux", "nul",
    "com1", "com2", "com3", "com4", "com5", "com6", "com7", "com8", "com9",
    "lpt1", "lpt2", "lpt3", "lpt4", "lpt5", "lpt6", "lpt7", "lpt8", "lpt9"]

  /** A device, alone or with anything behind a dot, in any case. */
  ghost predicate NamesDevice(name: string) {
    exists device :: device in DEVICES && (Lower(name) == device || (device + ".") <= Lower(name))
  }

  lemma DeviceExactly(name: string)
    ensures ReservedDevice(name) <==> NamesDevice(name)
  {
    var base := Lower(name)[..IndexOf(Lower(name), '.')];
    DeviceBase(base);
    if base in DEVICES { BaseNames(Lower(name)); }
    forall device | device in DEVICES && (Lower(name) == device || (device + ".") <= Lower(name))
      ensures base == device
    {
      DeviceDotless(device);
      BaseIs(Lower(name), device);
    }
  }

  lemma BaseNames(s: string)
    ensures var base := s[..IndexOf(s, '.')]; s == base || (base + ".") <= s
  {
  }

  lemma BaseIs(s: string, base: string)
    requires '.' !in base && (s == base || (base + ".") <= s)
    ensures s[..IndexOf(s, '.')] == base
  {
    if s == base { IndexOfNone(s, '.'); } else { IndexOfUnique(s, '.', |base|); }
  }

  lemma DeviceBase(base: string)
    ensures base in DEVICES <==>
      base in ["con", "prn", "aux", "nul"]
      || (|base| == 4 && (base[..3] == "com" || base[..3] == "lpt") && '1' <= base[3] <= '9')
  {
    if |base| == 4 && '1' <= base[3] <= '9' && (base[..3] == "com" || base[..3] == "lpt") { PortListed(base); }
    if base in DEVICES { var k :| 0 <= k < |DEVICES| && DEVICES[k] == base; }
  }

  lemma PortListed(base: string)
    requires |base| == 4 && '1' <= base[3] <= '9' && (base[..3] == "com" || base[..3] == "lpt")
    ensures base in DEVICES
  {
    assert base == base[..3] + [base[3]];
    var row := if base[..3] == "com" then 4 else 13;
    assert DEVICES[row + (base[3] as int - '1' as int)] == base;
  }

  lemma DeviceDotless(device: string)
    requires device in DEVICES
    ensures '.' !in device
  {
    var k :| 0 <= k < |DEVICES| && DEVICES[k] == device;
  }

  /** A requested component is accepted exactly when it is not empty, does not stay or step up, has no colon or
      tilde, does not end in a dot or a blank, and names no device. */
  lemma ComponentExactly(name: string)
    ensures ValidComponent(name) <==>
      name !in ["", ".", ".."] && ':' !in name && '~' !in name && name[|name| - 1] !in ". " && !NamesDevice(name)
  {
    DeviceExactly(name);
  }
}
