/** The managed file tree, BACKEND/adapters/filesystem_file_store.cpp: which paths are protected, how a
    requested path is resolved, and the two traversals, collecting a tree for deletion and searching. */
module FileTree {
  import opened Ascii
  import opened Lines
  import opened Wrappers

  type Path = seq<string>

  /** What the walk finds; the entries of a directory come in the order of the directory iterator. */
  datatype Node = File | Link | Dir(entries: seq<Entry>)

  datatype Entry = Entry(name: string, node: Node)

  // ---- Names ----

  /** The position of the last dot, or -1. */
  function LastDot(s: string): (i: int)
    ensures -1 <= i < |s| && (i >= 0 ==> s[i] == '.') && forall k :: i < k < |s| ==> s[k] != '.'
  {
    if s == "" then -1 else if s[|s| - 1] == '.' then |s| - 1 else LastDot(s[..|s| - 1])
  }

  /** A name that is only dots up to its last one at the start has no extension. */
  function Extension(name: string): string {
    if name == "." || name == ".." || LastDot(name) <= 0 then "" else name[LastDot(name)..]
  }

  predicate ProtectedName(name: string) {
    Lower(name) == "user_data.dat" || Lower(name) == "temp"
    || Lower(Extension(name)) == ".tux" || Lower(Extension(name)) == ".tlog"
  }

  predicate Protected(path: Path) { exists i :: 0 <= i < |path| && ProtectedName(path[i]) }

  /** A path is protected when its directory is or its own name is. */
  lemma ProtectedStep(path: Path, name: string)
    ensures Protected(path + [name]) <==> Protected(path) || ProtectedName(name)
  {
    var longer := path + [name];
    assert longer[|path|] == name;
    if Protected(path) {
      var i :| 0 <= i < |path| && ProtectedName(path[i]);
      assert longer[i] == path[i];
    }
  }

  // ---- Requested paths ----

  predicate ReservedDevice(name: string) {
    var lower := Lower(name);
    var base := lower[..IndexOf(lower, '.')];
    base in ["con", "prn", "aux", "nul"]
    || (|base| == 4 && (base[..3] == "com" || base[..3] == "lpt") && '1' <= base[3] <= '9')
  }

  predicate ValidComponent(name: string) {
    name != "" && name != "." && name != ".." && ':' !in name && '~' !in name
    && name[|name| - 1] != '.' && name[|name| - 1] != ' ' && !ReservedDevice(name)
  }

  /** The loop over two paths. */
  method IsPathInside(root: Path, path: Path) returns (inside: bool)
    ensures inside == (root <= path)
  {
    for i := 0 to |root|
      invariant i <= |path| && root[..i] == path[..i]
    {
      if i == |path| || root[i] != path[i] { return false; }
    }
    inside := true;
  }

  /** On Windows the backslash separates too. */
  function Separated(path: string, windows: bool): string {
    seq(|path|, i requires 0 <= i < |path| => if windows && path[i] == '\\' then '/' else path[i])
  }

  /** The components of a path: repeated separators count as one, and one after a name leaves an empty
      component. */
  function Components(path: string, windows: bool): Path {
    var parts := Split(Separated(path, windows), '/');
    if NonEmpty(parts) == [] then [] else NonEmpty(parts[..|parts| - 1]) + [parts[|parts| - 1]]
  }

  function NonEmpty(parts: Path): Path {
    if parts == [] then [] else (if parts[0] == "" then [] else [parts[0]]) + NonEmpty(parts[1..])
  }

  predicate FromRoot(path: string, windows: bool) { path != "" && Separated(path, windows)[0] == '/' }

  /** On Windows two separators and no third begin a network name, and a device name begins like one or with
      question marks; with either the path is absolute. */
  predicate Network(path: string) {
    var text := Separated(path, true);
    && FromRoot(path, true)
    && ((|text| >= 3 && text[1] == '/' && text[2] != '/')
      || (|text| >= 4 && text[1..4] == "??/" && (|text| == 4 || text[4] != '/')))
  }

  datatype Resolved = Inside(path: Path) | InvalidPath

  /** On Windows the first component of the root is its drive, and a path that begins with one separator is not
      absolute: joined to the root it replaces all but the drive. */
  function Joined(root: Path, path: string, windows: bool): Path {
    (if FromRoot(path, windows) && root != [] then root[..1] else root) + Components(path, windows)
  }

  function Resolve(root: Path, path: string, allowRoot: bool, windows: bool): Resolved {
    if path == "" then (if allowRoot then Inside(root) else InvalidPath)
    else if FromRoot(path, windows) && (!windows || Network(path)) then InvalidPath
    else if exists i :: 0 <= i < |Components(path, windows)| && !ValidComponent(Components(path, windows)[i])
      then InvalidPath
    else if root <= Joined(root, path, windows) then Inside(Joined(root, path, windows))
    else InvalidPath
  }

  /** The path spells out the root itself, from the drive. */
  predicate NamesRoot(root: Path, path: string, windows: bool) {
    path != "" && FromRoot(path, windows) && root == Joined(root, path, windows)
  }

  /** Whatever is requested, a resolved path is inside the root; it is below it exactly unless the root was asked for,
      by nothing or, on Windows, by its own name from the drive. A path that is not from the root is never refused
      after the checks of its components. No component steps up, stays or separates. */
  lemma ResolvedInside(root: Path, path: string, allowRoot: bool, windows: bool)
    requires Resolve(root, path, allowRoot, windows).Inside?
    ensures var r := Resolve(root, path, allowRoot, windows).path;
      root <= r && (r == root <==> path == "" || NamesRoot(root, path, windows))
      && (!FromRoot(path, windows) && path != "" ==> r == root + Components(path, windows))
    ensures forall c :: c in Components(path, windows) && path != "" ==>
      c !in ["", ".", ".."] && '/' !in c && (windows ==> '\\' !in c)
  {
    if path != "" {
      if !FromRoot(path, windows) { SomeComponent(path, windows); }
      forall c | c in Components(path, windows)
        ensures c !in ["", ".", ".."] && '/' !in c && (windows ==> '\\' !in c)
      {
        ComponentSeparatesNot(path, windows, c);
        var i :| 0 <= i < |Components(path, windows)| && Components(path, windows)[i] == c;
        assert ValidComponent(Components(path, windows)[i]);
      }
    }
  }

  /** Where the root is not allowed it is reached exactly on Windows, by a path from the drive that is no network or
      device name and spells out the root, in components that are all valid. */
  lemma RootReached(root: Path, path: string, windows: bool)
    ensures Resolve(root, path, false, windows) == Inside(root) <==>
      path != "" && windows && FromRoot(path, true) && !Network(path)
      && (forall c :: c in Components(path, true) ==> ValidComponent(c))
      && Components(path, true) == (if root == [] then [] else root[1..])
  {
    if path != "" && windows && FromRoot(path, true) && !Network(path) {
      DriveJoined(root, path);
    } else if path != "" && !FromRoot(path, windows) {
      SomeComponent(path, windows);
      assert |Joined(root, path, windows)| > |root|;
    }
  }

  lemma DriveJoined(root: Path, path: string)
    requires FromRoot(path, true)
    ensures Joined(root, path, true) == root <==> Components(path, true) == if root == [] then [] else root[1..]
  {
    if root != [] { assert root == root[..1] + root[1..]; }
  }

  /** The root's own name from the drive. */
  lemma RootByName()
    ensures Resolve(["C:", "Files"], "/Files", false, true) == Inside(["C:", "Files"])
  {
    NamesFiles();
    assert "/" + "Files" == "/Files";
    DriveName("Files");
    RootReached(["C:", "Files"], "/Files", true);
  }

  lemma DriveName(name: string)
    requires name != "" && '/' !in name && '\\' !in name
    ensures FromRoot("/" + name, true) && !Network("/" + name) && Components("/" + name, true) == [name]
  {
    var text := "/" + name;
    assert Separated(text, true) == text;
    assert text[1] == name[0] && (|text| >= 4 ==> text[3] == name[2]);
    assert IndexOf(text, '/') == 0 && text[..0] == "" && text[1..] == name;
    assert Split(name, '/') == [name];
    assert Split(text, '/') == ["", name];
    NonEmptyPair(name);
  }

  lemma NonEmptyPair(name: string)
    requires name != ""
    ensures ["", name][..1] == [""] && NonEmpty([""]) == [] && NonEmpty(["", name]) == [name]
  {
    assert [""][1..] == [] && [name][1..] == [] && ["", name][1..] == [name];
    assert NonEmpty([]) == [] && NonEmpty([name]) == [name] + NonEmpty([]) == [name];
    assert NonEmpty(["", name]) == [] + NonEmpty([name]) == [name];
  }

  lemma NamesFiles()
    ensures ValidComponent("Files")
  {
    assert Lower("Files") == "files" && IndexOf("files", '.') == 5 && "files"[..5] == "files";
  }

  lemma SomeComponent(path: string, windows: bool)
    requires path != "" && !FromRoot(path, windows)
    ensures Components(path, windows) != []
  {
    var text := Separated(path, windows);
    assert Split(text, '/')[0] == text[..IndexOf(text, '/')] != "";
  }

  lemma ComponentSeparatesNot(path: string, windows: bool, c: string)
    requires c in Components(path, windows)
    ensures '/' !in c && (windows ==> '\\' !in c)
  {
    var text := Separated(path, windows);
    var parts := Split(text, '/');
    JoinSplit(text, '/');
    NonEmptyKeeps(parts[..|parts| - 1]);
    var i :| 0 <= i < |parts| && parts[i] == c;
    SplitPart(text, '/', i);
    SeparatedHas(path, windows);
  }

  lemma SeparatedHas(path: string, windows: bool)
    ensures windows ==> '\\' !in Separated(path, windows)
  {
  }

  /** Each part of a split text consists of characters of the text. */
  lemma {:induction false} SplitPart(s: string, sep: char, i: nat)
    requires i < |Split(s, sep)|
    ensures forall c :: c in Split(s, sep)[i] ==> c in s
  {
    var n := IndexOf(s, sep);
    if n < |s| && i > 0 { SplitPart(s[n + 1..], sep, i - 1); }
  }

  lemma {:induction false} NonEmptyKeeps(parts: Path)
    ensures forall p :: p in NonEmpty(parts) ==> p in parts
  {
    if parts != [] { NonEmptyKeeps(parts[1..]); }
  }

  method ResolveManagedPath(root: Path, path: string, allowRoot: bool, windows: bool) returns (r: Resolved)
    ensures r == Resolve(root, path, allowRoot, windows)
  {
    if path == "" { return if allowRoot then Inside(root) else InvalidPath; }
    if FromRoot(path, windows) && (!windows || Network(path)) { return InvalidPath; }
    var parts := Components(path, windows);
    for i := 0 to |parts|
      invariant forall k :: 0 <= k < i ==> ValidComponent(parts[k])
    {
      if !ValidComponent(parts[i]) { return InvalidPath; }
    }
    var resolved := Joined(root, path, windows);
    var inside := IsPathInside(root, resolved);
    r := if inside then Inside(resolved) else InvalidPath;
  }

  // ---- Everything below a path ----

  /** All paths of a tree that hangs at `path`, itself included. */
  ghost function Paths(path: Path, node: Node): set<Path>
    decreases node, 0
  {
    {path} + (if node.Dir? then PathsOf(path, node.entries) else {})
  }

  ghost function PathsOf(path: Path, entries: seq<Entry>): set<Path>
    decreases entries
  {
    if entries == [] then {} else Paths(path + [entries[0].name], entries[0].node) + PathsOf(path, entries[1..])
  }

  /** The names in a directory are distinct, all the way down. */
  ghost predicate Proper(node: Node)
    decreases node, 0
  {
    node.Dir? ==> ProperEntries(node.entries)
  }

  ghost predicate ProperEntries(entries: seq<Entry>)
    decreases entries
  {
    entries != [] ==>
      Proper(entries[0].node) && ProperEntries(entries[1..])
      && forall i :: 0 < i < |entries| ==> entries[i].name != entries[0].name
  }

  /** A protected path or a link at or below `path`. */
  predicate Blocked(path: Path, node: Node)
    decreases node, 0
  {
    Protected(path) || node.Link? || (node.Dir? && BlockedIn(path, node.entries))
  }

  predicate BlockedIn(path: Path, entries: seq<Entry>)
    decreases entries
  {
    entries != [] && (Blocked(path + [entries[0].name], entries[0].node) || BlockedIn(path, entries[1..]))
  }

  // ---- Collecting a tree for deletion ----

  /** What the walk collects, in its order; nothing when it meets something protected or a link. */
  function Collect(path: Path, node: Node): Option<seq<Path>>
    decreases node, 0
  {
    if Protected(path) || node.Link? then None
    else if node.File? then Some([path])
    else
      var below := CollectAll(path, node.entries);
      if below.None? then None else Some(below.value + [path])
  }

  function CollectAll(path: Path, entries: seq<Entry>): Option<seq<Path>>
    decreases entries
  {
    if entries == [] then Some([]) else
    var first := Collect(path + [entries[0].name], entries[0].node);
    if first.None? then None else
    var rest := CollectAll(path, entries[1..]);
    if rest.None? then None else Some(first.value + rest.value)
  }

  /** The walk is refused exactly when something in the tree is protected or a link. */
  lemma {:induction false} CollectRefuses(path: Path, node: Node)
    ensures Collect(path, node).None? <==> Blocked(path, node)
    decreases node, 0
  {
    if node.Dir? { CollectAllRefuses(path, node.entries); }
  }

  lemma {:induction false} CollectAllRefuses(path: Path, entries: seq<Entry>)
    ensures CollectAll(path, entries).None? <==> BlockedIn(path, entries)
    decreases entries
  {
    if entries != [] {
      CollectRefuses(path + [entries[0].name], entries[0].node);
      CollectAllRefuses(path, entries[1..]);
    }
  }

  ghost function Elements(order: seq<Path>): set<Path> { set p | p in order }

  predicate NoRepeats(order: seq<Path>) { forall i, j :: 0 <= i < j < |order| ==> order[i] != order[j] }

  /** Every path comes after everything below it. */
  predicate ChildrenFirst(order: seq<Path>) { forall i, j :: 0 <= i < j < |order| ==> !(order[i] <= order[j]) }

  /** All collected paths are at or below `path`. */
  lemma {:induction false} PathsBelow(path: Path, node: Node)
    ensures forall p :: p in Paths(path, node) ==> path <= p
    decreases node, 0
  {
    if node.Dir? { PathsOfBelow(path, node.entries); }
  }

  lemma {:induction false} PathsOfBelow(path: Path, entries: seq<Entry>)
    ensures forall p :: p in PathsOf(path, entries) ==>
      path < p && exists i :: 0 <= i < |entries| && p[|path|] == entries[i].name
    decreases entries
  {
    if entries != [] {
      var child := path + [entries[0].name];
      PathsBelow(child, entries[0].node);
      PathsOfBelow(path, entries[1..]);
      forall p | p in PathsOf(path, entries)
        ensures path < p && exists i :: 0 <= i < |entries| && p[|path|] == entries[i].name
      {
        if p in Paths(child, entries[0].node) {
          assert p[|path|] == child[|path|] == entries[0].name;
        } else {
          var i :| 0 <= i < |entries[1..]| && p[|path|] == entries[1..][i].name;
          assert entries[i + 1] == entries[1..][i];
        }
      }
    }
  }

  lemma ElementsOfSum(a: seq<Path>, b: seq<Path>)
    ensures Elements(a + b) == Elements(a) + Elements(b)
  {
  }

  /** The walk collects each path of the tree exactly once, and each after everything below it. */
  lemma {:induction false} CollectsOnceChildrenFirst(path: Path, node: Node)
    requires Proper(node) && Collect(path, node).Some?
    ensures var order := Collect(path, node).value;
      Elements(order) == Paths(path, node) && ChildrenFirst(order)
    decreases node, 0
  {
    if node.Dir? {
      CollectAllOnce(path, node.entries);
      var below := CollectAll(path, node.entries).value;
      PathsOfBelow(path, node.entries);
      ElementsOfSum(below, [path]);
      forall i, j | 0 <= i < j < |below + [path]| ensures !((below + [path])[i] <= (below + [path])[j]) {
        assert below[i] in Elements(below);
      }
    }
  }

  lemma {:induction false} CollectAllOnce(path: Path, entries: seq<Entry>)
    requires ProperEntries(entries) && CollectAll(path, entries).Some?
    ensures var order := CollectAll(path, entries).value;
      Elements(order) == PathsOf(path, entries) && ChildrenFirst(order)
    decreases entries
  {
    if entries != [] {
      var child := path + [entries[0].name];
      CollectsOnceChildrenFirst(child, entries[0].node);
      CollectAllOnce(path, entries[1..]);
      var first, rest := Collect(child, entries[0].node).value, CollectAll(path, entries[1..]).value;
      ElementsOfSum(first, rest);
      forall i, j | 0 <= i < |first| && 0 <= j < |rest| ensures !(first[i] <= rest[j]) {
        SiblingsApart(path, entries, first[i], rest[j]);
      }
      ChildrenFirstSum(first, rest);
    }
  }

  /** Paths below different entries of a directory are not below each other. */
  lemma SiblingsApart(path: Path, entries: seq<Entry>, p: Path, q: Path)
    requires ProperEntries(entries) && entries != []
    requires p in Paths(path + [entries[0].name], entries[0].node) && q in PathsOf(path, entries[1..])
    ensures !(p <= q)
  {
    PathsBelow(path + [entries[0].name], entries[0].node);
    PathsOfBelow(path, entries[1..]);
    assert p[|path|] == (path + [entries[0].name])[|path|];
    var i :| 0 <= i < |entries[1..]| && q[|path|] == entries[1..][i].name;
    assert entries[i + 1] == entries[1..][i];
  }

  lemma ChildrenFirstSum(a: seq<Path>, b: seq<Path>)
    requires ChildrenFirst(a) && ChildrenFirst(b)
    requires forall i, j :: 0 <= i < |a| && 0 <= j < |b| ==> !(a[i] <= b[j])
    ensures ChildrenFirst(a + b)
  {
  }

  /** Children first also means that nothing is repeated. */
  lemma ChildrenFirstOnce(order: seq<Path>)
    requires ChildrenFirst(order)
    ensures NoRepeats(order)
  {
  }
}
