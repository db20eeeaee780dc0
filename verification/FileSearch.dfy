/** Searching below a directory, `search` of BACKEND/adapters/filesystem_file_store.cpp: the traversal that
    leaves out protected directories finds what filtering everything would find. */
module FileSearch {
  import opened Ascii
  import opened Concat
  import opened FileGuards
  import opened FileTree
  import opened Lines
  import opened Ordering

  datatype Visit = Visit(path: Path, node: Node)

  /** Everything below a directory, a directory before what is in it. */
  function Everything(path: Path, entries: seq<Entry>): seq<Visit>
    decreases entries
  {
    if entries == [] then [] else
    var child := path + [entries[0].name];
    [Visit(child, entries[0].node)]
    + ((if entries[0].node.Dir? then Everything(child, entries[0].node.entries) else [])
        + Everything(path, entries[1..]))
  }

  /** Everything is everything: exactly the paths of the tree below. */
  lemma {:induction false} EverythingIsThere(path: Path, entries: seq<Entry>, p: Path)
    ensures (exists v :: v in Everything(path, entries) && v.path == p) <==> p in PathsOf(path, entries)
    decreases entries
  {
    if entries != [] {
      var child, node := path + [entries[0].name], entries[0].node;
      var inside := if node.Dir? then Everything(child, node.entries) else [];
      var rest := Everything(path, entries[1..]);
      if node.Dir? { EverythingIsThere(child, node.entries, p); }
      EverythingIsThere(path, entries[1..], p);
      assert Everything(path, entries) == [Visit(child, node)] + (inside + rest);
      assert forall v :: v in Everything(path, entries) <==> v == Visit(child, node) || v in inside || v in rest;
      assert Visit(child, node).path == child;
    }
  }

  /** The last name contains the query, in lower case; an empty path has none. */
  predicate Matches(path: Path, query: string) { path != [] && Contains(Lower(path[|path| - 1]), Lower(query)) }

  /** What the documented filter keeps. */
  predicate Shown(v: Visit, query: string) { !Protected(v.path) && !v.node.Link? && Matches(v.path, query) }

  function Filter(vs: seq<Visit>, query: string): seq<Visit> {
    if vs == [] then [] else (if Shown(vs[0], query) then [vs[0]] else []) + Filter(vs[1..], query)
  }

  /** The traversal does not enter these. */
  predicate Skipped(v: Visit) {
    v.path == [] || v.path[|v.path| - 1] == "temp" || v.node.Link? || Protected(v.path)
  }

  function Own(v: Visit, query: string): seq<Visit> {
    if !Skipped(v) && Matches(v.path, query) then [v] else []
  }

  function Search(path: Path, entries: seq<Entry>, query: string): seq<Visit>
    decreases entries
  {
    if entries == [] then [] else
    var v := Visit(path + [entries[0].name], entries[0].node);
    Own(v, query)
    + ((if v.node.Dir? && !Skipped(v) then Search(v.path, v.node.entries, query) else [])
        + Search(path, entries[1..], query))
  }

  lemma {:induction false} FilterSum(a: seq<Visit>, b: seq<Visit>, query: string)
    ensures Filter(a + b, query) == Filter(a, query) + Filter(b, query)
  {
    if a == [] {
      assert a + b == b;
    } else {
      FilterSum(a[1..], b, query);
      Tail(a[0], a[1..], b);
      Uncons(a);
      Assoc(if Shown(a[0], query) then [a[0]] else [], Filter(a[1..], query), Filter(b, query));
    }
  }

  /** Below a protected directory everything is protected. */
  lemma {:induction false} NothingShownBelow(path: Path, entries: seq<Entry>, query: string)
    requires Protected(path)
    ensures Filter(Everything(path, entries), query) == []
    decreases entries
  {
    if entries != [] {
      var child, node := path + [entries[0].name], entries[0].node;
      ProtectedStep(path, entries[0].name);
      if node.Dir? { NothingShownBelow(child, node.entries, query); }
      NothingShownBelow(path, entries[1..], query);
      var inside := if node.Dir? then Everything(child, node.entries) else [];
      FilterSum(inside, Everything(path, entries[1..]), query);
      assert Filter([], query) == [];
    }
  }

  lemma TempIsProtected(path: Path)
    requires path != [] && path[|path| - 1] == "temp"
    ensures Protected(path)
  {
    assert Lower("temp") == "temp";
    assert ProtectedName(path[|path| - 1]);
  }

  /** Leaving out what is protected or a link, and all below it, finds exactly the matching entries that are
      neither, in the order of the traversal. */
  lemma {:induction false} SearchIsFilter(path: Path, entries: seq<Entry>, query: string)
    ensures Search(path, entries, query) == Filter(Everything(path, entries), query)
    decreases entries
  {
    if entries != [] {
      var v := Visit(path + [entries[0].name], entries[0].node);
      if v.path[|v.path| - 1] == "temp" { TempIsProtected(v.path); }
      if v.node.Dir? {
        if Protected(v.path) { NothingShownBelow(v.path, v.node.entries, query); }
        SearchIsFilter(v.path, v.node.entries, query);
      }
      SearchIsFilter(path, entries[1..], query);
      var inside := if v.node.Dir? then Everything(v.path, v.node.entries) else [];
      FilterSum(inside, Everything(path, entries[1..]), query);
      FilterFirst(v, inside + Everything(path, entries[1..]), query);
    }
  }

  lemma FilterFirst(v: Visit, vs: seq<Visit>, query: string)
    ensures Filter([v] + vs, query) == (if Shown(v, query) then [v] else []) + Filter(vs, query)
    ensures Filter([], query) == []
  {
    assert ([v] + vs)[1..] == vs;
  }

  // ---- The iterator ----

  function Visits(path: Path, entries: seq<Entry>): (r: seq<Visit>)
    ensures |r| == |entries|
  {
    if entries == [] then [] else [Visit(path + [entries[0].name], entries[0].node)] + Visits(path, entries[1..])
  }

  /** What the traversal still finds when these are to come. */
  function Found(pending: seq<Visit>, query: string): seq<Visit> {
    if pending == [] then [] else
    Own(pending[0], query) + (Inside(pending[0], query) + Found(pending[1..], query))
  }

  function Inside(v: Visit, query: string): seq<Visit> {
    if v.node.Dir? && !Skipped(v) then Search(v.path, v.node.entries, query) else []
  }

  lemma {:induction false} FoundIsSearch(path: Path, entries: seq<Entry>, query: string)
    ensures Found(Visits(path, entries), query) == Search(path, entries, query)
    decreases entries
  {
    if entries != [] { FoundIsSearch(path, entries[1..], query); }
  }

  lemma {:induction false} FoundSum(a: seq<Visit>, b: seq<Visit>, query: string)
    ensures Found(a + b, query) == Found(a, query) + Found(b, query)
  {
    if a == [] {
      assert a + b == b;
    } else {
      FoundSum(a[1..], b, query);
      Tail(a[0], a[1..], b);
      Uncons(a);
      Assoc(Inside(a[0], query), Found(a[1..], query), Found(b, query));
      Assoc(Own(a[0], query), Inside(a[0], query) + Found(a[1..], query), Found(b, query));
    }
  }

  ghost function Size(node: Node): nat
    decreases node, 0
  {
    1 + if node.Dir? then SizeOf(node.entries) else 0
  }

  ghost function SizeOf(entries: seq<Entry>): nat
    decreases entries
  {
    if entries == [] then 0 else Size(entries[0].node) + SizeOf(entries[1..])
  }

  ghost function Pending(vs: seq<Visit>): nat { if vs == [] then 0 else Size(vs[0].node) + Pending(vs[1..]) }

  lemma {:induction false} PendingSum(a: seq<Visit>, b: seq<Visit>)
    ensures Pending(a + b) == Pending(a) + Pending(b)
  {
    if a == [] {
      assert a + b == b;
    } else {
      PendingSum(a[1..], b);
      assert (a + b)[1..] == a[1..] + b;
    }
  }

  lemma {:induction false} PendingVisits(path: Path, entries: seq<Entry>)
    ensures Pending(Visits(path, entries)) == SizeOf(entries)
    decreases entries
  {
    if entries != [] { PendingVisits(path, entries[1..]); }
  }

  /** The loop over the recursive iterator; `pending` is what the iterator still holds. */
  method SearchLoop(path: Path, entries: seq<Entry>, query: string) returns (results: seq<Visit>)
    ensures results == Filter(Everything(path, entries), query)
  {
    results := [];
    var pending := Visits(path, entries);
    FoundIsSearch(path, entries, query);
    SearchIsFilter(path, entries, query);
    while pending != []
      invariant results + Found(pending, query) == Filter(Everything(path, entries), query)
      decreases Pending(pending)
    {
      var v, rest := pending[0], pending[1..];
      Assoc(results, Own(v, query), Inside(v, query) + Found(rest, query));
      results := results + Own(v, query);
      pending := Advance(v, rest, query);
    }
    assert results + [] == results;
  }

  /** The increment of the iterator: it goes into a directory unless that was disabled. */
  method Advance(v: Visit, rest: seq<Visit>, ghost query: string) returns (pending: seq<Visit>)
    ensures Found(pending, query) == Inside(v, query) + Found(rest, query)
    ensures Pending(pending) < Size(v.node) + Pending(rest)
  {
    pending := rest;
    if v.node.Dir? && !Skipped(v) {
      FoundIsSearch(v.path, v.node.entries, query);
      FoundSum(Visits(v.path, v.node.entries), rest, query);
      PendingVisits(v.path, v.node.entries);
      PendingSum(Visits(v.path, v.node.entries), rest);
      pending := Visits(v.path, v.node.entries) + rest;
    } else {
      assert [] + Found(rest, query) == Found(rest, query);
    }
  }

  // ---- The order of the results ----

  function PathText(path: Path): string { Join(path, '/') }

  /** Without regard to case first. */
  predicate Before(a: Path, b: Path) {
    var x, y := Lower(PathText(a)), Lower(PathText(b));
    Less(x, y) || (x == y && Less(PathText(a), PathText(b)))
  }

  ghost predicate Ordered(vs: seq<Visit>) {
    forall i, j :: 0 <= i < j < |vs| ==> !Before(vs[j].path, vs[i].path)
  }

  lemma BeforeTransitive(a: Path, b: Path, c: Path)
    requires !Before(b, a) && !Before(c, b)
    ensures !Before(c, a)
  {
    var x, y, z := Lower(PathText(a)), Lower(PathText(b)), Lower(PathText(c));
    LessTotal(x, y);
    LessTotal(y, z);
    LessIrreflexive(x);
    LessIrreflexive(z);
    if Less(x, y) && Less(y, z) { LessTransitive(x, y, z); }
    if Less(z, x) && Less(x, y) { LessTransitive(z, x, y); }
    if Less(y, z) && Less(z, x) { LessTransitive(y, z, x); }
    if x == y == z { TextTransitive(PathText(a), PathText(b), PathText(c)); }
  }

  lemma TextTransitive(a: string, b: string, c: string)
    requires !Less(b, a) && !Less(c, b)
    ensures !Less(c, a)
  {
    LessTotal(a, b);
    LessTotal(b, c);
    if Less(c, a) && Less(a, b) { LessTransitive(c, a, b); }
    if Less(b, c) && Less(c, a) { LessTransitive(b, c, a); }
  }

  /** A place for one more result. */
  method Place(vs: seq<Visit>, v: Visit) returns (r: seq<Visit>)
    requires Ordered(vs)
    ensures Ordered(r) && multiset(r) == multiset(vs) + multiset{v}
  {
    var i := 0;
    while i < |vs| && !Before(v.path, vs[i].path)
      invariant 0 <= i <= |vs| && forall k :: 0 <= k < i ==> !Before(v.path, vs[k].path)
    {
      i := i + 1;
    }
    r := vs[..i] + [v] + vs[i..];
    assert vs == vs[..i] + vs[i..];
    forall k | i <= k < |vs| ensures !Before(vs[k].path, v.path) {
      Asymmetric(v.path, vs[i].path);
      if k > i { BeforeTransitive(v.path, vs[i].path, vs[k].path); }
    }
  }

  lemma Asymmetric(a: Path, b: Path)
    ensures Before(a, b) ==> !Before(b, a)
  {
    var x, y := Lower(PathText(a)), Lower(PathText(b));
    LessIrreflexive(x);
    LessIrreflexive(PathText(a));
    if Less(x, y) && Less(y, x) { LessTransitive(x, y, x); }
    if Less(PathText(a), PathText(b)) && Less(PathText(b), PathText(a)) {
      LessTransitive(PathText(a), PathText(b), PathText(a));
    }
  }

  /** The last name has the query in it, in any case. */
  ghost predicate Named(path: Path, query: string) {
    path != [] && exists a, b, c :: path[|path| - 1] == a + b + c && Lower(b) == Lower(query)
  }

  lemma MatchesNamed(path: Path, query: string)
    ensures Matches(path, query) <==> Named(path, query)
  {
    if path != [] {
      var name := path[|path| - 1];
      if Matches(path, query) {
        var i: nat :| i <= |Lower(name)| && PartAt(Lower(name), Lower(query), i);
        LowerPart(name, i, |query|);
        assert name == name[..i] + name[i..i + |query|] + name[i + |query|..];
      }
      forall a, b, c | name == a + b + c && Lower(b) == Lower(query) ensures Matches(path, query) {
        LowerPart(name, |a|, |b|);
        assert name[|a|..|a| + |b|] == b;
        assert PartAt(Lower(name), Lower(query), |a|);
      }
    }
  }

  lemma LowerPart(s: string, i: nat, n: nat)
    requires i + n <= |s|
    ensures Lower(s[i..i + n]) == Lower(s)[i..i + n]
  {
  }

  lemma {:induction false} FilterMembers(vs: seq<Visit>, query: string)
    ensures forall v :: v in Filter(vs, query) <==> v in vs && Shown(v, query)
  {
    if vs != [] {
      FilterMembers(vs[1..], query);
      assert vs == [vs[0]] + vs[1..];
    }
  }

  /** What is shown: neither a link nor guarded, and named by the query. */
  lemma ShownExactly(v: Visit, query: string)
    ensures Shown(v, query) <==> !GuardedPath(v.path) && !v.node.Link? && Named(v.path, query)
  {
    ProtectedPathExactly(v.path);
    MatchesNamed(v.path, query);
  }

  /** Sorted by the path without regard to case, and where that is the same by the path itself. */
  lemma OrderedMeans(vs: seq<Visit>, i: nat, j: nat)
    requires Ordered(vs) && i < j < |vs|
    ensures var (p, q) := (PathText(vs[i].path), PathText(vs[j].path));
      Less(Lower(p), Lower(q)) || (Lower(p) == Lower(q) && (p == q || Less(p, q)))
  {
    var (p, q) := (PathText(vs[i].path), PathText(vs[j].path));
    LessTotal(Lower(p), Lower(q));
    LessTotal(p, q);
  }

  /** The whole search: exactly the entries below that are named by the query and neither links nor guarded, as
      often as they are found, in the order of their paths. */
  method SearchSorted(path: Path, entries: seq<Entry>, query: string) returns (results: seq<Visit>)
    ensures Ordered(results) && multiset(results) == multiset(Filter(Everything(path, entries), query))
    ensures forall v :: v in results <==>
      v in Everything(path, entries) && !GuardedPath(v.path) && !v.node.Link? && Named(v.path, query)
  {
    FilterMembers(Everything(path, entries), query);
    var found := SearchLoop(path, entries, query);
    results := [];
    for i := 0 to |found|
      invariant Ordered(results) && multiset(results) == multiset(found[..i])
    {
      assert found[..i + 1] == found[..i] + [found[i]];
      results := Place(results, found[i]);
    }
    assert found[..|found|] == found;
    forall v
      ensures v in results <==>
        v in Everything(path, entries) && !GuardedPath(v.path) && !v.node.Link? && Named(v.path, query)
    {
      ShownExactly(v, query);
      assert v in results <==> v in multiset(results);
      assert v in found <==> v in multiset(found);
    }
  }
}
