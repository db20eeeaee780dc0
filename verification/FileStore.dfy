/** Removing directories and searching in the managed tree, `removeDirectory` and `search` of
    BACKEND/adapters/filesystem_file_store.cpp. */
module FileStore {
  import opened FileGuards
  import opened FileTree
  import opened Wrappers

  datatype Outcome = Removed | PermissionDenied | Conflict | StorageError

  /** Every file is in a directory that is still there. */
  ghost predicate Rooted(paths: set<Path>) { forall p :: p in paths && p != [] ==> p[..|p| - 1] in paths }

  ghost function At(paths: set<Path>, path: Path): set<Path> { set p | p in paths && path <= p }

  lemma NotInPrefix(order: seq<Path>, k: nat, p: Path) returns (j: nat)
    requires k <= |order| && p in Elements(order) && p !in Elements(order[..k])
    ensures k <= j < |order| && order[j] == p
  {
    forall i | 0 <= i < k ensures order[i] in Elements(order[..k]) { assert order[..k][i] == order[i]; }
    j :| 0 <= j < |order| && order[j] == p;
  }

  /** When the first `k` paths of a children-first order of the tree at `path` are gone, nothing is left below
      the next one. */
  lemma NextIsEmpty(paths: set<Path>, path: Path, order: seq<Path>, k: nat)
    requires ChildrenFirst(order) && Elements(order) == At(paths, path) && k < |order|
    ensures forall p :: p in paths - Elements(order[..k]) ==> !(order[k] < p)
  {
    assert order[k] in Elements(order);
    forall p | p in paths - Elements(order[..k]) ensures !(order[k] < p) {
      if p in Elements(order) { var j := NotInPrefix(order, k, p); } else { assert !(path <= p); }
    }
  }

  /** And no path has lost its directory. */
  lemma PrefixLeavesTree(paths: set<Path>, path: Path, order: seq<Path>, k: nat)
    requires ChildrenFirst(order) && Elements(order) == At(paths, path) && k <= |order| && Rooted(paths)
    ensures Rooted(paths - Elements(order[..k]))
  {
    forall p | p in paths - Elements(order[..k]) && p != [] ensures p[..|p| - 1] in paths - Elements(order[..k]) {
      var parent := p[..|p| - 1];
      forall i | 0 <= i < k ensures order[i] != parent {
        assert order[i] in Elements(order);
        if p in Elements(order) { var j := NotInPrefix(order, k, p); } else { assert !(path <= p); }
      }
      assert parent !in Elements(order[..k]);
    }
  }

  class Store {
    /** The paths that exist, relative to the root. */
    var paths: set<Path>

    /** `std::filesystem::remove`: a directory must be empty. */
    method Remove(target: Path, fails: bool) returns (ok: bool)
      modifies this
      ensures ok == (!fails && forall p :: p in old(paths) ==> !(target < p))
      ensures paths == if ok then old(paths) - {target} else old(paths)
    {
      ok := !fails && forall p :: p in paths ==> !(target < p);
      if ok { paths := paths - {target}; }
    }

    /** The recursive lambda: it stops at the first protected path or link. */
    method CollectTree(path: Path, node: Node, order: seq<Path>) returns (ok: bool, after: seq<Path>)
      ensures ok == Collect(path, node).Some?
      ensures ok ==> after == order + Collect(path, node).value
      decreases node
    {
      after := order;
      if Protected(path) || node.Link? { return false, order; }
      if node.Dir? {
        var i := 0;
        ghost var done := [];
        ThenNothing(CollectAll(path, node.entries));
        while i < |node.entries|
          invariant 0 <= i <= |node.entries| && after == order + done
          invariant CollectAll(path, node.entries) == Then(done, CollectAll(path, node.entries[i..]))
        {
          var entry := node.entries[i];
          var child := path + [entry.name];
          CollectNext(path, node.entries, i, done);
          ok, after := CollectTree(child, entry.node, after);
          if !ok { return; }
          done := done + Collect(child, entry.node).value;
          i := i + 1;
        }
        assert done + [] == done;
      }
      after := after + [path];
      ok := true;
    }

    /** `dir` is what the walk finds at `at`, and `fails` says which removals the disk refuses. A guarded name
        or a link anywhere stops everything before the first removal; otherwise only the disk can stop it, the
        tree is removed up to there, and what is left is still a tree. */
    method RemoveDirectory(at: Path, dir: Node, recursive: bool, fails: nat -> bool) returns (r: Outcome)
      requires dir.Dir? && Proper(dir) && Paths(at, dir) == At(paths, at)
      modifies this
      ensures r == PermissionDenied <==>
        GuardedPath(at) || (recursive && (HasGuarded(at, dir) || HasLink(dir)))
      ensures Protected(at) ==> r == PermissionDenied
      ensures recursive && Blocked(at, dir) ==> r == PermissionDenied
      ensures r == PermissionDenied || r == Conflict ==> paths == old(paths)
      ensures r == PermissionDenied ==> Protected(at) || (recursive && Blocked(at, dir))
      ensures r == Conflict <==> !Protected(at) && !recursive && dir.entries != []
      ensures r == Removed ==> paths == old(paths) - At(old(paths), at)
      ensures recursive && !HasGuarded(at, dir) && !HasLink(dir) && (forall i :: !fails(i)) ==> r == Removed
      ensures recursive && Collect(at, dir).Some? ==>
        var order := Collect(at, dir).value;
        if forall i :: 0 <= i < |order| ==> !fails(i) then r == Removed
        else exists k :: 0 <= k < |order| && fails(k) && r == StorageError && paths == old(paths) - Elements(order[..k])
      ensures old(Rooted(paths)) ==> Rooted(paths)
    {
      ProtectedPathExactly(at);
      BlockedExactly(at, dir);
      if Protected(at) { return PermissionDenied; }
      if !recursive {
        if dir.entries != [] { return Conflict; }
        assert Paths(at, dir) == {at};
        assert At(paths, at) == {at};
        if Rooted(paths) { PrefixLeavesTree(paths, at, [at], 1); }
        assert [at][..1] == [at] && Elements([at]) == {at};
        assert forall p :: p in paths && at <= p ==> p in At(paths, at);
        var done := Remove(at, fails(0));
        return if done then Removed else StorageError;
      }
      CollectRefuses(at, dir);
      var ok, order := CollectTree(at, dir, []);
      if !ok { return PermissionDenied; }
      assert order == Collect(at, dir).value;
      CollectsOnceChildrenFirst(at, dir);
      r := RemoveAll(at, order, fails);
    }

    /** The removal loop: no directory is removed before it is empty. */
    method RemoveAll(at: Path, order: seq<Path>, fails: nat -> bool) returns (r: Outcome)
      requires ChildrenFirst(order) && Elements(order) == At(paths, at)
      modifies this
      ensures r == Removed || r == StorageError
      ensures r == Removed <==> forall i :: 0 <= i < |order| ==> !fails(i)
      ensures r == Removed ==> paths == old(paths) - At(old(paths), at)
      ensures r == StorageError ==>
        exists k :: 0 <= k < |order| && fails(k) && paths == old(paths) - Elements(order[..k])
      ensures old(Rooted(paths)) ==> Rooted(paths)
    {
      ghost var before := paths;
      for i := 0 to |order|
        invariant paths == before - Elements(order[..i]) && forall k :: 0 <= k < i ==> !fails(k)
      {
        NextIsEmpty(before, at, order, i);
        OneMore(before, order, i);
        var ok := Remove(order[i], fails(i));
        if !ok {
          if Rooted(before) { PrefixLeavesTree(before, at, order, i); }
          return StorageError;
        }
      }
      if Rooted(before) { PrefixLeavesTree(before, at, order, |order|); }
      assert order[..|order|] == order;
      r := Removed;
    }
  }

  lemma OneMore(paths: set<Path>, order: seq<Path>, i: nat)
    requires i < |order|
    ensures paths - Elements(order[..i]) - {order[i]} == paths - Elements(order[..i + 1])
  {
    assert order[..i + 1] == order[..i] + [order[i]];
    ElementsOfSum(order[..i], [order[i]]);
    assert Elements([order[i]]) == {order[i]};
  }

  lemma CollectNext(path: Path, entries: seq<Entry>, i: nat, done: seq<Path>)
    requires i < |entries|
    ensures var first := Collect(path + [entries[i].name], entries[i].node);
      Then(done, CollectAll(path, entries[i..])) ==
        if first.None? then None else Then(done + first.value, CollectAll(path, entries[i + 1..]))
  {
    assert entries[i..][1..] == entries[i + 1..] && entries[i..][0] == entries[i];
    var first, rest := Collect(path + [entries[i].name], entries[i].node), CollectAll(path, entries[i + 1..]);
    if first.Some? && rest.Some? { assert done + (first.value + rest.value) == done + first.value + rest.value; }
  }
}
