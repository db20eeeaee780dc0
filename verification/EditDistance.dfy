/** The suggestion engine of APP/shell/command.cpp: a bounded edit distance by a two-row dynamic
    program with an early exit, and the scan that uses it. */
module EditDistance {
  import opened Numbers

  /** The cheapest of deleting, inserting, and keeping or replacing the last character. */
  function Best(deleting: nat, inserting: nat, replacing: nat, same: bool): (d: nat)
    ensures d <= deleting + 1 && d <= inserting + 1 && d <= replacing + (if same then 0 else 1)
    ensures d == deleting + 1 || d == inserting + 1 || d == replacing + (if same then 0 else 1)
  {
    Min(Min(deleting + 1, inserting + 1), replacing + if same then 0 else 1)
  }

  function Last(s: string): char
    requires s != ""
  {
    s[|s| - 1]
  }

  function Init(s: string): string
    requires s != ""
  {
    s[..|s| - 1]
  }

  // ---- What the distance means ----

  /** One insertion, deletion or substitution of a character. */
  ghost predicate OneEdit(s: string, t: string) {
    || (exists i :: 0 <= i < |s| && t == Deleted(s, i))
    || (exists i :: 0 <= i < |t| && s == Deleted(t, i))
    || (exists i :: 0 <= i < |s| == |t| && t == s[i := t[i]])
  }

  function Deleted(s: string, i: nat): string
    requires i < |s|
  {
    s[..i] + s[i + 1..]
  }

  /** `steps` leads from `s` to `t` by one edit at a time. */
  ghost predicate EditPath(s: string, t: string, steps: seq<string>) {
    && steps != [] && steps[0] == s && steps[|steps| - 1] == t
    && forall i :: 0 < i < |steps| ==> OneEdit(steps[i - 1], steps[i])
  }

  /** The recurrence of the dynamic program, on whole strings. */
  function Distance(s: string, t: string): (d: nat)
    ensures |s| - |t| <= d && |t| - |s| <= d
    decreases |s| + |t|
  {
    if s == "" then |t|
    else if t == "" then |s|
    else
      Best(Distance(Init(s), t), Distance(s, Init(t)), Distance(Init(s), Init(t)), Last(s) == Last(t))
  }

  lemma {:induction false} DistanceToSelf(s: string)
    ensures Distance(s, s) == 0
  {
    if s != "" { DistanceToSelf(Init(s)); }
  }

  lemma {:induction false} DistanceZero(s: string, t: string)
    ensures Distance(s, t) == 0 <==> s == t
    decreases |s| + |t|
  {
    if s == t { DistanceToSelf(s); }
    if Distance(s, t) == 0 && s != "" {
      DistanceZero(Init(s), Init(t));
      assert s == Init(s) + [Last(s)] && t == Init(t) + [Last(t)];
    }
  }

  /** One character more or less at the end of the left string changes the distance by at most one. */
  lemma {:induction false} DropLast(s: string, t: string)
    requires s != ""
    ensures Distance(Init(s), t) <= Distance(s, t) + 1
    ensures Distance(s, t) <= Distance(Init(s), t) + 1
    decreases |t|
  {
    if t != "" {
      DropLast(s, Init(t));
      AppendRight(Init(s), t);
    }
  }

  lemma AppendRight(s: string, t: string)
    requires t != ""
    ensures Distance(s, t) <= Distance(s, Init(t)) + 1
  {
  }

  /** A single edit changes the distance to any string by at most one: the edit at its end... */
  lemma EditAtEnd(s: string, u: string, t: string)
    requires s != "" && u != "" && Init(s) == Init(u)
    ensures Distance(s, t) <= Distance(u, t) + 1
    decreases |t|
  {
    if t != "" {
      EditAtEnd(s, u, Init(t));
    }
  }

  /** ... or before it. */
  lemma {:induction false} SameEnd(s: string, u: string, t: string)
    requires s != "" && u != "" && Last(s) == Last(u)
    requires forall k :: 0 <= k <= |t| ==> Distance(Init(s), t[..k]) <= Distance(Init(u), t[..k]) + 1
    ensures Distance(s, t) <= Distance(u, t) + 1
    decreases |t|
  {
    assert t[..|t|] == t;
    if t != "" {
      assert Init(t) == t[..|t| - 1];
      forall k | 0 <= k <= |Init(t)| ensures Distance(Init(s), Init(t)[..k]) <= Distance(Init(u), Init(t)[..k]) + 1 {
        assert Init(t)[..k] == t[..k];
      }
      SameEnd(s, u, Init(t));
    }
  }

  lemma {:induction false} DeletionStep(s: string, i: nat, t: string)
    requires i < |s|
    ensures Distance(s, t) <= Distance(Deleted(s, i), t) + 1
    ensures Distance(Deleted(s, i), t) <= Distance(s, t) + 1
    decreases |s|
  {
    if i == |s| - 1 {
      assert Deleted(s, i) == Init(s);
      DropLast(s, t);
    } else {
      var u := Deleted(s, i);
      assert Init(u) == Deleted(Init(s), i) && Last(u) == Last(s);
      forall k | 0 <= k <= |t|
        ensures Distance(Init(s), t[..k]) <= Distance(Init(u), t[..k]) + 1
        ensures Distance(Init(u), t[..k]) <= Distance(Init(s), t[..k]) + 1
      {
        DeletionStep(Init(s), i, t[..k]);
      }
      SameEnd(s, u, t);
      SameEnd(u, s, t);
    }
  }

  lemma {:induction false} SubstitutionStep(s: string, i: nat, c: char, t: string)
    requires i < |s|
    ensures Distance(s, t) <= Distance(s[i := c], t) + 1
    decreases |s|
  {
    var u := s[i := c];
    if i == |s| - 1 {
      assert Init(u) == Init(s);
      EditAtEnd(s, u, t);
    } else {
      assert Init(u) == Init(s)[i := c] && Last(u) == Last(s);
      forall k | 0 <= k <= |t| ensures Distance(Init(s), t[..k]) <= Distance(Init(u), t[..k]) + 1 {
        SubstitutionStep(Init(s), i, c, t[..k]);
      }
      SameEnd(s, u, t);
    }
  }

  lemma OneEditStep(s: string, u: string, t: string)
    requires OneEdit(s, u)
    ensures Distance(s, t) <= Distance(u, t) + 1
  {
    if i :| 0 <= i < |s| && u == Deleted(s, i) {
      DeletionStep(s, i, t);
    } else if i :| 0 <= i < |u| && s == Deleted(u, i) {
      DeletionStep(u, i, t);
    } else {
      var i :| 0 <= i < |s| == |u| && u == s[i := u[i]];
      SubstitutionStep(s, i, u[i], t);
    }
  }

  /** No way of editing `s` into `t` is shorter than the distance. */
  lemma {:induction false} DistanceIsLeast(s: string, t: string, steps: seq<string>)
    requires EditPath(s, t, steps)
    ensures Distance(s, t) <= |steps| - 1
    decreases |steps|
  {
    if |steps| == 1 {
      DistanceToSelf(s);
    } else {
      assert OneEdit(steps[0], steps[1]);
      OneEditStep(s, steps[1], t);
      DistanceIsLeast(steps[1], t, steps[1..]);
    }
  }

  /** Editing under a common last character. */
  lemma WithLast(s: string, t: string, c: char, steps: seq<string>) returns (longer: seq<string>)
    requires EditPath(s, t, steps)
    ensures EditPath(s + [c], t + [c], longer) && |longer| == |steps|
  {
    longer := seq(|steps|, i requires 0 <= i < |steps| => steps[i] + [c]);
    forall i | 0 < i < |longer| ensures OneEdit(longer[i - 1], longer[i]) {
      OneEditWithLast(steps[i - 1], steps[i], c);
    }
  }

  lemma OneEditWithLast(s: string, t: string, c: char)
    requires OneEdit(s, t)
    ensures OneEdit(s + [c], t + [c])
  {
    if i :| 0 <= i < |s| && t == Deleted(s, i) {
      assert t + [c] == Deleted(s + [c], i);
    } else if i :| 0 <= i < |t| && s == Deleted(t, i) {
      assert s + [c] == Deleted(t + [c], i);
    } else {
      var i :| 0 <= i < |s| == |t| && t == s[i := t[i]];
      assert t + [c] == (s + [c])[i := (t + [c])[i]];
    }
  }

  lemma ThenInsertLast(s: string, t: string, steps: seq<string>)
    requires t != "" && EditPath(s, Init(t), steps)
    ensures EditPath(s, t, steps + [t])
  {
    assert Init(t) == Deleted(t, |t| - 1);
    assert OneEdit(Init(t), t);
  }

  lemma FirstDeleteLast(s: string, t: string, steps: seq<string>)
    requires s != "" && EditPath(Init(s), t, steps)
    ensures EditPath(s, t, [s] + steps)
  {
    assert Init(s) == Deleted(s, |s| - 1);
    assert OneEdit(s, Init(s));
  }

  lemma FirstSubstituteLast(s: string, c: char, t: string, steps: seq<string>)
    requires s != "" && EditPath(Init(s) + [c], t, steps)
    ensures EditPath(s, t, [s] + steps)
  {
    var u := Init(s) + [c];
    assert u == s[|s| - 1 := u[|s| - 1]];
    assert OneEdit(s, u);
  }

  /** There is a way as short as the distance. */
  lemma {:induction false} DistanceIsReached(s: string, t: string) returns (steps: seq<string>)
    ensures EditPath(s, t, steps) && |steps| == Distance(s, t) + 1
    decreases |s| + |t|
  {
    if s == "" && t == "" {
      steps := [s];
    } else if s == "" || (t != "" && Distance(s, t) == Distance(s, Init(t)) + 1) {
      steps := DistanceIsReached(s, Init(t));
      ThenInsertLast(s, t, steps);
      steps := steps + [t];
    } else if t == "" || Distance(s, t) == Distance(Init(s), t) + 1 {
      steps := DistanceIsReached(Init(s), t);
      FirstDeleteLast(s, t, steps);
      steps := [s] + steps;
    } else {
      steps := DistanceIsReached(Init(s), Init(t));
      steps := ThenLast(s, t, steps);
    }
  }

  lemma ThenLast(s: string, t: string, steps: seq<string>) returns (longer: seq<string>)
    requires s != "" && t != "" && EditPath(Init(s), Init(t), steps)
    ensures EditPath(s, t, longer) && |longer| == |steps| + if Last(s) == Last(t) then 0 else 1
  {
    longer := WithLast(Init(s), Init(t), Last(t), steps);
    assert Init(t) + [Last(t)] == t && Init(s) + [Last(s)] == s;
    if Last(s) != Last(t) {
      FirstSubstituteLast(s, Last(t), t, longer);
      longer := [s] + longer;
    }
  }

  // ---- The table, row by row ----

  lemma PrefixInit(s: string, i: nat)
    requires 1 <= i <= |s|
    ensures s[..i] != "" && Init(s[..i]) == s[..i - 1] && Last(s[..i]) == s[i - 1]
  {
  }

  lemma DistanceStep(s: string, t: string, s': string, t': string)
    requires s != "" && t != "" && s' == Init(s) && t' == Init(t)
    ensures Distance(s, t) ==
      Best(Distance(s', t), Distance(s, t'), Distance(s', t'), Last(s) == Last(t))
  {
  }

  lemma PrefixStep(a: string, b: string, i: nat, j: nat)
    requires 1 <= i <= |a| && 1 <= j <= |b|
    ensures Distance(a[..i], b[..j]) ==
      Best(Distance(a[..i - 1], b[..j]), Distance(a[..i], b[..j - 1]),
        Distance(a[..i - 1], b[..j - 1]), a[i - 1] == b[j - 1])
  {
    PrefixInit(a, i);
    PrefixInit(b, j);
    DistanceStep(a[..i], b[..j], a[..i - 1], b[..j - 1]);
  }

  /** `row` follows from the row `above` it and the character `c` that its strings end in. */
  ghost predicate RowFollows(c: char, b: string, i: nat, above: seq<nat>, row: seq<nat>) {
    && |above| == |row| == |b| + 1 && row[0] == i
    && forall j {:trigger b[j]} :: 0 <= j < |b| ==>
      row[j + 1] == Best(above[j + 1], row[j], above[j], c == b[j])
  }

  /** All rows: the first is 0, 1, 2, ...; each later one follows from the one above it. */
  ghost predicate IsTable(a: string, b: string, rows: seq<seq<nat>>) {
    && |rows| == |a| + 1 && rows[0] == seq(|b| + 1, j => j)
    && forall i {:trigger a[i]} :: 0 <= i < |a| ==> RowFollows(a[i], b, i + 1, rows[i], rows[i + 1])
  }

  /** Row `i`: the distances from the first `i` characters of `a` to every start of `b`. */
  ghost function Row(a: string, b: string, i: nat): (row: seq<nat>)
    requires i <= |a|
  {
    seq(|b| + 1, j requires 0 <= j <= |b| => Distance(a[..i], b[..j]))
  }

  lemma RowsFollow(a: string, b: string, i: nat)
    requires i < |a|
    ensures RowFollows(a[i], b, i + 1, Row(a, b, i), Row(a, b, i + 1))
  {
    forall j {:trigger b[j]} | 0 <= j < |b|
      ensures Row(a, b, i + 1)[j + 1] == Best(Row(a, b, i)[j + 1], Row(a, b, i + 1)[j], Row(a, b, i)[j], a[i] == b[j])
    {
      PrefixStep(a, b, i + 1, j + 1);
    }
  }

  /** The distances form the table. */
  lemma DistancesFormTable(a: string, b: string) returns (rows: seq<seq<nat>>)
    ensures IsTable(a, b, rows) && |rows[|a|]| == |b| + 1 && rows[|a|][|b|] == Distance(a, b)
  {
    rows := seq(|a| + 1, i requires 0 <= i <= |a| => Row(a, b, i));
    forall i {:trigger a[i]} | 0 <= i < |a| ensures RowFollows(a[i], b, i + 1, rows[i], rows[i + 1]) {
      RowsFollow(a, b, i);
    }
    FirstRow(a, b);
    assert a[..|a|] == a && b[..|b|] == b;
  }

  lemma FirstRow(a: string, b: string)
    ensures Row(a, b, 0) == seq(|b| + 1, j => j)
  {
  }

  lemma {:induction false} RowAtLeast(c: char, b: string, i: nat, above: seq<nat>, row: seq<nat>, m: nat, j: nat)
    requires RowFollows(c, b, i, above, row) && m <= i && j <= |b|
    requires forall k :: 0 <= k <= |b| ==> m <= above[k]
    ensures m <= row[j]
  {
    if j > 0 {
      RowAtLeast(c, b, i, above, row, m, j - 1);
      assert row[j] == Best(above[j], row[j - 1], above[j - 1], c == b[j - 1]);
    }
  }

  /** Entries never fall below a bound on a row above them: what the early exit relies on. */
  lemma {:induction false} RowsGrow(a: string, b: string, rows: seq<seq<nat>>, i: nat, n: nat, m: nat)
    requires IsTable(a, b, rows) && i <= n <= |a|
    requires forall j :: 0 <= j < |rows[i]| ==> m <= rows[i][j]
    ensures |rows[n]| == |b| + 1 && forall j :: 0 <= j <= |b| ==> m <= rows[n][j]
  {
    RowShape(a, b, rows, i);
    if i < n {
      RowsGrow(a, b, rows, i, n - 1, m);
      assert RowFollows(a[n - 1], b, n, rows[n - 1], rows[n]);
      assert m <= rows[i][0];
      forall j | 0 <= j <= |b| ensures m <= rows[n][j] {
        RowAtLeast(a[n - 1], b, n, rows[n - 1], rows[n], m, j);
      }
    }
  }

  lemma RowShape(a: string, b: string, rows: seq<seq<nat>>, i: nat)
    requires IsTable(a, b, rows) && i <= |a|
    ensures |rows[i]| == |b| + 1 && rows[i][0] == i
  {
    if i > 0 { assert RowFollows(a[i - 1], b, i, rows[i - 1], rows[i]); }
  }

  /** The inner loop: fills the next row and finds its least entry. */
  method FillRow(c: char, b: string, i: nat, prev: array<nat>, cur: array<nat>, ghost row: seq<nat>)
    returns (rowMin: nat)
    requires prev != cur && prev.Length == cur.Length == |b| + 1
    requires RowFollows(c, b, i, prev[..], row)
    modifies cur
    ensures cur[..] == row
    ensures rowMin in row && forall k :: 0 <= k < |row| ==> rowMin <= row[k]
  {
    ghost var above := prev[..];
    cur[0] := i;
    rowMin := i;
    ghost var least := 0;
    for j := 1 to |b| + 1
      invariant prev[..] == above
      invariant 0 <= least < j && rowMin == row[least]
      invariant forall k :: 0 <= k < j ==> cur[k] == row[k] && rowMin <= row[k]
    {
      assert row[j] == Best(above[j], row[j - 1], above[j - 1], c == b[j - 1]);
      assert prev[j] == above[j] && prev[j - 1] == above[j - 1];
      var cost := if c == b[j - 1] then 0 else 1;
      cur[j] := Min(Min(prev[j] + 1, cur[j - 1] + 1), prev[j - 1] + cost);
      if cur[j] < rowMin { rowMin, least := cur[j], j; }
    }
  }

  /** The true distance when that is within the bound; otherwise something beyond the bound. */
  method BoundedLevenshtein(a: string, b: string, maxDist: int) returns (d: int)
    ensures Distance(a, b) <= maxDist ==> d == Distance(a, b)
    ensures Distance(a, b) > maxDist ==> d > maxDist
    ensures maxDist >= -1 ==> d >= 0
  {
    DistanceZero(a, b);
    if a == b { return 0; }
    var na, nb := |a|, |b|;
    if (if na >= nb then na - nb else nb - na) > maxDist { return maxDist + 1; }
    if na == 0 || nb == 0 {
      var longest := if na < nb then nb else na;
      return if longest <= maxDist then longest else maxDist + 1;
    }
    ghost var rows := DistancesFormTable(a, b);
    d := FillTable(a, b, maxDist, rows);
  }

  /** The outer loop, with its early exit. */
  method FillTable(a: string, b: string, maxDist: int, ghost rows: seq<seq<nat>>) returns (d: int)
    requires IsTable(a, b, rows)
    ensures |rows[|a|]| == |b| + 1
    ensures rows[|a|][|b|] <= maxDist ==> d == rows[|a|][|b|]
    ensures rows[|a|][|b|] > maxDist ==> d > maxDist
    ensures maxDist >= -1 ==> d >= 0
  {
    var prev, cur := new nat[|b| + 1], new nat[|b| + 1];
    for j := 0 to |b| + 1
      invariant forall k :: 0 <= k < j ==> prev[k] == k
    {
      prev[j] := j;
    }
    RowShape(a, b, rows, |a|);
    var i := 1;
    while i <= |a|
      invariant 1 <= i <= |a| + 1
      invariant prev != cur && prev.Length == cur.Length == |b| + 1 && fresh(prev) && fresh(cur)
      invariant prev[..] == rows[i - 1]
    {
      var rowMin := FillRow(a[i - 1], b, i, prev, cur, rows[i]);
      if rowMin > maxDist {
        RowsGrow(a, b, rows, i, |a|, rowMin);
        return maxDist + 1;
      }
      prev, cur := cur, prev;
      i := i + 1;
    }
    return prev[|b|];
  }
}
