/** Cutting a sequence at a separator and joining it again. */
module Lines {
  /** The first position of `sep`, or the length when there is none (`find` with `npos` clamped). */
  function IndexOf<T(==)>(s: seq<T>, sep: T): (i: nat)
    ensures i <= |s| && (i < |s| ==> s[i] == sep) && sep !in s[..i]
  {
    if s == [] || s[0] == sep then 0 else
    var i := IndexOf(s[1..], sep);
    assert s[..1 + i] == [s[0]] + s[1..][..i];
    1 + i
  }

  lemma {:induction false} IndexOfUnique<T>(s: seq<T>, sep: T, i: nat)
    requires i < |s| && s[i] == sep && sep !in s[..i]
    ensures IndexOf(s, sep) == i
  {
    if i > 0 {
      assert s[..i] == [s[0]] + s[1..][..i - 1];
      IndexOfUnique(s[1..], sep, i - 1);
    }
  }

  lemma IndexOfNone<T>(s: seq<T>, sep: T)
    ensures IndexOf(s, sep) == |s| <==> sep !in s
  {
    assert s[..|s|] == s;
  }

  /** A separator after a part free of it is the first one. */
  lemma IndexOfAfter<T>(part: seq<T>, sep: T, rest: seq<T>)
    requires sep !in part
    ensures var s := part + [sep] + rest;
      IndexOf(s, sep) == |part| && s[..|part|] == part && s[|part| + 1..] == rest
  {
    var s := part + [sep] + rest;
    assert s[..|part|] == part;
    IndexOfUnique(s, sep, |part|);
  }

  function Join<T>(parts: seq<seq<T>>, sep: T): seq<T> {
    if parts == [] then []
    else if |parts| == 1 then parts[0]
    else parts[0] + [sep] + Join(parts[1..], sep)
  }

  lemma {:induction false} JoinAppend<T>(parts: seq<seq<T>>, part: seq<T>, sep: T)
    ensures Join(parts + [part], sep) == if parts == [] then part else Join(parts, sep) + [sep] + part
  {
    if |parts| > 1 {
      JoinAppend(parts[1..], part, sep);
      assert (parts + [part])[1..] == parts[1..] + [part];
    } else if |parts| == 1 {
      assert (parts + [part])[1..] == [part];
    }
  }

  /** All parts between separators; a sequence without separators is one part. */
  function Split<T(==)>(s: seq<T>, sep: T): (parts: seq<seq<T>>)
    ensures parts != []
  {
    var i := IndexOf(s, sep);
    if i == |s| then [s] else [s[..i]] + Split(s[i + 1..], sep)
  }

  /** What repeated `std::getline` yields: like `Split`, without a last empty part. */
  function GetLines<T(==)>(s: seq<T>, sep: T): seq<seq<T>> {
    if s == [] then [] else
    var i := IndexOf(s, sep);
    if i == |s| then [s] else [s[..i]] + GetLines(s[i + 1..], sep)
  }

  function FirstLine<T(==)>(s: seq<T>, sep: T): seq<T> { s[..IndexOf(s, sep)] }

  function AfterLine<T(==)>(s: seq<T>, sep: T): (r: seq<T>)
    ensures s != [] ==> |r| < |s|
  {
    if IndexOf(s, sep) < |s| then s[IndexOf(s, sep) + 1..] else []
  }

  /** One `std::getline`. */
  lemma GetLinesStep<T>(s: seq<T>, sep: T)
    requires s != []
    ensures GetLines(s, sep) == [FirstLine(s, sep)] + GetLines(AfterLine(s, sep), sep)
  {
    if IndexOf(s, sep) == |s| { assert s[..|s|] == s && GetLines<T>([], sep) == []; }
  }

  lemma {:induction false} SplitJoin<T>(parts: seq<seq<T>>, sep: T)
    requires parts != [] && forall i :: 0 <= i < |parts| ==> sep !in parts[i]
    ensures Split(Join(parts, sep), sep) == parts
  {
    if |parts| == 1 {
      IndexOfNone(parts[0], sep);
    } else {
      IndexOfAfter(parts[0], sep, Join(parts[1..], sep));
      SplitJoin(parts[1..], sep);
    }
  }

  lemma {:induction false} JoinSplit<T>(s: seq<T>, sep: T)
    ensures Join(Split(s, sep), sep) == s
    ensures forall i :: 0 <= i < |Split(s, sep)| ==> sep !in Split(s, sep)[i]
  {
    var i := IndexOf(s, sep);
    if i == |s| {
      IndexOfNone(s, sep);
    } else {
      JoinSplit(s[i + 1..], sep);
      assert s == s[..i] + [sep] + s[i + 1..];
      assert Split(s, sep)[1..] == Split(s[i + 1..], sep);
    }
  }

  /** `getline` drops exactly the empty part after a final separator (and the one part of an empty text). */
  lemma {:induction false} GetLinesSplit<T>(s: seq<T>, sep: T)
    ensures var parts := Split(s, sep);
      GetLines(s, sep) == if parts[|parts| - 1] == [] then parts[..|parts| - 1] else parts
  {
    var i := IndexOf(s, sep);
    if i < |s| {
      var rest := s[i + 1..];
      GetLinesSplit(rest, sep);
      DropLast([s[..i]], Split(rest, sep));
    }
  }

  lemma DropLast<T>(a: seq<T>, b: seq<T>)
    requires b != []
    ensures (a + b)[|a + b| - 1] == b[|b| - 1] && (a + b)[..|a + b| - 1] == a + b[..|b| - 1]
  {
  }

  predicate PartAt<T(==)>(s: seq<T>, part: seq<T>, i: nat) { i + |part| <= |s| && s[i..i + |part|] == part }

  /** `find` of a part succeeds. */
  predicate Contains<T(==)>(s: seq<T>, part: seq<T>) { exists i: nat :: i <= |s| && PartAt(s, part, i) }
}
