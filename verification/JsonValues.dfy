/** The values that travel between the frontend and the backend, after SHARED/protocol/json.hpp.

    A string is a sequence of characters, one per byte of the source (the character's code is the
    byte); every statement here holds for all strings and so for all byte strings.  A number is the
    exact real it denotes.  An object is the key-sorted sequence of members that iterating over a
    `std::map` yields. */
module JsonValues {
  import opened Ordering

  datatype Json =
    | Null
    | Bool(b: bool)
    | Number(n: real)
    | String(s: string)
    | Array(items: seq<Json>)
    | Object(members: seq<Member>)

  datatype Member = Member(key: string, value: Json)

  ghost predicate Sorted(ms: seq<Member>) {
    forall i, j :: 0 <= i < j < |ms| ==> Less(ms[i].key, ms[j].key)
  }

  predicate HasKey(ms: seq<Member>, key: string) {
    exists i :: 0 <= i < |ms| && ms[i].key == key
  }

  /** `std::map::emplace` of a key that is not there yet. */
  function Insert(ms: seq<Member>, m: Member): seq<Member> {
    if ms == [] then [m]
    else if Less(m.key, ms[0].key) then [m] + ms
    else [ms[0]] + Insert(ms[1..], m)
  }

  function InsertAll(ms: seq<Member>, added: seq<Member>): seq<Member>
    decreases added
  {
    if added == [] then ms else InsertAll(Insert(ms, added[0]), added[1..])
  }

  lemma {:induction false} InsertKeepsMembers(ms: seq<Member>, m: Member)
    ensures multiset(Insert(ms, m)) == multiset(ms) + multiset{m}
  {
    if ms != [] {
      assert ms == [ms[0]] + ms[1..];
      InsertKeepsMembers(ms[1..], m);
    }
  }

  lemma {:induction false} InsertSorts(ms: seq<Member>, m: Member)
    requires Sorted(ms) && !HasKey(ms, m.key)
    ensures Sorted(Insert(ms, m))
    ensures forall k :: HasKey(Insert(ms, m), k) <==> HasKey(ms, k) || k == m.key
  {
    InsertHasKeys(ms, m);
    if ms == [] {
    } else if Less(m.key, ms[0].key) {
      forall j | 0 <= j < |ms| ensures Less(m.key, ms[j].key) {
        if j > 0 { LessTransitive(m.key, ms[0].key, ms[j].key); }
      }
    } else {
      LessTotal(m.key, ms[0].key);
      InsertSorts(ms[1..], m);
      var rest := Insert(ms[1..], m);
      forall j | 0 <= j < |rest| ensures Less(ms[0].key, rest[j].key) {
        assert HasKey(rest, rest[j].key);
        InsertHasKeys(ms[1..], m);
        if rest[j].key != m.key {
          var i :| 0 <= i < |ms[1..]| && ms[1..][i].key == rest[j].key;
          assert ms[1 + i].key == rest[j].key;
        }
      }
    }
  }

  lemma {:induction false} InsertHasKeys(ms: seq<Member>, m: Member)
    ensures forall k :: HasKey(Insert(ms, m), k) <==> HasKey(ms, k) || k == m.key
  {
    forall k ensures HasKey(Insert(ms, m), k) <==> HasKey(ms, k) || k == m.key {
      InsertHasKey(ms, m, k);
    }
  }

  lemma {:induction false} InsertHasKey(ms: seq<Member>, m: Member, k: string)
    ensures HasKey(Insert(ms, m), k) <==> HasKey(ms, k) || k == m.key
  {
    if ms == [] {
      assert Insert(ms, m)[0].key == m.key;
    } else if Less(m.key, ms[0].key) {
      HasKeyCons(m, ms, k);
    } else {
      InsertHasKey(ms[1..], m, k);
      HasKeyCons(ms[0], ms[1..], k);
      assert [ms[0]] + ms[1..] == ms;
      HasKeyCons(ms[0], Insert(ms[1..], m), k);
    }
  }

  lemma HasKeyCons(m: Member, ms: seq<Member>, k: string)
    ensures HasKey([m] + ms, k) <==> m.key == k || HasKey(ms, k)
  {
    var all := [m] + ms;
    assert all[0] == m;
    if HasKey(ms, k) {
      var i :| 0 <= i < |ms| && ms[i].key == k;
      assert all[i + 1].key == k;
    }
    if HasKey(all, k) && m.key != k {
      var i :| 0 <= i < |all| && all[i].key == k;
      assert ms[i - 1].key == k;
    }
  }

  /** Appending a member whose key exceeds all others is an insertion. */
  lemma {:induction false} InsertLast(ms: seq<Member>, m: Member)
    requires forall i :: 0 <= i < |ms| ==> Less(ms[i].key, m.key)
    ensures Insert(ms, m) == ms + [m]
  {
    if ms != [] {
      if Less(m.key, ms[0].key) {
        LessTransitive(m.key, ms[0].key, m.key);
        LessIrreflexive(m.key);
      }
      InsertLast(ms[1..], m);
      assert ms == [ms[0]] + ms[1..];
    }
  }

  lemma {:induction false} InsertAllSorted(ms: seq<Member>, added: seq<Member>)
    requires Sorted(ms + added)
    ensures InsertAll(ms, added) == ms + added
    decreases added
  {
    if added == [] {
      assert ms + added == ms;
    } else {
      forall i | 0 <= i < |ms| ensures Less(ms[i].key, added[0].key) {
        assert (ms + added)[i] == ms[i] && (ms + added)[|ms|] == added[0];
      }
      InsertLast(ms, added[0]);
      assert ms + added == (ms + [added[0]]) + added[1..];
      InsertAllSorted(ms + [added[0]], added[1..]);
    }
  }

  /** The largest finite double, (2^53 - 1) * 2^971. */
  const MAX_DOUBLE: real :=
    0xFFFFFFFFFFFFF800000000000000000000000000000000000000000000000000000000000000000000000000000000000000000000000000000000000000000000000000000000000000000000000000000000000000000000000000000000000000000000000000000000000000000000000000000000000000000000000000 as real

  predicate Finite(x: real) { -MAX_DOUBLE <= x <= MAX_DOUBLE }

  /** What every `JsonValue` satisfies: numbers are finite, objects are maps. */
  ghost predicate Valid(v: Json) {
    match v
    case Number(n) => Finite(n)
    case Array(items) => forall i :: 0 <= i < |items| ==> Valid(items[i])
    case Object(members) => Sorted(members) && forall i :: 0 <= i < |members| ==> Valid(members[i].value)
    case _ => true
  }
}
