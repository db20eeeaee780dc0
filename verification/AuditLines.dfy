/** What a line of the audit log tells about its record, BACKEND/core/audit_service.cpp, and what escaping keeps. */
module AuditLines {
  import opened AuditLog
  import opened Bytes
  import opened Concat
  import opened Lines
  import opened Wrappers

  // ---- The fields of a line ----

  /** The first place of a part from a place on. */
  ghost predicate FirstFrom(s: string, part: string, from: nat, i: nat) {
    from <= i && PartAt(s, part, i) && forall k: nat :: from <= k < i ==> !PartAt(s, part, k)
  }

  /** A line with a time in its first 19 places, " | user=" and a name up to the first " | type=", a type up to the next
      " | ", and a rest. */
  ghost predicate Tells(s: string, time: string, name: string, kind: string, rest: string) {
    var i := 27 + |name|;
    var j := i + 8;
    |s| >= j + |kind| + 3
    && s[..19] == time && s[19..27] == " | user=" && s[27..i] == name
    && FirstFrom(s, " | type=", 19, i) && s[j..j + |kind|] == kind
    && FirstFrom(s, " | ", j, j + |kind|) && s[j + |kind| + 3..] == rest
  }

  function Shown(s: string): string { if s == "" then "(none)" else s }

  /** A line begins with the time. Unless the name or the type has a bar in it, the name is what stands between
      " | user=" right after the time and the first " | type=", and the type what stands between that and the next
      " | "; then come the escaped category and, after one more " | ", the escaped detail. */
  lemma LineTells(r: Record)
    requires |r.timestamp| == 19 && '|' !in r.timestamp && '|' !in r.user.name && '|' !in r.user.kind
    ensures Tells(FormatLine(r), r.timestamp, Shown(r.user.name), Shown(r.user.kind),
      EscapeAll(r.category) + " | " + EscapeAll(r.detail))
  {
    var name, kind, rest := Shown(r.user.name), Shown(r.user.kind), EscapeAll(r.category) + " | " + EscapeAll(r.detail);
    LinePieces(r);
    assert '|' !in name && '|' !in kind;
    PiecesPlaced(r.timestamp, name, kind, rest, FormatLine(r));
  }

  lemma LinePieces(r: Record)
    ensures FormatLine(r) == r.timestamp + " | user=" + Shown(r.user.name) + " | type=" + Shown(r.user.kind) + " | "
      + (EscapeAll(r.category) + " | " + EscapeAll(r.detail))
  {
    var t, n, k := r.timestamp, OrNone(r.user.name), OrNone(r.user.kind);
    var c, d := EscapeAll(r.category), EscapeAll(r.detail);
    Assoc(t, " | user=", n);
    var named := t + " | user=" + n;
    Assoc(k, " | ", c);
    Assoc(" | type=", k + " | ", c);
    Assoc(named, " | type=" + (k + " | "), c);
    Assoc(named, " | type=", k + " | ");
    Assoc(named + " | type=", k, " | ");
    var typed := named + " | type=" + k + " | ";
    Assoc(typed, c, " | " + d);
    Assoc(c, " | ", d);
  }

  lemma PiecesPlaced(t: string, name: string, kind: string, rest: string, s: string)
    requires |t| == 19 && '|' !in t && '|' !in name && '|' !in kind
    requires s == t + " | user=" + name + " | type=" + kind + " | " + rest
    ensures Tells(s, t, name, kind, rest)
  {
    var i := 27 + |name|;
    var j := i + 8;
    var l := j + |kind|;
    assert s[19..27] == " | user=" && s[27..i] == name && s[i..j] == " | type=";
    assert s[j..l] == kind && s[l..l + 3] == " | ";
    forall k: nat | 19 <= k < i ensures !PartAt(s, " | type=", k) { NoTypeAt(s, name, k); }
    forall k: nat | j <= k < l ensures !PartAt(s, " | ", k) { NoBarAt(s, kind, j, k); }
  }

  lemma NoTypeAt(s: string, name: string, k: nat)
    requires '|' !in name && |s| >= 35 + |name| && 19 <= k < 27 + |name|
    requires s[19..27] == " | user=" && s[27..27 + |name|] == name && s[27 + |name|..35 + |name|] == " | type="
    ensures !PartAt(s, " | type=", k)
  {
    if k == 19 {
      assert s[22] == s[19..27][3];
      NotPart(s, " | type=", 19, 3);
    } else {
      if k < 26 {
        assert s[k + 1] == s[19..27][k - 18];
      } else if k + 1 < 27 + |name| {
        assert s[k + 1] == name[k - 26];
      } else {
        assert s[k + 1] == s[27 + |name|..35 + |name|][0];
      }
      NotPart(s, " | type=", k, 1);
    }
  }

  lemma NotPart(s: string, part: string, k: nat, m: nat)
    requires m < |part| && k + m < |s| && s[k + m] != part[m]
    ensures !PartAt(s, part, k)
  {
  }

  lemma NoBarAt(s: string, kind: string, j: nat, k: nat)
    requires '|' !in kind && j + |kind| + 3 <= |s| && j <= k < j + |kind|
    requires s[j..j + |kind|] == kind && s[j + |kind|..j + |kind| + 3] == " | "
    ensures !PartAt(s, " | ", k)
  {
    if k + 1 < j + |kind| {
      assert s[k + 1] == kind[k + 1 - j];
    } else {
      assert s[k + 1] == s[j + |kind|..j + |kind| + 3][0];
    }
    NotPart(s, " | ", k, 1);
  }

  /** Lines of such users at such times are equal only for the same user, time, and text behind. */
  lemma SameLine(a: Record, b: Record)
    requires |a.timestamp| == 19 && '|' !in a.timestamp && '|' !in a.user.name && '|' !in a.user.kind
    requires |b.timestamp| == 19 && '|' !in b.timestamp && '|' !in b.user.name && '|' !in b.user.kind
    requires FormatLine(a) == FormatLine(b)
    ensures a.timestamp == b.timestamp
    ensures Shown(a.user.name) == Shown(b.user.name) && Shown(a.user.kind) == Shown(b.user.kind)
  {
    LineTells(a);
    LineTells(b);
    var i, k := 27 + |Shown(a.user.name)|, 27 + |Shown(b.user.name)|;
    assert i == k;
    var j := i + 8;
    assert j + |Shown(a.user.kind)| == j + |Shown(b.user.kind)|;
  }

  // ---- Escaping ----

  function HexValue(c: char): int { if '0' <= c <= '9' then c as int - '0' as int else c as int - 'A' as int + 10 }

  predicate IsHexUpper(c: char) { '0' <= c <= '9' || 'A' <= c <= 'F' }

  predicate HexPairAt(s: string, i: nat) {
    i + 6 <= |s| && s[i..i + 4] == "\\u00" && IsHexUpper(s[i + 4]) && IsHexUpper(s[i + 5])
  }

  /** What a reader takes for an escape. */
  predicate EscapeAt(s: string, i: nat) { (i + 2 <= |s| && s[i] == '\\' && s[i + 1] in "nrt") || HexPairAt(s, i) }

  function Unescape(s: string): string {
    if s == "" then ""
    else if HexPairAt(s, 0) then [(HexValue(s[4]) * 16 + HexValue(s[5])) as char] + Unescape(s[6..])
    else if EscapeAt(s, 0) then
      [if s[1] == 'n' then '\n' else if s[1] == 'r' then '\r' else '\t'] + Unescape(s[2..])
    else [s[0]] + Unescape(s[1..])
  }

  lemma {:induction false} EscapeFront(c: char, s: string)
    ensures EscapeAll([c] + s) == Escape(c) + EscapeAll(s)
  {
    EscapeOne(c);
    if s == "" {
      assert [c] + s == [c] && Escape(c) + "" == Escape(c);
    } else {
      var init, last := s[..|s| - 1], s[|s| - 1];
      assert s == init + [last];
      EscapeFront(c, init);
      EscapeEnd(c, init, last);
    }
  }

  lemma EscapeEnd(c: char, init: string, last: char)
    requires EscapeAll([c] + init) == Escape(c) + EscapeAll(init)
    ensures EscapeAll([c] + (init + [last])) == Escape(c) + EscapeAll(init + [last])
  {
    EscapeLast([c] + init, last);
    EscapeLast(init, last);
    Assoc([c], init, [last]);
    Assoc(Escape(c), EscapeAll(init), Escape(last));
  }

  lemma EscapeOne(c: char)
    ensures EscapeAll([c]) == Escape(c) && EscapeAll("") == ""
  {
    assert [c][..0] == "";
    assert "" + Escape(c) == Escape(c);
  }

  lemma EscapeLast(s: string, c: char)
    ensures EscapeAll(s + [c]) == EscapeAll(s) + Escape(c)
  {
    assert (s + [c])[..|s|] == s;
  }

  lemma HexOf(n: int)
    requires 0 <= n < 16
    ensures IsHexUpper(Hex(n)) && HexValue(Hex(n)) == n
  {
    if n < 10 { assert "0123456789ABCDEF"[n] as int == '0' as int + n; }
  }

  /** One escaped control character is read back. */
  lemma ControlBack(c: char, t: string)
    requires IsControl(c)
    ensures Unescape(Escape(c) + t) == [c] + Unescape(t)
  {
    var s := Escape(c) + t;
    if c in "\n\r\t" {
      assert s[0] == '\\' && s[1] in "nrt" && s[2..] == t;
      NoHexPair(s, 1);
    } else {
      HexOf(c as int / 16);
      HexOf(c as int % 16);
      assert s[0..4] == "\\u00" && s[4] == Hex(c as int / 16) && s[5] == Hex(c as int % 16) && s[6..] == t;
    }
  }

  /** A character that is no backslash is read as it is. */
  lemma PlainBack(c: char, t: string)
    requires c != '\\'
    ensures Unescape([c] + t) == [c] + Unescape(t)
  {
    var s := [c] + t;
    assert s[0] == c && s[1..] == t;
    NoHexPair(s, 0);
  }

  lemma NoHexPair(s: string, m: nat)
    requires m < 4 && m < |s| && s[m] != "\\u00"[m]
    ensures !HexPairAt(s, 0)
  {
    if |s| >= 6 { assert s[0..4][m] == s[m]; }
  }

  /** The escaped text from its beginning. */
  function Escaped(s: string): string { if s == "" then "" else Escape(s[0]) + Escaped(s[1..]) }

  lemma {:induction false} EscapedIsAll(s: string)
    ensures Escaped(s) == EscapeAll(s)
  {
    if s != "" {
      assert s == [s[0]] + s[1..];
      EscapeFront(s[0], s[1..]);
      EscapedIsAll(s[1..]);
    }
  }

  /** What is plain in front stays in front. */
  lemma {:induction false} PlainFront(s: string, n: nat)
    requires n <= |s| && NoControl(s[..n])
    ensures Escaped(s) == s[..n] + Escaped(s[n..])
  {
    if n == 0 {
      assert s[0..] == s && s[..0] + Escaped(s) == Escaped(s);
    } else {
      var c, r := s[0], s[1..];
      assert s == [c] + r;
      SliceCons(c, r, n - 1);
      assert c == s[..n][0] && r[..n - 1] == s[..n][1..];
      PlainFront(r, n - 1);
      OneMorePlain(c, r, r[..n - 1], r[n - 1..]);
    }
  }

  lemma SliceCons(c: char, s: string, n: nat)
    requires n <= |s|
    ensures var t := [c] + s; t[0] == c && t[1..] == s && t[..n + 1] == [c] + s[..n] && t[n + 1..] == s[n..]
  {
  }

  lemma EscapedCons(c: char, s: string)
    ensures Escaped([c] + s) == Escape(c) + Escaped(s)
  {
    SliceCons(c, s, 0);
  }

  lemma OneMorePlain(c: char, s: string, a: string, b: string)
    requires !IsControl(c) && Escaped(s) == a + Escaped(b)
    ensures Escaped([c] + s) == [c] + a + Escaped(b)
  {
    EscapedCons(c, s);
    Assoc([c], a, Escaped(b));
  }

  /** And what is in front without a backslash was there before. */
  lemma {:induction false} PlainBefore(s: string, n: nat)
    requires n <= |Escaped(s)| && '\\' !in Escaped(s)[..n]
    ensures n <= |s| && s[..n] == Escaped(s)[..n]
    decreases n
  {
    if n > 0 {
      assert s != "" && s == [s[0]] + s[1..];
      assert Escaped(s)[..n][0] == Escaped(s)[0] == Escape(s[0])[0];
      assert Escape(s[0]) == [s[0]];
      assert Escaped(s)[1..] == Escaped(s[1..]) && Escaped(s[1..])[..n - 1] == Escaped(s)[..n][1..];
      PlainBefore(s[1..], n - 1);
      assert s[..n] == [s[0]] + s[1..][..n - 1] && Escaped(s)[..n] == [Escaped(s)[0]] + Escaped(s)[..n][1..];
    }
  }

  /** Behind a backslash the escaped text looks like an escape exactly when the text does. */
  lemma SameEscapes(s: string)
    ensures EscapeAt("\\" + Escaped(s), 0) <==> EscapeAt("\\" + s, 0)
    ensures HexPairAt("\\" + Escaped(s), 0) <==> HexPairAt("\\" + s, 0)
  {
    var e := Escaped(s);
    SlashPair(s);
    SlashPair(e);
    if s != "" && s[0] in "nrt" {
      assert s[..1] == [s[0]];
      PlainFront(s, 1);
    }
    if e != "" && e[0] in "nrt" {
      assert e[..1] == [e[0]];
      PlainBefore(s, 1);
      assert s[0] == s[..1][0];
    }
    if |s| >= 5 && HexTail(s[..5]) { PlainFront(s, 5); }
    if |e| >= 5 && HexTail(e[..5]) { PlainBefore(s, 5); }
  }

  /** The rest of an escape by number. */
  predicate HexTail(s: string)
    requires |s| == 5
  {
    s[0] == 'u' && s[1] == '0' && s[2] == '0' && IsHexUpper(s[3]) && IsHexUpper(s[4])
  }

  lemma SlashPair(s: string)
    ensures HexPairAt("\\" + s, 0) <==> |s| >= 5 && HexTail(s[..5])
    ensures EscapeAt("\\" + s, 0) <==> (s != "" && s[0] in "nrt") || HexPairAt("\\" + s, 0)
  {
    var t := "\\" + s;
    if |s| >= 5 {
      assert t[0..4] == "\\u00" <==> s[0] == 'u' && s[1] == '0' && s[2] == '0' by {
        assert t[0..4] == [t[0], t[1], t[2], t[3]] && "\\u00" == ['\\', 'u', '0', '0'];
      }
    }
  }

  ghost predicate HasEscape(s: string) { exists i :: 0 <= i < |s| && EscapeAt(s, i) }

  lemma EscapeLater(c: char, s: string, i: nat)
    ensures EscapeAt([c] + s, i + 1) <==> EscapeAt(s, i)
  {
    var t := [c] + s;
    if i + 6 <= |s| { assert t[i + 1..i + 5] == s[i..i + 4]; }
  }

  lemma HasEscapeCons(c: char, s: string)
    ensures HasEscape([c] + s) <==> EscapeAt([c] + s, 0) || HasEscape(s)
  {
    var t := [c] + s;
    if HasEscape(t) {
      var i :| 0 <= i < |t| && EscapeAt(t, i);
      if i > 0 { EscapeLater(c, s, i - 1); }
    }
    if HasEscape(s) {
      var i :| 0 <= i < |s| && EscapeAt(s, i);
      EscapeLater(c, s, i);
    }
  }

  /** A text is read back from its escaped form, or something shorter is, exactly when it has what looks like an
      escape. */
  lemma {:induction false} UnescapedOrShorter(s: string)
    ensures if HasEscape(s) then |Unescape(Escaped(s))| < |s| else Unescape(Escaped(s)) == s
    decreases |s|
  {
    if s != "" {
      var c, r := s[0], s[1..];
      assert s == [c] + r;
      HasEscapeCons(c, r);
      if c != '\\' {
        UnescapedOrShorter(r);
        CharBack(c, r);
      } else if HexPairAt(s, 0) {
        HexShortens(s);
      } else if EscapeAt(s, 0) {
        PairShortens(s);
      } else {
        UnescapedOrShorter(r);
        SlashBack(r);
      }
    }
  }

  /** A character that begins no escape is read back. */
  lemma CharBack(c: char, r: string)
    requires c != '\\'
    ensures Unescape(Escaped([c] + r)) == [c] + Unescape(Escaped(r)) && !EscapeAt([c] + r, 0)
  {
    EscapedCons(c, r);
    if IsControl(c) { ControlBack(c, Escaped(r)); } else { PlainBack(c, Escaped(r)); }
    NoHexPair([c] + r, 0);
  }

  lemma SlashBack(r: string)
    requires !EscapeAt("\\" + r, 0)
    ensures Unescape(Escaped("\\" + r)) == "\\" + Unescape(Escaped(r))
  {
    EscapedCons('\\', r);
    SameEscapes(r);
    SliceCons('\\', Escaped(r), 0);
  }

  lemma {:induction false} HexShortens(s: string)
    requires HexPairAt(s, 0)
    ensures |Unescape(Escaped(s))| < |s|
    decreases |s|, 0
  {
    assert s[..4] == s[0..4] && NoControl("\\u00") && s[..6] == s[..4] + [s[4], s[5]];
    PlainFront(s, 6);
    var e := Escaped(s);
    assert e[0..4] == s[..6][..4] == "\\u00" && e[4] == s[..6][4] && e[5] == s[..6][5] && e[6..] == Escaped(s[6..]);
    UnescapedOrShorter(s[6..]);
  }

  lemma {:induction false} PairShortens(s: string)
    requires EscapeAt(s, 0) && !HexPairAt(s, 0)
    ensures |Unescape(Escaped(s))| < |s|
    decreases |s|, 0
  {
    assert s[..2] == [s[0], s[1]];
    PlainFront(s, 2);
    var e := Escaped(s);
    assert e[0] == s[..2][0] && e[1] == s[..2][1] && e[2..] == Escaped(s[2..]);
    NoHexPair(e, 1);
    UnescapedOrShorter(s[2..]);
  }

  /** Escaping can be undone exactly for a text in which no backslash is followed by a letter n, r or t, or by `u00`
      and two hexadecimal digits. */
  lemma UnescapesExactly(s: string)
    ensures Unescape(EscapeAll(s)) == s <==> !HasEscape(s)
  {
    EscapedIsAll(s);
    UnescapedOrShorter(s);
  }

  /** So it can for every text without a backslash. */
  lemma UnescapeEscaped(s: string)
    requires '\\' !in s
    ensures Unescape(EscapeAll(s)) == s
  {
    forall i | 0 <= i < |s| ensures !EscapeAt(s, i) {
      if i + 6 <= |s| { assert s[i..i + 4][0] == s[i]; }
    }
    UnescapesExactly(s);
  }

  /** With one it may not: a backslash and an n look like an escaped newline. */
  lemma EscapeAmbiguous()
    ensures EscapeAll("\\n") == EscapeAll("\n")
  {
    assert "\\n"[..1] == "\\" && "\\"[..0] == "" && "\n"[..0] == "";
    assert EscapeAll("\\") == "\\" && Escape('n') == "n";
  }

  /** No control character is left. */
  lemma EscapedIsPrintable(s: string)
    ensures forall i :: 0 <= i < |EscapeAll(s)| ==> 32 <= EscapeAll(s)[i] as int && EscapeAll(s)[i] as int != 127
  {
    assert NoControl(EscapeAll(s));
  }

  // ---- Appending and reading ----

  function Before(file: Option<string>): string { if file.None? then "TLOG1" else file.value }

  /** The file is new or begins with the header, and neither the record nor the file gets over its limit. */
  predicate Fits(file: Option<string>, line: string) {
    "TLOG1" <= Before(file) && |line| <= 1024 * 1024 && |Before(file)| + 8 + |line| <= 64 * 1024 * 1024
  }

  /** The length and the line in the current cipher, behind the header where the file is new. */
  ghost predicate AddsRecord(file: Option<string>, after: Option<string>, line: string) {
    exists size, body ::
      after == Some(Before(file) + size + body) && |size| == 8 && FromLittle(size) == |line| && Obfuscate(body) == line
  }

  /** An append succeeds exactly when the file system does not fail and the record fits, and then adds it. */
  lemma AppendsExactly(file: Option<string>, a: Append)
    ensures var (after, ok) := AppendStep(file, a);
      (ok <==> a.fault == NoFault && Fits(file, FormatLine(a.record)))
      && (ok ==> AddsRecord(file, after, FormatLine(a.record)))
      && (!ok && file.Some? ==> after == file) && (!ok && file.None? ==> after in [None, Some("TLOG1")])
  {
    var line := FormatLine(a.record);
    ObfuscateTwice(line);
    if AppendStep(file, a).1 {
      WordRoundTrip(|line|);
      Assoc(Before(file), Little(|line|, 8), Obfuscate(line));
      assert AppendStep(file, a).0 == Some(Before(file) + Little(|line|, 8) + Obfuscate(line));
    }
  }

  /** A file is read exactly when it is there, within its limit, begins with the header, and goes on with whole records
      within theirs. */
  lemma ReadsExactly(file: Option<string>)
    requires file.Some? ==> AreBytes(file.value)
    ensures Read(file).Lines? <==>
      file.Some? && |file.value| <= 64 * 1024 * 1024
      && exists payloads :: Bounded(payloads) && file.value == "TLOG1" + Frames(payloads)
    ensures Read(file) == Unreadable(NotFound) <==> file.None?
  {
    if Read(file).Lines? { var payloads := WholeRecords(file.value); }
    if file.Some? {
      forall payloads | Bounded(payloads) && file.value == "TLOG1" + Frames(payloads)
        ensures HEADER <= file.value && ReadFrames(file.value[|HEADER|..]).Some?
      {
        WholeRead(payloads, file.value);
      }
    }
  }

  lemma WholeRecords(file: string) returns (payloads: seq<string>)
    requires AreBytes(file) && Read(Some(file)).Lines?
    ensures Bounded(payloads) && file == "TLOG1" + Frames(payloads)
  {
    var body := file[|HEADER|..];
    assert file == HEADER + body;
    OnlyFramesRead(body);
    payloads := ReadFrames(body).value;
  }

  lemma WholeRead(payloads: seq<string>, file: string)
    requires Bounded(payloads) && file == "TLOG1" + Frames(payloads)
    ensures HEADER <= file && ReadFrames(file[|HEADER|..]).Some?
  {
    ReadWhole(payloads);
    assert file[|HEADER|..] == Frames(payloads);
  }
}
