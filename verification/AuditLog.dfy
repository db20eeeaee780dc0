/** The audit log, BACKEND/core/audit_service.cpp: its two ciphers, its record format, appending, reading
    and exporting. A file is the string of its bytes. */
module AuditLog {
  import opened Bytes
  import opened Concat
  import opened Lines
  import opened Wrappers

  // ---- The ciphers ----

  const CIPHER_KEY := "TundraUX2"

  function Obfuscate(s: string): string {
    seq(|s|, i requires 0 <= i < |s| => XorChar(s[i], CIPHER_KEY[i % |CIPHER_KEY|]))
  }

  /** The key of the old format is the byte 0x55, the letter U. */
  function LegacyObfuscate(s: string): string { Xored(s, 'U') }

  method ObfuscateCopy(value: string) returns (r: string)
    ensures r == Obfuscate(value)
  {
    r := value;
    for i := 0 to |value|
      invariant |r| == |value|
      invariant forall k :: 0 <= k < i ==> r[k] == Obfuscate(value)[k]
      invariant forall k :: i <= k < |r| ==> r[k] == value[k]
    {
      r := r[i := XorChar(r[i], CIPHER_KEY[i % |CIPHER_KEY|])];
    }
  }

  lemma ObfuscateTwice(s: string)
    ensures Obfuscate(Obfuscate(s)) == s
  {
    forall i | 0 <= i < |s| ensures Obfuscate(Obfuscate(s))[i] == s[i] {
      XorCharInvolution(s[i], CIPHER_KEY[i % |CIPHER_KEY|]);
    }
  }

  /** Keys that differ in their lowest bit never cancel out. */
  lemma KeysDoNotCancel(c: char, k: char, l: char)
    requires k as int % 2 != l as int % 2
    ensures XorChar(XorChar(c, k), l) != c
  {
    XorByteMoves(c as int, k as int, l as int);
  }

  // ---- The shape of a line ----

  predicate Stamped(s: string) {
    |s| >= 19 && s[4] == '-' && s[7] == '-' && s[10] == ' ' && s[13] == ':' && s[16] == ':'
  }

  predicate LooksLikeAuditLine(s: string) { Stamped(s) && Contains(s, " | user=") && Contains(s, " | type=") }

  function DecodePayload(payload: string): string {
    var current := Obfuscate(payload);
    var legacy := LegacyObfuscate(payload);
    if LooksLikeAuditLine(current) then current else if LooksLikeAuditLine(legacy) then legacy else current
  }

  /** What the old cipher made of an audit line never looks like one under the current key: the fifth
      byte of the key is 'r', which is even, and that of the old key is odd. */
  lemma LegacyNeverLooksCurrent(line: string)
    requires LooksLikeAuditLine(line)
    ensures !LooksLikeAuditLine(Obfuscate(LegacyObfuscate(line)))
  {
    KeysDoNotCancel(line[4], 'U', CIPHER_KEY[4]);
    assert Obfuscate(LegacyObfuscate(line))[4] != '-';
  }

  /** Every audit line is recovered from either encoding. */
  lemma DecodesBothCiphers(line: string)
    requires LooksLikeAuditLine(line)
    ensures DecodePayload(Obfuscate(line)) == line
    ensures DecodePayload(LegacyObfuscate(line)) == line
  {
    ObfuscateTwice(line);
    XoredTwice(line, 'U');
    LegacyNeverLooksCurrent(line);
  }

  /** A line of any other shape is recovered from the current encoding exactly when the sniffer does not
      take that encoding for an old one. */
  lemma DecodesExactly(line: string)
    ensures DecodePayload(Obfuscate(line)) == line <==>
      LooksLikeAuditLine(line) || !LooksLikeAuditLine(LegacyObfuscate(Obfuscate(line)))
  {
    ObfuscateTwice(line);
  }

  // ---- Lines ----

  predicate IsControl(c: char) { c < ' ' || c == 127 as char }

  predicate NoControl(s: string) { forall i :: 0 <= i < |s| ==> !IsControl(s[i]) }

  function Hex(n: int): char
    requires 0 <= n < 16
  {
    "0123456789ABCDEF"[n]
  }

  function Escape(c: char): (r: string)
    ensures r != "" && NoControl(r)
  {
    if c == '\n' then "\\n"
    else if c == '\r' then "\\r"
    else if c == '\t' then "\\t"
    else if IsControl(c) then "\\u00" + [Hex(c as int / 16), Hex(c as int % 16)]
    else [c]
  }

  function EscapeAll(s: string): (r: string)
    ensures NoControl(r)
  {
    if s == "" then "" else EscapeAll(s[..|s| - 1]) + Escape(s[|s| - 1])
  }

  method EscapeControlCharacters(value: string) returns (escaped: string)
    ensures escaped == EscapeAll(value)
  {
    escaped := "";
    for i := 0 to |value|
      invariant escaped == EscapeAll(value[..i])
    {
      assert value[..i + 1][..i] == value[..i];
      escaped := escaped + Escape(value[i]);
    }
    assert value[..|value|] == value;
  }

  /** Escaping leaves a text alone exactly when it has no control character. */
  lemma EscapeFixes(s: string)
    ensures EscapeAll(s) == s <==> NoControl(s)
  {
    if NoControl(s) { EscapeNothing(s); }
  }

  lemma {:induction false} EscapeNothing(s: string)
    requires NoControl(s)
    ensures EscapeAll(s) == s
  {
    if s != "" {
      EscapeNothing(s[..|s| - 1]);
      assert Escape(s[|s| - 1]) == [s[|s| - 1]];
      assert s == s[..|s| - 1] + [s[|s| - 1]];
    }
  }

  datatype User = User(name: string, kind: string)

  datatype Record = Record(user: User, category: string, detail: string, timestamp: string)

  function OrNone(s: string): string { if s == "" then "(none)" else s }

  /** The line of a record; its time is written by `%Y-%m-%d %H:%M:%S`. */
  function FormatLine(r: Record): string { Typed(r) + (" | " + EscapeAll(r.detail)) }

  function Typed(r: Record): string {
    Named(r) + (" | type=" + (OrNone(r.user.kind) + (" | " + EscapeAll(r.category))))
  }

  function Named(r: Record): string { r.timestamp + (" | user=" + OrNone(r.user.name)) }

  predicate IsTimestamp(t: string) {
    |t| == 19 && Stamped(t)
    && forall i :: 0 <= i < 19 && i !in {4, 7, 10, 13, 16} ==> '0' <= t[i] <= '9'
  }

  lemma ContainsIn(a: string, part: string, b: string)
    ensures Contains(a + (part + b), part)
  {
    assert PartAt(a + (part + b), part, |a|);
  }

  lemma ContainsBefore(a: string, b: string, part: string)
    requires Contains(a, part)
    ensures Contains(a + b, part)
  {
    var i: nat :| i <= |a| && PartAt(a, part, i);
    assert (a + b)[i..i + |part|] == a[i..i + |part|];
    assert PartAt(a + b, part, i);
  }

  lemma FormattedLooksLike(r: Record)
    requires IsTimestamp(r.timestamp)
    ensures LooksLikeAuditLine(FormatLine(r))
  {
    ContainsIn(r.timestamp, " | user=", OrNone(r.user.name));
    ContainsBefore(Named(r), " | type=" + (OrNone(r.user.kind) + (" | " + EscapeAll(r.category))), " | user=");
    ContainsIn(Named(r), " | type=", OrNone(r.user.kind) + (" | " + EscapeAll(r.category)));
    ContainsBefore(Typed(r), " | " + EscapeAll(r.detail), " | user=");
    ContainsBefore(Typed(r), " | " + EscapeAll(r.detail), " | type=");
    StampedBefore(r.timestamp, " | user=" + OrNone(r.user.name));
    StampedBefore(Named(r), " | type=" + (OrNone(r.user.kind) + (" | " + EscapeAll(r.category))));
    StampedBefore(Typed(r), " | " + EscapeAll(r.detail));
  }

  lemma StampedBefore(a: string, b: string)
    requires Stamped(a)
    ensures Stamped(a + b)
  {
  }

  /** `trimCopy`. */
  function Trim(s: string): string {
    if s != "" && (s[|s| - 1] == '\n' || s[|s| - 1] == '\r') then Trim(s[..|s| - 1]) else s
  }

  /** A formatted line ends in a blank or in an escaped detail. */
  lemma FormattedIsTrimmed(r: Record)
    ensures Trim(FormatLine(r)) == FormatLine(r)
  {
    LastOf(" | ", EscapeAll(r.detail));
    LastOf(Typed(r), " | " + EscapeAll(r.detail));
  }

  lemma LastOf(a: string, b: string)
    requires a + b != ""
    ensures (a + b)[|a + b| - 1] == if b == "" then a[|a| - 1] else b[|b| - 1]
  {
  }

  // ---- The file ----

  const HEADER := "TLOG1"

  const MAX_FILE := 64 * 1024 * 1024

  const MAX_RECORD := 1024 * 1024

  function Frame(payload: string): string { Little(|payload|, 8) + payload }

  function Frames(payloads: seq<string>): string {
    if payloads == [] then "" else Frame(payloads[0]) + Frames(payloads[1..])
  }

  lemma {:induction false} FramesAppend(a: seq<string>, b: seq<string>)
    ensures Frames(a + b) == Frames(a) + Frames(b)
  {
    if a == [] {
      assert a + b == b;
    } else {
      assert (a + b)[1..] == a[1..] + b;
      FramesAppend(a[1..], b);
    }
  }

  /** The payloads of what follows the header; nothing when a record is too long or cut short. */
  function ReadFrames(body: string): Option<seq<string>>
    decreases |body|
  {
    if body == "" then Some([])
    else if |body| < 8 then None
    else
      var size := FromLittle(body[..8]);
      if size > MAX_RECORD || 8 + size > |body| then None
      else Then([body[8..8 + size]], ReadFrames(body[8 + size..]))
  }

  predicate Bounded(payloads: seq<string>) { forall i :: 0 <= i < |payloads| ==> |payloads[i]| <= MAX_RECORD }

  lemma SizeOfFrame(payload: string)
    requires |payload| <= MAX_RECORD
    ensures FromLittle(Little(|payload|, 8)) == |payload| && |Frame(payload)| == 8 + |payload|
  {
    WordRoundTrip(|payload|);
  }

  /** Reading one record. */
  lemma ReadFrame(payload: string, rest: string)
    requires |payload| <= MAX_RECORD
    ensures ReadFrames(Frame(payload) + rest) == Then([payload], ReadFrames(rest))
  {
    var body := Frame(payload) + rest;
    SizeOfFrame(payload);
    assert body[..8] == Little(|payload|, 8);
    assert body[8..8 + |payload|] == payload;
    assert body[8 + |payload|..] == rest;
  }

  lemma {:induction false} ReadWhole(payloads: seq<string>)
    requires Bounded(payloads)
    ensures ReadFrames(Frames(payloads)) == Some(payloads)
  {
    if payloads != [] {
      ReadWhole(payloads[1..]);
      ReadFrame(payloads[0], Frames(payloads[1..]));
      assert payloads == [payloads[0]] + payloads[1..];
    }
  }

  /** Nothing but whole records is accepted. */
  lemma {:induction false} OnlyFramesRead(body: string)
    requires AreBytes(body) && ReadFrames(body).Some?
    ensures Bounded(ReadFrames(body).value) && body == Frames(ReadFrames(body).value)
    decreases |body|
  {
    if body != "" {
      var payload, rest := FirstFrame(body);
      OnlyFramesRead(rest);
      assert Frames([payload] + ReadFrames(rest).value) == Frame(payload) + Frames(ReadFrames(rest).value);
    }
  }

  lemma FirstFrame(body: string) returns (payload: string, rest: string)
    requires AreBytes(body) && body != "" && ReadFrames(body).Some?
    ensures |payload| <= MAX_RECORD && body == Frame(payload) + rest && AreBytes(rest)
    ensures ReadFrames(body) == Then([payload], ReadFrames(rest))
  {
    var size := FromLittle(body[..8]);
    payload, rest := body[8..8 + size], body[8 + size..];
    HeadAndTail(body, 8, 8 + size);
    LittleOfFromLittle(body[..8]);
  }

  lemma HeadAndTail(s: string, i: nat, j: nat)
    requires i <= j <= |s|
    ensures s == s[..i] + s[i..j] + s[j..] && (AreBytes(s) ==> AreBytes(s[..i]) && AreBytes(s[j..]))
  {
  }

  /** A record cut short is never accepted. */
  lemma ShortFrame(payload: string, rest: string, n: nat)
    requires |payload| <= MAX_RECORD && 0 < n < |Frame(payload)|
    ensures ReadFrames((Frame(payload) + rest)[..n]).None?
  {
    SizeOfFrame(payload);
    var cut := (Frame(payload) + rest)[..n];
    if n >= 8 { assert cut[..8] == Little(|payload|, 8); }
  }

  lemma PrefixPast<T>(a: seq<T>, b: seq<T>, n: nat)
    requires |a| <= n <= |a| + |b|
    ensures (a + b)[..n] == a + b[..n - |a|]
  {
  }

  /** A truncated sequence of records is accepted only when it is cut between two of them. */
  lemma {:induction false} CutBetween(payloads: seq<string>, n: nat) returns (k: nat)
    requires Bounded(payloads) && n <= |Frames(payloads)| && ReadFrames(Frames(payloads)[..n]).Some?
    ensures k <= |payloads| && n == |Frames(payloads[..k])|
  {
    k := 0;
    if n > 0 {
      var first, rest := Frame(payloads[0]), Frames(payloads[1..]);
      if n < |first| {
        ShortFrame(payloads[0], rest, n);
      } else {
        var m := n - |first|;
        PrefixPast(first, rest, n);
        ReadFrame(payloads[0], rest[..m]);
        var j := CutBetween(payloads[1..], m);
        k := j + 1;
        FramesTake(payloads, j);
      }
    }
  }

  lemma FramesTake(payloads: seq<string>, j: nat)
    requires j < |payloads|
    ensures Frames(payloads[..j + 1]) == Frame(payloads[0]) + Frames(payloads[1..][..j])
  {
    assert payloads[..j + 1][1..] == payloads[1..][..j];
  }

  datatype Failure = NotFound | StorageError

  datatype ReadResult = Lines(lines: seq<string>) | Unreadable(why: Failure)

  function DecodeAll(payloads: seq<string>): seq<string> {
    seq(|payloads|, i requires 0 <= i < |payloads| => Trim(DecodePayload(payloads[i])))
  }

  predicate HasHeader(file: string) { HEADER <= file }

  /** `readRecords`. */
  function Read(file: Option<string>): ReadResult {
    if file.None? then Unreadable(NotFound)
    else if |file.value| > MAX_FILE || !HasHeader(file.value) then Unreadable(StorageError)
    else
      var payloads := ReadFrames(file.value[|HEADER|..]);
      if payloads.None? then Unreadable(StorageError) else Lines(DecodeAll(payloads.value))
  }

  // ---- Appending ----

  /** Where the file system fails, if it does. */
  datatype Fault = NoFault | BeforeHeader | AfterHeader

  datatype Append = Append(record: Record, fault: Fault)

  /** The file after `appendRecord`, and whether the call succeeded. */
  function AppendStep(file: Option<string>, a: Append): (Option<string>, bool) {
    if a.fault == BeforeHeader || (file.Some? && !HasHeader(file.value)) then (file, false)
    else
      var text := if file.None? then HEADER else file.value;
      var payload := Obfuscate(FormatLine(a.record));
      if a.fault == AfterHeader || |payload| > MAX_RECORD || |text| + 8 + |payload| > MAX_FILE then (Some(text), false)
      else (Some(text + Frame(payload)), true)
  }

  function AppendRun(file: Option<string>, appends: seq<Append>): Option<string> {
    if appends == [] then file else AppendStep(AppendRun(file, appends[..|appends| - 1]), appends[|appends| - 1]).0
  }

  /** The records of the calls that succeeded. */
  function Recorded(file: Option<string>, appends: seq<Append>): seq<Record> {
    if appends == [] then [] else
    var before, last := appends[..|appends| - 1], appends[|appends| - 1];
    Recorded(file, before) + (if AppendStep(AppendRun(file, before), last).1 then [last.record] else [])
  }

  function FormatAll(records: seq<Record>): seq<string> {
    seq(|records|, i requires 0 <= i < |records| => FormatLine(records[i]))
  }

  /** The lines of the calls that succeeded. */
  function Appended(file: Option<string>, appends: seq<Append>): seq<string> { FormatAll(Recorded(file, appends)) }

  predicate AllStamped(appends: seq<Append>) {
    forall i :: 0 <= i < |appends| ==> IsTimestamp(appends[i].record.timestamp)
  }

  function ObfuscateAll(lines: seq<string>): seq<string> {
    seq(|lines|, i requires 0 <= i < |lines| => Obfuscate(lines[i]))
  }

  predicate Recordable(line: string) { LooksLikeAuditLine(line) && Trim(line) == line && |line| <= MAX_RECORD }

  /** A log file holds these lines. */
  predicate Holds(file: string, lines: seq<string>) {
    file == HEADER + Frames(ObfuscateAll(lines)) && |file| <= MAX_FILE
    && forall i :: 0 <= i < |lines| ==> Recordable(lines[i])
  }

  lemma HoldsOneMore(file: string, lines: seq<string>, line: string)
    requires Holds(file, lines) && Recordable(line) && |file| + 8 + |line| <= MAX_FILE
    ensures Holds(file + Frame(Obfuscate(line)), lines + [line])
  {
    assert ObfuscateAll(lines + [line]) == ObfuscateAll(lines) + [Obfuscate(line)];
    FramesAppend(ObfuscateAll(lines), [Obfuscate(line)]);
    assert Frames([Obfuscate(line)]) == Frame(Obfuscate(line));
    Assoc(HEADER, Frames(ObfuscateAll(lines)), Frame(Obfuscate(line)));
  }

  lemma DecodeAllObfuscated(lines: seq<string>)
    requires forall i :: 0 <= i < |lines| ==> Recordable(lines[i])
    ensures DecodeAll(ObfuscateAll(lines)) == lines
  {
    forall i | 0 <= i < |lines| ensures DecodeAll(ObfuscateAll(lines))[i] == lines[i] {
      DecodesBothCiphers(lines[i]);
    }
  }

  lemma BoundedObfuscated(lines: seq<string>)
    requires forall i :: 0 <= i < |lines| ==> Recordable(lines[i])
    ensures Bounded(ObfuscateAll(lines))
  {
  }

  lemma ReadHeld(file: string, lines: seq<string>)
    requires Holds(file, lines)
    ensures Read(Some(file)) == Lines(lines)
  {
    BoundedObfuscated(lines);
    ReadWhole(ObfuscateAll(lines));
    assert file[|HEADER|..] == Frames(ObfuscateAll(lines));
    DecodeAllObfuscated(lines);
  }

  /** No file and no lines, or a file that holds the lines. */
  predicate State(file: Option<string>, lines: seq<string>) {
    if file.None? then lines == [] else Holds(file.value, lines)
  }

  /** What one call adds to the lines. */
  function NewLines(file: Option<string>, a: Append): seq<string> {
    if AppendStep(file, a).1 then [FormatLine(a.record)] else []
  }

  lemma StepHolds(file: Option<string>, lines: seq<string>, a: Append)
    requires State(file, lines) && IsTimestamp(a.record.timestamp)
    ensures State(AppendStep(file, a).0, lines + NewLines(file, a))
  {
    var line := FormatLine(a.record);
    FormattedLooksLike(a.record);
    FormattedIsTrimmed(a.record);
    var text := if file.None? then HEADER else file.value;
    EmptyHolds();
    if AppendStep(file, a).1 { HoldsOneMore(text, lines, line); } else { assert lines + [] == lines; }
  }

  lemma FormatMore(records: seq<Record>, more: seq<Record>)
    ensures FormatAll(records + more) == FormatAll(records) + FormatAll(more)
  {
  }

  lemma EmptyHolds()
    ensures Holds(HEADER, [])
  {
    assert Frames([]) == "" && ObfuscateAll([]) == [];
  }

  lemma {:induction false} RunHolds(appends: seq<Append>)
    requires AllStamped(appends)
    ensures State(AppendRun(None, appends), Appended(None, appends))
  {
    if appends != [] {
      var before, last := appends[..|appends| - 1], appends[|appends| - 1];
      RunHolds(before);
      var file := AppendRun(None, before);
      StepHolds(file, Appended(None, before), last);
      var more := if AppendStep(file, last).1 then [last.record] else [];
      FormatMore(Recorded(None, before), more);
      assert FormatAll(more) == NewLines(file, last);
    }
  }

  /** After any run of appends from no file, reading returns exactly the lines of the calls that succeeded,
      in order; there is no file only when every call failed before it could create one. */
  lemma RunReads(appends: seq<Append>)
    requires AllStamped(appends)
    ensures var file := AppendRun(None, appends);
      Read(file) == if file.None? then Unreadable(NotFound) else Lines(Appended(None, appends))
    ensures AppendRun(None, appends).None? <==> forall i :: 0 <= i < |appends| ==> appends[i].fault == BeforeHeader
  {
    RunHolds(appends);
    FileExists(appends);
    var file := AppendRun(None, appends);
    if file.Some? { ReadHeld(file.value, Appended(None, appends)); }
  }

  lemma {:induction false} FileExists(appends: seq<Append>)
    ensures AppendRun(None, appends).None? <==> forall i :: 0 <= i < |appends| ==> appends[i].fault == BeforeHeader
  {
    if appends != [] { FileExists(appends[..|appends| - 1]); }
  }

  /** A copy of the file cut to `n` bytes is accepted exactly when it is cut at a record boundary, and
      then gives the lines before the cut. */
  lemma Truncated(file: string, lines: seq<string>, n: nat)
    requires Holds(file, lines) && n <= |file|
    ensures Read(Some(file[..n])).Lines? <==> exists k: nat :: k <= |lines| && n == CutAt(lines, k)
    ensures forall k: nat :: k <= |lines| && n == CutAt(lines, k) ==> Read(Some(file[..n])) == Lines(lines[..k])
  {
    forall k: nat | k <= |lines| && n == CutAt(lines, k) ensures Read(Some(file[..n])) == Lines(lines[..k]) {
      CutHolds(file, lines, k);
      ReadHeld(file[..n], lines[..k]);
    }
    if Read(Some(file[..n])).Lines? { var k := AcceptedCut(file, lines, n); }
  }

  lemma AcceptedCut(file: string, lines: seq<string>, n: nat) returns (k: nat)
    requires Holds(file, lines) && n <= |file| && Read(Some(file[..n])).Lines?
    ensures k <= |lines| && n == CutAt(lines, k)
  {
    var payloads := ObfuscateAll(lines);
    CutBody(HEADER, Frames(payloads), n);
    BoundedObfuscated(lines);
    k := CutBetween(payloads, n - |HEADER|);
    FirstObfuscated(lines, k);
  }

  lemma CutBody(header: string, body: string, n: nat)
    requires |header| <= n <= |header + body|
    ensures (header + body)[..n][|header|..] == body[..n - |header|]
  {
  }

  lemma FirstObfuscated(lines: seq<string>, k: nat)
    requires k <= |lines|
    ensures ObfuscateAll(lines)[..k] == ObfuscateAll(lines[..k])
  {
  }

  /** The length of a file that holds the first `k` lines. */
  function CutAt(lines: seq<string>, k: nat): nat
    requires k <= |lines|
  {
    |HEADER| + |Frames(ObfuscateAll(lines[..k]))|
  }

  lemma CutHolds(file: string, lines: seq<string>, k: nat)
    requires Holds(file, lines) && k <= |lines|
    ensures CutAt(lines, k) <= |file| && Holds(file[..CutAt(lines, k)], lines[..k])
  {
    var kept, cut := ObfuscateAll(lines[..k]), ObfuscateAll(lines[k..]);
    assert ObfuscateAll(lines) == kept + cut;
    FramesAppend(kept, cut);
    Assoc(HEADER, Frames(kept), Frames(cut));
    PrefixPast(HEADER + Frames(kept), Frames(cut), |HEADER + Frames(kept)|);
    assert Frames(cut)[..0] == [] && file[..CutAt(lines, k)] == HEADER + Frames(kept);
  }

  // ---- Exporting ----

  /** The line of a record has a newline exactly when the user's name or type has one: category and
      detail are escaped. */
  lemma NewlineInLine(r: Record)
    requires IsTimestamp(r.timestamp)
    ensures '\n' in FormatLine(r) <==> '\n' in r.user.name || '\n' in r.user.kind
  {
    InEither('\n', Typed(r), " | " + EscapeAll(r.detail));
    InEither('\n', Named(r), " | type=" + (OrNone(r.user.kind) + (" | " + EscapeAll(r.category))));
    InEither('\n', " | type=", OrNone(r.user.kind) + (" | " + EscapeAll(r.category)));
    InEither('\n', OrNone(r.user.kind), " | " + EscapeAll(r.category));
    InEither('\n', r.timestamp, " | user=" + OrNone(r.user.name));
    InEither('\n', " | user=", OrNone(r.user.name));
    InEither('\n', " | ", EscapeAll(r.category));
    InEither('\n', " | ", EscapeAll(r.detail));
  }

  lemma InEither(c: char, a: string, b: string)
    ensures c in a + b <==> c in a || c in b
  {
  }

  /** Splitting an export on newlines gives the lines back exactly when none of them has a newline. */
  lemma ExportSplits(lines: seq<string>)
    requires lines != []
    ensures Split(Join(lines, '\n'), '\n') == lines <==> forall i :: 0 <= i < |lines| ==> '\n' !in lines[i]
  {
    if forall i :: 0 <= i < |lines| ==> '\n' !in lines[i] { SplitJoin(lines, '\n'); }
    JoinSplit(Join(lines, '\n'), '\n');
  }

  /** The export of recorded lines can be split again exactly when no user's name or type has a newline. */
  lemma ExportOfRecords(records: seq<Record>)
    requires records != [] && forall i :: 0 <= i < |records| ==> IsTimestamp(records[i].timestamp)
    ensures var lines := FormatAll(records);
      Split(Join(lines, '\n'), '\n') == lines <==>
      forall i :: 0 <= i < |records| ==> '\n' !in records[i].user.name && '\n' !in records[i].user.kind
  {
    var lines := FormatAll(records);
    ExportSplits(lines);
    forall i | 0 <= i < |records|
      ensures '\n' in lines[i] <==> '\n' in records[i].user.name || '\n' in records[i].user.kind
    {
      NewlineInLine(records[i]);
    }
  }

  method JoinLines(lines: seq<string>) returns (content: string)
    ensures content == Join(lines, '\n')
  {
    content := "";
    for i := 0 to |lines|
      invariant content == if 0 < i < |lines| then Join(lines[..i], '\n') + "\n" else Join(lines[..i], '\n')
    {
      JoinAppend(lines[..i], lines[i], '\n');
      assert lines[..i + 1] == lines[..i] + [lines[i]];
      content := content + lines[i];
      if i + 1 < |lines| { content := content + "\n"; }
    }
    assert lines[..|lines|] == lines;
  }

  /** `appendRecord`: a missing file gets its header first. */
  method AppendTo(file: Option<string>, record: Record, fault: Fault) returns (after: Option<string>, ok: bool)
    ensures (after, ok) == AppendStep(file, Append(record, fault))
  {
    after, ok := file, false;
    if fault == BeforeHeader { return; }
    if file.None? { after := Some(HEADER); } else if !HasHeader(file.value) { return; }
    var payload := ObfuscateCopy(FormatLine(record));
    if |payload| > MAX_RECORD || MAX_FILE - |after.value| < 8 + |payload| || fault == AfterHeader { return; }
    after, ok := Some(after.value + Frame(payload)), true;
  }

  class LogFile {
    var file: Option<string>
    ghost var lines: seq<string>

    ghost predicate Valid()
      reads this
    {
      State(file, lines)
    }

    constructor ()
      ensures Valid() && file == None && lines == []
    {
      file, lines := None, [];
    }

    method AppendRecord(record: Record, fault: Fault) returns (ok: bool)
      requires Valid() && IsTimestamp(record.timestamp)
      modifies this
      ensures Valid() && (file, ok) == AppendStep(old(file), Append(record, fault))
      ensures lines == old(lines) + (if ok then [FormatLine(record)] else [])
    {
      StepHolds(file, lines, Append(record, fault));
      lines := lines + NewLines(file, Append(record, fault));
      file, ok := AppendTo(file, record, fault);
    }

    method ReadRecords() returns (r: ReadResult)
      requires Valid()
      ensures r == if file.None? then Unreadable(NotFound) else Lines(lines)
    {
      if file.Some? { ReadHeld(file.value, lines); }
      r := ReadAny(file);
    }

    method ExportTlog() returns (r: Option<string>)
      requires Valid()
      ensures r == if file.None? then None else Some(Join(lines, '\n'))
    {
      var read := ReadRecords();
      if read.Unreadable? { return None; }
      var content := JoinLines(read.lines);
      r := Some(content);
    }
  }

  function Decoded(payloads: Option<seq<string>>): Option<seq<string>> {
    if payloads.None? then None else Some(DecodeAll(payloads.value))
  }

  /** `readRecords`, on any file. */
  method ReadAny(file: Option<string>) returns (r: ReadResult)
    ensures r == Read(file)
  {
    if file.None? { return Unreadable(NotFound); }
    var text := file.value;
    if |text| < |HEADER| || |text| > MAX_FILE || text[..|HEADER|] != HEADER { return Unreadable(StorageError); }
    var lines := ReadLoop(text[|HEADER|..]);
    r := if lines.None? then Unreadable(StorageError) else Lines(lines.value);
  }

  method ReadLoop(body: string) returns (r: Option<seq<string>>)
    ensures r == Decoded(ReadFrames(body))
  {
    var lines: seq<string> := [];
    var position := 0;
    ghost var done := [];
    assert body[0..] == body;
    ThenNothing(ReadFrames(body));
    while position < |body|
      invariant position <= |body| && lines == DecodeAll(done)
      invariant ReadFrames(body) == Then(done, ReadFrames(body[position..]))
    {
      var payload, next := ReadOne(body, position);
      if payload.None? { return None; }
      ThenThen(done, payload.value, ReadFrames(body[next..]));
      DecodeOneMore(done, payload.value);
      lines := lines + [Trim(DecodePayload(payload.value))];
      done := done + [payload.value];
      position := next;
    }
    assert done + [] == done;
    r := Some(lines);
  }

  lemma DecodeOneMore(done: seq<string>, payload: string)
    ensures DecodeAll(done + [payload]) == DecodeAll(done) + [Trim(DecodePayload(payload))]
  {
  }

  /** One record from the stream, and where it ends. */
  method ReadOne(body: string, position: nat) returns (payload: Option<string>, next: nat)
    requires position < |body|
    ensures payload.None? ==> ReadFrames(body[position..]).None?
    ensures payload.Some? ==> position < next <= |body|
    ensures payload.Some? ==> ReadFrames(body[position..]) == Then([payload.value], ReadFrames(body[next..]))
  {
    payload, next := None, position;
    if |body| - position < 8 { return; }
    var size := FromLittle(body[position..position + 8]);
    ReadStep(body, position, size);
    if size > MAX_RECORD || |body| - position - 8 < size { return; }
    payload, next := Some(body[position + 8..position + 8 + size]), position + 8 + size;
  }

  lemma ReadStep(text: string, position: nat, size: nat)
    requires position + 8 <= |text| && size == FromLittle(text[position..position + 8])
    ensures size > MAX_RECORD || position + 8 + size > |text| ==> ReadFrames(text[position..]).None?
    ensures size <= MAX_RECORD && position + 8 + size <= |text| ==>
      var payload, rest := text[position + 8..position + 8 + size], text[position + 8 + size..];
      ReadFrames(text[position..]) == Then([payload], ReadFrames(rest))
  {
    var body := text[position..];
    assert body[..8] == text[position..position + 8];
    if size <= MAX_RECORD && position + 8 + size <= |text| {
      assert body[8..8 + size] == text[position + 8..position + 8 + size];
      assert body[8 + size..] == text[position + 8 + size..];
    }
  }
}
