/** TUX files, BACKEND/adapters/filesystem_tux_store.cpp: the byte format and the names of the interface. */
module TuxFormat {
  import opened Ascii
  import opened Bytes
  import opened Lines
  import opened Wrappers

  datatype Metadata = Metadata(creator: string, lastEditor: string, createTime: int, modifyTime: int)

  datatype Content = Content(content: string, metadata: Metadata)

  const VERSION := 1

  const MAX_NAME := 1024

  const MAX_CONTENT := 16 * 1024 * 1024

  // ---- Parts of a file ----

  /** `encryptDecrypt` of SYSTEM/crypto/crypto.cpp. */
  function EncryptDecrypt(s: string): string { Xored(s, 'U') }

  method EncryptDecryptInPlace(input: string) returns (output: string)
    ensures output == EncryptDecrypt(input)
  {
    output := input;
    for i := 0 to |input|
      invariant |output| == |input|
      invariant forall k :: 0 <= k < i ==> output[k] == EncryptDecrypt(input)[k]
      invariant forall k :: i <= k < |output| ==> output[k] == input[k]
    {
      output := output[i := XorChar(output[i], 'U')];
    }
  }

  function Put(s: string): string { Little(|s|, 8) + EncryptDecrypt(s) }

  /** `readEncryptedString`, and what it leaves of the stream. */
  function Take(s: string, max: nat): Option<(string, string)> {
    if |s| < 8 then None
    else
      var size := FromLittle(s[..8]);
      if size > max || 8 + size > |s| then None else Some((EncryptDecrypt(s[8..8 + size]), s[8 + size..]))
  }

  lemma TakePut(s: string, max: nat, rest: string)
    requires |s| <= max < WORD
    ensures Take(Put(s) + rest, max) == Some((s, rest))
  {
    WordRoundTrip(|s|);
    XoredTwice(s, 'U');
    var all := Put(s) + rest;
    assert all[..8] == Little(|s|, 8);
    assert all[8..8 + |s|] == EncryptDecrypt(s);
    assert all[8 + |s|..] == rest;
  }

  predicate IsInt64(n: int) { -0x8000_0000_0000_0000 <= n < 0x8000_0000_0000_0000 }

  function FromInt64(n: int): string { Little(n % WORD, 8) }

  function ToInt64(s: string): int {
    var n := FromLittle(s) % WORD;
    if n < 0x8000_0000_0000_0000 then n else n - WORD
  }

  lemma SignedModulus(n: int)
    requires IsInt64(n)
    ensures var m := n % WORD; m % WORD == m && n == if m < 0x8000_0000_0000_0000 then m else m - WORD
  {
    if n < 0 { assert n % WORD == n + WORD; }
  }

  lemma Int64RoundTrip(n: int)
    requires IsInt64(n)
    ensures ToInt64(FromInt64(n)) == n
  {
    WordRoundTrip(n % WORD);
    SignedModulus(n);
  }

  // ---- Whole files ----

  function Encode(c: Content): string {
    Little(VERSION, 4) + (Put(c.metadata.creator) + (Put(c.metadata.lastEditor)
    + (FromInt64(c.metadata.createTime) + (FromInt64(c.metadata.modifyTime) + Put(c.content)))))
  }

  /** Writing refuses anything longer than the reader accepts. */
  predicate Writable(c: Content) {
    |c.metadata.creator| <= MAX_NAME && |c.metadata.lastEditor| <= MAX_NAME && |c.content| <= MAX_CONTENT
  }

  /** The metadata and the rest of the file. */
  function TakeMetadata(file: string): Option<(Metadata, string)> {
    if |file| < 4 || FromLittle(file[..4]) != VERSION then None else
    var creator := Take(file[4..], MAX_NAME);
    if creator.None? then None else
    var editor := Take(creator.value.1, MAX_NAME);
    if editor.None? || |editor.value.1| < 16 then None else
    var times := editor.value.1;
    Some((Metadata(creator.value.0, editor.value.0, ToInt64(times[..8]), ToInt64(times[8..16])), times[16..]))
  }

  function ReadMetadata(file: string): Option<Metadata> {
    var r := TakeMetadata(file);
    if r.None? then None else Some(r.value.0)
  }

  function ReadAll(file: string): Option<Content> {
    var r := TakeMetadata(file);
    if r.None? then None else
    var content := Take(r.value.1, MAX_CONTENT);
    if content.None? then None else Some(Content(content.value.0, r.value.0))
  }

  predicate Times(m: Metadata) { IsInt64(m.createTime) && IsInt64(m.modifyTime) }

  lemma TakeEncodedMetadata(c: Content)
    requires Writable(c) && Times(c.metadata)
    ensures TakeMetadata(Encode(c)) == Some((c.metadata, Put(c.content)))
  {
    var m := c.metadata;
    var late := FromInt64(m.modifyTime) + Put(c.content);
    var times := FromInt64(m.createTime) + late;
    var edited := Put(m.lastEditor) + times;
    HalfWordRoundTrip(VERSION);
    Cut(Little(VERSION, 4), Put(m.creator) + edited);
    TakePut(m.creator, MAX_NAME, edited);
    TakePut(m.lastEditor, MAX_NAME, times);
    Int64RoundTrip(m.createTime);
    Int64RoundTrip(m.modifyTime);
    CutTwice(FromInt64(m.createTime), FromInt64(m.modifyTime), Put(c.content));
  }

  lemma CutTwice(a: string, b: string, rest: string)
    requires |a| == |b| == 8
    ensures var all := a + (b + rest); all[..8] == a && all[8..16] == b && all[16..] == rest
  {
  }

  lemma Cut(a: string, b: string)
    ensures (a + b)[..|a|] == a && (a + b)[|a|..] == b
  {
  }

  /** What is written can be read again, the metadata alone as well as the whole. */
  lemma EncodedReads(c: Content)
    requires Writable(c) && Times(c.metadata)
    ensures ReadMetadata(Encode(c)) == Some(c.metadata) && ReadAll(Encode(c)) == Some(c)
  {
    TakeEncodedMetadata(c);
    TakePut(c.content, MAX_CONTENT, "");
    assert Put(c.content) + "" == Put(c.content);
  }

  // ---- The names of the interface ----

  type Path = seq<string>

  predicate IsAlnum(c: char) { 'a' <= c <= 'z' || 'A' <= c <= 'Z' || '0' <= c <= '9' }

  predicate ValidComponent(s: string) {
    s != "" && forall i :: 0 <= i < |s| ==> IsAlnum(s[i]) || s[i] == '-' || s[i] == '_'
  }

  predicate ReservedDevice(name: string) {
    var lower := Lower(name);
    lower in ["con", "prn", "aux", "nul"]
    || (|lower| == 4 && (lower[..3] == "com" || lower[..3] == "lpt") && '1' <= lower[3] <= '9')
  }

  predicate Usable(part: string) { ValidComponent(part) && !ReservedDevice(part) && Lower(part) != "temp" }

  /** `splitApiPath` for a file: `getline` drops an empty part after a final separator. */
  function SplitApiPath(path: string): Option<Path> {
    var parts := GetLines(path, '/');
    if path == "" || '\\' in path || path[0] == '/' || exists i :: 0 <= i < |parts| && !Usable(parts[i]) then None
    else Some(parts)
  }

  /** A name and its parts determine each other, up to one separator at the end. */
  lemma PartsDetermineName(path: string)
    requires SplitApiPath(path).Some?
    ensures var joined := Join(SplitApiPath(path).value, '/'); path == joined || path == joined + "/"
  {
    LinesJoined(path);
  }

  lemma LinesJoined(path: string)
    requires path != ""
    ensures var joined := Join(GetLines(path, '/'), '/'); path == joined || path == joined + "/"
  {
    var parts := Split(path, '/');
    GetLinesSplit(path, '/');
    JoinSplit(path, '/');
    if parts[|parts| - 1] == [] { JoinWithoutLast(parts[..|parts| - 1], parts); }
  }

  lemma JoinWithoutLast(parts: Path, all: Path)
    requires all == parts + [""] && Join(all, '/') != ""
    ensures Join(all, '/') == Join(parts, '/') + "/"
  {
    JoinAppend(parts, "", '/');
    assert Join(parts, '/') + "/" + "" == Join(parts, '/') + "/";
  }

  /** Two names mean the same file exactly when they differ at most by one separator at the end. */
  lemma SameFile(p: string, q: string)
    requires SplitApiPath(p).Some? && SplitApiPath(q).Some?
    ensures SplitApiPath(p) == SplitApiPath(q) <==> p == q || p == q + "/" || q == p + "/"
  {
    PartsDetermineName(p);
    PartsDetermineName(q);
    if p == q + "/" { OneSeparatorAtMost(q); }
    if q == p + "/" { OneSeparatorAtMost(p); }
  }

  lemma OneSeparatorAtMost(s: string)
    requires s != "" && SplitApiPath(s + "/").Some?
    ensures GetLines(s + "/", '/') == GetLines(s, '/')
  {
    if s[|s| - 1] == '/' { EmptyPart(s); } else { DropSeparator(s); }
  }

  /** Two separators at the end leave an empty part. */
  lemma {:induction false} EmptyPart(s: string)
    requires s != "" && s[|s| - 1] == '/'
    ensures "" in GetLines(s + "/", '/')
  {
    var i := IndexOf(s, '/');
    assert i < |s| by { IndexOfNone(s, '/'); }
    assert s[..i] == (s + "/")[..i];
    IndexOfUnique(s + "/", '/', i);
    assert (s + "/")[i + 1..] == s[i + 1..] + "/";
    if s[i + 1..] != "" {
      EmptyPart(s[i + 1..]);
    } else {
      assert s[i + 1..] + "/" == "/" && GetLines("/", '/')[0] == "";
    }
  }

  /** Such names. */
  lemma OneFileTwoNames()
    ensures SplitApiPath("a") == SplitApiPath("a/") == Some(["a"])
  {
    assert "a" + "/" == "a/" && IndexOf("a", '/') == 1;
    assert GetLines("a", '/') == ["a"];
    DropSeparator("a");
    assert Lower("a") == "a";
  }

  /** `getline` does not see one separator at the end. */
  lemma {:induction false} DropSeparator(s: string)
    requires s != "" && s[|s| - 1] != '/'
    ensures GetLines(s + "/", '/') == GetLines(s, '/')
  {
    var i := IndexOf(s, '/');
    if i == |s| {
      IndexOfNone(s, '/');
      IndexOfAfter(s, '/', "");
      assert s + ['/'] + "" == s + "/";
      assert GetLines("", '/') == [];
    } else {
      assert s[..i] == (s + "/")[..i];
      IndexOfUnique(s + "/", '/', i);
      DropSeparator(s[i + 1..]);
      assert (s + "/")[i + 1..] == s[i + 1..] + "/";
    }
  }
}
