/** The texts of the protocol, as parse trees: sections 2 to 7 of RFC 8259, without exponents, with
    `\u` escapes up to 007F only, with unique member names and with finite numbers.  `Render` gives
    the text of a tree and `Denote` its value; neither mentions the parser. */
module JsonGrammar {
  import opened Ascii
  import opened JsonValues

  datatype CharToken =
    | Plain(c: char)
    | Short(c: char)
    | Hex(digits: string)

  datatype NumberToken = NumberToken(negative: bool, whole: string, fraction: string)

  /** Brackets and separators are drawn by the list forms below, so that every tree is finite and
      every list has its closing bracket. */
  datatype Tree =
    | TNull | TTrue | TFalse
    | TNumber(num: NumberToken)
    | TString(chars: seq<CharToken>)
    | TEmptyArray(gap: string)
    | TArray(items: Items)
    | TEmptyObject(gap: string)
    | TObject(entries: Entries)
  datatype Items =
    | LastItem(before: string, value: Tree, after: string)
    | MoreItems(before: string, value: Tree, after: string, next: Items)
  datatype Entries =
    | LastEntry(head: EntryHead, value: Tree, after: string)
    | MoreEntries(head: EntryHead, value: Tree, after: string, next: Entries)
  datatype EntryHead = EntryHead(before: string, key: seq<CharToken>, beforeColon: string, afterColon: string)

  // ---- Characters ----

  predicate IsBlank(c: char) { c == ' ' || c == '\t' || c == '\n' || c == '\r' }

  predicate Blanks(s: string) { forall i :: 0 <= i < |s| ==> IsBlank(s[i]) }

  predicate Digits(s: string) { forall i :: 0 <= i < |s| ==> IsDigit(s[i]) }

  function HexValue(c: char): nat
    requires IsHexDigit(c)
  {
    if '0' <= c <= '9' then (c - '0') as nat
    else if 'a' <= c <= 'f' then (c - 'a') as nat + 10
    else (c - 'A') as nat + 10
  }

  // ---- Strings ----

  const ESCAPABLE := "\"\\/bfnrt"

  function Unescaped(e: char): char
    requires e in ESCAPABLE
  {
    match e
    case 'b' => '\U{8}'
    case 'f' => '\U{C}'
    case 'n' => '\n'
    case 'r' => '\r'
    case 't' => '\t'
    case _ => e
  }

  function HexCode(h: string): nat
    requires |h| == 4 && forall i :: 0 <= i < 4 ==> IsHexDigit(h[i])
  {
    ((HexValue(h[0]) * 16 + HexValue(h[1])) * 16 + HexValue(h[2])) * 16 + HexValue(h[3])
  }

  predicate CharOk(t: CharToken) {
    match t
    case Plain(c) => c >= ' ' && c != '"' && c != '\\'
    case Short(c) => c in ESCAPABLE
    case Hex(h) => |h| == 4 && (forall i :: 0 <= i < 4 ==> IsHexDigit(h[i])) && HexCode(h) <= 0x7f
  }

  predicate CharsOk(ts: seq<CharToken>) { forall i :: 0 <= i < |ts| ==> CharOk(ts[i]) }

  function RenderChar(t: CharToken): string {
    match t
    case Plain(c) => [c]
    case Short(c) => ['\\', c]
    case Hex(h) => "\\u" + h
  }

  function DenoteChar(t: CharToken): char
    requires CharOk(t)
  {
    match t
    case Plain(c) => c
    case Short(c) => Unescaped(c)
    case Hex(h) => HexCode(h) as char
  }

  function RenderChars(ts: seq<CharToken>): string {
    if ts == [] then "" else RenderChar(ts[0]) + RenderChars(ts[1..])
  }

  function DenoteChars(ts: seq<CharToken>): string
    requires CharsOk(ts)
  {
    seq(|ts|, i requires 0 <= i < |ts| => DenoteChar(ts[i]))
  }

  function RenderString(ts: seq<CharToken>): string { "\"" + RenderChars(ts) + "\"" }

  // ---- Numbers ----

  function DigitsValue(s: string): nat
    requires Digits(s)
  {
    if s == "" then 0 else DigitsValue(s[..|s| - 1]) * 10 + (s[|s| - 1] - '0') as nat
  }

  function Pow10(k: nat): (p: nat)
    ensures p > 0
  {
    if k == 0 then 1 else 10 * Pow10(k - 1)
  }

  /** Decimal notation: the digits read as one integer, over a power of ten. */
  function Decimal(negative: bool, whole: string, fraction: string): real
    requires Digits(whole) && Digits(fraction)
  {
    assert Digits(whole + fraction);
    var size := DigitsValue(whole + fraction) as real / Pow10(|fraction|) as real;
    if negative then -size else size
  }

  predicate NumberOk(t: NumberToken) {
    && t.whole != "" && Digits(t.whole) && (t.whole == "0" || t.whole[0] != '0')
    && Digits(t.fraction)
    && Finite(Decimal(t.negative, t.whole, t.fraction))
  }

  function RenderNumber(t: NumberToken): string {
    (if t.negative then "-" else "") + t.whole + (if t.fraction == "" then "" else "." + t.fraction)
  }

  // ---- Values ----

  predicate Ok(t: Tree) {
    match t
    case TNumber(num) => NumberOk(num)
    case TString(chars) => CharsOk(chars)
    case TEmptyArray(gap) => Blanks(gap)
    case TArray(items) => ItemsOk(items)
    case TEmptyObject(gap) => Blanks(gap)
    case TObject(entries) => EntriesOk(entries, {})
    case _ => true
  }

  predicate ItemsOk(l: Items) {
    Blanks(l.before) && Ok(l.value) && Blanks(l.after) && (l.MoreItems? ==> ItemsOk(l.next))
  }

  predicate HeadOk(h: EntryHead) {
    Blanks(h.before) && CharsOk(h.key) && Blanks(h.beforeColon) && Blanks(h.afterColon)
  }

  /** No member name of `l` repeats another or one of `taken`. */
  predicate EntriesOk(l: Entries, taken: set<string>) {
    && HeadOk(l.head) && Ok(l.value) && Blanks(l.after)
    && DenoteChars(l.head.key) !in taken
    && (l.MoreEntries? ==> EntriesOk(l.next, taken + {DenoteChars(l.head.key)}))
  }

  function Render(t: Tree): string {
    match t
    case TNull => "null"
    case TTrue => "true"
    case TFalse => "false"
    case TNumber(num) => RenderNumber(num)
    case TString(chars) => RenderString(chars)
    case TEmptyArray(gap) => "[" + gap + "]"
    case TArray(items) => "[" + RenderItems(items)
    case TEmptyObject(gap) => "{" + gap + "}"
    case TObject(entries) => "{" + RenderEntries(entries)
  }

  function RenderItems(l: Items): string {
    match l
    case LastItem(before, value, after) => before + Render(value) + after + "]"
    case MoreItems(before, value, after, next) => before + Render(value) + after + "," + RenderItems(next)
  }

  function RenderHead(h: EntryHead): string {
    h.before + RenderString(h.key) + h.beforeColon + ":" + h.afterColon
  }

  function RenderEntries(l: Entries): string {
    match l
    case LastEntry(head, value, after) => RenderHead(head) + Render(value) + after + "}"
    case MoreEntries(head, value, after, next) => RenderHead(head) + Render(value) + after + "," + RenderEntries(next)
  }

  function Denote(t: Tree): Json
    requires Ok(t)
  {
    match t
    case TNull => Null
    case TTrue => Bool(true)
    case TFalse => Bool(false)
    case TNumber(num) => Number(Decimal(num.negative, num.whole, num.fraction))
    case TString(chars) => String(DenoteChars(chars))
    case TEmptyArray(_) => Array([])
    case TArray(items) => Array(DenoteItems(items))
    case TEmptyObject(_) => Object([])
    case TObject(entries) => Object(InsertAll([], DenoteEntries(entries, {})))
  }

  function DenoteItems(l: Items): seq<Json>
    requires ItemsOk(l)
  {
    [Denote(l.value)] + (if l.MoreItems? then DenoteItems(l.next) else [])
  }

  function DenoteEntries(l: Entries, taken: set<string>): seq<Member>
    requires EntriesOk(l, taken)
  {
    var key := DenoteChars(l.head.key);
    [Member(key, Denote(l.value))] + (if l.MoreEntries? then DenoteEntries(l.next, taken + {key}) else [])
  }

  /** The text `s` is a document whose value is `v`. */
  ghost predicate Document(s: string, v: Json) {
    exists before, t, after :: DocumentTree(s, v, before, t, after)
  }

  ghost predicate DocumentTree(s: string, v: Json, before: string, t: Tree, after: string) {
    Blanks(before) && Ok(t) && Blanks(after) && s == before + Render(t) + after && Denote(t) == v
  }
}
