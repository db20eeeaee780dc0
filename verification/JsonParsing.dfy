/** The recursive descent of SHARED/protocol/json.cpp as functions from the unread text to a value
    and the text left.  The class `JsonParser` computes them with a position; here they are related
    to the grammar, in both directions. */
module JsonParsing {
  import opened Ascii
  import opened JsonValues
  import opened JsonGrammar

  datatype Parse<T> = Parsed(value: T, rest: string) | Failed(message: string) {
    predicate IsFailure() { Failed? }
    function PropagateFailure<U>(): Parse<U>
      requires Failed?
    {
      Failed(message)
    }
    function Extract(): (T, string)
      requires Parsed?
    {
      (value, rest)
    }
    ghost predicate Shortens(s: string) {
      Parsed? ==> |rest| < |s|
    }
  }

  /** `peek`: NUL stands for the end of the text. */
  function Peek(s: string): char { if s == "" then '\0' else s[0] }

  function SkipBlanks(s: string): (r: string)
    ensures |r| <= |s|
  {
    if s != "" && IsBlank(s[0]) then SkipBlanks(s[1..]) else s
  }

  function SkipDigits(s: string): (r: string)
    ensures |r| <= |s|
  {
    if IsDigit(Peek(s)) then SkipDigits(s[1..]) else s
  }

  // ---- Strings ----

  function HexEscape(s: string): (r: Parse<char>)
    ensures r.Shortens(s)
  {
    if exists i :: 0 <= i < 4 && i < |s| && !IsHexDigit(s[i]) then Failed("Invalid unicode escape.")
    else if |s| < 4 then Failed("Unexpected end of JSON input.")
    else if HexCode(s[..4]) > 0x7f then Failed("Unsupported unicode escape.")
    else Parsed(HexCode(s[..4]) as char, s[4..])
  }

  function Escape(s: string): (r: Parse<char>)
    ensures r.Shortens(s)
  {
    if s == "" then Failed("Unexpected end of JSON input.")
    else if s[0] == 'u' then HexEscape(s[1..])
    else if s[0] in ESCAPABLE then Parsed(Unescaped(s[0]), s[1..])
    else Failed("Invalid string escape.")
  }

  function StringBody(s: string): (r: Parse<string>)
    ensures r.Shortens(s)
  {
    if s == "" then Failed("Unterminated string.")
    else if s[0] == '"' then Parsed("", s[1..])
    else if s[0] < ' ' then Failed("Unescaped control character in string.")
    else if s[0] == '\\' then
      var (c, s1) :- Escape(s[1..]);
      var (tail, s2) :- StringBody(s1);
      Parsed([c] + tail, s2)
    else
      var (tail, s1) :- StringBody(s[1..]);
      Parsed([s[0]] + tail, s1)
  }

  function ParseString(s: string): (r: Parse<string>)
    ensures r.Shortens(s)
  {
    if Peek(s) != '"' then Failed("Expected string.") else StringBody(s[1..])
  }

  // ---- Numbers ----

  function WholePart(s: string): (r: Parse<string>)
    ensures r.Shortens(s)
  {
    if !IsDigit(Peek(s)) then Failed("Expected digit in number.")
    else if s[0] == '0' then
      if IsDigit(Peek(s[1..])) then Failed("Leading zero in number.") else Parsed("0", s[1..])
    else
      var rest := SkipDigits(s);
      Parsed(s[..|s| - |rest|], rest)
  }

  function FractionPart(s: string): (r: Parse<string>)
    ensures r.Parsed? ==> |r.rest| <= |s|
  {
    if Peek(s) != '.' then Parsed("", s)
    else if !IsDigit(Peek(s[1..])) then Failed("Expected digit after decimal point.")
    else
      var rest := SkipDigits(s[1..]);
      Parsed(s[1..][..|s| - 1 - |rest|], rest)
  }

  lemma {:induction false} SkipDigitsSkips(s: string)
    ensures var r := SkipDigits(s);
      Digits(s[..|s| - |r|]) && s == s[..|s| - |r|] + r && !IsDigit(Peek(r)) && (IsDigit(Peek(s)) ==> |r| < |s|)
  {
    if IsDigit(Peek(s)) {
      SkipDigitsSkips(s[1..]);
      var k := |s| - |SkipDigits(s)|;
      assert s[..k] == [s[0]] + s[1..][..k - 1];
    }
  }

  lemma WholePartDigits(s: string)
    ensures WholePart(s).Parsed? ==>
      var w := WholePart(s).value;
      Digits(w) && w != "" && (w == "0" || w[0] != '0')
      && s == w + WholePart(s).rest && !IsDigit(Peek(WholePart(s).rest))
  {
    SkipDigitsSkips(s);
  }

  lemma FractionPartDigits(s: string)
    ensures FractionPart(s).Parsed? ==>
      var f := FractionPart(s).value;
      && Digits(f)
      && s == (if f == "" then "" else "." + f) + FractionPart(s).rest
      && (f != "" ==> !IsDigit(Peek(FractionPart(s).rest)))
  {
    if s != "" { SkipDigitsSkips(s[1..]); }
  }

  function ParseNumber(s: string): (r: Parse<Json>)
    ensures r.Shortens(s)
  {
    var negative := Peek(s) == '-';
    var (whole, s1) :- WholePart(if negative then s[1..] else s);
    var (fraction, s2) :- FractionPart(s1);
    WholePartDigits(if negative then s[1..] else s);
    FractionPartDigits(s1);
    var n := Decimal(negative, whole, fraction);
    if Finite(n) then Parsed(Number(n), s2) else Failed("Invalid number.")
  }

  // ---- Values ----

  /** The longest part of `literal` that `s` can match decides which error is raised. */
  function ParseLiteral(s: string, literal: string, v: Json): (r: Parse<Json>)
    ensures literal != "" ==> r.Shortens(s)
    ensures r.Parsed? ==> |r.rest| <= |s|
    decreases literal
  {
    if literal == "" then Parsed(v, s)
    else if s == "" then Failed("Unexpected end of JSON input.")
    else if s[0] != literal[0] then Failed("Invalid JSON literal.")
    else ParseLiteral(s[1..], literal[1..], v)
  }

  function ParseValue(s: string): (r: Parse<Json>)
    ensures r.Shortens(s)
    decreases |s|, 1
  {
    var s1 := SkipBlanks(s);
    match Peek(s1)
    case '{' => ParseObject(s1)
    case '[' => ParseArray(s1)
    case '"' =>
      var (text, s2) :- ParseString(s1);
      Parsed(String(text), s2)
    case 't' => ParseLiteral(s1, "true", Bool(true))
    case 'f' => ParseLiteral(s1, "false", Bool(false))
    case 'n' => ParseLiteral(s1, "null", Null)
    case c => if c == '-' || IsDigit(c) then ParseNumber(s1) else Failed("Expected JSON value.")
  }

  function ParseArray(s: string): (r: Parse<Json>)
    requires Peek(s) == '['
    ensures r.Shortens(s)
    decreases |s|, 0
  {
    var s1 := SkipBlanks(s[1..]);
    if Peek(s1) == ']' then Parsed(Array([]), s1[1..]) else
    var (items, s2) :- ParseItems(s1);
    Parsed(Array(items), s2)
  }

  function ParseItems(s: string): (r: Parse<seq<Json>>)
    ensures r.Shortens(s)
    decreases |s|, 2
  {
    var (v, s1) :- ParseValue(s);
    var s2 := SkipBlanks(s1);
    if Peek(s2) == ']' then Parsed([v], s2[1..])
    else if Peek(s2) != ',' then Failed("Expected ',' between array values.")
    else
      var (vs, s3) :- ParseItems(s2[1..]);
      Parsed([v] + vs, s3)
  }

  function ParseObject(s: string): (r: Parse<Json>)
    requires Peek(s) == '{'
    ensures r.Shortens(s)
    decreases |s|, 0
  {
    var s1 := SkipBlanks(s[1..]);
    if Peek(s1) == '}' then Parsed(Object([]), s1[1..]) else
    var (members, s2) :- ParseMembers(s1, []);
    Parsed(Object(members), s2)
  }

  /** Everything of a member up to its value. */
  function ParseHead(s: string): (r: Parse<string>)
    ensures r.Shortens(s)
  {
    var s1 := SkipBlanks(s);
    if Peek(s1) != '"' then Failed("Expected object key.") else
    var (key, s2) :- ParseString(s1);
    var s3 := SkipBlanks(s2);
    if Peek(s3) != ':' then Failed("Expected ':' after object key.") else
    Parsed(key, s3[1..])
  }

  function ParseMembers(s: string, found: seq<Member>): (r: Parse<seq<Member>>)
    ensures r.Shortens(s)
    decreases |s|, 2
  {
    var (key, s1) :- ParseHead(s);
    var (v, s2) :- ParseValue(s1);
    if HasKey(found, key) then Failed("Duplicate object key.") else
    var members := Insert(found, Member(key, v));
    var s3 := SkipBlanks(s2);
    if Peek(s3) == '}' then Parsed(members, s3[1..])
    else if Peek(s3) != ',' then Failed("Expected ',' between object entries.")
    else ParseMembers(s3[1..], members)
  }

  /** One turn of the member loop. */
  lemma MembersStep(text: string, found: seq<Member>, m: Member, rest: string)
    requires ParseHead(text).Parsed? && ParseHead(text).value == m.key
    requires ParseValue(ParseHead(text).rest) == Parsed(m.value, rest)
    requires !HasKey(found, m.key)
    ensures var s := SkipBlanks(rest);
      ParseMembers(text, found) ==
        if Peek(s) == '}' then Parsed(Insert(found, m), s[1..])
        else if Peek(s) != ',' then Failed("Expected ',' between object entries.")
        else ParseMembers(s[1..], Insert(found, m))
  {
  }

  datatype Outcome<T> = Success(value: T) | Failure(message: string) {
    predicate IsFailure() { Failure? }
    function PropagateFailure<U>(): Outcome<U>
      requires Failure?
    {
      Failure(message)
    }
    function Extract(): T
      requires Success?
    {
      value
    }
  }

  function ParseDocument(s: string): Outcome<Json> {
    match ParseValue(SkipBlanks(s))
    case Failed(m) => Failure(m)
    case Parsed(v, rest) =>
      if SkipBlanks(rest) == "" then Success(v) else Failure("Unexpected trailing characters.")
  }
}
