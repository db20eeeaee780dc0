/** The codec as SHARED/protocol/json.cpp writes it: a parser object that advances a position and
    grows strings, arrays and objects in loops, and printers that append to accumulators.  Every
    method is proved to compute the function that the other modules relate to the grammar. */
module JsonMachine {
  import opened Ascii
  import opened Concat
  import opened JsonValues
  import opened JsonGrammar
  import opened JsonParsing
  import opened JsonPrinting
  import JsonSound

  class JsonParser {
    const input: string
    var position: nat

    ghost predicate Valid()
      reads this
    {
      position <= |input|
    }

    /** The text not read yet. */
    ghost function Rest(): string
      reads this
      requires Valid()
    {
      input[position..]
    }

    /** The object did what `spec` says: same value and same text left, or same error. */
    ghost predicate Did<T>(spec: Parse<T>, r: Outcome<T>)
      reads this
      requires Valid()
    {
      match spec
      case Parsed(v, rest) => r == Success(v) && Rest() == rest
      case Failed(m) => r == Failure(m)
    }

    constructor (text: string)
      ensures Valid() && Rest() == text
    {
      input := text;
      position := 0;
    }

    function PeekChar(): (c: char)
      reads this
      requires Valid()
      ensures c == Peek(Rest())
    {
      if position >= |input| then '\0' else input[position]
    }

    method Advance() returns (r: Outcome<char>)
      requires Valid()
      modifies this`position
      ensures Valid()
      ensures old(Rest()) == "" ==> r == Failure("Unexpected end of JSON input.") && Rest() == ""
      ensures old(Rest()) != "" ==> r == Success(old(Rest())[0]) && Rest() == old(Rest())[1..]
    {
      if position >= |input| { return Failure("Unexpected end of JSON input."); }
      r := Success(input[position]);
      position := position + 1;
    }

    method Match(expected: char) returns (matched: bool)
      requires Valid() && expected != '\0'
      modifies this`position
      ensures Valid()
      ensures matched == (Peek(old(Rest())) == expected)
      ensures Rest() == if matched then old(Rest())[1..] else old(Rest())
    {
      if PeekChar() != expected { return false; }
      position := position + 1;
      return true;
    }

    method SkipWhitespace()
      requires Valid()
      modifies this`position
      ensures Valid() && Rest() == SkipBlanks(old(Rest()))
    {
      while position < |input| && IsBlank(PeekChar())
        invariant Valid() && SkipBlanks(Rest()) == SkipBlanks(old(Rest()))
      {
        assert Rest()[1..] == input[position + 1..];
        position := position + 1;
      }
    }

    method TakeDigits()
      requires Valid()
      modifies this`position
      ensures Valid() && Rest() == SkipDigits(old(Rest())) && old(position) <= position
    {
      while IsDigit(PeekChar())
        invariant Valid() && SkipDigits(Rest()) == SkipDigits(old(Rest())) && old(position) <= position
        decreases |input| - position
      {
        var _ := Advance();
      }
    }

    // ---- Strings ----

    method ParseUnicodeEscape() returns (r: Outcome<char>)
      requires Valid()
      modifies this`position
      ensures Valid() && Did(HexEscape(old(Rest())), r)
    {
      ghost var text := Rest();
      var value: nat, i := 0, 0;
      while i < 4
        invariant 0 <= i <= 4 && i <= |text| && Valid() && Rest() == text[i..]
        invariant forall j :: 0 <= j < i ==> IsHexDigit(text[j])
        invariant value == (match i
          case 0 => 0
          case 1 => HexValue(text[0])
          case 2 => HexValue(text[0]) * 16 + HexValue(text[1])
          case 3 => (HexValue(text[0]) * 16 + HexValue(text[1])) * 16 + HexValue(text[2])
          case _ => HexCode(text[..4]))
      {
        var c :- Advance();
        assert c == text[i];
        if !IsHexDigit(c) { return Failure("Invalid unicode escape."); }
        value := value * 16 + HexValue(c);
        i := i + 1;
      }
      if value > 0x7f { return Failure("Unsupported unicode escape."); }
      return Success(value as char);
    }

    method ParseEscape() returns (r: Outcome<char>)
      requires Valid()
      modifies this`position
      ensures Valid() && Did(JsonParsing.Escape(old(Rest())), r)
    {
      var escaped :- Advance();
      match escaped
      case 'u' => r := ParseUnicodeEscape();
      case '"' => r := Success('"');
      case '\\' => r := Success('\\');
      case '/' => r := Success('/');
      case 'b' => r := Success('\U{8}');
      case 'f' => r := Success('\U{C}');
      case 'n' => r := Success('\n');
      case 'r' => r := Success('\r');
      case 't' => r := Success('\t');
      case _ => r := Failure("Invalid string escape.");
    }

    /** What the loop of `ParseString` has left to produce once it holds `out`. */
    static function Prepend(out: string, p: Parse<string>): Parse<string> {
      match p
      case Parsed(tail, rest) => Parsed(out + tail, rest)
      case Failed(m) => Failed(m)
    }

    method ParseString() returns (r: Outcome<string>)
      requires Valid()
      modifies this`position
      ensures Valid() && Did(JsonParsing.ParseString(old(Rest())), r)
    {
      ghost var text := Rest();
      var quoted := Match('"');
      if !quoted { return Failure("Expected string."); }
      ghost var body := Rest();
      var out := "";
      PrependNothing(StringBody(body));
      while position < |input|
        invariant Valid() && StringBody(body) == Prepend(out, StringBody(Rest()))
        decreases |input| - position
      {
        ghost var here, held := Rest(), out;
        var next := Advance();
        var ch := next.value;
        if ch == '"' { assert out + "" == out; return Success(out); }
        if ch < ' ' { return Failure("Unescaped control character in string."); }
        if ch == '\\' {
          var c :- ParseEscape();
          out := out + [c];
        } else {
          out := out + [ch];
        }
        StringStep(here, held, out, Rest());
      }
      return Failure("Unterminated string.");
    }

    static lemma PrependNothing(p: Parse<string>)
      ensures Prepend("", p) == p
    {
      if p.Parsed? { assert "" + p.value == p.value; }
    }

    static lemma StringStep(here: string, held: string, out: string, rest: string)
      requires here != "" && here[0] != '"' && here[0] >= ' '
      requires if here[0] == '\\'
        then JsonParsing.Escape(here[1..]).Parsed? && out == held + [JsonParsing.Escape(here[1..]).value]
          && rest == JsonParsing.Escape(here[1..]).rest
        else out == held + [here[0]] && rest == here[1..]
      ensures Prepend(held, StringBody(here)) == Prepend(out, StringBody(rest))
    {
      var c := if here[0] == '\\' then JsonParsing.Escape(here[1..]).value else here[0];
      if StringBody(rest).Parsed? {
        assert held + ([c] + StringBody(rest).value) == out + StringBody(rest).value;
      }
    }

    // ---- Numbers ----

    method ParseNumber() returns (r: Outcome<Json>)
      requires Valid()
      modifies this`position
      ensures Valid() && Did(JsonParsing.ParseNumber(old(Rest())), r)
    {
      ghost var text := Rest();
      var negative := Match('-');
      WholePartDigits(Rest());
      var whole :- ParseWhole();
      FractionPartDigits(Rest());
      var fraction :- ParseFraction();
      var value := Decimal(negative, whole, fraction);
      if !Finite(value) { return Failure("Invalid number."); }
      return Success(Number(value));
    }

    method ParseWhole() returns (r: Outcome<string>)
      requires Valid()
      modifies this`position
      ensures Valid() && Did(WholePart(old(Rest())), r)
    {
      ghost var text := Rest();
      var start := position;
      if !IsDigit(PeekChar()) { return Failure("Expected digit in number."); }
      var zero := Match('0');
      if zero {
        if IsDigit(PeekChar()) { return Failure("Leading zero in number."); }
        return Success("0");
      }
      TakeDigits();
      assert text[..|text| - |Rest()|] == input[start..position];
      return Success(input[start..position]);
    }

    method ParseFraction() returns (r: Outcome<string>)
      requires Valid()
      modifies this`position
      ensures Valid() && Did(FractionPart(old(Rest())), r)
    {
      ghost var text := Rest();
      var point := Match('.');
      if !point { return Success(""); }
      if !IsDigit(PeekChar()) { return Failure("Expected digit after decimal point."); }
      var start := position;
      TakeDigits();
      assert text[1..][..|text| - 1 - |Rest()|] == input[start..position];
      return Success(input[start..position]);
    }

    // ---- Values ----

    method ParseLiteral(literal: string, value: Json) returns (r: Outcome<Json>)
      requires Valid()
      modifies this`position
      ensures Valid() && Did(JsonParsing.ParseLiteral(old(Rest()), literal, value), r)
    {
      var i := 0;
      while i < |literal|
        invariant 0 <= i <= |literal| && Valid()
        invariant JsonParsing.ParseLiteral(old(Rest()), literal, value)
               == JsonParsing.ParseLiteral(Rest(), literal[i..], value)
      {
        assert literal[i..][1..] == literal[i + 1..];
        var c :- Advance();
        if c != literal[i] { return Failure("Invalid JSON literal."); }
        i := i + 1;
      }
      return Success(value);
    }

    method ParseValue() returns (r: Outcome<Json>)
      requires Valid()
      modifies this`position
      ensures Valid() && Did(JsonParsing.ParseValue(old(Rest())), r)
      decreases |input| - position, 1
    {
      ghost var text := Rest();
      SkipWhitespace();
      assert |Rest()| <= |text|;
      match PeekChar()
      case '{' => r := ParseObject();
      case '[' => r := ParseArray();
      case '"' =>
        var s :- ParseString();
        r := Success(String(s));
      case 't' => r := ParseLiteral("true", Bool(true));
      case 'f' => r := ParseLiteral("false", Bool(false));
      case 'n' => r := ParseLiteral("null", Null);
      case c =>
        if c == '-' || IsDigit(c) { r := ParseNumber(); } else { r := Failure("Expected JSON value."); }
    }

    static function PrependItems(items: seq<Json>, p: Parse<seq<Json>>): Parse<Json> {
      match p
      case Parsed(more, rest) => Parsed(Array(items + more), rest)
      case Failed(m) => Failed(m)
    }

    method ParseArray() returns (r: Outcome<Json>)
      requires Valid() && Peek(Rest()) == '['
      modifies this`position
      ensures Valid() && Did(JsonParsing.ParseArray(old(Rest())), r)
      decreases |input| - position, 0
    {
      ghost var text := Rest();
      var _ := Match('[');
      var items: seq<Json> := [];
      SkipWhitespace();
      var empty := Match(']');
      if empty { return Success(Array(items)); }
      ItemsStart(ParseItems(Rest()));
      while true
        invariant Valid() && |Rest()| < |text|
        invariant JsonParsing.ParseArray(text) == PrependItems(items, ParseItems(Rest()))
        decreases |Rest()|
      {
        ghost var here, held := Rest(), items;
        var v :- ParseValue();
        items := items + [v];
        SkipWhitespace();
        ghost var after := Rest();
        var closed := Match(']');
        ItemsStep(here, held, v);
        if closed { return Success(Array(items)); }
        var comma := Match(',');
        if !comma { return Failure("Expected ',' between array values."); }
      }
    }

    static lemma ItemsStart(p: Parse<seq<Json>>)
      ensures p.Parsed? ==> PrependItems([], p) == Parsed(Array(p.value), p.rest)
    {
      if p.Parsed? { assert [] + p.value == p.value; }
    }

    static lemma ItemsStep(here: string, held: seq<Json>, v: Json)
      requires JsonParsing.ParseValue(here).Parsed? && JsonParsing.ParseValue(here).value == v
      ensures var s := SkipBlanks(JsonParsing.ParseValue(here).rest);
        PrependItems(held, ParseItems(here)) ==
          if Peek(s) == ']' then Parsed(Array(held + [v]), s[1..])
          else if Peek(s) != ',' then Failed("Expected ',' between array values.")
          else PrependItems(held + [v], ParseItems(s[1..]))
    {
      var s := SkipBlanks(JsonParsing.ParseValue(here).rest);
      if Peek(s) == ',' && ParseItems(s[1..]).Parsed? {
        assert held + ([v] + ParseItems(s[1..]).value) == held + [v] + ParseItems(s[1..]).value;
      }
    }

    static function AsObject(p: Parse<seq<Member>>): Parse<Json> {
      match p
      case Parsed(members, rest) => Parsed(Object(members), rest)
      case Failed(m) => Failed(m)
    }

    method ParseObject() returns (r: Outcome<Json>)
      requires Valid() && Peek(Rest()) == '{'
      modifies this`position
      ensures Valid() && Did(JsonParsing.ParseObject(old(Rest())), r)
      decreases |input| - position, 0
    {
      ghost var text := Rest();
      var _ := Match('{');
      var members: seq<Member> := [];
      SkipWhitespace();
      var empty := Match('}');
      if empty { return Success(Object(members)); }
      while true
        invariant Valid() && |Rest()| < |text|
        invariant JsonParsing.ParseObject(text) == AsObject(ParseMembers(Rest(), members))
        decreases |Rest()|
      {
        ghost var here, held := Rest(), members;
        var key :- ParseKey();
        var value :- ParseValue();
        if HasKey(members, key) { return Failure("Duplicate object key."); }
        members := Insert(members, Member(key, value));
        MembersStep(here, held, Member(key, value), Rest());
        SkipWhitespace();
        var closed := Match('}');
        if closed { return Success(Object(members)); }
        var comma := Match(',');
        if !comma { return Failure("Expected ',' between object entries."); }
      }
    }

    /** The part of the member loop before the value. */
    method ParseKey() returns (r: Outcome<string>)
      requires Valid()
      modifies this`position
      ensures Valid() && Did(ParseHead(old(Rest())), r)
    {
      SkipWhitespace();
      if PeekChar() != '"' { return Failure("Expected object key."); }
      var key :- ParseString();
      SkipWhitespace();
      var colon := Match(':');
      if !colon { return Failure("Expected ':' after object key."); }
      return Success(key);
    }

    method Parse() returns (r: Outcome<Json>)
      requires Valid()
      modifies this`position
      ensures Valid() && r == ParseDocument(old(Rest()))
    {
      SkipWhitespace();
      var value :- ParseValue();
      SkipWhitespace();
      if position < |input| { return Failure("Unexpected trailing characters."); }
      return Success(value);
    }
  }

  /** `parseJson`: succeeds with `v` exactly when the text is a document of the grammar with value `v`. */
  method ParseJson(text: string) returns (r: Outcome<Json>)
    ensures r == ParseDocument(text)
    ensures forall v :: r == Success(v) <==> Document(text, v)
  {
    forall v ensures ParseDocument(text) == Success(v) <==> Document(text, v) {
      JsonSound.ParserMatchesGrammar(text, v);
    }
    var parser := new JsonParser(text);
    r := parser.Parse();
  }

  // ---- Printing ----

  method EscapeText(input: string) returns (out: string)
    ensures out == EscapeString(input)
  {
    out := "";
    for i := 0 to |input|
      invariant EscapeString(input) == out + EscapeString(input[i..])
    {
      assert input[i..][1..] == input[i + 1..];
      out := out + EscapeChar(input[i]);
    }
  }

  method StringifyNumber(value: real) returns (text: string)
    ensures text == PrintNumber(value)
  {
    text := Fixed15(value);
    while text != "" && text[|text| - 1] == '0'
      invariant TrimZeros(text) == TrimZeros(Fixed15(value))
      decreases |text|
    {
      text := text[..|text| - 1];
    }
    if text != "" && text[|text| - 1] == '.' { text := text[..|text| - 1]; }
    if text == "-0" { text := "0"; }
  }

  method StringifyJson(value: Json) returns (out: string)
    ensures out == Print(value)
    decreases value
  {
    match value
    case Null => out := "null";
    case Bool(b) => out := if b then "true" else "false";
    case Number(n) => out := StringifyNumber(n);
    case String(s) =>
      var e := EscapeText(s);
      out := "\"" + e + "\"";
    case Array(items) => out := StringifyItems(items);
    case Object(members) => out := StringifyMembers(members);
  }

  method StringifyItems(items: seq<Json>) returns (out: string)
    ensures out == "[" + PrintItems(items) + "]"
    decreases items
  {
    out := "[";
    var first := true;
    for i := 0 to |items|
      invariant first == (i == 0)
      invariant out == "[" + PrintItems(items[..i])
    {
      ItemAppended(items, i);
      if !first { out := out + ","; }
      first := false;
      var text := StringifyJson(items[i]);
      out := out + text;
    }
    assert items[..|items|] == items;
    out := out + "]";
  }

  lemma ItemAppended(items: seq<Json>, i: nat)
    requires i < |items|
    ensures "[" + PrintItems(items[..i + 1])
      == "[" + PrintItems(items[..i]) + (if i == 0 then "" else ",") + Print(items[i])
  {
    PrintItemsLast(items[..i], items[i]);
    assert items[..i + 1] == items[..i] + [items[i]];
    AssocBetween("[", PrintItems(items[..i]), if i == 0 then "" else ",", Print(items[i]));
  }

  lemma AssocBetween(open: string, a: string, b: string, c: string)
    ensures open + (a + b + c) == open + a + b + c
  {
    Assoc(open, a + b, c);
    Assoc(open, a, b);
  }

  method StringifyMembers(members: seq<Member>) returns (out: string)
    ensures out == "{" + PrintMembers(members) + "}"
    decreases members
  {
    out := "{";
    var first := true;
    for i := 0 to |members|
      invariant first == (i == 0)
      invariant out == "{" + PrintMembers(members[..i])
    {
      MemberAppended(members, i);
      if !first { out := out + ","; }
      first := false;
      var text := StringifyMember(members[i]);
      out := out + text;
    }
    assert members[..|members|] == members;
    out := out + "}";
  }

  lemma MemberAppended(members: seq<Member>, i: nat)
    requires i < |members|
    ensures "{" + PrintMembers(members[..i + 1])
      == "{" + PrintMembers(members[..i]) + (if i == 0 then "" else ",") + PrintMember(members[i])
  {
    PrintMembersLast(members[..i], members[i]);
    assert members[..i + 1] == members[..i] + [members[i]];
    AssocBetween("{", PrintMembers(members[..i]), if i == 0 then "" else ",", PrintMember(members[i]));
  }

  method StringifyMember(m: Member) returns (text: string)
    ensures text == PrintMember(m)
    decreases m
  {
    var key := EscapeText(m.key);
    var value := StringifyJson(m.value);
    text := "\"" + key + "\":" + value;
  }

  lemma {:induction false} PrintItemsLast(items: seq<Json>, v: Json)
    ensures PrintItems(items + [v]) == PrintItems(items) + (if items == [] then "" else ",") + Print(v)
    decreases items
  {
    if items == [] {
      assert [] + [v] == [v] && PrintItems([]) == "" && Print(v) + "" == Print(v);
    } else {
      assert (items + [v])[1..] == items[1..] + [v];
      PrintItemsLast(items[1..], v);
      var sep := if |items| == 1 then "" else ",";
      LastAppended(Print(items[0]), PrintItems(items[1..]), sep, Print(v));
      assert |items| == 1 ==> PrintItems(items[1..]) == "";
    }
  }

  lemma {:induction false} PrintMembersLast(members: seq<Member>, m: Member)
    ensures PrintMembers(members + [m]) == PrintMembers(members) + (if members == [] then "" else ",") + PrintMember(m)
    decreases members
  {
    if members == [] {
      assert [] + [m] == [m] && PrintMembers([]) == "" && PrintMember(m) + "" == PrintMember(m);
    } else {
      assert (members + [m])[1..] == members[1..] + [m];
      PrintMembersLast(members[1..], m);
      var sep := if |members| == 1 then "" else ",";
      LastAppended(PrintMember(members[0]), PrintMembers(members[1..]), sep, PrintMember(m));
      assert |members| == 1 ==> PrintMembers(members[1..]) == "";
    }
  }

  /** A last element after others, with or without elements between it and the first. */
  lemma LastAppended(first: string, middle: string, sep: string, last: string)
    ensures first + ("," + (middle + sep + last)) == first + ("," + middle) + sep + last
    ensures first + ("," + ("" + "" + last)) == first + "" + "," + last
  {
    Assoc(",", middle + sep, last);
    Assoc(",", middle, sep);
    Assoc(first, "," + middle + sep, last);
    Assoc(first, "," + middle, sep);
    assert "" + "" + last == last && first + "" == first;
    Assoc(first, ",", last);
  }
}
