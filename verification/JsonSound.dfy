/** Everything the parser accepts is a text of the grammar, and the value is the one it denotes. */
module JsonSound {
  import opened JsonValues
  import opened JsonGrammar
  import opened JsonParsing
  import opened JsonComplete
  import opened Concat

  lemma {:induction false} BlanksSkipped(s: string) returns (b: string)
    ensures Blanks(b) && s == b + SkipBlanks(s)
  {
    if s != "" && IsBlank(s[0]) {
      var tail := BlanksSkipped(s[1..]);
      b := [s[0]] + tail;
    } else {
      b := "";
    }
  }

  // ---- Strings ----

  lemma EscapeSound(s: string) returns (t: CharToken)
    requires Escape(s).Parsed?
    ensures CharOk(t) && !t.Plain? && DenoteChar(t) == Escape(s).value
    ensures "\\" + s == RenderChar(t) + Escape(s).rest
  {
    if s[0] == 'u' {
      var h := s[1..][..4];
      t := Hex(h);
      assert s == ['u'] + h + s[1..][4..];
    } else {
      t := Short(s[0]);
    }
  }

  lemma CharsCons(t: CharToken, ts: seq<CharToken>)
    requires CharOk(t) && CharsOk(ts)
    ensures CharsOk([t] + ts) && DenoteChars([t] + ts) == [DenoteChar(t)] + DenoteChars(ts)
    ensures RenderChars([t] + ts) == RenderChar(t) + RenderChars(ts)
  {
    assert ([t] + ts)[1..] == ts;
  }

  lemma {:induction false} CharsSound(s: string) returns (ts: seq<CharToken>)
    requires StringBody(s).Parsed?
    ensures CharsOk(ts) && DenoteChars(ts) == StringBody(s).value
    ensures s == RenderChars(ts) + "\"" + StringBody(s).rest
  {
    assert s == [s[0]] + s[1..];
    if s[0] == '"' {
      ts := [];
    } else {
      var t, rest := CharSound(s);
      var more := CharsSound(rest);
      CharsCons(t, more);
      Assoc(RenderChar(t), RenderChars(more), "\"" + StringBody(rest).rest);
      Assoc(RenderChars(more), "\"", StringBody(rest).rest);
      Assoc(RenderChars([t] + more), "\"", StringBody(s).rest);
      ts := [t] + more;
    }
  }

  lemma CharSound(s: string) returns (t: CharToken, rest: string)
    requires StringBody(s).Parsed? && s[0] != '"'
    ensures CharOk(t) && s == RenderChar(t) + rest && |rest| < |s|
    ensures StringBody(rest).Parsed?
    ensures StringBody(s) == Parsed([DenoteChar(t)] + StringBody(rest).value, StringBody(rest).rest)
  {
    assert s == [s[0]] + s[1..];
    if s[0] == '\\' {
      t := EscapeSound(s[1..]);
      rest := Escape(s[1..]).rest;
    } else {
      t, rest := Plain(s[0]), s[1..];
    }
  }

  lemma StringSound(s: string) returns (ts: seq<CharToken>)
    requires ParseString(s).Parsed?
    ensures CharsOk(ts) && DenoteChars(ts) == ParseString(s).value
    ensures s == RenderString(ts) + ParseString(s).rest
  {
    ts := CharsSound(s[1..]);
    assert s == "\"" + s[1..];
  }

  // ---- Numbers ----

  lemma NumberSound(s: string) returns (t: NumberToken)
    requires ParseNumber(s).Parsed?
    ensures NumberOk(t) && ParseNumber(s).value == Number(Decimal(t.negative, t.whole, t.fraction))
    ensures s == RenderNumber(t) + ParseNumber(s).rest
  {
    var negative := Peek(s) == '-';
    var s1 := if negative then s[1..] else s;
    var whole := WholePart(s1);
    var fraction := FractionPart(whole.rest);
    WholePartDigits(s1);
    FractionPartDigits(whole.rest);
    t := NumberToken(negative, whole.value, fraction.value);
    NumberParts(s, t, s1, whole.rest, fraction.rest);
  }

  lemma NumberParts(s: string, t: NumberToken, s1: string, s2: string, s3: string)
    requires s == (if t.negative then "-" else "") + s1 && s1 == t.whole + s2
    requires s2 == (if t.fraction == "" then "" else "." + t.fraction) + s3
    ensures s == RenderNumber(t) + s3
  {
  }

  // ---- Values ----

  lemma {:induction false} LiteralSound(s: string, literal: string, v: Json)
    requires ParseLiteral(s, literal, v).Parsed?
    ensures ParseLiteral(s, literal, v).value == v && s == literal + ParseLiteral(s, literal, v).rest
    decreases literal
  {
    if literal != "" {
      LiteralSound(s[1..], literal[1..], v);
      Uncons(s);
      Uncons(literal);
      Tail(literal[0], literal[1..], ParseLiteral(s, literal, v).rest);
    }
  }

  lemma {:induction false} ValueSound(s: string) returns (blanks: string, t: Tree)
    requires ParseValue(s).Parsed?
    ensures Blanks(blanks) && Ok(t) && Denote(t) == ParseValue(s).value
    ensures s == blanks + Render(t) + ParseValue(s).rest
    decreases |s|, 3, 0
  {
    blanks := BlanksSkipped(s);
    var text := SkipBlanks(s);
    ValueCases(s);
    match Peek(text)
    case '{' => t := ObjectSound(text);
    case '[' => t := ArraySound(text);
    case _ => t := ScalarSound(text);
    Assoc(blanks, Render(t), ParseValue(s).rest);
  }

  lemma ValueCases(s: string)
    ensures var text := SkipBlanks(s);
      && SkipBlanks(text) == text
      && ParseValue(s) == (match Peek(text)
        case '{' => ParseObject(text)
        case '[' => ParseArray(text)
        case _ => ParseValue(text))
  {
    SkipBlanksTwice(s);
  }

  lemma ScalarSound(s: string) returns (t: Tree)
    requires SkipBlanks(s) == s && Peek(s) != '{' && Peek(s) != '[' && ParseValue(s).Parsed?
    ensures Ok(t) && Denote(t) == ParseValue(s).value && s == Render(t) + ParseValue(s).rest
  {
    match Peek(s)
    case '"' => var ts := StringSound(s); t := TString(ts);
    case 't' => LiteralSound(s, "true", Bool(true)); t := TTrue;
    case 'f' => LiteralSound(s, "false", Bool(false)); t := TFalse;
    case 'n' => LiteralSound(s, "null", Null); t := TNull;
    case _ => var num := NumberSound(s); t := TNumber(num);
  }

  lemma ArraySound(s: string) returns (t: Tree)
    requires Peek(s) == '[' && ParseArray(s).Parsed?
    ensures Ok(t) && Denote(t) == ParseArray(s).value && s == Render(t) + ParseArray(s).rest
    decreases |s|, 2
  {
    var s1 := SkipBlanks(s[1..]);
    Uncons(s);
    ArrayCases(s);
    if Peek(s1) == ']' {
      var gap := BlanksSkipped(s[1..]);
      t := TEmptyArray(gap);
      BracketText(s, gap, s1);
    } else {
      var items := ItemsSound(s[1..]);
      t := TArray(items);
      Assoc("[", RenderItems(items), ParseArray(s).rest);
    }
  }

  /** An opening bracket, blanks and the closing bracket. */
  lemma BracketText(s: string, gap: string, s1: string)
    requires s != "" && s1 != "" && s[1..] == gap + s1
    ensures s == [s[0]] + gap + [s1[0]] + s1[1..]
  {
    Uncons(s);
    Uncons(s1);
    Assoc([s[0]], gap, s1);
    Assoc([s[0]] + gap, [s1[0]], s1[1..]);
  }

  lemma {:induction false} ItemsSound(s: string) returns (l: Items)
    requires ParseItems(s).Parsed?
    ensures ItemsOk(l) && DenoteItems(l) == ParseItems(s).value
    ensures s == RenderItems(l) + ParseItems(s).rest
    decreases |s|, 4
  {
    var before, t, after := ItemSound(s);
    var s2 := SkipBlanks(ParseValue(s).rest);
    if Peek(s2) == ']' {
      l := LastItem(before, t, after);
      assert DenoteItems(l) == [Denote(t)];
      LastItemText(s, l, s2);
    } else {
      var next := ItemsSound(s2[1..]);
      l := MoreItems(before, t, after, next);
      MoreItemsText(s, l, s2, ParseItems(s2[1..]).rest);
    }
  }

  lemma ItemSound(s: string) returns (before: string, t: Tree, after: string)
    requires ParseValue(s).Parsed?
    ensures Blanks(before) && Ok(t) && Denote(t) == ParseValue(s).value && Blanks(after)
    ensures s == before + Render(t) + after + SkipBlanks(ParseValue(s).rest)
    decreases |s|, 3, 1
  {
    before, t := ValueSound(s);
    after := BlanksSkipped(ParseValue(s).rest);
    Assoc(before + Render(t), after, SkipBlanks(ParseValue(s).rest));
  }

  lemma LastItemText(s: string, l: Items, s2: string)
    requires l.LastItem? && s == l.before + Render(l.value) + l.after + s2 && Peek(s2) == ']'
    ensures s == RenderItems(l) + s2[1..]
  {
    Uncons(s2);
    Assoc(l.before + Render(l.value) + l.after, "]", s2[1..]);
  }

  lemma MoreItemsText(s: string, l: Items, s2: string, rest: string)
    requires l.MoreItems? && s == l.before + Render(l.value) + l.after + s2 && Peek(s2) == ','
    requires s2[1..] == RenderItems(l.next) + rest
    ensures s == RenderItems(l) + rest
  {
    var item := l.before + Render(l.value) + l.after;
    Uncons(s2);
    Assoc(item, ",", s2[1..]);
    Assoc(item + ",", RenderItems(l.next), rest);
  }

  lemma ObjectSound(s: string) returns (t: Tree)
    requires Peek(s) == '{' && ParseObject(s).Parsed?
    ensures Ok(t) && Denote(t) == ParseObject(s).value && s == Render(t) + ParseObject(s).rest
    decreases |s|, 2
  {
    var s1 := SkipBlanks(s[1..]);
    Uncons(s);
    ObjectCases(s);
    if Peek(s1) == '}' {
      var gap := BlanksSkipped(s[1..]);
      t := TEmptyObject(gap);
      BracketText(s, gap, s1);
    } else {
      var entries := MembersSound(s[1..], [], {});
      t := TObject(entries);
      Assoc("{", RenderEntries(entries), ParseObject(s).rest);
    }
  }

  lemma HeadSound(s: string) returns (h: EntryHead)
    requires ParseHead(s).Parsed?
    ensures HeadOk(h) && h.afterColon == "" && DenoteChars(h.key) == ParseHead(s).value
    ensures s == h.before + RenderString(h.key) + h.beforeColon + ":" + ParseHead(s).rest
  {
    var before := BlanksSkipped(s);
    var s1 := SkipBlanks(s);
    var key := StringSound(s1);
    var s2 := ParseString(s1).rest;
    var beforeColon := BlanksSkipped(s2);
    var s3 := SkipBlanks(s2);
    h := EntryHead(before, key, beforeColon, "");
    Uncons(s3);
    Pieces4(s, before, s1, RenderString(key), s2, beforeColon, s3, ":", s3[1..]);
  }

  lemma {:induction false} MembersSound(s: string, found: seq<Member>, taken: set<string>) returns (l: Entries)
    requires ParseMembers(s, found).Parsed?
    requires Sorted(found) && forall k :: HasKey(found, k) <==> k in taken
    ensures EntriesOk(l, taken) && InsertAll(found, DenoteEntries(l, taken)) == ParseMembers(s, found).value
    ensures s == RenderEntries(l) + ParseMembers(s, found).rest
    decreases |s|, 4
  {
    var head, t, after := MemberSound(s);
    var s2 := ParseValue(ParseHead(s).rest).rest;
    var s3 := SkipBlanks(s2);
    var m := Member(DenoteChars(head.key), Denote(t));
    InsertSorts(found, m);
    MembersStep(s, found, m, s2);
    if Peek(s3) == '}' {
      l := LastEntry(head, t, after);
      LastEntryText(s, l, s3);
    } else {
      var next := MembersSound(s3[1..], Insert(found, m), taken + {m.key});
      l := MoreEntries(head, t, after, next);
      MoreEntriesText(s, l, s3, ParseMembers(s, found).rest);
    }
    DenoteEntriesCons(l, taken, found);
  }

  lemma LastEntryText(s: string, l: Entries, s3: string)
    requires l.LastEntry? && s == RenderHead(l.head) + Render(l.value) + l.after + s3 && Peek(s3) == '}'
    ensures s == RenderEntries(l) + s3[1..]
  {
    Uncons(s3);
    Assoc(RenderHead(l.head) + Render(l.value) + l.after, "}", s3[1..]);
  }

  lemma MoreEntriesText(s: string, l: Entries, s3: string, rest: string)
    requires l.MoreEntries? && s == RenderHead(l.head) + Render(l.value) + l.after + s3 && Peek(s3) == ','
    requires s3[1..] == RenderEntries(l.next) + rest
    ensures s == RenderEntries(l) + rest
  {
    var entry := RenderHead(l.head) + Render(l.value) + l.after;
    Uncons(s3);
    Assoc(entry, ",", s3[1..]);
    Assoc(entry + ",", RenderEntries(l.next), rest);
  }

  lemma MemberSound(s: string) returns (head: EntryHead, t: Tree, after: string)
    requires ParseHead(s).Parsed? && ParseValue(ParseHead(s).rest).Parsed?
    ensures HeadOk(head) && DenoteChars(head.key) == ParseHead(s).value
    ensures Ok(t) && Denote(t) == ParseValue(ParseHead(s).rest).value && Blanks(after)
    ensures s == RenderHead(head) + Render(t) + after + SkipBlanks(ParseValue(ParseHead(s).rest).rest)
    decreases |s|, 3
  {
    var h := HeadSound(s);
    var s1 := ParseHead(s).rest;
    var blanks;
    blanks, t, after := ItemSound(s1);
    head := h.(afterColon := blanks);
    var front := h.before + RenderString(h.key) + h.beforeColon + ":";
    var rest := SkipBlanks(ParseValue(s1).rest);
    MemberText(s, front, s1, blanks, Render(t), after, rest);
  }

  lemma MemberText(s: string, front: string, s1: string, blanks: string, value: string, after: string, rest: string)
    requires s == front + s1 && s1 == blanks + value + after + rest
    ensures s == front + blanks + value + after + rest
  {
    Assoc(blanks + value, after, rest);
    Assoc(blanks, value, after + rest);
    Pieces4(s, front, s1, blanks, value + (after + rest), value, after + rest, after, rest);
  }

  /** The parser accepts exactly the documents of the grammar and returns the value they denote. */
  lemma ParserMatchesGrammar(s: string, v: Json)
    ensures ParseDocument(s) == Success(v) <==> Document(s, v)
  {
    if Document(s, v) {
      DocumentAccepted(s, v);
    }
    if ParseDocument(s) == Success(v) {
      ParseValueSkips(s);
      var before, t := ValueSound(s);
      var after := BlanksSkipped(ParseValue(s).rest);
      assert DocumentTree(s, v, before, t, after);
    }
  }

  /** No text has two values. */
  lemma DocumentUnambiguous(s: string, v: Json, w: Json)
    requires Document(s, v) && Document(s, w)
    ensures v == w
  {
    DocumentAccepted(s, v);
    DocumentAccepted(s, w);
  }
}
