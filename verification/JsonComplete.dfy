/** Every text of the grammar is accepted, with the value it denotes. */
module JsonComplete {
  import opened Ascii
  import opened JsonValues
  import opened JsonGrammar
  import opened JsonParsing
  import opened Concat

  lemma {:induction false} SkipBlanksOver(b: string, s: string)
    requires Blanks(b)
    ensures SkipBlanks(b + s) == SkipBlanks(s)
  {
    if b == "" {
      assert b + s == s;
    } else {
      assert (b + s)[1..] == b[1..] + s;
      SkipBlanksOver(b[1..], s);
    }
  }

  lemma {:induction false} SkipDigitsOver(d: string, s: string)
    requires Digits(d) && !IsDigit(Peek(s))
    ensures SkipDigits(d + s) == s
  {
    if d == "" {
      assert d + s == s;
    } else {
      assert (d + s)[1..] == d[1..] + s;
      SkipDigitsOver(d[1..], s);
    }
  }

  // ---- Strings ----

  lemma EscapeComplete(t: CharToken, s: string)
    requires CharOk(t) && !t.Plain?
    ensures Escape(RenderChar(t)[1..] + s) == Parsed(DenoteChar(t), s)
  {
    var text := RenderChar(t)[1..] + s;
    match t
    case Short(c) =>
      assert text[1..] == s;
    case Hex(h) =>
      assert text[1..] == h + s;
      assert (h + s)[..4] == h && (h + s)[4..] == s;
  }

  lemma {:induction false} CharsComplete(ts: seq<CharToken>, s: string)
    requires CharsOk(ts)
    ensures StringBody(RenderChars(ts) + "\"" + s) == Parsed(DenoteChars(ts), s)
  {
    if ts == [] {
      assert (RenderChars(ts) + "\"" + s)[1..] == s;
    } else {
      var tail := RenderChars(ts[1..]) + "\"" + s;
      CharsComplete(ts[1..], s);
      assert DenoteChars(ts) == [DenoteChar(ts[0])] + DenoteChars(ts[1..]);
      Assoc(RenderChar(ts[0]), RenderChars(ts[1..]), "\"");
      Assoc(RenderChar(ts[0]), RenderChars(ts[1..]) + "\"", s);
      CharComplete(ts[0], tail);
    }
  }

  /** One turn of the string loop. */
  lemma CharComplete(t: CharToken, tail: string)
    requires CharOk(t) && StringBody(tail).Parsed?
    ensures StringBody(RenderChar(t) + tail) == Parsed([DenoteChar(t)] + StringBody(tail).value, StringBody(tail).rest)
  {
    var text := RenderChar(t) + tail;
    assert text[1..] == RenderChar(t)[1..] + tail;
    if t.Plain? {
      assert text[1..] == tail;
    } else {
      EscapeComplete(t, tail);
    }
  }

  lemma StringText(ts: seq<CharToken>, s: string)
    ensures RenderString(ts) + s != "" && (RenderString(ts) + s)[1..] == RenderChars(ts) + "\"" + s
  {
  }

  lemma StringComplete(ts: seq<CharToken>, s: string)
    requires CharsOk(ts)
    ensures ParseString(RenderString(ts) + s) == Parsed(DenoteChars(ts), s)
  {
    CharsComplete(ts, s);
    StringText(ts, s);
  }

  // ---- Numbers ----

  /** What may follow a value: nothing that could continue a number. */
  predicate Delimited(s: string) {
    s == "" || IsBlank(s[0]) || s[0] in ",]}"
  }

  lemma WholeComplete(whole: string, s: string)
    requires Digits(whole) && whole != "" && (whole == "0" || whole[0] != '0')
    requires !IsDigit(Peek(s))
    ensures WholePart(whole + s) == Parsed(whole, s)
  {
    var text := whole + s;
    if whole == "0" {
      assert text[1..] == s;
    } else {
      SkipDigitsOver(whole, s);
      assert text[..|whole|] == whole;
    }
  }

  lemma FractionComplete(fraction: string, s: string)
    requires Digits(fraction) && Delimited(s)
    ensures FractionPart((if fraction == "" then "" else "." + fraction) + s) == Parsed(fraction, s)
  {
    if fraction == "" {
      assert "" + s == s;
    } else {
      var text := "." + fraction + s;
      assert text[1..] == fraction + s;
      SkipDigitsOver(fraction, s);
      assert text[1..][..|fraction|] == fraction;
    }
  }

  lemma NumberText(t: NumberToken, s: string) returns (tail: string)
    requires NumberOk(t) && Delimited(s)
    ensures tail == (if t.fraction == "" then "" else "." + t.fraction) + s && !IsDigit(Peek(tail))
    ensures var text := RenderNumber(t) + s;
      t.negative == (Peek(text) == '-') && (if t.negative then text[1..] else text) == t.whole + tail
  {
    var point := if t.fraction == "" then "" else "." + t.fraction;
    tail := point + s;
    var sign := if t.negative then "-" else "";
    assert RenderNumber(t) == sign + t.whole + point;
    Assoc(sign + t.whole, point, s);
    Assoc(sign, t.whole, tail);
    SignDrops(t.whole + tail);
    assert IsDigit(t.whole[0]) && (t.whole + tail)[0] == t.whole[0];
    if t.fraction == "" {
      assert tail == s;
    } else {
      assert tail[0] == '.';
    }
  }

  lemma SignDrops(text: string)
    ensures ("-" + text)[1..] == text && "" + text == text
  {
  }

  lemma NumberComplete(t: NumberToken, s: string)
    requires NumberOk(t) && Delimited(s)
    ensures ParseNumber(RenderNumber(t) + s) == Parsed(Number(Decimal(t.negative, t.whole, t.fraction)), s)
  {
    var tail := NumberText(t, s);
    WholeComplete(t.whole, tail);
    FractionComplete(t.fraction, s);
  }

  // ---- Values ----

  lemma {:induction false} ValueComplete(blanks: string, t: Tree, s: string)
    requires Blanks(blanks) && Ok(t) && Delimited(s)
    ensures ParseValue(blanks + Render(t) + s) == Parsed(Denote(t), s)
    decreases t, 1
  {
    var text := Render(t) + s;
    assert blanks + Render(t) + s == blanks + text;
    SkipBlanksOver(blanks, text);
    TreeStart(t, s);
    ParseValueSkips(blanks + text);
    if t.TArray? || t.TObject? { CompoundComplete(t, s); } else { ScalarComplete(t, s); }
  }

  lemma ScalarComplete(t: Tree, s: string)
    requires Ok(t) && Delimited(s) && !t.TArray? && !t.TObject?
    ensures ParseValue(Render(t) + s) == Parsed(Denote(t), s)
  {
    match t
    case TNumber(num) => NumberValue(num, s);
    case TString(chars) => StringValue(chars, s);
    case TEmptyArray(gap) => EmptyValue(gap, s);
    case TEmptyObject(gap) => EmptyValue(gap, s);
    case _ => LiteralValue(s);
  }

  lemma LiteralValue(s: string)
    ensures ParseValue("null" + s) == Parsed(Null, s)
    ensures ParseValue("true" + s) == Parsed(Bool(true), s)
    ensures ParseValue("false" + s) == Parsed(Bool(false), s)
  {
    LiteralComplete("null", Null, s);
    LiteralComplete("true", Bool(true), s);
    LiteralComplete("false", Bool(false), s);
  }

  lemma NumberValue(num: NumberToken, s: string)
    requires NumberOk(num) && Delimited(s)
    ensures ParseValue(RenderNumber(num) + s) == Parsed(Number(Decimal(num.negative, num.whole, num.fraction)), s)
  {
    NumberComplete(num, s);
    var tail := NumberText(num, s);
    NumberDispatch(RenderNumber(num) + s);
  }

  /** A text that begins like a number is read as one. */
  lemma NumberDispatch(text: string)
    requires text != "" && (text[0] == '-' || IsDigit(text[0]))
    ensures ParseValue(text) == ParseNumber(text)
  {
    assert SkipBlanks(text) == text && Peek(text) == text[0];
    assert text[0] !in "{[\"tfn";
  }

  lemma StringValue(chars: seq<CharToken>, s: string)
    requires CharsOk(chars)
    ensures ParseValue(RenderString(chars) + s) == Parsed(String(DenoteChars(chars)), s)
  {
    StringComplete(chars, s);
  }

  lemma EmptyValue(gap: string, s: string)
    requires Blanks(gap)
    ensures ParseValue("[" + gap + "]" + s) == Parsed(Array([]), s)
    ensures ParseValue("{" + gap + "}" + s) == Parsed(Object([]), s)
  {
    EmptyComplete(gap, "]", s);
    EmptyComplete(gap, "}", s);
    assert ("[" + gap + "]" + s)[1..] == gap + ("]" + s);
    assert ("{" + gap + "}" + s)[1..] == gap + ("}" + s);
  }

  lemma CompoundComplete(t: Tree, s: string)
    requires Ok(t) && Delimited(s) && (t.TArray? || t.TObject?)
    ensures ParseValue(Render(t) + s) == Parsed(Denote(t), s)
    decreases t, 0
  {
    match t
    case TArray(items) => ArrayComplete(items, s);
    case TObject(entries) => ObjectComplete(entries, s);
  }

  lemma ArrayCases(s: string)
    requires Peek(s) == '['
    ensures ParseArray(s) ==
      if Peek(SkipBlanks(s[1..])) == ']' then Parsed(Array([]), SkipBlanks(s[1..])[1..])
      else match ParseItems(s[1..]) {
        case Parsed(items, rest) => Parsed(Array(items), rest)
        case Failed(m) => Failed(m) }
  {
    ItemsSkip(s[1..]);
  }

  lemma ObjectCases(s: string)
    requires Peek(s) == '{'
    ensures ParseObject(s) ==
      if Peek(SkipBlanks(s[1..])) == '}' then Parsed(Object([]), SkipBlanks(s[1..])[1..])
      else match ParseMembers(s[1..], []) {
        case Parsed(ms, rest) => Parsed(Object(ms), rest)
        case Failed(m) => Failed(m) }
  {
    MembersSkip(s[1..]);
  }

  lemma ArrayComplete(items: Items, s: string)
    requires ItemsOk(items)
    ensures ParseArray("[" + RenderItems(items) + s) == Parsed(Array(DenoteItems(items)), s)
    decreases items, 2
  {
    Tail('[', RenderItems(items), s);
    ItemsComplete(items, s);
    ItemsStart(items, s);
    ArrayCases("[" + RenderItems(items) + s);
  }

  lemma ObjectComplete(entries: Entries, s: string)
    requires EntriesOk(entries, {})
    ensures ParseObject("{" + RenderEntries(entries) + s) ==
      Parsed(Object(InsertAll([], DenoteEntries(entries, {}))), s)
    decreases entries, 2
  {
    Tail('{', RenderEntries(entries), s);
    EntriesComplete(entries, {}, [], s);
    HeadStart(entries, s);
    ObjectCases("{" + RenderEntries(entries) + s);
  }

  lemma EmptyComplete(gap: string, close: string, s: string)
    requires Blanks(gap) && close in ["]", "}"]
    ensures SkipBlanks(gap + (close + s)) == close + s && (close + s)[1..] == s
  {
    SkipBlanksOver(gap, close + s);
  }

  lemma LiteralComplete(literal: string, v: Json, s: string)
    ensures ParseLiteral(literal + s, literal, v) == Parsed(v, s)
    decreases literal
  {
    if literal == "" {
      assert literal + s == s;
    } else {
      Uncons(literal);
      Tail(literal[0], literal[1..], s);
      LiteralComplete(literal[1..], v, s);
    }
  }

  /** Parsing starts at the first character that is not blank, so blanks skipped twice are harmless. */
  lemma {:induction false} SkipBlanksTwice(s: string)
    ensures SkipBlanks(SkipBlanks(s)) == SkipBlanks(s)
  {
    if s != "" && IsBlank(s[0]) { SkipBlanksTwice(s[1..]); }
  }

  lemma ParseValueSkips(s: string)
    ensures ParseValue(SkipBlanks(s)) == ParseValue(s)
  {
    SkipBlanksTwice(s);
  }

  lemma ItemsSkip(s: string)
    ensures ParseItems(SkipBlanks(s)) == ParseItems(s)
  {
    ParseValueSkips(s);
  }

  lemma MembersSkip(s: string)
    ensures ParseMembers(SkipBlanks(s), []) == ParseMembers(s, [])
  {
    SkipBlanksTwice(s);
  }

  lemma TreeStart(t: Tree, s: string)
    requires Ok(t)
    ensures var text := Render(t) + s; !IsBlank(Peek(text)) && Peek(text) != ']'
  {
  }

  lemma ItemsStart(l: Items, s: string)
    requires ItemsOk(l)
    ensures Peek(SkipBlanks(RenderItems(l) + s)) != ']'
    ensures ParseItems(SkipBlanks(RenderItems(l) + s)) == ParseItems(RenderItems(l) + s)
  {
    var tail := l.after + (if l.LastItem? then "]" else "," + RenderItems(l.next)) + s;
    assert RenderItems(l) + s == l.before + (Render(l.value) + tail);
    SkipBlanksOver(l.before, Render(l.value) + tail);
    TreeStart(l.value, tail);
    ItemsSkip(RenderItems(l) + s);
  }

  lemma HeadStart(l: Entries, s: string)
    requires EntriesOk(l, {})
    ensures Peek(SkipBlanks(RenderEntries(l) + s)) == '"'
    ensures ParseMembers(SkipBlanks(RenderEntries(l) + s), []) == ParseMembers(RenderEntries(l) + s, [])
  {
    var h := l.head;
    var text := RenderEntries(l) + s;
    assert h.before <= text && text[|h.before|] == '"';
    assert text == h.before + text[|h.before|..];
    SkipBlanksOver(h.before, text[|h.before|..]);
    MembersSkip(text);
  }

  /** After a value come blanks and then the separator or bracket that `next` starts with. */
  lemma AfterValue(after: string, next: string)
    requires Blanks(after) && next != "" && next[0] in ",]}"
    ensures Delimited(after + next) && SkipBlanks(after + next) == next
  {
    SkipBlanksOver(after, next);
  }

  lemma {:induction false} ItemsComplete(l: Items, s: string)
    requires ItemsOk(l)
    ensures ParseItems(RenderItems(l) + s) == Parsed(DenoteItems(l), s)
    decreases l, 1
  {
    var next := (if l.LastItem? then "]" else "," + RenderItems(l.next)) + s;
    ItemComplete(l, s, next);
    ItemsStep(RenderItems(l) + s, Denote(l.value), l.after + next);
    NextItems(l, s, next);
    if l.MoreItems? {
      ItemsComplete(l.next, s);
    }
  }

  lemma NextItems(l: Items, s: string, next: string)
    requires ItemsOk(l) && next == (if l.LastItem? then "]" else "," + RenderItems(l.next)) + s
    ensures next[1..] == (if l.LastItem? then s else RenderItems(l.next) + s)
    ensures l.LastItem? ==> DenoteItems(l) == [Denote(l.value)]
  {
  }

  /** One item is read up to the separator or bracket after it. */
  lemma ItemComplete(l: Items, s: string, next: string)
    requires ItemsOk(l)
    requires next == (if l.LastItem? then "]" else "," + RenderItems(l.next)) + s
    ensures ParseValue(RenderItems(l) + s) == Parsed(Denote(l.value), l.after + next)
    ensures SkipBlanks(l.after + next) == next && next[0] == (if l.LastItem? then ']' else ',')
    decreases l, 0
  {
    ItemText(l, s, next);
    AfterValue(l.after, next);
    ValueComplete(l.before, l.value, l.after + next);
  }

  /** One turn of the item loop. */
  lemma ItemsStep(text: string, v: Json, rest: string)
    requires ParseValue(text) == Parsed(v, rest)
    ensures var s := SkipBlanks(rest);
      && (Peek(s) == ']' ==> ParseItems(text) == Parsed([v], s[1..]))
      && (Peek(s) == ',' && ParseItems(s[1..]).Parsed? ==>
        ParseItems(text) == Parsed([v] + ParseItems(s[1..]).value, ParseItems(s[1..]).rest))
  {
  }

  lemma ItemText(l: Items, s: string, next: string)
    requires next == (if l.LastItem? then "]" else "," + RenderItems(l.next)) + s
    ensures RenderItems(l) + s == l.before + Render(l.value) + (l.after + next)
  {
  }

  lemma HeadComplete(h: EntryHead, s: string)
    requires HeadOk(h)
    ensures ParseHead(h.before + RenderString(h.key) + h.beforeColon + ":" + s) == Parsed(DenoteChars(h.key), s)
  {
    var afterKey := h.beforeColon + (":" + s);
    var key := RenderString(h.key) + afterKey;
    assert h.before + RenderString(h.key) + h.beforeColon + ":" + s == h.before + key;
    SkipBlanksOver(h.before, key);
    assert key[0] == '"';
    StringComplete(h.key, afterKey);
    SkipBlanksOver(h.beforeColon, ":" + s);
    assert (":" + s)[1..] == s;
  }

  lemma {:induction false} EntriesComplete(l: Entries, taken: set<string>, found: seq<Member>, s: string)
    requires EntriesOk(l, taken)
    requires Sorted(found) && forall k :: HasKey(found, k) <==> k in taken
    ensures ParseMembers(RenderEntries(l) + s, found) == Parsed(InsertAll(found, DenoteEntries(l, taken)), s)
    decreases l, 1
  {
    var m := Member(DenoteChars(l.head.key), Denote(l.value));
    var text := RenderEntries(l) + s;
    var next := (if l.LastEntry? then "}" else "," + RenderEntries(l.next)) + s;
    EntryComplete(l, taken, s, next);
    MembersStep(text, found, m, l.after + next);
    DenoteEntriesCons(l, taken, found);
    if l.LastEntry? {
      assert next[1..] == s;
    } else {
      InsertSorts(found, m);
      NextEntries(l, s, next);
      EntriesComplete(l.next, taken + {m.key}, Insert(found, m), s);
    }
  }

  lemma NextEntries(l: Entries, s: string, next: string)
    requires l.MoreEntries? && next == "," + RenderEntries(l.next) + s
    ensures next[1..] == RenderEntries(l.next) + s
  {
  }

  lemma DenoteEntriesCons(l: Entries, taken: set<string>, found: seq<Member>)
    requires EntriesOk(l, taken)
    ensures var m := Member(DenoteChars(l.head.key), Denote(l.value));
      InsertAll(found, DenoteEntries(l, taken)) ==
      if l.LastEntry? then Insert(found, m)
      else InsertAll(Insert(found, m), DenoteEntries(l.next, taken + {m.key}))
  {
    var m := Member(DenoteChars(l.head.key), Denote(l.value));
    var entries := DenoteEntries(l, taken);
    assert entries[0] == m;
    if l.LastEntry? {
      assert entries[1..] == [];
      assert InsertAll(Insert(found, m), []) == Insert(found, m);
    } else {
      assert entries[1..] == DenoteEntries(l.next, taken + {m.key});
    }
  }

  /** One member is read up to the separator or bracket after it. */
  lemma EntryComplete(l: Entries, taken: set<string>, s: string, next: string)
    requires EntriesOk(l, taken)
    requires next == (if l.LastEntry? then "}" else "," + RenderEntries(l.next)) + s
    ensures ParseHead(RenderEntries(l) + s).Parsed?
    ensures ParseHead(RenderEntries(l) + s).value == DenoteChars(l.head.key)
    ensures ParseValue(ParseHead(RenderEntries(l) + s).rest) == Parsed(Denote(l.value), l.after + next)
    ensures SkipBlanks(l.after + next) == next && next[0] == (if l.LastEntry? then '}' else ',')
    decreases l, 0
  {
    var h := l.head;
    var value := h.afterColon + Render(l.value) + (l.after + next);
    EntryText(l, s, value);
    HeadComplete(h, value);
    AfterValue(l.after, next);
    ValueComplete(h.afterColon, l.value, l.after + next);
  }

  lemma EntryText(l: Entries, s: string, value: string)
    requires value == l.head.afterColon + Render(l.value) +
      (l.after + ((if l.LastEntry? then "}" else "," + RenderEntries(l.next)) + s))
    ensures RenderEntries(l) + s ==
      l.head.before + RenderString(l.head.key) + l.head.beforeColon + ":" + value
  {
  }

  /** Every document is accepted and its value returned. */
  lemma DocumentAccepted(s: string, v: Json)
    requires Document(s, v)
    ensures ParseDocument(s) == Success(v)
  {
    var before, t, after :| DocumentTree(s, v, before, t, after);
    assert SkipBlanks(after) == "" && Delimited(after) by {
      assert after + "" == after;
      SkipBlanksOver(after, "");
    }
    ValueComplete(before, t, after);
    ParseValueSkips(s);
  }
}
