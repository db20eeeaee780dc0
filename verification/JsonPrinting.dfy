/** The printer of SHARED/protocol/json.cpp as functions, and what parsing makes of its output. */
module JsonPrinting {
  import opened Ascii
  import opened Ordering
  import opened JsonValues
  import opened JsonGrammar
  import opened JsonParsing
  import opened JsonSound
  import opened Concat

  // ---- Strings ----

  const HEX := "0123456789ABCDEF"

  /** How `escapeString` writes one character, as a token of the grammar. */
  function EscapeToken(c: char): CharToken {
    match c
    case '"' => Short('"')
    case '\\' => Short('\\')
    case '\n' => Short('n')
    case '\r' => Short('r')
    case '\t' => Short('t')
    case _ => if c < ' ' then Hex(['0', '0', HEX[c as int / 16], HEX[c as int % 16]]) else Plain(c)
  }

  function EscapeChar(c: char): string {
    match c
    case '"' => "\\\""
    case '\\' => "\\\\"
    case '\n' => "\\n"
    case '\r' => "\\r"
    case '\t' => "\\t"
    case _ => if c < ' ' then "\\u00" + [HEX[c as int / 16]] + [HEX[c as int % 16]] else [c]
  }

  function EscapeString(s: string): string {
    if s == "" then "" else EscapeChar(s[0]) + EscapeString(s[1..])
  }

  function EscapeTokens(s: string): seq<CharToken> {
    if s == "" then [] else [EscapeToken(s[0])] + EscapeTokens(s[1..])
  }

  lemma EscapeTokenMeans(c: char)
    ensures CharOk(EscapeToken(c)) && DenoteChar(EscapeToken(c)) == c && RenderChar(EscapeToken(c)) == EscapeChar(c)
  {
    if c < ' ' {
      HexDigitMeans(c as int / 16);
      HexDigitMeans(c as int % 16);
      HexDigitMeans(0);
      assert EscapeToken(c).Hex? ==> HexCode(EscapeToken(c).digits) == c as int;
    }
  }

  lemma HexDigitMeans(d: nat)
    requires d < 16
    ensures IsHexDigit(HEX[d]) && HexValue(HEX[d]) == d
  {
    assert HEX[d] == (if d < 10 then '0' + d as char else 'A' + (d - 10) as char);
  }

  lemma {:induction false} EscapeTokensMean(s: string)
    ensures CharsOk(EscapeTokens(s)) && DenoteChars(EscapeTokens(s)) == s
    ensures RenderChars(EscapeTokens(s)) == EscapeString(s)
  {
    if s != "" {
      EscapeTokenMeans(s[0]);
      EscapeTokensMean(s[1..]);
      CharsCons(EscapeToken(s[0]), EscapeTokens(s[1..]));
      assert s == [s[0]] + s[1..];
    }
  }

  // ---- Numbers ----

  const UNIT: nat := 1_000_000_000_000_000

  /** Rounding to an integer, ties to even, as fixed notation rounds its last digit. */
  function RoundHalfEven(y: real): (n: nat)
    requires y >= 0.0
  {
    var f := y.Floor;
    var d := y - f as real;
    if d < 0.5 then f else if d > 0.5 then f + 1 else if f % 2 == 0 then f else f + 1
  }

  function Units(x: real): nat { RoundHalfEven((if x < 0.0 then -x else x) * UNIT as real) }

  /** The multiple of 10^-15 nearest to `x`. */
  function Rounded15(x: real): real {
    var size := Units(x) as real / UNIT as real;
    if x < 0.0 then -size else size
  }

  predicate AtMost15Digits(x: real) { (x * UNIT as real).Floor as real == x * UNIT as real }

  function DigitChar(d: nat): (c: char)
    requires d < 10
    ensures IsDigit(c) && (c - '0') as nat == d
  {
    '0' + d as char
  }

  function DigitsOf(n: nat): (s: string)
    ensures s != "" && Digits(s)
  {
    if n < 10 then [DigitChar(n)] else DigitsOf(n / 10) + [DigitChar(n % 10)]
  }

  function PaddedDigits(n: nat, k: nat): (s: string)
    ensures |s| == k && Digits(s)
  {
    if k == 0 then "" else PaddedDigits(n / 10, k - 1) + [DigitChar(n % 10)]
  }

  /** `std::fixed` with fifteen digits after the point. */
  function Fixed15(x: real): string {
    (if x < 0.0 then "-" else "") + DigitsOf(Units(x) / UNIT) + "." + PaddedDigits(Units(x) % UNIT, 15)
  }

  function TrimZeros(s: string): string {
    if s != "" && s[|s| - 1] == '0' then TrimZeros(s[..|s| - 1]) else s
  }

  function TrimPoint(s: string): string {
    if s != "" && s[|s| - 1] == '.' then s[..|s| - 1] else s
  }

  function PrintNumber(x: real): string {
    var text := TrimPoint(TrimZeros(Fixed15(x)));
    if text == "-0" then "0" else text
  }

  lemma {:induction false} DigitsOfValue(n: nat)
    ensures DigitsValue(DigitsOf(n)) == n
    ensures n == 0 || DigitsOf(n)[0] != '0'
  {
    if n < 10 {
      assert DigitsOf(n)[..0] == "";
    } else {
      DigitsOfValue(n / 10);
      assert DigitsOf(n)[..|DigitsOf(n)| - 1] == DigitsOf(n / 10);
    }
  }

  lemma {:induction false} PaddedDigitsValue(n: nat, k: nat)
    requires n < Pow10(k)
    ensures DigitsValue(PaddedDigits(n, k)) == n
  {
    if k > 0 {
      PaddedDigitsValue(n / 10, k - 1);
      assert PaddedDigits(n, k)[..k - 1] == PaddedDigits(n / 10, k - 1);
    }
  }

  lemma DigitsValueLast(s: string, c: char)
    requires Digits(s) && IsDigit(c)
    ensures Digits(s + [c]) && DigitsValue(s + [c]) == DigitsValue(s) * 10 + (c - '0') as nat
  {
    assert (s + [c])[..|s|] == s;
  }

  lemma Regroup(x: nat, p: nat, v: nat, d: nat)
    ensures (x * p + v) * 10 + d == x * (10 * p) + (v * 10 + d)
  {
    assert x * (10 * p) == x * p * 10;
  }

  lemma {:induction false} DigitsValueConcat(a: string, b: string)
    requires Digits(a) && Digits(b)
    ensures Digits(a + b) && DigitsValue(a + b) == DigitsValue(a) * Pow10(|b|) + DigitsValue(b)
  {
    if b == "" {
      assert a + b == a;
    } else {
      var init, c := b[..|b| - 1], b[|b| - 1];
      assert b == init + [c] && a + b == (a + init) + [c];
      DigitsValueConcat(a, init);
      DigitsValueLast(init, c);
      DigitsValueLast(a + init, c);
      Regroup(DigitsValue(a), Pow10(|init|), DigitsValue(init), (c - '0') as nat);
    }
  }

  /** Zeros at the end of a fraction do not change the number. */
  lemma {:induction false} TrimZerosValue(whole: string, s: string)
    requires Digits(whole) && Digits(s)
    ensures Digits(TrimZeros(s)) && Decimal(false, whole, TrimZeros(s)) == Decimal(false, whole, s)
  {
    if s != "" && s[|s| - 1] == '0' {
      var init := s[..|s| - 1];
      TrimZerosValue(whole, init);
      assert (whole + s)[..|whole + s| - 1] == whole + init;
      assert Digits(whole + s) && Digits(whole + init);
      ScaleFraction(DigitsValue(whole + init), Pow10(|init|));
    }
  }

  lemma ScaleFraction(a: nat, b: nat)
    requires b > 0
    ensures (a * 10) as real / (10 * b) as real == a as real / b as real
  {
    var q := a as real / b as real;
    assert q * b as real == a as real;
    assert q * (10 * b) as real == (a * 10) as real;
  }

  lemma {:induction false} TrimZerosKeeps(prefix: string, s: string)
    requires prefix != "" && prefix[|prefix| - 1] != '0'
    ensures TrimZeros(prefix + s) == prefix + TrimZeros(s)
  {
    if s == "" {
      assert prefix + s == prefix;
    } else {
      assert (prefix + s)[..|prefix + s| - 1] == prefix + s[..|s| - 1];
      TrimZerosKeeps(prefix, s[..|s| - 1]);
    }
  }

  function NumberTokenOf(x: real): NumberToken {
    var whole := DigitsOf(Units(x) / UNIT);
    var fraction := TrimZeros(PaddedDigits(Units(x) % UNIT, 15));
    NumberToken(x < 0.0 && (whole != "0" || fraction != ""), whole, fraction)
  }

  lemma PrintNumberText(x: real)
    ensures PrintNumber(x) == RenderNumber(NumberTokenOf(x))
  {
    var t := NumberTokenOf(x);
    var sign := if x < 0.0 then "-" else "";
    var padded := PaddedDigits(Units(x) % UNIT, 15);
    TrimZerosKeeps(sign + t.whole + ".", padded);
    TrimZerosDigits(padded);
    assert Fixed15(x) == sign + t.whole + "." + padded;
    SignedText(sign, t.whole, t.fraction);
  }

  /** What remains of a signed number once its zeros are trimmed. */
  lemma SignedText(sign: string, whole: string, fraction: string)
    requires sign in ["", "-"] && Digits(whole) && whole != "" && Digits(fraction)
    ensures var text := TrimPoint(sign + whole + "." + fraction);
      (if text == "-0" then "0" else text) ==
      RenderNumber(NumberToken(sign == "-" && (whole != "0" || fraction != ""), whole, fraction))
  {
    var text := sign + whole + "." + fraction;
    if fraction == "" {
      var shown := sign + whole;
      assert text == shown + ".";
      assert TrimPoint(text) == shown;
      var t := NumberToken(sign == "-" && (whole != "0" || fraction != ""), whole, fraction);
      assert RenderNumber(t) == (if t.negative then "-" else "") + whole;
      assert IsDigit(whole[0]);
      if shown == "-0" {
        assert shown[0] == '-' && sign == "-" && shown[1..] == whole;
      }
    } else {
      assert text[|text| - 1] == fraction[|fraction| - 1];
      Assoc(sign + whole, ".", fraction);
      assert text[|sign| + |whole|] == '.';
    }
  }

  lemma {:induction false} TrimZerosDigits(s: string)
    requires Digits(s)
    ensures Digits(TrimZeros(s))
  {
    if s != "" && s[|s| - 1] == '0' { TrimZerosDigits(s[..|s| - 1]); }
  }

  lemma RoundBounds(y: real, k: nat)
    requires 0.0 <= y <= k as real
    ensures RoundHalfEven(y) <= k
  {
  }

  lemma FiniteRounded(x: real)
    requires Finite(x)
    ensures Finite(Rounded15(x))
  {
    var k := MAX_DOUBLE.Floor;
    assert k as real == MAX_DOUBLE;
    var size := if x < 0.0 then -x else x;
    assert size * UNIT as real <= (k * UNIT) as real;
    RoundBounds(size * UNIT as real, k * UNIT);
    assert Units(x) as real / UNIT as real <= k as real;
  }

  lemma UnitIsPow10()
    ensures Pow10(15) == UNIT
  {
    assert Pow10(5) == 100_000;
    assert Pow10(10) == 100_000 * Pow10(5);
  }

  /** All digits before the trimming, read as one integer, are the units. */
  lemma UntrimmedValue(n: nat)
    ensures var whole, padded := DigitsOf(n / UNIT), PaddedDigits(n % UNIT, 15);
      Decimal(false, whole, padded) == n as real / UNIT as real
  {
    var whole, padded := DigitsOf(n / UNIT), PaddedDigits(n % UNIT, 15);
    UnitIsPow10();
    DigitsOfValue(n / UNIT);
    PaddedDigitsValue(n % UNIT, 15);
    DigitsValueConcat(whole, padded);
    DecimalOf(whole, padded, 15, n);
  }

  lemma DecimalOf(whole: string, fraction: string, places: nat, n: nat)
    requires Digits(whole) && Digits(fraction) && |fraction| == places && DigitsValue(whole + fraction) == n
    ensures Decimal(false, whole, fraction) == n as real / Pow10(places) as real
  {
  }

  lemma ZeroValue()
    ensures Decimal(false, "0", "") == 0.0
  {
    assert "0" + "" == "0" && "0"[..0] == "";
    assert DigitsValue("") == 0;
    assert DigitsValue("0") == 0;
  }

  /** The printed number is a number of the grammar and denotes the rounded value. */
  lemma NumberTokenMeans(x: real)
    requires Finite(x)
    ensures NumberOk(NumberTokenOf(x))
    ensures var t := NumberTokenOf(x); Decimal(t.negative, t.whole, t.fraction) == Rounded15(x)
  {
    var t := NumberTokenOf(x);
    var padded := PaddedDigits(Units(x) % UNIT, 15);
    UntrimmedValue(Units(x));
    DigitsOfValue(Units(x) / UNIT);
    TrimZerosValue(t.whole, padded);
    var size := Decimal(false, t.whole, t.fraction);
    assert Decimal(true, t.whole, t.fraction) == -size;
    if t.whole == "0" && t.fraction == "" { ZeroValue(); }
    FiniteRounded(x);
    if t.whole[0] == '0' {
      assert Units(x) / UNIT == 0;
    }
  }

  // ---- Values ----

  function Print(v: Json): string
    decreases v, 1
  {
    match v
    case Null => "null"
    case Bool(b) => if b then "true" else "false"
    case Number(n) => PrintNumber(n)
    case String(s) => "\"" + EscapeString(s) + "\""
    case Array(items) => "[" + PrintItems(items) + "]"
    case Object(members) => "{" + PrintMembers(members) + "}"
  }

  function PrintItems(items: seq<Json>): string
    decreases items, 0
  {
    if items == [] then ""
    else Print(items[0]) + (if |items| == 1 then "" else "," + PrintItems(items[1..]))
  }

  function PrintMember(m: Member): string
    decreases m, 1
  {
    "\"" + EscapeString(m.key) + "\":" + Print(m.value)
  }

  function PrintMembers(members: seq<Member>): string
    decreases members, 0
  {
    if members == [] then ""
    else PrintMember(members[0]) + (if |members| == 1 then "" else "," + PrintMembers(members[1..]))
  }

  /** The value with every number rounded to fifteen fraction digits. */
  function Rounded(v: Json): Json
    decreases v, 1
  {
    match v
    case Number(n) => Number(Rounded15(n))
    case Array(items) => Array(RoundedItems(items))
    case Object(members) => Object(RoundedMembers(members))
    case _ => v
  }

  function RoundedItems(items: seq<Json>): (r: seq<Json>)
    decreases items, 0
  {
    if items == [] then [] else [Rounded(items[0])] + RoundedItems(items[1..])
  }

  function RoundedMembers(members: seq<Member>): (r: seq<Member>)
    decreases members, 0
  {
    if members == [] then []
    else [Member(members[0].key, Rounded(members[0].value))] + RoundedMembers(members[1..])
  }

  /** Every number in the value has at most fifteen fraction digits. */
  ghost predicate Exact(v: Json) {
    match v
    case Number(n) => AtMost15Digits(n)
    case Array(items) => forall i :: 0 <= i < |items| ==> Exact(items[i])
    case Object(members) => forall i :: 0 <= i < |members| ==> Exact(members[i].value)
    case _ => true
  }

  /** Rounding moves a number by at most half of the last printed digit. */
  lemma RoundedIsNear(x: real)
    ensures -0.5 <= (Rounded15(x) - x) * UNIT as real <= 0.5
  {
    var n: int := Units(x);
    assert (n as real / UNIT as real) * UNIT as real == n as real;
  }

  // ---- The printed text as a parse tree ----

  function TreeOf(v: Json): Tree
    decreases v, 1
  {
    match v
    case Null => TNull
    case Bool(b) => if b then TTrue else TFalse
    case Number(n) => TNumber(NumberTokenOf(n))
    case String(s) => TString(EscapeTokens(s))
    case Array(items) => if items == [] then TEmptyArray("") else TArray(ItemsOf(items))
    case Object(members) => if members == [] then TEmptyObject("") else TObject(EntriesOf(members))
  }

  function ItemsOf(items: seq<Json>): Items
    requires items != []
    decreases items, 0
  {
    if |items| == 1 then LastItem("", TreeOf(items[0]), "")
    else MoreItems("", TreeOf(items[0]), "", ItemsOf(items[1..]))
  }

  function EntriesOf(members: seq<Member>): Entries
    requires members != []
    decreases members, 0
  {
    var head := EntryHead("", EscapeTokens(members[0].key), "", "");
    if |members| == 1 then LastEntry(head, TreeOf(members[0].value), "")
    else MoreEntries(head, TreeOf(members[0].value), "", EntriesOf(members[1..]))
  }

  lemma {:induction false} TreeMeans(v: Json)
    requires Valid(v)
    ensures Ok(TreeOf(v)) && Render(TreeOf(v)) == Print(v) && Denote(TreeOf(v)) == Rounded(v)
    decreases v, 1
  {
    match v
    case Number(n) =>
      NumberTokenMeans(n);
      PrintNumberText(n);
    case String(s) =>
      EscapeTokensMean(s);
    case Array(items) =>
      if items != [] { ItemsMean(items); }
    case Object(members) =>
      if members != [] { ObjectMeans(members); }
    case _ =>
  }

  lemma {:induction false} ObjectMeans(members: seq<Member>)
    requires members != [] && Valid(Object(members))
    ensures var t := TObject(EntriesOf(members));
      Ok(t) && Render(t) == Print(Object(members)) && Denote(t) == Rounded(Object(members))
    decreases members, 1
  {
    EntriesMean(members, {});
    RoundedMembersSorted(members);
    InsertAllSorted([], RoundedMembers(members));
  }

  lemma {:induction false} ItemsMean(items: seq<Json>)
    requires items != [] && forall i :: 0 <= i < |items| ==> Valid(items[i])
    ensures ItemsOk(ItemsOf(items)) && RenderItems(ItemsOf(items)) == PrintItems(items) + "]"
    ensures DenoteItems(ItemsOf(items)) == RoundedItems(items)
    decreases items, 0
  {
    TreeMeans(items[0]);
    var l := ItemsOf(items);
    assert "" + Print(items[0]) + "" == Print(items[0]);
    if |items| > 1 {
      ItemsMean(items[1..]);
      Assoc(Print(items[0]), ",", PrintItems(items[1..]) + "]");
      Assoc(Print(items[0]), "," + PrintItems(items[1..]), "]");
      Assoc(",", PrintItems(items[1..]), "]");
    } else {
      Assoc(Print(items[0]), "", "]");
    }
  }

  lemma {:induction false} EntriesMean(members: seq<Member>, taken: set<string>)
    requires members != [] && Sorted(members) && forall i :: 0 <= i < |members| ==> Valid(members[i].value)
    requires forall i :: 0 <= i < |members| ==> members[i].key !in taken
    ensures EntriesOk(EntriesOf(members), taken)
    ensures RenderEntries(EntriesOf(members)) == PrintMembers(members) + "}"
    ensures DenoteEntries(EntriesOf(members), taken) == RoundedMembers(members)
    decreases members, 0
  {
    var m := members[0];
    TreeMeans(m.value);
    EscapeTokensMean(m.key);
    MemberText(members);
    assert PrintMember(m) + "" == PrintMember(m);
    if |members| > 1 {
      Assoc(PrintMember(m), "," + PrintMembers(members[1..]), "}");
      Assoc(",", PrintMembers(members[1..]), "}");
      forall i | 0 <= i < |members[1..]| ensures members[1..][i].key !in taken + {m.key} {
        LessIrreflexive(m.key);
        assert Less(m.key, members[i + 1].key);
      }
      EntriesMean(members[1..], taken + {m.key});
    }
  }

  lemma MemberText(members: seq<Member>)
    requires members != []
    requires RenderChars(EscapeTokens(members[0].key)) == EscapeString(members[0].key)
    requires Render(TreeOf(members[0].value)) == Print(members[0].value)
    ensures RenderEntries(EntriesOf(members)) ==
      PrintMember(members[0]) + (if |members| == 1 then "}" else "," + RenderEntries(EntriesOf(members[1..])))
  {
    var e := EntriesOf(members);
    HeadText(e.head, members[0].key);
    if |members| == 1 {
      LastText(e, RenderHead(e.head), Render(e.value));
    } else {
      MoreText(e, RenderHead(e.head), Render(e.value));
    }
  }

  lemma HeadText(h: EntryHead, key: string)
    requires h == EntryHead("", EscapeTokens(key), "", "")
    requires RenderChars(EscapeTokens(key)) == EscapeString(key)
    ensures RenderHead(h) == "\"" + EscapeString(key) + "\":"
  {
    var text := RenderString(h.key);
    assert "" + text == text && text + "" == text && text + ":" + "" == text + ":";
    Assoc("\"" + EscapeString(key), "\"", ":");
    assert "\"" + ":" == "\":";
  }

  lemma LastText(e: Entries, head: string, value: string)
    requires e.LastEntry? && e.after == "" && head == RenderHead(e.head) && value == Render(e.value)
    ensures RenderEntries(e) == head + value + "}"
  {
    assert head + value + "" == head + value;
  }

  lemma MoreText(e: Entries, head: string, value: string)
    requires e.MoreEntries? && e.after == "" && head == RenderHead(e.head) && value == Render(e.value)
    ensures RenderEntries(e) == head + value + ("," + RenderEntries(e.next))
  {
    assert head + value + "" == head + value;
    assert head + value + "," + RenderEntries(e.next) == head + value + ("," + RenderEntries(e.next));
  }

  lemma SameKeysSorted(a: seq<Member>, b: seq<Member>)
    requires |a| == |b| && forall i :: 0 <= i < |a| ==> a[i].key == b[i].key
    ensures Sorted(a) ==> Sorted(b)
  {
  }

  lemma {:induction false} RoundedMembersSorted(members: seq<Member>)
    ensures |RoundedMembers(members)| == |members|
    ensures forall i :: 0 <= i < |members| ==> RoundedMembers(members)[i].key == members[i].key
    ensures Sorted(members) ==> Sorted(RoundedMembers(members))
  {
    if members != [] {
      var r := RoundedMembers(members);
      RoundedMembersSorted(members[1..]);
      forall i | 0 <= i < |members| ensures r[i].key == members[i].key {
        if i > 0 { assert r[i] == RoundedMembers(members[1..])[i - 1] && members[i] == members[1..][i - 1]; }
      }
      SameKeysSorted(members, r);
    }
  }

  // ---- Round trips ----

  /** Parsing printed text gives the value back, with numbers at the printed precision. */
  lemma PrintThenParse(v: Json)
    requires Valid(v)
    ensures ParseDocument(Print(v)) == Success(Rounded(v))
  {
    TreeMeans(v);
    assert Print(v) == "" + Render(TreeOf(v)) + "";
    assert DocumentTree(Print(v), Rounded(v), "", TreeOf(v), "");
    ParserMatchesGrammar(Print(v), Rounded(v));
  }

  lemma RoundedSize(size: real, n: nat)
    requires size >= 0.0 && n == RoundHalfEven(size * UNIT as real)
    ensures n as real / UNIT as real == size <==> AtMost15Digits(size)
  {
    var y := size * UNIT as real;
    assert (n as real / UNIT as real) * UNIT as real == n as real;
    assert y / UNIT as real == size;
    if AtMost15Digits(size) {
      assert y.Floor as real == y;
    }
  }

  lemma NegatedDigits(x: real)
    ensures AtMost15Digits(-x) <==> AtMost15Digits(x)
  {
    var y := x * UNIT as real;
    assert (-x) * UNIT as real == -y;
    if y.Floor as real == y { assert (-y).Floor == -(y.Floor); }
    if (-y).Floor as real == -y { assert y.Floor == -((-y).Floor); }
  }

  lemma RoundedNumber(x: real)
    ensures Rounded15(x) == x <==> AtMost15Digits(x)
  {
    RoundedSize(if x < 0.0 then -x else x, Units(x));
    NegatedDigits(x);
  }

  lemma {:induction false} RoundedIsExact(v: Json)
    ensures Rounded(v) == v <==> Exact(v)
    decreases v, 1
  {
    match v
    case Number(n) => RoundedNumber(n);
    case Array(items) => RoundedItemsExact(items);
    case Object(members) => RoundedMembersExact(members);
    case _ =>
  }

  lemma {:induction false} RoundedItemsExact(items: seq<Json>)
    ensures RoundedItems(items) == items <==> forall i :: 0 <= i < |items| ==> Exact(items[i])
    decreases items, 0
  {
    if items != [] {
      RoundedIsExact(items[0]);
      RoundedItemsExact(items[1..]);
      var r := RoundedItems(items);
      assert r[1..] == RoundedItems(items[1..]);
      assert items == [items[0]] + items[1..];
      assert forall i :: 0 < i < |items| ==> items[i] == items[1..][i - 1];
    }
  }

  lemma {:induction false} RoundedMembersExact(members: seq<Member>)
    ensures RoundedMembers(members) == members <==> forall i :: 0 <= i < |members| ==> Exact(members[i].value)
    decreases members, 0
  {
    if members != [] {
      RoundedIsExact(members[0].value);
      RoundedMembersExact(members[1..]);
      var r := RoundedMembers(members);
      assert r[0].value == Rounded(members[0].value);
      assert r[1..] == RoundedMembers(members[1..]);
      assert members == [members[0]] + members[1..];
      assert forall i :: 0 < i < |members| ==> members[i] == members[1..][i - 1];
    }
  }

  /** Printing and parsing is the identity exactly on the values whose numbers the printer can show. */
  lemma RoundTrip(v: Json)
    requires Valid(v)
    ensures ParseDocument(Print(v)) == Success(v) <==> Exact(v)
  {
    PrintThenParse(v);
    RoundedIsExact(v);
  }

  /** Rounding again changes nothing. */
  lemma UnitsOfRounded(x: real)
    ensures Units(Rounded15(x)) == Units(x) && (Rounded15(x) < 0.0 <==> x < 0.0 && Units(x) > 0)
  {
    var n: int := Units(x);
    assert (n as real / UNIT as real) * UNIT as real == n as real;
    WholeRounds(n);
  }

  lemma WholeRounds(n: nat)
    ensures RoundHalfEven(n as real) == n
  {
  }

  lemma RoundedNumberPrintsAlike(x: real)
    ensures PrintNumber(Rounded15(x)) == PrintNumber(x)
  {
    UnitsOfRounded(x);
    PrintNumberText(x);
    PrintNumberText(Rounded15(x));
    SameToken(x, Rounded15(x));
  }

  /** The sign of a number that rounds to zero is not printed. */
  lemma SameToken(x: real, y: real)
    requires Units(x) == Units(y) && (Units(x) > 0 ==> (x < 0.0 <==> y < 0.0))
    ensures NumberTokenOf(x) == NumberTokenOf(y)
  {
    if Units(x) == 0 { ZeroToken(Units(x)); }
  }

  lemma ZeroToken(n: nat)
    requires n == 0
    ensures DigitsOf(n / UNIT) == "0" && TrimZeros(PaddedDigits(n % UNIT, 15)) == ""
  {
    ZerosTrimmed(15);
  }

  lemma {:induction false} ZerosTrimmed(k: nat)
    ensures TrimZeros(PaddedDigits(0, k)) == ""
  {
    if k > 0 {
      ZerosTrimmed(k - 1);
      assert PaddedDigits(0, k)[..k - 1] == PaddedDigits(0, k - 1);
    }
  }

  lemma {:induction false} RoundedPrintsAlike(v: Json)
    ensures Print(Rounded(v)) == Print(v)
    decreases v, 1
  {
    match v
    case Number(n) => RoundedNumberPrintsAlike(n);
    case Array(items) => RoundedItemsPrintAlike(items);
    case Object(members) => RoundedMembersPrintAlike(members);
    case _ =>
  }

  lemma {:induction false} RoundedItemsPrintAlike(items: seq<Json>)
    ensures PrintItems(RoundedItems(items)) == PrintItems(items) && |RoundedItems(items)| == |items|
    decreases items, 0
  {
    if items != [] {
      RoundedPrintsAlike(items[0]);
      RoundedItemsPrintAlike(items[1..]);
      assert RoundedItems(items)[1..] == RoundedItems(items[1..]);
    }
  }

  lemma {:induction false} RoundedMembersPrintAlike(members: seq<Member>)
    ensures PrintMembers(RoundedMembers(members)) == PrintMembers(members) && |RoundedMembers(members)| == |members|
    decreases members, 0
  {
    if members != [] {
      RoundedPrintsAlike(members[0].value);
      RoundedMembersPrintAlike(members[1..]);
      assert RoundedMembers(members)[1..] == RoundedMembers(members[1..]);
    }
  }

  /** Two values print alike exactly when they agree up to the printed precision. */
  lemma PrintInjective(v: Json, w: Json)
    requires Valid(v) && Valid(w)
    ensures Print(v) == Print(w) <==> Rounded(v) == Rounded(w)
    ensures Print(v) == Print(w) && Exact(v) && Exact(w) ==> v == w
  {
    PrintThenParse(v);
    PrintThenParse(w);
    RoundedPrintsAlike(v);
    RoundedPrintsAlike(w);
    RoundedIsExact(v);
    RoundedIsExact(w);
  }

  // ---- One line ----

  predicate Printable(s: string) { forall i :: 0 <= i < |s| ==> s[i] >= ' ' }

  lemma EscapedCharPrintable(c: char)
    ensures Printable(EscapeChar(c))
  {
    if c < ' ' { HexDigitMeans(c as int / 16); HexDigitMeans(c as int % 16); }
  }

  lemma {:induction false} EscapedPrintable(s: string)
    ensures Printable(EscapeString(s))
  {
    if s != "" {
      EscapedCharPrintable(s[0]);
      EscapedPrintable(s[1..]);
    }
  }

  /** Printed text holds no byte below 0x20, so no line end and no carriage return. */
  lemma {:induction false} PrintPrintable(v: Json)
    requires Valid(v)
    ensures Printable(Print(v)) && Print(v) != ""
    decreases v, 1
  {
    match v
    case Number(n) => NumberPrintable(n);
    case String(s) => EscapedPrintable(s);
    case Array(items) => ItemsPrintable(items);
    case Object(members) => MembersPrintable(members);
    case _ =>
  }

  lemma NumberPrintable(x: real)
    requires Finite(x)
    ensures Printable(PrintNumber(x)) && PrintNumber(x) != ""
  {
    PrintNumberText(x);
    NumberTokenMeans(x);
  }

  lemma {:induction false} ItemsPrintable(items: seq<Json>)
    requires forall i :: 0 <= i < |items| ==> Valid(items[i])
    ensures Printable(PrintItems(items))
    decreases items, 0
  {
    if items != [] {
      PrintPrintable(items[0]);
      ItemsPrintable(items[1..]);
    }
  }

  lemma {:induction false} MembersPrintable(members: seq<Member>)
    requires forall i :: 0 <= i < |members| ==> Valid(members[i].value)
    ensures Printable(PrintMembers(members))
    decreases members, 0
  {
    if members != [] {
      EscapedPrintable(members[0].key);
      PrintPrintable(members[0].value);
      MembersPrintable(members[1..]);
    }
  }
}
