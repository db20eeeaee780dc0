/** The editor's highlighter, `tokenizeLine` of APP/editor/editor_win.cpp, and the clipping with which
    `renderContent` draws its tokens. */
module Highlighting {
  import opened Ascii
  import opened Concat

  datatype Kind = Normal | Keyword | StringLit | CharLit | LineComment | BlockComment | NumberLit | Preproc

  datatype Token = Token(kind: Kind, text: string)

  const KEYWORDS := [
    "auto", "break", "case", "char", "const", "continue", "default", "do",
    "double", "else", "enum", "extern", "float", "for", "goto", "if",
    "inline", "int", "long", "register", "restrict", "return", "short",
    "signed", "sizeof", "static", "struct", "switch", "typedef", "union",
    "unsigned", "void", "volatile", "while", "_Bool", "_Complex",
    "_Imaginary", "bool", "true", "false", "nullptr", "NULL",
    "class", "public", "private", "protected", "new", "delete", "this",
    "namespace", "using", "template", "typename", "virtual", "override",
    "final", "explicit", "operator", "friend", "throw", "try", "catch",
    "noexcept", "constexpr", "auto", "decltype", "static_assert",
    "nullptr", "std", "string", "vector", "map", "set"]

  predicate InNumber(c: char) { IsDigit(c) || c in ".eEfFuUlL" }

  predicate InWord(c: char) { IsAlpha(c) || IsDigit(c) || c == '_' }

  /** The two characters at `i`. */
  predicate PairAt(s: string, i: nat, a: char, b: char) { i + 1 < |s| && s[i] == a && s[i + 1] == b }

  // ---- Where a token ends ----

  /** The end of a block comment whose body starts at `i`, and whether it is closed there. */
  function BlockEnd(s: string, i: nat): (r: (nat, bool))
    requires i <= |s|
    ensures i <= r.0 <= |s| && (!r.1 ==> r.0 == |s|)
    ensures r.1 ==>
      i + 2 <= r.0 && PairAt(s, r.0 - 2, '*', '/')
      && forall k :: i <= k < r.0 - 2 ==> !PairAt(s, k, '*', '/')
    ensures !r.1 ==> forall k :: i <= k < |s| ==> !PairAt(s, k, '*', '/')
    decreases |s| - i
  {
    if i == |s| then (i, false) else if PairAt(s, i, '*', '/') then (i + 2, true) else BlockEnd(s, i + 1)
  }

  /** The end of a literal whose body starts at `i`; a backslash escapes the next character. */
  function LiteralEnd(s: string, i: nat, quote: char): (r: nat)
    ensures r <= |s| && (i <= |s| ==> i <= r)
    decreases |s| - i
  {
    if i >= |s| then |s|
    else if s[i] == '\\' then LiteralEnd(s, i + 2, quote)
    else if s[i] == quote then i + 1
    else LiteralEnd(s, i + 1, quote)
  }

  /** The end of the longest run of characters from `i` that `p` accepts. */
  function RunEnd(s: string, i: nat, p: char -> bool): (r: nat)
    requires i <= |s|
    ensures i <= r <= |s| && (forall k :: i <= k < r ==> p(s[k])) && (r < |s| ==> !p(s[r]))
    decreases |s| - i
  {
    if i < |s| && p(s[i]) then RunEnd(s, i + 1, p) else i
  }

  predicate StartsNumber(s: string, i: nat)
    requires i < |s|
  {
    IsDigit(s[i]) || (s[i] == '.' && i + 1 < |s| && IsDigit(s[i + 1]))
  }

  function NumberEnd(s: string, i: nat): (r: nat)
    requires i < |s| && StartsNumber(s, i)
    ensures i < r <= |s|
  {
    if PairAt(s, i, '0', 'x') || PairAt(s, i, '0', 'X') then RunEnd(s, i + 2, IsHexDigit) else RunEnd(s, i, InNumber)
  }

  // ---- One token ----

  datatype Step = Step(kind: Kind, end: nat, inBlock: bool, single: bool)

  function Next(s: string, i: nat, inBlock: bool): (r: Step)
    requires i < |s|
    ensures i < r.end <= |s|
  {
    if inBlock then
      var (end, closed) := BlockEnd(s, i);
      Step(BlockComment, end, !closed, false)
    else if PairAt(s, i, '/', '/') then Step(LineComment, |s|, false, false)
    else if PairAt(s, i, '/', '*') then
      var (end, closed) := BlockEnd(s, i + 2);
      Step(BlockComment, end, !closed, false)
    else if s[i] == '"' then Step(StringLit, LiteralEnd(s, i + 1, '"'), false, false)
    else if s[i] == '\'' then Step(CharLit, LiteralEnd(s, i + 1, '\''), false, false)
    else if StartsNumber(s, i) then Step(NumberLit, NumberEnd(s, i), false, false)
    else if IsAlpha(s[i]) || s[i] == '_' then
      var end := RunEnd(s, i, InWord);
      Step(if s[i..end] in KEYWORDS then Keyword else Normal, end, false, false)
    else Step(Normal, i + 1, false, true)
  }

  /** A single ordinary character joins an ordinary token before it. */
  function Push(tokens: seq<Token>, step: Step, text: string): seq<Token> {
    if step.single && tokens != [] && tokens[|tokens| - 1].kind == Normal then
      var last := tokens[|tokens| - 1];
      tokens[|tokens| - 1 := Token(Normal, last.text + text)]
    else tokens + [Token(step.kind, text)]
  }

  function Scan(s: string, i: nat, inBlock: bool, tokens: seq<Token>): (seq<Token>, bool)
    requires i <= |s|
    decreases |s| - i
  {
    if i == |s| then (tokens, inBlock) else
    var step := Next(s, i, inBlock);
    Scan(s, step.end, step.inBlock, Push(tokens, step, s[i..step.end]))
  }

  predicate IsGap(c: char) { c == ' ' || c == '\t' }

  predicate IsDirective(s: string) {
    var i := RunEnd(s, 0, IsGap);
    i < |s| && s[i] == '#'
  }

  /** The tokens of a line and the block-comment state after it. */
  function Tokens(s: string, inBlock: bool): (seq<Token>, bool) {
    if !inBlock && IsDirective(s) then ([Token(Preproc, s)], false) else Scan(s, 0, inBlock, [])
  }

  // ---- The loops ----

  method TokenizeLine(line: string, inBlock: bool) returns (tokens: seq<Token>, outBlock: bool)
    ensures (tokens, outBlock) == Tokens(line, inBlock)
  {
    tokens, outBlock := [], inBlock;
    if !inBlock {
      var start := ScanRun(line, 0, IsGap);
      if start < |line| && line[start] == '#' { return [Token(Preproc, line)], false; }
    }
    var i := 0;
    while i < |line|
      invariant 0 <= i <= |line| && Scan(line, 0, inBlock, []) == Scan(line, i, outBlock, tokens)
    {
      var step := ScanToken(line, i, outBlock);
      var text := line[i..step.end];
      if step.single && tokens != [] && tokens[|tokens| - 1].kind == Normal {
        tokens := tokens[|tokens| - 1 := Token(Normal, tokens[|tokens| - 1].text + text)];
      } else {
        tokens := tokens + [Token(step.kind, text)];
      }
      i, outBlock := step.end, step.inBlock;
    }
  }

  /** One turn of the loop: the kind of the token at `i`, its end and the comment state there. */
  method ScanToken(line: string, i: nat, inBlock: bool) returns (r: Step)
    requires i < |line|
    ensures r == Next(line, i, inBlock)
  {
    if inBlock {
      var end, closed := ScanBlock(line, i);
      return Step(BlockComment, end, !closed, false);
    }
    if i + 1 < |line| && line[i] == '/' && line[i + 1] == '/' { return Step(LineComment, |line|, false, false); }
    if i + 1 < |line| && line[i] == '/' && line[i + 1] == '*' {
      var end, closed := ScanBlock(line, i + 2);
      return Step(BlockComment, end, !closed, false);
    }
    if line[i] == '"' {
      var end := ScanLiteral(line, i + 1, '"');
      return Step(StringLit, end, false, false);
    }
    if line[i] == '\'' {
      var end := ScanLiteral(line, i + 1, '\'');
      return Step(CharLit, end, false, false);
    }
    if IsDigit(line[i]) || (line[i] == '.' && i + 1 < |line| && IsDigit(line[i + 1])) {
      var end;
      if line[i] == '0' && i + 1 < |line| && (line[i + 1] == 'x' || line[i + 1] == 'X') {
        end := ScanRun(line, i + 2, IsHexDigit);
      } else {
        end := ScanRun(line, i, InNumber);
      }
      return Step(NumberLit, end, false, false);
    }
    if IsAlpha(line[i]) || line[i] == '_' {
      var end := ScanRun(line, i, InWord);
      return Step(if line[i..end] in KEYWORDS then Keyword else Normal, end, false, false);
    }
    return Step(Normal, i + 1, false, true);
  }

  method ScanBlock(s: string, from: nat) returns (i: nat, closed: bool)
    requires from <= |s|
    ensures (i, closed) == BlockEnd(s, from)
  {
    i := from;
    while i < |s|
      invariant from <= i <= |s| && BlockEnd(s, from) == BlockEnd(s, i)
    {
      if i + 1 < |s| && s[i] == '*' && s[i + 1] == '/' { return i + 2, true; }
      i := i + 1;
    }
    return i, false;
  }

  /** The position may step past the end after a final backslash; the text taken is cut at the end. */
  method ScanLiteral(s: string, from: nat, quote: char) returns (end: nat)
    ensures end == LiteralEnd(s, from, quote)
  {
    var i := from;
    while i < |s|
      invariant LiteralEnd(s, from, quote) == LiteralEnd(s, i, quote)
      decreases |s| - i
    {
      if s[i] == '\\' { i := i + 2; continue; }
      if s[i] == quote { return i + 1; }
      i := i + 1;
    }
    return |s|;
  }

  method ScanRun(s: string, from: nat, p: char -> bool) returns (i: nat)
    requires from <= |s|
    ensures i == RunEnd(s, from, p)
  {
    i := from;
    while i < |s| && p(s[i])
      invariant from <= i <= |s| && RunEnd(s, from, p) == RunEnd(s, i, p)
    {
      i := i + 1;
    }
  }

  // ---- Nothing is lost ----

  function Texts(tokens: seq<Token>): string {
    if tokens == [] then "" else Texts(tokens[..|tokens| - 1]) + tokens[|tokens| - 1].text
  }

  predicate NoneEmpty(tokens: seq<Token>) { forall k :: 0 <= k < |tokens| ==> tokens[k].text != "" }

  lemma PushKeeps(tokens: seq<Token>, step: Step, text: string)
    requires NoneEmpty(tokens) && text != ""
    ensures Texts(Push(tokens, step, text)) == Texts(tokens) + text && NoneEmpty(Push(tokens, step, text))
  {
    var r := Push(tokens, step, text);
    if |r| == |tokens| {
      assert r[..|r| - 1] == tokens[..|tokens| - 1];
      Assoc(Texts(tokens[..|tokens| - 1]), tokens[|tokens| - 1].text, text);
    } else {
      assert r[..|r| - 1] == tokens;
    }
  }

  lemma {:induction false} ScanKeeps(s: string, i: nat, inBlock: bool, tokens: seq<Token>)
    requires i <= |s| && NoneEmpty(tokens)
    ensures var r := Scan(s, i, inBlock, tokens).0; Texts(r) == Texts(tokens) + s[i..] && NoneEmpty(r)
    decreases |s| - i
  {
    if i < |s| {
      var step := Next(s, i, inBlock);
      var text := s[i..step.end];
      PushKeeps(tokens, step, text);
      ScanKeeps(s, step.end, step.inBlock, Push(tokens, step, text));
      Assoc(Texts(tokens), text, s[step.end..]);
      assert text + s[step.end..] == s[i..];
    } else {
      assert Texts(tokens) + s[i..] == Texts(tokens);
    }
  }

  /** The token texts make up the line, and none is empty, whatever state the line starts in. */
  lemma Lossless(s: string, inBlock: bool)
    ensures Texts(Tokens(s, inBlock).0) == s && NoneEmpty(Tokens(s, inBlock).0)
  {
    if !inBlock && IsDirective(s) {
      var t := [Token(Preproc, s)];
      assert t[..0] == [] && Texts(t[..0]) + s == s;
    } else {
      ScanKeeps(s, 0, inBlock, []);
      assert "" + s[0..] == s;
    }
  }

  // ---- What the kinds mean ----

  predicate StartsWith(text: string, a: char, b: char) { PairAt(text, 0, a, b) }

  predicate EndsWith(text: string, a: char, b: char) { |text| >= 2 && text[|text| - 2] == a && text[|text| - 1] == b }

  /** What a token looks like: `first` in its line, the line starting inside a comment or not; `open` is
      the state after the line when the token is the last, and false otherwise. */
  ghost predicate Looks(t: Token, first: bool, inBlock: bool, last: bool, open: bool) {
    match t.kind
    case LineComment => StartsWith(t.text, '/', '/') && last && !open
    case BlockComment =>
      (StartsWith(t.text, '/', '*') || (first && inBlock))
      && (open || EndsWith(t.text, '*', '/')) && (open ==> last)
    case StringLit => t.text != "" && t.text[0] == '"' && !open
    case CharLit => t.text != "" && t.text[0] == '\'' && !open
    case NumberLit => t.text != "" && (IsDigit(t.text[0]) || t.text[0] == '.') && !open
    case Keyword => t.text in KEYWORDS && !open
    case Normal => !open
    case Preproc => first && last && !inBlock && IsDirective(t.text) && !open
  }

  /** All tokens look like their kinds, where the state after the last of them is `open`. */
  ghost predicate AllLook(tokens: seq<Token>, inBlock: bool, open: bool) {
    forall k :: 0 <= k < |tokens| ==>
      Looks(tokens[k], k == 0, inBlock, k == |tokens| - 1, open && k == |tokens| - 1)
  }

  /** As long as the line goes on, no token has claimed to be the last. */
  ghost predicate GoesOn(tokens: seq<Token>) {
    forall k :: 0 <= k < |tokens| ==> !tokens[k].kind.LineComment? && !tokens[k].kind.Preproc?
  }

  lemma NextLooks(s: string, i: nat, first: bool, inBlock: bool, open: bool)
    requires i < |s| && open == (first && inBlock)
    ensures var step := Next(s, i, open); var t := Token(step.kind, s[i..step.end]);
      && Looks(t, first, inBlock, true, step.inBlock)
      && (step.end < |s| ==> !t.kind.LineComment? && !t.kind.Preproc? && !step.inBlock)
  {
    if !open && PairAt(s, i, '/', '/') {
      assert s[i..][1] == s[i + 1];
    } else if open || PairAt(s, i, '/', '*') {
      CommentLooks(s, i, if open then i else i + 2);
    } else {
      CodeLooks(s, i, first, inBlock);
    }
  }

  /** Anything but a comment shows its kind by its first character or its word. */
  lemma CodeLooks(s: string, i: nat, first: bool, inBlock: bool)
    requires i < |s| && !PairAt(s, i, '/', '/') && !PairAt(s, i, '/', '*')
    ensures var step := Next(s, i, false); var t := Token(step.kind, s[i..step.end]);
      Looks(t, first, inBlock, true, false) && !step.inBlock && !t.kind.LineComment? && !t.kind.Preproc?
  {
    var text := s[i..Next(s, i, false).end];
    assert text[0] == s[i];
  }

  /** A block comment starts with its two characters unless it began above, and ends with its two unless it goes on. */
  lemma CommentLooks(s: string, i: nat, body: nat)
    requires i <= body <= |s| && i < |s| && (body == i || (body == i + 2 && PairAt(s, i, '/', '*')))
    ensures var (end, closed) := BlockEnd(s, body);
      (body == i + 2 ==> StartsWith(s[i..end], '/', '*')) && (closed ==> EndsWith(s[i..end], '*', '/'))
  {
  }

  lemma PushLooks(s: string, i: nat, tokens: seq<Token>, inBlock: bool, open: bool)
    requires i < |s| && AllLook(tokens, inBlock, open) && GoesOn(tokens)
    requires tokens == [] ==> open == inBlock
    requires tokens != [] ==> !open
    ensures var step := Next(s, i, open); var r := Push(tokens, step, s[i..step.end]);
      AllLook(r, inBlock, step.inBlock) && r != [] && (step.end < |s| ==> GoesOn(r) && !step.inBlock)
  {
    var step := Next(s, i, open);
    var text := s[i..step.end];
    var r := Push(tokens, step, text);
    NextLooks(s, i, tokens == [], inBlock, open);
    forall k | 0 <= k < |r|
      ensures Looks(r[k], k == 0, inBlock, k == |r| - 1, step.inBlock && k == |r| - 1)
    {
      if k < |tokens| { assert Looks(tokens[k], k == 0, inBlock, k == |tokens| - 1, false); }
    }
  }

  lemma {:induction false} ScanLooks(s: string, i: nat, tokens: seq<Token>, inBlock: bool, open: bool)
    requires i <= |s| && AllLook(tokens, inBlock, open) && (i < |s| ==> GoesOn(tokens) && (tokens != [] ==> !open))
    requires tokens == [] ==> open == inBlock
    ensures var (r, out) := Scan(s, i, open, tokens);
      AllLook(r, inBlock, out) && (r == [] ==> out == inBlock)
    decreases |s| - i
  {
    if i < |s| {
      PushLooks(s, i, tokens, inBlock, open);
      var step := Next(s, i, open);
      ScanLooks(s, step.end, Push(tokens, step, s[i..step.end]), inBlock, step.inBlock);
    }
  }

  /** Every token looks like its kind.  A line leaves a block comment open only by its last token, which
      is then a block comment, or by having no token and beginning inside one; a block comment that is
      not left open ends in its terminator. */
  lemma KindsAndState(s: string, inBlock: bool)
    ensures var (r, out) := Tokens(s, inBlock); AllLook(r, inBlock, out) && (r == [] ==> out == inBlock)
  {
    if !inBlock && IsDirective(s) {
    } else {
      ScanLooks(s, 0, [], inBlock, inBlock);
    }
  }
}
