/** Which token begins at a place of a line and where it ends, APP/editor/editor_win.cpp, spelled out. */
module HighlightRules {
  import opened Ascii
  import opened Highlighting

  // ---- Literals ----

  /** From `i` to `j` there are characters other than the quote and the backslash, and pairs of a backslash and any
      character. */
  ghost predicate Units(s: string, i: nat, j: nat, quote: char)
    requires j <= |s|
    decreases j - i
  {
    i == j
    || (i + 2 <= j && s[i] == '\\' && Units(s, i + 2, j, quote))
    || (i < j && s[i] != '\\' && s[i] != quote && Units(s, i + 1, j, quote))
  }

  /** A literal ends behind its first quote that is not escaped. */
  lemma {:induction false} LiteralCloses(s: string, i: nat, j: nat, quote: char)
    requires i <= j < |s| && quote != '\\' && Units(s, i, j, quote) && s[j] == quote
    ensures LiteralEnd(s, i, quote) == j + 1
    decreases j - i
  {
    if i < j { LiteralCloses(s, if s[i] == '\\' then i + 2 else i + 1, j, quote); }
  }

  /** Without one it goes on to the end of the line. */
  lemma {:induction false} LiteralStaysOpen(s: string, i: nat, quote: char)
    requires i <= |s| && quote != '\\'
    requires forall j :: i <= j < |s| && s[j] == quote ==> !Units(s, i, j, quote)
    ensures LiteralEnd(s, i, quote) == |s|
    decreases |s| - i
  {
    if i < |s| {
      assert s[i] == quote ==> Units(s, i, i, quote);
      var next := if s[i] == '\\' then i + 2 else i + 1;
      forall j | next <= j < |s| && s[j] == quote ensures !Units(s, next, j, quote) {
        assert !Units(s, i, j, quote);
      }
      if next <= |s| { LiteralStaysOpen(s, next, quote); }
    }
  }

  // ---- What begins at a place ----

  predicate InWordAt(s: string, k: nat) {
    k < |s| && ('a' <= s[k] <= 'z' || 'A' <= s[k] <= 'Z' || '0' <= s[k] <= '9' || s[k] == '_')
  }

  /** The longest word from `i`. */
  predicate WordTo(s: string, i: nat, j: nat) {
    i < j <= |s| && !InWordAt(s, j) && (forall k :: i <= k < j ==> InWordAt(s, k)) && !('0' <= s[i] <= '9')
  }

  lemma RunEndsAt(s: string, i: nat, p: char -> bool, j: nat)
    requires i <= j <= |s| && (forall k :: i <= k < j ==> p(s[k])) && (j < |s| ==> !p(s[j]))
    ensures RunEnd(s, i, p) == j
  {
  }

  /** A word is a keyword exactly when it is one of the listed ones. */
  lemma WordToken(s: string, i: nat, j: nat)
    requires WordTo(s, i, j)
    ensures Next(s, i, false) == Step(if s[i..j] in KEYWORDS then Keyword else Normal, j, false, false)
  {
    forall k | i <= k < |s| ensures InWord(s[k]) <==> InWordAt(s, k) {}
    RunEndsAt(s, i, InWord, j);
    assert InWordAt(s, i);
  }

  lemma LiteralToken(s: string, i: nat)
    requires i < |s| && s[i] in "\"'"
    ensures Next(s, i, false) ==
      Step(if s[i] == '"' then StringLit else CharLit, LiteralEnd(s, i + 1, s[i]), false, false)
  {
  }

  /** Two slashes comment out the rest of the line. */
  lemma LineCommentToken(s: string, i: nat)
    requires i + 1 < |s| && s[i] == '/' && s[i + 1] == '/'
    ensures Next(s, i, false) == Step(LineComment, |s|, false, false)
  {
  }

  /** A block comment goes to the first end after its beginning, or after the place where the line goes on in one; it
      stays open without an end. */
  lemma BlockCommentToken(s: string, i: nat, open: bool)
    requires i < |s| && (open || (i + 1 < |s| && s[i] == '/' && s[i + 1] == '*'))
    ensures var from, step := if open then i else i + 2, Next(s, i, open);
      step.kind == BlockComment && !step.single
      && (step.inBlock <==> forall k :: from <= k < |s| - 1 ==> !(s[k] == '*' && s[k + 1] == '/'))
      && (step.inBlock ==> step.end == |s|)
      && (!step.inBlock ==>
        from + 2 <= step.end && s[step.end - 2] == '*' && s[step.end - 1] == '/'
        && forall k :: from <= k < step.end - 2 ==> !(s[k] == '*' && s[k + 1] == '/'))
  {
    var from := if open then i else i + 2;
    var (end, closed) := BlockEnd(s, from);
    if !closed {
      forall k | from <= k < |s| - 1 ensures !(s[k] == '*' && s[k + 1] == '/') { assert !PairAt(s, k, '*', '/'); }
    } else {
      assert PairAt(s, end - 2, '*', '/');
      forall k | from <= k < end - 2 ensures !(s[k] == '*' && s[k + 1] == '/') { assert !PairAt(s, k, '*', '/'); }
    }
  }

  predicate HexAt(s: string, k: nat) { k < |s| && ('0' <= s[k] <= '9' || 'a' <= s[k] <= 'f' || 'A' <= s[k] <= 'F') }

  predicate DecimalAt(s: string, k: nat) { k < |s| && ('0' <= s[k] <= '9' || s[k] in ".eEfFuUlL") }

  /** A number begins with a digit, or with a dot before one; behind `0x` it goes on with hexadecimal digits, and
      otherwise with digits, dots, exponent letters and suffixes. */
  lemma NumberToken(s: string, i: nat, j: nat)
    requires i < j <= |s| && ('0' <= s[i] <= '9' || (s[i] == '.' && i + 1 < |s| && '0' <= s[i + 1] <= '9'))
    requires var hex := s[i] == '0' && i + 1 < |s| && s[i + 1] in "xX";
      if hex then i + 2 <= j && !HexAt(s, j) && forall k :: i + 2 <= k < j ==> HexAt(s, k)
      else !DecimalAt(s, j) && forall k :: i <= k < j ==> DecimalAt(s, k)
    ensures Next(s, i, false) == Step(NumberLit, j, false, false)
  {
    if s[i] == '0' && i + 1 < |s| && s[i + 1] in "xX" {
      assert PairAt(s, i, '0', 'x') || PairAt(s, i, '0', 'X');
      forall k | i <= k < |s| ensures IsHexDigit(s[k]) <==> HexAt(s, k) {}
      RunEndsAt(s, i + 2, IsHexDigit, j);
    } else {
      assert !PairAt(s, i, '0', 'x') && !PairAt(s, i, '0', 'X');
      forall k | i <= k < |s| ensures InNumber(s[k]) <==> DecimalAt(s, k) {}
      RunEndsAt(s, i, InNumber, j);
    }
  }

  /** Anything else is an ordinary character. */
  lemma OrdinaryToken(s: string, i: nat)
    requires i < |s| && !InWordAt(s, i) && s[i] !in "\"'"
    requires !(s[i] == '.' && i + 1 < |s| && '0' <= s[i + 1] <= '9')
    requires !(i + 1 < |s| && s[i] == '/' && s[i + 1] in "/*")
    ensures Next(s, i, false) == Step(Normal, i + 1, false, true)
  {
  }

  // ---- Tokens next to each other ----

  /** Ordinary characters are gathered: of two ordinary tokens in a row the second is a word. */
  ghost predicate Gathered(tokens: seq<Token>) {
    forall k :: 0 < k < |tokens| && tokens[k - 1].kind == Normal && tokens[k].kind == Normal ==>
      tokens[k].text != "" && (IsAlpha(tokens[k].text[0]) || tokens[k].text[0] == '_')
  }

  lemma PushGathers(s: string, i: nat, inBlock: bool, tokens: seq<Token>)
    requires i < |s| && Gathered(tokens)
    ensures var step := Next(s, i, inBlock); Gathered(Push(tokens, step, s[i..step.end]))
  {
    var step := Next(s, i, inBlock);
    var text := s[i..step.end];
    assert text[0] == s[i];
  }

  lemma {:induction false} ScanGathers(s: string, i: nat, inBlock: bool, tokens: seq<Token>)
    requires i <= |s| && Gathered(tokens)
    ensures Gathered(Scan(s, i, inBlock, tokens).0)
    decreases |s| - i
  {
    if i < |s| {
      PushGathers(s, i, inBlock, tokens);
      var step := Next(s, i, inBlock);
      ScanGathers(s, step.end, step.inBlock, Push(tokens, step, s[i..step.end]));
    }
  }

  lemma TokensGathered(s: string, inBlock: bool)
    ensures Gathered(Tokens(s, inBlock).0)
  {
    ScanGathers(s, 0, inBlock, []);
  }

  // ---- Whole lines ----

  /** A line whose first character other than blanks and tabs is a hash is one directive, unless a comment goes on. */
  lemma DirectiveLine(s: string, i: nat)
    requires i < |s| && s[i] == '#' && forall k :: 0 <= k < i ==> s[k] in " \t"
    ensures Tokens(s, false) == ([Token(Preproc, s)], false)
  {
    RunEndsAt(s, 0, IsGap, i);
  }

  /** In an open comment a line without its end is nothing but comment, and leaves it open. */
  lemma CommentLine(s: string)
    requires forall k :: 0 <= k < |s| - 1 ==> !(s[k] == '*' && s[k + 1] == '/')
    ensures Tokens(s, true) == (if s == "" then [] else [Token(BlockComment, s)], true)
  {
    if s != "" {
      BlockCommentToken(s, 0, true);
      OneToken(s, 0, true);
    }
  }

  /** And a line that opens one with its first characters and does not close it is nothing but comment, too. */
  lemma CommentOpens(s: string)
    requires |s| >= 2 && s[0] == '/' && s[1] == '*'
    requires forall k :: 2 <= k < |s| - 1 ==> !(s[k] == '*' && s[k + 1] == '/')
    ensures Tokens(s, false) == ([Token(BlockComment, s)], true)
  {
    BlockCommentToken(s, 0, false);
    RunEndsAt(s, 0, IsGap, 0);
    OneToken(s, 0, false);
  }

  /** A token that goes to the end of the line is the last. */
  lemma OneToken(s: string, i: nat, open: bool)
    requires i == 0 < |s| && Next(s, i, open).end == |s| && !Next(s, i, open).single
    ensures Scan(s, i, open, []) == ([Token(Next(s, i, open).kind, s)], Next(s, i, open).inBlock)
  {
    assert s[i..|s|] == s;
    assert [] + [Token(Next(s, i, open).kind, s)] == [Token(Next(s, i, open).kind, s)];
  }
}
