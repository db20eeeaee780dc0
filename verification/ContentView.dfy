/** The text area of the editor, `renderContent` of APP/editor/editor_win.cpp: with and without
    highlighting it shows the same characters in the same columns. */
module ContentView {
  import opened Highlighting
  import opened Concat
  import opened Numbers

  // ---- Screen rows ----

  /** A row holds the cells that have been written; beyond them it is blank. */
  function Cell(row: string, k: nat): char { if k < |row| then row[k] else ' ' }

  /** `mvprintw` of `text` at a column. */
  function Write(row: string, col: nat, text: string): string {
    if text == "" then row
    else
      seq(Max(|row|, col + |text|),
        k requires 0 <= k => (if col <= k < col + |text| then text[k - col] else Cell(row, k)))
  }

  /** Contiguous pieces written one after the other are written as one. */
  lemma WriteContiguous(row: string, col: nat, a: string, b: string)
    ensures Write(Write(row, col, a), col + |a|, b) == Write(row, col, a + b)
  {
    if a == "" { assert a + b == b; }
    if b == "" { assert a + b == a; }
  }

  const CONTENT_START: nat := 5

  /** The part of a text that a window of `width` columns scrolled by `scroll` shows. */
  function Clip(s: string, scroll: nat, width: nat): string {
    if scroll >= |s| then "" else s[scroll..Min(|s|, scroll + width)]
  }

  /** What a text appended to the left or to the right of the window adds to it. */
  lemma ClipUnchanged(s: string, t: string, scroll: nat, width: nat)
    requires |s| + |t| <= scroll || |s| >= scroll + width
    ensures Clip(s + t, scroll, width) == Clip(s, scroll, width)
  {
  }

  /** What a text appended inside the window adds to it. */
  lemma ClipExtended(s: string, t: string, scroll: nat, width: nat)
    requires |s| + |t| > scroll && |s| < scroll + width
    ensures
      var from, to := Max(0, scroll - |s|), Min(|t|, scroll + width - |s|);
      0 <= from <= to <= |t| && |Clip(s, scroll, width)| == |s| + from - scroll
      && Clip(s + t, scroll, width) == Clip(s, scroll, width) + t[from..to]
  {
  }

  /** The visible part of a token goes right after what the tokens before it, `before`, have drawn. */
  method DrawToken(ghost start: string, ghost before: string, row: string,
    text: string, col: nat, scroll: nat, width: nat)
    returns (r: string)
    requires col == |before| < scroll + width && col + |text| > scroll
    requires row == Write(start, CONTENT_START, Clip(before, scroll, width))
    ensures r == Write(start, CONTENT_START, Clip(before + text, scroll, width))
  {
    ClipExtended(before, text, scroll, width);
    var clipStart := Max(0, scroll - col);
    var clipEnd := Min(|text|, scroll + width - col);
    var screenCol := CONTENT_START + (col + clipStart - scroll);
    WriteContiguous(start, CONTENT_START, Clip(before, scroll, width), text[clipStart..clipEnd]);
    r := Write(row, screenCol, text[clipStart..clipEnd]);
  }

  /** The token loop: skip what is left of the window, stop to the right of it, clip what is in it. */
  method DrawTokens(start: string, tokens: seq<Token>, scroll: nat, width: nat) returns (row: string)
    ensures row == Write(start, CONTENT_START, Clip(Texts(tokens), scroll, width))
  {
    row := start;
    var col := 0;
    for i := 0 to |tokens|
      invariant col == |Texts(tokens[..i])|
      invariant row == Write(start, CONTENT_START, Clip(Texts(tokens[..i]), scroll, width))
    {
      var text := tokens[i].text;
      ghost var before := Texts(tokens[..i]);
      TextsStep(tokens, i);
      var tokEnd := col + |text|;
      if tokEnd <= scroll {
        ClipUnchanged(before, text, scroll, width);
        col := tokEnd;
        continue;
      }
      if col >= scroll + width {
        RestHidden(tokens, i, scroll, width);
        return;
      }
      row := DrawToken(start, before, row, text, col, scroll, width);
      col := tokEnd;
    }
    assert tokens[..|tokens|] == tokens;
  }

  lemma TextsStep(tokens: seq<Token>, i: nat)
    requires i < |tokens|
    ensures Texts(tokens[..i + 1]) == Texts(tokens[..i]) + tokens[i].text
  {
    assert tokens[..i + 1][..i] == tokens[..i];
  }

  lemma {:induction false} TextsConcat(a: seq<Token>, b: seq<Token>)
    ensures Texts(a + b) == Texts(a) + Texts(b)
    decreases |b|
  {
    if b == [] {
      assert a + b == a;
    } else {
      var init := b[..|b| - 1];
      assert (a + b)[..|a + b| - 1] == a + init;
      TextsConcat(a, init);
      Assoc(Texts(a), Texts(init), b[|b| - 1].text);
    }
  }

  lemma RestHidden(tokens: seq<Token>, i: nat, scroll: nat, width: nat)
    requires i <= |tokens| && |Texts(tokens[..i])| >= scroll + width
    ensures Clip(Texts(tokens), scroll, width) == Clip(Texts(tokens[..i]), scroll, width)
  {
    assert tokens == tokens[..i] + tokens[i..];
    TextsConcat(tokens[..i], tokens[i..]);
    ClipUnchanged(Texts(tokens[..i]), Texts(tokens[i..]), scroll, width);
  }

  // ---- The whole area ----

  datatype View = View(scrollOffset: nat, horizontalScroll: nat, screenWidth: nat, visibleLines: nat) {
    function ContentWidth(): nat { Max(1, screenWidth - CONTENT_START) }
  }

  /** One row, without highlighting: the line's number, its visible part, and a mark when more follows. */
  function PlainRow(lines: seq<string>, index: nat, v: View, number: nat -> string): string
    requires v.screenWidth > 0
  {
    if index >= |lines| then "~"
    else
      var row := Write(Write("", 0, number(index + 1)), CONTENT_START,
        Clip(lines[index], v.horizontalScroll, v.ContentWidth()));
      if v.horizontalScroll + v.ContentWidth() < |lines[index]| then Write(row, v.screenWidth - 1, ">") else row
  }

  /** The block-comment state before a line: that of reading all lines above it. */
  function StateBefore(lines: seq<string>, k: nat): bool
    requires k <= |lines|
  {
    if k == 0 then false else Tokens(lines[k - 1], StateBefore(lines, k - 1)).1
  }

  /** The colours of a row are those of the tokens drawn on it. */
  predicate ColouredFrom(lines: seq<string>, first: nat, colours: seq<seq<Token>>) {
    forall k :: 0 <= k < |colours| && first + k < |lines| ==>
      colours[k] == Tokens(lines[first + k], StateBefore(lines, first + k)).0
  }

  /** Every row shows what the plain rendering of its line shows. */
  predicate ShownFrom(lines: seq<string>, v: View, number: nat -> string, rows: seq<string>)
    requires v.screenWidth > 0
  {
    forall k :: 0 <= k < |rows| ==> rows[k] == PlainRow(lines, v.scrollOffset + k, v, number)
  }

  lemma ShownOneMore(lines: seq<string>, v: View, number: nat -> string, rows: seq<string>, row: string)
    requires v.screenWidth > 0 && ShownFrom(lines, v, number, rows)
    requires row == PlainRow(lines, v.scrollOffset + |rows|, v, number)
    ensures ShownFrom(lines, v, number, rows + [row])
  {
  }

  lemma ColouredOneMore(lines: seq<string>, first: nat, colours: seq<seq<Token>>, tokens: seq<Token>)
    requires ColouredFrom(lines, first, colours)
    requires first + |colours| < |lines| ==>
      tokens == Tokens(lines[first + |colours|], StateBefore(lines, first + |colours|)).0
    ensures ColouredFrom(lines, first, colours + [tokens])
  {
  }

  /** The lines above the window are read for the state they leave. */
  method CommentStateAbove(lines: seq<string>, count: nat) returns (state: bool)
    ensures count <= |lines| ==> state == StateBefore(lines, count)
  {
    state := false;
    var i := 0;
    while i < count && i < |lines|
      invariant 0 <= i <= |lines| && i <= count && state == StateBefore(lines, i)
    {
      var _, next := TokenizeLine(lines[i], state);
      state := next;
      i := i + 1;
    }
  }

  /** One row: the same characters with and without highlighting. */
  method DrawRow(lines: seq<string>, index: nat, v: View, highlight: bool, inBlockComment: bool, number: nat -> string)
    returns (row: string, tokens: seq<Token>, state: bool)
    requires v.screenWidth > 0
    ensures row == PlainRow(lines, index, v, number)
    ensures highlight && index < |lines| ==> (tokens, state) == Tokens(lines[index], inBlockComment)
    ensures highlight && index < |lines| && inBlockComment == StateBefore(lines, index) ==>
      state == StateBefore(lines, index + 1)
  {
    if index >= |lines| { return "~", [], inBlockComment; }
    var line := lines[index];
    row := Write("", 0, number(index + 1));
    tokens, state := [], inBlockComment;
    if highlight {
      Lossless(line, inBlockComment);
      tokens, state := TokenizeLine(line, inBlockComment);
      row := DrawTokens(row, tokens, v.horizontalScroll, v.ContentWidth());
    } else {
      row := Write(row, CONTENT_START, Clip(line, v.horizontalScroll, v.ContentWidth()));
    }
    if v.horizontalScroll + v.ContentWidth() < |line| { row := Write(row, v.screenWidth - 1, ">"); }
  }

  /** The whole area; `colours` are the tokens drawn on each row, `number` formats a line number. */
  method RenderContent(lines: seq<string>, v: View, highlight: bool, number: nat -> string)
    returns (rows: seq<string>, colours: seq<seq<Token>>)
    requires v.screenWidth > 0
    ensures |rows| == |colours| == v.visibleLines
    ensures ShownFrom(lines, v, number, rows)
    ensures highlight ==> ColouredFrom(lines, v.scrollOffset, colours)
  {
    rows, colours := [], [];
    var inBlockComment := false;
    if highlight { inBlockComment := CommentStateAbove(lines, v.scrollOffset); }
    for k := 0 to v.visibleLines
      invariant |rows| == |colours| == k
      invariant ShownFrom(lines, v, number, rows)
      invariant highlight ==> ColouredFrom(lines, v.scrollOffset, colours)
      invariant highlight && v.scrollOffset + k <= |lines| ==> inBlockComment == StateBefore(lines, v.scrollOffset + k)
    {
      var index := v.scrollOffset + k;
      var row, tokens, state := DrawRow(lines, index, v, highlight, inBlockComment, number);
      ShownOneMore(lines, v, number, rows, row);
      if highlight { ColouredOneMore(lines, v.scrollOffset, colours, tokens); }
      rows, colours, inBlockComment := rows + [row], colours + [tokens], state;
    }
  }
}
