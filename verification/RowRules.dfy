/** What stands in each cell of the editor's text area, APP/editor/editor_win.cpp. */
module RowRules {
  import opened ContentView
  import Highlighting

  /** The columns of the text: character `scroll + k - 5` of the line in column `k`, and blanks behind its end. */
  function TextCell(line: string, scroll: nat, k: nat): char
    requires k >= 5
  {
    if scroll + (k - 5) < |line| then line[scroll + (k - 5)] else ' '
  }

  lemma WrittenCell(row: string, col: nat, text: string, k: nat)
    ensures Cell(Write(row, col, text), k) == if col <= k < col + |text| then text[k - col] else Cell(row, k)
  {
  }

  lemma ClippedCell(s: string, scroll: nat, width: nat, k: nat)
    requires k < width
    ensures |Clip(s, scroll, width)| <= width
    ensures k < |Clip(s, scroll, width)| <==> scroll + k < |s|
    ensures k < |Clip(s, scroll, width)| ==> Clip(s, scroll, width)[k] == s[scroll + k]
  {
  }

  /** A row below the text is a tilde. Any other has the number of its line, of at most five characters, in front, the
      scrolled line behind it up to the width of the screen, and a mark in the last column exactly when the line goes
      on to the right. */
  lemma RowCells(lines: seq<string>, index: nat, v: View, number: nat -> string, k: nat)
    requires v.screenWidth > 5 && k < v.screenWidth && |number(index + 1)| <= 5
    ensures var row := PlainRow(lines, index, v, number);
      if index >= |lines| then row == "~"
      else
        var more := v.horizontalScroll + (v.screenWidth - 5) < |lines[index]|;
        Cell(row, k) ==
          if more && k == v.screenWidth - 1 then '>'
          else if k >= 5 then TextCell(lines[index], v.horizontalScroll, k)
          else if k < |number(index + 1)| then number(index + 1)[k] else ' '
  {
    if index < |lines| {
      var first := Write("", 0, number(index + 1));
      var shown := Clip(lines[index], v.horizontalScroll, v.ContentWidth());
      var row := Write(first, CONTENT_START, shown);
      WrittenCell("", 0, number(index + 1), k);
      WrittenCell(first, CONTENT_START, shown, k);
      WrittenCell(row, v.screenWidth - 1, ">", k);
      if k >= 5 { ClippedCell(lines[index], v.horizontalScroll, v.ContentWidth(), k - 5); }
    }
  }

  /** No comment goes on before the first line, and before any other it is the state that the line above leaves. */
  lemma StatesFromTheTop(lines: seq<string>, k: nat)
    requires k <= |lines|
    ensures k == 0 ==> !StateBefore(lines, k)
    ensures k > 0 ==> StateBefore(lines, k) == Highlighting.Tokens(lines[k - 1], StateBefore(lines, k - 1)).1
  {
  }
}
