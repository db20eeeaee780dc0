/** What each key of normal mode does to the text and the cursor, APP/editor/editor_win.cpp, in lines, columns and flat
    text. */
module EditorKeys {
  import opened Editor
  import opened Lines
  import opened TextBuffers

  function Least(a: int, b: int): int { if a < b then a else b }

  /** Lines and clipboard stay, and the cursor is at these coordinates. */
  ghost predicate GoesTo(s: Session, after: Session, y: int, x: int) {
    after.doc.lines == s.doc.lines && after.clipboard == s.clipboard && after.doc.y == y && after.doc.x == x
  }

  /** To another line, in the same column or at the end of a shorter line. */
  ghost predicate GoesToLine(s: Session, after: Session, y: int) {
    0 <= y < |s.doc.lines| && GoesTo(s, after, y, Least(s.doc.x, |s.doc.lines[y]|))
  }

  lemma UpAndDown(s: Session, page: int)
    requires s.Valid()
    ensures if s.doc.y > 0 then GoesToLine(s, Pressed(s, KEY_UP, page), s.doc.y - 1) else Pressed(s, KEY_UP, page) == s
    ensures if s.doc.y < |s.doc.lines| - 1 then GoesToLine(s, Pressed(s, KEY_DOWN, page), s.doc.y + 1)
      else Pressed(s, KEY_DOWN, page) == s
  {
  }

  lemma LeftAndRight(s: Session, page: int)
    requires s.Valid()
    ensures if s.doc.x > 0 then GoesTo(s, Pressed(s, KEY_LEFT, page), s.doc.y, s.doc.x - 1)
      else Pressed(s, KEY_LEFT, page) == s
    ensures if s.doc.x < |s.doc.lines[s.doc.y]| then GoesTo(s, Pressed(s, KEY_RIGHT, page), s.doc.y, s.doc.x + 1)
      else Pressed(s, KEY_RIGHT, page) == s
  {
  }

  lemma HomeAndEnd(s: Session, page: int)
    requires s.Valid()
    ensures GoesTo(s, Pressed(s, KEY_HOME, page), s.doc.y, 0)
    ensures GoesTo(s, Pressed(s, KEY_END, page), s.doc.y, |s.doc.lines[s.doc.y]|)
  {
  }

  lemma PageUpAndDown(s: Session, page: int)
    requires s.Valid()
    ensures PageSafe(s.doc, KEY_PAGE_UP, page) ==>
      GoesToLine(s, Pressed(s, KEY_PAGE_UP, page), if s.doc.y - page < 0 then 0 else s.doc.y - page)
    ensures PageSafe(s.doc, KEY_PAGE_DOWN, page) ==>
      GoesToLine(s, Pressed(s, KEY_PAGE_DOWN, page), Least(s.doc.y + page, |s.doc.lines| - 1))
  {
  }

  // ---- Typing ----

  /** The text with `part` put in at the cursor, and the cursor behind it. */
  ghost predicate PutsIn(s: Session, after: Session, part: string) {
    s.Valid() && after.Valid() && after.clipboard == s.clipboard && s.doc.Offset() <= |s.doc.Text()|
    && after.doc.Text() == s.doc.Text()[..s.doc.Offset()] + part + s.doc.Text()[s.doc.Offset()..]
    && after.doc.Offset() == s.doc.Offset() + |part|
  }

  /** The text without the character at an offset, and the cursor there. */
  ghost predicate TakesOut(s: Session, after: Session, offset: int) {
    s.Valid() && after.Valid() && after.clipboard == s.clipboard && 0 <= offset < |s.doc.Text()|
    && after.doc.Text() == s.doc.Text()[..offset] + s.doc.Text()[offset + 1..] && after.doc.Offset() == offset
  }

  lemma OffsetInText(d: Doc)
    requires d.Valid()
    ensures d.Offset() <= |d.Text()|
  {
    DocParts(d);
    JoinParts(d.lines[..d.y], d.lines[d.y], d.lines[d.y + 1..]);
  }

  lemma Printables(s: Session, ch: int, page: int)
    requires s.Valid() && 32 <= ch < 127
    ensures PutsIn(s, Pressed(s, ch, page), [ch as char])
  {
    OffsetInText(s.doc);
    InsertedText(s.doc, ch as char);
  }

  lemma Enter(s: Session, page: int)
    requires s.Valid()
    ensures PutsIn(s, Pressed(s, KEY_ENTER, page), "\n")
  {
    OffsetInText(s.doc);
    BrokenText(s.doc);
  }

  lemma Tab(s: Session, page: int)
    requires s.Valid()
    ensures PutsIn(s, Pressed(s, TAB, page), "    ")
  {
    OffsetInText(s.doc);
    SpacesPutIn(s.doc, 4);
    assert Blanks(4) == "    ";
  }

  function Blanks(k: nat): string { seq(k, _ => ' ') }

  lemma {:induction false} SpacesPutIn(d: Doc, k: nat)
    requires d.Valid() && d.Offset() <= |d.Text()|
    ensures Spaces(d, k).Text() == d.Text()[..d.Offset()] + Blanks(k) + d.Text()[d.Offset()..]
    ensures Spaces(d, k).Offset() == d.Offset() + k
  {
    var text, o := d.Text(), d.Offset();
    if k == 0 {
      assert text[..o] + [] + text[o..] == text;
    } else {
      var more := Spaces(d, k - 1);
      SpacesPutIn(d, k - 1);
      InsertedText(more, ' ');
      assert more.Text()[..o + k - 1] == text[..o] + Blanks(k - 1) && more.Text()[o + k - 1..] == text[o..];
      assert Blanks(k - 1) + [' '] == Blanks(k);
      assert text[..o] + Blanks(k - 1) + [' '] == text[..o] + Blanks(k);
    }
  }

  lemma BackspaceAndDelete(s: Session, page: int)
    requires s.Valid()
    ensures s.doc.Offset() <= |s.doc.Text()|
    ensures if s.doc.Offset() > 0 then TakesOut(s, Pressed(s, KEY_BACKSPACE, page), s.doc.Offset() - 1)
      else Pressed(s, KEY_BACKSPACE, page) == s
    ensures if s.doc.Offset() < |s.doc.Text()| then TakesOut(s, Pressed(s, KEY_DELETE, page), s.doc.Offset())
      else Pressed(s, KEY_DELETE, page) == s
  {
    OffsetInText(s.doc);
    BackspacedText(s.doc);
    DeletedText(s.doc);
  }

  // ---- Lines ----

  /** Cutting takes out the cursor's line, which the clipboard then holds; a document keeps one empty line. The cursor
      goes to the line that follows, or the last one, and as far right as that is long. */
  lemma CutKey(s: Session, page: int)
    requires s.Valid()
    ensures var (d, after) := (s.doc, Pressed(s, CTRL_K, page));
      after.clipboard == d.lines[d.y]
      && if |d.lines| == 1 then after.doc == Doc([""], 0, 0)
        else
          |after.doc.lines| == |d.lines| - 1
          && (forall k :: 0 <= k < |after.doc.lines| ==> after.doc.lines[k] == d.lines[if k < d.y then k else k + 1])
          && after.doc.y == Least(d.y, |d.lines| - 2)
          && after.doc.x == Least(d.x, |after.doc.lines[after.doc.y]|)
  {
  }

  /** Pasting puts the clipboard's line above the cursor's, which keeps the cursor at its beginning. */
  lemma PasteKey(s: Session, page: int)
    requires s.Valid()
    ensures var (d, after) := (s.doc, Pressed(s, CTRL_U, page));
      after.clipboard == s.clipboard
      && if s.clipboard == "" then after == s
        else
          |after.doc.lines| == |d.lines| + 1 && after.doc.y == d.y + 1 && after.doc.x == 0
          && after.doc.lines[d.y] == s.clipboard
          && forall k :: 0 <= k < |d.lines| ==> after.doc.lines[if k < d.y then k else k + 1] == d.lines[k]
  {
  }

  /** No other code does anything. */
  lemma OtherKeys(s: Session, ch: int, page: int)
    requires s.Valid() && PageSafe(s.doc, ch, page) && !(32 <= ch < 127)
    requires ch !in {KEY_UP, KEY_DOWN, KEY_LEFT, KEY_RIGHT, KEY_HOME, KEY_END, KEY_PAGE_UP, KEY_PAGE_DOWN}
    requires ch !in {KEY_DELETE, KEY_BACKSPACE, KEY_ENTER, TAB, CTRL_K, CTRL_U}
    ensures Pressed(s, ch, page) == s
  {
  }

  // ---- The page ----

  /** A page has three rows less than the window; a window that is seen to change has one of at least a row. */
  lemma PageSize(start: Size, w: Window, seen: Size)
    ensures Started(start).page == start.height - 3 && Started(start).size == start
    ensures Checked(w, seen).size == seen
    ensures Checked(w, seen).page ==
      if seen == w.size then w.page else if seen.height <= 4 then 1 else seen.height - 3
  {
  }

  // ---- Files with carriage returns ----

  /** A file whose lines all end in a carriage return and a newline gives the lines without either. */
  lemma CarriageReturnsGo(lines: seq<string>)
    requires lines != [] && forall i :: 0 <= i < |lines| ==> '\n' !in lines[i]
    ensures Loaded(Join(Returned(lines), '\n')) == lines
  {
    var returned := Returned(lines);
    SplitJoin(returned, '\n');
    GetLinesSplit(Join(returned, '\n'), '\n');
    assert StripAll(returned) == lines;
  }

  function Returned(lines: seq<string>): seq<string> {
    seq(|lines|, i requires 0 <= i < |lines| => lines[i] + "\r")
  }
}
