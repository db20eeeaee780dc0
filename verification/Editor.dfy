/** The editor's keys, clipboard and search, after APP/editor/editor_win.cpp. */
module Editor {
  import opened TextBuffers

  // ---- Key codes ----

  const CTRL_K := 11
  const CTRL_U := 21
  const KEY_UP := 0x101
  const KEY_DOWN := 0x102
  const KEY_LEFT := 0x103
  const KEY_RIGHT := 0x104
  const KEY_HOME := 0x105
  const KEY_END := 0x106
  const KEY_PAGE_UP := 0x107
  const KEY_PAGE_DOWN := 0x108
  const KEY_DELETE := 0x109
  const KEY_ENTER := 0x10A
  const KEY_BACKSPACE := 0x10B
  const TAB := 9

  /** The part of the editor that keys in normal mode change. */
  datatype Session = Session(doc: Doc, clipboard: string) {
    ghost predicate Valid() { doc.Valid() && '\n' !in clipboard }
  }

  function Cut(s: Session): Session
    requires s.Valid()
  {
    var d := s.doc;
    var lines := d.lines[..d.y] + d.lines[d.y + 1..];
    if lines == [] then Session(Doc([""], 0, 0), d.Line())
    else
      var y := if d.y >= |lines| then |lines| - 1 else d.y;
      Session(Doc(lines, y, if d.x > |lines[y]| then |lines[y]| else d.x), d.Line())
  }

  function Paste(s: Session): Session
    requires s.Valid()
  {
    if s.clipboard == "" then s
    else s.(doc := Doc(s.doc.lines[..s.doc.y] + [s.clipboard] + s.doc.lines[s.doc.y..], s.doc.y + 1, 0))
  }

  /** The page keys stay inside the document. */
  ghost predicate PageSafe(d: Doc, ch: int, pageSize: int) {
    (ch == KEY_PAGE_UP ==> d.y - pageSize < |d.lines|) && (ch == KEY_PAGE_DOWN ==> d.y + pageSize >= 0)
  }

  /** Every other key of normal mode: prompts, save, search and help leave text and cursor alone. */
  function Pressed(s: Session, ch: int, pageSize: int): Session
    requires s.Valid() && PageSafe(s.doc, ch, pageSize)
  {
    var d := s.doc;
    if ch == CTRL_K then Cut(s)
    else if ch == CTRL_U then Paste(s)
    else if ch == KEY_UP then s.(doc := Moved(d, 0, -1))
    else if ch == KEY_DOWN then s.(doc := Moved(d, 0, 1))
    else if ch == KEY_LEFT then s.(doc := Moved(d, -1, 0))
    else if ch == KEY_RIGHT then s.(doc := Moved(d, 1, 0))
    else if ch == KEY_HOME then s.(doc := d.(x := 0))
    else if ch == KEY_END then s.(doc := d.(x := |d.Line()|))
    else if ch == KEY_PAGE_UP then s.(doc := AtLine(d, if d.y < pageSize then 0 else d.y - pageSize))
    else if ch == KEY_PAGE_DOWN then
      s.(doc := AtLine(d, if d.y + pageSize >= |d.lines| then |d.lines| - 1 else d.y + pageSize))
    else if ch == KEY_DELETE then s.(doc := Deleted(d))
    else if ch == KEY_BACKSPACE then s.(doc := Backspaced(d))
    else if ch == KEY_ENTER then s.(doc := Broken(d))
    else if ch == TAB then s.(doc := Spaces(d, 4))
    else if 32 <= ch < 127 then s.(doc := Inserted(d, ch as char))
    else s
  }

  function Spaces(d: Doc, k: nat): (r: Doc)
    requires d.Valid()
    ensures r.Valid()
  {
    if k == 0 then d else
    var more := Spaces(d, k - 1);
    InsertedText(more, ' ');
    Inserted(more, ' ')
  }

  lemma CutValid(s: Session)
    requires s.Valid()
    ensures Cut(s).Valid()
  {
  }

  lemma PasteValid(s: Session)
    requires s.Valid()
    ensures Paste(s).Valid()
  {
    var d := Paste(s).doc;
    if s.clipboard != "" {
      forall i | 0 <= i < |d.lines| ensures '\n' !in d.lines[i] {
        if i < s.doc.y { assert d.lines[i] == s.doc.lines[i]; }
        if i > s.doc.y { assert d.lines[i] == s.doc.lines[i - 1]; }
      }
    }
  }

  /** Every key keeps at least one line and the cursor inside its line. */
  lemma PressedValid(s: Session, ch: int, pageSize: int)
    requires s.Valid() && PageSafe(s.doc, ch, pageSize)
    ensures Pressed(s, ch, pageSize).Valid()
  {
    if ch == CTRL_K { CutValid(s); }
    else if ch == CTRL_U { PasteValid(s); }
    else if ch == KEY_DELETE { DeletedText(s.doc); }
    else if ch == KEY_BACKSPACE { BackspacedText(s.doc); }
    else if ch == KEY_ENTER { BrokenText(s.doc); }
    else if ch != TAB && 32 <= ch < 127 { InsertedText(s.doc, ch as char); }
    else { MovesValid(s.doc); }
  }

  lemma MovesValid(d: Doc)
    requires d.Valid()
    ensures forall dx, dy :: Moved(d, dx, dy).Valid()
    ensures forall y :: 0 <= y < |d.lines| ==> AtLine(d, y).Valid()
  {
  }

  /** The page keys are safe in every document exactly when the page is not negative. */
  lemma PagesSafe(pageSize: int)
    ensures (forall d: Doc, ch :: d.Valid() ==> PageSafe(d, ch, pageSize)) <==> pageSize >= 0
  {
    if pageSize < 0 {
      var d := Doc([""], 0, 0);
      assert d.Valid() && !PageSafe(d, KEY_PAGE_UP, pageSize);
    }
  }

  // ---- The page size ----

  datatype Size = Size(height: nat, width: nat)

  /** The screen as last seen, and the height of the text area, which is also the size of a page. */
  datatype Window = Window(size: Size, page: int)

  function Started(size: Size): Window { Window(size, size.height - 3) }

  /** `checkTerminalSize`: only a check that sees a change applies the lower bound of one line. */
  function Checked(w: Window, seen: Size): Window {
    if seen == w.size then w else Window(seen, if seen.height - 3 < 1 then 1 else seen.height - 3)
  }

  function CheckedAll(w: Window, checks: seq<Size>): Window {
    if checks == [] then w else Checked(CheckedAll(w, checks[..|checks| - 1]), checks[|checks| - 1])
  }

  predicate AllSeen(checks: seq<Size>, size: Size) { forall i :: 0 <= i < |checks| ==> checks[i] == size }

  lemma AllSeenLast(checks: seq<Size>, size: Size)
    requires checks != []
    ensures AllSeen(checks, size) <==> AllSeen(checks[..|checks| - 1], size) && checks[|checks| - 1] == size
  {
    var init := checks[..|checks| - 1];
    if AllSeen(init, size) && checks[|init|] == size {
      forall i | 0 <= i < |checks| ensures checks[i] == size {
        if i < |init| { assert init[i] == size; }
      }
    }
  }

  /** The page is negative exactly on a window that started lower than three rows and never changed. */
  lemma {:induction false} PageNegative(start: Size, checks: seq<Size>)
    ensures CheckedAll(Started(start), checks).page < 0 <==> start.height < 3 && AllSeen(checks, start)
    ensures checks != [] ==> CheckedAll(Started(start), checks).size == checks[|checks| - 1]
    ensures checks == [] ==> CheckedAll(Started(start), checks).size == start
  {
    if checks != [] {
      PageNegative(start, checks[..|checks| - 1]);
      AllSeenLast(checks, start);
    }
  }

  /** One turn of the main loop: the size check and the key after it. */
  datatype Turn = Turn(check: Size, ch: int)

  /** A whole run of keys, with any resizing between them, keeps the buffer valid on a page that is not negative. */
  function RunTurns(s: Session, w: Window, turns: seq<Turn>): (r: (Session, Window))
    requires s.Valid() && w.page >= 0
    ensures r.0.Valid() && r.1.page >= 0
    decreases turns
  {
    if turns == [] then (s, w) else
    var now := Checked(w, turns[0].check);
    PressedValid(s, turns[0].ch, now.page);
    RunTurns(Pressed(s, turns[0].ch, now.page), now, turns[1..])
  }

  // ---- Cut and paste ----

  /** Pasting right after cutting gives the lines back exactly when the line was not empty and not the
      last (or equal to the one before it), or was all there was and empty. */
  lemma PasteAfterCut(s: Session)
    requires s.Valid()
    ensures var d := s.doc;
      Paste(Cut(s)).doc.lines == d.lines <==>
        if d.Line() == "" then |d.lines| == 1
        else d.y < |d.lines| - 1 || (d.y > 0 && d.lines[d.y - 1] == d.Line())
  {
    var d := s.doc;
    CutValid(s);
    if d.Line() == "" { PasteNothing(s); } else if d.y < |d.lines| - 1 { PasteInPlace(s); } else { PasteAtEnd(s); }
  }

  lemma PasteNothing(s: Session)
    requires s.Valid() && Cut(s).Valid() && s.doc.Line() == ""
    ensures Paste(Cut(s)).doc.lines == s.doc.lines <==> |s.doc.lines| == 1
  {
    if |s.doc.lines| == 1 { assert s.doc.lines == [""]; }
  }

  lemma PasteInPlace(s: Session)
    requires s.Valid() && Cut(s).Valid() && s.doc.Line() != "" && s.doc.y < |s.doc.lines| - 1
    ensures Paste(Cut(s)).doc.lines == s.doc.lines
  {
    var d := s.doc;
    assert Paste(Cut(s)).doc.lines == d.lines[..d.y] + [d.Line()] + d.lines[d.y + 1..];
  }

  /** The last line comes back before the one that was above it. */
  lemma PasteAtEnd(s: Session)
    requires s.Valid() && Cut(s).Valid() && s.doc.Line() != "" && s.doc.y == |s.doc.lines| - 1
    ensures Paste(Cut(s)).doc.lines == s.doc.lines <==> s.doc.y > 0 && s.doc.lines[s.doc.y - 1] == s.doc.Line()
  {
    var d, c := s.doc, Cut(s);
    var back := Paste(c).doc.lines;
    if d.y == 0 {
      assert back == [d.Line()] + [""];
    } else {
      assert c.doc.y == d.y - 1 && c.doc.lines == d.lines[..d.y];
      assert back == d.lines[..d.y - 1] + [d.Line()] + [d.lines[d.y - 1]];
      assert back[d.y - 1] == d.Line() && back[d.y] == d.lines[d.y - 1];
      if d.lines[d.y - 1] == d.Line() { assert back == d.lines; }
    }
  }

  // ---- Search ----

  predicate OccursAt(line: string, q: string, p: nat) {
    p + |q| <= |line| && line[p..p + |q|] == q
  }

  /** `std::string::find`. */
  function Find(line: string, q: string, from: nat): (r: int)
    ensures r >= 0 ==> r >= from && OccursAt(line, q, r) && forall p :: from <= p < r ==> !OccursAt(line, q, p)
    ensures r < 0 ==> r == -1 && forall p :: from <= p ==> !OccursAt(line, q, p)
    decreases |line| - from
  {
    if from + |q| > |line| then -1
    else if OccursAt(line, q, from) then from
    else Find(line, q, from + 1)
  }

  /** An occurrence that the search can find: not on the cursor's line at or before the cursor. */
  ghost predicate Findable(d: Doc, q: string, y: int, p: int)
    requires d.Valid()
  {
    0 <= y < |d.lines| && 0 <= p && OccursAt(d.lines[y], q, p) && (y == d.y ==> p > d.x)
  }

  /** Reading order from the cursor: first what follows it, then the lines from the top. */
  ghost predicate Sooner(d: Doc, y: int, p: int, y': int, p': int) {
    var wrapped, wrapped' := y < d.y, y' < d.y;
    if wrapped != wrapped' then wrapped' else y < y' || (y == y' && p < p')
  }

  class TerminalEditor {
    const buffer: TextBuffer
    var clipboard: string
    var screen: Size
    var editAreaHeight: int

    ghost function State(): Session
      reads this, buffer
    {
      Session(buffer.State(), clipboard)
    }

    ghost predicate Valid()
      reads this, buffer
    {
      State().Valid()
    }

    constructor (screen: Size)
      ensures Valid() && fresh(buffer) && State() == Session(Doc([""], 0, 0), "")
      ensures Window(this.screen, editAreaHeight) == Started(screen)
    {
      buffer := new TextBuffer();
      clipboard := "";
      this.screen, editAreaHeight := screen, screen.height - 3;
    }

    method CheckTerminalSize(seen: Size)
      modifies this`screen, this`editAreaHeight
      ensures Window(screen, editAreaHeight) == Checked(old(Window(screen, editAreaHeight)), seen)
    {
      if seen != screen {
        screen, editAreaHeight := seen, seen.height - 3;
        if editAreaHeight < 1 { editAreaHeight := 1; }
      }
    }

    /** The main loop, on keys of normal mode. */
    method ProcessTurns(turns: seq<Turn>)
      requires Valid() && editAreaHeight >= 0
      modifies this, buffer
      ensures Valid()
      ensures (State(), Window(screen, editAreaHeight))
        == RunTurns(old(State()), old(Window(screen, editAreaHeight)), turns)
    {
      ghost var start, window := State(), Window(screen, editAreaHeight);
      for i := 0 to |turns|
        invariant Valid() && editAreaHeight >= 0
        invariant RunTurns(start, window, turns) == RunTurns(State(), Window(screen, editAreaHeight), turns[i..])
      {
        assert turns[i..][1..] == turns[i + 1..];
        CheckTerminalSize(turns[i].check);
        ProcessNormalInput(turns[i].ch);
      }
    }

    method CutLine()
      requires Valid()
      modifies this`clipboard, buffer
      ensures Valid() && State() == Cut(old(State()))
    {
      CutValid(State());
      clipboard := buffer.lines[buffer.cursorY];
      buffer.lines := buffer.lines[..buffer.cursorY] + buffer.lines[buffer.cursorY + 1..];
      if buffer.lines == [] { buffer.lines := [""]; }
      if buffer.cursorY >= |buffer.lines| { buffer.cursorY := |buffer.lines| - 1; }
      buffer.AdjustCursorX();
      buffer.modified := true;
    }

    method PasteLine()
      requires Valid()
      modifies buffer
      ensures Valid() && State() == Paste(old(State()))
    {
      PasteValid(State());
      if clipboard != "" {
        buffer.lines := buffer.lines[..buffer.cursorY] + [clipboard] + buffer.lines[buffer.cursorY..];
        buffer.cursorY := buffer.cursorY + 1;
        buffer.cursorX := 0;
        buffer.modified := true;
      }
    }

    method ProcessNormalInput(ch: int)
      requires Valid() && PageSafe(buffer.State(), ch, editAreaHeight)
      modifies this`clipboard, buffer
      ensures Valid() && State() == Pressed(old(State()), ch, editAreaHeight)
    {
      PressedValid(State(), ch, editAreaHeight);
      if ch == CTRL_K { CutLine(); }
      else if ch == CTRL_U { PasteLine(); }
      else if ch == KEY_UP { buffer.MoveCursor(0, -1); }
      else if ch == KEY_DOWN { buffer.MoveCursor(0, 1); }
      else if ch == KEY_LEFT { buffer.MoveCursor(-1, 0); }
      else if ch == KEY_RIGHT { buffer.MoveCursor(1, 0); }
      else if ch == KEY_HOME { buffer.MoveToLineStart(); }
      else if ch == KEY_END { buffer.MoveToLineEnd(); }
      else if ch == KEY_PAGE_UP { buffer.PageUp(editAreaHeight); }
      else if ch == KEY_PAGE_DOWN { buffer.PageDown(editAreaHeight); }
      else if ch == KEY_DELETE { buffer.DeleteChar(); }
      else if ch == KEY_BACKSPACE { buffer.Backspace(); }
      else if ch == KEY_ENTER { buffer.InsertNewline(); }
      else if ch == TAB { InsertSpaces(); }
      else if 32 <= ch < 127 { buffer.InsertChar(ch as char); }
    }

    method InsertSpaces()
      requires Valid()
      modifies buffer
      ensures Valid() && buffer.State() == Spaces(old(buffer.State()), 4)
    {
      for i := 0 to 4
        invariant Valid() && buffer.State() == Spaces(old(buffer.State()), i)
      {
        buffer.InsertChar(' ');
      }
    }

    /** `performSearch` goes to the next occurrence in reading order from the cursor, and stays when there
        is none; an occurrence on the cursor's line at or before the cursor is never found. */
    method PerformSearch(query: string) returns (found: bool)
      requires Valid() && query != ""
      modifies buffer`cursorX, buffer`cursorY
      ensures Valid() && buffer.lines == old(buffer.lines)
      ensures !found ==> buffer.State() == old(buffer.State())
      ensures found ==> Findable(old(buffer.State()), query, buffer.cursorY, buffer.cursorX)
      ensures found ==> forall y, p :: Findable(old(buffer.State()), query, y, p) ==>
        !Sooner(old(buffer.State()), y, p, buffer.cursorY, buffer.cursorX)
      ensures !found ==> forall y, p :: !Findable(old(buffer.State()), query, y, p)
    {
      ghost var d := buffer.State();
      var y := buffer.cursorY;
      while y < |buffer.lines|
        invariant d.y <= y <= |d.lines| && buffer.State() == d
        invariant forall k, p :: d.y <= k < y ==> !Findable(d, query, k, p)
      {
        var pos := Find(buffer.lines[y], query, if y == buffer.cursorY then buffer.cursorX + 1 else 0);
        if pos >= 0 {
          buffer.cursorY, buffer.cursorX := y, pos;
          return true;
        }
        y := y + 1;
      }
      y := 0;
      while y <= buffer.cursorY
        invariant 0 <= y <= d.y + 1 && buffer.State() == d
        invariant forall k, p :: 0 <= k < y || d.y <= k ==> !Findable(d, query, k, p)
      {
        var pos := Find(buffer.lines[y], query, 0);
        if pos >= 0 && !(y == buffer.cursorY && pos <= buffer.cursorX) {
          assert Findable(d, query, y, pos);
          buffer.cursorY, buffer.cursorX := y, pos;
          return true;
        }
        y := y + 1;
      }
      return false;
    }
  }
}
