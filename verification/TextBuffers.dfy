/** The editor's text buffer, after APP/editor/editor_win.cpp: a vector of lines and a cursor, which
    behaves like one flat text with an offset. */
module TextBuffers {
  import opened Lines
  import opened Concat

  /** Lines with the cursor's line and column. */
  datatype Doc = Doc(lines: seq<string>, y: int, x: int) {
    ghost predicate Valid() {
      0 <= y < |lines| && 0 <= x <= |lines[y]| && NoBreaks(lines)
    }

    function Line(): string
      requires Valid()
    {
      lines[y]
    }

    /** The text the document stands for ... */
    ghost function Text(): string { Join(lines, '\n') }

    /** ... and the place of the cursor in it. */
    ghost function Offset(): nat
      requires Valid()
    {
      |Above(lines[..y])| + x
    }
  }

  ghost predicate NoBreaks(lines: seq<string>) { forall i :: 0 <= i < |lines| ==> '\n' !in lines[i] }

  /** The lines above the cursor's line, each with its line end. */
  function Above(lines: seq<string>): string {
    if lines == [] then "" else lines[0] + ['\n'] + Above(lines[1..])
  }

  /** The lines below it, each after a line end. */
  function Below(lines: seq<string>): string {
    if lines == [] then "" else ['\n'] + lines[0] + Below(lines[1..])
  }

  lemma {:induction false} JoinParts(above: seq<string>, line: string, below: seq<string>)
    ensures Join(above + [line] + below, '\n') == Above(above) + line + Below(below)
    decreases |above|
  {
    if above == [] {
      assert above + [line] + below == [line] + below && Above(above) + line == line;
      JoinBelow(line, below);
    } else {
      var all := above + [line] + below;
      assert all[1..] == above[1..] + [line] + below;
      JoinParts(above[1..], line, below);
      Assoc(above[0] + ['\n'], Above(above[1..]) + line, Below(below));
      Assoc(above[0] + ['\n'], Above(above[1..]), line);
    }
  }

  lemma {:induction false} JoinBelow(line: string, below: seq<string>)
    ensures Join([line] + below, '\n') == line + Below(below)
    decreases |below|
  {
    assert ([line] + below)[1..] == below;
    if below != [] {
      JoinBelow(below[0], below[1..]);
      assert [below[0]] + below[1..] == below;
      Assoc(line, ['\n'], below[0] + Below(below[1..]));
      Assoc(['\n'], below[0], Below(below[1..]));
    } else {
      assert line + Below(below) == line;
    }
  }

  lemma {:induction false} AboveLast(above: seq<string>, line: string)
    ensures Above(above + [line]) == Above(above) + line + ['\n']
    decreases |above|
  {
    if above == [] {
      assert above + [line] == [line] && [line][1..] == [];
      assert Above([line]) == line + ['\n'] + "";
    } else {
      assert (above + [line])[1..] == above[1..] + [line];
      AboveLast(above[1..], line);
      Assoc(above[0] + ['\n'], Above(above[1..]) + line, ['\n']);
      Assoc(above[0] + ['\n'], Above(above[1..]), line);
    }
  }

  /** A document given by its parts around the cursor's line. */
  function Parts(above: seq<string>, line: string, below: seq<string>, x: int): Doc {
    Doc(above + [line] + below, |above|, x)
  }

  lemma DocParts(d: Doc)
    requires d.Valid()
    ensures d == Parts(d.lines[..d.y], d.lines[d.y], d.lines[d.y + 1..], d.x)
    ensures NoBreaks(d.lines[..d.y]) && NoBreaks(d.lines[d.y + 1..])
  {
  }

  lemma PartsText(above: seq<string>, line: string, below: seq<string>, x: int)
    requires 0 <= x <= |line| && '\n' !in line
    requires NoBreaks(above) && NoBreaks(below)
    ensures Parts(above, line, below, x).Valid()
    ensures Parts(above, line, below, x).Text() == Above(above) + line + Below(below)
    ensures Parts(above, line, below, x).Offset() == |Above(above)| + x
  {
    var d := Parts(above, line, below, x);
    assert d.lines[d.y] == line && d.lines[..d.y] == above;
    JoinParts(above, line, below);
  }

  // ---- Edits ----

  function Inserted(d: Doc, c: char): Doc
    requires d.Valid()
  {
    d.(lines := d.lines[d.y := d.Line()[..d.x] + [c] + d.Line()[d.x..]], x := d.x + 1)
  }

  function Broken(d: Doc): Doc
    requires d.Valid()
  {
    Doc(d.lines[..d.y] + [d.Line()[..d.x]] + [d.Line()[d.x..]] + d.lines[d.y + 1..], d.y + 1, 0)
  }

  function Backspaced(d: Doc): Doc
    requires d.Valid()
  {
    if d.x > 0 then d.(lines := d.lines[d.y := d.Line()[..d.x - 1] + d.Line()[d.x..]], x := d.x - 1)
    else if d.y > 0 then
      Doc(d.lines[..d.y - 1] + [d.lines[d.y - 1] + d.Line()] + d.lines[d.y + 1..], d.y - 1, |d.lines[d.y - 1]|)
    else d
  }

  function Deleted(d: Doc): Doc
    requires d.Valid()
  {
    if d.x < |d.Line()| then d.(lines := d.lines[d.y := d.Line()[..d.x] + d.Line()[d.x + 1..]])
    else if d.y < |d.lines| - 1 then
      d.(lines := d.lines[..d.y] + [d.Line() + d.lines[d.y + 1]] + d.lines[d.y + 2..])
    else d
  }

  /** One text is another with `c` put in at `offset`. */
  ghost predicate WithAt(longer: string, offset: nat, c: char, shorter: string) {
    offset <= |shorter| && longer == shorter[..offset] + [c] + shorter[offset..]
  }

  /** One text is another without the character at `offset`. */
  ghost predicate WithoutAt(shorter: string, offset: nat, longer: string) {
    offset < |longer| && shorter == longer[..offset] + longer[offset + 1..]
  }

  lemma WithIsWithout(longer: string, offset: nat, c: char, shorter: string)
    requires WithAt(longer, offset, c, shorter)
    ensures WithoutAt(shorter, offset, longer) && longer[offset] == c
  {
    assert longer[..offset] == shorter[..offset] && longer[offset + 1..] == shorter[offset..];
    assert shorter == shorter[..offset] + shorter[offset..];
  }

  lemma InPieces(a: string, b: string, l: string, x: nat, c: char)
    requires x <= |l|
    ensures WithAt(a + (l[..x] + [c] + l[x..]) + b, |a| + x, c, a + l + b)
  {
    var t, o := a + l + b, |a| + x;
    assert t[..o] == a + l[..x];
    assert t[o..] == l[x..] + b;
    assert a + (l[..x] + [c] + l[x..]) + b == t[..o] + [c] + t[o..];
  }

  /** Typing a character inserts it at the offset. */
  lemma InsertedText(d: Doc, c: char)
    requires d.Valid() && c != '\n'
    ensures Inserted(d, c).Valid() && Inserted(d, c).Offset() == d.Offset() + 1
    ensures WithAt(Inserted(d, c).Text(), d.Offset(), c, d.Text())
  {
    var above, line, below := d.lines[..d.y], d.Line(), d.lines[d.y + 1..];
    DocParts(d);
    PartsText(above, line, below, d.x);
    var longer := line[..d.x] + [c] + line[d.x..];
    PartsText(above, longer, below, d.x + 1);
    assert Inserted(d, c) == Parts(above, longer, below, d.x + 1);
    InPieces(Above(above), Below(below), line, d.x, c);
  }

  /** Enter inserts a line end at the offset. */
  lemma BrokenText(d: Doc)
    requires d.Valid()
    ensures Broken(d).Valid() && Broken(d).Offset() == d.Offset() + 1
    ensures WithAt(Broken(d).Text(), d.Offset(), '\n', d.Text())
  {
    var above, line, below := d.lines[..d.y], d.Line(), d.lines[d.y + 1..];
    DocParts(d);
    PartsText(above, line, below, d.x);
    var l1, l2 := line[..d.x], line[d.x..];
    PartsText(above + [l1], l2, below, 0);
    assert Broken(d) == Parts(above + [l1], l2, below, 0);
    AboveLast(above, l1);
    InPieces(Above(above), Below(below), line, d.x, '\n');
    Regroup(Above(above), l1, ['\n'], l2, Below(below));
  }

  lemma Regroup(a: string, b: string, c: string, d: string, e: string)
    ensures a + b + c + d + e == a + (b + c + d) + e
  {
    Assoc(a, b, c);
    Assoc(a, b + c, d);
  }

  /** Backspace removes the character before the offset. */
  lemma BackspacedText(d: Doc)
    requires d.Valid()
    ensures Backspaced(d).Valid()
    ensures d.Offset() == 0 ==> Backspaced(d) == d
    ensures d.Offset() > 0 ==>
      Backspaced(d).Offset() == d.Offset() - 1 && WithoutAt(Backspaced(d).Text(), d.Offset() - 1, d.Text())
  {
    if d.x > 0 {
      BackspacedInLine(d);
    } else if d.y > 0 {
      BackspacedLineEnd(d);
    } else {
      assert d.lines[..0] == [];
    }
  }

  lemma BackspacedInLine(d: Doc)
    requires d.Valid() && d.x > 0
    ensures Backspaced(d).Valid() && d.Offset() == Backspaced(d).Offset() + 1
    ensures WithoutAt(Backspaced(d).Text(), d.Offset() - 1, d.Text())
  {
    var r, c := Backspaced(d), d.Line()[d.x - 1];
    assert r.lines[d.y][..d.x - 1] + [c] + r.lines[d.y][d.x - 1..] == d.Line();
    assert Inserted(r, c) == d;
    InsertedText(r, c);
    WithIsWithout(d.Text(), r.Offset(), c, r.Text());
  }

  lemma BackspacedLineEnd(d: Doc)
    requires d.Valid() && d.x == 0 && d.y > 0
    ensures Backspaced(d).Valid() && d.Offset() == Backspaced(d).Offset() + 1
    ensures WithoutAt(Backspaced(d).Text(), d.Offset() - 1, d.Text())
  {
    var r, p := Backspaced(d), d.lines[d.y - 1];
    assert r.lines[r.y][..|p|] == p && r.lines[r.y][|p|..] == d.Line();
    assert r.lines[..r.y] == d.lines[..r.y] && r.lines[r.y + 1..] == d.lines[d.y + 1..];
    assert Broken(r) == d;
    BrokenText(r);
    WithIsWithout(d.Text(), r.Offset(), '\n', r.Text());
  }

  /** Delete removes the character after the offset. */
  lemma DeletedText(d: Doc)
    requires d.Valid()
    ensures Deleted(d).Valid() && Deleted(d).Offset() == d.Offset() <= |d.Text()|
    ensures d.Offset() == |d.Text()| ==> Deleted(d) == d
    ensures d.Offset() < |d.Text()| ==> WithoutAt(Deleted(d).Text(), d.Offset(), d.Text())
  {
    DocParts(d);
    PartsText(d.lines[..d.y], d.Line(), d.lines[d.y + 1..], d.x);
    if d.x < |d.Line()| {
      DeletedInLine(d);
    } else if d.y < |d.lines| - 1 {
      DeletedLineEnd(d);
    } else {
      assert d.lines[d.y + 1..] == [];
    }
  }

  lemma DeletedInLine(d: Doc)
    requires d.Valid() && d.x < |d.Line()|
    ensures Deleted(d).Valid() && Deleted(d).Offset() == d.Offset()
    ensures WithoutAt(Deleted(d).Text(), d.Offset(), d.Text())
  {
    var r, c := Deleted(d), d.Line()[d.x];
    assert r.lines[d.y][..d.x] + [c] + r.lines[d.y][d.x..] == d.Line();
    assert Inserted(r, c) == d.(x := d.x + 1);
    InsertedText(r, c);
    assert r.lines[..d.y] == d.lines[..d.y];
    WithIsWithout(d.Text(), d.Offset(), c, r.Text());
  }

  lemma DeletedLineEnd(d: Doc)
    requires d.Valid() && d.x == |d.Line()| && d.y < |d.lines| - 1
    ensures Deleted(d).Valid() && Deleted(d).Offset() == d.Offset()
    ensures WithoutAt(Deleted(d).Text(), d.Offset(), d.Text())
  {
    var r := Deleted(d);
    assert r.lines[d.y][..d.x] == d.Line() && r.lines[d.y][d.x..] == d.lines[d.y + 1];
    assert r.lines[..d.y] == d.lines[..d.y] && r.lines[d.y + 1..] == d.lines[d.y + 2..];
    assert Broken(r) == Doc(d.lines, d.y + 1, 0);
    BrokenText(r);
    WithIsWithout(d.Text(), d.Offset(), '\n', r.Text());
  }

  // ---- The flat view is complete ----

  lemma LinesJoined(lines: seq<string>, y: nat)
    requires 0 < y < |lines|
    ensures var grown := lines[y - 1 := lines[y - 1] + lines[y]];
      grown[..y] + grown[y + 1..] == lines[..y - 1] + [lines[y - 1] + lines[y]] + lines[y + 1..]
  {
  }

  lemma {:induction false} AboveGrows(lines: seq<string>, i: nat, j: nat)
    requires i < j <= |lines|
    ensures |Above(lines[..i])| + |lines[i]| < |Above(lines[..j])|
    decreases j
  {
    assert lines[..j] == lines[..j - 1] + [lines[j - 1]];
    AboveLast(lines[..j - 1], lines[j - 1]);
    if i < j - 1 { AboveGrows(lines, i, j - 1); }
  }

  /** A text and an offset stand for one document only. */
  lemma TextAndOffsetDetermine(d: Doc, e: Doc)
    requires d.Valid() && e.Valid() && d.Text() == e.Text() && d.Offset() == e.Offset()
    ensures d == e
  {
    SplitJoin(d.lines, '\n');
    SplitJoin(e.lines, '\n');
    if d.y < e.y { AboveGrows(d.lines, d.y, e.y); }
    if e.y < d.y { AboveGrows(d.lines, e.y, d.y); }
  }

  /** Backspace undoes typing and Enter. */
  lemma BackspaceUndoes(d: Doc, c: char)
    requires d.Valid() && c != '\n'
    ensures Backspaced(Inserted(d, c)) == d && Backspaced(Broken(d)) == d
  {
    InsertedText(d, c);
    UndoneText(d, Inserted(d, c), c);
    BrokenText(d);
    UndoneText(d, Broken(d), '\n');
  }

  lemma UndoneText(d: Doc, e: Doc, c: char)
    requires d.Valid() && e.Valid() && e.Offset() == d.Offset() + 1 && WithAt(e.Text(), d.Offset(), c, d.Text())
    ensures Backspaced(e) == d
  {
    BackspacedText(e);
    WithIsWithout(e.Text(), d.Offset(), c, d.Text());
    TextAndOffsetDetermine(Backspaced(e), d);
  }

  // ---- Moves ----

  function Clamp(v: int, low: int, high: int): int { if v < low then low else if v > high then high else v }

  function Moved(d: Doc, dx: int, dy: int): Doc
    requires d.Valid()
  {
    var y := Clamp(d.y + dy, 0, |d.lines| - 1);
    d.(y := y, x := Clamp(d.x + dx, 0, |d.lines[y]|))
  }

  /** To line `y`, keeping the column where the line is long enough. */
  function AtLine(d: Doc, y: int): Doc
    requires d.Valid() && 0 <= y < |d.lines|
  {
    d.(y := y, x := if d.x > |d.lines[y]| then |d.lines[y]| else d.x)
  }

  // ---- Files ----

  function StripCr(line: string): string {
    if line != "" && line[|line| - 1] == '\r' then line[..|line| - 1] else line
  }

  function StripAll(lines: seq<string>): seq<string> {
    seq(|lines|, i requires 0 <= i < |lines| => StripCr(lines[i]))
  }

  function Loaded(text: string): seq<string> {
    var lines := StripAll(GetLines(text, '\n'));
    if lines == [] then [""] else lines
  }

  /** Saving and loading give the same lines back exactly when no line ends in a carriage return and the
      last line is not empty, the one empty line of an empty document aside. */
  lemma SaveThenLoad(lines: seq<string>)
    requires lines != [] && NoBreaks(lines)
    ensures Loaded(Join(lines, '\n')) == lines <==>
      && (forall i :: 0 <= i < |lines| ==> lines[i] == "" || lines[i][|lines[i]| - 1] != '\r')
      && (lines == [""] || lines[|lines| - 1] != "")
  {
    var text := Join(lines, '\n');
    SplitJoin(lines, '\n');
    GetLinesSplit(text, '\n');
    var got := GetLines(text, '\n');
    assert |StripAll(got)| == |got|;
    if lines[|lines| - 1] == "" {
      assert got == lines[..|lines| - 1];
    } else {
      assert got == lines;
      forall i | 0 <= i < |lines| ensures StripAll(lines)[i] == StripCr(lines[i]) {}
      if Loaded(text) == lines {
        forall i | 0 <= i < |lines| ensures lines[i] == "" || lines[i][|lines[i]| - 1] != '\r' {
          assert StripCr(lines[i]) == lines[i];
        }
      }
    }
  }

  // ---- The buffer object ----

  class TextBuffer {
    var lines: seq<string>
    var cursorX: int
    var cursorY: int
    var scrollOffset: int
    var horizontalScroll: int
    var modified: bool
    var filename: string

    ghost function State(): Doc
      reads this
    {
      Doc(lines, cursorY, cursorX)
    }

    ghost predicate Valid()
      reads this
    {
      State().Valid()
    }

    constructor ()
      ensures Valid() && State() == Doc([""], 0, 0) && !modified && filename == ""
    {
      lines, cursorX, cursorY, scrollOffset, horizontalScroll := [""], 0, 0, 0, 0;
      modified, filename := false, "";
    }

    method InsertChar(c: char)
      requires Valid() && c != '\n'
      modifies this`lines, this`cursorX, this`modified
      ensures Valid() && State() == Inserted(old(State()), c) && modified
      ensures WithAt(State().Text(), old(State()).Offset(), c, old(State()).Text())
      ensures State().Offset() == old(State()).Offset() + 1
    {
      InsertedText(State(), c);
      var line := lines[cursorY];
      lines := lines[cursorY := line[..cursorX] + [c] + line[cursorX..]];
      cursorX := cursorX + 1;
      modified := true;
    }

    method Backspace()
      requires Valid()
      modifies this`lines, this`cursorX, this`cursorY, this`modified
      ensures Valid() && State() == Backspaced(old(State()))
      ensures modified == (old(modified) || old(State()).Offset() > 0)
      ensures old(State()).Offset() == 0 ==> State() == old(State())
      ensures old(State()).Offset() > 0 ==> State().Offset() == old(State()).Offset() - 1
      ensures old(State()).Offset() > 0 ==> WithoutAt(State().Text(), State().Offset(), old(State()).Text())
    {
      BackspacedText(State());
      if cursorX > 0 {
        var line := lines[cursorY];
        lines := lines[cursorY := line[..cursorX - 1] + line[cursorX..]];
        cursorX := cursorX - 1;
        modified := true;
      } else if cursorY > 0 {
        AboveGrows(lines, cursorY - 1, cursorY);
        LinesJoined(lines, cursorY);
        var prevLen := |lines[cursorY - 1]|;
        lines := lines[cursorY - 1 := lines[cursorY - 1] + lines[cursorY]];
        lines := lines[..cursorY] + lines[cursorY + 1..];
        cursorY := cursorY - 1;
        cursorX := prevLen;
        modified := true;
      } else {
        assert lines[..0] == [];
      }
    }

    method DeleteChar()
      requires Valid()
      modifies this`lines, this`modified
      ensures Valid() && State() == Deleted(old(State()))
      ensures old(State()).Offset() <= |old(State()).Text()|
      ensures State().Offset() == old(State()).Offset()
      ensures State().Offset() == |old(State()).Text()| ==> State() == old(State())
      ensures State().Offset() < |old(State()).Text()| ==>
        WithoutAt(State().Text(), State().Offset(), old(State()).Text())
    {
      DeletedText(State());
      var line := lines[cursorY];
      if cursorX < |line| {
        lines := lines[cursorY := line[..cursorX] + line[cursorX + 1..]];
        modified := true;
      } else if cursorY < |lines| - 1 {
        lines := lines[cursorY := lines[cursorY] + lines[cursorY + 1]];
        lines := lines[..cursorY + 1] + lines[cursorY + 2..];
        modified := true;
        assert lines == Deleted(old(State())).lines;
      }
    }

    method InsertNewline()
      requires Valid()
      modifies this`lines, this`cursorX, this`cursorY, this`modified
      ensures Valid() && State() == Broken(old(State())) && modified
      ensures WithAt(State().Text(), old(State()).Offset(), '\n', old(State()).Text())
      ensures State().Offset() == old(State()).Offset() + 1
    {
      BrokenText(State());
      var newLine := lines[cursorY][cursorX..];
      lines := lines[cursorY := lines[cursorY][..cursorX]];
      lines := lines[..cursorY + 1] + [newLine] + lines[cursorY + 1..];
      cursorY := cursorY + 1;
      cursorX := 0;
      modified := true;
      assert lines == Broken(old(State())).lines;
    }

    method MoveCursor(dx: int, dy: int)
      requires Valid()
      modifies this`cursorX, this`cursorY
      ensures Valid() && State() == Moved(old(State()), dx, dy)
    {
      cursorX, cursorY := cursorX + dx, cursorY + dy;
      if cursorY < 0 { cursorY := 0; }
      if cursorY >= |lines| { cursorY := |lines| - 1; }
      var lineLen := |lines[cursorY]|;
      if cursorX < 0 { cursorX := 0; }
      if cursorX > lineLen { cursorX := lineLen; }
    }

    method MoveToLineStart()
      requires Valid()
      modifies this`cursorX
      ensures Valid() && State() == old(State()).(x := 0)
    {
      cursorX := 0;
    }

    method MoveToLineEnd()
      requires Valid()
      modifies this`cursorX
      ensures Valid() && State() == old(State()).(x := |old(State()).Line()|)
    {
      cursorX := |lines[cursorY]|;
    }

    /** Nothing bounds the cursor from above here, so a negative page could leave the document. */
    method PageUp(pageSize: int)
      requires Valid() && cursorY - pageSize < |lines|
      modifies this`cursorX, this`cursorY
      ensures Valid() && State() == AtLine(old(State()), if old(cursorY) < pageSize then 0 else old(cursorY) - pageSize)
    {
      cursorY := cursorY - pageSize;
      if cursorY < 0 { cursorY := 0; }
      AdjustCursorX();
    }

    /** And here nothing bounds it from below. */
    method PageDown(pageSize: int)
      requires Valid() && cursorY + pageSize >= 0
      modifies this`cursorX, this`cursorY
      ensures Valid()
      ensures State() == AtLine(old(State()),
        if old(cursorY) + pageSize >= |lines| then |lines| - 1 else old(cursorY) + pageSize)
    {
      cursorY := cursorY + pageSize;
      if cursorY >= |lines| { cursorY := |lines| - 1; }
      AdjustCursorX();
    }

    method AdjustCursorX()
      requires 0 <= cursorY < |lines|
      modifies this`cursorX
      ensures cursorX == if old(cursorX) > |lines[cursorY]| then |lines[cursorY]| else old(cursorX)
    {
      var lineLen := |lines[cursorY]|;
      if cursorX > lineLen { cursorX := lineLen; }
    }

    method Clear()
      modifies this
      ensures Valid() && State() == Doc([""], 0, 0) && !modified && filename == ""
    {
      lines, cursorX, cursorY, scrollOffset, horizontalScroll := [""], 0, 0, 0, 0;
      modified, filename := false, "";
    }

    /** `loadFromFile` of a file with the given contents. */
    method LoadFromFile(text: string)
      modifies this
      ensures State() == Doc(Loaded(text), 0, 0) && Valid() && !modified && filename == old(filename)
    {
      LoadedValid(text);
      lines := [];
      var unread := text;
      while unread != ""
        invariant StripAll(GetLines(text, '\n')) == lines + StripAll(GetLines(unread, '\n'))
        invariant filename == old(filename)
        decreases |unread|
      {
        GetLinesStep(unread, '\n');
        var line := FirstLine(unread, '\n');
        unread := AfterLine(unread, '\n');
        StripFirst(line, GetLines(unread, '\n'));
        Assoc(lines, [StripCr(line)], StripAll(GetLines(unread, '\n')));
        if line != "" && line[|line| - 1] == '\r' { line := line[..|line| - 1]; }
        lines := lines + [line];
      }
      if lines == [] { lines := [""]; }
      cursorX, cursorY, scrollOffset, horizontalScroll, modified := 0, 0, 0, 0, false;
    }

    /** `saveToFile`: the contents written. */
    method SaveToFile() returns (text: string)
      requires Valid()
      modifies this`modified
      ensures text == State().Text() && !modified
    {
      text := "";
      for i := 0 to |lines|
        invariant Join(lines, '\n') == text + Join(lines[i..], '\n')
        invariant modified == old(modified)
      {
        assert lines[i..][1..] == lines[i + 1..];
        if i < |lines| - 1 {
          Assoc(text, lines[i], ['\n'] + Join(lines[i + 1..], '\n'));
          Assoc(lines[i], ['\n'], Join(lines[i + 1..], '\n'));
          Assoc(text + lines[i], ['\n'], Join(lines[i + 1..], '\n'));
        } else {
          assert text + lines[i] + [] == text + lines[i];
        }
        text := text + lines[i];
        if i < |lines| - 1 { text := text + ['\n']; }
      }
      modified := false;
    }
  }

  lemma StripFirst(line: string, more: seq<string>)
    ensures StripAll([line] + more) == [StripCr(line)] + StripAll(more)
  {
  }

  lemma LoadedValid(text: string)
    ensures Doc(Loaded(text), 0, 0).Valid()
  {
    JoinSplit(text, '\n');
    GetLinesSplit(text, '\n');
  }
}
