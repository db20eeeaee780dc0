/** The shell's line editor, `readLineWithHistory` of TundraTUI/src/color.cpp, with the characters it
    sends to the terminal, and the loop of APP/shell/command.cpp that keeps the history. */
module LineEditor {
  import opened Numbers

  import Suggestion

  predicate IsPrintable(c: char) { ' ' <= c <= '~' }

  predicate Printable(s: string) { forall i :: 0 <= i < |s| ==> IsPrintable(s[i]) }

  // ---- The terminal ----

  /** The terminal line to the right of the prompt: everything beyond `cells` is blank.  A printable
      character is shown in the cursor's cell and moves the cursor right; '\b' moves it left. */
  class Terminal {
    var cells: string
    var col: nat

    ghost predicate Valid()
      reads this
    {
      col <= |cells|
    }

    /** The line reads `text` followed by blanks. */
    ghost predicate Shows(text: string)
      reads this
    {
      |text| <= |cells| && cells[..|text|] == text && forall i :: |text| <= i < |cells| ==> cells[i] == ' '
    }

    constructor ()
      ensures Valid() && cells == "" && col == 0
    {
      cells, col := "", 0;
    }

    method Put(c: char)
      requires Valid() && IsPrintable(c)
      modifies this
      ensures Valid() && col == old(col) + 1
      ensures cells == if old(col) < |old(cells)| then old(cells)[old(col) := c] else old(cells) + [c]
    {
      cells := if col < |cells| then cells[col := c] else cells + [c];
      col := col + 1;
    }

    method Back()
      requires Valid() && col > 0
      modifies this
      ensures Valid() && col == old(col) - 1 && cells == old(cells)
    {
      col := col - 1;
    }

    method Backs(n: nat)
      requires Valid() && n <= col
      modifies this
      ensures Valid() && col == old(col) - n && cells == old(cells)
    {
      for i := 0 to n
        invariant Valid() && col == old(col) - i && cells == old(cells)
      {
        Back();
      }
    }

    /** Printing overwrites the cells from the cursor on. */
    method Print(text: string)
      requires Valid() && Printable(text)
      modifies this
      ensures Valid() && col == old(col) + |text|
      ensures |cells| == if old(col) + |text| <= |old(cells)| then |old(cells)| else old(col) + |text|
      ensures forall k :: 0 <= k < |cells| ==>
        cells[k] == if old(col) <= k < col then text[k - old(col)] else old(cells)[k]
    {
      for i := 0 to |text|
        invariant Valid() && col == old(col) + i
        invariant |cells| == if col <= |old(cells)| then |old(cells)| else col
        invariant forall k :: 0 <= k < |cells| ==>
          cells[k] == if old(col) <= k < col then text[k - old(col)] else old(cells)[k]
      {
        Put(text[i]);
      }
    }
  }

  // ---- What the keys mean ----

  datatype Key = Enter | Backspace | Up | Down | Left | Right | Character(c: char) | Ignored

  /** The edited line: text, cursor, the draft put aside, and the history entry shown (-1: the draft). */
  datatype Edit = Edit(current: string, cursor: nat, saved: string, index: int) {
    predicate Valid(history: seq<string>) {
      && cursor <= |current| && -1 <= index < |history|
      && Printable(current) && Printable(saved)
    }
  }

  predicate AllPrintable(history: seq<string>) {
    forall i :: 0 <= i < |history| ==> Printable(history[i])
  }

  function Show(s: Edit, text: string, index: int): Edit {
    Edit(text, |text|, s.saved, index)
  }

  function Step(history: seq<string>, s: Edit, key: Key): Edit
    requires s.Valid(history)
  {
    match key
    case Backspace =>
      if s.cursor == 0 then s
      else s.(current := s.current[..s.cursor - 1] + s.current[s.cursor..], cursor := s.cursor - 1)
    case Up =>
      if history == [] then s
      else if s.index == -1 then Show(s.(saved := s.current), history[|history| - 1], |history| - 1)
      else
        var index := if s.index > 0 then s.index - 1 else 0;
        Show(s, history[index], index)
    case Down =>
      if s.index == -1 then s
      else if s.index < |history| - 1 then Show(s, history[s.index + 1], s.index + 1)
      else Show(s, s.saved, -1)
    case Left => if s.cursor > 0 then s.(cursor := s.cursor - 1) else s
    case Right => if s.cursor < |s.current| then s.(cursor := s.cursor + 1) else s
    case Character(c) =>
      if IsPrintable(c) then s.(current := s.current[..s.cursor] + [c] + s.current[s.cursor..], cursor := s.cursor + 1)
      else s
    case Enter => s
    case Ignored => s
  }

  lemma StepValid(history: seq<string>, s: Edit, key: Key)
    requires s.Valid(history) && AllPrintable(history)
    ensures Step(history, s, key).Valid(history)
  {
  }

  function Run(history: seq<string>, s: Edit, keys: seq<Key>): (r: Edit)
    requires s.Valid(history) && AllPrintable(history)
    ensures r.Valid(history)
  {
    if keys == [] then s else
    var before := Run(history, s, keys[..|keys| - 1]);
    StepValid(history, before, keys[|keys| - 1]);
    Step(history, before, keys[|keys| - 1])
  }

  /** The keys in a stream of character codes up to Enter, and whether Enter came. */
  datatype Typed = Typed(keys: seq<Key>, entered: bool, rest: seq<int>)

  predicate IsExtended(ch: int) { ch == 0 || ch == 224 }

  function KeyOf(ch: int): Key {
    if ch == 13 || ch == 10 then Enter
    else if ch == 8 || ch == 127 then Backspace
    else if 32 <= ch <= 126 then Character(ch as char)
    else Ignored
  }

  function ExtendedKey(ext: int): Key {
    if ext == 72 then Up else if ext == 80 then Down
    else if ext == 75 then Left else if ext == 77 then Right else Ignored
  }

  datatype KeyRead = Pressed(key: Key) | Entered | Starved

  /** The first key of a stream: an extended key takes two codes and starves on one. */
  function NextKey(codes: seq<int>): KeyRead
    requires codes != []
  {
    if IsExtended(codes[0]) then (if |codes| == 1 then Starved else Pressed(ExtendedKey(codes[1])))
    else if KeyOf(codes[0]) == Enter then Entered
    else Pressed(KeyOf(codes[0]))
  }

  function AfterKey(codes: seq<int>): (rest: seq<int>)
    requires codes != []
    ensures |rest| < |codes|
  {
    if IsExtended(codes[0]) && |codes| > 1 then codes[2..] else codes[1..]
  }

  function KeysOf(codes: seq<int>): Typed {
    if codes == [] then Typed([], false, [])
    else match NextKey(codes)
      case Starved => Typed([], false, [])
      case Entered => Typed([], true, AfterKey(codes))
      case Pressed(key) =>
        var more := KeysOf(AfterKey(codes));
        more.(keys := [key] + more.keys)
  }

  lemma KeysCons(codes: seq<int>, keys: seq<Key>, key: Key)
    requires codes != [] && NextKey(codes) == Pressed(key)
    ensures var rest := AfterKey(codes);
      KeysOf(codes).(keys := keys + KeysOf(codes).keys) == KeysOf(rest).(keys := keys + [key] + KeysOf(rest).keys)
  {
    var more := KeysOf(AfterKey(codes));
    assert KeysOf(codes) == more.(keys := [key] + more.keys);
    assert keys + ([key] + more.keys) == keys + [key] + more.keys;
  }

  lemma RunLast(history: seq<string>, s: Edit, keys: seq<Key>, key: Key)
    requires s.Valid(history) && AllPrintable(history)
    ensures Run(history, s, keys + [key]) == Step(history, Run(history, s, keys), key)
  {
    assert (keys + [key])[..|keys|] == keys;
  }

  // ---- The editor ----

  class Reader {
    const history: seq<string>
    const term: Terminal
    var current: string
    var saved: string
    var cursorPos: nat
    var historyIndex: int

    ghost function State(): Edit
      reads this
    {
      Edit(current, cursorPos, saved, historyIndex)
    }

    /** The terminal shows exactly the buffer, followed by blanks, with its cursor where the buffer's is. */
    ghost predicate Valid()
      reads this, term
    {
      && AllPrintable(history) && State().Valid(history)
      && term.Valid() && term.Shows(current) && term.col == cursorPos
    }

    constructor (h: seq<string>, index: int)
      requires AllPrintable(h) && -1 <= index < |h|
      ensures Valid() && history == h && State() == Edit("", 0, "", index)
      ensures fresh(term)
    {
      history, current, saved, cursorPos, historyIndex := h, "", "", 0, index;
      term := new Terminal();
    }

    /** Blank out the line on the terminal: back to the prompt, spaces, back again. */
    method EraseLine()
      requires Valid()
      modifies term, this`cursorPos
      ensures term.Valid() && term.col == 0 && term.Shows("") && cursorPos == 0
    {
      while cursorPos > 0
        invariant term.Valid() && term.col == cursorPos && term.Shows(current)
      {
        term.Back();
        cursorPos := cursorPos - 1;
      }
      term.Print(seq(|current|, _ => ' '));
      term.Backs(|current|);
    }

    method ShowLine(text: string, index: int)
      requires Valid() && Printable(text) && -1 <= index < |history|
      modifies term, this`current, this`cursorPos, this`historyIndex
      ensures Valid() && State() == Show(old(State()), text, index)
    {
      EraseLine();
      historyIndex := index;
      current := text;
      term.Print(current);
      cursorPos := |current|;
    }

    method PressBackspace()
      requires Valid()
      modifies this, term
      ensures Valid() && State() == Step(history, old(State()), Backspace)
    {
      if cursorPos == 0 { return; }
      ghost var cells := term.cells;
      current := current[..cursorPos - 1] + current[cursorPos..];
      cursorPos := cursorPos - 1;
      term.Back();
      term.Print(current[cursorPos..]);
      term.Put(' ');
      term.Backs(|current| + 1 - cursorPos);
    }

    method PressCharacter(c: char)
      requires Valid() && IsPrintable(c)
      modifies this, term
      ensures Valid() && State() == Step(history, old(State()), Character(c))
    {
      current := current[..cursorPos] + [c] + current[cursorPos..];
      term.Print(current[cursorPos..]);
      cursorPos := cursorPos + 1;
      term.Backs(|current| - cursorPos);
    }

    method PressExtended(ext: int)
      requires Valid()
      modifies this, term
      ensures Valid() && State() == Step(history, old(State()), ExtendedKey(ext))
    {
      if ext == 72 {
        if history != [] {
          var index := historyIndex;
          if historyIndex == -1 {
            saved := current;
            index := |history| - 1;
          } else if historyIndex > 0 {
            index := historyIndex - 1;
          }
          ShowLine(history[index], index);
        }
      } else if ext == 80 {
        if historyIndex != -1 {
          if historyIndex < |history| - 1 {
            ShowLine(history[historyIndex + 1], historyIndex + 1);
          } else {
            ShowLine(saved, -1);
          }
        }
      } else if ext == 75 {
        if cursorPos > 0 {
          term.Back();
          cursorPos := cursorPos - 1;
        }
      } else if ext == 77 {
        if cursorPos < |current| {
          term.Put(current[cursorPos]);
          cursorPos := cursorPos + 1;
        }
      }
    }

    /** One turn of the loop: one key, from one code or two. */
    method ReadKey(codes: seq<int>) returns (result: KeyRead, rest: seq<int>)
      requires Valid() && codes != []
      modifies this, term
      ensures Valid() && result == NextKey(codes) && rest == AfterKey(codes)
      ensures State() == if result.Pressed? then Step(history, old(State()), result.key) else old(State())
    {
      var ch := codes[0];
      rest := codes[1..];
      if ch == 13 || ch == 10 { return Entered, rest; }
      if ch == 8 || ch == 127 {
        PressBackspace();
      } else if ch == 0 || ch == 224 {
        if rest == [] { return Starved, []; }
        var ext := rest[0];
        rest := rest[1..];
        PressExtended(ext);
        return Pressed(ExtendedKey(ext)), rest;
      } else if 32 <= ch <= 126 {
        PressCharacter(ch as char);
      }
      return Pressed(KeyOf(ch)), rest;
    }

    /** `readLineWithHistory` over the codes the keyboard will deliver; the terminal follows the buffer
        after every key (the loop invariant), and the buffer follows the keys. */
    method ReadLine(codes: seq<int>) returns (entered: bool, rest: seq<int>)
      requires Valid()
      modifies this, term
      ensures Valid()
      ensures var typed := KeysOf(codes);
        entered == typed.entered && rest == typed.rest && State() == Run(history, old(State()), typed.keys)
    {
      rest := codes;
      ghost var keys: seq<Key> := [];
      while rest != []
        invariant Valid() && State() == Run(history, old(State()), keys)
        invariant KeysOf(codes) == KeysOf(rest).(keys := keys + KeysOf(rest).keys)
      {
        ghost var here := rest;
        var result;
        result, rest := ReadKey(rest);
        if !result.Pressed? {
          assert keys + [] == keys;
          return result == Entered, rest;
        }
        KeysCons(here, keys, result.key);
        RunLast(history, old(State()), keys, result.key);
        keys := keys + [result.key];
      }
      assert keys + [] == keys;
      return false, [];
    }
  }

  // ---- Browsing the history ----

  lemma {:induction false} RunConcat(history: seq<string>, s: Edit, a: seq<Key>, b: seq<Key>)
    requires s.Valid(history) && AllPrintable(history)
    ensures Run(history, s, a + b) == Run(history, Run(history, s, a), b)
    decreases |b|
  {
    if b == [] {
      assert a + b == a;
    } else {
      assert (a + b)[..|a + b| - 1] == a + b[..|b| - 1];
      RunConcat(history, s, a, b[..|b| - 1]);
    }
  }

  function Times(key: Key, k: nat): (keys: seq<Key>)
    ensures |keys| == k
  {
    seq(k, _ => key)
  }

  lemma RunTimes(history: seq<string>, s: Edit, key: Key, k: nat)
    requires s.Valid(history) && AllPrintable(history) && k > 0
    ensures Run(history, s, Times(key, k)) == Step(history, Run(history, s, Times(key, k - 1)), key)
  {
    assert Times(key, k)[..k - 1] == Times(key, k - 1);
  }

  /** `k` presses of Up from the draft show the k-th last entry, or the oldest. */
  lemma {:induction false} Ups(history: seq<string>, s: Edit, k: nat)
    requires s.Valid(history) && AllPrintable(history) && history != [] && k > 0
    ensures var index := if s.index == -1 then Max(|history| - k, 0) else Max(s.index - k, 0);
      Run(history, s, Times(Up, k)) ==
        Edit(history[index], |history[index]|, if s.index == -1 then s.current else s.saved, index)
  {
    RunTimes(history, s, Up, k);
    if k > 1 { Ups(history, s, k - 1); } else { assert Times(Up, 0) == []; }
  }

  /** Down walks back towards the draft and shows it after the newest entry. */
  lemma {:induction false} Downs(history: seq<string>, s: Edit, k: nat)
    requires s.Valid(history) && AllPrintable(history) && 0 < k && 0 <= s.index && s.index + k <= |history|
    ensures Run(history, s, Times(Down, k)) ==
      if s.index + k < |history| then Edit(history[s.index + k], |history[s.index + k]|, s.saved, s.index + k)
      else Edit(s.saved, |s.saved|, s.saved, -1)
  {
    RunTimes(history, s, Down, k);
    if k > 1 { Downs(history, s, k - 1); } else { assert Times(Down, 0) == []; }
  }

  /** `k` Ups and the Downs past the newest entry, from this index of the history. */
  function Detour(size: nat, index: int, k: nat): seq<Key>
    requires -1 <= index < size
  {
    Times(Up, k) + Times(Down, size - Max((if index == -1 then size else index) - k, 0))
  }

  /** Such a detour brings back the text that was put aside: the draft itself when the line was a fresh draft, and
      otherwise whatever had been put aside before. */
  lemma UpsThenDowns(history: seq<string>, s: Edit, k: nat)
    requires s.Valid(history) && AllPrintable(history) && history != [] && k > 0
    ensures var text := if s.index == -1 then s.current else s.saved;
      Run(history, s, Detour(|history|, s.index, k)) == Edit(text, |text|, text, -1)
  {
    var down := |history| - Max((if s.index == -1 then |history| else s.index) - k, 0);
    RunConcat(history, s, Times(Up, k), Times(Down, down));
    Ups(history, s, k);
    Downs(history, Run(history, s, Times(Up, k)), down);
  }

  /** From a fresh draft, k Ups and min(k, size of the history) Downs restore the draft. */
  lemma FreshDraftRestored(history: seq<string>, s: Edit, k: nat)
    requires s.Valid(history) && AllPrintable(history) && s.index == -1
    ensures var r := Run(history, s, Times(Up, k) + Times(Down, Min(k, |history|)));
      r.current == s.current && r.index == -1
  {
    if k == 0 || history == [] {
      assert Times(Up, k) + Times(Down, 0) == Times(Up, k);
      IdleUps(history, s, k);
    } else {
      UpsThenDowns(history, s, k);
      assert Detour(|history|, -1, k) == Times(Up, k) + Times(Down, Min(k, |history|));
    }
  }

  lemma {:induction false} IdleUps(history: seq<string>, s: Edit, k: nat)
    requires s.Valid(history) && AllPrintable(history) && (k == 0 || history == [])
    ensures Run(history, s, Times(Up, k)) == s
  {
    if k > 0 {
      RunTimes(history, s, Up, k);
      IdleUps(history, s, k - 1);
    }
  }

  /** Exactly then: after one Up and the Downs that lead back, the line is what it was if and only if it
      was a fresh draft or equal to the text put aside. */
  lemma DraftRestoredExactly(history: seq<string>, s: Edit)
    requires s.Valid(history) && AllPrintable(history) && history != []
    ensures Run(history, s, Detour(|history|, s.index, 1)).current == s.current <==>
      s.index == -1 || s.current == s.saved
  {
    UpsThenDowns(history, s, 1);
  }

  /** A typed character and Backspace cancel out. */
  lemma BackspaceUndoesCharacter(history: seq<string>, s: Edit, c: char)
    requires s.Valid(history) && AllPrintable(history) && IsPrintable(c)
    ensures Run(history, s, [Character(c), Backspace]) == s
  {
    RunTwo(history, s, Character(c), Backspace);
    InsertedThenCut(s.current, s.cursor, c);
  }

  lemma RunTwo(history: seq<string>, s: Edit, a: Key, b: Key)
    requires s.Valid(history) && AllPrintable(history)
    ensures Step(history, s, a).Valid(history) && Run(history, s, [a, b]) == Step(history, Step(history, s, a), b)
  {
    StepValid(history, s, a);
    RunLast(history, s, [], a);
    RunLast(history, s, [a], b);
    assert [] + [a] == [a] && [a] + [b] == [a, b];
  }

  lemma InsertedThenCut(text: string, i: nat, c: char)
    requires i <= |text|
    ensures var longer := text[..i] + [c] + text[i..]; longer[..i] + longer[i + 1..] == text
  {
  }

  // ---- The shell loop ----

  /** What the loop of `task_main` keeps between lines. */
  datatype Shell = Shell(history: seq<string>, index: int) {
    ghost predicate Valid() {
      && |history| <= Suggestion.MAX_HISTORY && AllPrintable(history)
      && -1 <= index < |history|
      && (forall i :: 0 <= i < |history| ==> history[i] != "")
      && (forall i :: 0 < i < |history| ==> history[i - 1] != history[i])
    }
  }

  /** One line read and remembered: an empty line changes neither the history nor the index. */
  function ReadOne(shell: Shell, keys: seq<Key>): Shell
    requires AllPrintable(shell.history) && -1 <= shell.index < |shell.history|
  {
    var end := Run(shell.history, Edit("", 0, "", shell.index), keys);
    if end.current == "" then Shell(shell.history, end.index)
    else Shell(Suggestion.Remembered(shell.history, end.current), -1)
  }

  /** The history stays bounded, printable and without immediate repetitions, whatever is typed. */
  lemma ReadOneValid(shell: Shell, keys: seq<Key>)
    requires shell.Valid()
    ensures ReadOne(shell, keys).Valid()
    ensures var history := ReadOne(shell, keys).history;
      var line := Run(shell.history, Edit("", 0, "", shell.index), keys).current;
      line != "" ==> history != [] && history[|history| - 1] == line
  {
    var line := Run(shell.history, Edit("", 0, "", shell.index), keys).current;
    if line != "" { RememberedValid(shell, line); }
  }

  lemma RememberedValid(shell: Shell, line: string)
    requires shell.Valid() && line != "" && Printable(line)
    ensures var history := Suggestion.Remembered(shell.history, line);
      Shell(history, -1).Valid() && history != [] && history[|history| - 1] == line
  {
  }

  class ShellLoop {
    var commandHistory: seq<string>
    var historyIndex: int

    ghost function State(): Shell
      reads this
    {
      Shell(commandHistory, historyIndex)
    }

    constructor ()
      ensures State() == Shell([], -1) && State().Valid()
    {
      commandHistory, historyIndex := [], -1;
    }

    /** One turn of the loop up to the command's execution.  Without Enter the keyboard has nothing
        more to deliver and the loop still waits. */
    method ReadCommand(codes: seq<int>) returns (input: string, entered: bool, rest: seq<int>)
      requires State().Valid()
      modifies this
      ensures entered == KeysOf(codes).entered && rest == KeysOf(codes).rest
      ensures input == Run(old(commandHistory), Edit("", 0, "", old(historyIndex)), KeysOf(codes).keys).current
      ensures entered ==> State() == ReadOne(old(State()), KeysOf(codes).keys) && State().Valid()
      ensures !entered ==> State() == old(State())
    {
      var reader := new Reader(commandHistory, historyIndex);
      entered, rest := reader.ReadLine(codes);
      input := reader.current;
      if !entered { return; }
      ReadOneValid(State(), KeysOf(codes).keys);
      historyIndex := reader.historyIndex;
      if input == "" { return; }
      Remember(input);
      historyIndex := -1;
    }

    /** No immediate repetition, and the oldest entry goes when there are a hundred. */
    method Remember(input: string)
      modifies this`commandHistory
      ensures commandHistory == Suggestion.Remembered(old(commandHistory), input)
    {
      if commandHistory == [] || commandHistory[|commandHistory| - 1] != input {
        if |commandHistory| >= Suggestion.MAX_HISTORY {
          commandHistory := commandHistory[1..];
        }
        commandHistory := commandHistory + [input];
      }
    }
  }

  function ReadAll(shell: Shell, lines: seq<seq<Key>>): (r: Shell)
    requires shell.Valid()
    ensures r.Valid()
    decreases lines
  {
    if lines == [] then shell else
    ReadOneValid(shell, lines[0]);
    ReadAll(ReadOne(shell, lines[0]), lines[1..])
  }

  function Typing(text: string): (keys: seq<Key>)
    ensures |keys| == |text|
  {
    seq(|text|, i requires 0 <= i < |text| => Character(text[i]))
  }

  /** Typing at the end of a line appends to it and touches nothing else. */
  lemma {:induction false} TypingAppends(history: seq<string>, s: Edit, text: string)
    requires s.Valid(history) && AllPrintable(history) && Printable(text) && s.cursor == |s.current|
    ensures Run(history, s, Typing(text)) == Edit(s.current + text, |s.current + text|, s.saved, s.index)
    decreases |text|
  {
    if text == "" {
      assert s.current + text == s.current;
    } else {
      var init, last := text[..|text| - 1], text[|text| - 1];
      TypingAppends(history, s, init);
      assert Typing(text)[..|text| - 1] == Typing(init);
      assert s.current + text == s.current + init + [last];
    }
  }

  /** Text typed on a new line comes back after a detour exactly when the line began outside the history. */
  lemma DetourRestores(history: seq<string>, s: Edit, text: string)
    requires s.Valid(history) && AllPrintable(history) && history != [] && Printable(text) && text != ""
    requires s.current == s.saved == ""
    ensures Run(history, s, Typing(text) + Detour(|history|, s.index, 1)).current == text <==> s.index == -1
  {
    TypingAppends(history, s, text);
    assert s.current + text == text;
    var typed := Run(history, s, Typing(text));
    RunConcat(history, s, Typing(text), Detour(|history|, s.index, 1));
    DraftRestoredExactly(history, typed);
  }

  /** Without a history there is no detour. */
  lemma NoHistoryRestores(text: string)
    requires Printable(text)
    ensures Run([], Edit("", 0, "", -1), Typing(text) + [Up]).current == text
  {
    var blank := Edit("", 0, "", -1);
    TypingAppends([], blank, text);
    assert "" + text == text;
    RunConcat([], blank, Typing(text), [Up]);
    assert [Up] == Times(Up, 1);
    IdleUps([], Edit(text, |text|, "", -1), 1);
  }

  /** Whatever is typed on the next line comes back after a detour through the history exactly when the last line
      was not left empty while the history was entered: an empty line skips the reset of the index. */
  lemma NextDraftRestored(shell: Shell, keys: seq<Key>, text: string)
    requires shell.Valid() && Printable(text) && text != ""
    ensures var end := Run(shell.history, Edit("", 0, "", shell.index), keys);
      var next := ReadOne(shell, keys);
      var detour := if next.history == [] then [Up] else Detour(|next.history|, next.index, 1);
      Run(next.history, Edit("", 0, "", next.index), Typing(text) + detour).current == text <==>
      end.current != "" || end.index == -1
  {
    ReadOneValid(shell, keys);
    var next := ReadOne(shell, keys);
    if next.history == [] {
      NoHistoryRestores(text);
    } else {
      DetourRestores(next.history, Edit("", 0, "", next.index), text);
    }
  }

  /** So a draft can be lost: recall "l", erase it, press Enter, type "a", and Up and Down give an empty
      line instead of "a". */
  lemma DraftLost()
    ensures var shell := ReadOne(Shell(["l"], -1), [Up, Backspace]);
      Run(shell.history, Edit("", 0, "", shell.index), [Character('a'), Up, Down]).current == ""
  {
    var h := ["l"];
    var s := Edit("", 0, "", -1);
    var up := Edit("l", 1, "", 0);
    var erased := Edit("", 0, "", 0);
    RunTwo(h, s, Up, Backspace);
    assert Step(h, s, Up) == up && "l"[..0] + "l"[1..] == "";
    assert Run(h, s, [Up, Backspace]) == erased;
    RunTwo(h, erased, Character('a'), Up);
    RunLast(h, erased, [Character('a'), Up], Down);
    assert [Character('a'), Up] + [Down] == [Character('a'), Up, Down];
    var typed := Step(h, erased, Character('a'));
    assert typed.index == 0 && typed.saved == "" && Step(h, typed, Up) == up;
  }
}
