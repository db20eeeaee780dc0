/** The words, commands and keys of the shell, APP/shell/command.cpp, APP/shell/commandReg.cpp and
    TundraTUI/src/color.cpp, spelled out. */
module ShellRules {
  import opened Ascii
  import opened LineEditor
  import opened Suggestion

  // ---- Words ----

  predicate Spaces(s: string) { forall i :: 0 <= i < |s| ==> IsSpace(s[i]) }

  predicate NoSpace(s: string) { forall i :: 0 <= i < |s| ==> !IsSpace(s[i]) }

  /** The first word is what comes before the next blank behind all blanks at the beginning; there is something more
      exactly when there is a second word. */
  lemma WordsExactly(before: string, word: string, rest: string)
    requires Spaces(before) && word != "" && NoSpace(word) && (rest != "" ==> IsSpace(rest[0]))
    ensures FirstWord(before + word + rest) == word
    ensures HasExtra(before + word + rest) <==> !Spaces(rest)
  {
    SkipsBefore(before, word + rest);
    assert before + word + rest == before + (word + rest);
    TakesWord(word, rest);
    BlankWord(rest);
  }

  /** Without any word there is none. */
  lemma {:induction false} NoWord(s: string)
    requires Spaces(s)
    ensures FirstWord(s) == "" && !HasExtra(s)
  {
    if s != "" { NoWord(s[1..]); }
  }

  lemma {:induction false} SkipsBefore(before: string, s: string)
    requires Spaces(before)
    ensures FirstWord(before + s) == FirstWord(s) && AfterWord(before + s) == AfterWord(s)
  {
    if before == "" {
      assert before + s == s;
    } else {
      assert (before + s)[1..] == before[1..] + s;
      SkipsBefore(before[1..], s);
    }
  }

  lemma {:induction false} TakesWord(word: string, rest: string)
    requires word != "" && NoSpace(word) && (rest != "" ==> IsSpace(rest[0]))
    ensures Word(word + rest) == word && Rest(word + rest) == rest
    ensures FirstWord(word + rest) == word && AfterWord(word + rest) == rest
  {
    var s := word + rest;
    assert s[1..] == word[1..] + rest && word == [word[0]] + word[1..];
    if |word| == 1 {
      assert s[1..] == rest;
    } else {
      TakesWord(word[1..], rest);
    }
  }

  lemma {:induction false} BlankWord(s: string)
    ensures FirstWord(s) == "" <==> Spaces(s)
  {
    if s != "" {
      BlankWord(s[1..]);
      assert s == [s[0]] + s[1..];
    }
  }

  // ---- Commands ----

  /** The candidates are the names and all aliases of the commands that are neither hidden nor forbidden. */
  lemma {:induction false} CandidatesExactly(commands: seq<Command>, c: string)
    ensures c in Candidates(commands) <==>
      exists k :: 0 <= k < |commands| && !commands[k].hidden && commands[k].permitted
        && (c == commands[k].name || c in commands[k].aliases)
  {
    if commands != [] {
      CandidatesExactly(commands[1..], c);
      if c in Candidates(commands[1..]) {
        var k :| 0 <= k < |commands[1..]| && !commands[1..][k].hidden && commands[1..][k].permitted
          && (c == commands[1..][k].name || c in commands[1..][k].aliases);
        assert commands[k + 1] == commands[1..][k];
      }
      forall k | 0 < k < |commands| && !commands[k].hidden && commands[k].permitted
          && (c == commands[k].name || c in commands[k].aliases)
        ensures c in Candidates(commands[1..])
      {
        assert commands[1..][k - 1] == commands[k];
      }
    }
  }

  /** An input is taken by the first command with its first word as name or alias, if that allows arguments or none
      is given. */
  lemma {:induction false} ExecutesExactly(input: string, commands: seq<Command>)
    ensures Executes(input, commands) <==>
      FirstWord(input) != "" && exists k :: 0 <= k < |commands| && Takes(commands, input, k)
  {
    if commands != [] && FirstWord(input) != "" {
      var word := FirstWord(input);
      ExecutesExactly(input, commands[1..]);
      forall k | 0 < k < |commands|
        ensures Takes(commands, input, k) <==> !Names(commands[0], word) && Takes(commands[1..], input, k - 1)
      {
        CalledLater(commands, word, k);
      }
      assert Takes(commands, input, 0) <==>
        Names(commands[0], word) && (commands[0].allowArguments || !HasExtra(input));
      if !Names(commands[0], word) && Executes(input, commands[1..]) {
        var k :| 0 <= k < |commands[1..]| && Takes(commands[1..], input, k);
        assert Takes(commands, input, k + 1);
      }
    }
  }

  predicate Takes(commands: seq<Command>, input: string, k: int)
    requires 0 <= k < |commands|
  {
    CalledFirst(commands, FirstWord(input), k) && (commands[k].allowArguments || !HasExtra(input))
  }

  predicate Names(c: Command, word: string) { c.name == word || word in c.aliases }

  predicate CalledFirst(commands: seq<Command>, word: string, k: int)
    requires 0 <= k < |commands|
  {
    Names(commands[k], word) && forall j :: 0 <= j < k ==> !Names(commands[j], word)
  }

  lemma CalledLater(commands: seq<Command>, word: string, k: int)
    requires 0 < k < |commands|
    ensures CalledFirst(commands, word, k) <==> !Names(commands[0], word) && CalledFirst(commands[1..], word, k - 1)
  {
    assert forall j :: 0 < j < |commands| ==> commands[j] == commands[1..][j - 1];
  }

  // ---- The history ----

  /** A line is remembered behind all others unless it is the last one again, and only the oldest of a hundred goes. */
  lemma RememberedExactly(history: seq<string>, line: string)
    ensures var after := Remembered(history, line);
      if history != [] && history[|history| - 1] == line then after == history
      else
        after != [] && after[|after| - 1] == line
        && |after| == (if |history| >= 100 then |history| else |history| + 1)
        && forall k :: 0 <= k < |after| - 1 ==> after[k] == history[k + |history| + 1 - |after|]
  {
  }

  // ---- Keys ----

  /** What an extended key of the console does to the line: 72 and 80 are the arrows up and down, 75 and 77 those to
      the left and right. Up goes to the newest entry of the history and on to older ones, down back to newer ones and
      to the text put aside; the cursor is then at the end. */
  lemma ArrowCodes(history: seq<string>, s: Edit, prefix: int)
    requires s.Valid(history) && AllPrintable(history) && prefix in {0, 224}
    ensures After(history, s, [prefix, 75]) == s.(cursor := if s.cursor == 0 then 0 else s.cursor - 1)
    ensures After(history, s, [prefix, 77]) ==
      s.(cursor := if s.cursor == |s.current| then |s.current| else s.cursor + 1)
    ensures var (n, after) := (|history|, After(history, s, [prefix, 72]));
      if n == 0 then after == s
      else if s.index == -1 then after == Edit(history[n - 1], |history[n - 1]|, s.current, n - 1)
      else if s.index == 0 then after == Edit(history[0], |history[0]|, s.saved, 0)
      else after == Edit(history[s.index - 1], |history[s.index - 1]|, s.saved, s.index - 1)
    ensures var (n, after) := (|history|, After(history, s, [prefix, 80]));
      if s.index == -1 then after == s
      else if s.index == n - 1 then after == Edit(s.saved, |s.saved|, s.saved, -1)
      else after == Edit(history[s.index + 1], |history[s.index + 1]|, s.saved, s.index + 1)
  {
    forall ext | ext in {72, 75, 77, 80}
      ensures After(history, s, [prefix, ext]) == LineEditor.Step(history, s, ExtendedKey(ext))
    {
      OneExtended(history, s, prefix, ext);
    }
  }

  /** The line after some codes without Enter. */
  function After(history: seq<string>, s: Edit, codes: seq<int>): Edit
    requires s.Valid(history) && AllPrintable(history)
  {
    Run(history, s, KeysOf(codes).keys)
  }

  lemma OneExtended(history: seq<string>, s: Edit, prefix: int, ext: int)
    requires s.Valid(history) && AllPrintable(history) && prefix in {0, 224}
    ensures After(history, s, [prefix, ext]) == LineEditor.Step(history, s, ExtendedKey(ext))
  {
    var codes := [prefix, ext];
    assert AfterKey(codes) == [] && KeysOf([]).keys == [];
    assert KeysOf(codes).keys == [ExtendedKey(ext)];
    OneKey(history, s, ExtendedKey(ext));
  }

  lemma OneKey(history: seq<string>, s: Edit, key: Key)
    requires s.Valid(history) && AllPrintable(history)
    ensures Run(history, s, [key]) == LineEditor.Step(history, s, key)
  {
    assert [key][..0] == [];
    assert Run(history, s, []) == s;
  }

  lemma OneCode(history: seq<string>, s: Edit, code: int)
    requires s.Valid(history) && AllPrintable(history) && code !in {0, 224, 10, 13}
    ensures After(history, s, [code]) == LineEditor.Step(history, s, KeyOf(code))
    ensures !KeysOf([code]).entered
  {
    var codes := [code];
    assert AfterKey(codes) == [] && KeysOf([]).keys == [];
    assert KeysOf(codes).keys == [KeyOf(code)];
    OneKey(history, s, KeyOf(code));
  }

  /** The codes 8 and 127 take out the character before the cursor, a printable one is put in there, and all other
      codes but Enter's do nothing. */
  lemma PlainCodes(history: seq<string>, s: Edit, code: int)
    requires s.Valid(history) && AllPrintable(history) && code !in {0, 224, 10, 13}
    ensures var (a, b, after) := (s.current[..s.cursor], s.current[s.cursor..], After(history, s, [code]));
      if code in {8, 127} then
        after == if a == "" then s else s.(current := a[..|a| - 1] + b, cursor := s.cursor - 1)
      else if 32 <= code <= 126 then after == s.(current := a + [code as char] + b, cursor := s.cursor + 1)
      else after == s
  {
    OneCode(history, s, code);
    if s.cursor > 0 { assert s.current[..s.cursor][..s.cursor - 1] == s.current[..s.cursor - 1]; }
  }

  /** The codes 10 and 13 end the line. */
  lemma EnterCodes(code: int, more: seq<int>)
    requires code in {10, 13}
    ensures KeysOf([code] + more) == Typed([], true, more)
  {
    assert ([code] + more)[1..] == more;
  }
}
