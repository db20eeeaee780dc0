/** The command line that starts the backend, after APP/backend_client/backend_process.cpp, and the
    rules by which the Microsoft C runtime splits a command line into arguments. */
module CommandLine {
  import opened Concat

  function Backslashes(n: nat): (s: string)
    ensures |s| == n
  {
    seq(n, _ => '\\')
  }

  predicate IsBlank(c: char) { c == ' ' || c == '\t' }

  // ---- Quoting ----

  predicate NeedsQuotes(arg: string) {
    exists i :: 0 <= i < |arg| && arg[i] in " \t\n\U{B}\""
  }

  /** What the quoting loop still writes when `arg` is left and `pending` backslashes are held back. */
  function QuoteRest(arg: string, pending: nat): string {
    if arg == "" then Backslashes(2 * pending) + "\""
    else if arg[0] == '\\' then QuoteRest(arg[1..], pending + 1)
    else if arg[0] == '"' then Backslashes(2 * pending + 1) + "\"" + QuoteRest(arg[1..], 0)
    else Backslashes(pending) + [arg[0]] + QuoteRest(arg[1..], 0)
  }

  function Quote(arg: string): string {
    if arg == "" then "\"\"" else if !NeedsQuotes(arg) then arg else "\"" + QuoteRest(arg, 0)
  }

  method QuoteWindowsArg(arg: string) returns (quoted: string)
    ensures quoted == Quote(arg)
  {
    if arg == "" { return "\"\""; }
    if !NeedsQuotes(arg) { return arg; }
    quoted := "\"";
    var backslashes := 0;
    for i := 0 to |arg|
      invariant "\"" + QuoteRest(arg, 0) == quoted + QuoteRest(arg[i..], backslashes)
    {
      assert arg[i..][1..] == arg[i + 1..];
      var ch := arg[i];
      if ch == '\\' {
        backslashes := backslashes + 1;
        continue;
      }
      ghost var piece := Backslashes(if ch == '"' then backslashes * 2 + 1 else backslashes) + [ch];
      Assoc(quoted, piece, QuoteRest(arg[i + 1..], 0));
      if ch == '"' {
        quoted := quoted + (Backslashes(backslashes * 2 + 1) + [ch]);
      } else {
        quoted := quoted + (Backslashes(backslashes) + [ch]);
      }
      backslashes := 0;
    }
    quoted := quoted + (Backslashes(backslashes * 2) + "\"");
  }

  // ---- The runtime's rules ----

  function Run(s: string): (n: nat)
    ensures n <= |s| && s[..n] == Backslashes(n) && (n < |s| ==> s[n] != '\\')
  {
    if s == "" || s[0] != '\\' then 0 else
    var n := 1 + Run(s[1..]);
    assert s[..n] == [s[0]] + s[1..][..n - 1];
    n
  }

  datatype Arg = Arg(value: string, rest: string)

  function Prefixed(prefix: string, a: Arg): Arg { Arg(prefix + a.value, a.rest) }

  /** One argument: 2n backslashes before a quote stand for n and the quote opens or closes; 2n + 1
      stand for n and a literal quote; two quotes inside quotes are a literal quote; other backslashes
      stand for themselves; a blank outside quotes ends the argument. */
  function ReadArg(s: string, inQuotes: bool): Arg
    decreases |s|
  {
    var n := Run(s);
    var t := s[n..];
    if t == "" then Arg(Backslashes(n), "")
    else if t[0] == '"' then
      if n % 2 == 1 then Prefixed(Backslashes(n / 2) + "\"", ReadArg(t[1..], inQuotes))
      else if inQuotes && |t| > 1 && t[1] == '"' then Prefixed(Backslashes(n / 2) + "\"", ReadArg(t[2..], inQuotes))
      else Prefixed(Backslashes(n / 2), ReadArg(t[1..], !inQuotes))
    else if !inQuotes && IsBlank(t[0]) then Arg(Backslashes(n), t)
    else Prefixed(Backslashes(n) + [t[0]], ReadArg(t[1..], inQuotes))
  }

  lemma {:induction false} ReadArgShortens(s: string, inQuotes: bool)
    ensures |ReadArg(s, inQuotes).rest| <= |s|
    ensures s != "" && !IsBlank(s[0]) ==> |ReadArg(s, inQuotes).rest| < |s|
    decreases |s|
  {
    var n := Run(s);
    var t := s[n..];
    if t != "" && t[0] == '"' {
      if |t| > 1 { ReadArgShortens(t[2..], inQuotes); }
      ReadArgShortens(t[1..], inQuotes);
      ReadArgShortens(t[1..], !inQuotes);
    } else if t != "" && !(!inQuotes && IsBlank(t[0])) {
      ReadArgShortens(t[1..], inQuotes);
    }
  }

  /** All arguments after the program name. */
  function ReadArgs(s: string): seq<string>
    decreases |s|
  {
    if s == "" then []
    else if IsBlank(s[0]) then ReadArgs(s[1..])
    else
      ReadArgShortens(s, false);
      var a := ReadArg(s, false);
      [a.value] + ReadArgs(a.rest)
  }

  /** The program name follows simpler rules: quotes only toggle, backslashes stand for themselves. */
  function ReadProgram(s: string, inQuotes: bool): Arg {
    if s == "" || (!inQuotes && IsBlank(s[0])) then Arg("", s)
    else if s[0] == '"' then ReadProgram(s[1..], !inQuotes)
    else Prefixed([s[0]], ReadProgram(s[1..], inQuotes))
  }

  function ReadCommandLine(s: string): seq<string> {
    var program := ReadProgram(s, false);
    [program.value] + ReadArgs(program.rest)
  }

  // ---- Quoting and splitting are inverse ----

  /** What follows an argument. */
  predicate Delimited(rest: string) { rest == "" || IsBlank(rest[0]) }

  lemma {:induction false} RunOf(k: nat, s: string)
    requires s == "" || s[0] != '\\'
    ensures Run(Backslashes(k) + s) == k && (Backslashes(k) + s)[k..] == s
  {
    if k == 0 {
      assert Backslashes(0) + s == s;
    } else {
      assert (Backslashes(k) + s)[1..] == Backslashes(k - 1) + s;
      RunOf(k - 1, s);
      assert (Backslashes(k) + s)[k..] == s;
    }
  }

  /** One turn of the runtime's loop: `k` backslashes and what follows them. */
  lemma ReadStep(k: nat, t: string, inQuotes: bool)
    requires t == "" || t[0] != '\\'
    ensures ReadArg(Backslashes(k) + t, inQuotes) ==
      if t == "" then Arg(Backslashes(k), "")
      else if t[0] == '"' then
        if k % 2 == 1 then Prefixed(Backslashes(k / 2) + "\"", ReadArg(t[1..], inQuotes))
        else if inQuotes && |t| > 1 && t[1] == '"' then Prefixed(Backslashes(k / 2) + "\"", ReadArg(t[2..], inQuotes))
        else Prefixed(Backslashes(k / 2), ReadArg(t[1..], !inQuotes))
      else if !inQuotes && IsBlank(t[0]) then Arg(Backslashes(k), t)
      else Prefixed(Backslashes(k) + [t[0]], ReadArg(t[1..], inQuotes))
  {
    RunOf(k, t);
  }

  lemma NoBackslashes(s: string)
    ensures Backslashes(0) == "" && "" + s == s && Backslashes(0) + s == s
  {
  }

  lemma {:induction false} QuotedRead(arg: string, pending: nat, rest: string)
    requires Delimited(rest)
    ensures ReadArg(QuoteRest(arg, pending) + rest, true) == Arg(Backslashes(pending) + arg, rest)
    decreases |arg|
  {
    if arg == "" {
      ClosingRead(pending, rest);
      assert Backslashes(pending) + arg == Backslashes(pending);
    } else if arg[0] == '\\' {
      QuotedRead(arg[1..], pending + 1, rest);
      assert Backslashes(pending + 1) + arg[1..] == Backslashes(pending) + arg;
    } else {
      var c := arg[0];
      var n := if c == '"' then 2 * pending + 1 else pending;
      var tail := QuoteRest(arg[1..], 0) + rest;
      QuotedRead(arg[1..], 0, rest);
      NoBackslashes(arg[1..]);
      Assoc(Backslashes(n) + [c], QuoteRest(arg[1..], 0), rest);
      CharRead(n, c, tail, arg[1..], rest);
      Uncons(arg);
      Assoc(Backslashes(pending), [c], arg[1..]);
    }
  }

  /** A character inside quotes, with the backslashes that the quoting puts before it. */
  lemma CharRead(n: nat, c: char, tail: string, value: string, rest: string)
    requires c != '\\' && (c == '"' ==> n % 2 == 1) && ReadArg(tail, true) == Arg(value, rest)
    ensures ReadArg(Backslashes(n) + [c] + tail, true) ==
      Arg(Backslashes(if c == '"' then n / 2 else n) + [c] + value, rest)
  {
    Assoc(Backslashes(n), [c], tail);
    assert ([c] + tail)[1..] == tail;
    ReadStep(n, [c] + tail, true);
  }

  lemma DelimitedRead(rest: string)
    requires Delimited(rest)
    ensures ReadArg(rest, false) == Arg("", rest)
  {
    NoBackslashes(rest);
    ReadStep(0, rest, false);
  }

  lemma ClosingRead(pending: nat, rest: string)
    requires Delimited(rest)
    ensures ReadArg(Backslashes(2 * pending) + "\"" + rest, true) == Arg(Backslashes(pending), rest)
  {
    var k := 2 * pending;
    assert k % 2 == 0 && k / 2 == pending;
    Assoc(Backslashes(k), "\"", rest);
    CloseStep(k, rest);
    DelimitedRead(rest);
    assert Backslashes(pending) + "" == Backslashes(pending);
  }

  lemma CloseStep(k: nat, rest: string)
    requires Delimited(rest) && k % 2 == 0
    ensures ReadArg(Backslashes(k) + ("\"" + rest), true) == Prefixed(Backslashes(k / 2), ReadArg(rest, false))
  {
    var text := "\"" + rest;
    assert text[0] == '"' && text[1..] == rest && (|text| > 1 ==> text[1] == rest[0]);
    ReadStep(k, text, true);
  }

  lemma {:induction false} PlainRead(k: nat, arg: string, rest: string)
    requires Delimited(rest) && !NeedsQuotes(arg)
    ensures ReadArg(Backslashes(k) + (arg + rest), false) == Arg(Backslashes(k) + arg, rest)
    decreases |arg|
  {
    if arg == "" {
      assert "" + rest == rest && Backslashes(k) + "" == Backslashes(k);
      ReadStep(k, rest, false);
    } else {
      var c, more := arg[0], arg[1..];
      PlainTail(arg, 1);
      Uncons(arg);
      if c == '\\' {
        PlainRead(k + 1, more, rest);
        OneMore(k, more);
        OneMore(k, more + rest);
        Assoc([c], more, rest);
      } else {
        PlainRead(0, more, rest);
        NoBackslashes(more);
        NoBackslashes(more + rest);
        PlainChar(k, c, more, rest);
      }
    }
  }

  lemma OneMore(k: nat, s: string)
    ensures Backslashes(k + 1) + s == Backslashes(k) + (['\\'] + s)
  {
  }

  lemma PlainTail(arg: string, k: nat)
    requires !NeedsQuotes(arg) && k <= |arg|
    ensures !NeedsQuotes(arg[k..])
  {
    assert forall i :: 0 <= i < |arg[k..]| ==> arg[k..][i] == arg[k + i];
  }

  lemma PlainChar(n: nat, c: char, more: string, rest: string)
    requires c !in " \t\"\\" && ReadArg(more + rest, false) == Arg(more, rest)
    ensures ReadArg(Backslashes(n) + ([c] + more + rest), false) == Arg(Backslashes(n) + ([c] + more), rest)
  {
    Tail(c, more, rest);
    ReadStep(n, [c] + more + rest, false);
    Assoc(Backslashes(n), [c], more);
  }

  /** Every argument survives quoting, whatever backslashes, quotes and blanks it holds. */
  lemma ArgumentRoundTrip(arg: string, rest: string)
    requires Delimited(rest)
    ensures ReadArg(Quote(arg) + rest, false) == Arg(arg, rest)
    ensures Quote(arg) != "" && !IsBlank(Quote(arg)[0])
  {
    if arg == "" {
      EmptyArgument(rest);
    } else if !NeedsQuotes(arg) {
      NoBackslashes(arg);
      NoBackslashes(arg + rest);
      PlainRead(0, arg, rest);
    } else {
      QuotedArgument(arg, rest);
    }
  }

  lemma EmptyArgument(rest: string)
    requires Delimited(rest)
    ensures ReadArg("\"\"" + rest, false) == Arg("", rest)
  {
    assert ("\"\"" + rest)[1..] == "\"" + rest;
    NoBackslashes("\"");
    ClosingRead(0, rest);
    OpeningRead("\"\"" + rest);
  }

  lemma QuotedArgument(arg: string, rest: string)
    requires Delimited(rest)
    ensures ReadArg("\"" + QuoteRest(arg, 0) + rest, false) == Arg(arg, rest)
  {
    Tail('"', QuoteRest(arg, 0), rest);
    QuotedRead(arg, 0, rest);
    NoBackslashes(arg);
    OpeningRead("\"" + QuoteRest(arg, 0) + rest);
  }

  lemma OpeningRead(text: string)
    requires text != "" && text[0] == '"'
    ensures ReadArg(text, false) == ReadArg(text[1..], true)
  {
    NoBackslashes(text);
    ReadStep(0, text, false);
    NoBackslashes(ReadArg(text[1..], true).value);
  }

  function Joined(args: seq<string>): string {
    if args == [] then "" else " " + Quote(args[0]) + Joined(args[1..])
  }

  /** And so does a whole list of arguments. */
  lemma {:induction false} ArgumentsRoundTrip(args: seq<string>)
    ensures ReadArgs(Joined(args)) == args
  {
    if args != [] {
      var rest := Joined(args[1..]);
      Tail(' ', Quote(args[0]), rest);
      ArgumentRoundTrip(args[0], rest);
      ReadArgShortens(Quote(args[0]) + rest, false);
      ArgumentsRoundTrip(args[1..]);
    }
  }

  // ---- The program name ----

  lemma {:induction false} PlainProgramRead(arg: string, rest: string)
    requires Delimited(rest) && !NeedsQuotes(arg)
    ensures ReadProgram(arg + rest, false) == Arg(arg, rest)
  {
    if arg == "" {
      assert arg + rest == rest;
    } else {
      assert (arg + rest)[1..] == arg[1..] + rest;
      PlainTail(arg, 1);
      PlainProgramRead(arg[1..], rest);
      assert [arg[0]] + arg[1..] == arg;
    }
  }

  /** Without quotes inside, quoting only doubles the backslashes at the end. */
  function TrailingBackslashes(arg: string, pending: nat): nat {
    if arg == "" then pending
    else if arg[0] == '\\' then TrailingBackslashes(arg[1..], pending + 1)
    else TrailingBackslashes(arg[1..], 0)
  }

  lemma {:induction false} SlashesRead(k: nat, s: string)
    ensures ReadProgram(Backslashes(k) + s, true) == Prefixed(Backslashes(k), ReadProgram(s, true))
  {
    if k == 0 {
      assert Backslashes(0) + s == s && Backslashes(0) + ReadProgram(s, true).value == ReadProgram(s, true).value;
    } else {
      assert (Backslashes(k) + s)[1..] == Backslashes(k - 1) + s;
      SlashesRead(k - 1, s);
      assert ['\\'] + (Backslashes(k - 1) + ReadProgram(s, true).value) == Backslashes(k) + ReadProgram(s, true).value;
    }
  }

  lemma {:induction false} QuotedProgramRead(arg: string, pending: nat, rest: string)
    requires Delimited(rest) && '"' !in arg
    ensures ReadProgram(QuoteRest(arg, pending) + rest, true) ==
      Arg(Backslashes(pending) + arg + Backslashes(TrailingBackslashes(arg, pending)), rest)
    decreases |arg|
  {
    if arg == "" {
      Assoc(Backslashes(2 * pending), "\"", rest);
      SlashesRead(2 * pending, "\"" + rest);
      assert ("\"" + rest)[1..] == rest;
      assert Backslashes(2 * pending) + "" == Backslashes(pending) + "" + Backslashes(pending);
    } else if arg[0] == '\\' {
      QuotedProgramRead(arg[1..], pending + 1, rest);
      assert Backslashes(pending + 1) + arg[1..] == Backslashes(pending) + arg;
    } else {
      var tail := QuoteRest(arg[1..], 0) + rest;
      QuotedProgramRead(arg[1..], 0, rest);
      NoBackslashes(arg[1..]);
      Assoc(Backslashes(pending) + [arg[0]], QuoteRest(arg[1..], 0), rest);
      ProgramCharRead(pending, arg[0], tail);
      Uncons(arg);
      var more := Backslashes(TrailingBackslashes(arg, pending));
      Assoc(Backslashes(pending), [arg[0]], arg[1..]);
      Assoc(Backslashes(pending) + [arg[0]], arg[1..], more);
    }
  }

  lemma ProgramCharRead(pending: nat, c: char, tail: string)
    requires c != '"'
    ensures ReadProgram(Backslashes(pending) + [c] + tail, true) ==
      Prefixed(Backslashes(pending) + [c], ReadProgram(tail, true))
  {
    Assoc(Backslashes(pending), [c], tail);
    SlashesRead(pending, [c] + tail);
    assert ([c] + tail)[1..] == tail;
    Assoc(Backslashes(pending), [c], ReadProgram(tail, true).value);
  }

  lemma {:induction false} TrailingIsLast(arg: string, pending: nat)
    ensures TrailingBackslashes(arg, pending) > 0 <==>
      if arg == "" then pending > 0 else arg[|arg| - 1] == '\\'
  {
    if arg != "" { TrailingIsLast(arg[1..], if arg[0] == '\\' then pending + 1 else 0); }
  }

  lemma {:induction false} ProgramHasNoQuote(s: string, inQuotes: bool)
    ensures '"' !in ReadProgram(s, inQuotes).value
  {
    if s != "" {
      ProgramHasNoQuote(s[1..], inQuotes);
      ProgramHasNoQuote(s[1..], !inQuotes);
    }
  }

  /** The condition under which the quoting, made for arguments, also suits the program name. */
  predicate SafeProgram(exe: string) {
    '"' !in exe && (NeedsQuotes(exe) ==> exe[|exe| - 1] != '\\')
  }

  /** The program name survives exactly when it holds no quote and, if it needs quotes, does not end in
      a backslash. */
  lemma ProgramRoundTrip(exe: string, rest: string)
    requires Delimited(rest)
    ensures ReadProgram(Quote(exe) + rest, false).value == exe <==> SafeProgram(exe)
    ensures SafeProgram(exe) ==> ReadProgram(Quote(exe) + rest, false).rest == rest
  {
    if '"' in exe {
      ProgramHasNoQuote(Quote(exe) + rest, false);
    } else if exe == "" {
      assert ("\"\"" + rest)[1..] == "\"" + rest && ("\"" + rest)[1..] == rest;
      assert ReadProgram("\"" + rest, true) == ReadProgram(rest, false);
    } else if !NeedsQuotes(exe) {
      PlainProgramRead(exe, rest);
    } else {
      QuotedProgram(exe, rest);
    }
  }

  lemma QuotedProgram(exe: string, rest: string)
    requires Delimited(rest) && NeedsQuotes(exe) && '"' !in exe
    ensures ReadProgram(Quote(exe) + rest, false).rest == rest
    ensures ReadProgram(Quote(exe) + rest, false).value == exe <==> exe[|exe| - 1] != '\\'
  {
    Tail('"', QuoteRest(exe, 0), rest);
    QuotedProgramRead(exe, 0, rest);
    TrailingIsLast(exe, 0);
    NoBackslashes(exe);
    var more := Backslashes(TrailingBackslashes(exe, 0));
    assert |exe + more| == |exe| + |more|;
    if more == "" { assert exe + more == exe; }
  }

  /** A directory-like program name with a blank does not. */
  lemma ProgramCounterexample()
    ensures ReadProgram(Quote("a \\"), false).value != "a \\"
  {
    assert "a \\"[1] == ' ' && NeedsQuotes("a \\");
    assert Quote("a \\") + "" == Quote("a \\");
    QuotedProgram("a \\", "");
  }

  /** The whole command line gives back the program and all arguments exactly for such programs. */
  lemma CommandLineRoundTrip(exe: string, args: seq<string>)
    ensures ReadCommandLine(Quote(exe) + Joined(args)) == [exe] + args <==> SafeProgram(exe)
  {
    ProgramRoundTrip(exe, Joined(args));
    ArgumentsRoundTrip(args);
    assert ReadCommandLine(Quote(exe) + Joined(args))[0] == ReadProgram(Quote(exe) + Joined(args), false).value;
    assert ([exe] + args)[0] == exe;
  }

  // ---- The line that starts the backend ----

  function Option(flag: string, value: string): seq<string> {
    if value == "" then [] else [flag, value]
  }

  function BackendArgs(userData: string, filesRoot: string, token: string): seq<string> {
    Option("--user-data", userData) + ["--files-root", filesRoot] + Option("--debug-session-token", token)
  }

  /** `start`, up to the call that creates the process. */
  method BuildCommandLine(exe: string, userData: string, filesRoot: string, token: string) returns (line: string)
    ensures ReadCommandLine(line) == [exe] + BackendArgs(userData, filesRoot, token) <==> SafeProgram(exe)
  {
    ghost var args: seq<string> := [];
    line := QuoteWindowsArg(exe);
    assert line == Quote(exe) + Joined(args);
    if userData != "" {
      line := AppendFlag(line, "--user-data", userData, exe, args);
      assert [] + ["--user-data", userData] == ["--user-data", userData];
    }
    args := Option("--user-data", userData);
    line := AppendFlag(line, "--files-root", filesRoot, exe, args);
    args := args + ["--files-root", filesRoot];
    if token != "" {
      line := AppendFlag(line, "--debug-session-token", token, exe, args);
    } else {
      assert args + [] == args;
    }
    CommandLineRoundTrip(exe, BackendArgs(userData, filesRoot, token));
  }

  /** `" flag " + quoteWindowsArg(value)`; the flags have nothing to quote. */
  method AppendFlag(line: string, flag: string, value: string, ghost exe: string, ghost args: seq<string>)
    returns (longer: string)
    requires line == Quote(exe) + Joined(args)
    requires flag in ["--user-data", "--files-root", "--debug-session-token"]
    ensures longer == Quote(exe) + Joined(args + [flag, value])
  {
    PlainFlags();
    FlagJoined(flag, value);
    JoinedConcat(args, [flag, value]);
    Assoc(Quote(exe), Joined(args), Joined([flag, value]));
    var quoted := QuoteWindowsArg(value);
    longer := line + (" " + flag + " " + quoted);
  }

  predicate Plain(s: string) { forall i :: 0 <= i < |s| ==> s[i] == '-' || 'a' <= s[i] <= 'z' }

  lemma PlainFlags()
    ensures !NeedsQuotes("--user-data") && !NeedsQuotes("--files-root") && !NeedsQuotes("--debug-session-token")
  {
    assert Plain("--user-data") && Plain("--files-root") && Plain("--debug-session-token");
  }

  lemma FlagJoined(flag: string, value: string)
    requires flag != "" && !NeedsQuotes(flag)
    ensures Joined([flag, value]) == " " + flag + " " + Quote(value)
  {
    assert [flag, value][1..] == [value] && [value][1..] == [];
    assert Joined([value]) == " " + Quote(value);
    Assoc(" " + flag, " ", Quote(value));
  }

  lemma {:induction false} JoinedConcat(a: seq<string>, b: seq<string>)
    ensures Joined(a + b) == Joined(a) + Joined(b)
  {
    if a == [] {
      assert a + b == b;
    } else {
      assert (a + b)[1..] == a[1..] + b;
      JoinedConcat(a[1..], b);
    }
  }
}
