/** The "did you mean" scan of APP/shell/command.cpp over the registered commands. */
module Suggestion {
  import opened Ascii
  import opened EditDistance

  /** A registered command as the scan sees it: `permitted` is `hasCommandPermission` for the user. */
  datatype Command =
    Command(name: string, aliases: seq<string>, hidden: bool, permitted: bool, allowArguments: bool) {
    predicate Visible() { !hidden && permitted }
    predicate Called(word: string) { name == word || word in aliases }
    function Candidates(): seq<string> { if Visible() then [name] + aliases else [] }
  }

  function Candidates(commands: seq<Command>): seq<string> {
    if commands == [] then [] else commands[0].Candidates() + Candidates(commands[1..])
  }

  /** `iss >> token`. */
  function FirstWord(input: string): string {
    if input == "" then ""
    else if IsSpace(input[0]) then FirstWord(input[1..])
    else Word(input)
  }

  function Word(input: string): string {
    if input == "" || IsSpace(input[0]) then "" else [input[0]] + Word(input[1..])
  }

  /** What is left of the stream after the first word. */
  function AfterWord(input: string): string {
    if input == "" then ""
    else if IsSpace(input[0]) then AfterWord(input[1..])
    else Rest(input)
  }

  function Rest(input: string): string {
    if input == "" || IsSpace(input[0]) then input else Rest(input[1..])
  }

  /** `iss >> extra` finds another word. */
  predicate HasExtra(input: string) { FirstWord(AfterWord(input)) != "" }

  /** `tryExecuteRegisteredCommand` takes the input: the first command of that name, hidden or not, unless it
      allows no arguments and there is one. A command without permission is refused there. */
  predicate Executes(input: string, commands: seq<Command>)
    decreases commands
  {
    FirstWord(input) != "" && commands != []
    && if commands[0].Called(FirstWord(input)) then commands[0].allowArguments || !HasExtra(input)
       else Executes(input, commands[1..])
  }

  method TryExecute(input: string, commands: seq<Command>) returns (taken: bool)
    ensures taken == Executes(input, commands)
  {
    var word := FirstWord(input);
    if word == "" { return false; }
    for i := 0 to |commands|
      invariant Executes(input, commands) == Executes(input, commands[i..])
    {
      assert commands[i..][1..] == commands[i + 1..];
      if commands[i].Called(word) { return commands[i].allowArguments || !HasExtra(input); }
    }
    taken := false;
  }

  datatype Guess = Guess(dist: nat, text: string)

  function Consider(token: string, candidate: string, best: Guess): Guess {
    var d := Distance(token, candidate);
    if d < best.dist then Guess(d, candidate) else best
  }

  function ConsiderAll(token: string, candidates: seq<string>, best: Guess): Guess {
    if candidates == [] then best
    else Consider(token, candidates[|candidates| - 1], ConsiderAll(token, candidates[..|candidates| - 1], best))
  }

  /** The scan with its early end: after a command that brought the best distance to 1. */
  function Scan(token: string, commands: seq<Command>, best: Guess): Guess
    decreases commands
  {
    if commands == [] then best
    else if !commands[0].Visible() then Scan(token, commands[1..], best)
    else
      var next := ConsiderAll(token, commands[0].Candidates(), best);
      if next.dist == 1 then next else Scan(token, commands[1..], next)
  }

  const NOTHING := Guess(3, "")

  function Suggest(input: string, commands: seq<Command>): string {
    var token := FirstWord(input);
    if token == "" then "" else
    var best := Scan(token, commands, NOTHING);
    if 1 <= best.dist <= 2 then best.text else ""
  }

  method ConsiderCandidate(token: string, candidate: string, best: Guess) returns (r: Guess)
    ensures r == Consider(token, candidate, best)
  {
    var dist := BoundedLevenshtein(token, candidate, best.dist - 1);
    if dist < best.dist { return Guess(dist, candidate); }
    return best;
  }

  method GuessSimilarCommand(input: string, commands: seq<Command>) returns (text: string)
    ensures text == Suggest(input, commands)
  {
    var token := FirstWord(input);
    if token == "" { return ""; }
    var best := NOTHING;
    for i := 0 to |commands|
      invariant Scan(token, commands, NOTHING) == Scan(token, commands[i..], best)
    {
      var command := commands[i];
      assert commands[i..][1..] == commands[i + 1..];
      if command.hidden || !command.permitted { continue; }
      ghost var before := best;
      var all := command.Candidates();
      for j := 0 to |all|
        invariant best == ConsiderAll(token, all[..j], before)
      {
        assert all[..j + 1][..j] == all[..j];
        best := ConsiderCandidate(token, all[j], best);
      }
      assert all[..|all|] == all;
      if best.dist == 1 { break; }
    }
    return if 1 <= best.dist <= 2 then best.text else "";
  }

  // ---- What the scan finds ----

  /** `g` is the first of the candidates that are nearest to the token, if one is nearer than 3. */
  ghost predicate FirstNearest(token: string, candidates: seq<string>, g: Guess) {
    && (forall j :: 0 <= j < |candidates| ==> g.dist <= Distance(token, candidates[j]))
    && (g == NOTHING || exists k: nat :: FirstAt(token, candidates, g, k))
  }

  ghost predicate FirstAt(token: string, candidates: seq<string>, g: Guess, k: nat) {
    && k < |candidates| && g.text == candidates[k] && g.dist == Distance(token, g.text) < 3
    && forall j :: 0 <= j < k ==> g.dist < Distance(token, candidates[j])
  }

  lemma ConsiderNearest(token: string, candidates: seq<string>, c: string, g: Guess)
    requires FirstNearest(token, candidates, g)
    ensures FirstNearest(token, candidates + [c], Consider(token, c, g))
  {
    var all, r := candidates + [c], Consider(token, c, g);
    assert forall j :: 0 <= j < |candidates| ==> all[j] == candidates[j];
    if r != g {
      assert FirstAt(token, all, r, |candidates|);
    } else if g != NOTHING {
      var k: nat :| FirstAt(token, candidates, g, k);
      assert FirstAt(token, all, g, k);
    }
  }

  lemma {:induction false} ConsiderAllNearest(token: string, before: seq<string>, candidates: seq<string>, best: Guess)
    requires FirstNearest(token, before, best)
    ensures FirstNearest(token, before + candidates, ConsiderAll(token, candidates, best))
  {
    if candidates == [] {
      assert before + candidates == before;
    } else {
      var init, c := candidates[..|candidates| - 1], candidates[|candidates| - 1];
      ConsiderAllNearest(token, before, init, best);
      ConsiderNearest(token, before + init, c, ConsiderAll(token, init, best));
      assert before + candidates == before + init + [c];
    }
  }

  /** What the candidates of one command keep, the scan keeps for the commands it looks at: some first ones, and all
      of them unless the best distance is then 1. */
  lemma {:induction false} ScanKeeps(token: string, commands: seq<Command>, before: seq<string>, best: Guess,
      p: (seq<string>, Guess) -> bool)
    returns (n: nat)
    requires p(before, best) && forall s, all, g :: p(s, g) ==> p(s + all, ConsiderAll(token, all, g))
    ensures n <= |commands| && p(before + Candidates(commands[..n]), Scan(token, commands, best))
    ensures n < |commands| ==> Scan(token, commands, best).dist == 1
    decreases commands
  {
    if commands == [] {
      n := 0;
      assert before + Candidates(commands[..n]) == before;
    } else {
      var all := commands[0].Candidates();
      var next := ConsiderAll(token, all, best);
      assert p(before + all, next);
      ScanStep(token, commands, best);
      if commands[0].Visible() && next.dist == 1 {
        n := 1;
        FirstCandidates(commands, before, 0);
        assert before + all + [] == before + all;
      } else {
        var m := ScanKeeps(token, commands[1..], before + all, next, p);
        n := m + 1;
        FirstCandidates(commands, before, m);
      }
    }
  }

  /** So it finds the first nearest of their candidates. */
  lemma ScanFindsNearest(token: string, commands: seq<Command>) returns (n: nat)
    ensures n <= |commands|
    ensures FirstNearest(token, Candidates(commands[..n]), Scan(token, commands, NOTHING))
    ensures n < |commands| ==> Scan(token, commands, NOTHING).dist == 1
  {
    var p := (s, g) => FirstNearest(token, s, g);
    forall s, all, g | p(s, g) ensures p(s + all, ConsiderAll(token, all, g)) {
      ConsiderAllNearest(token, s, all, g);
    }
    n := ScanKeeps(token, commands, [], NOTHING, p);
    assert [] + Candidates(commands[..n]) == Candidates(commands[..n]);
  }

  lemma ScanStep(token: string, commands: seq<Command>, best: Guess)
    requires commands != []
    ensures var next := ConsiderAll(token, commands[0].Candidates(), best);
      Scan(token, commands, best) ==
        if commands[0].Visible() && next.dist == 1 then next else Scan(token, commands[1..], next)
  {
  }

  lemma FirstCandidates(commands: seq<Command>, before: seq<string>, m: nat)
    requires commands != [] && m < |commands|
    ensures before + Candidates(commands[..m + 1]) == before + commands[0].Candidates() + Candidates(commands[1..][..m])
    ensures Candidates(commands[1..][..0]) == []
  {
    assert commands[..m + 1][1..] == commands[1..][..m];
  }

  lemma {:induction false} CandidatesConcat(a: seq<Command>, b: seq<Command>)
    ensures Candidates(a + b) == Candidates(a) + Candidates(b)
  {
    if a == [] {
      assert a + b == b;
    } else {
      assert (a + b)[1..] == a[1..] + b;
      CandidatesConcat(a[1..], b);
    }
  }

  /** The scan as a whole: `seen` are the candidates it looked at, all of them or, once the best distance
      is 1, only those up to there. */
  lemma ScanSummary(token: string, commands: seq<Command>) returns (seen: seq<string>)
    ensures seen <= Candidates(commands)
    ensures FirstNearest(token, seen, Scan(token, commands, NOTHING))
    ensures seen == Candidates(commands) || Scan(token, commands, NOTHING).dist == 1
  {
    var n := ScanFindsNearest(token, commands);
    seen := Candidates(commands[..n]);
    assert commands == commands[..n] + commands[n..];
    CandidatesConcat(commands[..n], commands[n..]);
    if n == |commands| { assert Candidates(commands[n..]) == []; }
  }

  /** A suggestion is the first nearest of the candidates scanned, at true distance 1 or 2. */
  lemma SuggestionIsFirstNearest(input: string, commands: seq<Command>) returns (seen: seq<string>)
    requires Suggest(input, commands) != ""
    ensures seen <= Candidates(commands)
    ensures var token, r := FirstWord(input), Suggest(input, commands);
      && 1 <= Distance(token, r) <= 2
      && FirstNearest(token, seen, Guess(Distance(token, r), r))
      && (seen == Candidates(commands) || Distance(token, r) == 1)
  {
    seen := ScanSummary(FirstWord(input), commands);
  }

  /** And nothing is suggested only when nothing is near: no candidate within distance 2, the token
      itself being none of them. */
  lemma NoSuggestion(input: string, commands: seq<Command>)
    requires var token, all := FirstWord(input), Candidates(commands); token != "" && token !in all && "" !in all
    ensures var token, all := FirstWord(input), Candidates(commands);
      Suggest(input, commands) == "" <==> forall j :: 0 <= j < |all| ==> Distance(token, all[j]) > 2
  {
    var token, all := FirstWord(input), Candidates(commands);
    var seen := ScanSummary(token, commands);
    var best := Scan(token, commands, NOTHING);
    if best != NOTHING {
      var k: nat :| FirstAt(token, seen, best, k);
      assert all[k] == seen[k];
      DistanceZero(token, all[k]);
    }
  }

  /** Because the scan may stop early, a suggestion is nearest among all visible candidates exactly when
      the token is not itself one of them. */
  lemma SuggestionNearestOfAll(input: string, commands: seq<Command>)
    requires Suggest(input, commands) != ""
    ensures var token, r, all := FirstWord(input), Suggest(input, commands), Candidates(commands);
      (forall j :: 0 <= j < |all| ==> Distance(token, r) <= Distance(token, all[j])) <==> token !in all
  {
    var token, r, all := FirstWord(input), Suggest(input, commands), Candidates(commands);
    var seen := SuggestionIsFirstNearest(input, commands);
    forall j | 0 <= j < |all| ensures Distance(token, all[j]) == 0 <==> token == all[j] {
      DistanceZero(token, all[j]);
    }
  }

  /** A word that is a candidate is executed when it stands alone. */
  lemma {:induction false} CandidateExecutes(input: string, commands: seq<Command>)
    requires FirstWord(input) != "" && FirstWord(input) in Candidates(commands) && !HasExtra(input)
    ensures Executes(input, commands)
  {
    if !commands[0].Called(FirstWord(input)) { CandidateExecutes(input, commands[1..]); }
  }

  /** So what the shell suggests for an unknown command is nearest among all visible candidates when the command was
      given without arguments; with arguments, exactly when its word is no candidate. */
  lemma ShellSuggestionNearest(input: string, commands: seq<Command>)
    requires !Executes(input, commands) && Suggest(input, commands) != ""
    ensures var token, r, all := FirstWord(input), Suggest(input, commands), Candidates(commands);
      (forall j :: 0 <= j < |all| ==> Distance(token, r) <= Distance(token, all[j])) <==>
      !HasExtra(input) || token !in all
  {
    SuggestionNearestOfAll(input, commands);
    if !HasExtra(input) && FirstWord(input) in Candidates(commands) { CandidateExecutes(input, commands); }
  }

  /** The early end does hide an exact match: for "abc x", which "abc" does not take because it allows no arguments,
      "abd" is suggested. */
  lemma ExactMatchMissed()
    ensures var commands := [Command("abd", [], false, true, false), Command("abc", [], false, true, false)];
      !Executes("abc x", commands) && Suggest("abc x", commands) == "abd" && "abc" in Candidates(commands)
  {
    var first, second := Command("abd", [], false, true, false), Command("abc", [], false, true, false);
    AbdSuggested(first, second);
    AbcNotExecuted(first, second);
    SuggestsFor("abc x", "abc", [first, second], Guess(1, "abd"));
    CandidateOf([first, second], 1);
  }

  lemma SuggestsFor(input: string, word: string, commands: seq<Command>, best: Guess)
    requires input == "abc x" && word == "abc" && Scan(word, commands, NOTHING) == best && best.dist == 1
    ensures Suggest(input, commands) == best.text
  {
    WordAbc();
  }

  lemma {:induction false} CandidateOf(commands: seq<Command>, i: nat)
    requires i < |commands| && commands[i].Visible()
    ensures commands[i].name in Candidates(commands)
  {
    if i == 0 {
      assert commands[0].Candidates()[0] == commands[0].name;
    } else {
      CandidateOf(commands[1..], i - 1);
    }
  }

  lemma AbcNotExecuted(first: Command, second: Command)
    requires first.name == "abd" && first.aliases == [] && second.name == "abc" && !second.allowArguments
    ensures !Executes("abc x", [first, second])
  {
    WordAbc();
    assert second.Called("abc") && !first.Called("abc") && [first, second][1..] == [second];
    assert !Executes("abc x", [second]);
  }

  lemma AbdSuggested(first: Command, second: Command)
    requires first == Command("abd", [], false, true, false)
    ensures Scan("abc", [first, second], NOTHING) == Guess(1, "abd")
  {
    DistanceAbc();
    ScanStep("abc", [first, second], NOTHING);
    assert first.Candidates() == ["abd"] && ["abd"][..0] == [];
    assert ConsiderAll("abc", [], NOTHING) == NOTHING;
    assert ConsiderAll("abc", ["abd"], NOTHING) == Guess(1, "abd");
  }

  lemma WordAbc()
    ensures FirstWord("abc x") == "abc" && HasExtra("abc x")
  {
    assert "abc x"[1..] == "bc x" && "bc x"[1..] == "c x" && "c x"[1..] == " x" && " x"[1..] == "x" && "x"[1..] == "";
    assert Word(" x") == "" && Word("c x") == "c" && Word("bc x") == "bc";
    assert Rest(" x") == " x" && Rest("c x") == " x" && Rest("bc x") == " x";
  }

  lemma DistanceAbc()
    ensures Distance("abc", "abd") == 1
  {
    assert Init("abc") == "ab" && Init("abd") == "ab";
    DistanceToSelf("ab");
    DistanceZero("abc", "abd");
    assert Distance("abc", "abd") <= 1 by { DistanceStep("abc", "abd", "ab", "ab"); }
  }

  // ---- History ----

  const MAX_HISTORY: nat := 100

  /** The history update of `task_main`: no immediate repetition, at most a hundred entries. */
  function Remembered(history: seq<string>, input: string): seq<string> {
    if history != [] && history[|history| - 1] == input then history
    else (if |history| >= MAX_HISTORY then history[1..] else history) + [input]
  }
}
