/** What the backend makes of its arguments, `parseArgs` of BACKEND/stdio/main.cpp: it starts with exactly the values
    that the client gave. */
module BackendStart {
  import opened CommandLine
  import opened Wrappers

  datatype Settings = Settings(userData: string, filesRoot: string, token: string)

  const DEFAULTS := Settings("user_data.dat", "Files", "")

  const FLAGS := ["--user-data", "--files-root", "--debug-session-token"]

  function Set(s: Settings, flag: string, value: string): Settings {
    if flag == "--user-data" then s.(userData := value)
    else if flag == "--files-root" then s.(filesRoot := value)
    else s.(token := value)
  }

  /** The settings after the arguments behind the program's name; nothing when the usage is printed instead. */
  function Parsed(args: seq<string>, s: Settings): Option<Settings> {
    if args == [] then Some(s)
    else if args[0] !in FLAGS || |args| == 1 || args[1] == "" then None
    else Parsed(args[2..], Set(s, args[0], args[1]))
  }

  method ParseArgs(argv: seq<string>) returns (r: Option<Settings>)
    requires argv != []
    ensures r == Parsed(argv[1..], DEFAULTS)
  {
    var s, i := DEFAULTS, 1;
    while i < |argv|
      invariant 1 <= i <= |argv| && Parsed(argv[1..], DEFAULTS) == Parsed(argv[i..], s)
    {
      var arg := argv[i];
      if arg != "--user-data" && arg != "--files-root" && arg != "--debug-session-token" { return None; }
      if i + 1 >= |argv| { return None; }
      var value := argv[i + 1];
      if value == "" { return None; }
      assert argv[i..][2..] == argv[i + 2..];
      if arg == "--user-data" {
        s := s.(userData := value);
      } else if arg == "--files-root" {
        s := s.(filesRoot := value);
      } else {
        s := s.(token := value);
      }
      i := i + 2;
    }
    r := Some(s);
  }

  lemma ParsedPair(flag: string, value: string, rest: seq<string>, s: Settings)
    requires flag in FLAGS
    ensures Parsed([flag, value] + rest, s) == if value == "" then None else Parsed(rest, Set(s, flag, value))
  {
    assert ([flag, value] + rest)[2..] == rest;
  }

  /** A user file or a token that is not given is left at its default; a files root must be given. */
  lemma StartsWithWhatIsGiven(userData: string, filesRoot: string, token: string)
    ensures Parsed(BackendArgs(userData, filesRoot, token), DEFAULTS) ==
      if filesRoot == "" then None
      else Some(Settings(if userData == "" then "user_data.dat" else userData, filesRoot, token))
  {
    var last := CommandLine.Option("--debug-session-token", token);
    var middle := ["--files-root", filesRoot] + last;
    var s := if userData == "" then DEFAULTS else DEFAULTS.(userData := userData);
    FlagsDiffer();
    assert BackendArgs(userData, filesRoot, token) == CommandLine.Option("--user-data", userData) + middle;
    if userData != "" { ParsedPair("--user-data", userData, middle, DEFAULTS); } else { assert [] + middle == middle; }
    ParsedPair("--files-root", filesRoot, last, s);
    if token != "" {
      assert last + [] == last;
      ParsedPair("--debug-session-token", token, [], s.(filesRoot := filesRoot));
    }
  }

  lemma FlagsDiffer()
    ensures "--user-data" in FLAGS && "--files-root" in FLAGS && "--debug-session-token" in FLAGS
    ensures "--files-root" != "--user-data" && "--debug-session-token" != "--user-data"
    ensures "--debug-session-token" != "--files-root"
  {
    assert FLAGS[0] == "--user-data" && FLAGS[1] == "--files-root" && FLAGS[2] == "--debug-session-token";
  }

  /** From the client to the backend: a command line whose program name the runtime reads back starts the backend
      with what the client was given, unless the files root is empty: then it prints its usage and ends. */
  method StartBackend(exe: string, userData: string, filesRoot: string, token: string) returns (r: Option<Settings>)
    ensures SafeProgram(exe) ==> r == if filesRoot == "" then None
      else Some(Settings(if userData == "" then "user_data.dat" else userData, filesRoot, token))
  {
    var line := BuildCommandLine(exe, userData, filesRoot, token);
    StartsWithWhatIsGiven(userData, filesRoot, token);
    assert ([exe] + BackendArgs(userData, filesRoot, token))[1..] == BackendArgs(userData, filesRoot, token);
    var argv := ReadCommandLine(line);
    r := ParseArgs(argv);
  }
}
