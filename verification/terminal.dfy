/** The simulated terminal: a state machine over the printed lines, the
    input box, the command history with its browsing index, and the current
    directory. Commands are parsed by trimming, lower-casing and splitting on
    single spaces, and dispatched on the first token to canned replies. */
module Terminal {
  import opened Strings
  import opened Sequences

  datatype LineKind = InputLine | OutputLine | ErrorLine

  /** A printed line; the source's `id` and `timestamp` come from the clock and are not modelled. */
  datatype Line = Line(kind: LineKind, content: string)

  datatype State = State(
    lines: seq<Line>,
    input: string,
    history: seq<string>,
    historyIndex: int,
    cwd: string)

  const HelpHint := "Type \"help\" for available commands"

  /** The state when the terminal is mounted. */
  function Initial(): (s: State)
    ensures Valid(s) && s.history == [] && s.cwd == "/workspace"
  {
    State([Line(OutputLine, "Welcome to Zapterminal ghost"), Line(OutputLine, HelpHint)], "", [], -1, "/workspace")
  }

  /** The browsing index is -1 (not browsing) or points into the history. */
  predicate Valid(s: State) {
    -1 <= s.historyIndex < |s.history|
  }

  /** The command names Tab completes; the dispatcher answers exactly these. */
  const Commands: seq<string> :=
    ["help", "clear", "ls", "pwd", "cd", "mkdir", "touch", "cat", "echo", "date",
     "whoami", "node", "python", "npm", "git"]

  const HelpLines: seq<string> := [
    "Available commands:",
    "  help          - Show this help message",
    "  clear         - Clear terminal",
    "  ls            - List directory contents",
    "  pwd           - Print working directory",
    "  cd <dir>      - Change directory",
    "  mkdir <dir>   - Create directory",
    "  touch <file>  - Create file",
    "  cat <file>    - Display file contents",
    "  echo <text>   - Display text",
    "  date          - Show current date and time",
    "  whoami        - Show current user",
    "  node <file>   - Run JavaScript file",
    "  python <file> - Run Python file"]

  const ListingLines: seq<string> :=
    ["src/", "components/", "utils/", "package.json", "README.md", "tsconfig.json"]

  // ---------------------------------------------------------------------------
  // Parsing

  /** `command.trim().toLowerCase().split(' ')` */
  function Tokens(command: string): (args: seq<string>)
    ensures |args| >= 1
  {
    Split(Lower(Trim(command)), ' ')
  }

  /** The dispatch key `args[0]`. */
  function BaseCommand(command: string): string {
    Tokens(command)[0]
  }

  /** `args[k]`, with a missing token read as the empty string: the source only
      tests such a token for truthiness or compares it with non-empty literals. */
  function Arg(args: seq<string>, k: nat): string {
    if k < |args| then args[k] else ""
  }

  /** The dispatch key is the first token of the trimmed, lower-cased command:
      its longest prefix without a space. */
  lemma BaseIsFirstToken(command: string)
    ensures var t := Lower(Trim(command)); var b := BaseCommand(command);
      b <= t && ' ' !in b && (b == t || t[|b|] == ' ')
  {
    SplitHead(Lower(Trim(command)), ' ');
    SplitPiecesFree(Lower(Trim(command)), ' ');
  }

  // ---------------------------------------------------------------------------
  // cd

  /** `cd ..`: the last `/`-separated segment is dropped; an empty result is `/`. */
  function ParentDirectory(cwd: string): string {
    var parts := Split(cwd, '/');
    var joined := Join(parts[..|parts| - 1], '/');
    if joined == "" then "/" else joined
  }

  /** The new directory for a non-empty `cd` argument. */
  function ChangeDirectory(cwd: string, target: string): string {
    if target == ".." then ParentDirectory(cwd)
    else if target == "/" then "/"
    else cwd + "/" + target
  }

  /** `cd ..` keeps everything before the last slash, and `/` when that is empty. */
  lemma {:induction false} ParentCutsAtLastSlash(cwd: string, i: nat)
    requires i < |cwd| && cwd[i] == '/' && '/' !in cwd[i + 1..]
    ensures ParentDirectory(cwd) == if i == 0 then "/" else cwd[..i]
  {
    assert cwd == cwd[..i] + ['/'] + cwd[i + 1..];
    SplitAround(cwd[..i], cwd[i + 1..], '/');
    SplitWithoutSeparator(cwd[i + 1..], '/');
    var parts := Split(cwd, '/');
    assert parts[..|parts| - 1] == Split(cwd[..i], '/');
    JoinSplit(cwd[..i], '/');
  }

  /** A directory without a slash has `/` as its parent. */
  lemma ParentWithoutSlash(cwd: string)
    requires '/' !in cwd
    ensures ParentDirectory(cwd) == "/"
  {
    SplitWithoutSeparator(cwd, '/');
  }

  /** `cd ..` from `/` stays at `/`. */
  lemma ParentOfRoot()
    ensures ParentDirectory("/") == "/"
  {
    ParentCutsAtLastSlash("/", 0);
  }

  /** Entering a sub-directory and then `cd ..` returns to where one started. */
  lemma ChildThenParent(cwd: string, name: string)
    requires cwd != [] && '/' !in name && name != ".." && name != "/"
    ensures ParentDirectory(ChangeDirectory(cwd, name)) == cwd
  {
    var c := cwd + "/" + name;
    assert c[|cwd| + 1..] == name;
    ParentCutsAtLastSlash(c, |cwd|);
    assert c[..|cwd|] == cwd;
  }

  // ---------------------------------------------------------------------------
  // executeCommand

  /** What a command does: print some lines (and perhaps move to another
      directory), clear the screen, or report an unknown command. */
  datatype Reply = Printed(texts: seq<string>, cwd: string) | Cleared | Unknown(base: string)

  function Out(ss: seq<string>): (r: seq<Line>)
    ensures |r| == |ss|
    ensures forall i :: 0 <= i < |r| ==> r[i] == Line(OutputLine, ss[i])
  {
    if ss == [] then [] else [Line(OutputLine, ss[0])] + Out(ss[1..])
  }

  /** The dispatch table of `executeCommand`. */
  function Respond(command: string, cwd: string, now: string): Reply {
    var args := Tokens(command);
    Dispatch(args[0], Arg(args, 1), command, cwd, now)
  }

  /** The `switch` on the first token `base`; `arg` is the second token.
      `now` is the clock text `date` prints; the source's delayed second line
      of `npm install` is not modelled. */
  function Dispatch(base: string, arg: string, command: string, cwd: string, now: string): Reply {
    match base
    case "help" => Printed(HelpLines, cwd)
    case "clear" => Cleared
    case "ls" => Printed(ListingLines, cwd)
    case "pwd" => Printed([cwd], cwd)
    case "cd" =>
      if arg != "" then Printed(["Changed directory to " + cwd], ChangeDirectory(cwd, arg))
      else Printed(["Usage: cd <directory>"], cwd)
    case "mkdir" =>
      Printed(if arg != "" then ["Directory '" + arg + "' created"] else ["Usage: mkdir <directory_name>"], cwd)
    case "touch" =>
      Printed(if arg != "" then ["File '" + arg + "' created"] else ["Usage: touch <filename>"], cwd)
    case "cat" =>
      Printed(if arg != "" then ["Contents of " + arg + ":", "// Sample file content", "console.log(\"Hello, World!\");"]
              else ["Usage: cat <filename>"], cwd)
    case "echo" => Printed([Substring(command, 5)], cwd)
    case "date" => Printed([now], cwd)
    case "whoami" => Printed(["developer"], cwd)
    case "node" =>
      Printed(if arg != "" then ["Running " + arg + "...", "Hello, World!", "Process finished with exit code 0"]
              else ["Usage: node <filename.js>"], cwd)
    case "python" =>
      Printed(if arg != "" then ["Running " + arg + "...", "Hello, World!", "Process finished with exit code 0"]
              else ["Usage: python <filename.py>"], cwd)
    case "npm" =>
      Printed(if arg == "install" then ["Installing dependencies..."]
              else if arg == "start" then ["Starting development server...", "Server running on http://localhost:3000"]
              else ["npm command executed"], cwd)
    case "git" =>
      Printed(if arg == "status" then ["On branch main", "Your branch is up to date with 'origin/main'.", "nothing to commit, working tree clean"]
              else if arg == "add" then ["Files staged for commit"]
              else if arg == "commit" then ["Changes committed successfully"]
              else ["Git command executed"], cwd)
    case "" => Printed([], cwd)
    case _ => Unknown(base)
  }

  /** `executeCommand`: the prompt echo `cwd$ command` is printed first, a
      non-blank command is recorded verbatim in the history, then the reply
      follows; `clear` replaces every line, the echo included, by none. */
  function Execute(s: State, command: string, now: string): State {
    Apply(s, command, Respond(command, s.cwd, now))
  }

  /** The state update `executeCommand` makes for a given reply. */
  function Apply(s: State, command: string, reply: Reply): State {
    var prompt := Line(InputLine, s.cwd + "$ " + command);
    var history := if Trim(command) != "" then s.history + [command] else s.history;
    match reply
    case Printed(texts, cwd) => s.(lines := s.lines + [prompt] + Out(texts), history := history, cwd := cwd)
    case Cleared => s.(lines := [], history := history)
    case Unknown(base) =>
      s.(lines := s.lines + [prompt, Line(ErrorLine, "Command not found: " + base), Line(OutputLine, HelpHint)],
         history := history)
  }

  lemma ApplyErrorIffUnknown(s: State, command: string, reply: Reply)
    ensures var r := Apply(s, command, reply);
      (exists i :: |s.lines| <= i < |r.lines| && r.lines[i].kind == ErrorLine) <==> reply.Unknown?
  {
    var r := Apply(s, command, reply);
    if reply.Unknown? {
      assert r.lines[|s.lines| + 1].kind == ErrorLine;
    } else if reply.Printed? {
      var prompt := Line(InputLine, s.cwd + "$ " + command);
      var o := Out(reply.texts);
      assert r.lines == s.lines + [prompt] + o;
      forall i | |s.lines| <= i < |r.lines|
        ensures r.lines[i].kind != ErrorLine
      {
        if i == |s.lines| {
          assert r.lines[i] == prompt;
        } else {
          assert r.lines[i] == o[i - |s.lines| - 1];
        }
      }
    }
  }

  /** The dispatcher answers exactly the command names Tab completes (and the
      empty command); every other first token is reported unknown. */
  lemma DispatchKnowsCommands(base: string, arg: string, command: string, cwd: string, now: string)
    ensures Dispatch(base, arg, command, cwd, now).Unknown? <==> (base != "" && base !in Commands)
    ensures Dispatch(base, arg, command, cwd, now).Unknown? ==> Dispatch(base, arg, command, cwd, now).base == base
  {
  }

  /** A command prints an error line iff its first token is neither empty nor a
      listed command, and then it prints the prompt echo, the error naming that
      token and the help hint, and stays in its directory. */
  lemma ErrorIffUnknown(s: State, command: string, now: string)
    ensures var r := Execute(s, command, now); var base := BaseCommand(command);
      (exists i :: |s.lines| <= i < |r.lines| && r.lines[i].kind == ErrorLine) <==> (base != "" && base !in Commands)
    ensures var base := BaseCommand(command);
      base != "" && base !in Commands ==>
        Execute(s, command, now).lines ==
          s.lines + [Line(InputLine, s.cwd + "$ " + command), Line(ErrorLine, "Command not found: " + base), Line(OutputLine, HelpHint)] &&
        Execute(s, command, now).cwd == s.cwd
  {
    var args := Tokens(command);
    var reply := Respond(command, s.cwd, now);
    DispatchKnowsCommands(args[0], Arg(args, 1), command, s.cwd, now);
    ApplyErrorIffUnknown(s, command, reply);
  }

  /** Every command but `clear` keeps the earlier lines and prints the prompt
      echo after them; `clear` leaves no line at all. */
  lemma ExecuteEchoesPrompt(s: State, command: string, now: string)
    ensures var r := Execute(s, command, now);
      if BaseCommand(command) == "clear" then r.lines == []
      else |r.lines| > |s.lines| && r.lines[..|s.lines|] == s.lines &&
           r.lines[|s.lines|] == Line(InputLine, s.cwd + "$ " + command)
  {
    var args := Tokens(command);
    DispatchClears(args[0], Arg(args, 1), command, s.cwd, now);
    ApplyEchoes(s, command, Respond(command, s.cwd, now));
  }

  lemma DispatchClears(base: string, arg: string, command: string, cwd: string, now: string)
    ensures Dispatch(base, arg, command, cwd, now).Cleared? <==> base == "clear"
  {
  }

  lemma ApplyEchoes(s: State, command: string, reply: Reply)
    ensures var r := Apply(s, command, reply);
      if reply.Cleared? then r.lines == []
      else |r.lines| > |s.lines| && r.lines[..|s.lines|] == s.lines &&
           r.lines[|s.lines|] == Line(InputLine, s.cwd + "$ " + command)
  {
  }

  /** The history gains the command, verbatim and at the end, iff it is not blank. */
  lemma ExecuteRecordsHistory(s: State, command: string, now: string)
    ensures var r := Execute(s, command, now);
      if IsBlank(command) then r.history == s.history
      else |r.history| == |s.history| + 1 && r.history[..|s.history|] == s.history &&
           r.history[|s.history|] == command
  {
    ApplyHistory(s, command, Respond(command, s.cwd, now));
  }

  /** The history update does not depend on the reply. */
  lemma ApplyHistory(s: State, command: string, reply: Reply)
    ensures Apply(s, command, reply).history == if IsBlank(command) then s.history else s.history + [command]
  {
  }

  /** A blank command prints only the prompt echo and changes nothing else. */
  lemma BlankCommandPrintsPrompt(s: State, command: string, now: string)
    requires IsBlank(command)
    ensures Execute(s, command, now) == s.(lines := s.lines + [Line(InputLine, s.cwd + "$ " + command)])
  {
    assert Trim(command) == [];
    assert Lower([]) == [];
    assert Split([], ' ') == [[]];
    var args := Tokens(command);
    assert args == [[]];
    DispatchEmpty(Arg(args, 1), command, s.cwd, now);
    ApplyPrinted(s, command, [], s.cwd);
  }

  lemma DispatchEmpty(arg: string, command: string, cwd: string, now: string)
    ensures Dispatch("", arg, command, cwd, now) == Printed([], cwd)
  {
  }

  lemma ApplyPrinted(s: State, command: string, texts: seq<string>, cwd: string)
    ensures Apply(s, command, Printed(texts, cwd)).cwd == cwd
    ensures Apply(s, command, Printed(texts, cwd)).lines == s.lines + [Line(InputLine, s.cwd + "$ " + command)] + Out(texts)
  {
  }

  /** The reply of `cd`. */
  lemma RespondCd(command: string, cwd: string, now: string)
    requires BaseCommand(command) == "cd"
    ensures var arg := Arg(Tokens(command), 1);
      Respond(command, cwd, now) ==
        if arg != "" then Printed(["Changed directory to " + cwd], ChangeDirectory(cwd, arg))
        else Printed(["Usage: cd <directory>"], cwd)
  {
  }

  /** `cd` with an argument moves by `ChangeDirectory` and reports the directory
      it left; without one the directory stays and the usage line is printed. */
  lemma CdReportsOldDirectory(s: State, command: string, now: string)
    requires BaseCommand(command) == "cd"
    ensures var r := Execute(s, command, now); var arg := Arg(Tokens(command), 1);
      if arg != "" then
        r.cwd == ChangeDirectory(s.cwd, arg) &&
        r.lines == s.lines + [Line(InputLine, s.cwd + "$ " + command), Line(OutputLine, "Changed directory to " + s.cwd)]
      else
        r.cwd == s.cwd &&
        r.lines == s.lines + [Line(InputLine, s.cwd + "$ " + command), Line(OutputLine, "Usage: cd <directory>")]
  {
    var arg := Arg(Tokens(command), 1);
    if arg != "" {
      CdMoves(s, command, now, arg);
    } else {
      CdUsage(s, command, now);
    }
  }

  lemma CdMoves(s: State, command: string, now: string, arg: string)
    requires BaseCommand(command) == "cd" && arg == Arg(Tokens(command), 1) && arg != ""
    ensures Execute(s, command, now).cwd == ChangeDirectory(s.cwd, arg)
    ensures Execute(s, command, now).lines ==
      s.lines + [Line(InputLine, s.cwd + "$ " + command), Line(OutputLine, "Changed directory to " + s.cwd)]
  {
    RespondCd(command, s.cwd, now);
    ApplyPrinted(s, command, ["Changed directory to " + s.cwd], ChangeDirectory(s.cwd, arg));
  }

  lemma CdUsage(s: State, command: string, now: string)
    requires BaseCommand(command) == "cd" && Arg(Tokens(command), 1) == ""
    ensures Execute(s, command, now).cwd == s.cwd
    ensures Execute(s, command, now).lines ==
      s.lines + [Line(InputLine, s.cwd + "$ " + command), Line(OutputLine, "Usage: cd <directory>")]
  {
    RespondCd(command, s.cwd, now);
    ApplyPrinted(s, command, ["Usage: cd <directory>"], s.cwd);
  }

  /** `echo` prints the raw command from its sixth character on, untrimmed
      and in its original case; `echo` alone prints an empty line. */
  lemma EchoPrintsRaw(s: State, command: string, now: string)
    requires BaseCommand(command) == "echo"
    ensures Execute(s, command, now).lines ==
      s.lines + [Line(InputLine, s.cwd + "$ " + command), Line(OutputLine, Substring(command, 5))]
    ensures Execute(s, command, now).cwd == s.cwd
  {
    var args := Tokens(command);
    DispatchEcho(Arg(args, 1), command, s.cwd, now);
    ApplyPrinted(s, command, [Substring(command, 5)], s.cwd);
  }

  lemma DispatchEcho(arg: string, command: string, cwd: string, now: string)
    ensures Dispatch("echo", arg, command, cwd, now) == Printed([Substring(command, 5)], cwd)
  {
  }

  /** Only `cd` moves the working directory. */
  lemma OnlyCdMoves(s: State, command: string, now: string)
    requires BaseCommand(command) != "cd"
    ensures Execute(s, command, now).cwd == s.cwd
  {
    var args := Tokens(command);
    DispatchStays(args[0], Arg(args, 1), command, s.cwd, now);
    ApplyKeepsDirectory(s, command, Respond(command, s.cwd, now));
  }

  lemma DispatchStays(base: string, arg: string, command: string, cwd: string, now: string)
    requires base != "cd"
    ensures Dispatch(base, arg, command, cwd, now).Printed? ==> Dispatch(base, arg, command, cwd, now).cwd == cwd
  {
  }

  lemma ApplyKeepsDirectory(s: State, command: string, reply: Reply)
    ensures Apply(s, command, reply).cwd == if reply.Printed? then reply.cwd else s.cwd
  {
  }

  /** The tokens of `cd <name>` for a name with no white space and no upper case to fold. */
  lemma CdTokens(name: string)
    requires name != [] && forall k :: 0 <= k < |name| ==> !IsSpace(name[k]) && LowerChar(name[k]) == name[k]
    ensures Tokens("cd " + name) == ["cd", name]
  {
    var c := "cd " + name;
    assert c[0] == 'c' && c[|c| - 1] == name[|name| - 1];
    TrimUnpadded(c);
    forall k | 0 <= k < |c|
      ensures LowerChar(c[k]) == c[k]
    {
      if k >= 3 {
        assert c[k] == name[k - 3];
      }
    }
    LowerLowered(c);
    assert forall k :: 0 <= k < |name| ==> name[k] != ' ';
    assert c == "cd" + [' '] + name;
    SplitAround("cd", name, ' ');
    SplitWithoutSeparator("cd", ' ');
    SplitWithoutSeparator(name, ' ');
  }

  lemma CdInto(s: State, name: string, now: string)
    requires name != [] && forall k :: 0 <= k < |name| ==> !IsSpace(name[k]) && LowerChar(name[k]) == name[k]
    ensures Execute(s, "cd " + name, now).cwd == ChangeDirectory(s.cwd, name)
  {
    var c := "cd " + name;
    CdTokens(name);
    assert BaseCommand(c) == "cd" && Arg(Tokens(c), 1) == name;
    RespondCd(c, s.cwd, now);
    ApplyPrinted(s, c, ["Changed directory to " + s.cwd], ChangeDirectory(s.cwd, name));
  }

  lemma CdUp(s: State, now: string)
    ensures Execute(s, "cd ..", now).cwd == ParentDirectory(s.cwd)
  {
    var d := "..";
    assert |d| == 2 && d[0] == '.' && d[1] == '.';
    assert forall k :: 0 <= k < |d| ==> d[k] == '.';
    CdInto(s, d, now);
    assert "cd " + d == "cd ..";
  }

  /** A `cd` into a directory named by its (lowercased) argument, followed by
      `cd ..`, returns to the starting directory; only the argument `args[1]`
      matters, so `cd Src` and `cd a b` come back too. */
  lemma CdThenBack(s: State, command: string, now: string)
    requires s.cwd != [] && BaseCommand(command) == "cd"
    requires var arg := Arg(Tokens(command), 1); arg != "" && '/' !in arg && arg != ".."
    ensures Execute(Execute(s, command, now), "cd ..", now).cwd == s.cwd
  {
    var arg := Arg(Tokens(command), 1);
    CdReportsOldDirectory(s, command, now);
    CdUp(Execute(s, command, now), now);
    assert arg != "/" by {
      assert arg[0] != '/';
    }
    ChildThenParent(s.cwd, arg);
  }

  // ---------------------------------------------------------------------------
  // Tab completion

  /** The names in `cs` that start with `prefix`, in their listed order. */
  function StartingWith(cs: seq<string>, prefix: string): (r: seq<string>)
    ensures forall x :: x in r <==> x in cs && prefix <= x
    ensures NoDuplicates(cs) ==> NoDuplicates(r)
  {
    if cs == [] then []
    else
      var rest := StartingWith(cs[1..], prefix);
      if prefix <= cs[0] then
        NoDuplicatesFront(cs);
        [cs[0]] + rest
      else rest
  }

  lemma NoDuplicatesFront(cs: seq<string>)
    requires cs != []
    ensures NoDuplicates(cs) ==> NoDuplicates(cs[1..]) && cs[0] !in cs[1..]
  {
    if NoDuplicates(cs) {
      assert cs == [cs[0]] + cs[1..];
      NoDuplicatesSplit([cs[0]], cs[1..]);
    }
  }

  /** Completion against a list of names: `match + " "` when exactly one name
      starts with the input, the input itself otherwise. */
  function CompleteFrom(cs: seq<string>, input: string): string {
    var matches := StartingWith(cs, input);
    if |matches| == 1 then matches[0] + " " else input
  }

  /** The Tab key's completion against the fifteen listed commands. */
  function Complete(input: string): string {
    CompleteFrom(Commands, input)
  }

  /** `c` is the one name of `cs` that starts with the input. */
  ghost predicate UniqueCompletion(cs: seq<string>, input: string, c: string) {
    c in cs && input <= c && forall d :: d in cs && input <= d ==> d == c
  }

  lemma CommandsDistinct()
    ensures NoDuplicates(Commands)
  {
  }

  lemma CompleteFromIffUnique(cs: seq<string>, input: string)
    requires NoDuplicates(cs)
    ensures forall c :: UniqueCompletion(cs, input, c) ==> CompleteFrom(cs, input) == c + " "
    ensures (forall c :: !UniqueCompletion(cs, input, c)) ==> CompleteFrom(cs, input) == input
  {
    var m := StartingWith(cs, input);
    if |m| == 1 {
      assert m[0] in m;
      assert UniqueCompletion(cs, input, m[0]);
    }
    forall c | UniqueCompletion(cs, input, c)
      ensures CompleteFrom(cs, input) == c + " "
    {
      assert c in m;
      NoDuplicatesOccurOnce(m, c);
      CopiesCount(m, c);
      assert m[0] in m;
    }
  }

  /** Tab completes to the unique listed command starting with the input, and
      otherwise (no match, or several) leaves the input alone. */
  lemma CompleteIffUnique(input: string)
    ensures forall c :: UniqueCompletion(Commands, input, c) ==> Complete(input) == c + " "
    ensures (forall c :: !UniqueCompletion(Commands, input, c)) ==> Complete(input) == input
  {
    CommandsDistinct();
    CompleteFromIffUnique(Commands, input);
  }

  // ---------------------------------------------------------------------------
  // handleKeyDown

  datatype Key = Enter | ArrowUp | ArrowDown | Tab | OtherKey

  /** `handleKeyDown`. `now` is the clock text a `date` command would print. */
  function KeyDown(s: State, key: Key, now: string): (r: State)
    requires Valid(s)
    ensures Valid(r)
  {
    match key
    case Enter =>
      Execute(s, s.input, now).(input := "", historyIndex := -1)
    case ArrowUp =>
      if |s.history| > 0 then
        var i := if s.historyIndex == -1 then |s.history| - 1
                 else if s.historyIndex - 1 < 0 then 0 else s.historyIndex - 1;
        s.(historyIndex := i, input := s.history[i])
      else s
    case ArrowDown =>
      if s.historyIndex != -1 then
        var i := s.historyIndex + 1;
        if i >= |s.history| then s.(historyIndex := -1, input := "")
        else s.(historyIndex := i, input := s.history[i])
      else s
    case Tab =>
      s.(input := Complete(s.input))
    case OtherKey => s
  }

  /** Enter runs the typed command, clears the input and stops browsing. */
  lemma EnterRunsInput(s: State, now: string)
    requires Valid(s)
    ensures var r := KeyDown(s, Enter, now);
      r.input == "" && r.historyIndex == -1 &&
      r.history == Execute(s, s.input, now).history && r.lines == Execute(s, s.input, now).lines &&
      r.cwd == Execute(s, s.input, now).cwd
  {
  }

  /** The arrow keys touch only the input and the index, and while browsing the
      input shows the selected history entry. */
  lemma ArrowsBrowseHistory(s: State, key: Key, now: string)
    requires Valid(s) && (key == ArrowUp || key == ArrowDown)
    ensures var r := KeyDown(s, key, now);
      r.lines == s.lines && r.history == s.history && r.cwd == s.cwd &&
      (r.historyIndex != s.historyIndex ==> (r.historyIndex == -1 ==> r.input == "") &&
                                             (r.historyIndex != -1 ==> r.input == s.history[r.historyIndex]))
  {
  }

  /** ArrowUp does nothing on an empty history and ArrowDown does nothing when not browsing. */
  lemma ArrowsIdle(s: State, now: string)
    requires Valid(s)
    ensures |s.history| == 0 ==> KeyDown(s, ArrowUp, now) == s
    ensures s.historyIndex == -1 ==> KeyDown(s, ArrowDown, now) == s
  {
  }

  /** Pressing a key `n` times. */
  function PressTimes(s: State, key: Key, n: nat, now: string): (r: State)
    requires Valid(s)
    ensures Valid(r)
    decreases n
  {
    if n == 0 then s else PressTimes(KeyDown(s, key, now), key, n - 1, now)
  }

  /** Repeated ArrowUp walks back one entry per press from the newest and stops at the oldest. */
  lemma {:induction false} ArrowUpWalksBack(s: State, n: nat, now: string)
    requires Valid(s) && |s.history| > 0 && n >= 1
    ensures var start := if s.historyIndex == -1 then |s.history| else s.historyIndex;
      var r := PressTimes(s, ArrowUp, n, now);
      r.historyIndex == (if start - n < 0 then 0 else start - n) &&
      r.input == s.history[r.historyIndex]
    decreases n
  {
    var t := KeyDown(s, ArrowUp, now);
    if n > 1 {
      ArrowUpWalksBack(t, n - 1, now);
    }
  }

  /** Repeated ArrowDown walks forward one entry per press and, one press past
      the newest entry, stops browsing with an empty input. */
  lemma {:induction false} ArrowDownWalksForward(s: State, n: nat, now: string)
    requires Valid(s) && s.historyIndex != -1 && 1 <= n <= |s.history| - s.historyIndex
    ensures var r := PressTimes(s, ArrowDown, n, now);
      if s.historyIndex + n < |s.history| then
        r.historyIndex == s.historyIndex + n && r.input == s.history[s.historyIndex + n]
      else r.historyIndex == -1 && r.input == ""
    decreases n
  {
    var t := KeyDown(s, ArrowDown, now);
    if n > 1 {
      ArrowDownWalksForward(t, n - 1, now);
    }
  }

  /** ArrowDown undoes ArrowUp, except at the oldest entry where ArrowUp stops. */
  lemma UpThenDown(s: State, now: string)
    requires Valid(s) && |s.history| > 0 && s.historyIndex != 0
    ensures KeyDown(KeyDown(s, ArrowUp, now), ArrowDown, now).historyIndex == s.historyIndex
  {
  }

  /** What the user can do to the terminal: press a key, or type into the input box. */
  datatype Event = Press(key: Key, now: string) | Typed(text: string)

  function Step(s: State, e: Event): (r: State)
    requires Valid(s)
    ensures Valid(r)
    ensures |r.history| >= |s.history| && r.history[..|s.history|] == s.history
  {
    match e
    case Press(key, now) =>
      ExecuteRecordsHistory(s, s.input, now);
      KeyDown(s, key, now)
    case Typed(text) => s.(input := text)
  }

  /** Any session keeps the browsing index within `-1 .. |history| - 1`, and
      the history only ever grows at its end. */
  function Run(s: State, es: seq<Event>): (r: State)
    requires Valid(s)
    ensures Valid(r)
    ensures |r.history| >= |s.history| && r.history[..|s.history|] == s.history
    decreases es
  {
    if es == [] then s
    else
      var t := Step(s, es[0]);
      assert t.history[..|s.history|] == s.history;
      var r := Run(t, es[1..]);
      assert r.history[..|s.history|] == r.history[..|t.history|][..|s.history|];
      r
  }
}
