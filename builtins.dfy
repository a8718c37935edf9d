/** The builtin commands of src/builtins.rs: the closed set of names, and
    what `exit`, `echo`, `type`, `pwd`, `cd` and `history` do. Output is the
    text written to the command's standard output and standard error. */
module Builtins {
  import opened Text
  import opened Os
  import Lib

  datatype Builtin = Exit | Echo | Type | Pwd | Cd | History

  function Name(b: Builtin): string {
    match b
    case Exit => "exit"
    case Echo => "echo"
    case Type => "type"
    case Pwd => "pwd"
    case Cd => "cd"
    case History => "history"
  }

  /** The names `from_str` accepts. */
  const BUILTIN_NAMES: seq<string> := ["exit", "echo", "type", "pwd", "cd", "history"]

  predicate IsBuiltinName(s: string) {
    s in BUILTIN_NAMES
  }

  /** `Builtin::from_str` (src/builtins.rs:20-30): the six names and nothing
      else; a name that parses names the variant it parses to. */
  function FromStr(s: string): (r: Option<Builtin>)
    ensures r.Some? <==> IsBuiltinName(s)
    ensures r.Some? ==> Name(r.value) == s
  {
    match s
    case "exit" => Some(Exit)
    case "echo" => Some(Echo)
    case "type" => Some(Type)
    case "pwd" => Some(Pwd)
    case "cd" => Some(Cd)
    case "history" => Some(History)
    case _ => None
  }

  /** Every variant's name parses back to that variant. */
  lemma FromStrName(b: Builtin)
    ensures FromStr(Name(b)) == Some(b)
  {
  }

  /** Text written to standard output and to standard error. */
  datatype Output = Output(out: string, err: string)

  // ---------------------------------------------------------------------
  // exit

  /** The code `exit` ends the shell with (src/builtins.rs:46-51): the first
      argument read as a 32-bit integer, and 0 when there is none or it does
      not parse. */
  function ExitCode(args: seq<string>): (code: int)
    ensures Text.I32_MIN <= code <= Text.I32_MAX
    ensures args == [] || ParseI32(args[0]).None? ==> code == 0
  {
    if args != [] && ParseI32(args[0]).Some? then ParseI32(args[0]).value else 0
  }

  /** `exit n` ends with code `n` for every 32-bit `n`, whatever follows. */
  lemma ExitCodeOf(n: int, rest: seq<string>)
    requires Text.I32_MIN <= n <= Text.I32_MAX
    ensures ExitCode([IntToString(n)] + rest) == n
  {
    ParseI32OfIntToString(n);
  }

  // ---------------------------------------------------------------------
  // echo

  /** `echo_cmd` (src/builtins.rs:143-145): the arguments joined by single
      spaces, then a newline. */
  function EchoOutput(args: seq<string>): (r: string)
    ensures |r| >= 1 && r[|r| - 1] == '\n'
  {
    Join(args, ' ') + "\n"
  }

  /** The arguments can be read back from what `echo` prints, when there is
      at least one and none holds a space. */
  lemma EchoRoundTrip(args: seq<string>)
    requires |args| > 0
    requires forall i :: 0 <= i < |args| ==> ' ' !in args[i]
    ensures var r := EchoOutput(args); Split(r[..|r| - 1], ' ') == args
  {
    var r := EchoOutput(args);
    assert r[..|r| - 1] == Join(args, ' ');
    SplitJoin(args, ' ');
  }

  // ---------------------------------------------------------------------
  // type

  /** `type_cmd` (src/builtins.rs:150-172) given the result of the `PATH`
      search for its first argument. */
  function TypeOutput(args: seq<string>, found: Option<string>): (r: Output)
    ensures args == [] ==> r == Output("", "")
    ensures args != [] && IsBuiltinName(args[0]) ==> r == Output(args[0] + " is a shell builtin\n", "")
    ensures args != [] && !IsBuiltinName(args[0]) && found.Some? ==>
      r == Output(args[0] + " is " + found.value + "\n", "")
    ensures args != [] && !IsBuiltinName(args[0]) && found.None? ==>
      r == Output("", args[0] + ": not found\n")
  {
    if args == [] then Output("", "")
    else if FromStr(args[0]).Some? then Output(args[0] + " is a shell builtin\n", "")
    else match found
      case Some(path) => Output(args[0] + " is " + path + "\n", "")
      case None => Output("", args[0] + ": not found\n")
  }

  function TypeCmd(args: seq<string>, sys: System): Output {
    TypeOutput(args, if args == [] then None else Lib.ExecutablePath(sys, args[0]))
  }

  /** A builtin name is reported without consulting `PATH`: the answer is the
      same on every system. */
  lemma TypeBuiltinIgnoresPath(args: seq<string>, sys1: System, sys2: System)
    requires args != [] && IsBuiltinName(args[0])
    ensures TypeCmd(args, sys1) == TypeCmd(args, sys2)
  {
  }

  /** A path that `type` reports is an executable regular file found by the
      search. */
  lemma TypeReportsExecutable(args: seq<string>, sys: System)
    requires args != [] && !IsBuiltinName(args[0]) && Lib.ExecutablePath(sys, args[0]).Some?
    ensures var p := Lib.ExecutablePath(sys, args[0]).value;
      TypeCmd(args, sys).out == args[0] + " is " + p + "\n" && Lib.ExecutableAt(sys.stat, p)
  {
    Lib.FirstExecutableIsExecutable(Split(sys.env["PATH"], ':'), sys.stat, args[0]);
  }

  // ---------------------------------------------------------------------
  // cd

  /** Where `cd` goes and what it reports (src/builtins.rs:72-91), as the new
      working directory and the text written to standard error. */
  function CdOutcome(args: seq<string>, sys: System, cwd: string): (r: (string, string))
    ensures args == [] ==> r == (cwd, "")
    ensures args != [] && args[0] == "~" && "HOME" !in sys.env ==> r == (cwd, "cd: HOME not set\n")
    ensures args != [] && args[0] == "~" && "HOME" in sys.env && sys.env["HOME"] in sys.directories ==>
      r == (sys.env["HOME"], "")
    ensures args != [] && args[0] != "~" && args[0] in sys.directories ==> r == (args[0], "")
    ensures args != [] && (args[0] != "~" || "HOME" in sys.env) ==>
      var target := if args[0] == "~" then sys.env["HOME"] else args[0];
      target !in sys.directories ==> r == (cwd, "cd: no such file or directory: " + target + "\n")
    ensures r.1 == "" || r.0 == cwd
    ensures r.0 == cwd || r.0 in sys.directories
    ensures r.0 == cwd || (args != [] && r.0 == (if args[0] == "~" then sys.env["HOME"] else args[0]))
  {
    if args == [] then (cwd, "")
    else if args[0] == "~" && "HOME" !in sys.env then (cwd, "cd: HOME not set\n")
    else
      var target := if args[0] == "~" then sys.env["HOME"] else args[0];
      if target in sys.directories then (target, "")
      else (cwd, "cd: no such file or directory: " + target + "\n")
  }

  /** Only the exact argument `~` is replaced: `~/x` is a path like any
      other. */
  lemma CdTildeOnlyAlone(rest: string, sys: System, cwd: string)
    requires rest != []
    ensures var arg := "~" + rest;
      CdOutcome([arg], sys, cwd) ==
        if arg in sys.directories then (arg, "")
        else (cwd, "cd: no such file or directory: " + arg + "\n")
  {
    assert ("~" + rest) != "~" by {
      assert |"~" + rest| > 1;
    }
  }

  /** The `cd` arm: changes the process's working directory as `CdOutcome`
      says. */
  method ChangeDirectory(args: seq<string>, p: Process) returns (err: string)
    modifies p
    ensures (p.cwd, err) == CdOutcome(args, p.sys, old(p.cwd))
  {
    err := "";
    if args != [] {
      var newDir: string;
      if args[0] == "~" {
        if "HOME" in p.sys.env {
          newDir := p.sys.env["HOME"];
        } else {
          err := "cd: HOME not set\n";
          return;
        }
      } else {
        newDir := args[0];
      }
      if newDir in p.sys.directories {
        p.cwd := newDir;
      } else {
        err := "cd: no such file or directory: " + newDir + "\n";
      }
    }
  }

  // ---------------------------------------------------------------------
  // history

  /** One line of the listing: its number and the command. */
  datatype HistoryLine = HistoryLine(number: nat, entry: string)

  /** The optional count argument, `args.first()` parsed as a `usize`. */
  function HistoryLimit(args: seq<string>): Option<nat> {
    if args == [] then None else ParseUsize(args[0])
  }

  /** Where the listing starts (src/builtins.rs:117-128): so that the last
      `n` entries are shown, or all of them when there are fewer or no
      count. */
  function HistoryStart(len: nat, limit: Option<nat>): (start: nat)
    ensures start <= len
    ensures limit.None? ==> start == 0
    ensures limit.Some? ==> len - start == if limit.value < len then limit.value else len
  {
    match limit
    case Some(n) => if len > n then len - n else 0
    case None => 0
  }

  /** The entries from `start` on, numbered from `start + 1`: the numbers go
      up by one and the last is the length of the history. */
  function HistoryWindow(history: seq<string>, start: nat): (w: seq<HistoryLine>)
    requires start <= |history|
    ensures |w| == |history| - start
    ensures forall i :: 0 <= i < |w| ==> w[i].entry == history[start + i]
    ensures w != [] ==> w[0].number == start + 1 && w[|w| - 1].number == |history|
    ensures forall i :: 0 < i < |w| ==> w[i].number == w[i - 1].number + 1
  {
    seq(|history| - start, i requires 0 <= i < |history| - start => HistoryLine(start + i + 1, history[start + i]))
  }

  /** `"{:>5}  {}"` and a newline: the number right-aligned in five columns,
      two spaces, the command. */
  function FormatLine(l: HistoryLine): string {
    PadLeft(NatToString(l.number), 5) + "  " + l.entry + "\n"
  }

  /** The number in a formatted line reads back as the line's number once
      the padding is trimmed, and the command follows two spaces after it. */
  lemma FormatLineReadsBack(l: HistoryLine)
    requires l.number <= Text.USIZE_MAX
    ensures var field := PadLeft(NatToString(l.number), 5);
      && FormatLine(l) == field + "  " + l.entry + "\n"
      && |field| >= 5
      && ParseUsize(TrimStart(field)) == Some(l.number)
  {
    var digits := NatToString(l.number);
    var field := PadLeft(digits, 5);
    var k := |field| - |digits|;
    assert field == field[..k] + digits;
    assert AllWhitespace(field[..k]) by {
      forall i | 0 <= i < k ensures IsWhitespace(field[..k][i]) {
        assert field[..k][i] == field[i] == ' ';
      }
    }
    TrimStartPast(field[..k], digits);
    ParseUsizeOfNatToString(l.number);
  }

  lemma {:induction false} TrimStartPast(ws: string, s: string)
    requires AllWhitespace(ws)
    requires s != [] && !IsWhitespace(s[0])
    ensures TrimStart(ws + s) == s
    decreases |ws|
  {
    if ws == [] {
      assert ws + s == s;
    } else {
      assert (ws + s)[0] == ws[0];
      assert (ws + s)[1..] == ws[1..] + s;
      assert AllWhitespace(ws[1..]) by {
        forall i | 0 <= i < |ws| - 1 ensures IsWhitespace(ws[1..][i]) {
          assert ws[1..][i] == ws[i + 1];
        }
      }
      assert IsWhitespace(ws[0]);
      TrimStartPast(ws[1..], s);
    }
  }

  /** The listing text of some lines. */
  function RenderLines(lines: seq<HistoryLine>): string
    decreases |lines|
  {
    if lines == [] then []
    else RenderLines(lines[..|lines| - 1]) + FormatLine(lines[|lines| - 1])
  }

  /** Listing one more line appends that line's text. */
  lemma RenderLinesStep(w: seq<HistoryLine>, i: nat)
    requires i < |w|
    ensures RenderLines(w[..i + 1]) == RenderLines(w[..i]) + FormatLine(w[i])
  {
    assert w[..i + 1][..i] == w[..i];
  }

  /** The listing loop of src/builtins.rs:131-133. */
  method ListHistory(history: seq<string>, start: nat) returns (out: string)
    requires start <= |history|
    ensures out == RenderLines(HistoryWindow(history, start))
  {
    out := [];
    ghost var w := HistoryWindow(history, start);
    for i := 0 to |history| - start
      invariant out == RenderLines(w[..i])
    {
      RenderLinesStep(w, i);
      assert w[i] == HistoryLine(start + i + 1, history[start + i]);
      out := out + FormatLine(HistoryLine(start + i + 1, history[start + i]));
    }
    assert w[..|history| - start] == w;
  }

  /** What `history` does with its arguments. */
  datatype HistoryStep = Load(lines: seq<string>) | Fail(message: string) | List(start: nat)

  /** The decision of the `history` arm (src/builtins.rs:92-128): `-r` with a
      file loads it or reports why it cannot, `-r` alone is an error, and
      anything else lists from `HistoryStart`. */
  function HistoryPlan(args: seq<string>, len: nat, sys: System): (r: HistoryStep)
    ensures args == ["-r"] ==> r == Fail("history: -r requires a filename argument\n")
    ensures |args| >= 2 && args[0] == "-r" ==>
      r == match ReadLines(sys, args[1])
           case Lines(lines) => Load(lines)
           case OpenError(e) => Fail("history: " + args[1] + ": " + e + "\n")
    ensures args == [] || args[0] != "-r" ==> r == List(HistoryStart(len, HistoryLimit(args)))
  {
    if args != [] && args[0] == "-r" then
      if |args| >= 2 then
        match ReadLines(sys, args[1])
        case Lines(lines) => Load(lines)
        case OpenError(e) => Fail("history: " + args[1] + ": " + e + "\n")
      else Fail("history: -r requires a filename argument\n")
    else List(HistoryStart(len, HistoryLimit(args)))
  }

  /** `history n` lists the last `n` entries, or all when there are fewer;
      `history` alone and `history x` for a non-number list everything. */
  lemma HistoryListsLast(history: seq<string>, args: seq<string>, sys: System)
    requires args == [] || args[0] != "-r"
    ensures var step := HistoryPlan(args, |history|, sys);
      && step.List?
      && |HistoryWindow(history, step.start)| ==
           match HistoryLimit(args)
           case None => |history|
           case Some(n) => if n < |history| then n else |history|
  {
  }

  // ---------------------------------------------------------------------
  // Builtin::execute

  /** What a builtin returns and writes. */
  datatype Run = Run(status: Lib.ShellStatus, out: string, err: string)

  /** What each arm of `Builtin::execute` (src/builtins.rs:45-136) returns
      and writes, with the working directory it leaves behind. Only `exit`
      ends the shell, only `history -r` loads lines, and only `cd` moves. */
  function Outcome(b: Builtin, args: seq<string>, history: seq<string>, sys: System, cwd: string): (r: (Run, string))
    ensures r.0.status.Exit? <==> b == Exit
    ensures r.0.status.Exit? ==> r.0.status.code == ExitCode(args) && r.0.out == "" && r.0.err == ""
    ensures r.0.status.LoadHistory? ==> b == History && |args| >= 2 && args[0] == "-r" && ReadLines(sys, args[1]).Lines?
    ensures b != Cd ==> r.1 == cwd
    ensures b == Cd ==> r.0.out == "" && (r.1, r.0.err) == CdOutcome(args, sys, cwd)
    ensures b == Echo ==> r.0.out == EchoOutput(args) && r.0.err == ""
    ensures b == Type ==> Output(r.0.out, r.0.err) == TypeCmd(args, sys)
  {
    match b
    case Exit => (Run(Lib.Exit(ExitCode(args)), "", ""), cwd)
    case Echo => (Run(Lib.Continue, EchoOutput(args), ""), cwd)
    case Type => (Run(Lib.Continue, TypeCmd(args, sys).out, TypeCmd(args, sys).err), cwd)
    case Pwd => (Run(Lib.Continue, cwd + "\n", ""), cwd)
    case Cd =>
      var (dir, err) := CdOutcome(args, sys, cwd);
      (Run(Lib.Continue, "", err), dir)
    case History =>
      var run := match HistoryPlan(args, |history|, sys)
        case Load(lines) => Run(Lib.LoadHistory(lines), "", "")
        case Fail(message) => Run(Lib.Continue, "", message)
        case List(start) => Run(Lib.Continue, RenderLines(HistoryWindow(history, start)), "");
      (run, cwd)
  }

  /** `Builtin::execute` (src/builtins.rs:38-137), which takes the history
      as its last argument. */
  method Execute(b: Builtin, args: seq<string>, history: seq<string>, p: Process) returns (r: Run)
    modifies p
    ensures (r, p.cwd) == Outcome(b, args, history, p.sys, old(p.cwd))
    ensures b != Builtin.Cd ==> p.cwd == old(p.cwd)
    ensures b == Builtin.Exit ==> r == Run(Lib.Exit(ExitCode(args)), "", "")
    ensures b == Builtin.Echo ==> r == Run(Lib.Continue, EchoOutput(args), "")
    ensures b == Builtin.Type ==> r == Run(Lib.Continue, TypeCmd(args, p.sys).out, TypeCmd(args, p.sys).err)
    ensures b == Builtin.Pwd ==> r == Run(Lib.Continue, p.cwd + "\n", "")
    ensures b == Builtin.Cd ==>
      r.status == Lib.Continue && r.out == "" && (p.cwd, r.err) == CdOutcome(args, p.sys, old(p.cwd))
    ensures b == Builtin.History ==>
      r == match HistoryPlan(args, |history|, p.sys)
           case Load(lines) => Run(Lib.LoadHistory(lines), "", "")
           case Fail(message) => Run(Lib.Continue, "", message)
           case List(start) => Run(Lib.Continue, RenderLines(HistoryWindow(history, start)), "")
  {
    match b
    case Exit =>
      r := Run(Lib.Exit(ExitCode(args)), "", "");
    case Echo =>
      r := Run(Lib.Continue, EchoOutput(args), "");
    case Type =>
      var out := Output("", "");
      if args != [] {
        if FromStr(args[0]).Some? {
          out := Output(args[0] + " is a shell builtin\n", "");
        } else {
          var found := Lib.GetExecutablePath(p.sys, args[0]);
          out := TypeOutput(args, found);
        }
      }
      r := Run(Lib.Continue, out.out, out.err);
    case Pwd =>
      r := Run(Lib.Continue, p.cwd + "\n", "");
    case Cd =>
      var err := ChangeDirectory(args, p);
      r := Run(Lib.Continue, "", err);
    case History =>
      match HistoryPlan(args, |history|, p.sys)
      case Load(lines) =>
        r := Run(Lib.LoadHistory(lines), "", "");
      case Fail(message) =>
        r := Run(Lib.Continue, "", message);
      case List(start) =>
        var out := ListHistory(history, start);
        r := Run(Lib.Continue, out, "");
  }
}
