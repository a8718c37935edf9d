/** Command dispatch in src/lib.rs: separating redirections from the
    arguments, choosing between a builtin, an executable found on `PATH` and
    "command not found", and the checks `execute_pipeline` makes before it
    starts any process. */
module Dispatch {
  import opened Text
  import opened Os
  import Parser
  import Lib
  import Builtins

  // ---------------------------------------------------------------------
  // Redirections

  datatype Stream = Stdout | Stderr
  datatype Mode = Truncate | Append

  /** A file opened for a stream: created and emptied (`File::create`), or
      created if missing and appended to. */
  datatype Target = Target(path: string, mode: Mode)
  datatype Redirect = Redirect(stream: Stream, target: Target)

  /** The six redirection operators (src/lib.rs:34-65). */
  function Operator(tok: string): (r: Option<(Stream, Mode)>)
    ensures r.Some? <==> tok in [">", "1>", ">>", "1>>", "2>", "2>>"]
  {
    if tok == ">" || tok == "1>" then Some((Stdout, Truncate))
    else if tok == ">>" || tok == "1>>" then Some((Stdout, Append))
    else if tok == "2>" then Some((Stderr, Truncate))
    else if tok == "2>>" then Some((Stderr, Append))
    else None
  }

  /** The arguments left once redirections are taken out, and every file the
      redirections open, in the order they are opened. */
  datatype Extracted = Extracted(args: seq<string>, files: seq<Redirect>)

  /** An operator takes the next token as its file; an operator with no next
      token is dropped; every other token stays. */
  function Extract(toks: seq<string>): Extracted
    decreases |toks|
  {
    if toks == [] then Extracted([], [])
    else match Operator(toks[0])
      case None =>
        var r := Extract(toks[1..]);
        Extracted([toks[0]] + r.args, r.files)
      case Some((stream, mode)) =>
        if |toks| == 1 then Extracted([], [])
        else
          var r := Extract(toks[2..]);
          Extracted(r.args, [Redirect(stream, Target(toks[1], mode))] + r.files)
  }

  /** The file a stream ends up writing to: the last one opened for it. */
  function Last(files: seq<Redirect>, stream: Stream): Option<Target>
    decreases |files|
  {
    if files == [] then None
    else if files[|files| - 1].stream == stream then Some(files[|files| - 1].target)
    else Last(files[..|files| - 1], stream)
  }

  /** The redirection loop of `handle_command` (src/lib.rs:27-68); the
      match on the token is `Operator`. */
  method ExtractRedirections(toks: seq<string>)
    returns (clean: seq<string>, files: seq<Redirect>, stdoutFile: Option<Target>, stderrFile: Option<Target>)
    ensures Extracted(clean, files) == Extract(toks)
    ensures stdoutFile == Last(files, Stdout) && stderrFile == Last(files, Stderr)
  {
    clean, files, stdoutFile, stderrFile := [], [], None, None;
    var i := 0;
    while i < |toks|
      invariant 0 <= i <= |toks|
      invariant Extract(toks) == Extracted(clean + Extract(toks[i..]).args, files + Extract(toks[i..]).files)
      invariant stdoutFile == Last(files, Stdout) && stderrFile == Last(files, Stderr)
      decreases |toks| - i
    {
      var arg := toks[i];
      ExtractStep(toks, i);
      i := i + 1;
      match Operator(arg)
      case Some((stream, mode)) =>
        if i < |toks| {
          var target := Target(toks[i], mode);
          var r := Redirect(stream, target);
          ghost var rest := Extract(toks[i + 1..]);
          AppendRegroup(files, [r], rest.files);
          assert Extract(toks) == Extracted(clean + rest.args, (files + [r]) + rest.files);
          LastAppend(files, r, Stdout);
          LastAppend(files, r, Stderr);
          files := files + [r];
          if stream == Stdout {
            stdoutFile := Some(target);
          } else {
            stderrFile := Some(target);
          }
          i := i + 1;
        }
      case None =>
        ghost var rest := Extract(toks[i..]);
        AppendRegroup(clean, [arg], rest.args);
        assert Extract(toks) == Extracted((clean + [arg]) + rest.args, files + rest.files);
        clean := clean + [arg];
    }
  }

  /** One step of the loop: a plain token is kept; an operator takes the
      token after it as its file, or is dropped when it is the last one. */
  lemma ExtractStep(toks: seq<string>, i: nat)
    requires i < |toks|
    ensures Operator(toks[i]).None? ==>
      Extract(toks[i..]) == Extracted([toks[i]] + Extract(toks[i + 1..]).args, Extract(toks[i + 1..]).files)
    ensures Operator(toks[i]).Some? && i + 1 == |toks| ==> Extract(toks[i..]) == Extracted([], []) == Extract(toks[i + 1..])
    ensures Operator(toks[i]).Some? && i + 1 < |toks| ==>
      var (stream, mode) := Operator(toks[i]).value;
      Extract(toks[i..]) == Extracted(Extract(toks[i + 2..]).args,
        [Redirect(stream, Target(toks[i + 1], mode))] + Extract(toks[i + 2..]).files)
  {
    var s := toks[i..];
    assert s[0] == toks[i] && s[1..] == toks[i + 1..];
    if i + 1 < |toks| {
      assert s[1] == toks[i + 1] && s[2..] == toks[i + 2..];
    }
  }

  /** No operator is left among the arguments. */
  lemma {:induction false} ExtractLeavesNoOperator(toks: seq<string>)
    ensures forall i :: 0 <= i < |Extract(toks).args| ==> Operator(Extract(toks).args[i]).None?
    decreases |toks|
  {
    if toks != [] {
      if Operator(toks[0]).None? {
        ExtractLeavesNoOperator(toks[1..]);
      } else if |toks| > 1 {
        ExtractLeavesNoOperator(toks[2..]);
      }
    }
  }

  /** Tokens without operators are all kept and nothing is opened. */
  lemma {:induction false} ExtractOperatorFree(toks: seq<string>)
    requires forall i :: 0 <= i < |toks| ==> Operator(toks[i]).None?
    ensures Extract(toks) == Extracted(toks, [])
    decreases |toks|
  {
    if toks != [] {
      assert Operator(toks[0]).None?;
      ExtractOperatorFree(toks[1..]);
    }
  }

  /** `a` is `b` with some elements left out, the rest in the same order. */
  predicate Subsequence(a: seq<string>, b: seq<string>)
    decreases |b|
  {
    if a == [] then true
    else if b == [] then false
    else if a[0] == b[0] then Subsequence(a[1..], b[1..])
    else Subsequence(a, b[1..])
  }

  lemma {:induction false} SubsequenceCons(a: seq<string>, b: seq<string>, x: string)
    requires Subsequence(a, b)
    ensures Subsequence(a, [x] + b)
    decreases |b|, 1
  {
    assert ([x] + b)[1..] == b;
    if a != [] && a[0] == x {
      SubsequenceTail(a, b);
    }
  }

  lemma {:induction false} SubsequenceTail(a: seq<string>, b: seq<string>)
    requires a != [] && Subsequence(a, b)
    ensures Subsequence(a[1..], b)
    decreases |b|, 0
  {
    if a[0] == b[0] {
      SubsequenceCons(a[1..], b[1..], b[0]);
      assert [b[0]] + b[1..] == b;
    } else {
      SubsequenceTail(a, b[1..]);
      SubsequenceCons(a[1..], b[1..], b[0]);
      assert [b[0]] + b[1..] == b;
    }
  }

  /** The arguments keep their relative order. */
  lemma {:induction false} ExtractKeepsOrder(toks: seq<string>)
    ensures Subsequence(Extract(toks).args, toks)
    decreases |toks|
  {
    if toks != [] {
      if Operator(toks[0]).None? {
        ExtractKeepsOrder(toks[1..]);
      } else if |toks| > 1 {
        ExtractKeepsOrder(toks[2..]);
        var a := Extract(toks).args;
        SubsequenceCons(a, toks[2..], toks[1]);
        assert [toks[1]] + toks[2..] == toks[1..];
        SubsequenceCons(a, toks[1..], toks[0]);
        assert [toks[0]] + toks[1..] == toks;
      }
    }
  }

  /** Tokens that end at a boundary: no operator at the end waiting for its
      file. */
  predicate Aligned(toks: seq<string>)
    decreases |toks|
  {
    if toks == [] then true
    else if Operator(toks[0]).Some? then |toks| >= 2 && Aligned(toks[2..])
    else Aligned(toks[1..])
  }

  /** After a boundary, the tokens that follow are extracted on their own. */
  lemma {:induction false} ExtractAppend(a: seq<string>, b: seq<string>)
    requires Aligned(a)
    ensures Extract(a + b) ==
      Extracted(Extract(a).args + Extract(b).args, Extract(a).files + Extract(b).files)
    decreases |a|
  {
    if a == [] {
      assert a + b == b;
    } else if Operator(a[0]).Some? {
      assert (a + b)[0] == a[0] && (a + b)[1] == a[1];
      assert (a + b)[2..] == a[2..] + b;
      ExtractAppend(a[2..], b);
    } else {
      assert (a + b)[0] == a[0];
      assert (a + b)[1..] == a[1..] + b;
      ExtractAppend(a[1..], b);
    }
  }

  lemma {:induction false} LastAppend(a: seq<Redirect>, r: Redirect, s: Stream)
    ensures Last(a + [r], s) == if r.stream == s then Some(r.target) else Last(a, s)
  {
    assert (a + [r])[..|a|] == a;
  }

  /** The last operator for a stream wins, and it changes neither the
      arguments nor the other stream's file. */
  lemma LastOperatorWins(a: seq<string>, op: string, file: string, other: Stream)
    requires Aligned(a) && Operator(op).Some?
    ensures var e := Extract(a + [op, file]);
      && e.args == Extract(a).args
      && Last(e.files, Operator(op).value.0) == Some(Target(file, Operator(op).value.1))
      && (other != Operator(op).value.0 ==> Last(e.files, other) == Last(Extract(a).files, other))
  {
    ExtractAppend(a, [op, file]);
    var (stream, mode) := Operator(op).value;
    assert [op, file][2..] == [];
    var r := Redirect(stream, Target(file, mode));
    assert Extract([op, file]) == Extracted([], [r]);
    AppendNothing(Extract(a).args);
    LastAppend(Extract(a).files, r, stream);
    LastAppend(Extract(a).files, r, other);
  }

  /** An operator that is the last token is dropped and sets nothing. */
  lemma DanglingOperatorDropped(a: seq<string>, op: string)
    requires Aligned(a) && Operator(op).Some?
    ensures Extract(a + [op]) == Extract(a)
  {
    ExtractAppend(a, [op]);
    AppendNothing(Extract(a).args);
    AppendNothing(Extract(a).files);
  }

  /** `echo hi > out.txt` prints `hi` into `out.txt`, emptied first. */
  lemma RedirectExample()
    ensures Extract(["echo", "hi", ">", "out.txt"]) ==
      Extracted(["echo", "hi"], [Redirect(Stdout, Target("out.txt", Truncate))])
  {
    var toks := ["echo", "hi", ">", "out.txt"];
    assert Operator("echo").None? && Operator("hi").None?;
    assert toks[1..] == ["hi", ">", "out.txt"];
    assert toks[1..][1..] == [">", "out.txt"];
    assert [">", "out.txt"][2..] == [];
  }

  // ---------------------------------------------------------------------
  // handle_command

  /** Where a stream goes: the shell's own stream, or a file. */
  datatype Sink = Terminal | File(target: Target)

  function SinkOf(t: Option<Target>): Sink {
    match t
    case None => Terminal
    case Some(target) => File(target)
  }

  /** What `handle_command` did. A builtin's output went to its sinks; an
      external program was started with its sinks; "command not found" went
      to the shell's own standard error. */
  datatype Action =
    | RanBuiltin(builtin: Builtins.Builtin, args: seq<string>, run: Builtins.Run, stdoutTo: Sink, stderrTo: Sink)
    | Spawned(program: string, args: seq<string>, stdoutTo: Sink, stderrTo: Sink)
    | NotFound(message: string)

  datatype Handled = Handled(status: Lib.ShellStatus, files: seq<Redirect>, action: Action)

  /** `handle_command` (src/lib.rs:26-111): take out the redirections, then
      run the builtin the command names, or else start the executable `PATH`
      holds for it, or else report it as not found. Only a builtin can end the
      shell. */
  method HandleCommand(command: string, args: seq<string>, history: seq<string>, p: Process) returns (h: Handled)
    modifies p
    ensures h.files == Extract(args).files
    ensures Builtins.FromStr(command).Some? ==>
      && h.action.RanBuiltin?
      && h.action.builtin == Builtins.FromStr(command).value
      && h.action.args == Extract(args).args
      && h.action.stdoutTo == SinkOf(Last(h.files, Stdout))
      && h.action.stderrTo == SinkOf(Last(h.files, Stderr))
      && h.status == h.action.run.status
      && (h.action.run, p.cwd) == Builtins.Outcome(h.action.builtin, h.action.args, history, p.sys, old(p.cwd))
      && (h.action.builtin == Builtins.Exit ==> h.status == Lib.Exit(Builtins.ExitCode(h.action.args)))
      && (h.action.builtin != Builtins.Cd ==> p.cwd == old(p.cwd))
    ensures Builtins.FromStr(command).None? ==>
      && h.status == Lib.Continue
      && p.cwd == old(p.cwd)
      && h.action == (
           if Lib.ExecutablePath(p.sys, command).Some? then
             Spawned(command, Extract(args).args, SinkOf(Last(h.files, Stdout)), SinkOf(Last(h.files, Stderr)))
           else NotFound(command + ": command not found\n"))
  {
    var clean, files, stdoutFile, stderrFile := ExtractRedirections(args);
    match Builtins.FromStr(command)
    case Some(builtin) =>
      var run := Builtins.Execute(builtin, clean, history, p);
      h := Handled(run.status, files, RanBuiltin(builtin, clean, run, SinkOf(stdoutFile), SinkOf(stderrFile)));
    case None =>
      var path := Lib.GetExecutablePath(p.sys, command);
      if path.Some? {
        h := Handled(Lib.Continue, files, Spawned(command, clean, SinkOf(stdoutFile), SinkOf(stderrFile)));
      } else {
        h := Handled(Lib.Continue, files, NotFound(command + ": command not found\n"));
      }
  }

  // ---------------------------------------------------------------------
  // execute_pipeline, up to the point where processes are started

  /** What `execute_pipeline` does with a line before creating the pipe:
      reject it with a message, return without doing anything, or go on to
      run the two token lists. Every outcome returns `Continue`. */
  datatype PipelinePlan = Rejected(message: string) | Nothing | Launch(first: seq<string>, second: seq<string>)

  /** The line split on `|`, each part trimmed. */
  function PipelineParts(input: string): (parts: seq<string>)
    ensures |parts| == |Split(input, '|')| == Count(input, '|') + 1
    ensures forall i :: 0 <= i < |parts| ==> parts[i] == Trim(Split(input, '|')[i])
  {
    var pieces := Split(input, '|');
    SplitCount(input, '|');
    seq(|pieces|, i requires 0 <= i < |pieces| => Trim(pieces[i]))
  }

  /** src/lib.rs:162-175. */
  function PipelineFrontEnd(input: string): (r: PipelinePlan)
    ensures r.Rejected? <==> Count(input, '|') != 1
    ensures r.Rejected? ==> r.message == "Pipeline execution only supports exactly 2 commands\n"
    ensures r.Launch? ==> r.first != [] && r.second != []
  {
    var parts := PipelineParts(input);
    if |parts| != 2 then Rejected("Pipeline execution only supports exactly 2 commands\n")
    else
      var first := Parser.Tokens(parts[0]);
      var second := Parser.Tokens(parts[1]);
      if first == [] || second == [] then Nothing else Launch(first, second)
  }

  /** The pipeline goes ahead exactly when the line has one `|` and there is
      something other than whitespace on each side of it; the two commands
      are the tokens of the two sides. */
  lemma PipelineLaunchIff(input: string)
    ensures var r := PipelineFrontEnd(input);
      var pieces := Split(input, '|');
      && (r.Launch? <==> Count(input, '|') == 1 && !AllWhitespace(pieces[0]) && !AllWhitespace(pieces[1]))
      && (r.Launch? ==> r.first == Parser.Tokens(Trim(pieces[0])) && r.second == Parser.Tokens(Trim(pieces[1])))
  {
    var pieces := Split(input, '|');
    if Count(input, '|') == 1 {
      var parts := PipelineParts(input);
      Parser.TokensEmptyIff(parts[0]);
      Parser.TokensEmptyIff(parts[1]);
      TrimBlank(pieces[0]);
      TrimBlank(pieces[1]);
    }
  }

  lemma TrimBlank(s: string)
    ensures AllWhitespace(Trim(s)) <==> AllWhitespace(s)
  {
    var t := Trim(s);
    if t != [] {
      assert !IsWhitespace(t[0]);
    }
  }
}
