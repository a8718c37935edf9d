/** The early read-eval loop of src/main.rs: print the prompt, read a line,
    trim it, skip it when empty, stop on `exit`, greet on `hi`, and call
    anything else an unknown command. The terminal is replaced by the
    sequence of results that reading returns and by the text written to
    each output stream. */
module Repl {
  import opened Text

  /** What one `get_input` read gives: a line, or an I/O error's message. */
  datatype Input = Line(text: string) | ReadError(message: string)

  const PROMPT: string := "$ "
  const GREETING: string := "Hello there!\n"
  const NOT_FOUND: string := ": command not found\n"
  const READ_ERROR: string := "Error reading input: "

  /** Everything written so far, how many reads were made, and whether the
      loop has ended. */
  datatype Transcript = Transcript(out: string, err: string, turns: nat, stopped: bool)

  const START: Transcript := Transcript("", "", 0, false)

  /** What the loop writes to standard output for a trimmed, non-empty line
      other than `exit` (src/main.rs:31-32). */
  function Reply(command: string): (r: string)
    ensures r == GREETING <==> command == "hi"
    ensures command != "hi" ==> |r| > |command| && r[..|command|] == command
  {
    if command == "hi" then GREETING
    else command + NOT_FOUND
  }

  /** What one read leads to after the prompt: text for each stream, and
      whether the loop ends. */
  datatype Effect = Effect(out: string, err: string, stop: bool)

  /** src/main.rs:18-33: a read error is reported and skipped, the line is
      trimmed, an empty line writes nothing, `exit` ends the loop, and any
      other line gets its reply. */
  function EffectOf(input: Input): Effect {
    match input
    case ReadError(message) => Effect([], READ_ERROR + message + "\n", false)
    case Line(text) => Respond(Trim(text))
  }

  /** The effect of a trimmed line. */
  function Respond(command: string): Effect {
    if command == [] then Effect([], [], false)
    else if command == "exit" then Effect([], [], true)
    else Effect(Reply(command), [], false)
  }

  /** One turn of the loop: the prompt, one read, and its effect. */
  function Turn(t: Transcript, input: Input): Transcript {
    var e := EffectOf(input);
    Transcript(t.out + PROMPT + e.out, t.err + e.err, t.turns + 1, e.stop)
  }

  /** The loop from transcript `t` on, reading `inputs` from index `i`: it
      ends when the reads run out or once it has stopped, and then nothing
      more is read. */
  function Run(t: Transcript, inputs: seq<Input>, i: nat): Transcript
    requires i <= |inputs|
    decreases |inputs| - i
  {
    if i == |inputs| || t.stopped then t
    else Run(Turn(t, inputs[i]), inputs, i + 1)
  }

  /** The whole loop over a sequence of reads. */
  function Session(inputs: seq<Input>): Transcript {
    Run(START, inputs, 0)
  }

  /** `main` (src/main.rs:16-36) run on the given reads. */
  method Repl(inputs: seq<Input>) returns (out: string, err: string, turns: nat, stopped: bool)
    ensures Transcript(out, err, turns, stopped) == Session(inputs)
  {
    out, err, turns, stopped := "", "", 0, false;
    var i := 0;
    while i < |inputs|
      invariant 0 <= i <= |inputs|
      invariant Run(Transcript(out, err, turns, false), inputs, i) == Session(inputs)
      decreases |inputs| - i
    {
      var input := inputs[i];
      ghost var cur := Transcript(out, err, turns, false);
      ghost var next := Turn(cur, input);
      out := out + PROMPT;
      turns := turns + 1;
      i := i + 1;
      match input
      case ReadError(message) =>
        err := err + READ_ERROR + message + "\n";
        TurnReadError(cur, message);
      case Line(text) =>
        var command := Trim(text);
        if command == [] {
          TurnQuiet(cur, text);
          continue;
        }
        if command == "exit" {
          TurnQuiet(cur, text);
          stopped := true;
          return;
        }
        if command == "hi" {
          TurnGreet(cur, text);
          out := out + GREETING;
        } else {
          TurnUnknown(cur, text);
          out := out + command + NOT_FOUND;
        }
    }
  }

  lemma TurnReadError(t: Transcript, message: string)
    ensures Turn(t, ReadError(message)) ==
      Transcript(t.out + PROMPT, t.err + READ_ERROR + message + "\n", t.turns + 1, false)
  {
    AppendNothing(t.out + PROMPT);
    assert t.err + (READ_ERROR + message + "\n") == t.err + READ_ERROR + message + "\n";
  }

  /** An empty line or `exit` writes nothing but the prompt. */
  lemma TurnQuiet(t: Transcript, text: string)
    requires !t.stopped
    requires Trim(text) == [] || Trim(text) == "exit"
    ensures Turn(t, Line(text)) == Transcript(t.out + PROMPT, t.err, t.turns + 1, Trim(text) == "exit")
  {
    assert EffectOf(Line(text)) == Effect([], [], Trim(text) == "exit");
    AppendNothing(t.out + PROMPT);
    AppendNothing(t.err);
  }

  /** `hi` is greeted after the prompt. */
  lemma TurnGreet(t: Transcript, text: string)
    requires !t.stopped && Trim(text) == "hi"
    ensures Turn(t, Line(text)) == Transcript(t.out + PROMPT + GREETING, t.err, t.turns + 1, false)
  {
    RespondGreet(Trim(text));
    AppendNothing(t.err);
  }

  lemma RespondGreet(command: string)
    requires command == "hi"
    ensures Respond(command) == Effect(GREETING, [], false)
  {
    assert command != [] && command != "exit";
  }

  /** Any other non-empty line but `exit` is answered as an unknown
      command after the prompt. */
  lemma TurnUnknown(t: Transcript, text: string)
    requires !t.stopped
    requires var c := Trim(text); c != [] && c != "exit" && c != "hi"
    ensures Turn(t, Line(text)) == Transcript(t.out + PROMPT + Trim(text) + NOT_FOUND, t.err, t.turns + 1, false)
  {
    var c := Trim(text);
    assert EffectOf(Line(text)) == Effect(c + NOT_FOUND, [], false);
    AppendNothing(t.err);
    assert t.out + PROMPT + (c + NOT_FOUND) == t.out + PROMPT + c + NOT_FOUND;
  }

  /** `exit` ends the loop: the reads after it are never made. */
  lemma ExitStops(t: Transcript, inputs: seq<Input>, k: nat)
    requires k < |inputs| && !t.stopped
    requires inputs[k].Line? && Trim(inputs[k].text) == "exit"
    ensures Run(t, inputs, k) == Turn(t, inputs[k])
    ensures Run(t, inputs, k).stopped && Run(t, inputs, k).turns == t.turns + 1
  {
    TurnQuiet(t, inputs[k].text);
    assert Turn(t, inputs[k]).stopped;
  }

  /** A line of nothing but whitespace writes only the next prompt. */
  lemma BlankLineSilent(t: Transcript, inputs: seq<Input>, k: nat)
    requires k < |inputs| && !t.stopped
    requires inputs[k].Line? && AllWhitespace(inputs[k].text)
    ensures Run(t, inputs, k) == Run(t.(out := t.out + PROMPT, turns := t.turns + 1), inputs, k + 1)
  {
    TurnQuiet(t, inputs[k].text);
    assert Turn(t, inputs[k]) == t.(out := t.out + PROMPT, turns := t.turns + 1);
  }

  /** A read error is reported on standard error and the loop goes on. */
  lemma ReadErrorContinues(t: Transcript, inputs: seq<Input>, k: nat)
    requires k < |inputs| && !t.stopped && inputs[k].ReadError?
    ensures Run(t, inputs, k) ==
      Run(Transcript(t.out + PROMPT, t.err + READ_ERROR + inputs[k].message + "\n", t.turns + 1, false), inputs, k + 1)
  {
    var m := inputs[k].message;
    assert EffectOf(inputs[k]) == Effect([], READ_ERROR + m + "\n", false);
    AppendNothing(t.out + PROMPT);
    assert t.err + (READ_ERROR + m + "\n") == t.err + READ_ERROR + m + "\n";
  }

  /** Any other line is answered on standard output as an unknown command,
      and the loop goes on. */
  lemma UnknownCommand(t: Transcript, inputs: seq<Input>, k: nat)
    requires k < |inputs| && !t.stopped && inputs[k].Line?
    requires var c := Trim(inputs[k].text); c != [] && c != "exit" && c != "hi"
    ensures Run(t, inputs, k) ==
      Run(Transcript(t.out + PROMPT + Trim(inputs[k].text) + NOT_FOUND, t.err, t.turns + 1, false), inputs, k + 1)
  {
    TurnUnknown(t, inputs[k].text);
  }

  /** Lines are trimmed before they are looked at: a line and its trimmed
      form have the same effect. */
  lemma LineIsTrimmed(t: Transcript, text: string)
    requires !t.stopped
    ensures Turn(t, Line(text)) == Turn(t, Line(Trim(text)))
  {
    TrimIdempotent(text);
  }

  lemma TrimIdempotent(s: string)
    ensures Trim(Trim(s)) == Trim(s)
  {
    var r := Trim(s);
    if r != [] {
      assert TrimStart(r) == r;
      assert TrimEnd(r) == r;
    } else {
      assert AllWhitespace(r);
    }
  }
}
