/** The early `echo` and `type` of src/echo.rs. They know three builtins,
    never search `PATH`, and print everything to standard output; each is
    modelled by the text it prints. */
module LegacyEcho {
  import opened Text
  import Builtins

  /** The fixed list of src/echo.rs:6. */
  const LEGACY_BUILTINS: seq<string> := ["echo", "type", "exit"]

  /** `echo_cmd` (src/echo.rs:1-3) prints exactly what the later builtin
      `echo` prints. */
  function EchoCmd(args: seq<string>): (out: string)
    ensures out == Builtins.EchoOutput(args)
    ensures |out| >= 1 && out[|out| - 1] == '\n'
  {
    Join(args, ' ') + "\n"
  }

  /** Arguments without spaces can be read back from what `echo_cmd`
      prints. */
  lemma EchoCmdRoundTrip(args: seq<string>)
    requires |args| > 0
    requires forall i :: 0 <= i < |args| ==> ' ' !in args[i]
    ensures var out := EchoCmd(args); Split(out[..|out| - 1], ' ') == args
  {
    Builtins.EchoRoundTrip(args);
  }

  /** `type_cmd` (src/echo.rs:5-17). */
  function TypeCmd(args: seq<string>): (out: string)
    ensures args == [] ==> out == "type: missing argument\n"
    ensures args != [] && args[0] in LEGACY_BUILTINS ==> out == args[0] + " is a shell builtin\n"
    ensures args != [] && args[0] !in LEGACY_BUILTINS ==> out == args[0] + ": not found\n"
  {
    if |args| > 0 then
      var first := args[0];
      if first in LEGACY_BUILTINS then first + " is a shell builtin\n"
      else first + ": not found\n"
    else "type: missing argument\n"
  }

  /** Only the first argument is looked at. */
  lemma TypeCmdFirstOnly(name: string, rest1: seq<string>, rest2: seq<string>)
    ensures TypeCmd([name] + rest1) == TypeCmd([name] + rest2)
  {
    assert ([name] + rest1)[0] == name && ([name] + rest2)[0] == name;
  }

  /** The three legacy builtins are builtins of the later shell too, and
      both versions describe them in the same words. */
  lemma LegacyBuiltinsAgree(name: string, rest: seq<string>, found: Option<string>)
    requires name in LEGACY_BUILTINS
    ensures Builtins.IsBuiltinName(name)
    ensures Builtins.TypeOutput([name] + rest, found) == Builtins.Output(TypeCmd([name] + rest), "")
  {
    assert ([name] + rest)[0] == name;
  }

  /** `pwd`, `cd` and `history` were added later: the legacy `type` calls
      them not found, and a name the later shell can find nowhere gets the
      same message, on standard error instead of standard output. */
  lemma LegacyNotFound(name: string, rest: seq<string>)
    requires name !in LEGACY_BUILTINS
    ensures Builtins.IsBuiltinName(name) <==> name in ["pwd", "cd", "history"]
    ensures !Builtins.IsBuiltinName(name) ==>
      Builtins.TypeOutput([name] + rest, None) == Builtins.Output("", TypeCmd([name] + rest))
  {
    assert ([name] + rest)[0] == name;
  }
}
