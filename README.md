# A verified model of a small Rust shell

This project models the text-processing and decision logic of a small
POSIX-style shell written in Rust. The model covers:

- the tokenizer;
- the redirection loop and the dispatch order of `handle_command`;
- the two `PATH` searches;
- the checks `execute_pipeline` makes before it creates a pipe;
- the builtins `exit`, `echo`, `type`, `pwd`, `cd` and `history`;
- two older snapshots: a first `echo`/`type` and a first read-eval loop.

Processes, files, the environment and the terminal are abstracted.

- The world the shell reads is the value `Os.System`. It holds:
  - environment variables;
  - metadata that follows symbolic links;
  - metadata of directory entries themselves;
  - directory listings in `read_dir` order;
  - the directories `set_current_dir` accepts;
  - the files `File::open` can read, as lines.
- The one piece of process state a builtin changes is the working
  directory. It is a field of the class `Os.Process`, which `cd` updates in
  place.
- Output is the text a member writes to each stream. A redirection is the
  `(path, mode)` target it opens.

Each core file keeps its form:

- `tokenize` is a method with the source's nested loops: the outer loop,
  the token loop and the quote loop. It is proved equal to the recursive
  reference `Parser.Tokens`.
- The redirection loop, `get_executable_path`, `get_all_executables`, the
  history listing and the read-eval loop are methods, each proved equal to
  a specification function.
- The lemmas are stated about those functions.

Modules:

| file | module | models |
|---|---|---|
| text.dfy | `Text` | `char::is_whitespace`, `trim`, `split`/`join` on one character, `parse::<i32>`, `parse::<usize>`, `{:>5}` |
| parser.dfy | `Parser` | src/parser.rs |
| os.dfy | `Os` | the abstract system and the process |
| lib_search.dfy | `Lib` | `ShellStatus`, `get_executable_path`, `get_all_executables` in src/lib.rs |
| builtins.dfy | `Builtins` | src/builtins.rs |
| lib_dispatch.dfy | `Dispatch` | `handle_command` and the front of `execute_pipeline` in src/lib.rs |
| echo.dfy | `LegacyEcho` | src/echo.rs |
| repl.dfy | `Repl` | src/main.rs |

Where the code is inconsistent with itself, or does less than a fuller shell
would, the model follows the code as written.

- **Quotes.** The tokenizer, like its doc comment at src/parser.rs:5, has
  no backslash escapes. Double quotes behave exactly like single quotes: a
  backslash inside them is an ordinary character. `Parser.DoubleQuoteBackslashIsLiteral` and
  `Parser.TokensSwapQuotes` state this.
- **ShellStatus and `execute`.** src/lib.rs and src/builtins.rs disagree.
  `ShellStatus` in src/lib.rs:15-20 has only `Continue` and `Exit`. However, src/builtins.rs:103 returns
  `ShellStatus::LoadHistory(lines)`, and `execute` takes a fourth argument,
  `history` (src/builtins.rs:43). The call at src/lib.rs:80 passes only
  three arguments. The model:
  - adds `LoadHistory(lines)` to `Lib.ShellStatus`;
  - gives `Builtins.Execute` the history;
  - has `Dispatch.HandleCommand` take the history and pass it on.

## Model

| member | source | states |
|---|---|---|
| Text.TrimStart | src/main.rs:13 | the result is a suffix of the input that starts with a non-whitespace character, and everything dropped is whitespace |
| Text.TrimEnd | src/main.rs:13 | the result is a prefix of the input that ends with a non-whitespace character, and everything dropped is whitespace |
| Text.Trim | src/lib.rs:163 | the trimmed text is empty exactly when the input is all whitespace; otherwise it starts and ends with non-whitespace; it is never longer than the input |
| Text.TrimIsSlice | src/main.rs:13 | the trimmed text is the slice of the input that starts right after the leading whitespace `TrimStart` drops |
| Text.TrimDropsTrailing | src/main.rs:13 | everything in the input after that slice is whitespace |
| Text.SplitCount | src/lib.rs:163 | splitting on a character gives one piece more than the number of separators |
| Text.SplitPiecesFree | src/lib.rs:163 | no piece of a split contains the separator |
| Text.JoinSplit | src/lib.rs:163 | joining the pieces of a split with the same separator gives back the input |
| Text.SplitJoin | src/builtins.rs:144 | splitting a join of separator-free strings gives back the strings |
| Text.NatToString | src/builtins.rs:132 | the decimal rendering is a non-empty digit string with no leading zero unless the number is 0 |
| Text.DigitsValueOfNatToString | src/builtins.rs:132 | the rendering of a number reads back as that number |
| Text.ParseUsize | src/builtins.rs:117 | a parsed `usize` fits in 64 bits and never comes from a negative sign |
| Text.ParseI32 | src/builtins.rs:49 | a parsed `i32` is within the 32-bit range |
| Text.ParseUsizeOfNatToString | src/builtins.rs:117 | every 64-bit number parses back from its rendering |
| Text.ParseI32OfIntToString | src/builtins.rs:49 | every 32-bit integer parses back from its rendering |
| Text.PadLeft | src/builtins.rs:132 | right alignment: the result has the field width or the text's length, ends with the text, and is padded with spaces only |
| Parser.Word | src/parser.rs:23-52 | reading a token never grows the rest of the input, and consumes at least one character when it starts on a non-whitespace character |
| Parser.Quoted | src/parser.rs:27-44 | reading a quoted part never grows the rest of the input |
| Parser.Tokens | src/parser.rs:13-56 | a line has no more tokens than characters |
| Parser.Tokenize | src/parser.rs:13-56 | the scanner's outer loop returns exactly the reference tokens of the input |
| Parser.ScanToken | src/parser.rs:23-52 | the token loop starting on a non-whitespace character advances and returns the reference token and the rest of the input |
| Parser.CopyQuoted | src/parser.rs:27-44 | the quote loop copies up to the closing quote, or to the end, and the token then goes on unquoted as the reference says |
| Parser.TokensEmptyIff | src/parser.rs:17-21 | a line gives no token exactly when it is empty or all whitespace |
| Parser.TokensQuoteFree | src/parser.rs:17-53 | without quote characters, the tokens are the pieces between whitespace characters with the empty pieces dropped, in order |
| Parser.QuotedCopies | src/parser.rs:29-34 | quoted text is copied verbatim, whitespace and backslashes included, up to the closing quote |
| Parser.QuotedPart | src/parser.rs:27-44 | a complete quoted part contributes its body, without the quotes, and the token continues after it |
| Parser.UnterminatedQuote | src/parser.rs:29-34 | an unterminated quote takes the rest of the input into the token |
| Parser.QuotedToken | src/parser.rs:27-35 | a whole quoted argument is one token whatever whitespace it holds |
| Parser.DoubleQuoteBackslashIsLiteral | src/parser.rs:36-44 | inside double quotes a backslash is copied and escapes nothing: `"\"x"` gives the token `\x` |
| Parser.TokensSwapQuotes | src/parser.rs:27-44 | exchanging the two quote characters throughout a line exchanges them in the tokens and changes nothing else, so both quotes behave alike |
| Parser.WordPlain | src/parser.rs:46-49 | unquoted non-whitespace characters are copied into the token one by one |
| Parser.AdjacentPiecesJoin | src/parser.rs:25-52 | unquoted, quoted, unquoted with nothing between them form a single token |
| Parser.WordStrip | src/parser.rs:23-52 | a token followed by the stripped rest is the stripped input |
| Parser.TokensKeep | src/parser.rs:23-53 | the tokens laid end to end are the input without the delimiting quotes and without the whitespace outside quotes |
| Parser.TokensNoLonger | src/parser.rs:23-53 | the tokens together are never longer than the input |
| Parser.TokensRequote | src/parser.rs:13-56 | tokens without a single quote, each single-quoted and separated by spaces, tokenize back to themselves |
| Parser.DocExample | src/parser.rs:10-11 | `echo 'hello world'` gives `echo` and `hello world` |
| Os.ReadLines | src/builtins.rs:96-108 | opening a file succeeds exactly when the file exists |
| Os.Process.constructor | src/builtins.rs:62-86 | the process state that `current_dir` reads and `set_current_dir` changes: a process starts in the given working directory, in the given world |
| Lib.JoinPathShape | src/lib.rs:120 | an absolute name gives itself; otherwise the path ends with the name, starts with the directory, and gets no added `/` exactly when the directory already ends with one |
| Lib.FirstExecutableNone | src/lib.rs:119-129 | the search finds nothing exactly when no directory holds an executable regular file of that name |
| Lib.FirstExecutableFound | src/lib.rs:119-127 | when directory `k` is the first to hold the executable, the search returns that directory joined with the name |
| Lib.FirstExecutableIsExecutable | src/lib.rs:122-126 | whatever the search returns is an executable regular file |
| Lib.GetExecutablePath | src/lib.rs:116-130 | the loop with its early return gives the first match in `PATH` order, or nothing when `PATH` is unset or nothing matches |
| Lib.ExecutablesListed | src/lib.rs:142-150 | a directory contributes no more names than it lists |
| Lib.ExecutablesListedMember | src/lib.rs:142-150 | a listed name is kept exactly when its entry is an executable regular file |
| Lib.GetAllExecutables | src/lib.rs:136-156 | the nested loops collect, directory by directory in `PATH` order, every executable entry name |
| Lib.ScanDirectory | src/lib.rs:142-150 | the inner loop keeps exactly the executable entries of one directory, in listing order |
| Lib.ExecutablesInAppend | src/lib.rs:140-152 | names are grouped by directory: two runs of directories give the first run's names followed by the second's |
| Lib.ExecutablesInMember | src/lib.rs:136-156 | a name is returned exactly when some `PATH` directory lists it as an executable regular file |
| Lib.DuplicatesKept | src/lib.rs:136-156 | a name executable in two `PATH` directories is returned at least twice |
| Builtins.FromStr | src/builtins.rs:20-30 | parsing succeeds exactly on the six builtin names, and the variant's name is the parsed string |
| Builtins.FromStrName | src/builtins.rs:20-30 | every variant's name parses back to that variant |
| Builtins.ExitCode | src/builtins.rs:46-51 | the exit code is a 32-bit integer, and it is 0 when there is no argument or the first one is not an `i32` |
| Builtins.ExitCodeOf | src/builtins.rs:46-51 | `exit n` gives code `n` for every 32-bit `n`, whatever follows |
| Builtins.EchoOutput | src/builtins.rs:143-145 | `echo` ends its output with a newline |
| Builtins.EchoRoundTrip | src/builtins.rs:143-145 | arguments without spaces are read back by splitting the output, without its newline, on spaces |
| Builtins.TypeOutput | src/builtins.rs:150-172 | no argument writes nothing; a builtin name is reported as a shell builtin; otherwise the found path goes to standard output, or `not found` to standard error |
| Builtins.TypeBuiltinIgnoresPath | src/builtins.rs:157-161 | for a builtin name the answer does not depend on the system at all |
| Builtins.TypeReportsExecutable | src/builtins.rs:163-167 | a path that `type` reports is an executable regular file found by the `PATH` search |
| Builtins.CdOutcome | src/builtins.rs:72-91 | no argument changes nothing; `~` with HOME unset reports `cd: HOME not set`; a target (HOME for `~`, else the argument) that is a directory is moved to silently, and one that is not gives `cd: no such file or directory: <target>` and no move; an error leaves the directory unchanged; the new directory is the old one or the requested one, and always an existing one |
| Builtins.CdTildeOnlyAlone | src/builtins.rs:74 | only the exact argument `~` is replaced; `~/x` is an ordinary path |
| Builtins.ChangeDirectory | src/builtins.rs:72-91 | the `cd` arm updates the process's working directory and writes what `CdOutcome` says |
| Builtins.HistoryStart | src/builtins.rs:117-128 | the listing starts so that the last `min(n, len)` entries are shown, or all of them without a count |
| Builtins.HistoryWindow | src/builtins.rs:131-133 | the window holds the entries from the start on, numbered consecutively from start+1 to the history length |
| Builtins.FormatLineReadsBack | src/builtins.rs:132 | the number field of a listed line, once trimmed, reads back as the line's number |
| Builtins.ListHistory | src/builtins.rs:131-133 | the listing loop writes exactly the formatted window |
| Builtins.HistoryPlan | src/builtins.rs:92-128 | `-r` without a file is an error with its message; `-r file` loads the file's lines or reports the open error; otherwise the listing starts at `HistoryStart` |
| Builtins.HistoryListsLast | src/builtins.rs:117-133 | with a count `n` the listing holds `min(n, len)` entries; without a count, or with one that is not a number, it holds them all |
| Builtins.Outcome | src/builtins.rs:45-136 | only `exit` ends the shell, with `ExitCode` and no output; only `history -r` with a readable file loads history; only `cd` moves the working directory, as `CdOutcome` says; `echo` prints `EchoOutput`; `type` prints what `TypeCmd` says |
| Builtins.Execute | src/builtins.rs:38-137 | the status, output and new working directory are exactly `Outcome` of the builtin on the old directory; each arm's status and output; only `cd` changes the working directory; `exit` ends with `ExitCode` |
| Dispatch.Operator | src/lib.rs:33-66 | a token is a redirection exactly when it is one of the six operators |
| Dispatch.ExtractRedirections | src/lib.rs:27-68 | the loop keeps the plain arguments, records every opened target, and ends with the last target of each stream |
| Dispatch.ExtractLeavesNoOperator | src/lib.rs:32-68 | no operator is left among the arguments |
| Dispatch.ExtractOperatorFree | src/lib.rs:66 | arguments without operators are all kept and nothing is opened |
| Dispatch.ExtractKeepsOrder | src/lib.rs:32-68 | the kept arguments are a subsequence of the input, in the same order |
| Dispatch.ExtractAppend | src/lib.rs:32-68 | after a complete prefix, the remaining tokens are extracted on their own |
| Dispatch.LastAppend | src/lib.rs:36-57 | the file a stream ends up with is the last one opened for it |
| Dispatch.LastOperatorWins | src/lib.rs:34-65 | a final operator sets its own stream's target with its file and mode, and changes neither the arguments nor the other stream |
| Dispatch.DanglingOperatorDropped | src/lib.rs:35-56 | an operator that is the last token is dropped and sets nothing |
| Dispatch.RedirectExample | src/lib.rs:34-37 | `echo hi > out.txt` runs `echo hi` and truncates `out.txt` for standard output |
| Dispatch.HandleCommand | src/lib.rs:26-111 | a builtin name runs the builtin on the clean arguments with the redirected sinks and never reaches the `PATH` search; its status, output and new working directory are exactly `Builtins.Outcome` of those arguments; otherwise the command is started if found, or `command not found` is reported, and the status is `Continue` |
| Dispatch.PipelineParts | src/lib.rs:163 | there is one trimmed part per split piece, one more than the number of `|` |
| Dispatch.PipelineFrontEnd | src/lib.rs:162-175 | the line is rejected with its message exactly when it does not have one `|`; the commands are only started when both token lists are non-empty |
| Dispatch.PipelineLaunchIff | src/lib.rs:162-175 | the commands are started exactly when there is one `|` and non-whitespace on each side; they are the tokens of the two trimmed sides |
| LegacyEcho.EchoCmd | src/echo.rs:1-3 | the early `echo` prints what the later one prints, ending in a newline |
| LegacyEcho.EchoCmdRoundTrip | src/echo.rs:1-3 | arguments without spaces can be read back from the output |
| LegacyEcho.TypeCmd | src/echo.rs:5-17 | no argument: `type: missing argument`; `echo`, `type`, `exit`: a shell builtin; anything else: `not found`, with no `PATH` lookup |
| LegacyEcho.TypeCmdFirstOnly | src/echo.rs:8 | only the first argument matters |
| LegacyEcho.LegacyBuiltinsAgree | src/echo.rs:6 | the three early builtins are builtins of the later shell too, described in the same words |
| LegacyEcho.LegacyNotFound | src/echo.rs:11-12 | names the early `type` does not know are builtins later exactly when they are `pwd`, `cd` or `history`; otherwise both versions say `not found` when the later `PATH` search finds nothing |
| Repl.Reply | src/main.rs:31-32 | the greeting is given exactly for `hi`; any other command is echoed back before the message |
| Repl.Repl | src/main.rs:16-36 | the loop writes exactly what the reference transcript of the reads says |
| Repl.TurnReadError | src/main.rs:20-23 | a read error writes the prompt and reports the error on standard error |
| Repl.TurnQuiet | src/main.rs:26-30 | an empty line or `exit` writes only the prompt; `exit` stops |
| Repl.TurnGreet | src/main.rs:31 | `hi` writes the greeting after the prompt |
| Repl.TurnUnknown | src/main.rs:32 | any other line is reported as an unknown command after the prompt |
| Repl.ExitStops | src/main.rs:30 | after `exit` no further line is read |
| Repl.BlankLineSilent | src/main.rs:26-28 | a blank line writes only the next prompt and the loop goes on |
| Repl.ReadErrorContinues | src/main.rs:20-23 | a read error is reported and the loop goes on |
| Repl.UnknownCommand | src/main.rs:32 | an unknown command is reported on standard output and the loop goes on |
| Repl.LineIsTrimmed | src/main.rs:13 | a line and its trimmed form have the same effect |
| Repl.TrimIdempotent | src/main.rs:13 | trimming twice is trimming once |

## Left out

- Process management is not modelled: spawning, waiting on and killing children (src/lib.rs:93-104, 194-231). `Dispatch.HandleCommand` records what it would start as `Spawned`.
- The `error executing command` message for a spawn that fails is not modelled. It depends on the operating system's answer to `spawn`.
- The pipe descriptors of `execute_pipeline` are not modelled: `libc::pipe`, `from_raw_fd` and `close` are foreign calls. The model stops at the `Launch` plan.
- Opening and creating redirection files is recorded as a `(path, mode)` target, not performed. The `unwrap` panics on a file that cannot be opened are not modelled.
- `history -r` reads an abstract file, given as a map from path to lines. `lines().flatten()` silently dropping lines that are not UTF-8 is not modelled. Only the open error is. On Linux `File::open` also opens a directory; every read of it then fails with `EISDIR`, so `lines().flatten()` at src/builtins.rs:100 never ends. The model has no such path: a path either opens as lines or fails to open.
- `Os.ReadLines`: every failed open gives the missing-file reason `No such file or directory (os error 2)`. A file that exists but cannot be read, for example for lack of permission, would make src/builtins.rs:106 print a different reason, such as `Permission denied (os error 13)`. The world does not record why a path cannot be opened.
- `pwd` writes the process's working directory. Its error path, when `current_dir` fails, is not modelled, because the model's working directory always exists.
- `cd` to a relative path is not resolved against the current directory. A target is accepted exactly when it is in `System.directories`.
- The order of `read_dir` is taken as given by `System.listings`. Entries whose metadata cannot be read are absent from `lstat`. Names that are not UTF-8 are not represented.
- `usize` is taken to be 64 bits wide.
- Terminal I/O, prompt flushing and ignored `Write` errors are not modelled. Output is the text a member returns.
- Repl.Repl: the loop ends when the reads run out. At end of input, `read_line` returns an empty line, so src/main.rs:16-36 would go on prompting forever.
- `Dispatch.HandleCommand` returns the builtin's output as text instead of writing it to a boxed writer.
