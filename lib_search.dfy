/** The parts of src/lib.rs that the builtins also use: the status every
    command returns, and the two searches of the directories named by `PATH`. */
module Lib {
  import opened Text
  import opened Os

  /** What running a command tells the shell loop. `LoadHistory` is the
      status `history -r` returns with the lines it read. */
  datatype ShellStatus = Continue | Exit(code: int) | LoadHistory(lines: seq<string>)

  /** Octal 111: the execute bits for owner, group and others. */
  const EXECUTE_BITS: bv32 := 0x49

  /** A regular file with at least one execute bit set. */
  predicate Executable(info: FileInfo) {
    info.isFile && (info.mode & EXECUTE_BITS) != 0
  }

  predicate ExecutableAt(meta: map<string, FileInfo>, path: string) {
    path in meta && Executable(meta[path])
  }

  /** `PathBuf::join` on Unix: an absolute name replaces the directory, an
      empty directory adds nothing, and a separator is put in only when the
      directory does not already end with one. */
  function JoinPath(dir: string, name: string): string {
    if name != [] && name[0] == '/' then name
    else if dir == [] then name
    else if dir[|dir| - 1] == '/' then dir + name
    else dir + "/" + name
  }

  /** The joined path is the name itself when the name is absolute;
      otherwise it ends with the name, and the directory and the name are
      separated by exactly one added `/` unless the directory is empty or
      already ends with one. */
  lemma JoinPathShape(dir: string, name: string)
    ensures var p := JoinPath(dir, name);
      && (name != [] && name[0] == '/' ==> p == name)
      && ((name == [] || name[0] != '/') ==> |p| >= |name| && p[|p| - |name|..] == name)
      && ((name == [] || name[0] != '/') && dir != [] ==>
            p[..|dir|] == dir && (p == dir + name <==> dir[|dir| - 1] == '/'))
  {
    var p := JoinPath(dir, name);
    if name == [] || name[0] != '/' {
      if dir != [] && dir[|dir| - 1] != '/' {
        assert p == dir + ("/" + name);
        assert |p| != |dir + name|;
      }
    }
  }

  /** `env::split_paths` of `PATH` on Unix (pieces between colons, empty ones
      included), or `None` when the variable is unset. */
  function SearchPath(env: map<string, string>): Option<seq<string>> {
    if "PATH" in env then Some(Split(env["PATH"], ':')) else None
  }

  // ---------------------------------------------------------------------
  // get_executable_path

  /** The first directory, in order, holding an executable `name`. */
  function FirstExecutable(dirs: seq<string>, stat: map<string, FileInfo>, name: string): Option<string>
    decreases |dirs|
  {
    if dirs == [] then None
    else if ExecutableAt(stat, JoinPath(dirs[0], name)) then Some(JoinPath(dirs[0], name))
    else FirstExecutable(dirs[1..], stat, name)
  }

  function ExecutablePath(sys: System, name: string): Option<string> {
    match SearchPath(sys.env)
    case None => None
    case Some(dirs) => FirstExecutable(dirs, sys.stat, name)
  }

  /** The search finds nothing exactly when no directory holds an
      executable `name`. */
  lemma {:induction false} FirstExecutableNone(dirs: seq<string>, stat: map<string, FileInfo>, name: string)
    ensures FirstExecutable(dirs, stat, name) == None <==>
      forall k :: 0 <= k < |dirs| ==> !ExecutableAt(stat, JoinPath(dirs[k], name))
    decreases |dirs|
  {
    if dirs != [] {
      FirstExecutableNone(dirs[1..], stat, name);
      forall k | 1 <= k < |dirs| ensures dirs[k] == dirs[1..][k - 1] { }
    }
  }

  /** When directory `k` is the first to hold an executable `name`, the
      search returns `dirs[k]` joined with `name`. */
  lemma {:induction false} FirstExecutableFound(dirs: seq<string>, stat: map<string, FileInfo>, name: string, k: nat)
    requires k < |dirs| && ExecutableAt(stat, JoinPath(dirs[k], name))
    requires forall j :: 0 <= j < k ==> !ExecutableAt(stat, JoinPath(dirs[j], name))
    ensures FirstExecutable(dirs, stat, name) == Some(JoinPath(dirs[k], name))
    decreases k
  {
    if k > 0 {
      assert !ExecutableAt(stat, JoinPath(dirs[0], name));
      forall j | 0 <= j < k - 1 ensures !ExecutableAt(stat, JoinPath(dirs[1..][j], name)) {
        assert dirs[1..][j] == dirs[j + 1];
      }
      FirstExecutableFound(dirs[1..], stat, name, k - 1);
    }
  }

  /** What the search returns is always an executable regular file. */
  lemma {:induction false} FirstExecutableIsExecutable(dirs: seq<string>, stat: map<string, FileInfo>, name: string)
    requires FirstExecutable(dirs, stat, name).Some?
    ensures ExecutableAt(stat, FirstExecutable(dirs, stat, name).value)
    decreases |dirs|
  {
    if !ExecutableAt(stat, JoinPath(dirs[0], name)) {
      FirstExecutableIsExecutable(dirs[1..], stat, name);
    }
  }

  /** `get_executable_path` (src/lib.rs:116-130): try each `PATH` directory
      in order and return at the first executable match. */
  method GetExecutablePath(sys: System, name: string) returns (r: Option<string>)
    ensures r == ExecutablePath(sys, name)
  {
    if "PATH" !in sys.env {
      return None;
    }
    var dirs := Split(sys.env["PATH"], ':');
    for i := 0 to |dirs|
      invariant FirstExecutable(dirs[i..], sys.stat, name) == FirstExecutable(dirs, sys.stat, name)
    {
      var full := JoinPath(dirs[i], name);
      if full in sys.stat && Executable(sys.stat[full]) {
        return Some(full);
      }
      assert dirs[i..][1..] == dirs[i + 1..];
    }
    return None;
  }

  // ---------------------------------------------------------------------
  // get_all_executables

  /** The names listed in `dir` whose entries are executable regular files,
      in listing order. */
  function ExecutablesListed(dir: string, names: seq<string>, lstat: map<string, FileInfo>): (r: seq<string>)
    ensures |r| <= |names|
    decreases |names|
  {
    if names == [] then []
    else
      var last := names[|names| - 1];
      var init := ExecutablesListed(dir, names[..|names| - 1], lstat);
      if ExecutableAt(lstat, JoinPath(dir, last)) then init + [last] else init
  }

  /** A listed name is kept exactly when its entry is an executable regular
      file. */
  lemma {:induction false} ExecutablesListedMember(dir: string, names: seq<string>, lstat: map<string, FileInfo>, x: string)
    ensures x in ExecutablesListed(dir, names, lstat) <==> x in names && ExecutableAt(lstat, JoinPath(dir, x))
    decreases |names|
  {
    if names != [] {
      var init := names[..|names| - 1];
      ExecutablesListedMember(dir, init, lstat, x);
      assert names == init + [names[|names| - 1]];
    }
  }

  function ListingOf(sys: System, dir: string): seq<string> {
    if dir in sys.listings then sys.listings[dir] else []
  }

  /** Executable names directory by directory, in `PATH` order. */
  function ExecutablesIn(dirs: seq<string>, sys: System): seq<string>
    decreases |dirs|
  {
    if dirs == [] then []
    else
      var last := dirs[|dirs| - 1];
      ExecutablesIn(dirs[..|dirs| - 1], sys) + ExecutablesListed(last, ListingOf(sys, last), sys.lstat)
  }

  function AllExecutables(sys: System): seq<string> {
    match SearchPath(sys.env)
    case None => []
    case Some(dirs) => ExecutablesIn(dirs, sys)
  }

  /** `get_all_executables` (src/lib.rs:136-156): for each `PATH` directory
      that can be read, push every entry that is an executable regular
      file. */
  method GetAllExecutables(sys: System) returns (executables: seq<string>)
    ensures executables == AllExecutables(sys)
  {
    executables := [];
    if "PATH" in sys.env {
      var dirs := Split(sys.env["PATH"], ':');
      for i := 0 to |dirs|
        invariant executables == ExecutablesIn(dirs[..i], sys)
      {
        var dir := dirs[i];
        if dir in sys.listings {
          var found := ScanDirectory(dir, sys.listings[dir], sys.lstat);
          executables := executables + found;
        }
        DirectoryStep(dirs, i, sys);
      }
      assert dirs[..|dirs|] == dirs;
    }
  }

  /** The inner loop of `get_all_executables` over the entries of one
      directory. */
  method ScanDirectory(dir: string, entries: seq<string>, lstat: map<string, FileInfo>) returns (found: seq<string>)
    ensures found == ExecutablesListed(dir, entries, lstat)
  {
    found := [];
    for j := 0 to |entries|
      invariant found == ExecutablesListed(dir, entries[..j], lstat)
    {
      var name := entries[j];
      var path := JoinPath(dir, name);
      if path in lstat && Executable(lstat[path]) {
        ListedKeep(dir, entries, j, lstat);
        found := found + [name];
      } else {
        ListedSkip(dir, entries, j, lstat);
      }
    }
    assert entries[..|entries|] == entries;
  }

  lemma ListedKeep(dir: string, names: seq<string>, j: nat, lstat: map<string, FileInfo>)
    requires j < |names| && ExecutableAt(lstat, JoinPath(dir, names[j]))
    ensures ExecutablesListed(dir, names[..j + 1], lstat) == ExecutablesListed(dir, names[..j], lstat) + [names[j]]
  {
    assert names[..j + 1][..j] == names[..j];
  }

  lemma ListedSkip(dir: string, names: seq<string>, j: nat, lstat: map<string, FileInfo>)
    requires j < |names| && !ExecutableAt(lstat, JoinPath(dir, names[j]))
    ensures ExecutablesListed(dir, names[..j + 1], lstat) == ExecutablesListed(dir, names[..j], lstat)
  {
    assert names[..j + 1][..j] == names[..j];
  }

  lemma DirectoryStep(dirs: seq<string>, i: nat, sys: System)
    requires i < |dirs|
    ensures ExecutablesIn(dirs[..i + 1], sys) ==
      ExecutablesIn(dirs[..i], sys) + ExecutablesListed(dirs[i], ListingOf(sys, dirs[i]), sys.lstat)
    ensures dirs[i] !in sys.listings ==> ExecutablesIn(dirs[..i + 1], sys) == ExecutablesIn(dirs[..i], sys)
  {
    assert dirs[..i + 1][..i] == dirs[..i];
    var init := ExecutablesIn(dirs[..i], sys);
    AppendNothing(init);
  }

  /** Grouping: the names found in two runs of directories are those of the
      first run followed by those of the second. */
  lemma {:induction false} ExecutablesInAppend(a: seq<string>, b: seq<string>, sys: System)
    ensures ExecutablesIn(a + b, sys) == ExecutablesIn(a, sys) + ExecutablesIn(b, sys)
    decreases |b|
  {
    if b == [] {
      assert a + b == a;
    } else {
      var b' := b[..|b| - 1];
      var last := b[|b| - 1];
      var found := ExecutablesListed(last, ListingOf(sys, last), sys.lstat);
      ExecutablesInAppend(a, b', sys);
      assert (a + b)[..|a + b| - 1] == a + b';
      assert (a + b)[|a + b| - 1] == last;
      assert ExecutablesIn(a + b, sys) == ExecutablesIn(a + b', sys) + found;
      assert ExecutablesIn(b, sys) == ExecutablesIn(b', sys) + found;
      var x, y := ExecutablesIn(a, sys), ExecutablesIn(b', sys);
      assert (x + y) + found == x + (y + found);
    }
  }

  /** `dir`'s listing holds `x` as an executable regular file. */
  predicate ListsExecutable(sys: System, dir: string, x: string) {
    x in ListingOf(sys, dir) && ExecutableAt(sys.lstat, JoinPath(dir, x))
  }

  /** A name is listed exactly when some `PATH` directory's listing holds it
      as an executable regular file. */
  lemma {:induction false} ExecutablesInMember(dirs: seq<string>, sys: System, x: string)
    ensures x in ExecutablesIn(dirs, sys) <==> exists k :: 0 <= k < |dirs| && ListsExecutable(sys, dirs[k], x)
    decreases |dirs|
  {
    if dirs != [] {
      var init, last := dirs[..|dirs| - 1], dirs[|dirs| - 1];
      var found := ExecutablesListed(last, ListingOf(sys, last), sys.lstat);
      ExecutablesInMember(init, sys, x);
      ExecutablesListedMember(last, ListingOf(sys, last), sys.lstat, x);
      assert ExecutablesIn(dirs, sys) == ExecutablesIn(init, sys) + found;
      if x in ExecutablesIn(dirs, sys) {
        if x in ExecutablesIn(init, sys) {
          var k :| 0 <= k < |init| && ListsExecutable(sys, init[k], x);
          assert dirs[k] == init[k];
        } else {
          assert ListsExecutable(sys, dirs[|dirs| - 1], x);
        }
      } else {
        forall k | 0 <= k < |dirs| ensures !ListsExecutable(sys, dirs[k], x) {
          if k < |init| {
            assert init[k] == dirs[k];
          }
        }
      }
    }
  }

  /** Duplicates are kept: a name executable in two different `PATH`
      directories is listed at least twice. */
  lemma DuplicatesKept(dirs: seq<string>, sys: System, x: string, i: nat, j: nat)
    requires i < j < |dirs|
    requires ListsExecutable(sys, dirs[i], x) && ListsExecutable(sys, dirs[j], x)
    ensures multiset(ExecutablesIn(dirs, sys))[x] >= 2
  {
    var a, b := dirs[..j], dirs[j..];
    assert dirs == a + b;
    ExecutablesInAppend(a, b, sys);
    ExecutablesInMember(a, sys, x);
    assert a[i] == dirs[i];
    ExecutablesInMember(b, sys, x);
    assert b[0] == dirs[j];
    var ea, eb := ExecutablesIn(a, sys), ExecutablesIn(b, sys);
    assert multiset(ea + eb) == multiset(ea) + multiset(eb);
  }
}
