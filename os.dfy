/** The operating system as the shell sees it. The environment, the file
    system and the directory listings are read-only inputs; the current
    working directory is the one piece of process state a builtin (`cd`)
    changes. */
module Os {

  /** What a metadata probe reports about a path: whether it is a regular
      file, and its permission bits. */
  datatype FileInfo = FileInfo(isFile: bool, mode: bv32)

  /** What opening a file and reading it line by line gives. */
  datatype FileRead = Lines(lines: seq<string>) | OpenError(reason: string)

  /** The read-only world: environment variables; metadata that follows
      symbolic links (`Path::is_file`, `Path::metadata`); metadata of directory
      entries themselves (`DirEntry::metadata`, which does not follow them);
      each directory's entry names in the order `read_dir` yields them; the
      paths `set_current_dir` accepts; and the files `File::open` can read. */
  datatype System = System(
    env: map<string, string>,
    stat: map<string, FileInfo>,
    lstat: map<string, FileInfo>,
    listings: map<string, seq<string>>,
    directories: set<string>,
    files: map<string, seq<string>>)

  /** `File::open` followed by `lines()`: a path that is not in `files` fails
      the way a missing file does. */
  function ReadLines(sys: System, path: string): (r: FileRead)
    ensures r.Lines? <==> path in sys.files
  {
    if path in sys.files then Lines(sys.files[path])
    else OpenError("No such file or directory (os error 2)")
  }

  /** The shell process: its working directory changes, the world it reads
      does not. */
  class Process {
    var cwd: string
    const sys: System

    constructor (sys: System, cwd: string)
      ensures this.sys == sys && this.cwd == cwd
    {
      this.sys := sys;
      this.cwd := cwd;
    }
  }
}
