/** `removeFileSync` and `_removeFileSync`
    (src/commands/file/remove-file/removeFileSync.ts). */
module RemoveFileSync {
  import opened Outcomes
  import opened PosixPath
  import opened AbsolutePath
  import opened FileSystem

  const GivenDirectory := "Was given a directory. Use removeDirectory instead."
  const StillThere := "Could not remove file. Did it have protective permissions?"

  function Wrapped(absolutePath: string, message: string): string
  {
    "Cannot remove file " + absolutePath + ". Error: " + message
  }

  /** Where the checks look: the path made absolute first. */
  function Target(cwd: string, pathToFile: string): (at: Option<Key>)
    ensures Absolute(cwd, pathToFile) != "" ==> at == Some(Locate(cwd, pathToFile))
    ensures Absolute(cwd, pathToFile) == "" ==> at.None?
  {
    var abs := Absolute(cwd, pathToFile);
    assert abs != "" ==> KeyOf(cwd, abs) == Some(Locate(cwd, pathToFile)) by {
      if abs != "" {
        SameLocation(cwd, pathToFile);
      }
    }
    KeyOf(cwd, abs)
  }

  /** What `_removeFileSync` does to the entries, and what it answers. */
  function RemoveFileEffect(t: Tree, cwd: string, pathToFile: string): (e: (Response, Tree))
    ensures WellFormed(t) ==> WellFormed(e.1)
    ensures e.0.Failure? ==> e.1 == t
    ensures e.1 == t || (Target(cwd, pathToFile).Some? && e.1 == t - {Target(cwd, pathToFile).value})
  {
    var abs := Absolute(cwd, pathToFile);
    var at := Target(cwd, pathToFile);
    var stat := StatAt(t, at);
    if stat == Absent then (Success, t)
    else if stat == IsDirectory then (Failure(GivenDirectory), t)
    else
      match RemoveFile(t, at)
      case Returned(t2) => (if StatAt(t2, at) != Absent then Failure(StillThere) else Success, t2)
      case Threw(code) => (Failure(Wrapped(abs, code)), t)
  }

  /** `removeFileSync`: removes, then throws the failure's error if asked to. */
  method RemoveFileSync(disk: Disk, pathToFile: string, throwError: bool) returns (r: Completion<Response>)
    requires disk.Valid()
    modifies disk
    ensures disk.Valid()
    ensures var e := RemoveFileEffect(old(disk.entries), disk.cwd, pathToFile);
            r == Raise(e.0, throwError) && disk.entries == e.1
  {
    var response := RemoveOnce(disk, pathToFile);
    r := Raise(response, throwError);
  }

  /** `_removeFileSync`, step by step. */
  method RemoveOnce(disk: Disk, pathToFile: string) returns (response: Response)
    requires disk.Valid()
    modifies disk
    ensures disk.Valid()
    ensures (response, disk.entries) == RemoveFileEffect(old(disk.entries), disk.cwd, pathToFile)
  {
    var abs := Absolute(disk.cwd, pathToFile);
    var at := Target(disk.cwd, pathToFile);
    var stat := StatAt(disk.entries, at);
    if stat == Absent {
      return Success;
    }
    if stat == IsDirectory {
      return Failure(GivenDirectory);
    }
    match RemoveFile(disk.entries, at)
    case Returned(t2) =>
      disk.entries := t2;
      response := if StatAt(disk.entries, at) != Absent then Failure(StillThere) else Success;
    case Threw(code) =>
      response := Failure(Wrapped(abs, code));
  }

  /** A missing file is a success that changes nothing. */
  lemma MissingIsSuccess(t: Tree, cwd: string, pathToFile: string)
    requires Absolute(cwd, pathToFile) != "" ==> Locate(cwd, pathToFile) !in t
    ensures RemoveFileEffect(t, cwd, pathToFile) == (Success, t)
  {
  }

  /** The root becomes the empty path, which names nothing, so removing '/'
      answers success and changes nothing. */
  lemma RootIsSuccess(t: Tree, cwd: string)
    ensures RemoveFileEffect(t, cwd, "/") == (Success, t)
  {
    RootIsEmpty(cwd);
  }

  /** A directory is refused and kept. */
  lemma DirectoryRefused(t: Tree, cwd: string, pathToFile: string)
    requires Absolute(cwd, pathToFile) != ""
    requires var k := Locate(cwd, pathToFile); k in t && t[k] == Dir
    ensures RemoveFileEffect(t, cwd, pathToFile) == (Failure(GivenDirectory), t)
  {
  }

  /** An existing file is removed, nothing else changes, and the answer is
      success: the re-check after removal never finds it. */
  lemma RemovesFile(t: Tree, cwd: string, pathToFile: string)
    requires Absolute(cwd, pathToFile) != ""
    requires var k := Locate(cwd, pathToFile); k in t && t[k].File?
    ensures RemoveFileEffect(t, cwd, pathToFile) == (Success, t - {Locate(cwd, pathToFile)})
  {
  }

  /** The answer is a failure only for a directory. */
  lemma FailsOnlyForDirectory(t: Tree, cwd: string, pathToFile: string)
    ensures RemoveFileEffect(t, cwd, pathToFile).0.Failure? <==>
            StatAt(t, Target(cwd, pathToFile)) == IsDirectory
  {
  }
}
