/** `removeFile` (src/commands/file/remove-file/removeFile.ts): returns
    nothing or throws. */
module RemoveFile {
  import opened Outcomes
  import opened FileSystem

  function Wrapped(absolutePath: string, message: string): string
  {
    "Cannot remove file " + absolutePath + ". Error: " + message
  }

  /** What `removeFile` does to the entries, and whether it throws. A
      directory makes `rmSync` fail with EISDIR. */
  function RemoveFileEffect(t: Tree, cwd: string, absolutePathToFile: string): (e: (Completion<()>, Tree))
    ensures WellFormed(t) ==> WellFormed(e.1)
    ensures e.0.Threw? ==> e.1 == t
    ensures e.0.Returned? ==> e.1 == t || (KeyOf(cwd, absolutePathToFile).Some? && e.1 == t - {KeyOf(cwd, absolutePathToFile).value})
  {
    var at := KeyOf(cwd, absolutePathToFile);
    if StatAt(t, at) == Absent then (Returned(()), t)
    else
      match FileSystem.RemoveFile(t, at)
      case Returned(t2) => (Returned(()), t2)
      case Threw(code) => (Threw(Wrapped(absolutePathToFile, code)), t)
  }

  method RemoveFile(disk: Disk, absolutePathToFile: string) returns (r: Completion<()>)
    requires disk.Valid()
    modifies disk
    ensures disk.Valid()
    ensures (r, disk.entries) == RemoveFileEffect(old(disk.entries), disk.cwd, absolutePathToFile)
  {
    var at := KeyOf(disk.cwd, absolutePathToFile);
    if disk.StatOf(absolutePathToFile) == Absent {
      return Returned(());
    }
    match FileSystem.RemoveFile(disk.entries, at)
    case Returned(t2) =>
      disk.entries := t2;
      r := Returned(());
    case Threw(code) =>
      r := Threw(Wrapped(absolutePathToFile, code));
  }

  /** A missing path returns with no change. */
  lemma MissingReturns(t: Tree, cwd: string, p: string)
    requires StatAt(t, KeyOf(cwd, p)) == Absent
    ensures RemoveFileEffect(t, cwd, p) == (Returned(()), t)
  {
  }

  /** An existing file is removed and nothing else changes. */
  lemma RemovesFile(t: Tree, cwd: string, p: string, k: Key)
    requires KeyOf(cwd, p) == Some(k) && k in t && t[k].File?
    ensures RemoveFileEffect(t, cwd, p) == (Returned(()), t - {k})
  {
  }

  /** A directory is kept and the failure is rethrown with the path. */
  lemma DirectoryThrows(t: Tree, cwd: string, p: string, k: Key)
    requires KeyOf(cwd, p) == Some(k) && k in t && t[k] == Dir
    ensures RemoveFileEffect(t, cwd, p) == (Threw(Wrapped(p, "EISDIR")), t)
  {
  }
}
