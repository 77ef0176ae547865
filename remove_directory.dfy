/** `removeDirectory` (src/commands/file/remove-directory/removeDirectory.ts). */
module RemoveDirectory {
  import opened Outcomes
  import opened FileSystem

  function NotEmpty(path: string): string
  {
    "Directory " + path + " is not empty. Skipping deletion."
  }

  function Wrapped(path: string, message: string): string
  {
    "Cannot remove directory " + path + ". Error: " + message
  }

  /** What `removeDirectory` does to the entries, and what it answers. A
      file makes `readdirSync` fail with ENOTDIR. */
  function RemoveDirectoryEffect(t: Tree, cwd: string, path: string, force: bool): (e: (Response, Tree))
    ensures WellFormed(t) ==> WellFormed(e.1)
    ensures e.0.Failure? ==> e.1 == t
    ensures e.0.Success? ==> forall key :: key in e.1 ==> key in t && e.1[key] == t[key]
  {
    var at := KeyOf(cwd, path);
    var stat := StatAt(t, at);
    if stat == Absent then (Success, t)
    else if stat == IsFile then (Failure(Wrapped(path, "ENOTDIR")), t)
    else if HasChildren(t, at.value) && !force then (Failure(NotEmpty(path)), t)
    else (Success, RemoveTree(t, at))
  }

  method RemoveDirectory(disk: Disk, absolutePathToDirectory: string, force: bool) returns (response: Response)
    requires disk.Valid()
    modifies disk
    ensures disk.Valid()
    ensures (response, disk.entries) == RemoveDirectoryEffect(old(disk.entries), disk.cwd, absolutePathToDirectory, force)
  {
    var at := KeyOf(disk.cwd, absolutePathToDirectory);
    var stat := disk.StatOf(absolutePathToDirectory);
    if stat == Absent {
      return Success;
    }
    if stat == IsFile {
      return Failure(Wrapped(absolutePathToDirectory, "ENOTDIR"));
    }
    if HasChildren(disk.entries, at.value) && !force {
      return Failure(NotEmpty(absolutePathToDirectory));
    }
    disk.entries := RemoveTree(disk.entries, at);
    response := Success;
  }

  /** A missing directory is a success that changes nothing. */
  lemma MissingIsSuccess(t: Tree, cwd: string, path: string, force: bool)
    requires StatAt(t, KeyOf(cwd, path)) == Absent
    ensures RemoveDirectoryEffect(t, cwd, path, force) == (Success, t)
  {
  }

  /** A directory with something inside is left alone unless forced. */
  lemma NotEmptyRefused(t: Tree, cwd: string, path: string, k: Key)
    requires KeyOf(cwd, path) == Some(k) && k in t && t[k] == Dir && HasChildren(t, k)
    ensures RemoveDirectoryEffect(t, cwd, path, false) == (Failure(NotEmpty(path)), t)
  {
  }

  /** A file is not removed. */
  lemma FileRefused(t: Tree, cwd: string, path: string, k: Key, force: bool)
    requires KeyOf(cwd, path) == Some(k) && k in t && t[k].File?
    ensures RemoveDirectoryEffect(t, cwd, path, force) == (Failure(Wrapped(path, "ENOTDIR")), t)
  {
  }

  /** An empty directory, or any directory when forced, goes with everything
      below it; every other entry stays. */
  lemma RemovesSubtree(t: Tree, cwd: string, path: string, k: Key, force: bool)
    requires WellFormed(t)
    requires KeyOf(cwd, path) == Some(k) && k != [] && k in t && t[k] == Dir
    requires force || !HasChildren(t, k)
    ensures var e := RemoveDirectoryEffect(t, cwd, path, force);
            && e.0 == Success
            && (forall key :: key in e.1 <==> key in t && !(k <= key))
            && (forall key :: key in e.1 ==> e.1[key] == t[key])
  {
    assert forall key :: key in t && !(k <= key) ==> key != [] || key == [];
  }

  /** Without `force` only an empty directory is removed, so exactly that
      one entry goes. */
  lemma EmptyRemovesOnlyItself(t: Tree, cwd: string, path: string, k: Key)
    requires WellFormed(t)
    requires KeyOf(cwd, path) == Some(k) && k != [] && k in t && t[k] == Dir && !HasChildren(t, k)
    ensures RemoveDirectoryEffect(t, cwd, path, false) == (Success, t - {k})
  {
    assert RemoveDirectoryEffect(t, cwd, path, false) == (Success, RemoveTree(t, Some(k)));
    RemoveChildless(t, k);
  }
}
