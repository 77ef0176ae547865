/** The synchronous Node adapter `fileIoSyncNode` (src/fileIoSyncNode.ts):
    each operation wraps one or two `fs` calls and rethrows their failure
    with the path. */
module FileIoSyncNode {
  import opened Outcomes
  import opened PosixPath
  import opened TrailingSep
  import opened FileSystem

  // ---------------------------------------------------------------------
  // list_files

  /** One entry of `readdirSync(dir, {withFileTypes: true})`. */
  datatype Dirent = Dirent(name: string, isFile: bool, parentPath: string)

  /** One listed file: its name, its directory and its uri. */
  datatype Listed = Listed(file: string, path: string, uri: string)

  /** Kept by the filter: a file whose name passes the pattern, if any. */
  predicate Selected(d: Dirent, pattern: Option<string -> bool>)
  {
    d.isFile && (pattern.None? || pattern.value(d.name))
  }

  /** What the map makes of one entry. */
  function ListedOf(d: Dirent): Listed
  {
    var path := StripTrailingSep(d.parentPath);
    Listed(d.name, path, path + "/" + d.name)
  }

  /** The filter and map over the listing, in the listing's order. */
  function ListFiles(entries: seq<Dirent>, pattern: Option<string -> bool>): (r: seq<Listed>)
    ensures |r| <= |entries|
    ensures forall l :: l in r ==> exists d :: d in entries && Selected(d, pattern) && l == ListedOf(d)
    ensures forall d :: d in entries && Selected(d, pattern) ==> ListedOf(d) in r
  {
    if entries == [] then []
    else
      var rest := ListFiles(entries[1..], pattern);
      assert forall d :: d in entries[1..] ==> d in entries;
      (if Selected(entries[0], pattern) then [ListedOf(entries[0])] else []) + rest
  }

  /** `list_files`: a failed listing is rethrown with the directory. */
  function ListFilesSync(absolutePathDirectory: string, listing: Completion<seq<Dirent>>, pattern: Option<string -> bool>): (r: Completion<seq<Listed>>)
    ensures r.Threw? <==> listing.Threw?
    ensures listing.Threw? ==> r.message == "Cannot list files " + absolutePathDirectory + ". Error: " + listing.message
    ensures listing.Returned? ==> r.value == ListFiles(listing.value, pattern)
  {
    match listing
    case Returned(entries) => Returned(ListFiles(entries, pattern))
    case Threw(message) => Threw("Cannot list files " + absolutePathDirectory + ". Error: " + message)
  }

  /** Every listed uri is the entry's directory, without one trailing
      separator, joined to its name by '/'; it ends with the name. */
  lemma ListedUri(entries: seq<Dirent>, pattern: Option<string -> bool>)
    ensures forall l :: l in ListFiles(entries, pattern) ==>
              && l.uri == l.path + "/" + l.file
              && exists d :: d in entries && d.isFile && l.file == d.name && l.path == StripTrailingSep(d.parentPath)
  {
  }

  /** Directories and other non-files are never listed, and with a pattern
      only matching names are. */
  lemma OnlyMatchingFiles(entries: seq<Dirent>, pattern: Option<string -> bool>)
    ensures forall l :: l in ListFiles(entries, pattern) ==>
              exists d :: d in entries && d.isFile && d.name == l.file && (pattern.None? || pattern.value(l.file))
  {
  }

  /** Without a pattern and with only files, every entry is listed in order. */
  lemma {:induction false} AllFilesListed(entries: seq<Dirent>)
    requires forall i :: 0 <= i < |entries| ==> entries[i].isFile
    ensures var r := ListFiles(entries, None);
            |r| == |entries| && forall i :: 0 <= i < |r| ==> r[i] == ListedOf(entries[i])
  {
    if entries != [] {
      AllFilesListed(entries[1..]);
    }
  }

  // ---------------------------------------------------------------------
  // write

  function WriteWrapped(absolutePath: string, message: string): string
  {
    "Cannot write file " + absolutePath + ". Error: " + message
  }

  /** What `write` does to the entries, and whether it throws. */
  function WriteEffect(t: Tree, cwd: string, absolutePath: string, content: string, append: bool, separator: string): (e: (Completion<()>, Tree))
    ensures WellFormed(t) ==> WellFormed(e.1)
    ensures e.0.Threw? ==> e.1 == t
    ensures e.0.Returned? ==> var at := KeyOf(cwd, absolutePath);
              at.Some? && at.value in e.1 && e.1[at.value].File? && e.1 == t[at.value := e.1[at.value]]
  {
    var at := KeyOf(cwd, absolutePath);
    var written :=
      if append then
        var hasFile := StatAt(t, at) == IsFile;
        AppendFile(t, at, if hasFile && separator != "" then separator + content else content)
      else WriteFile(t, at, content);
    match written
    case Returned(t2) => (Returned(()), t2)
    case Threw(code) => (Threw(WriteWrapped(absolutePath, code)), t)
  }

  method Write(disk: Disk, absolutePath: string, content: string, append: bool, separator: string) returns (r: Completion<()>)
    requires disk.Valid()
    modifies disk
    ensures disk.Valid()
    ensures (r, disk.entries) == WriteEffect(old(disk.entries), disk.cwd, absolutePath, content, append, separator)
  {
    var at := KeyOf(disk.cwd, absolutePath);
    var written;
    if append {
      var c := content;
      if disk.StatOf(absolutePath) == IsFile && separator != "" {
        c := separator + content;
      }
      written := AppendFile(disk.entries, at, c);
    } else {
      written := WriteFile(disk.entries, at, content);
    }
    match written
    case Returned(t2) =>
      disk.entries := t2;
      r := Returned(());
    case Threw(code) =>
      r := Threw(WriteWrapped(absolutePath, code));
  }

  /** Appending to an existing file puts the separator before the new content. */
  lemma AppendToExisting(t: Tree, cwd: string, p: string, k: Key, content: string, separator: string)
    requires KeyOf(cwd, p) == Some(k) && k in t && t[k].File?
    ensures WriteEffect(t, cwd, p, content, true, separator) ==
            (Returned(()), t[k := File(t[k].content + separator + content)])
  {
    if separator == "" {
      assert t[k].content + separator + content == t[k].content + content;
    } else {
      assert t[k].content + separator + content == t[k].content + (separator + content);
    }
  }

  /** Appending creates a missing file with the bare content. */
  lemma AppendCreates(t: Tree, cwd: string, p: string, k: Key, content: string, separator: string)
    requires KeyOf(cwd, p) == Some(k) && k !in t && ParentIsDir(t, k)
    ensures WriteEffect(t, cwd, p, content, true, separator) == (Returned(()), t[k := File(content)])
  {
  }

  /** Without append the content replaces whatever file was there. */
  lemma Replaces(t: Tree, cwd: string, p: string, k: Key, content: string, separator: string)
    requires KeyOf(cwd, p) == Some(k)
    requires (k in t && t[k].File?) || (k !in t && ParentIsDir(t, k))
    ensures WriteEffect(t, cwd, p, content, false, separator) == (Returned(()), t[k := File(content)])
  {
  }

  // ---------------------------------------------------------------------
  // remove_directory

  function RemoveDirectoryWrapped(absolutePath: string, message: string): string
  {
    "Cannot remove directory " + absolutePath + ". Error: " + message
  }

  /** What `remove_directory` does to the entries, and whether it throws. A
      non-empty directory without `force` is skipped with only a log line. */
  function RemoveDirectoryEffect(t: Tree, cwd: string, absolutePath: string, force: bool): (e: (Completion<()>, Tree))
    ensures WellFormed(t) ==> WellFormed(e.1)
    ensures e.0.Threw? ==> e.1 == t
    ensures forall key :: key in e.1 ==> key in t && e.1[key] == t[key]
  {
    var at := KeyOf(cwd, absolutePath);
    if StatAt(t, at) != IsDirectory then (Returned(()), t)
    else if HasChildren(t, at.value) && !force then (Returned(()), t)
    else if force then (Returned(()), RemoveTree(t, at))
    else
      match Rmdir(t, at)
      case Returned(t2) => (Returned(()), t2)
      case Threw(code) => (Threw(RemoveDirectoryWrapped(absolutePath, code)), t)
  }

  method RemoveDirectory(disk: Disk, absolutePath: string, force: bool) returns (r: Completion<()>)
    requires disk.Valid()
    modifies disk
    ensures disk.Valid()
    ensures (r, disk.entries) == RemoveDirectoryEffect(old(disk.entries), disk.cwd, absolutePath, force)
  {
    var at := KeyOf(disk.cwd, absolutePath);
    if disk.StatOf(absolutePath) != IsDirectory {
      return Returned(());
    }
    if HasChildren(disk.entries, at.value) && !force {
      return Returned(());
    }
    if force {
      disk.entries := RemoveTree(disk.entries, at);
      r := Returned(());
    } else {
      match Rmdir(disk.entries, at)
      case Returned(t2) =>
        disk.entries := t2;
        r := Returned(());
      case Threw(code) =>
        r := Threw(RemoveDirectoryWrapped(absolutePath, code));
    }
  }

  /** Nothing changes for a path that is not a directory, or for a non-empty
      directory without `force`. */
  lemma UnchangedUnlessEmptyOrForced(t: Tree, cwd: string, p: string, force: bool)
    requires StatAt(t, KeyOf(cwd, p)) != IsDirectory || (HasChildren(t, KeyOf(cwd, p).value) && !force)
    ensures RemoveDirectoryEffect(t, cwd, p, force) == (Returned(()), t)
  {
  }

  /** With `force` the directory goes with everything below it. */
  lemma ForceRemovesSubtree(t: Tree, cwd: string, p: string, k: Key)
    requires KeyOf(cwd, p) == Some(k) && k in t && t[k] == Dir
    ensures RemoveDirectoryEffect(t, cwd, p, true) == (Returned(()), RemoveTree(t, Some(k)))
  {
  }

  /** Without `force` an empty directory other than the root goes alone. */
  lemma EmptyRemovesItself(t: Tree, cwd: string, p: string, k: Key)
    requires WellFormed(t)
    requires KeyOf(cwd, p) == Some(k) && k != [] && k in t && t[k] == Dir && !HasChildren(t, k)
    ensures RemoveDirectoryEffect(t, cwd, p, false) == (Returned(()), t - {k})
  {
  }

  // ---------------------------------------------------------------------
  // copy_file, has_file

  /** `has_file`: the path names an existing file. */
  predicate HasFile(t: Tree, cwd: string, absolutePath: string)
  {
    StatAt(t, KeyOf(cwd, absolutePath)) == IsFile
  }

  /** What `copy_file` does: `copyFileSync` with its error wrapped; there is
      no check for an existing destination. */
  function CopyEffect(t: Tree, cwd: string, source: string, destination: string): (e: (Completion<()>, Tree))
    ensures WellFormed(t) ==> WellFormed(e.1)
    ensures e.0.Threw? ==> e.1 == t
    ensures e.0.Returned? ==> HasFile(t, cwd, source) && HasFile(e.1, cwd, destination)
  {
    match FileSystem.CopyFile(t, KeyOf(cwd, source), KeyOf(cwd, destination))
    case Returned(t2) => (Returned(()), t2)
    case Threw(code) => (Threw("Cannot copy file " + source + " to " + destination + ". Error: " + code), t)
  }

  method CopyFile(disk: Disk, source: string, destination: string) returns (r: Completion<()>)
    requires disk.Valid()
    modifies disk
    ensures disk.Valid()
    ensures (r, disk.entries) == CopyEffect(old(disk.entries), disk.cwd, source, destination)
  {
    match FileSystem.CopyFile(disk.entries, KeyOf(disk.cwd, source), KeyOf(disk.cwd, destination))
    case Returned(t2) =>
      disk.entries := t2;
      r := Returned(());
    case Threw(code) =>
      r := Threw("Cannot copy file " + source + " to " + destination + ". Error: " + code);
  }

  /** Copying a file to a free name inside an existing directory adds a
      file with the same content there and changes nothing else; an
      existing destination file is replaced the same way. */
  lemma CopiesContent(t: Tree, cwd: string, source: string, destination: string)
    requires HasFile(t, cwd, source)
    requires var d := KeyOf(cwd, destination);
             d.Some? && (HasFile(t, cwd, destination) || (d.value !in t && ParentIsDir(t, d.value)))
    ensures var s := KeyOf(cwd, source).value;
            CopyEffect(t, cwd, source, destination) == (Returned(()), t[KeyOf(cwd, destination).value := File(t[s].content)])
  {
  }

  /** A missing source is an error and changes nothing. */
  lemma CopyMissingSource(t: Tree, cwd: string, source: string, destination: string)
    requires !HasFile(t, cwd, source)
    ensures var e := CopyEffect(t, cwd, source, destination);
            e.0.Threw? && e.1 == t
            && e.0.message == "Cannot copy file " + source + " to " + destination + ". Error: " + (if StatAt(t, KeyOf(cwd, source)) == IsDirectory then "EISDIR" else "ENOENT")
  {
  }

  // ---------------------------------------------------------------------
  // remove_file

  /** What `remove_file` does: only an existing file is removed; anything
      else is left alone without an error. */
  function RemoveFileEffect(t: Tree, cwd: string, absolutePath: string): (e: (Completion<()>, Tree))
    ensures WellFormed(t) ==> WellFormed(e.1)
    ensures e.0.Threw? ==> e.1 == t
  {
    var at := KeyOf(cwd, absolutePath);
    if StatAt(t, at) != IsFile then (Returned(()), t)
    else
      match FileSystem.RemoveFile(t, at)
      case Returned(t2) => (Returned(()), t2)
      case Threw(code) => (Threw("Cannot remove file " + absolutePath + ". Error: " + code), t)
  }

  method RemoveFile(disk: Disk, absolutePath: string) returns (r: Completion<()>)
    requires disk.Valid()
    modifies disk
    ensures disk.Valid()
    ensures (r, disk.entries) == RemoveFileEffect(old(disk.entries), disk.cwd, absolutePath)
  {
    var at := KeyOf(disk.cwd, absolutePath);
    if disk.StatOf(absolutePath) != IsFile {
      return Returned(());
    }
    match FileSystem.RemoveFile(disk.entries, at)
    case Returned(t2) =>
      disk.entries := t2;
      r := Returned(());
    case Threw(code) =>
      r := Threw("Cannot remove file " + absolutePath + ". Error: " + code);
  }

  /** `remove_file` never throws: a file goes, and a missing path or a
      directory is left as it was. */
  lemma RemoveFileOutcome(t: Tree, cwd: string, p: string)
    ensures var e := RemoveFileEffect(t, cwd, p);
            && e.0 == Returned(())
            && (StatAt(t, KeyOf(cwd, p)) == IsFile ==> e.1 == t - {KeyOf(cwd, p).value})
            && (StatAt(t, KeyOf(cwd, p)) != IsFile ==> e.1 == t)
  {
  }

  // ---------------------------------------------------------------------
  // chmod_file

  /** The mode handed to `chmodSync`: '+x' is short for '755'. */
  function ChmodMode(permissions: string): (mode: string)
    ensures permissions == "+x" ==> mode == "755"
    ensures permissions != "+x" ==> mode == permissions
  {
    if permissions == "+x" then "755" else permissions
  }

  /** `chmod_file`: the mode applied to an existing entry; a missing one
      makes `chmodSync` fail. */
  function ChmodFile(t: Tree, cwd: string, absolutePath: string, permissions: string): (r: Completion<string>)
    ensures r.Returned? <==> StatAt(t, KeyOf(cwd, absolutePath)) != Absent
    ensures r.Returned? ==> r.value == ChmodMode(permissions)
    ensures r.Threw? ==> "Cannot chmod file " + absolutePath + ". Error: " <= r.message
  {
    var at := KeyOf(cwd, absolutePath);
    if StatAt(t, at) == Absent then
      var code := if at.Some? then MissingCode(t, at.value) else "ENOENT";
      Threw("Cannot chmod file " + absolutePath + ". Error: " + code)
    else Returned(ChmodMode(permissions))
  }

  /** '+x' on an existing file applies 755. */
  lemma ExecutableIs755(t: Tree, cwd: string, p: string)
    requires StatAt(t, KeyOf(cwd, p)) != Absent
    ensures ChmodFile(t, cwd, p, "+x") == Returned("755")
  {
  }
}
