/** The earlier synchronous Node adapter (src/old/fileIoSyncNode.ts). Its
    `remove_directory`, `remove_file` and `chmod_file` are the same code as
    the current adapter's and are modelled once, in `FileIoSyncNode`. */
module OldFileIoSyncNode {
  import opened Outcomes
  import opened PosixPath
  import opened TrailingSep
  import opened FileSystem
  import PathInfo
  import RelativePath

  // ---------------------------------------------------------------------
  // read

  /** `read`: a missing file reads as undefined; any other failure is
      rethrown with the path. Only ENOENT counts as missing. */
  function Read(t: Tree, cwd: string, absolutePath: string): (r: Completion<Option<string>>)
    ensures var at := KeyOf(cwd, absolutePath);
            && (r.Returned? && r.value.Some? <==> at.Some? && at.value in t && t[at.value].File?)
            && (r.Returned? && r.value.Some? ==> r.value.value == t[at.value].content)
            && (r == Returned(None) <==> at.None? || (at.value !in t && !FileOnPath(t, at.value, false)))
  {
    match ReadFile(t, KeyOf(cwd, absolutePath))
    case Returned(content) => Returned(Some(content))
    case Threw(code) =>
      if code == "ENOENT" then Returned(None)
      else Threw("Cannot read file " + absolutePath + ". Error: " + code)
  }

  // ---------------------------------------------------------------------
  // makeDirectoryIfNotExists

  /** Creates the parent directory of `pathOrFile` unless it is already a
      directory; a failure carries `make_directory`'s message. */
  function MakeDirectoryIfNotExists(t: Tree, cwd: string, pathOrFile: string): (r: Completion<Tree>)
    ensures var dirAt := KeyOf(cwd, Dirname(pathOrFile));
            r.Returned? ==> dirAt.Some? && dirAt.value in r.value && r.value[dirAt.value] == Dir
    ensures r.Returned? ==> forall key :: key in t ==> key in r.value && r.value[key] == t[key]
    ensures r.Returned? ==> forall key :: key in r.value && key !in t ==> r.value[key] == Dir
    ensures WellFormed(t) && r.Returned? ==> WellFormed(r.value)
  {
    var dir := Dirname(pathOrFile);
    var dirAt := KeyOf(cwd, dir);
    if StatAt(t, dirAt) == IsDirectory then Returned(t)
    else
      match MkdirAt(t, dirAt)
      case Returned(t1) => Returned(t1)
      case Threw(code) => Threw("Cannot make directory " + dir + ". Error: " + code)
  }

  // ---------------------------------------------------------------------
  // write

  /** The write options; an absent separator and an empty one behave alike. */
  datatype WriteOptions = WriteOptions(append: bool, separator: string, overwrite: bool, makeDirectory: bool)

  function WriteWrapped(absolutePath: string, message: string): string
  {
    "Cannot write file " + absolutePath + ". Error: " + message
  }

  /** What `write` does to the entries, and whether it throws. */
  function WriteEffect(t: Tree, cwd: string, absolutePath: string, content: string, o: WriteOptions): (e: (Completion<()>, Tree))
    ensures WellFormed(t) ==> WellFormed(e.1)
    ensures forall key :: key in t && (e.0.Threw? || KeyOf(cwd, absolutePath) != Some(key)) ==> key in e.1 && e.1[key] == t[key]
    ensures e.0.Returned? ==> var at := KeyOf(cwd, absolutePath); at.Some? && at.value in e.1 && e.1[at.value].File?
  {
    var at := KeyOf(cwd, absolutePath);
    var hasFile := StatAt(t, at) == IsFile;
    if o.append then
      var c := if hasFile && o.separator != "" then o.separator + content else content;
      match AppendFile(t, at, c)
      case Returned(t2) => (Returned(()), t2)
      case Threw(code) => (Threw(WriteWrapped(absolutePath, code)), t)
    else if !o.overwrite && hasFile then (Threw(WriteWrapped(absolutePath, "Cannot overwrite")), t)
    else
      var made := if !hasFile && o.makeDirectory then MakeDirectoryIfNotExists(t, cwd, absolutePath) else Returned(t);
      match made
      case Threw(message) => (Threw(WriteWrapped(absolutePath, message)), t)
      case Returned(t1) =>
        match WriteFile(t1, at, content)
        case Returned(t2) => (Returned(()), t2)
        case Threw(code) => (Threw(WriteWrapped(absolutePath, code)), t1)
  }

  method Write(disk: Disk, absolutePath: string, content: string, options: WriteOptions) returns (r: Completion<()>)
    requires disk.Valid()
    modifies disk
    ensures disk.Valid()
    ensures (r, disk.entries) == WriteEffect(old(disk.entries), disk.cwd, absolutePath, content, options)
  {
    var at := KeyOf(disk.cwd, absolutePath);
    var hasFile := disk.StatOf(absolutePath) == IsFile;
    if options.append {
      var c := content;
      if hasFile && options.separator != "" {
        c := options.separator + content;
      }
      match AppendFile(disk.entries, at, c)
      case Returned(t2) =>
        disk.entries := t2;
        r := Returned(());
      case Threw(code) =>
        r := Threw(WriteWrapped(absolutePath, code));
    } else {
      r := WriteFresh(disk, absolutePath, content, options);
    }
  }

  /** The non-appending part of `write`. */
  method WriteFresh(disk: Disk, absolutePath: string, content: string, options: WriteOptions) returns (r: Completion<()>)
    requires disk.Valid() && !options.append
    modifies disk
    ensures disk.Valid()
    ensures (r, disk.entries) == WriteEffect(old(disk.entries), disk.cwd, absolutePath, content, options)
  {
    var at := KeyOf(disk.cwd, absolutePath);
    var hasFile := disk.StatOf(absolutePath) == IsFile;
    if !options.overwrite && hasFile {
      return Threw(WriteWrapped(absolutePath, "Cannot overwrite"));
    }
    if !hasFile && options.makeDirectory {
      match MakeDirectoryIfNotExists(disk.entries, disk.cwd, absolutePath)
      case Returned(t1) =>
        disk.entries := t1;
      case Threw(message) =>
        return Threw(WriteWrapped(absolutePath, message));
    }
    match WriteFile(disk.entries, at, content)
    case Returned(t2) =>
      disk.entries := t2;
      r := Returned(());
    case Threw(code) =>
      r := Threw(WriteWrapped(absolutePath, code));
  }

  /** Appending to an existing file puts the separator before the new content. */
  lemma AppendToExisting(t: Tree, cwd: string, p: string, k: Key, content: string, o: WriteOptions)
    requires KeyOf(cwd, p) == Some(k) && k in t && t[k].File? && o.append
    ensures WriteEffect(t, cwd, p, content, o) == (Returned(()), t[k := File(t[k].content + o.separator + content)])
  {
    if o.separator == "" {
      assert t[k].content + o.separator + content == t[k].content + content;
    } else {
      assert t[k].content + o.separator + content == t[k].content + (o.separator + content);
    }
  }

  /** Without append or overwrite an existing file is kept and the call throws. */
  lemma OverwriteRefused(t: Tree, cwd: string, p: string, k: Key, content: string, o: WriteOptions)
    requires KeyOf(cwd, p) == Some(k) && k in t && t[k].File? && !o.append && !o.overwrite
    ensures WriteEffect(t, cwd, p, content, o) == (Threw(WriteWrapped(p, "Cannot overwrite")), t)
  {
  }

  /** A new file below missing directories is written when `make_directory`
      is set, and what was there before is kept. */
  lemma MakesDirectory(t: Tree, cwd: string, segs: seq<string>, content: string, o: WriteOptions)
    requires WellFormed(t)
    requires Clean(segs) && |segs| >= 1 && segs !in t && !FileOnPath(t, segs, false)
    requires !o.append && o.makeDirectory
    ensures var e := WriteEffect(t, cwd, Render(segs), content, o);
            && e.0 == Returned(())
            && segs in e.1 && e.1[segs] == File(content)
            && (forall key :: key in t ==> key in e.1 && e.1[key] == t[key])
  {
    KeyOfRendered(cwd, segs);
    var parent := segs[..|segs| - 1];
    assert !FileOnPath(t, parent, true) by {
      forall i | 0 <= i <= |parent|
        ensures !(parent[..i] in t && t[parent[..i]].File?)
      {
        assert parent[..i] == segs[..i];
      }
    }
    if parent !in t {
      MkdirPSucceeds(t, parent);
      assert segs !in MkdirP(t, parent).value by {
        assert !(segs <= parent);
      }
    }
  }

  /** Read after a successful plain write gives back the content written. */
  lemma ReadWhatWasWritten(t: Tree, cwd: string, p: string, content: string, o: WriteOptions)
    requires !o.append
    requires WriteEffect(t, cwd, p, content, o).0.Returned?
    ensures Read(WriteEffect(t, cwd, p, content, o).1, cwd, p) == Returned(Some(content))
  {
  }

  // ---------------------------------------------------------------------
  // copy_file

  datatype CopyOptions = CopyOptions(overwrite: bool, makeDirectory: bool)

  function CopyWrapped(source: string, destination: string, message: string): string
  {
    "Cannot copy file " + source + " to " + destination + ". Error: " + message
  }

  /** What `copy_file` does to the entries, and whether it throws. */
  function CopyEffect(t: Tree, cwd: string, source: string, destination: string, o: CopyOptions): (e: (Completion<()>, Tree))
    ensures WellFormed(t) ==> WellFormed(e.1)
    ensures forall key :: key in t && (e.0.Threw? || KeyOf(cwd, destination) != Some(key)) ==> key in e.1 && e.1[key] == t[key]
    ensures e.0.Returned? ==> var src := KeyOf(cwd, source); var dst := KeyOf(cwd, destination);
              src.Some? && dst.Some? && src.value in t && dst.value in e.1 && e.1[dst.value] == t[src.value]
    ensures e.0.Returned? && !o.overwrite ==> StatAt(t, KeyOf(cwd, destination)) != IsFile
  {
    var dst := KeyOf(cwd, destination);
    var hasFile := StatAt(t, dst) == IsFile;
    if !o.overwrite && hasFile then (Threw(CopyWrapped(source, destination, "Cannot overwrite")), t)
    else
      var made := if o.makeDirectory then MakeDirectoryIfNotExists(t, cwd, destination) else Returned(t);
      match made
      case Threw(message) => (Threw(CopyWrapped(source, destination, message)), t)
      case Returned(t1) =>
        match FileSystem.CopyFile(t1, KeyOf(cwd, source), dst)
        case Returned(t2) => (Returned(()), t2)
        case Threw(code) => (Threw(CopyWrapped(source, destination, code)), t1)
  }

  method CopyFile(disk: Disk, source: string, destination: string, options: CopyOptions) returns (r: Completion<()>)
    requires disk.Valid()
    modifies disk
    ensures disk.Valid()
    ensures (r, disk.entries) == CopyEffect(old(disk.entries), disk.cwd, source, destination, options)
  {
    var dst := KeyOf(disk.cwd, destination);
    if !options.overwrite && disk.StatOf(destination) == IsFile {
      return Threw(CopyWrapped(source, destination, "Cannot overwrite"));
    }
    if options.makeDirectory {
      match MakeDirectoryIfNotExists(disk.entries, disk.cwd, destination)
      case Returned(t1) =>
        disk.entries := t1;
      case Threw(message) =>
        return Threw(CopyWrapped(source, destination, message));
    }
    match FileSystem.CopyFile(disk.entries, KeyOf(disk.cwd, source), dst)
    case Returned(t2) =>
      disk.entries := t2;
      r := Returned(());
    case Threw(code) =>
      r := Threw(CopyWrapped(source, destination, code));
  }

  /** An existing destination file is kept unless `overwrite` is set. */
  lemma CopyOverwriteRefused(t: Tree, cwd: string, source: string, destination: string, k: Key, o: CopyOptions)
    requires KeyOf(cwd, destination) == Some(k) && k in t && t[k].File? && !o.overwrite
    ensures CopyEffect(t, cwd, source, destination, o) == (Threw(CopyWrapped(source, destination, "Cannot overwrite")), t)
  {
  }

  /** Copying a file to a path whose parent exists makes that path hold the
      source's content. */
  lemma CopiesContent(t: Tree, cwd: string, source: string, destination: string, s: Key, d: Key, o: CopyOptions)
    requires WellFormed(t)
    requires KeyOf(cwd, source) == Some(s) && s in t && t[s].File?
    requires KeyOf(cwd, destination) == Some(d) && d !in t && ParentIsDir(t, d)
    requires !o.makeDirectory
    ensures CopyEffect(t, cwd, source, destination, o) == (Returned(()), t[d := t[s]])
  {
  }

  // ---------------------------------------------------------------------
  // file_info

  datatype FileInfo = FileInfo(baseName: string, extension: string, dotExtension: string,
                               file: string, directory: string, uri: string)

  /** `file_info`: the parts of a file path, computed from the string alone. */
  function FileInfoOf(absolutePathToFile: string): (i: FileInfo)
    ensures i.baseName + i.dotExtension == i.file
    ensures i.directory != "."
  {
    var directory := PathInfo.FileDirname(absolutePathToFile);
    var file := Basename(absolutePathToFile);
    FileInfo(Stem(absolutePathToFile), PathInfo.DropLeadingDot(Extname(absolutePathToFile)), Extname(absolutePathToFile),
             file, directory, PathInfo.JoinUri(directory, file))
  }

  /** `file_info` reports the same parts, under other names, as
      `pathInfoSync` does for a file. */
  lemma AgreesWithPathInfo(p: string)
    ensures var i := FileInfoOf(p);
            PathInfo.PathInfoSync(p, IsFile) ==
            Returned(PathInfo.FileInfo(i.file, i.extension, i.dotExtension, i.baseName, i.directory, i.uri))
  {
  }

  /** For a file below a directory other than the root, the directory and the
      file are recovered and the uri is the path itself. */
  lemma FileInfoRoundTrip(dir: string, name: string)
    requires IsAbsolute(dir) && dir != "/" && !EndsWithSep(dir)
    requires |name| >= 1 && '/' !in name
    ensures var i := FileInfoOf(dir + "/" + name);
            i.directory == dir && i.file == name && i.uri == dir + "/" + name && '.' !in i.extension
  {
    PathInfo.FileUriRoundTrip(dir, name);
    PathInfo.FileFields(dir + "/" + name);
    AgreesWithPathInfo(dir + "/" + name);
  }

  // ---------------------------------------------------------------------
  // relative

  /** `relative`: Node's relative path, prefixed './' unless it climbs with
      '../'. Unlike the newer `relative` no trailing separator is stripped. */
  function Relative(cwd: string, from: string, to: string): (r: string)
    ensures "../" <= PosixPath.Relative(cwd, from, to) ==> r == PosixPath.Relative(cwd, from, to)
    ensures !("../" <= PosixPath.Relative(cwd, from, to)) ==> r == "./" + PosixPath.Relative(cwd, from, to)
  {
    RelativePath.DotPrefix(PosixPath.Relative(cwd, from, to))
  }

  /** The same location gives './', where the newer `relative` gives '.'. */
  lemma SameLocationIsDotSlash(cwd: string, p: string, stat: Stat)
    ensures Relative(cwd, p, p) == "./"
    ensures RelativePath.Relative(cwd, p, p, Some(true), stat) == Returned(".")
  {
    RelativeToSelf(cwd, p);
    assert "./" + "" == "./";
    RelativePath.Identical(cwd, p, stat);
  }

  /** For distinct locations and a directory `from`, the old and the newer
      `relative` agree. */
  lemma AgreesWithNewer(cwd: string, from: string, to: string, stat: Stat)
    requires Locate(cwd, from) != Locate(cwd, to)
    ensures RelativePath.Relative(cwd, from, to, Some(true), stat) == Returned(Relative(cwd, from, to))
  {
    RelativeNoTrailingSep(cwd, from, to);
    RelativeNonEmpty(cwd, from, to);
  }
}
