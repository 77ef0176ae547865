/** `writeSync` and `_writeSync` (src/commands/file/write/writeSync.ts). */
module WriteSync {
  import opened Outcomes
  import opened PosixPath
  import opened AbsolutePath
  import opened FileSystem

  /** The options; an absent separator and an empty one behave alike. */
  datatype Options = Options(append: bool, overwrite: bool, makeDirectory: bool, separator: string)

  const PointedToDirectory := "Pointed to a directory"
  const CannotOverwrite := "Cannot overwrite. Need to set 'overwrite' option."

  /** The message of an error caught while writing. */
  function Wrapped(path: string, message: string): (m: string)
    ensures "Cannot write file " + path + ". Error: " <= m
  {
    "Cannot write file " + path + ". Error: " + message
  }

  /** Every entry of `t` is still there, unchanged, and anything new is a directory. */
  predicate OnlyDirectoriesAdded(t: Tree, t2: Tree)
  {
    && (forall key :: key in t ==> key in t2 && t2[key] == t[key])
    && (forall key :: key in t2 && key !in t ==> t2[key] == Dir)
  }

  /** What `_writeSync` does to the entries, and what it answers. */
  function WriteEffect(t: Tree, cwd: string, path: string, content: string, o: Options): (e: (Response, Tree))
    ensures WellFormed(t) ==> WellFormed(e.1)
    ensures e.0.Failure? && e.0.error != PointedToDirectory ==> "Cannot write file " + path + ". Error: " <= e.0.error
    ensures e.0.Failure? ==> OnlyDirectoriesAdded(t, e.1)
  {
    var abs := Absolute(cwd, path);
    var at := KeyOf(cwd, abs);
    var stat := StatAt(t, at);
    if stat == IsDirectory then (Failure(PointedToDirectory), t)
    else if o.append then
      var c := if stat != Absent && o.separator != "" then o.separator + content else content;
      match AppendFile(t, at, c)
      case Returned(t2) => (Success, t2)
      case Threw(code) => (Failure(Wrapped(path, code)), t)
    else if !o.overwrite && stat != Absent then (Failure(Wrapped(path, CannotOverwrite)), t)
    else
      var dirAt := KeyOf(cwd, Dirname(abs));
      var made := if stat == Absent && o.makeDirectory && StatAt(t, dirAt) == Absent then MkdirAt(t, dirAt) else Returned(t);
      match made
      case Threw(code) => (Failure(Wrapped(path, code)), t)
      case Returned(t1) =>
        match WriteFile(t1, at, content)
        case Returned(t2) => (Success, t2)
        case Threw(code) => (Failure(Wrapped(path, code)), t1)
  }

  /** `writeSync`: writes, then throws the failure's error if asked to. */
  method WriteSync(disk: Disk, path: string, content: string, options: Options, throwError: bool) returns (r: Completion<Response>)
    requires disk.Valid()
    modifies disk
    ensures disk.Valid()
    ensures var e := WriteEffect(old(disk.entries), disk.cwd, path, content, options);
            r == Raise(e.0, throwError) && disk.entries == e.1
  {
    var response := WriteOnce(disk, path, content, options);
    r := Raise(response, throwError);
  }

  /** `_writeSync`, step by step. */
  method WriteOnce(disk: Disk, path: string, content: string, options: Options) returns (response: Response)
    requires disk.Valid()
    modifies disk
    ensures disk.Valid()
    ensures (response, disk.entries) == WriteEffect(old(disk.entries), disk.cwd, path, content, options)
  {
    var abs := Absolute(disk.cwd, path);
    var at := KeyOf(disk.cwd, abs);
    var stat := disk.StatOf(abs);
    if stat == IsDirectory {
      return Failure(PointedToDirectory);
    }
    if options.append {
      var c := content;
      if stat != Absent && options.separator != "" {
        c := options.separator + content;
      }
      match AppendFile(disk.entries, at, c)
      case Returned(t2) =>
        disk.entries := t2;
        response := Success;
      case Threw(code) =>
        response := Failure(Wrapped(path, code));
    } else {
      if !options.overwrite && stat != Absent {
        return Failure(Wrapped(path, CannotOverwrite));
      }
      if stat == Absent && options.makeDirectory {
        var dir := Dirname(abs);
        if disk.StatOf(dir) == Absent {
          match MkdirAt(disk.entries, KeyOf(disk.cwd, dir))
          case Returned(t1) =>
            disk.entries := t1;
          case Threw(code) =>
            return Failure(Wrapped(path, code));
        }
      }
      match WriteFile(disk.entries, at, content)
      case Returned(t2) =>
        disk.entries := t2;
        response := Success;
      case Threw(code) =>
        response := Failure(Wrapped(path, code));
    }
  }

  /** A path to an existing directory fails and writes nothing. */
  lemma DirectoryRefused(t: Tree, cwd: string, segs: seq<string>, content: string, o: Options)
    requires Clean(segs) && |segs| >= 1 && segs in t && t[segs] == Dir
    ensures WriteEffect(t, cwd, Render(segs), content, o) == (Failure(PointedToDirectory), t)
  {
    OfRendered(cwd, segs);
    KeyOfRendered(cwd, segs);
  }

  /** Appending to an existing file puts the separator between the old and
      the new content. */
  lemma AppendToExisting(t: Tree, cwd: string, segs: seq<string>, content: string, o: Options)
    requires Clean(segs) && |segs| >= 1 && segs in t && t[segs].File? && o.append
    ensures WriteEffect(t, cwd, Render(segs), content, o) ==
            (Success, t[segs := File(t[segs].content + o.separator + content)])
  {
    OfRendered(cwd, segs);
    KeyOfRendered(cwd, segs);
    if o.separator == "" {
      assert t[segs].content + o.separator + content == t[segs].content + content;
    } else {
      assert t[segs].content + o.separator + content == t[segs].content + (o.separator + content);
    }
  }

  /** Appending to a new file in an existing directory writes the bare content. */
  lemma AppendCreates(t: Tree, cwd: string, segs: seq<string>, content: string, o: Options)
    requires Clean(segs) && |segs| >= 1 && segs !in t && ParentIsDir(t, segs) && o.append
    ensures WriteEffect(t, cwd, Render(segs), content, o) == (Success, t[segs := File(content)])
  {
    OfRendered(cwd, segs);
    KeyOfRendered(cwd, segs);
  }

  /** Without `overwrite`, an existing file is kept as it is. */
  lemma OverwriteRefused(t: Tree, cwd: string, segs: seq<string>, content: string, o: Options)
    requires Clean(segs) && |segs| >= 1 && segs in t && t[segs].File? && !o.append && !o.overwrite
    ensures WriteEffect(t, cwd, Render(segs), content, o) == (Failure(Wrapped(Render(segs), CannotOverwrite)), t)
  {
    OfRendered(cwd, segs);
    KeyOfRendered(cwd, segs);
  }

  /** With `overwrite`, an existing file's content is replaced. */
  lemma Overwrites(t: Tree, cwd: string, segs: seq<string>, content: string, o: Options)
    requires Clean(segs) && |segs| >= 1 && segs in t && t[segs].File? && !o.append && o.overwrite
    ensures WriteEffect(t, cwd, Render(segs), content, o) == (Success, t[segs := File(content)])
  {
    OfRendered(cwd, segs);
    KeyOfRendered(cwd, segs);
  }

  /** With `make_directory`, a new file is written after its missing
      directories are created, as long as no file is in the way. */
  lemma MakesDirectories(t: Tree, cwd: string, segs: seq<string>, content: string, o: Options)
    requires WellFormed(t)
    requires Clean(segs) && |segs| >= 1 && segs !in t && !FileOnPath(t, segs, false)
    requires !o.append && o.makeDirectory
    ensures var e := WriteEffect(t, cwd, Render(segs), content, o);
            && e.0 == Success
            && segs in e.1 && e.1[segs] == File(content)
            && (forall i :: 0 <= i < |segs| ==> segs[..i] in e.1 && e.1[segs[..i]] == Dir)
            && (forall key :: key in t ==> key in e.1 && e.1[key] == t[key])
  {
    var t1 := NewFileEffect(t, cwd, segs, content, o);
    FileBelowDirectories(t, t1, segs, content);
  }

  /** The tree a new file is written into: the directories `make_directory`
      created, or `t` itself. */
  lemma NewFileEffect(t: Tree, cwd: string, segs: seq<string>, content: string, o: Options) returns (t1: Tree)
    requires WellFormed(t)
    requires Clean(segs) && |segs| >= 1 && segs !in t && !FileOnPath(t, segs, false)
    requires !o.append && o.makeDirectory
    ensures WriteEffect(t, cwd, Render(segs), content, o) == (Success, t1[segs := File(content)])
    ensures WellFormed(t1) && segs !in t1
    ensures segs[..|segs| - 1] in t1 && t1[segs[..|segs| - 1]] == Dir
    ensures forall key :: key in t ==> key in t1 && t1[key] == t[key]
  {
    OfRendered(cwd, segs);
    KeyOfRendered(cwd, segs);
    var parent := segs[..|segs| - 1];
    assert !FileOnPath(t, parent, true) by {
      forall i | 0 <= i <= |parent|
        ensures !(parent[..i] in t && t[parent[..i]].File?)
      {
        assert parent[..i] == segs[..i];
      }
    }
    t1 := t;
    if parent !in t {
      MkdirPSucceeds(t, parent);
      t1 := MkdirP(t, parent).value;
      assert segs !in t1 by {
        assert !(segs <= parent);
      }
    }
  }

  /** Without `make_directory`, a new file whose directory is missing is not
      written and nothing changes. */
  lemma MissingDirectoryFails(t: Tree, cwd: string, segs: seq<string>, content: string, o: Options)
    requires WellFormed(t)
    requires Clean(segs) && |segs| >= 1 && segs[..|segs| - 1] !in t
    requires !o.append && !o.makeDirectory
    ensures var e := WriteEffect(t, cwd, Render(segs), content, o);
            e.0.Failure? && e.1 == t
  {
    OfRendered(cwd, segs);
    KeyOfRendered(cwd, segs);
    assert segs !in t;
  }
}
