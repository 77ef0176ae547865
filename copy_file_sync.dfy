/** `copyFileSync` (src/commands/file/copy-file/copyFileSync.ts). */
module CopyFileSync {
  import opened Outcomes
  import opened PosixPath
  import opened TrailingSep
  import opened FileSystem
  import opened PathInfo
  import AbsolutePath
  import Text

  /** `{success: true, absoluteDestinationFile}` or `{success: false, error}`. */
  datatype CopyResult = Copied(absoluteDestinationFile: string) | CopyFailed(error: string)

  function Wrapped(source: string, destination: string, message: string): string
  {
    "Cannot copy file from " + source + " to " + destination + ". Error: " + message
  }

  /** Whether the destination names a directory to copy into: an existing
      path by what `pathInfoSync` reports, an absent one by its trailing
      separator. */
  function DestinationIsDirectory(destination: string, destStat: Stat): (r: Completion<bool>)
    ensures r == Returned(destStat == IsDirectory || (destStat == Absent && EndsWithSep(destination)))
  {
    if destStat != Absent then
      match PathInfoSync(destination, destStat)
      case Returned(info) => Returned(info.DirInfo?)
      case Threw(message) => Threw(message)
    else Returned(EndsWithSep(destination))
  }

  /** The file path the copy lands on. */
  function FinalDestination(source: string, destination: string, isDestDirectory: bool): (r: string)
    ensures isDestDirectory ==> r == Join(destination, Basename(source))
    ensures !isDestDirectory ==> r == destination
  {
    if isDestDirectory then Join(destination, Basename(source)) else destination
  }

  /** What `copyFileSync` does to the entries, and what it answers. */
  function CopyEffect(t: Tree, cwd: string, source: string, destination: string, overwrite: bool): (e: (CopyResult, Tree))
    ensures WellFormed(t) ==> WellFormed(e.1)
    ensures e.0.CopyFailed? ==> forall key :: key in t ==> key in e.1 && e.1[key] == t[key]
    ensures e.0.Copied? ==> StatAt(t, KeyOf(cwd, source)) == IsFile
  {
    if StatAt(t, KeyOf(cwd, source)) == Absent then (CopyFailed("Source file does not exist: " + source), t)
    else
      match DestinationIsDirectory(destination, StatAt(t, KeyOf(cwd, destination)))
      case Threw(message) => (CopyFailed(Wrapped(source, destination, message)), t)
      case Returned(isDestDirectory) =>
        CopyToFinal(t, cwd, source, destination, FinalDestination(source, destination, isDestDirectory), overwrite)
  }

  /** The copy once the final path is known: an existing one is refused
      without `overwrite`, a missing directory above it is made, then the
      content is copied. */
  function CopyToFinal(t: Tree, cwd: string, source: string, destination: string, final: string, overwrite: bool): (e: (CopyResult, Tree))
    ensures WellFormed(t) ==> WellFormed(e.1)
    ensures e.0.CopyFailed? ==> forall key :: key in t ==> key in e.1 && e.1[key] == t[key]
    ensures e.0.Copied? ==> StatAt(t, KeyOf(cwd, source)) == IsFile
  {
    var finalAt := KeyOf(cwd, final);
    if StatAt(t, finalAt) != Absent && !overwrite then
      (CopyFailed("Destination file already exists and overwrite is not enabled: " + final), t)
    else
      var dirAt := KeyOf(cwd, Dirname(final));
      var made := if StatAt(t, dirAt) == Absent then MkdirAt(t, dirAt) else Returned(t);
      match made
      case Threw(code) => (CopyFailed(Wrapped(source, destination, code)), t)
      case Returned(t1) =>
        match CopyFile(t1, KeyOf(cwd, source), finalAt)
        case Returned(t2) => (Copied(Resolve(cwd, final)), t2)
        case Threw(code) => (CopyFailed(Wrapped(source, destination, code)), t1)
  }

  method CopyFileSync(disk: Disk, source: string, destination: string, overwrite: bool) returns (r: CopyResult)
    requires disk.Valid()
    modifies disk
    ensures disk.Valid()
    ensures (r, disk.entries) == CopyEffect(old(disk.entries), disk.cwd, source, destination, overwrite)
  {
    if disk.StatOf(source) == Absent {
      return CopyFailed("Source file does not exist: " + source);
    }
    var isDestDirectory := false;
    var destStat := disk.StatOf(destination);
    if destStat != Absent {
      match PathInfoSync(destination, destStat)
      case Returned(info) =>
        isDestDirectory := info.DirInfo?;
      case Threw(message) =>
        return CopyFailed(Wrapped(source, destination, message));
    } else if EndsWithSep(destination) {
      isDestDirectory := true;
    }
    var final := if isDestDirectory then Join(destination, Basename(source)) else destination;
    r := CopyToFinalPath(disk, source, destination, final, overwrite);
  }

  method CopyToFinalPath(disk: Disk, source: string, destination: string, final: string, overwrite: bool) returns (r: CopyResult)
    requires disk.Valid()
    modifies disk
    ensures disk.Valid()
    ensures (r, disk.entries) == CopyToFinal(old(disk.entries), disk.cwd, source, destination, final, overwrite)
  {
    if disk.StatOf(final) != Absent && !overwrite {
      return CopyFailed("Destination file already exists and overwrite is not enabled: " + final);
    }
    var destDir := Dirname(final);
    if disk.StatOf(destDir) == Absent {
      match MkdirAt(disk.entries, KeyOf(disk.cwd, destDir))
      case Returned(t1) =>
        disk.entries := t1;
      case Threw(code) =>
        return CopyFailed(Wrapped(source, destination, code));
    }
    match CopyFile(disk.entries, KeyOf(disk.cwd, source), KeyOf(disk.cwd, final))
    case Returned(t2) =>
      disk.entries := t2;
      r := Copied(Resolve(disk.cwd, final));
    case Threw(code) =>
      r := CopyFailed(Wrapped(source, destination, code));
  }

  /** A missing source fails and changes nothing. */
  lemma MissingSource(t: Tree, cwd: string, source: string, destination: string, overwrite: bool)
    requires StatAt(t, KeyOf(cwd, source)) == Absent
    ensures CopyEffect(t, cwd, source, destination, overwrite) == (CopyFailed("Source file does not exist: " + source), t)
  {
  }

  /** An existing final path is left untouched unless `overwrite` is set, and
      the failure names that final path. */
  lemma ExistingKept(t: Tree, cwd: string, source: string, destination: string, isDir: bool)
    requires StatAt(t, KeyOf(cwd, source)) != Absent
    requires var destStat := StatAt(t, KeyOf(cwd, destination));
             isDir == (destStat == IsDirectory || (destStat == Absent && EndsWithSep(destination)))
    requires StatAt(t, KeyOf(cwd, FinalDestination(source, destination, isDir))) != Absent
    ensures CopyEffect(t, cwd, source, destination, false) ==
            (CopyFailed("Destination file already exists and overwrite is not enabled: " + FinalDestination(source, destination, isDir)), t)
  {
  }

  /** Copying to a file path: missing directories are created and the path
      ends up holding the source's content; with `overwrite` an existing file
      is replaced. The answer is the resolved path. */
  lemma CopiesToFilePath(t: Tree, cwd: string, src: seq<string>, segs: seq<string>, overwrite: bool)
    requires WellFormed(t)
    requires Clean(src) && |src| >= 1 && src in t && t[src].File?
    requires Clean(segs) && |segs| >= 1 && !FileOnPath(t, segs, false)
    requires segs !in t || (t[segs].File? && overwrite)
    ensures var e := CopyEffect(t, cwd, Render(src), Render(segs), overwrite);
            && e.0 == Copied(Render(segs))
            && segs in e.1 && e.1[segs] == File(t[src].content)
            && (forall i :: 0 <= i < |segs| ==> segs[..i] in e.1 && e.1[segs[..i]] == Dir)
            && (forall key :: key in t && key != segs ==> key in e.1 && e.1[key] == t[key])
  {
    var t1 := FileTarget(t, cwd, src, segs, overwrite);
    FileBelowDirectories(t - {segs}, t1, segs, t[src].content);
    assert t1[segs := File(t[src].content)] == t1[segs := File(t[src].content)];
  }

  lemma FileTarget(t: Tree, cwd: string, src: seq<string>, segs: seq<string>, overwrite: bool) returns (t1: Tree)
    requires WellFormed(t)
    requires Clean(src) && |src| >= 1 && src in t && t[src].File?
    requires Clean(segs) && |segs| >= 1 && !FileOnPath(t, segs, false)
    requires segs !in t || (t[segs].File? && overwrite)
    ensures CopyEffect(t, cwd, Render(src), Render(segs), overwrite) == (Copied(Render(segs)), t1[segs := File(t[src].content)])
    ensures WellFormed(t1)
    ensures segs[..|segs| - 1] in t1 && t1[segs[..|segs| - 1]] == Dir
    ensures forall key :: key in t ==> key in t1 && t1[key] == t[key]
  {
    FinalIsPath(t, cwd, src, segs, overwrite);
    KeyOfRendered(cwd, src);
    KeyOfRendered(cwd, segs);
    t1 := FinalWritten(t, cwd, Render(src), Render(segs), Render(segs), overwrite, src, segs);
    LocateRendered(cwd, segs);
  }

  /** Once the final path is known by its location, a copy with no file
      above that location lands there, after the missing directories above
      it are made. */
  lemma FinalWritten(t: Tree, cwd: string, source: string, destination: string, final: string, overwrite: bool,
                     from: Key, at: Key) returns (t1: Tree)
    requires WellFormed(t)
    requires KeyOf(cwd, source) == Some(from) && from in t && t[from].File?
    requires |at| >= 1 && KeyOf(cwd, final) == Some(at) && KeyOf(cwd, Dirname(final)) == Some(at[..|at| - 1])
    requires !FileOnPath(t, at, false)
    requires at !in t || (t[at].File? && overwrite)
    ensures CopyToFinal(t, cwd, source, destination, final, overwrite) == (Copied(Resolve(cwd, final)), t1[at := File(t[from].content)])
    ensures WellFormed(t1)
    ensures at[..|at| - 1] in t1 && t1[at[..|at| - 1]] == Dir
    ensures forall key :: key in t ==> key in t1 && t1[key] == t[key]
  {
    var parent := at[..|at| - 1];
    assert !FileOnPath(t, parent, true) by {
      forall i | 0 <= i <= |parent|
        ensures !(parent[..i] in t && t[parent[..i]].File?)
      {
        assert parent[..i] == at[..i];
      }
    }
    t1 := t;
    if parent !in t {
      MkdirPSucceeds(t, parent);
      t1 := MkdirP(t, parent).value;
      assert at !in t1 by {
        assert !(at <= parent);
      }
    }
    assert from in t1 && t1[from] == t[from];
  }

  /** A destination in normal form that is not a directory is the final
      path itself. */
  lemma FinalIsPath(t: Tree, cwd: string, src: seq<string>, segs: seq<string>, overwrite: bool)
    requires Clean(src) && |src| >= 1 && src in t
    requires Clean(segs) && |segs| >= 1 && (segs !in t || t[segs].File?)
    ensures CopyEffect(t, cwd, Render(src), Render(segs), overwrite)
            == CopyToFinal(t, cwd, Render(src), Render(segs), Render(segs), overwrite)
  {
    KeyOfRendered(cwd, src);
    KeyOfRendered(cwd, segs);
    RenderNoTrailingSep(segs);
    DestinationFinal(t, cwd, Render(src), Render(segs), overwrite, segs, false);
  }

  /** A located destination is copied into when it is a directory, or when it
      is absent and ends in a separator; otherwise it is the final path. */
  lemma DestinationFinal(t: Tree, cwd: string, source: string, destination: string, overwrite: bool,
                         at: Key, isDir: bool)
    requires StatAt(t, KeyOf(cwd, source)) != Absent
    requires KeyOf(cwd, destination) == Some(at)
    requires isDir == ((at in t && t[at] == Dir) || (at !in t && EndsWithSep(destination)))
    ensures CopyEffect(t, cwd, source, destination, overwrite)
            == CopyToFinal(t, cwd, source, destination, FinalDestination(source, destination, isDir), overwrite)
  {
  }

  /** An existing directory as destination makes the final path the
      directory joined with the source's name. */
  lemma FinalInDirectory(t: Tree, cwd: string, src: seq<string>, dir: seq<string>, overwrite: bool)
    requires Clean(src) && |src| >= 1 && src in t
    requires Clean(dir) && |dir| >= 1 && dir in t && t[dir] == Dir
    ensures CopyEffect(t, cwd, Render(src), Render(dir), overwrite)
            == CopyToFinal(t, cwd, Render(src), Render(dir), Render(dir + [src[|src| - 1]]), overwrite)
  {
    KeyOfRendered(cwd, src);
    KeyOfRendered(cwd, dir);
    DestinationFinal(t, cwd, Render(src), Render(dir), overwrite, dir, true);
    BasenameOfRendered(src);
    JoinRendered(dir, src[|src| - 1]);
  }

  /** Copying into an existing directory lands on the directory joined with
      the source's name. */
  lemma CopiesIntoDirectory(t: Tree, cwd: string, src: seq<string>, dir: seq<string>, overwrite: bool)
    requires WellFormed(t)
    requires Clean(src) && |src| >= 1 && src in t && t[src].File?
    requires Clean(dir) && |dir| >= 1 && dir in t && t[dir] == Dir
    requires var target := dir + [src[|src| - 1]];
             target !in t || (t[target].File? && overwrite)
    ensures var target := dir + [src[|src| - 1]];
            CopyEffect(t, cwd, Render(src), Render(dir), overwrite) ==
            (Copied(Render(target)), t[target := File(t[src].content)])
  {
    var name := src[|src| - 1];
    var target := dir + [name];
    FinalInDirectory(t, cwd, src, dir, overwrite);
    ChildLocated(cwd, src, dir);
    FinalBesideDirectory(t, cwd, Render(src), Render(dir), Render(target), overwrite, src, target);
  }

  /** The source's name joined to a directory locates where it reads. */
  lemma ChildLocated(cwd: string, src: seq<string>, dir: seq<string>)
    requires Clean(src) && |src| >= 1 && Clean(dir)
    ensures var target := dir + [src[|src| - 1]];
            && KeyOf(cwd, Render(src)) == Some(src)
            && KeyOf(cwd, Render(target)) == Some(target)
            && KeyOf(cwd, Dirname(Render(target))) == Some(dir)
            && Resolve(cwd, Render(target)) == Render(target)
  {
    var target := dir + [src[|src| - 1]];
    KeyOfRendered(cwd, src);
    assert Clean(target);
    KeyOfRendered(cwd, target);
    assert target[..|target| - 1] == dir;
    LocateRendered(cwd, target);
  }

  /** A final path whose directory already exists receives the source's
      content and nothing else changes. */
  lemma FinalBesideDirectory(t: Tree, cwd: string, source: string, destination: string, final: string, overwrite: bool,
                             from: Key, at: Key)
    requires KeyOf(cwd, source) == Some(from) && from in t && t[from].File?
    requires |at| >= 1 && KeyOf(cwd, final) == Some(at) && KeyOf(cwd, Dirname(final)) == Some(at[..|at| - 1])
    requires at[..|at| - 1] in t && t[at[..|at| - 1]] == Dir
    requires at !in t || (t[at].File? && overwrite)
    ensures CopyToFinal(t, cwd, source, destination, final, overwrite) == (Copied(Resolve(cwd, final)), t[at := File(t[from].content)])
  {
  }

  /** Copying into a directory that does not exist yet, named with a
      trailing separator, as in `copyFileSync("foo.txt", "backup/")`: the
      directories are made, the directory joined with the source's name holds
      the source's content, and every earlier entry is kept. */
  lemma CopiesIntoNewDirectory(t: Tree, cwd: string, src: seq<string>, dir: seq<string>, overwrite: bool)
    requires WellFormed(t)
    requires Clean(src) && |src| >= 1 && src in t && t[src].File?
    requires Clean(dir) && dir !in t && !FileOnPath(t, dir, false)
    ensures var target := dir + [src[|src| - 1]];
            var e := CopyEffect(t, cwd, Render(src), Render(dir) + "/", overwrite);
            && e.0 == Copied(Render(target))
            && target in e.1 && e.1[target] == File(t[src].content)
            && (forall i :: 0 <= i < |target| ==> target[..i] in e.1 && e.1[target[..i]] == Dir)
            && (forall key :: key in t ==> key in e.1 && e.1[key] == t[key])
  {
    var target := dir + [src[|src| - 1]];
    var t1 := NewDirectoryTarget(t, cwd, src, dir, overwrite);
    FileBelowDirectories(t, t1, target, t[src].content);
  }

  /** The copy into a new directory is the write of the target below the
      directories made for it. */
  lemma NewDirectoryTarget(t: Tree, cwd: string, src: seq<string>, dir: seq<string>, overwrite: bool) returns (t1: Tree)
    requires WellFormed(t)
    requires Clean(src) && |src| >= 1 && src in t && t[src].File?
    requires Clean(dir) && dir !in t && !FileOnPath(t, dir, false)
    ensures var target := dir + [src[|src| - 1]];
            && CopyEffect(t, cwd, Render(src), Render(dir) + "/", overwrite) == (Copied(Render(target)), t1[target := File(t[src].content)])
            && WellFormed(t1) && |target| >= 1 && target !in t
            && target[..|target| - 1] in t1 && t1[target[..|target| - 1]] == Dir
            && (forall key :: key in t ==> key in t1 && t1[key] == t[key])
  {
    var target := dir + [src[|src| - 1]];
    var destination := Render(dir) + "/";
    assert |dir| >= 1;
    DirectoryNamedWithSep(cwd, dir);
    KeyOfRendered(cwd, src);
    DestinationFinal(t, cwd, Render(src), destination, overwrite, dir, true);
    BasenameOfRendered(src);
    JoinOntoTrailingSep(dir, src[|src| - 1]);
    NewTargetFree(t, dir, src[|src| - 1]);
    ChildLocated(cwd, src, dir);
    t1 := FinalWritten(t, cwd, Render(src), destination, Render(target), overwrite, src, target);
  }

  /** A rendered directory with a trailing separator locates that directory
      and is taken as one. */
  lemma DirectoryNamedWithSep(cwd: string, dir: seq<string>)
    requires Clean(dir)
    ensures KeyOf(cwd, Render(dir) + "/") == Some(dir)
    ensures EndsWithSep(Render(dir) + "/")
  {
    var q := Render(dir);
    AbsolutePath.SplitAppendSep(q, '/');
    AbsolutePath.NormalizeFromTrailingEmpty([], Text.Split(q, '/'), false);
    LocateRendered(cwd, dir);
    assert q + "/" == q + ['/'];
  }

  /** Below an absent directory with no file above it there is no entry and
      no file on the way. */
  lemma NewTargetFree(t: Tree, dir: seq<string>, name: string)
    requires WellFormed(t) && dir !in t && !FileOnPath(t, dir, false)
    ensures dir + [name] !in t && !FileOnPath(t, dir + [name], false)
  {
    var target := dir + [name];
    assert target[..|target| - 1] == dir;
    forall i | 0 <= i < |target|
      ensures !(target[..i] in t && t[target[..i]].File?)
    {
      assert target[..i] == dir[..i];
    }
  }

  /** Copying to a new file path in an existing directory adds just that
      file, holding the source's content. */
  lemma CopiesBesideExisting(t: Tree, cwd: string, src: seq<string>, segs: seq<string>)
    requires WellFormed(t)
    requires Clean(src) && |src| >= 1 && src in t && t[src].File?
    requires Clean(segs) && |segs| >= 1 && segs !in t
    requires segs[..|segs| - 1] in t && t[segs[..|segs| - 1]] == Dir
    ensures CopyEffect(t, cwd, Render(src), Render(segs), false) == (Copied(Render(segs)), t[segs := File(t[src].content)])
  {
    FinalIsPath(t, cwd, src, segs, false);
    KeyOfRendered(cwd, src);
    KeyOfRendered(cwd, segs);
    FinalBesideDirectory(t, cwd, Render(src), Render(segs), Render(segs), false, src, segs);
    LocateRendered(cwd, segs);
  }
}
