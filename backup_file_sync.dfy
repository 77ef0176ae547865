/** `backupFileSync` and its default namer
    (src/commands/file/backup-file/backupFileSync.ts). The clock is a
    parameter: `clock(c)` is the moment read on the loop's pass `c`. */
module BackupFileSync {
  import opened Outcomes
  import opened Text
  import opened PosixPath
  import opened FileSystem
  import opened PathInfo
  import opened CopyFileSync
  import opened BackupCommon

  /** What a namer answers; either part may be undefined. */
  datatype BackupName = BackupName(uri: Option<string>, file: Option<string>)

  const OnlyFiles := "Only supports files"
  const BadUri := "Bad backup uri: All back up names are taken. Could not complete the operation."

  /** The name tried on pass `c`. */
  function CandidateFile(d: PathInfo, stamp: string, c: nat): string
    requires d.FileInfo?
  {
    d.name + "_" + stamp + "-" + NatToString(c) + ".bak"
  }

  /** The name tried on pass `c`, with its uri beside the original. */
  function Candidate(d: PathInfo, clock: nat -> Moment, c: nat): (name: BackupName)
    requires d.FileInfo?
    ensures name.uri.Some? && name.file.Some?
  {
    var file := CandidateFile(d, FormattedDate(clock(c)), c);
    BackupName(Some(d.dirname + "/" + file), Some(file))
  }

  /** Which of the ten candidates already exist. */
  function Taken(t: Tree, cwd: string, d: PathInfo, clock: nat -> Moment): (taken: seq<bool>)
    requires d.FileInfo?
    ensures |taken| == 10
  {
    seq(10, c requires 0 <= c < 10 => StatAt(t, KeyOf(cwd, Candidate(d, clock, c).uri.value)) != Absent)
  }

  lemma TakenAt(t: Tree, cwd: string, d: PathInfo, clock: nat -> Moment, c: nat)
    requires d.FileInfo? && c < 10
    ensures Taken(t, cwd, d, clock)[c] == (StatAt(t, KeyOf(cwd, Candidate(d, clock, c).uri.value)) != Absent)
  {
  }

  /** The default namer's answer: the first candidate that does not exist,
      or the last one when all do. */
  function DefaultName(t: Tree, cwd: string, d: PathInfo, clock: nat -> Moment): BackupName
    requires d.FileInfo?
  {
    Candidate(d, clock, FirstFree(Taken(t, cwd, d, clock)))
  }

  /** `getBackupFileDefault`: tries passes 0 to 9 and stops at the first
      name that does not exist. */
  method GetBackupFileDefault(disk: Disk, d: PathInfo, clock: nat -> Moment) returns (name: BackupName)
    requires d.FileInfo?
    ensures name == DefaultName(disk.entries, disk.cwd, d, clock)
  {
    ghost var taken := Taken(disk.entries, disk.cwd, d, clock);
    name := BackupName(None, None);
    var c := 0;
    while c < 10
      invariant 0 <= c <= 10
      invariant forall j :: 0 <= j < c ==> taken[j]
      invariant c > 0 ==> name == Candidate(d, clock, c - 1)
    {
      var next := Candidate(d, clock, c);
      name := next;
      TakenAt(disk.entries, disk.cwd, d, clock, c);
      if disk.StatOf(next.uri.value) == Absent {
        break;
      }
      TakenStep(taken, c);
      c := c + 1;
    }
    FirstFreeUnique(taken, if c == 10 then 9 else c);
  }

  /** What `backupFileSync` does to the entries, and what it answers; a
      custom namer is a function of the file's details. */
  function BackupEffect(t: Tree, cwd: string, absoluteFileUri: string, namer: Option<PathInfo -> BackupName>, clock: nat -> Moment): (e: (Completion<Option<string>>, Tree))
    ensures WellFormed(t) ==> WellFormed(e.1)
    ensures e.0 == Returned(None) <==> StatAt(t, KeyOf(cwd, absoluteFileUri)) == Absent
    ensures e.0.Returned? && e.0.value.Some? ==> StatAt(t, KeyOf(cwd, absoluteFileUri)) == IsFile
  {
    var stat := StatAt(t, KeyOf(cwd, absoluteFileUri));
    if stat == Absent then (Returned(None), t)
    else
      match PathInfoSync(absoluteFileUri, stat)
      case Threw(message) => (Threw(message), t)
      case Returned(info) =>
        if info.DirInfo? then (Threw(OnlyFiles), t)
        else
          var details := if namer.Some? then namer.value(info) else DefaultName(t, cwd, info, clock);
          if details.uri.None? || details.uri.value == "" || StatAt(t, KeyOf(cwd, details.uri.value)) != Absent then
            (Threw(BadUri), t)
          else
            var copied := CopyEffect(t, cwd, absoluteFileUri, details.uri.value, false);
            if copied.0.Copied? then (Returned(details.uri), copied.1)
            else (Threw(copied.0.error), copied.1)
  }

  method BackupFileSync(disk: Disk, absoluteFileUri: string, namer: Option<PathInfo -> BackupName>, clock: nat -> Moment) returns (r: Completion<Option<string>>)
    requires disk.Valid()
    modifies disk
    ensures disk.Valid()
    ensures (r, disk.entries) == BackupEffect(old(disk.entries), disk.cwd, absoluteFileUri, namer, clock)
  {
    var stat := disk.StatOf(absoluteFileUri);
    if stat == Absent {
      return Returned(None);
    }
    match PathInfoSync(absoluteFileUri, stat)
    case Threw(message) =>
      return Threw(message);
    case Returned(info) =>
      if info.DirInfo? {
        return Threw(OnlyFiles);
      }
      var details;
      if namer.Some? {
        details := namer.value(info);
      } else {
        details := GetBackupFileDefault(disk, info, clock);
      }
      if details.uri.None? || details.uri.value == "" || disk.StatOf(details.uri.value) != Absent {
        return Threw(BadUri);
      }
      var result := CopyFileSync.CopyFileSync(disk, absoluteFileUri, details.uri.value, false);
      if result.CopyFailed? {
        return Threw(result.error);
      }
      r := Returned(details.uri);
  }

  /** A missing source gives undefined and creates nothing. */
  lemma MissingSource(t: Tree, cwd: string, p: string, namer: Option<PathInfo -> BackupName>, clock: nat -> Moment)
    requires StatAt(t, KeyOf(cwd, p)) == Absent
    ensures BackupEffect(t, cwd, p, namer, clock) == (Returned(None), t)
  {
  }

  /** A directory is refused. */
  lemma DirectoryThrows(t: Tree, cwd: string, p: string, namer: Option<PathInfo -> BackupName>, clock: nat -> Moment)
    requires StatAt(t, KeyOf(cwd, p)) == IsDirectory
    ensures BackupEffect(t, cwd, p, namer, clock) == (Threw(OnlyFiles), t)
  {
  }

  /** A namer answer that is undefined, empty or already exists is refused
      and nothing is copied. */
  lemma BadNameThrows(t: Tree, cwd: string, p: string, namer: PathInfo -> BackupName, clock: nat -> Moment)
    requires StatAt(t, KeyOf(cwd, p)) == IsFile
    requires var u := namer(PathInfoSync(p, IsFile).value).uri;
             u.None? || u.value == "" || StatAt(t, KeyOf(cwd, u.value)) != Absent
    ensures BackupEffect(t, cwd, p, Some(namer), clock) == (Threw(BadUri), t)
  {
  }

  /** With all ten default names taken the backup is refused. */
  lemma AllTakenThrows(t: Tree, cwd: string, p: string, clock: nat -> Moment)
    requires StatAt(t, KeyOf(cwd, p)) == IsFile
    requires forall c :: 0 <= c < 10 ==> Taken(t, cwd, PathInfoSync(p, IsFile).value, clock)[c]
    ensures BackupEffect(t, cwd, p, None, clock) == (Threw(BadUri), t)
  {
    var d := PathInfoSync(p, IsFile).value;
    FirstFreeUnique(Taken(t, cwd, d, clock), 9);
    TakenAt(t, cwd, d, clock, 9);
  }

  /** A default name is a proper entry name: it holds no separator. */
  lemma CandidateIsProper(name: string, stamp: string, c: nat)
    requires '/' !in name && '/' !in stamp
    ensures Proper(name + "_" + stamp + "-" + NatToString(c) + ".bak")
  {
    NatToStringDigits(c);
    NoSlashInDigits(NatToString(c));
  }

  /** The name part of a file's details holds no separator. */
  lemma NameHasNoSeparator(p: string)
    ensures '/' !in PathInfoSync(p, IsFile).value.name
  {
    FileFields(p);
  }

  /** With a name free of the disk, the backup is that name's copy. */
  lemma BackupIsCopy(t: Tree, cwd: string, p: string, clock: nat -> Moment, u: string)
    requires StatAt(t, KeyOf(cwd, p)) == IsFile
    requires DefaultName(t, cwd, PathInfoSync(p, IsFile).value, clock).uri == Some(u)
    requires u != "" && StatAt(t, KeyOf(cwd, u)) == Absent
    requires CopyEffect(t, cwd, p, u, false).0.Copied?
    ensures BackupEffect(t, cwd, p, None, clock) == (Returned(Some(u)), CopyEffect(t, cwd, p, u, false).1)
  {
  }

  /** When some default name is free, the backup is a new file beside the
      source, in the same directory, holding the source's content; the
      source and everything else stay as they were. */
  lemma DefaultBackupBeside(t: Tree, cwd: string, src: seq<string>, clock: nat -> Moment, j: nat)
    requires WellFormed(t)
    requires Clean(src) && |src| >= 1 && src in t && t[src].File?
    requires j < 10 && !Taken(t, cwd, PathInfoSync(Render(src), IsFile).value, clock)[j]
    ensures var d := PathInfoSync(Render(src), IsFile).value;
            var k := FirstFree(Taken(t, cwd, d, clock));
            var sibling := src[..|src| - 1] + [CandidateFile(d, FormattedDate(clock(k)), k)];
            && BackupEffect(t, cwd, Render(src), None, clock) == (Returned(Some(Render(sibling))), t[sibling := File(t[src].content)])
            && Dirname(Render(sibling)) == Dirname(Render(src))
            && sibling != src
  {
    var p := Render(src);
    KeyOfRendered(cwd, src);
    var d := PathInfoSync(p, IsFile).value;
    var taken := Taken(t, cwd, d, clock);
    FreeWhenAnyFree(taken, j);
    var k := FirstFree(taken);
    var stamp := FormattedDate(clock(k));
    var file := CandidateFile(d, stamp, k);
    NameHasNoSeparator(p);
    CandidateIsProper(d.name, stamp, k);
    var sibling := src[..|src| - 1] + [file];
    SiblingUri(src, file);
    var u := Render(sibling);
    assert DefaultName(t, cwd, d, clock).uri == Some(u);
    TakenAt(t, cwd, d, clock, k);
    SiblingOf(src, file);
    KeyOfRendered(cwd, sibling);
    RenderNoTrailingSep(sibling);
    CopiesBesideExisting(t, cwd, src, sibling);
    BackupIsCopy(t, cwd, p, clock, u);
    DirnameRendered(sibling);
    DirnameRendered(src);
  }

  /** A sibling of a clean path is clean and shares its parent. */
  lemma SiblingOf(src: seq<string>, file: string)
    requires Clean(src) && |src| >= 1 && Proper(file)
    ensures var sibling := src[..|src| - 1] + [file];
            Clean(sibling) && |sibling| >= 1 && sibling[..|sibling| - 1] == src[..|src| - 1]
  {
    var sibling := src[..|src| - 1] + [file];
    assert sibling[..|sibling| - 1] == src[..|src| - 1];
  }
}
