/** `backupFileSync` of the old adapter layer
    (src/old/file-helpers/backupFileSync.ts). The clock is a parameter:
    `clock(c)` is the moment read on the naming loop's pass `c`. */
module OldBackup {
  import opened Outcomes
  import opened Text
  import opened PosixPath
  import opened FileSystem
  import opened BackupCommon
  import OldFileIoSyncNode
  import FileIoSyncNode
  import PathInfo

  type FileInfo = OldFileIoSyncNode.FileInfo

  /** What a namer answers. */
  datatype BackupName = BackupName(uri: string, file: string)

  const NoName := "Backup could not generate uri or file"

  /** The copy options `backupFileSync` passes: none, so an existing file
      is not overwritten and no directory is made. */
  const NoOptions := OldFileIoSyncNode.CopyOptions(false, false)

  /** `has_file`: the path names an existing regular file. */
  predicate HasFile(t: Tree, cwd: string, p: string)
  {
    FileIoSyncNode.HasFile(t, cwd, p)
  }

  /** The name tried on pass `c`: the whole file name, the stamp and the
      pass, with a `.bak` extension, in the file's directory. */
  function Candidate(d: FileInfo, clock: nat -> Moment, c: nat): BackupName
  {
    var file := d.file + "_" + FormattedDate(clock(c)) + "-" + NatToString(c) + ".bak";
    BackupName(d.directory + "/" + file, file)
  }

  /** Every candidate has a non-empty name and uri, so the namer's closing
      check passes. */
  lemma CandidateNamed(d: FileInfo, clock: nat -> Moment, c: nat)
    ensures Candidate(d, clock, c).uri != "" && Candidate(d, clock, c).file != ""
  {
    var file := Candidate(d, clock, c).file;
    assert file[|file| - 1] == 'k';
  }

  /** Which of the ten candidates, for passes 0 to 9, are existing files. */
  function Taken(t: Tree, cwd: string, d: FileInfo, clock: nat -> Moment): (taken: seq<bool>)
    ensures |taken| == 10
  {
    seq(10, c requires 0 <= c < 10 => HasFile(t, cwd, Candidate(d, clock, c).uri))
  }

  lemma TakenAt(t: Tree, cwd: string, d: FileInfo, clock: nat -> Moment, c: nat)
    requires c < 10
    ensures Taken(t, cwd, d, clock)[c] == HasFile(t, cwd, Candidate(d, clock, c).uri)
  {
  }

  /** The default namer's answer: the first candidate that is not an
      existing file, or the last when all are. */
  function DefaultName(t: Tree, cwd: string, d: FileInfo, clock: nat -> Moment): BackupName
  {
    Candidate(d, clock, FirstFree(Taken(t, cwd, d, clock)))
  }

  /** `getBackupFileDefault`; its closing check for an undefined name never
      fires, since the loop runs at least once. */
  method GetBackupFileDefault(disk: Disk, d: FileInfo, clock: nat -> Moment) returns (r: Completion<BackupName>)
    ensures r == Returned(DefaultName(disk.entries, disk.cwd, d, clock))
  {
    ghost var taken := Taken(disk.entries, disk.cwd, d, clock);
    ghost var chosen := 9;
    var file: Option<string> := None;
    var uri: Option<string> := None;
    var c := 0;
    while c < 10
      invariant 0 <= c <= 10
      invariant forall j :: 0 <= j < c ==> taken[j]
      invariant c == 0 ==> uri.None?
      invariant c > 0 ==> uri == Some(Candidate(d, clock, c - 1).uri) && file == Some(Candidate(d, clock, c - 1).file)
    {
      var next := Candidate(d, clock, c);
      file := Some(next.file);
      uri := Some(next.uri);
      TakenAt(disk.entries, disk.cwd, d, clock, c);
      if disk.StatOf(next.uri) != IsFile {
        chosen := c;
        break;
      }
      TakenStep(taken, c);
      c := c + 1;
    }
    FirstFreeUnique(taken, chosen);
    CandidateNamed(d, clock, chosen);
    r := if uri.None? || uri.value == "" || file.None? || file.value == "" then Threw(NoName)
         else Returned(BackupName(uri.value, file.value));
  }

  // ---------------------------------------------------------------------
  // backupFileSync

  /** What `backupFileSync` does to the entries, and what it answers. A
      custom namer is a function of the file's details. The copy refuses
      an existing file, so a backup never replaces one. */
  function BackupEffect(t: Tree, cwd: string, absoluteFileUri: string, namer: Option<FileInfo -> BackupName>, clock: nat -> Moment): (e: (Completion<Option<string>>, Tree))
    ensures WellFormed(t) ==> WellFormed(e.1)
    ensures e.0 == Returned(None) <==> !HasFile(t, cwd, absoluteFileUri)
    ensures e.0 == Returned(None) ==> e.1 == t
  {
    if !HasFile(t, cwd, absoluteFileUri) then (Returned(None), t)
    else
      CopyBackup(t, cwd, absoluteFileUri, ChosenUri(t, cwd, absoluteFileUri, namer, clock))
  }

  /** The named backup is a new file: none was there before, and a file is
      there after. */
  lemma BackupIsNewFile(t: Tree, cwd: string, p: string, namer: Option<FileInfo -> BackupName>, clock: nat -> Moment, u: string)
    requires BackupEffect(t, cwd, p, namer, clock).0 == Returned(Some(u))
    ensures HasFile(BackupEffect(t, cwd, p, namer, clock).1, cwd, u) && !HasFile(t, cwd, u)
  {
    assert BackupEffect(t, cwd, p, namer, clock) == CopyBackup(t, cwd, p, ChosenUri(t, cwd, p, namer, clock));
  }

  /** The copy to the chosen name, and the answer: the name, or the copy's
      error. */
  function CopyBackup(t: Tree, cwd: string, source: string, uri: string): (e: (Completion<Option<string>>, Tree))
    requires HasFile(t, cwd, source)
    ensures WellFormed(t) ==> WellFormed(e.1)
    ensures e.0.Returned? ==> e.0 == Returned(Some(uri)) && HasFile(e.1, cwd, uri) && !HasFile(t, cwd, uri)
  {
    var copied := OldFileIoSyncNode.CopyEffect(t, cwd, source, uri, NoOptions);
    if copied.0.Threw? then (Threw(copied.0.message), copied.1)
    else
      CopyMakesFile(t, cwd, source, uri);
      (Returned(Some(uri)), copied.1)
  }

  /** A copy of an existing file that succeeds leaves a file at its
      destination, where there was none before. */
  lemma CopyMakesFile(t: Tree, cwd: string, source: string, destination: string)
    requires HasFile(t, cwd, source)
    requires OldFileIoSyncNode.CopyEffect(t, cwd, source, destination, NoOptions).0.Returned?
    ensures var t1 := OldFileIoSyncNode.CopyEffect(t, cwd, source, destination, NoOptions).1;
            HasFile(t1, cwd, destination) && !HasFile(t, cwd, destination)
  {
    var t1 := OldFileIoSyncNode.CopyEffect(t, cwd, source, destination, NoOptions).1;
    var src := KeyOf(cwd, source).value;
    var dst := KeyOf(cwd, destination).value;
    assert t1[dst] == t[src];
  }

  method BackupFileSync(disk: Disk, absoluteFileUri: string, namer: Option<FileInfo -> BackupName>, clock: nat -> Moment) returns (r: Completion<Option<string>>)
    requires disk.Valid()
    modifies disk
    ensures disk.Valid()
    ensures (r, disk.entries) == BackupEffect(old(disk.entries), disk.cwd, absoluteFileUri, namer, clock)
  {
    if disk.StatOf(absoluteFileUri) != IsFile {
      return Returned(None);
    }
    var info := OldFileIoSyncNode.FileInfoOf(absoluteFileUri);
    var backup;
    if namer.Some? {
      backup := namer.value(info);
    } else {
      var named := GetBackupFileDefault(disk, info, clock);
      backup := named.value;
    }
    var copied := OldFileIoSyncNode.CopyFile(disk, absoluteFileUri, backup.uri, NoOptions);
    if copied.Threw? {
      return Threw(copied.message);
    }
    r := Returned(Some(backup.uri));
  }

  /** A path that is not an existing file gives undefined and changes
      nothing. */
  lemma MissingSource(t: Tree, cwd: string, p: string, namer: Option<FileInfo -> BackupName>, clock: nat -> Moment)
    requires !HasFile(t, cwd, p)
    ensures BackupEffect(t, cwd, p, namer, clock) == (Returned(None), t)
  {
  }

  /** The name `backupFileSync` copies to: the custom namer's, or the
      default one. */
  function ChosenUri(t: Tree, cwd: string, p: string, namer: Option<FileInfo -> BackupName>, clock: nat -> Moment): string
  {
    var info := OldFileIoSyncNode.FileInfoOf(p);
    if namer.Some? then namer.value(info).uri else DefaultName(t, cwd, info, clock).uri
  }

  /** A name, default or custom, that is already an existing file is
      refused by the copy, and nothing changes. */
  lemma ExistingNameThrows(t: Tree, cwd: string, p: string, namer: Option<FileInfo -> BackupName>, clock: nat -> Moment)
    requires HasFile(t, cwd, p)
    requires HasFile(t, cwd, ChosenUri(t, cwd, p, namer, clock))
    ensures BackupEffect(t, cwd, p, namer, clock)
            == (Threw(OldFileIoSyncNode.CopyWrapped(p, ChosenUri(t, cwd, p, namer, clock), "Cannot overwrite")), t)
  {
    var u := ChosenUri(t, cwd, p, namer, clock);
    OldFileIoSyncNode.CopyOverwriteRefused(t, cwd, p, u, KeyOf(cwd, u).value, NoOptions);
  }

  /** With all ten default names taken, the last is chosen and the copy
      refuses it: the backup throws and nothing changes. */
  lemma AllTakenThrows(t: Tree, cwd: string, p: string, clock: nat -> Moment)
    requires HasFile(t, cwd, p)
    requires forall c :: 0 <= c < 10 ==> Taken(t, cwd, OldFileIoSyncNode.FileInfoOf(p), clock)[c]
    ensures var last := Candidate(OldFileIoSyncNode.FileInfoOf(p), clock, 9);
            BackupEffect(t, cwd, p, None, clock) == (Threw(OldFileIoSyncNode.CopyWrapped(p, last.uri, "Cannot overwrite")), t)
  {
    var d := OldFileIoSyncNode.FileInfoOf(p);
    FirstFreeUnique(Taken(t, cwd, d, clock), 9);
    TakenAt(t, cwd, d, clock, 9);
    ExistingNameThrows(t, cwd, p, None, clock);
  }

  /** The default namer settles on the first candidate that is not an
      existing file. */
  lemma DefaultIsCandidate(t: Tree, cwd: string, d: FileInfo, clock: nat -> Moment, j: nat)
    requires j < 10 && forall i :: 0 <= i < j ==> Taken(t, cwd, d, clock)[i]
    requires !HasFile(t, cwd, Candidate(d, clock, j).uri)
    ensures DefaultName(t, cwd, d, clock) == Candidate(d, clock, j)
  {
    TakenAt(t, cwd, d, clock, j);
    FirstFreeUnique(Taken(t, cwd, d, clock), j);
  }

  /** A default name is a proper entry name. */
  lemma CandidateIsProper(d: FileInfo, clock: nat -> Moment, c: nat)
    requires '/' !in d.file
    ensures Proper(Candidate(d, clock, c).file)
  {
    NatToStringDigits(c);
    NoSlashInDigits(NatToString(c));
  }

  /** A candidate for a path in normal form is a sibling of it whose name
      extends the source's name, so it is never the source. */
  lemma CandidateBeside(src: seq<string>, clock: nat -> Moment, c: nat)
    requires Clean(src) && |src| >= 1
    ensures var name := Candidate(OldFileIoSyncNode.FileInfoOf(Render(src)), clock, c);
            var sibling := src[..|src| - 1] + [name.file];
            && name.uri == Render(sibling)
            && Clean(sibling) && |sibling| >= 1
            && sibling[..|sibling| - 1] == src[..|src| - 1]
            && sibling != src
  {
    var p := Render(src);
    var d := OldFileIoSyncNode.FileInfoOf(p);
    var name := Candidate(d, clock, c);
    BasenameOfRendered(src);
    assert d.file == src[|src| - 1];
    CandidateIsProper(d, clock, c);
    var sibling := src[..|src| - 1] + [name.file];
    PathInfo.SiblingUri(src, name.file);
    SiblingOf(src, name.file);
  }

  /** A sibling of a clean path under a longer name is clean, shares its
      parent and is another path. */
  lemma SiblingOf(src: seq<string>, file: string)
    requires Clean(src) && |src| >= 1 && Proper(file) && |file| > |src[|src| - 1]|
    ensures var sibling := src[..|src| - 1] + [file];
            Clean(sibling) && |sibling| >= 1 && sibling[..|sibling| - 1] == src[..|src| - 1] && sibling != src
  {
    var sibling := src[..|src| - 1] + [file];
    assert sibling[..|sibling| - 1] == src[..|src| - 1];
    assert sibling[|sibling| - 1] == file;
  }

  /** When the first candidates are existing files and the next one is
      absent, the default backup name is that next one: a free name beside
      the source. */
  lemma DefaultNameBeside(t: Tree, cwd: string, src: seq<string>, clock: nat -> Moment, j: nat)
    requires Clean(src) && |src| >= 1
    requires j < 10 && forall i :: 0 <= i < j ==> Taken(t, cwd, OldFileIoSyncNode.FileInfoOf(Render(src)), clock)[i]
    requires StatAt(t, KeyOf(cwd, Candidate(OldFileIoSyncNode.FileInfoOf(Render(src)), clock, j).uri)) == Absent
    ensures var name := Candidate(OldFileIoSyncNode.FileInfoOf(Render(src)), clock, j);
            var sibling := src[..|src| - 1] + [name.file];
            && DefaultName(t, cwd, OldFileIoSyncNode.FileInfoOf(Render(src)), clock) == name
            && name.uri == Render(sibling) && sibling !in t && sibling != src
            && Clean(sibling) && |sibling| >= 1 && sibling[..|sibling| - 1] == src[..|src| - 1]
  {
    var d := OldFileIoSyncNode.FileInfoOf(Render(src));
    var name := Candidate(d, clock, j);
    DefaultIsCandidate(t, cwd, d, clock, j);
    CandidateBeside(src, clock, j);
    KeyOfRendered(cwd, src[..|src| - 1] + [name.file]);
  }

  /** In that case the backup is a new file beside the source holding the
      source's content, and nothing else changes. */
  lemma DefaultBackupBeside(t: Tree, cwd: string, src: seq<string>, clock: nat -> Moment, j: nat)
    requires WellFormed(t)
    requires Clean(src) && |src| >= 1 && src in t && t[src].File?
    requires j < 10 && forall i :: 0 <= i < j ==> Taken(t, cwd, OldFileIoSyncNode.FileInfoOf(Render(src)), clock)[i]
    requires StatAt(t, KeyOf(cwd, Candidate(OldFileIoSyncNode.FileInfoOf(Render(src)), clock, j).uri)) == Absent
    ensures var name := Candidate(OldFileIoSyncNode.FileInfoOf(Render(src)), clock, j);
            BackupEffect(t, cwd, Render(src), None, clock)
            == (Returned(Some(name.uri)), t[src[..|src| - 1] + [name.file] := File(t[src].content)])
  {
    var name := Candidate(OldFileIoSyncNode.FileInfoOf(Render(src)), clock, j);
    var sibling := src[..|src| - 1] + [name.file];
    DefaultNameBeside(t, cwd, src, clock, j);
    KeyOfRendered(cwd, src);
    KeyOfRendered(cwd, sibling);
    assert ParentIsDir(t, sibling);
    BackupToFree(t, cwd, Render(src), clock, name, src, sibling);
  }

  /** A backup whose default name is free, inside an existing directory,
      copies the source there. */
  lemma BackupToFree(t: Tree, cwd: string, p: string, clock: nat -> Moment, name: BackupName, s: Key, k: Key)
    requires WellFormed(t)
    requires KeyOf(cwd, p) == Some(s) && s in t && t[s].File?
    requires DefaultName(t, cwd, OldFileIoSyncNode.FileInfoOf(p), clock) == name
    requires KeyOf(cwd, name.uri) == Some(k) && k !in t && ParentIsDir(t, k)
    ensures BackupEffect(t, cwd, p, None, clock) == (Returned(Some(name.uri)), t[k := File(t[s].content)])
  {
    OldFileIoSyncNode.CopiesContent(t, cwd, p, name.uri, s, k, NoOptions);
  }
}
