/** `backupFileSync` of the file helpers (src/file-helpers/backupFileSync.ts),
    built on the `fileIoSyncNode` adapter. The clock is a parameter:
    `now(c)` is what `Date.now()` answers on the naming loop's pass `c`. */
module FileHelpersBackup {
  import opened Outcomes
  import opened Text
  import opened PosixPath
  import opened TrailingSep
  import opened FileSystem
  import opened FileIoSyncNode
  import opened BackupCommon
  import PathInfo

  /** `FileDetails`: the file name split into a name and a last extension. */
  datatype FileDetails = FileDetails(fileName: string, extension: string, file: string, directory: string, uri: string)

  /** What a namer answers. */
  datatype BackupName = BackupName(uri: string, file: string)

  const NoName := "Backup could not generate uri or file"

  /** `file.split('.')`, the last piece taken as the extension and dropped
      when it is not empty, the rest joined again. A name without a dot is
      all extension. */
  function SplitExtension(file: string): (r: (string, string))
    ensures '.' !in r.1
    ensures r.1 == "" ==> r.0 == file
    ensures r.1 != "" ==> r.0 + "." + r.1 == file || (r.0 == "" && r.1 == file && '.' !in file)
    ensures r.1 == "" ==> |file| == 0 || file[|file| - 1] == '.'
  {
    var parts := Split(file, '.');
    var extension := parts[|parts| - 1];
    var kept := if extension != "" then parts[..|parts| - 1] else parts;
    JoinSplit(file, '.');
    SplitShape(file, '.');
    assert '.' !in extension;
    if |parts| >= 2 then
      assert parts[..|parts| - 1] + [extension] == parts;
      JoinWithSnoc(parts[..|parts| - 1], extension, '.');
      (JoinWith(kept, '.'), extension)
    else
      (JoinWith(kept, '.'), extension)
  }

  /** `getFileDetails`: the directory is `dirname` without a trailing
      separator; the file is what is left of the uri once the directory's
      first occurrence and a leading separator are removed. */
  function FileDetailsOf(uri: string): (d: FileDetails)
    ensures d.uri == uri
    ensures d.directory == StripTrailingSep(Dirname(uri))
    ensures |uri| <= |d.directory| + 1 + |d.file|
    ensures (d.fileName, d.extension) == SplitExtension(d.file)
  {
    var directory := StripTrailingSep(Dirname(uri));
    var replaced := ReplaceFirst(uri, directory, "");
    var file := if |replaced| > 0 && replaced[0] == '/' then replaced[1..] else replaced;
    var (fileName, extension) := SplitExtension(file);
    FileDetails(fileName, extension, file, directory, uri)
  }

  /** For a path in normal form the file is its last segment and the
      directory the rest. */
  lemma DetailsOfRendered(segs: seq<string>)
    requires Clean(segs) && |segs| >= 1
    ensures FileDetailsOf(Render(segs)).file == segs[|segs| - 1]
    ensures FileDetailsOf(Render(segs)).directory + "/" + segs[|segs| - 1] == Render(segs)
  {
    var uri := Render(segs);
    var directory := StripTrailingSep(Dirname(uri));
    var last := segs[|segs| - 1];
    RenderedSplitsAtLast(segs);
    assert uri == directory + ("/" + last);
    ReplacePrefix(uri, directory);
    assert uri[|directory|..] == "/" + last;
  }

  /** A path in normal form is its directory, a separator and its last
      segment. */
  lemma RenderedSplitsAtLast(segs: seq<string>)
    requires Clean(segs) && |segs| >= 1
    ensures StripTrailingSep(Dirname(Render(segs))) + "/" + segs[|segs| - 1] == Render(segs)
  {
    var uri := Render(segs);
    var last := segs[|segs| - 1];
    assert Proper(last);
    PathInfo.SiblingUri(segs, last);
    assert segs[..|segs| - 1] + [last] == segs;
    StrippedAbsoluteNotDot(Dirname(uri));
    assert PathInfo.FileDirname(uri) == StripTrailingSep(Dirname(uri));
  }

  lemma StrippedAbsoluteNotDot(p: string)
    requires IsAbsolute(p)
    ensures StripTrailingSep(p) != "."
  {
    var r := StripTrailingSep(p);
    if |r| > 0 {
      assert r[0] == p[0];
    }
  }

  /** Replacing a prefix by nothing leaves what follows it. */
  lemma ReplacePrefix(s: string, pat: string)
    requires |pat| <= |s| && s[..|pat|] == pat
    ensures ReplaceFirst(s, pat, "") == s[|pat|..]
  {
    assert OccursAt(s, pat, 0);
    IndexOfFromFirst(s, pat, 0);
    assert IndexOf(s, pat) == 0;
  }

  /** A file name without a dot becomes the extension and leaves the name
      empty, so '/a/b/c' is backed up as '/a/b/.backup_<stamp>.c'. */
  lemma DotlessName(segs: seq<string>)
    requires Clean(segs) && |segs| >= 1 && '.' !in segs[|segs| - 1]
    ensures var d := FileDetailsOf(Render(segs));
            d.fileName == "" && d.extension == segs[|segs| - 1]
  {
    DetailsOfRendered(segs);
    var last := segs[|segs| - 1];
    SplitNoSeparator(last, '.');
  }

  /** A name with an extension keeps the name and the extension apart:
      '/a/b/c.txt' gives 'c' and 'txt'. */
  lemma DottedName(segs: seq<string>, name: string, extension: string)
    requires Clean(segs) && |segs| >= 1 && segs[|segs| - 1] == name + "." + extension
    requires extension != "" && '.' !in extension
    ensures var d := FileDetailsOf(Render(segs));
            d.fileName == name && d.extension == extension
  {
    DetailsOfRendered(segs);
    SplitDotted(name, extension);
  }

  lemma SplitDotted(name: string, extension: string)
    requires extension != "" && '.' !in extension
    ensures SplitExtension(name + "." + extension) == (name, extension)
  {
    var file := name + "." + extension;
    var r := SplitExtension(file);
    assert file[|name|] == '.';
    EqualTails(r.0, r.1, name, extension);
  }

  /** Splitting at the last dot is unique when the extensions have no dot. */
  lemma EqualTails(a: string, x: string, b: string, y: string)
    requires a + "." + x == b + "." + y && '.' !in x && '.' !in y
    ensures a == b && x == y
    decreases if |x| < |y| then 0 else 1
  {
    var s := a + "." + x;
    if |x| < |y| {
      DotInLongerTail(a, x, b, y);
    } else if |y| < |x| {
      EqualTails(b, y, a, x);
    } else {
      assert x == s[|s| - |x|..] == y;
      assert a == s[..|a|] == b;
    }
  }

  /** The dot before the shorter tail falls inside the longer one. */
  lemma DotInLongerTail(a: string, x: string, b: string, y: string)
    requires a + "." + x == b + "." + y && |x| < |y|
    ensures y[|y| - |x| - 1] == '.'
  {
    var s := a + "." + x;
    var i := |s| - |x| - 1;
    assert s[i] == '.';
  }

  // ---------------------------------------------------------------------
  // the default namer

  /** The name tried on pass `c`. */
  function Candidate(d: FileDetails, now: nat -> nat, c: nat): BackupName
  {
    var file := d.fileName + ".backup_" + NatToString(now(c)) + NatToString(c) + Suffix(d.extension);
    BackupName(d.directory + "/" + file, file)
  }

  /** The extension with its dot, or nothing when there is none. */
  function Suffix(extension: string): string
  {
    if extension != "" then "." + extension else ""
  }

  /** Which of the ten candidates, for passes 1 to 10, are existing files. */
  function Taken(t: Tree, cwd: string, d: FileDetails, now: nat -> nat): (taken: seq<bool>)
    ensures |taken| == 10
  {
    seq(10, i requires 0 <= i < 10 => HasFile(t, cwd, Candidate(d, now, i + 1).uri))
  }

  lemma TakenAt(t: Tree, cwd: string, d: FileDetails, now: nat -> nat, c: nat)
    requires 1 <= c <= 10
    ensures Taken(t, cwd, d, now)[c - 1] == HasFile(t, cwd, Candidate(d, now, c).uri)
  {
  }

  /** The default namer's answer: the first candidate that is not an
      existing file, or the tenth when all are. */
  function DefaultName(t: Tree, cwd: string, d: FileDetails, now: nat -> nat): BackupName
  {
    Candidate(d, now, FirstFree(Taken(t, cwd, d, now)) + 1)
  }

  /** `getBackupFileDefault`; its closing check for an undefined name never
      fires. */
  method GetBackupFileDefault(disk: Disk, d: FileDetails, now: nat -> nat) returns (r: Completion<BackupName>)
    ensures r == Returned(DefaultName(disk.entries, disk.cwd, d, now))
  {
    ghost var taken := Taken(disk.entries, disk.cwd, d, now);
    var file: Option<string> := None;
    var uri: Option<string> := None;
    var c := 0;
    while c < 10
      invariant 0 <= c <= 10
      invariant forall j :: 0 <= j < c ==> taken[j]
      invariant c == 0 ==> uri.None?
      invariant c > 0 ==> uri == Some(Candidate(d, now, c).uri) && file == Some(Candidate(d, now, c).file)
    {
      c := c + 1;
      var next := Candidate(d, now, c);
      file := Some(next.file);
      uri := Some(next.uri);
      TakenAt(disk.entries, disk.cwd, d, now, c);
      if disk.StatOf(next.uri) != IsFile {
        break;
      }
      TakenStep(taken, c - 1);
    }
    FirstFreeUnique(taken, c - 1);
    r := if uri.None? || uri.value == "" || file.None? || file.value == "" then Threw(NoName)
         else Returned(BackupName(uri.value, file.value));
  }

  // ---------------------------------------------------------------------
  // backupFileSync

  /** What `backupFileSync` does to the entries, and what it answers. A
      custom namer is a function of the file's details. */
  function BackupEffect(t: Tree, cwd: string, absoluteFileUri: string, namer: Option<FileDetails -> BackupName>, now: nat -> nat): (e: (Completion<Option<string>>, Tree))
    ensures WellFormed(t) ==> WellFormed(e.1)
    ensures e.0 == Returned(None) <==> !HasFile(t, cwd, absoluteFileUri)
    ensures e.0.Threw? || e.0 == Returned(None) ==> e.1 == t
    ensures e.0.Returned? && e.0.value.Some? ==> HasFile(e.1, cwd, e.0.value.value)
  {
    if !HasFile(t, cwd, absoluteFileUri) then (Returned(None), t)
    else
      var details := FileDetailsOf(absoluteFileUri);
      var backup := if namer.Some? then namer.value(details) else DefaultName(t, cwd, details, now);
      var copied := CopyEffect(t, cwd, absoluteFileUri, backup.uri);
      if copied.0.Threw? then (Threw(copied.0.message), t)
      else (Returned(Some(backup.uri)), copied.1)
  }

  method BackupFileSync(disk: Disk, absoluteFileUri: string, namer: Option<FileDetails -> BackupName>, now: nat -> nat) returns (r: Completion<Option<string>>)
    requires disk.Valid()
    modifies disk
    ensures disk.Valid()
    ensures (r, disk.entries) == BackupEffect(old(disk.entries), disk.cwd, absoluteFileUri, namer, now)
  {
    if disk.StatOf(absoluteFileUri) != IsFile {
      return Returned(None);
    }
    var details := FileDetailsOf(absoluteFileUri);
    var backup;
    if namer.Some? {
      backup := namer.value(details);
    } else {
      var named := GetBackupFileDefault(disk, details, now);
      backup := named.value;
    }
    var copied := FileIoSyncNode.CopyFile(disk, absoluteFileUri, backup.uri);
    if copied.Threw? {
      return Threw(copied.message);
    }
    r := Returned(Some(backup.uri));
  }

  /** The default backup is never the source itself: its name is longer. */
  lemma DefaultIsNotSource(t: Tree, cwd: string, uri: string, now: nat -> nat)
    ensures DefaultName(t, cwd, FileDetailsOf(uri), now).uri != uri
  {
    var d := FileDetailsOf(uri);
    var k := FirstFree(Taken(t, cwd, d, now)) + 1;
    var stamp := NatToString(now(k)) + NatToString(k);
    var tail := Suffix(d.extension);
    assert |d.fileName| + |tail| + 1 >= |d.file|;
    assert |Candidate(d, now, k).uri| == |d.directory| + 1 + |d.fileName| + 8 + |stamp| + |tail|;
  }

  /** `name` is a file of the source's directory: its uri renders the
      source's parent location followed by its file name, a location in
      normal form. */
  predicate Beside(src: seq<string>, name: BackupName)
    requires |src| >= 1
  {
    var sibling := src[..|src| - 1] + [name.file];
    name.uri == Render(sibling) && Clean(sibling)
  }

  /** When the first candidates are existing files and the next one is
      absent, the default backup name is that next one: a free name beside
      the source. */
  lemma DefaultNameBeside(t: Tree, cwd: string, src: seq<string>, now: nat -> nat, j: nat)
    requires Clean(src) && |src| >= 1
    requires j < 10 && forall i :: 0 <= i < j ==> Taken(t, cwd, FileDetailsOf(Render(src)), now)[i]
    requires StatAt(t, KeyOf(cwd, Candidate(FileDetailsOf(Render(src)), now, j + 1).uri)) == Absent
    ensures var name := Candidate(FileDetailsOf(Render(src)), now, j + 1);
            && DefaultName(t, cwd, FileDetailsOf(Render(src)), now) == name
            && Beside(src, name) && src[..|src| - 1] + [name.file] !in t
  {
    var d := FileDetailsOf(Render(src));
    DetailsFit(src);
    CandidateSibling(src, d, now, j + 1);
    FreeIsDefault(t, cwd, src, d, now, j);
  }

  /** The details of a path in normal form name its directory, and their
      parts hold no separator. */
  lemma DetailsFit(src: seq<string>)
    requires Clean(src) && |src| >= 1
    ensures FitsSource(src, FileDetailsOf(Render(src)))
  {
    var p := Render(src);
    var d := FileDetailsOf(p);
    DetailsOfRendered(src);
    PartsHaveNoSeparator(d.file);
    StrippedAbsoluteNotDot(Dirname(p));
  }

  predicate FitsSource(src: seq<string>, d: FileDetails)
    requires |src| >= 1
  {
    d.directory == PathInfo.FileDirname(Render(src)) && '/' !in d.fileName && '/' !in d.extension
  }

  /** A candidate beside the source whose location is absent from the tree
      is the default name once the ones before it are taken. */
  lemma FreeIsDefault(t: Tree, cwd: string, src: seq<string>, d: FileDetails, now: nat -> nat, j: nat)
    requires |src| >= 1 && Beside(src, Candidate(d, now, j + 1))
    requires j < 10 && forall i :: 0 <= i < j ==> Taken(t, cwd, d, now)[i]
    requires StatAt(t, KeyOf(cwd, Candidate(d, now, j + 1).uri)) == Absent
    ensures DefaultName(t, cwd, d, now) == Candidate(d, now, j + 1)
    ensures src[..|src| - 1] + [Candidate(d, now, j + 1).file] !in t
  {
    KeyOfRendered(cwd, src[..|src| - 1] + [Candidate(d, now, j + 1).file]);
    DefaultIsCandidate(t, cwd, d, now, j);
  }

  /** A candidate from such details is a sibling of the source. */
  lemma CandidateSibling(src: seq<string>, d: FileDetails, now: nat -> nat, c: nat)
    requires Clean(src) && |src| >= 1 && FitsSource(src, d)
    ensures Beside(src, Candidate(d, now, c))
  {
    var name := Candidate(d, now, c);
    var sibling := src[..|src| - 1] + [name.file];
    CandidateIsProper(d, now, c);
    PathInfo.SiblingUri(src, name.file);
    assert sibling[..|sibling| - 1] == src[..|src| - 1];
    assert sibling[|sibling| - 1] == name.file;
  }

  /** In that case the backup is a new file beside the source holding the
      source's content, and nothing else changes. */
  lemma DefaultBackupBeside(t: Tree, cwd: string, src: seq<string>, now: nat -> nat, j: nat)
    requires WellFormed(t)
    requires Clean(src) && |src| >= 1 && src in t && t[src].File?
    requires j < 10 && forall i :: 0 <= i < j ==> Taken(t, cwd, FileDetailsOf(Render(src)), now)[i]
    requires StatAt(t, KeyOf(cwd, Candidate(FileDetailsOf(Render(src)), now, j + 1).uri)) == Absent
    ensures var name := Candidate(FileDetailsOf(Render(src)), now, j + 1);
            BackupEffect(t, cwd, Render(src), None, now)
            == (Returned(Some(name.uri)), t[src[..|src| - 1] + [name.file] := File(t[src].content)])
  {
    var name := Candidate(FileDetailsOf(Render(src)), now, j + 1);
    var sibling := src[..|src| - 1] + [name.file];
    DefaultNameBeside(t, cwd, src, now, j);
    KeyOfRendered(cwd, src);
    KeyOfRendered(cwd, sibling);
    assert ParentIsDir(t, sibling);
    BackupToFree(t, cwd, Render(src), now, name, src, sibling);
  }

  /** A backup whose default name is free, inside an existing directory,
      copies the source there. */
  lemma BackupToFree(t: Tree, cwd: string, p: string, now: nat -> nat, name: BackupName, s: Key, k: Key)
    requires WellFormed(t)
    requires KeyOf(cwd, p) == Some(s) && s in t && t[s].File?
    requires DefaultName(t, cwd, FileDetailsOf(p), now) == name
    requires KeyOf(cwd, name.uri) == Some(k) && k !in t && ParentIsDir(t, k)
    ensures BackupEffect(t, cwd, p, None, now) == (Returned(Some(name.uri)), t[k := File(t[s].content)])
  {
    CopiesContent(t, cwd, p, name.uri);
    BackupIsCopy(t, cwd, p, now, name);
  }

  /** The default namer settles on the first candidate that is not an
      existing file. */
  lemma DefaultIsCandidate(t: Tree, cwd: string, d: FileDetails, now: nat -> nat, j: nat)
    requires j < 10 && forall i :: 0 <= i < j ==> Taken(t, cwd, d, now)[i]
    requires !HasFile(t, cwd, Candidate(d, now, j + 1).uri)
    ensures DefaultName(t, cwd, d, now) == Candidate(d, now, j + 1)
  {
    TakenAt(t, cwd, d, now, j + 1);
    FirstFreeUnique(Taken(t, cwd, d, now), j);
  }

  /** A candidate for a path in normal form is a sibling of it. */
  lemma CandidateBeside(src: seq<string>, now: nat -> nat, c: nat)
    requires Clean(src) && |src| >= 1
    ensures Beside(src, Candidate(FileDetailsOf(Render(src)), now, c))
  {
    DetailsFit(src);
    CandidateSibling(src, FileDetailsOf(Render(src)), now, c);
  }

  /** With the default name settled and the copy succeeding, the backup is
      that copy. */
  lemma BackupIsCopy(t: Tree, cwd: string, p: string, now: nat -> nat, name: BackupName)
    requires HasFile(t, cwd, p)
    requires DefaultName(t, cwd, FileDetailsOf(p), now) == name
    requires CopyEffect(t, cwd, p, name.uri).0.Returned?
    ensures BackupEffect(t, cwd, p, None, now) == (Returned(Some(name.uri)), CopyEffect(t, cwd, p, name.uri).1)
  {
  }

  /** With all ten candidates taken the tenth is used, and the copy
      replaces that earlier backup. */
  lemma AllTakenOverwrites(t: Tree, cwd: string, p: string, now: nat -> nat)
    requires HasFile(t, cwd, p)
    requires forall i :: 0 <= i < 10 ==> Taken(t, cwd, FileDetailsOf(p), now)[i]
    ensures var last := Candidate(FileDetailsOf(p), now, 10);
            && DefaultName(t, cwd, FileDetailsOf(p), now) == last
            && BackupEffect(t, cwd, p, None, now)
               == (Returned(Some(last.uri)), t[KeyOf(cwd, last.uri).value := File(t[KeyOf(cwd, p).value].content)])
  {
    var d := FileDetailsOf(p);
    FirstFreeUnique(Taken(t, cwd, d, now), 9);
    TakenAt(t, cwd, d, now, 10);
    CopiesContent(t, cwd, p, Candidate(d, now, 10).uri);
  }

  /** The name and extension of a file name hold no separator it lacks. */
  lemma PartsHaveNoSeparator(file: string)
    requires '/' !in file
    ensures '/' !in SplitExtension(file).0 && '/' !in SplitExtension(file).1
  {
    var r := SplitExtension(file);
    if r.1 != "" && r.0 + "." + r.1 == file {
      assert forall i :: 0 <= i < |r.0| ==> r.0[i] == file[i];
      assert forall i :: 0 <= i < |r.1| ==> r.1[i] == file[|r.0| + 1 + i];
    }
  }

  /** A default name is a proper entry name. */
  lemma CandidateIsProper(d: FileDetails, now: nat -> nat, c: nat)
    requires '/' !in d.fileName && '/' !in d.extension
    ensures Proper(Candidate(d, now, c).file)
  {
    NatToStringDigits(now(c));
    NatToStringDigits(c);
    NoSlashInDigits(NatToString(now(c)));
    NoSlashInDigits(NatToString(c));
  }
}
