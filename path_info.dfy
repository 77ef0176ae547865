/** `pathInfoSync` (src/commands/file/path-info/pathInfoSync.ts). What
    `statSync` reports is passed in as a `Stat`; for an absent path it throws
    Node's ENOENT error. The `stripTrailingSlash` it imports is not part of
    this model; it is taken to remove one trailing '/', so `StripTrailingSep`
    stands in for it. */
module PathInfo {
  import opened Outcomes
  import opened Text
  import opened PosixPath
  import opened TrailingSep
  import opened FileSystem

  datatype PathInfo =
    | DirInfo(dirname: string, uri: string)
    | FileInfo(basename: string, extension: string, extensionIncDot: string,
               name: string, dirname: string, uri: string)

  /** The directory part of a file path as the file variants report it:
      without a trailing separator, and '' instead of '.'. */
  function FileDirname(p: string): (d: string)
    ensures d != "."
  {
    var d := StripTrailingSep(Dirname(p));
    if d == "." then "" else d
  }

  /** `extension_inc_dot.replace(/^\./, '')` */
  function DropLeadingDot(e: string): (r: string)
    ensures |e| > 0 && e[0] == '.' ==> "." + r == e
    ensures !(|e| > 0 && e[0] == '.') ==> r == e
  {
    if |e| > 0 && e[0] == '.' then e[1..] else e
  }

  /** `${dirname ? `${dirname}/` : ''}${basename}` */
  function JoinUri(dirname: string, basename: string): (uri: string)
    ensures dirname == "" ==> uri == basename
    ensures dirname != "" ==> uri == dirname + "/" + basename
  {
    (if dirname != "" then dirname + "/" else "") + basename
  }

  function PathInfoSync(absolutePathToFile: string, stat: Stat): (r: Completion<PathInfo>)
    ensures r.Threw? <==> stat == Absent
    ensures r.Returned? ==> (r.value.DirInfo? <==> stat == IsDirectory)
  {
    if stat == Absent then Threw("ENOENT")
    else if stat == IsDirectory then
      var dirname := StripTrailingSep(absolutePathToFile);
      Returned(DirInfo(dirname, dirname))
    else
      var dirname := FileDirname(absolutePathToFile);
      var basename := Basename(absolutePathToFile);
      var extensionIncDot := Extname(absolutePathToFile);
      Returned(FileInfo(basename, DropLeadingDot(extensionIncDot), extensionIncDot,
                        Stem(absolutePathToFile), dirname, JoinUri(dirname, basename)))
  }

  /** A directory is reported by its path without one trailing separator,
      and its uri is that same string. */
  lemma DirectoryFields(p: string)
    ensures var r := PathInfoSync(p, IsDirectory);
            && r.Returned? && r.value.DirInfo?
            && r.value.uri == r.value.dirname
            && r.value.dirname <= p
            && (r.value.dirname == p <==> !EndsWithSep(p))
  {
  }

  /** A file's parts fit together: name and extension make the basename, the
      extension is the dotted one without its dot and holds no further dot,
      and the uri is the directory joined with the basename. */
  lemma FileFields(p: string)
    ensures var r := PathInfoSync(p, IsFile);
            && r.Returned? && r.value.FileInfo?
            && r.value.name + r.value.extensionIncDot == r.value.basename
            && '/' !in r.value.basename
            && (r.value.extensionIncDot == "" ==> r.value.extension == "" && r.value.name == r.value.basename)
            && (r.value.extensionIncDot != "" ==> "." + r.value.extension == r.value.extensionIncDot)
            && '.' !in r.value.extension
            && (r.value.dirname == "" ==> r.value.uri == r.value.basename)
            && (r.value.dirname != "" ==> r.value.uri == r.value.dirname + "/" + r.value.basename)
  {
    var e := Extname(p);
    if e != "" {
      assert forall j :: 0 <= j < |e[1..]| ==> e[1..][j] == e[j + 1];
    }
  }

  /** A bare file name lies in '' and its uri is the name itself. */
  lemma BareName(p: string)
    requires '/' !in p
    ensures var r := PathInfoSync(p, IsFile);
            r.Returned? && r.value.dirname == "" && r.value.uri == r.value.basename
  {
    DirnameOfBareName(p);
  }

  /** For a file below a directory other than the root, the directory and the
      name are recovered and the uri is the path itself. */
  lemma FileUriRoundTrip(dir: string, name: string)
    requires IsAbsolute(dir) && dir != "/" && !EndsWithSep(dir)
    requires |name| >= 1 && '/' !in name
    ensures var r := PathInfoSync(dir + "/" + name, IsFile);
            && r.Returned?
            && r.value.dirname == dir
            && r.value.basename == name
            && r.value.uri == dir + "/" + name
  {
    DirnameOfChild(dir, name);
    BasenameOfChild(dir, name);
    assert dir != ".";
  }

  /** Only the last extension is split off. */
  lemma LastExtensionOnly(dir: string)
    ensures var r := PathInfoSync(dir + "/archive.tar.gz", IsFile);
            r.Returned? && r.value.name == "archive.tar" && r.value.extension == "gz"
  {
    var b := "archive.tar.gz";
    assert dir + "/archive.tar.gz" == dir + "/" + b;
    BasenameOfChild(dir, b);
    TarGz(dir + "/archive.tar.gz");
  }

  lemma TarGz(p: string)
    requires Basename(p) == "archive.tar.gz"
    ensures Extname(p) == ".gz" && Stem(p) == "archive.tar"
  {
    var b := "archive.tar.gz";
    assert b[13] == 'z' && b[..13][12] == 'g' && b[..13][..12] == b[..12] && b[..12][11] == '.';
    assert LastIndexOf(b, '.') == 11;
    assert b[11..] == ".gz" && b[..11] == "archive.tar";
  }

  /** A name placed in the directory a file path reports is the sibling
      location of that file. */
  lemma SiblingUri(src: seq<string>, file: string)
    requires Clean(src) && |src| >= 1 && Proper(file)
    ensures FileDirname(Render(src)) + "/" + file == Render(src[..|src| - 1] + [file])
  {
    var parent := src[..|src| - 1];
    DirnameRendered(src);
    if parent == [] {
      assert Render(parent) == "/";
      assert FileDirname(Render(src)) == "";
      assert JoinWith([file], '/') == file;
      assert parent + [file] == [file];
    } else {
      RenderNoTrailingSep(parent);
      assert Render(parent)[0] == '/';
      JoinWithSnoc(parent, file, '/');
    }
  }
}
