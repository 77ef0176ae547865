/** `relative` and `inferIsDirectory`
    (src/commands/file/relative/relative.ts). What `existsSync`/`statSync`
    report about the `from` path is passed in as a `Stat`. */
module RelativePath {
  import opened Outcomes
  import opened Text
  import opened PosixPath
  import opened TrailingSep
  import opened FileSystem

  const UndetectableFrom := "Could not detect if the `from` path is a directory or file. Please explicitly state with `fromIsDir`."

  /** Decides whether a path is a directory: an existing path by its stat,
      otherwise a trailing separator says directory and an extension says
      file; anything else is undecided. */
  function InferIsDirectory(absolutePath: string, stat: Stat): (r: Option<bool>)
    ensures stat != Absent ==> r == Some(stat == IsDirectory)
    ensures stat == Absent && EndsWithSep(absolutePath) ==> r == Some(true)
    ensures stat == Absent && !EndsWithSep(absolutePath) && Extname(absolutePath) != "" ==> r == Some(false)
    ensures r.None? <==> stat == Absent && !EndsWithSep(absolutePath) && Extname(absolutePath) == ""
  {
    if stat != Absent then Some(stat == IsDirectory)
    else if EndsWithSep(absolutePath) then Some(true)
    else if Extname(absolutePath) != "" then Some(false)
    else None
  }

  /** Prefixes './' unless the path climbs with '../'. */
  function DotPrefix(relPath: string): (r: string)
    ensures "../" <= relPath ==> r == relPath
    ensures !("../" <= relPath) ==> r == "./" + relPath
  {
    (if !("../" <= relPath) then "./" else "") + relPath
  }

  /** The relative path from `from` (a directory, or a file whose directory
      is used) to `to`, prefixed with './' unless it climbs with '../', and
      without a trailing separator. */
  function Relative(cwd: string, from: string, to: string, fromIsDir: Option<bool>, fromStat: Stat): (r: Completion<string>)
    ensures r.Threw? <==> fromIsDir.None? && InferIsDirectory(from, fromStat).None?
    ensures r.Threw? ==> r.message == UndetectableFrom
  {
    var isDirectory := if fromIsDir.Some? then fromIsDir else InferIsDirectory(from, fromStat);
    if isDirectory.None? then Threw(UndetectableFrom)
    else
      var fromDir := if isDirectory.value then from else Dirname(from);
      Returned(StripTrailingSep(DotPrefix(PosixPath.Relative(cwd, fromDir, to))))
  }

  /** Joined separator-free parts start with '../' exactly when there are at
      least two parts and the first is '..'. */
  lemma StartsWithUp(parts: seq<string>)
    requires forall i :: 0 <= i < |parts| ==> '/' !in parts[i]
    ensures "../" <= JoinWith(parts, '/') <==> |parts| >= 2 && parts[0] == ".."
  {
    var s := JoinWith(parts, '/');
    if |parts| == 1 {
      assert s == parts[0];
      if |s| >= 3 {
        assert s[2] in parts[0];
      }
    } else if |parts| >= 2 {
      var p := parts[0];
      assert s == p + "/" + JoinWith(parts[1..], '/');
      if |p| >= 3 {
        assert s[2] == p[2] && p[2] in p;
      } else if |p| < 2 {
        assert s[|p|] == '/';
      } else {
        assert s[..2] == p && s[2] == '/';
      }
      if p == ".." {
        assert s[..3] == "../";
      }
    }
  }

  /** What the prefixing and stripping make of the parts of `path.relative`:
      a climbing path is kept as is, no parts give '.', anything else is
      prefixed with './'. */
  lemma {:induction false} Tidied(pieces: seq<string>)
    requires forall i :: 0 <= i < |pieces| ==> pieces[i] == ".." || Proper(pieces[i])
    ensures var raw := JoinWith(pieces, '/');
            var r := StripTrailingSep(DotPrefix(raw));
            && r == (if |pieces| >= 2 && pieces[0] == ".." then raw
                     else if pieces == [] then "."
                     else "./" + raw)
            && !EndsWithSep(r) && |r| >= 1 && r[0] == '.'
  {
    var raw := JoinWith(pieces, '/');
    StartsWithUp(pieces);
    if pieces == [] {
      assert StripTrailingSep("./") == ".";
    } else {
      JoinLastPiece(pieces, '/');
      if |pieces| >= 2 && pieces[0] == ".." {
        assert raw[0] == '.';
      } else {
        var s := "./" + raw;
        assert s[|s| - 1] == raw[|raw| - 1];
      }
    }
  }

  /** How the result is built from the parts of `path.relative`. */
  lemma Shape(cwd: string, from: string, to: string, fromIsDir: Option<bool>, fromStat: Stat)
    requires Relative(cwd, from, to, fromIsDir, fromStat).Returned?
    ensures var isDirectory := if fromIsDir.Some? then fromIsDir.value else InferIsDirectory(from, fromStat).value;
            var fromDir := if isDirectory then from else Dirname(from);
            var pieces := RelativePieces(cwd, fromDir, to);
            var raw := PosixPath.Relative(cwd, fromDir, to);
            var r := Relative(cwd, from, to, fromIsDir, fromStat).value;
            && r == (if |pieces| >= 2 && pieces[0] == ".." then raw
                     else if pieces == [] then "."
                     else "./" + raw)
            && !EndsWithSep(r) && |r| >= 1 && r[0] == '.'
  {
    var isDirectory := if fromIsDir.Some? then fromIsDir.value else InferIsDirectory(from, fromStat).value;
    var fromDir := if isDirectory then from else Dirname(from);
    Tidied(RelativePieces(cwd, fromDir, to));
  }

  /** An explicit `fromIsDir` is always honoured: the stat is not consulted
      and nothing is thrown. */
  lemma ExplicitOverrides(cwd: string, from: string, to: string, isDir: bool, stat1: Stat, stat2: Stat)
    ensures Relative(cwd, from, to, Some(isDir), stat1).Returned?
    ensures Relative(cwd, from, to, Some(isDir), stat1) == Relative(cwd, from, to, Some(isDir), stat2)
  {
  }

  /** A file `from` is replaced by its directory. */
  lemma FileUsesDirname(cwd: string, from: string, to: string, stat: Stat)
    ensures Relative(cwd, from, to, Some(false), stat) == Relative(cwd, Dirname(from), to, Some(true), stat)
  {
  }

  /** The same directory on both sides gives '.'. */
  lemma Identical(cwd: string, dir: string, stat: Stat)
    ensures Relative(cwd, dir, dir, Some(true), stat) == Returned(".")
  {
    RelativeToSelf(cwd, dir);
    assert RelativePieces(cwd, dir, dir) == [];
    Shape(cwd, dir, dir, Some(true), stat);
  }

  /** Going to the parent directory gives './..'. */
  lemma ToParent(cwd: string, from: string, to: string, stat: Stat)
    requires |Locate(cwd, from)| >= 1
    requires Locate(cwd, to) == Locate(cwd, from)[..|Locate(cwd, from)| - 1]
    ensures Relative(cwd, from, to, Some(true), stat) == Returned("./..")
  {
    var f := Locate(cwd, from);
    var t := Locate(cwd, to);
    assert CommonPrefixLength(f, t) == |t| by {
      assert f[..|t|] == t;
    }
    assert RelativePieces(cwd, from, to) == [".."];
    assert PosixPath.Relative(cwd, from, to) == "..";
    Shape(cwd, from, to, Some(true), stat);
    assert Relative(cwd, from, to, Some(true), stat).value == "./" + "..";
    assert "./" + ".." == "./..";
  }

  /** Going down into a descendant gives './' followed by the remaining
      segments. */
  lemma ToDescendant(cwd: string, from: string, to: string, stat: Stat)
    requires Locate(cwd, from) < Locate(cwd, to)
    ensures Relative(cwd, from, to, Some(true), stat) ==
            Returned("./" + JoinWith(Locate(cwd, to)[|Locate(cwd, from)|..], '/'))
  {
    var f := Locate(cwd, from);
    var t := Locate(cwd, to);
    RelativeFromAncestor(cwd, from, to);
    assert f[..|f|] == t[..|f|];
    assert CommonPrefixLength(f, t) == |f|;
    var pieces := RelativePieces(cwd, from, to);
    assert pieces == t[|f|..];
    assert Proper(pieces[0]);
    Shape(cwd, from, to, Some(true), stat);
  }
}
