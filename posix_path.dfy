/**
 * The POSIX flavour of Node's `path` module, on `/`-separated strings:
 * `dirname`, `basename`, `extname`, `normalize`, `join`, `resolve` and
 * `relative`, as the core files call them. `resolve` and `relative` take the
 * process's working directory as an explicit parameter.
 */
module PosixPath {
  import opened Text

  predicate IsAbsolute(p: string)
  {
    |p| > 0 && p[0] == '/'
  }

  /** The separator that ends the directory part, scanning from `i` down to
      index 1 as `path.dirname` does; -1 when there is none. */
  function DirEnd(p: string, i: int, matchedSlash: bool): (end: int)
    requires i < |p|
    ensures end == -1 || (1 <= end <= i && p[end] == '/')
    decreases i
  {
    if i < 1 then -1
    else if p[i] == '/' then (if !matchedSlash then i else DirEnd(p, i - 1, true))
    else DirEnd(p, i - 1, false)
  }

  /** `path.dirname(p)` */
  function Dirname(p: string): (d: string)
    ensures 0 < |d| && (|d| <= 2 || |d| < |p|)
    ensures IsAbsolute(p) ==> IsAbsolute(d)
  {
    if |p| == 0 then "."
    else
      var end := DirEnd(p, |p| - 1, true);
      if end == -1 then (if p[0] == '/' then "/" else ".")
      else if p[0] == '/' && end == 1 then "//"
      else p[..end]
  }

  lemma {:induction false} DirEndSkipsName(p: string, k: nat, i: nat, matchedSlash: bool)
    requires 1 <= k < i < |p| && p[k] == '/'
    requires forall j :: k < j <= i ==> p[j] != '/'
    requires !matchedSlash || i == |p| - 1
    ensures DirEnd(p, i, matchedSlash) == k
    decreases i
  {
    if i - 1 > k {
      DirEndSkipsName(p, k, i - 1, false);
    }
  }

  /** The directory of `dir + "/" + name` is `dir` again, for a directory
      that is neither empty nor the root. */
  lemma DirnameOfChild(dir: string, name: string)
    requires |dir| >= 1 && dir != "/"
    requires |name| >= 1 && '/' !in name
    ensures Dirname(dir + "/" + name) == dir
  {
    var p := dir + "/" + name;
    assert p[|dir|] == '/';
    assert forall j :: |dir| < j < |p| ==> p[j] == name[j - |dir| - 1];
    DirEndSkipsName(p, |dir|, |p| - 1, true);
    assert p[..|dir|] == dir;
    assert |dir| == 1 ==> dir == [dir[0]];
  }

  lemma {:induction false} DirEndNone(p: string, i: int, matchedSlash: bool)
    requires i < |p|
    requires forall j :: 1 <= j <= i ==> p[j] != '/'
    ensures DirEnd(p, i, matchedSlash) == -1
    decreases i
  {
    if i >= 1 {
      DirEndNone(p, i - 1, false);
    }
  }

  /** A path without separators lies in '.'. */
  lemma DirnameOfBareName(p: string)
    requires '/' !in p
    ensures Dirname(p) == "."
  {
    if |p| > 0 {
      DirEndNone(p, |p| - 1, true);
    }
  }

  /** `p` without its trailing separators. */
  function TrimTrailingSeps(p: string): (t: string)
    ensures t <= p
    ensures |t| == 0 || t[|t| - 1] != '/'
  {
    if |p| > 0 && p[|p| - 1] == '/' then TrimTrailingSeps(p[..|p| - 1]) else p
  }

  /** The index just after the last separator of `t`, or 0. */
  function LastPartStart(t: string): (i: nat)
    ensures i <= |t|
    ensures forall j :: i <= j < |t| ==> t[j] != '/'
    ensures i > 0 ==> t[i - 1] == '/'
  {
    if |t| == 0 then 0
    else if t[|t| - 1] == '/' then |t|
    else LastPartStart(t[..|t| - 1])
  }

  /** `path.basename(p)`: the last part, trailing separators ignored. */
  function Basename(p: string): (b: string)
    ensures '/' !in b
  {
    var t := TrimTrailingSeps(p);
    var i := LastPartStart(t);
    assert forall j :: 0 <= j < |t[i..]| ==> t[i..][j] == t[i + j];
    t[i..]
  }

  /** The last part of `dir + "/" + name` is `name`. */
  lemma BasenameOfChild(dir: string, name: string)
    requires |name| >= 1 && '/' !in name
    ensures Basename(dir + "/" + name) == name
  {
    var p := dir + "/" + name;
    assert p[|p| - 1] == name[|name| - 1];
    assert TrimTrailingSeps(p) == p;
    LastPartOfChild(dir, name, |name|);
  }

  lemma {:induction false} LastPartOfChild(dir: string, name: string, n: nat)
    requires n <= |name| && '/' !in name
    ensures LastPartStart((dir + "/" + name)[..|dir| + 1 + n]) == |dir| + 1
    decreases n
  {
    var p := dir + "/" + name;
    var t := p[..|dir| + 1 + n];
    if n == 0 {
      assert t[|t| - 1] == '/';
    } else {
      assert t[|t| - 1] == name[n - 1];
      assert t[..|t| - 1] == p[..|dir| + 1 + (n - 1)];
      LastPartOfChild(dir, name, n - 1);
    }
  }

  /** Index of the last `c` in `s`, or -1. */
  function LastIndexOf(s: string, c: char): (i: int)
    ensures -1 <= i < |s|
    ensures i >= 0 ==> s[i] == c
    ensures forall j :: i < j < |s| ==> s[j] != c
  {
    if |s| == 0 then -1
    else if s[|s| - 1] == c then |s| - 1
    else LastIndexOf(s[..|s| - 1], c)
  }

  /** The extension of a last part: from its last '.', unless that dot
      starts the part or the part is "..". */
  function ExtOf(b: string): (e: string)
    ensures e == "" || (e[0] == '.' && |e| < |b| && b[|b| - |e|..] == e)
    ensures forall j :: 1 <= j < |e| ==> e[j] != '.'
  {
    if b == ".." then ""
    else
      var d := LastIndexOf(b, '.');
      if d <= 0 then "" else b[d..]
  }

  /** `path.extname(p)` */
  function Extname(p: string): string
  {
    ExtOf(Basename(p))
  }

  /** `path.basename(p, path.extname(p))`: the last part without its extension. */
  function Stem(p: string): (n: string)
    ensures n + Extname(p) == Basename(p)
  {
    var b := Basename(p);
    var e := ExtOf(b);
    assert b[..|b| - |e|] + b[|b| - |e|..] == b;
    b[..|b| - |e|]
  }

  // ---------------------------------------------------------------------
  // normalize / join / resolve / relative

  /** One segment of `normalizeString`: skip "" and ".", let ".." pop the last
      segment (or, for a relative path, stay when there is nothing to pop). */
  function NormalizeStep(acc: seq<string>, s: string, allowAboveRoot: bool): seq<string>
  {
    if s == "" || s == "." then acc
    else if s == ".." then
      (if |acc| > 0 && acc[|acc| - 1] != ".." then acc[..|acc| - 1]
       else if allowAboveRoot then acc + [".."]
       else acc)
    else acc + [s]
  }

  function NormalizeFrom(acc: seq<string>, segs: seq<string>, allowAboveRoot: bool): seq<string>
    decreases |segs|
  {
    if |segs| == 0 then acc
    else NormalizeFrom(NormalizeStep(acc, segs[0], allowAboveRoot), segs[1..], allowAboveRoot)
  }

  /** A segment that names a real directory entry. */
  predicate Proper(s: string)
  {
    s != "" && s != "." && s != ".." && '/' !in s
  }

  /** Segments as an absolute, normalized path holds them. */
  predicate Clean(segs: seq<string>)
  {
    forall i :: 0 <= i < |segs| ==> Proper(segs[i])
  }

  lemma {:induction false} NormalizeFromClean(acc: seq<string>, segs: seq<string>)
    requires Clean(acc)
    requires forall i :: 0 <= i < |segs| ==> '/' !in segs[i]
    ensures Clean(NormalizeFrom(acc, segs, false))
    decreases |segs|
  {
    if |segs| > 0 {
      NormalizeFromClean(NormalizeStep(acc, segs[0], false), segs[1..]);
    }
  }

  /** Normalizing segments that are already proper changes nothing. */
  lemma {:induction false} NormalizeFromProper(acc: seq<string>, segs: seq<string>, allowAboveRoot: bool)
    requires Clean(segs)
    ensures NormalizeFrom(acc, segs, allowAboveRoot) == acc + segs
    decreases |segs|
  {
    if |segs| > 0 {
      NormalizeFromProper(acc + [segs[0]], segs[1..], allowAboveRoot);
      assert acc + [segs[0]] + segs[1..] == acc + segs;
    }
  }

  /** `path.normalize(p)` */
  function Normalize(p: string): string
  {
    if |p| == 0 then "."
    else
      var abs := p[0] == '/';
      var trailing := p[|p| - 1] == '/';
      var body := JoinWith(NormalizeFrom([], Split(p, '/'), !abs), '/');
      if |body| == 0 then (if abs then "/" else if trailing then "./" else ".")
      else (if abs then "/" else "") + body + (if trailing then "/" else "")
  }

  /** `path.join(a, b)`: empty arguments are skipped, the rest normalized. */
  function Join(a: string, b: string): string
  {
    var joined := if |a| == 0 then b else if |b| == 0 then a else a + "/" + b;
    if |joined| == 0 then "." else Normalize(joined)
  }

  /** The segments of `path.resolve(cwd, p)`. */
  function Locate(cwd: string, p: string): (k: seq<string>)
    ensures Clean(k)
  {
    var full := if IsAbsolute(p) then p else cwd + "/" + p;
    SplitShape(full, '/');
    NormalizeFromClean([], Split(full, '/'));
    NormalizeFrom([], Split(full, '/'), false)
  }

  /** The absolute path naming a location. */
  function Render(segs: seq<string>): (p: string)
    ensures IsAbsolute(p)
  {
    "/" + JoinWith(segs, '/')
  }

  /** `path.resolve(cwd, p)`; the working directory is absolute. */
  function Resolve(cwd: string, p: string): (r: string)
    ensures IsAbsolute(r)
  {
    Render(Locate(cwd, p))
  }

  /** A rendered location is located again exactly. */
  lemma LocateRendered(cwd: string, segs: seq<string>)
    requires Clean(segs)
    ensures Locate(cwd, Render(segs)) == segs
  {
    var j := JoinWith(segs, '/');
    var r := Render(segs);
    assert r == "" + "/" + j;
    SplitAfterPiece("", '/', j);
    if |segs| == 0 {
      assert Split(r, '/') == ["", ""];
      assert NormalizeFrom([], ["", ""], false) == NormalizeFrom([], [""], false) == [];
    } else {
      SplitJoin(segs, '/');
      assert Split(r, '/') == [""] + segs;
      NormalizeFromProper([], segs, false);
    }
  }

  /** The directory of a rendered location is its parent, rendered. */
  lemma DirnameRendered(segs: seq<string>)
    requires Clean(segs) && |segs| >= 1
    ensures Dirname(Render(segs)) == Render(segs[..|segs| - 1])
  {
    var n := |segs|;
    var p := Render(segs);
    if n == 1 {
      assert p == "/" + segs[0];
      assert forall j :: 1 <= j < |p| ==> p[j] == segs[0][j - 1];
      DirEndNone(p, |p| - 1, true);
      assert Render(segs[..0]) == "/";
    } else {
      var dir := Render(segs[..n - 1]);
      JoinWithSnoc(segs[..n - 1], segs[n - 1], '/');
      assert segs[..n - 1] + [segs[n - 1]] == segs;
      assert p == dir + "/" + segs[n - 1];
      assert |dir| >= 2 by {
        assert JoinWith(segs[..n - 1], '/') == segs[0] + "/" + JoinWith(segs[1..n - 1], '/') || n - 1 == 1;
      }
      DirnameOfChild(dir, segs[n - 1]);
    }
  }

  /** Joining a name onto a rendered directory renders the child. */
  lemma JoinRendered(d: seq<string>, n: string)
    requires Clean(d) && Proper(n)
    ensures Join(Render(d), n) == Render(d + [n])
  {
    var p := Render(d) + "/" + n;
    var dn := d + [n];
    SegmentsOfChild(d, n);
    JoinLastPiece(dn, '/');
    assert p[|p| - 1] == n[|n| - 1];
    assert n[|n| - 1] in n;
    assert Join(Render(d), n) == Normalize(p);
  }

  /** Normalizing a concatenation normalizes the first part, then the
      rest from there. */
  lemma {:induction false} NormalizeFromAppend(acc: seq<string>, a: seq<string>, b: seq<string>, allowAboveRoot: bool)
    ensures NormalizeFrom(acc, a + b, allowAboveRoot) == NormalizeFrom(NormalizeFrom(acc, a, allowAboveRoot), b, allowAboveRoot)
    decreases |a|
  {
    if |a| == 0 {
      assert a + b == b;
    } else {
      NormalizeFromAppend(NormalizeStep(acc, a[0], allowAboveRoot), a[1..], b, allowAboveRoot);
      assert (a + b)[1..] == a[1..] + b;
    }
  }

  /** Joining a name onto a rendered directory written with a trailing
      separator renders the child, as without the separator. */
  lemma JoinOntoTrailingSep(d: seq<string>, n: string)
    requires Clean(d) && |d| >= 1 && Proper(n)
    ensures Join(Render(d) + "/", n) == Render(d + [n])
  {
    var p := Render(d) + "/" + "/" + n;
    SplitDoubledSep(d, n);
    EmptySegmentsSkipped(d, n);
    assert p[|p| - 1] == n[|n| - 1];
    assert n[|n| - 1] in n;
    assert Join(Render(d) + "/", n) == Normalize(p);
  }

  /** The pieces of a rendered directory, a doubled separator and a name. */
  lemma SplitDoubledSep(d: seq<string>, n: string)
    requires Clean(d) && |d| >= 1 && Proper(n)
    ensures Split(Render(d) + "/" + "/" + n, '/') == [""] + (d + ["", n])
  {
    var rest := d + ["", n];
    JoinWithSnoc(d, "", '/');
    JoinWithSnoc(d + [""], n, '/');
    assert d + [""] + [n] == rest;
    var j := JoinWith(rest, '/');
    assert j == JoinWith(d, '/') + "/" + "/" + n;
    assert Render(d) + "/" + "/" + n == "" + "/" + j;
    SplitAfterPiece("", '/', j);
    assert forall i :: 0 <= i < |rest| ==> '/' !in rest[i] by {
      forall i | 0 <= i < |rest| ensures '/' !in rest[i] {
        if i < |d| { assert rest[i] == d[i]; }
      }
    }
    SplitJoin(rest, '/');
  }

  /** Empty pieces are skipped by normalization. */
  lemma EmptySegmentsSkipped(d: seq<string>, n: string)
    requires Clean(d) && Proper(n)
    ensures NormalizeFrom([], [""] + (d + ["", n]), false) == d + [n]
  {
    assert ([""] + (d + ["", n]))[1..] == d + ["", n];
    assert NormalizeFrom([], [""] + (d + ["", n]), false) == NormalizeFrom([], d + ["", n], false);
    NormalizeFromAppend([], d, ["", n], false);
    NormalizeFromProper([], d, false);
    assert [] + d == d;
    assert ["", n][1..] == [n];
    assert NormalizeFrom(d, ["", n], false) == NormalizeFrom(d, [n], false);
    assert [n][1..] == [];
  }

  lemma SegmentsOfChild(d: seq<string>, n: string)
    requires Clean(d) && Proper(n)
    ensures NormalizeFrom([], Split(Render(d) + "/" + n, '/'), false) == d + [n]
    ensures Clean(d + [n])
  {
    var p := Render(d) + "/" + n;
    var dn := d + [n];
    assert Clean(dn);
    if |d| == 0 {
      assert p == "" + "/" + ("" + "/" + n);
      SplitAfterPiece("", '/', "/" + n);
      SplitAfterPiece("", '/', n);
      SplitNoSeparator(n, '/');
      assert Split(p, '/') == ["", "", n];
      assert NormalizeFrom([], ["", "", n], false) == NormalizeFrom([], ["", n], false)
          == NormalizeFrom([], [n], false) == [n];
    } else {
      JoinWithSnoc(d, n, '/');
      var j := JoinWith(dn, '/');
      assert p == "" + "/" + j;
      SplitAfterPiece("", '/', j);
      SplitJoin(dn, '/');
      assert Split(p, '/') == [""] + dn;
      NormalizeFromProper([], dn, false);
      assert NormalizeFrom([], [""] + dn, false) == NormalizeFrom([], dn, false);
    }
  }

  /** The last part of a rendered location is its last segment. */
  lemma BasenameOfRendered(segs: seq<string>)
    requires Clean(segs) && |segs| >= 1
    ensures Basename(Render(segs)) == segs[|segs| - 1]
  {
    var n := |segs|;
    if n == 1 {
      assert Render(segs) == "" + "/" + segs[0];
      BasenameOfChild("", segs[0]);
    } else {
      JoinWithSnoc(segs[..n - 1], segs[n - 1], '/');
      assert segs[..n - 1] + [segs[n - 1]] == segs;
      assert Render(segs) == Render(segs[..n - 1]) + "/" + segs[n - 1];
      BasenameOfChild(Render(segs[..n - 1]), segs[n - 1]);
    }
  }

  /** A rendered location other than the root does not end with a separator. */
  lemma RenderNoTrailingSep(segs: seq<string>)
    requires Clean(segs) && |segs| >= 1
    ensures Render(segs)[|Render(segs)| - 1] != '/'
  {
    JoinLastPiece(segs, '/');
  }

  /** A resolved path names the same segments again: resolving is idempotent. */
  lemma LocateResolved(cwd: string, p: string)
    ensures Locate(cwd, Resolve(cwd, p)) == Locate(cwd, p)
    ensures Resolve(cwd, Resolve(cwd, p)) == Resolve(cwd, p)
  {
    LocateRendered(cwd, Locate(cwd, p));
  }

  lemma ResolveNoTrailingSep(cwd: string, p: string)
    ensures Resolve(cwd, p) == "/" || Resolve(cwd, p)[|Resolve(cwd, p)| - 1] != '/'
  {
    var segs := Locate(cwd, p);
    if |segs| > 0 {
      JoinLastPiece(segs, '/');
    }
  }

  lemma {:induction false} JoinLastPiece(parts: seq<string>, c: char)
    requires |parts| >= 1 && |parts[|parts| - 1]| >= 1
    ensures |JoinWith(parts, c)| >= 1
    ensures JoinWith(parts, c)[|JoinWith(parts, c)| - 1] == parts[|parts| - 1][|parts[|parts| - 1]| - 1]
  {
    if |parts| > 1 {
      JoinLastPiece(parts[1..], c);
    }
  }

  function CommonPrefixLength(a: seq<string>, b: seq<string>): (k: nat)
    ensures k <= |a| && k <= |b| && a[..k] == b[..k]
    ensures k < |a| && k < |b| ==> a[k] != b[k]
  {
    if |a| == 0 || |b| == 0 || a[0] != b[0] then 0
    else 1 + CommonPrefixLength(a[1..], b[1..])
  }

  function Ups(n: nat): (r: seq<string>)
    ensures |r| == n && forall i :: 0 <= i < n ==> r[i] == ".."
  {
    if n == 0 then [] else [".."] + Ups(n - 1)
  }

  /** The parts of `path.relative(from, to)`: climb out of what `from` does
      not share with `to`, then descend into the rest of `to`. */
  function RelativePieces(cwd: string, from: string, to: string): (pieces: seq<string>)
    ensures forall i :: 0 <= i < |pieces| ==> pieces[i] == ".." || Proper(pieces[i])
  {
    var f := Locate(cwd, from);
    var t := Locate(cwd, to);
    var k := CommonPrefixLength(f, t);
    var pieces := Ups(|f| - k) + t[k..];
    assert forall i :: 0 <= i < |pieces| ==> pieces[i] == ".." || Proper(pieces[i]) by {
      forall i | 0 <= i < |pieces| ensures pieces[i] == ".." || Proper(pieces[i]) {
        if i >= |f| - k {
          assert pieces[i] == t[k + i - (|f| - k)];
        }
      }
    }
    pieces
  }

  /** `path.relative(from, to)`. */
  function Relative(cwd: string, from: string, to: string): string
  {
    JoinWith(RelativePieces(cwd, from, to), '/')
  }

  /** The result of `relative` never ends with a separator. */
  lemma RelativeNoTrailingSep(cwd: string, from: string, to: string)
    ensures Relative(cwd, from, to) == "" || Relative(cwd, from, to)[|Relative(cwd, from, to)| - 1] != '/'
  {
    var pieces := RelativePieces(cwd, from, to);
    if |pieces| > 0 {
      JoinLastPiece(pieces, '/');
    }
  }

  /** Distinct locations have a non-empty relative path. */
  lemma RelativeNonEmpty(cwd: string, from: string, to: string)
    requires Locate(cwd, from) != Locate(cwd, to)
    ensures Relative(cwd, from, to) != ""
  {
    var f := Locate(cwd, from);
    var t := Locate(cwd, to);
    var k := CommonPrefixLength(f, t);
    assert k < |f| || k < |t| by {
      assert f[..|f|] == f && t[..|t|] == t;
    }
    var pieces := RelativePieces(cwd, from, to);
    assert |pieces| >= 1;
    JoinLastPiece(pieces, '/');
  }

  /** The number of `/`-separated parts of `relative(from, to)` is the number
      of directory hops between the two (counted as 1 when they coincide). */
  lemma RelativeParts(cwd: string, from: string, to: string)
    ensures var f := Locate(cwd, from);
            var t := Locate(cwd, to);
            var k := CommonPrefixLength(f, t);
            var hops := (|f| - k) + (|t| - k);
            |Split(Relative(cwd, from, to), '/')| == if hops == 0 then 1 else hops
  {
    var pieces := RelativePieces(cwd, from, to);
    SplitShape(JoinWith(pieces, '/'), '/');
    if |pieces| >= 1 {
      JoinCount(pieces, '/');
    }
  }

  /** From an ancestor, `relative` is the descendant's remaining segments. */
  lemma RelativeFromAncestor(cwd: string, from: string, to: string)
    requires Locate(cwd, from) <= Locate(cwd, to)
    ensures Relative(cwd, from, to) == JoinWith(Locate(cwd, to)[|Locate(cwd, from)|..], '/')
  {
    var f := Locate(cwd, from);
    var t := Locate(cwd, to);
    var k := CommonPrefixLength(f, t);
    assert f[..|f|] == t[..|f|];
    assert Ups(0) + t[k..] == t[k..];
  }

  /** `relative(p, p)` is the empty string. */
  lemma RelativeToSelf(cwd: string, p: string)
    ensures Relative(cwd, p, p) == ""
  {
    var f := Locate(cwd, p);
    assert CommonPrefixLength(f, f) == |f|;
    assert Ups(0) + f[|f|..] == [];
  }
}
