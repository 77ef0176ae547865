/** `absolute` (src/commands/file/absolute/absolute.ts), with the process's
    working directory `cwd` as a parameter. */
module AbsolutePath {
  import opened Text
  import opened PosixPath
  import opened TrailingSep

  /** Resolves `filePath` against `cwd` unless it is already absolute, then
      removes one trailing separator. */
  function Absolute(cwd: string, filePath: string): (r: string)
    ensures IsAbsolute(filePath) ==> r == StripTrailingSep(filePath)
    ensures !IsAbsolute(filePath) ==> r == StripTrailingSep(Resolve(cwd, filePath))
  {
    var abs := if IsAbsolute(filePath) then filePath else Resolve(cwd, filePath);
    StripTrailingSep(abs)
  }

  /** The root maps to the empty string. */
  lemma RootIsEmpty(cwd: string)
    ensures Absolute(cwd, "/") == ""
  {
  }

  /** A relative input comes back absolute and without a trailing separator,
      or as the empty string when it resolves to the root. */
  lemma RelativeInputIsResolved(cwd: string, filePath: string)
    requires !IsAbsolute(filePath)
    ensures Absolute(cwd, filePath) == "" || IsAbsolute(Absolute(cwd, filePath))
    ensures !EndsWithSep(Absolute(cwd, filePath))
    ensures Absolute(cwd, filePath) == "" <==> Locate(cwd, filePath) == []
  {
    ResolveNoTrailingSep(cwd, filePath);
    var segs := Locate(cwd, filePath);
    if |segs| > 0 {
      JoinLastPiece(segs, '/');
    }
  }

  /** The empty string names the working directory. */
  lemma EmptyIsWorkingDirectory(cwd: string)
    requires IsAbsolute(cwd)
    ensures Absolute(cwd, "") == StripTrailingSep(Resolve(cwd, cwd))
  {
    assert cwd + "/" + "" == cwd + ['/'];
    SplitAppendSep(cwd, '/');
    NormalizeFromTrailingEmpty([], Split(cwd, '/'), false);
    assert Locate(cwd, "") == Locate(cwd, cwd);
  }

  lemma {:induction false} SplitAppendSep(q: string, c: char)
    ensures Split(q + [c], c) == Split(q, c) + [""]
  {
    if |q| == 0 {
      assert q + [c] == [c];
      assert [c][1..] == "";
    } else {
      SplitAppendSep(q[1..], c);
      assert (q + [c])[1..] == q[1..] + [c];
    }
  }

  lemma {:induction false} NormalizeFromTrailingEmpty(acc: seq<string>, segs: seq<string>, allowAboveRoot: bool)
    ensures NormalizeFrom(acc, segs + [""], allowAboveRoot) == NormalizeFrom(acc, segs, allowAboveRoot)
    decreases |segs|
  {
    if |segs| == 0 {
      assert segs + [""] == [""];
    } else {
      NormalizeFromTrailingEmpty(NormalizeStep(acc, segs[0], allowAboveRoot), segs[1..], allowAboveRoot);
      assert (segs + [""])[1..] == segs[1..] + [""];
    }
  }

  /** Whatever the input, the result names the same location, unless it
      collapsed to the empty string (the root case). */
  lemma SameLocation(cwd: string, filePath: string)
    requires Absolute(cwd, filePath) != ""
    ensures Locate(cwd, Absolute(cwd, filePath)) == Locate(cwd, filePath)
  {
    if IsAbsolute(filePath) {
      if EndsWithSep(filePath) {
        var q := filePath[..|filePath| - 1];
        assert filePath == q + ['/'];
        assert IsAbsolute(q);
        SplitAppendSep(q, '/');
        NormalizeFromTrailingEmpty([], Split(q, '/'), false);
      }
    } else {
      RelativeInputIsResolved(cwd, filePath);
      LocateResolved(cwd, filePath);
      var segs := Locate(cwd, filePath);
      ResolveNoTrailingSep(cwd, filePath);
    }
  }

  /** A rendered location other than the root is already absolute. */
  lemma OfRendered(cwd: string, segs: seq<string>)
    requires Clean(segs) && |segs| >= 1
    ensures Absolute(cwd, Render(segs)) == Render(segs)
  {
    RenderNoTrailingSep(segs);
  }
}
