/** `stripTrailingSep` (src/commands/file/strip-trailing-sep/stripTrailingSep.ts). */
module TrailingSep {

  predicate EndsWithSep(path: string)
  {
    |path| > 0 && path[|path| - 1] == '/'
  }

  /** Removes one trailing separator, if there is one. */
  function StripTrailingSep(path: string): (r: string)
    ensures r <= path
    ensures EndsWithSep(path) <==> |r| < |path|
    ensures |path| - |r| <= 1
    ensures r == path || r + "/" == path
  {
    if EndsWithSep(path) then path[..|path| - 1] else path
  }

  /** Only one separator is removed, so stripping is not idempotent:
      'a//' becomes 'a/', and only a second call gives 'a'. */
  lemma NotIdempotent()
    ensures StripTrailingSep("a//") == "a/"
    ensures StripTrailingSep(StripTrailingSep("a//")) == "a"
  {
  }

  /** A result that no longer ends with a separator is left alone by a second call. */
  lemma StableWithoutTrailingSep(path: string)
    requires !EndsWithSep(StripTrailingSep(path))
    ensures StripTrailingSep(StripTrailingSep(path)) == StripTrailingSep(path)
  {
  }

  /** The root '/' becomes the empty string. */
  lemma RootBecomesEmpty()
    ensures StripTrailingSep("/") == ""
  {
  }
}
