/** The path resolver: a URL path under `/galleries/` to a gallery path. */
module Paths {
  import opened Wrappers
  import opened Strings

  const GalleriesRoot: string := "/galleries/"

  /**
   * `relative_path`, applied to the path component of a URL (extracting
   * that component is `urlparse`'s job and is not modelled here). `None`
   * exactly for paths outside the root; otherwise the root is stripped and
   * everything after it, `.html` suffix included, is kept verbatim.
   */
  function RelativePath(path: string): (r: Option<string>)
    ensures r.None? <==> !StartsWith(path, GalleriesRoot)
    ensures r.Some? ==> GalleriesRoot + r.value == path
  {
    if !StartsWith(path, GalleriesRoot) then None
    else
      var rest := path[|GalleriesRoot|..];
      assert GalleriesRoot + rest == path by {
        assert path == path[..|GalleriesRoot|] + rest;
      }
      Some(rest)
  }

  /** Every gallery path is the resolution of exactly one URL path. */
  lemma RelativePathRoundTrip(rel: string)
    ensures RelativePath(GalleriesRoot + rel) == Some(rel)
  {
    assert (GalleriesRoot + rel)[..|GalleriesRoot|] == GalleriesRoot;
  }

  lemma RelativePathInjective(p: string, q: string)
    requires RelativePath(p).Some? && RelativePath(p) == RelativePath(q)
    ensures p == q
  {
  }
}
