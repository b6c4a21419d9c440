/**
 * A small site, crawled end to end: the root lists the page `a/index.html`
 * and the directories `b/` and `d/`; `b/` lists the page `b/c.html`; the
 * fetch of `d/` fails. The crawl still records both pages.
 */
module Scenarios {
  import opened Wrappers
  import opened Strings
  import opened Paths
  import opened Links
  import opened Crawler
  import opened Manifest

  const Root: string := GalleriesUrl
  const PageA: string := Root + "a/index" + ".html"
  const DirB: string := Root + "b/"
  const PageC: string := DirB + "c" + ".html"
  const DirD: string := Root + "d/"

  /** The path component of a URL on the site. */
  function SitePath(u: string): (path: string) {
    if StartsWith(u, Site) then u[|Site|..] else ""
  }

  /** What `fetch_links` returns for each URL of the site; `None` for `d/` and anything else. */
  function ListedLinks(u: string): (links: Option<seq<string>>) {
    if u == Root then Some([PageA, DirB, DirD])
    else if u == DirB then Some([PageC])
    else None
  }

  const Site0: Oracles := Oracles(ListedLinks, SitePath)

  lemma SitePathOf(x: string)
    ensures SitePath(Site + x) == x
  {
    assert (Site + x)[..|Site|] == Site;
  }

  lemma HtmlLeaf(s: string)
    ensures Classify(s + ".html") == Leaf
  {
    assert (s + ".html")[|s|..] == ".html";
  }

  /** A suffix ends in the last character of the string. */
  lemma LastOfSuffix(s: string, e: string)
    ensures e != [] && EndsWith(s, e) ==> s[|s| - 1] == e[|e| - 1]
  {
    if e != [] && EndsWith(s, e) {
      assert s[|s| - |e|..][|e| - 1] == s[|s| - 1];
    }
  }

  /** No extension of `exts` ends in the last character of `s`. */
  lemma {:induction false} NoExtensionFits(s: string, exts: seq<string>)
    requires s != []
    requires forall i :: 0 <= i < |exts| ==> exts[i] != [] && exts[i][|exts[i]| - 1] != s[|s| - 1]
    ensures !EndsWithAny(s, exts)
  {
    if exts != [] {
      LastOfSuffix(s, exts[0]);
      NoExtensionFits(s, exts[1..]);
    }
  }

  /** A link ending in `/` is neither a page nor an asset. */
  lemma SlashDirectory(s: string)
    requires s != [] && s[|s| - 1] == '/'
    ensures Classify(s) == Directory
  {
    LastOfSuffix(s, ".html");
    NoExtensionFits(s, SkipExtensions);
  }

  lemma Shapes()
    ensures |Root| == 26
    ensures Classify(PageA) == Leaf && Classify(PageC) == Leaf
    ensures Classify(DirB) == Directory && Classify(DirD) == Directory
    ensures !EndsWith(DirB, ".html") && !EndsWith(DirD, ".html")
    ensures Root != DirB && Root != DirD && DirB != DirD
  {
    HtmlLeaf(Root + "a/index");
    HtmlLeaf(DirB + "c");
    assert DirB[|DirB| - 1] == '/' && DirD[|DirD| - 1] == '/';
    SlashDirectory(DirB);
    SlashDirectory(DirD);
    assert DirB[|Root|] == 'b' && DirD[|Root|] == 'd';
  }

  /** The start URL already is its own seed. */
  lemma SeedOfRoot()
    ensures Seed(Root) == Root
  {
    var x := Site + "/galleries";
    assert Root == x + "/";
    SeedIgnoresSlash(x);
    assert TrailingCount(x, '/') == 0;
    assert x[..|x|] == x;
  }

  /** The site paths of the two pages. */
  lemma PagePaths()
    ensures SitePath(PageA) == GalleriesRoot + "a/index.html"
    ensures SitePath(PageC) == GalleriesRoot + "b/c.html"
  {
    assert PageA == Site + (GalleriesRoot + "a/index.html");
    assert PageC == Site + (GalleriesRoot + "b/c.html");
    SitePathOf(GalleriesRoot + "a/index.html");
    SitePathOf(GalleriesRoot + "b/c.html");
  }

  /** A result recorded for a `.html` link `l` with path `/galleries/` + `rel` is `rel`. */
  lemma OnlyResult(links: seq<string>, l: string, rel: string, r: string)
    requires forall x :: x in links && EndsWith(x, ".html") ==> x == l
    requires SitePath(l) == GalleriesRoot + rel
    ensures r in LinkResults(links, Site0) ==> r == rel
  {
    if r in LinkResults(links, Site0) {
      LinkResultsFromLeaves(links, Site0, r);
      assert (GalleriesRoot + r)[|GalleriesRoot|..] == r;
      assert (GalleriesRoot + rel)[|GalleriesRoot|..] == rel;
    }
  }

  /** The root's only result is `a/index.html`. */
  lemma RootResults(r: string)
    ensures r in PageResults(Root, Site0) <==> r == "a/index.html"
  {
    Shapes();
    PagePaths();
    var links := [PageA, DirB, DirD];
    OnlyResult(links, PageA, "a/index.html", r);
    RelativePathRoundTrip("a/index.html");
    LeafRecorded(links, Site0, PageA);
  }

  /** The only result of `b/` is `b/c.html`. */
  lemma DirBResults(r: string)
    ensures r in PageResults(DirB, Site0) <==> r == "b/c.html"
  {
    Shapes();
    PagePaths();
    var links := [PageC];
    OnlyResult(links, PageC, "b/c.html", r);
    RelativePathRoundTrip("b/c.html");
    LeafRecorded(links, Site0, PageC);
  }

  /** Only the root and `b/` have results: `a/index.html` and `b/c.html`. */
  lemma PageResultsOf(u: string, r: string)
    ensures r in PageResults(u, Site0)
        <==> (u == Root && r == "a/index.html") || (u == DirB && r == "b/c.html")
  {
    Shapes();
    RootResults(r);
    DirBResults(r);
  }

  /** The directories ever pushed are `b/` and `d/`, both from the root. */
  lemma SuccessorsOf(u: string, x: string)
    ensures x in Successors(u, Site0) <==> u == Root && (x == DirB || x == DirD)
  {
    Shapes();
    if u == Root {
      LinkSuccessorsMembers([PageA, DirB, DirD], x);
    } else if u == DirB {
      LinkSuccessorsMembers([PageC], x);
    }
  }

  lemma Closed()
    ensures ClosedUnder({Root, DirB, DirD}, {}, Site0)
  {
    forall u, l | u in {Root, DirB, DirD} && l in Successors(u, Site0)
      ensures l in {Root, DirB, DirD}
    {
      SuccessorsOf(u, l);
    }
  }

  /** Any crawl that fetched the root and `b/` found exactly the two pages. */
  lemma CrawlResults(fetched: seq<string>, r: string)
    requires Root in fetched && DirB in fetched
    ensures r in ResultsOf(fetched, Site0) <==> r == "a/index.html" || r == "b/c.html"
  {
    ResultsOfMembers(fetched, Site0, r);
    PageResultsOf(Root, r);
    PageResultsOf(DirB, r);
    if r in ResultsOf(fetched, Site0) {
      var u :| u in fetched && r in PageResults(u, Site0);
      PageResultsOf(u, r);
    }
  }

  /** The manifest of the two pages, in order. */
  lemma TwoPageManifest(results: seq<string>)
    requires forall r :: r in results <==> r == "a/index.html" || r == "b/c.html"
    ensures SortedSet(results) == ["a/index.html", "b/c.html"]
  {
    var expected := ["a/index.html", "b/c.html"];
    assert Less(expected[0], expected[1]);
    SortedSetSpec(results);
    SortedUnique(SortedSet(results), expected);
  }

  /**
   * The crawl of the site from its root, and the manifest it gives: the
   * failed fetch of `d/` costs nothing found on the other branches.
   */
  method CrawlSite() returns (manifest: seq<string>)
    ensures manifest == ["a/index.html", "b/c.html"]
  {
    SeedOfRoot();
    Closed();
    var results, visited, fetched := FetchAllHtmlRecursive(Root, {}, Site0, {Root, DirB, DirD});
    DiscoveredMembers(Root, fetched, Site0, Root);
    assert Root in fetched;
    SuccessorsOf(Root, DirB);
    DiscoveredMembers(Root, fetched, Site0, DirB);
    assert DirB in fetched;
    forall r
      ensures r in results <==> r == "a/index.html" || r == "b/c.html"
    {
      CrawlResults(fetched, r);
    }
    manifest := SortedSet(results);
    TwoPageManifest(results);
  }

  /**
   * The root already visited by the caller: the crawl skips it and stops,
   * and the universe need not hold the `b/` and `d/` the root links to.
   */
  method CrawlVisitedRoot() returns (results: seq<string>, visited: set<string>)
    ensures results == [] && visited == {Root}
  {
    SeedOfRoot();
    ghost var fetched;
    results, visited, fetched := FetchAllHtmlRecursive(Root, {Root}, Site0, {Root});
    NothingFetched(Root, {Root}, fetched, Site0);
  }
}
