/**
 * The frontier crawler `fetch_all_html_recursive` and the link classifier
 * it applies to every extracted link.
 */
module Crawler {
  import opened Wrappers
  import opened Strings
  import opened Paths
  import opened Links

  /** Suffixes of links that are neither leaves nor directories. */
  const SkipExtensions: seq<string> := [".ico", ".js", ".css", ".png", ".jpg", ".gif", ".txt"]

  datatype LinkKind = Leaf | Asset | Directory

  /** `any(link.endswith(ext) for ext in exts)`. */
  predicate EndsWithAny(link: string, exts: seq<string>) {
    exts != [] && (EndsWith(link, exts[0]) || EndsWithAny(link, exts[1..]))
  }

  lemma {:induction false} EndsWithAnyExists(link: string, exts: seq<string>)
    ensures EndsWithAny(link, exts) <==> exists e :: e in exts && EndsWith(link, e)
  {
    if exts != [] {
      EndsWithAnyExists(link, exts[1..]);
      assert forall e :: e in exts <==> e == exts[0] || e in exts[1..];
    }
  }

  /**
   * A link ending in `.html` is a leaf; otherwise one ending in a skip
   * extension is an asset; anything else is taken to be a directory.
   */
  function Classify(link: string): (kind: LinkKind) {
    if EndsWith(link, ".html") then Leaf
    else if EndsWithAny(link, SkipExtensions) then Asset
    else Directory
  }

  /** The three kinds, each characterised by the suffixes of the link. */
  lemma ClassifyKinds(link: string)
    ensures Classify(link) == Leaf <==> EndsWith(link, ".html")
    ensures Classify(link) == Asset
        <==> !EndsWith(link, ".html") && exists e :: e in SkipExtensions && EndsWith(link, e)
    ensures Classify(link) == Directory
        <==> !EndsWith(link, ".html") && forall e :: e in SkipExtensions ==> !EndsWith(link, e)
  {
    EndsWithAnyExists(link, SkipExtensions);
  }

  /**
   * What the crawler does not interpret: `fetch_links(url)`, `None` when it
   * raises (request, status check or parse; `Links.PageLinks` is what it
   * returns otherwise), and the path component `urlparse` extracts from a URL.
   */
  datatype Oracles = Oracles(
    fetchLinks: string -> Option<seq<string>>,
    urlPath: string -> string)

  /** The `fetchLinks` oracle that fetches a page and filters its anchors as `fetch_links` does. */
  function LinkOracle(fetchPage: string -> Option<Page>, join: Join): (fetchLinks: string -> Option<seq<string>>) {
    url =>
      match fetchPage(url)
      case None => None
      case Some(page) => Some(PageLinks(url, page, join))
  }

  /** The seed: `start_url.rstrip("/") + "/"`. */
  function Seed(startUrl: string): (seed: string) {
    TrimTrailing(startUrl, '/') + "/"
  }

  /** The seed ends in exactly one slash. */
  lemma SeedOneSlash(startUrl: string)
    ensures EndsWith(Seed(startUrl), "/")
    ensures !EndsWith(Seed(startUrl)[..|Seed(startUrl)| - 1], "/")
  {
    var t := TrimTrailing(startUrl, '/');
    TrimTrailingSpec(startUrl, '/');
    assert Seed(startUrl)[..|t|] == t;
  }

  /** Slashes at the end of the start URL make no difference. */
  lemma SeedIgnoresSlash(startUrl: string)
    ensures Seed(startUrl + "/") == Seed(startUrl)
  {
    TrimTrailingAppend(startUrl, '/');
  }

  /** Seeding a seed gives it back. */
  lemma SeedIdempotent(startUrl: string)
    ensures Seed(Seed(startUrl)) == Seed(startUrl)
  {
    var t := TrimTrailing(startUrl, '/');
    SeedIgnoresSlash(t);
    TrimTrailingIdempotent(startUrl, '/');
  }

  /** What a leaf link adds to the results: its relative path, unless that is `None` or empty. */
  function LeafPath(link: string, o: Oracles): (rels: seq<string>) {
    match RelativePath(o.urlPath(link))
    case Some(rel) => if rel != "" then [rel] else []
    case None => []
  }

  /** The results the inner loop appends for `links`, in order. */
  function LinkResults(links: seq<string>, o: Oracles): (results: seq<string>) {
    if links == [] then []
    else
      var l := links[|links| - 1];
      LinkResults(links[..|links| - 1], o) + (if Classify(l) == Leaf then LeafPath(l, o) else [])
  }

  /** The URLs the inner loop pushes for `links`, in order. */
  function LinkSuccessors(links: seq<string>): (pushed: seq<string>) {
    if links == [] then []
    else
      var l := links[|links| - 1];
      LinkSuccessors(links[..|links| - 1]) + (if Classify(l) == Directory then [l] else [])
  }

  /** The inner loop pushes exactly the directory links: leaves and assets are never visited. */
  lemma {:induction false} LinkSuccessorsMembers(links: seq<string>, x: string)
    ensures x in LinkSuccessors(links) <==> x in links && Classify(x) == Directory
  {
    if links != [] {
      var init, l := links[..|links| - 1], links[|links| - 1];
      LinkSuccessorsMembers(init, x);
      assert LinkSuccessors(links) == LinkSuccessors(init) + (if Classify(l) == Directory then [l] else []);
      LastSplit(links);
    }
  }

  /** `r` is the relative path of one of the `.html` links in `links`. */
  predicate FromLeaf(links: seq<string>, o: Oracles, r: string) {
    exists l :: l in links && EndsWith(l, ".html") && o.urlPath(l) == GalleriesRoot + r
  }

  /** Every recorded result is the non-empty gallery path of a `.html` link. */
  lemma {:induction false} LinkResultsFromLeaves(links: seq<string>, o: Oracles, r: string)
    requires r in LinkResults(links, o)
    ensures r != "" && FromLeaf(links, o, r)
  {
    var init, l := links[..|links| - 1], links[|links| - 1];
    assert forall y :: y in init ==> y in links;
    if r in LinkResults(init, o) {
      LinkResultsFromLeaves(init, o, r);
    } else {
      assert Classify(l) == Leaf && LeafPath(l, o) == [r];
      assert l in links;
    }
  }

  /** Every `.html` link with a non-empty gallery path is recorded. */
  lemma {:induction false} LeafRecorded(links: seq<string>, o: Oracles, l: string)
    requires l in links && EndsWith(l, ".html")
    requires RelativePath(o.urlPath(l)).Some? && RelativePath(o.urlPath(l)).value != ""
    ensures RelativePath(o.urlPath(l)).value in LinkResults(links, o)
  {
    var init, last := links[..|links| - 1], links[|links| - 1];
    assert links == init + [last];
    if l != last {
      assert l in init;
      LeafRecorded(init, o, l);
    }
  }

  /** Results contributed by processing `url`: nothing when its fetch fails. */
  function PageResults(url: string, o: Oracles): (results: seq<string>) {
    match o.fetchLinks(url)
    case None => []
    case Some(links) => LinkResults(links, o)
  }

  /** URLs pushed when processing `url`: none when its fetch fails. */
  function Successors(url: string, o: Oracles): (pushed: seq<string>) {
    match o.fetchLinks(url)
    case None => []
    case Some(links) => LinkSuccessors(links)
  }

  /** The results accumulated by fetching the URLs `fetched`, in that order. */
  function ResultsOf(fetched: seq<string>, o: Oracles): (results: seq<string>) {
    if fetched == [] then []
    else ResultsOf(fetched[..|fetched| - 1], o) + PageResults(fetched[|fetched| - 1], o)
  }

  /** Every result of a crawl is the gallery path of a `.html` link found on a page it fetched. */
  lemma {:induction false} ResultsFromFetchedPages(fetched: seq<string>, o: Oracles, r: string)
    requires r in ResultsOf(fetched, o)
    ensures r != ""
    ensures exists u :: u in fetched && o.fetchLinks(u).Some? && FromLeaf(o.fetchLinks(u).value, o, r)
  {
    var init, u := fetched[..|fetched| - 1], fetched[|fetched| - 1];
    assert forall v :: v in init ==> v in fetched;
    if r in ResultsOf(init, o) {
      ResultsFromFetchedPages(init, o, r);
    } else {
      assert o.fetchLinks(u).Some?;
      LinkResultsFromLeaves(o.fetchLinks(u).value, o, r);
      assert u in fetched;
    }
  }

  /** One more fetch adds that page's results at the end. */
  lemma ResultsOfSnoc(s: seq<string>, u: string, o: Oracles)
    ensures ResultsOf(s + [u], o) == ResultsOf(s, o) + PageResults(u, o)
  {
    var t := s + [u];
    assert t[..|t| - 1] == s;
  }

  /** The results of two stretches of fetches are the results of each, in order. */
  lemma {:induction false} ResultsOfAppend(a: seq<string>, b: seq<string>, o: Oracles)
    ensures ResultsOf(a + b, o) == ResultsOf(a, o) + ResultsOf(b, o)
    decreases |b|
  {
    if b == [] {
      assert a + b == a;
    } else {
      var b', u := b[..|b| - 1], b[|b| - 1];
      var z := PageResults(u, o);
      assert a + b == (a + b') + [u] && b == b' + [u];
      ResultsOfSnoc(a + b', u, o);
      ResultsOfSnoc(b', u, o);
      ResultsOfAppend(a, b', o);
      AppendAssoc(ResultsOf(a, o), ResultsOf(b', o), z);
    }
  }

  /** The results of a crawl split around its `i`-th fetch. */
  lemma ResultsOfAt(fetched: seq<string>, o: Oracles, i: nat)
    requires i < |fetched|
    ensures ResultsOf(fetched, o)
      == ResultsOf(fetched[..i], o) + PageResults(fetched[i], o) + ResultsOf(fetched[i + 1..], o)
  {
    var a, u, c := fetched[..i], fetched[i], fetched[i + 1..];
    assert fetched == a + [u] + c;
    ResultsOfAppend(a + [u], c, o);
    ResultsOfAppend(a, [u], o);
    assert [u][..0] == [];
  }

  /** Every result of every fetched page is among the crawl's results. */
  lemma ResultsOfComplete(fetched: seq<string>, o: Oracles, i: nat, r: string)
    requires i < |fetched|
    ensures r in PageResults(fetched[i], o) ==> r in ResultsOf(fetched, o)
  {
    ResultsOfAt(fetched, o, i);
  }

  /**
   * The crawl's results are exactly the results of its fetched pages: a
   * failed fetch removes only that page's own contribution.
   */
  lemma ResultsOfMembers(fetched: seq<string>, o: Oracles, r: string)
    ensures r in ResultsOf(fetched, o) <==> exists u :: u in fetched && r in PageResults(u, o)
  {
    if r in ResultsOf(fetched, o) {
      ResultsFromFetchedPages(fetched, o, r);
      var u :| u in fetched && o.fetchLinks(u).Some? && FromLeaf(o.fetchLinks(u).value, o, r);
      var l :| l in o.fetchLinks(u).value && EndsWith(l, ".html") && o.urlPath(l) == GalleriesRoot + r;
      RelativePathRoundTrip(r);
      LeafRecorded(o.fetchLinks(u).value, o, l);
    }
    if exists u :: u in fetched && r in PageResults(u, o) {
      var u :| u in fetched && r in PageResults(u, o);
      var i :| 0 <= i < |fetched| && fetched[i] == u;
      ResultsOfComplete(fetched, o, i, r);
    }
  }

  /** When every discovered URL was fetched, every result of a discovered page is a result of the crawl. */
  lemma DiscoveredResultsKept(seed: string, fetched: seq<string>, o: Oracles)
    requires forall x :: x in Discovered(seed, fetched, o) ==> x in fetched
    ensures forall u, r :: u in Discovered(seed, fetched, o) && r in PageResults(u, o) ==> r in ResultsOf(fetched, o)
  {
    forall u, r | u in Discovered(seed, fetched, o) && r in PageResults(u, o)
      ensures r in ResultsOf(fetched, o)
    {
      ResultsOfMembers(fetched, o, r);
    }
  }

  /**
   * The assumption that makes the crawl finite: a set of URLs that holds
   * every directory link found on those of its pages the crawl may fetch,
   * that is, the pages not already in the caller's `visitedIn`.
   */
  ghost predicate ClosedUnder(universe: set<string>, visitedIn: set<string>, o: Oracles) {
    forall u, l :: u in universe && u !in visitedIn && l in Successors(u, o) ==> l in universe
  }

  /** One more link extends the results and the pushed URLs by what that link contributes. */
  lemma LinkStep(links: seq<string>, j: nat, o: Oracles)
    requires j < |links|
    ensures LinkResults(links[..j + 1], o)
         == LinkResults(links[..j], o) + (if Classify(links[j]) == Leaf then LeafPath(links[j], o) else [])
    ensures LinkSuccessors(links[..j + 1])
         == LinkSuccessors(links[..j]) + (if Classify(links[j]) == Directory then [links[j]] else [])
  {
    assert links[..j + 1][..j] == links[..j];
  }

  /**
   * The `for link in links` loop of the crawl: records the relative path of
   * every leaf link and pushes every directory link.
   */
  method ClassifyLinks(links: seq<string>, o: Oracles, resultsIn: seq<string>, stackIn: seq<string>)
    returns (results: seq<string>, urlsToVisit: seq<string>)
    ensures results == resultsIn + LinkResults(links, o)
    ensures urlsToVisit == stackIn + LinkSuccessors(links)
  {
    results, urlsToVisit := resultsIn, stackIn;
    for j := 0 to |links|
      invariant results == resultsIn + LinkResults(links[..j], o)
      invariant urlsToVisit == stackIn + LinkSuccessors(links[..j])
    {
      LinkStep(links, j, o);
      var link := links[j];
      if EndsWith(link, ".html") {
        var relPath := RelativePath(o.urlPath(link));
        if relPath.Some? && relPath.value != "" {
          AppendAssoc(resultsIn, LinkResults(links[..j], o), [relPath.value]);
          results := results + [relPath.value];
        }
      } else if !EndsWithAny(link, SkipExtensions) {
        AppendAssoc(stackIn, LinkSuccessors(links[..j]), [link]);
        urlsToVisit := urlsToVisit + [link];
      }
    }
    assert links[..|links|] == links;
  }

  /**
   * The seed together with every directory link found on the pages of
   * `fetched`: the URLs a crawl that fetched `fetched` has discovered.
   */
  function Discovered(seed: string, fetched: seq<string>, o: Oracles): (found: seq<string>) {
    if fetched == [] then [seed]
    else Discovered(seed, fetched[..|fetched| - 1], o) + Successors(fetched[|fetched| - 1], o)
  }

  lemma {:induction false} DiscoveredMembers(seed: string, fetched: seq<string>, o: Oracles, x: string)
    ensures x in Discovered(seed, fetched, o)
        <==> x == seed || exists u :: u in fetched && x in Successors(u, o)
  {
    if fetched != [] {
      var init, u := fetched[..|fetched| - 1], fetched[|fetched| - 1];
      DiscoveredMembers(seed, init, o, x);
      assert fetched == init + [u];
      assert forall v :: v in fetched <==> v in init || v == u;
    }
  }

  /**
   * The `try` block of the crawl for one URL: fetch its links and classify
   * them; a failed fetch changes nothing.
   */
  method ScanUrl(url: string, o: Oracles, resultsIn: seq<string>, stackIn: seq<string>)
    returns (results: seq<string>, urlsToVisit: seq<string>)
    ensures results == resultsIn + PageResults(url, o)
    ensures urlsToVisit == stackIn + Successors(url, o)
  {
    var fetchedLinks := o.fetchLinks(url);
    if fetchedLinks.None? {
      assert PageResults(url, o) == [] && Successors(url, o) == [];
      return resultsIn, stackIn;
    }
    results, urlsToVisit := ClassifyLinks(fetchedLinks.value, o, resultsIn, stackIn);
  }

  /** Marking an unvisited URL of the universe visited shrinks what is left to visit. */
  lemma CardinalityDrops(universe: set<string>, visited: set<string>, x: string)
    requires x in universe && x !in visited
    ensures |universe - (visited + {x})| < |universe - visited|
  {
    var rest := universe - (visited + {x});
    assert rest + {x} == universe - visited;
    assert x !in rest;
  }

  /** `visited` is `visitedIn` plus the URLs of `fetched`, each fetched once and none visited before. */
  ghost predicate VisitedByTrace(visitedIn: set<string>, visited: set<string>, fetched: seq<string>) {
    (forall u :: u in visited <==> u in visitedIn || u in fetched) &&
    (forall i, j :: 0 <= i < j < |fetched| ==> fetched[i] != fetched[j]) &&
    (forall u :: u in fetched ==> u !in visitedIn)
  }

  /** Every pending URL, and every fetched one at the time it was fetched, had been discovered. */
  ghost predicate DiscoveredFirst(seed: string, fetched: seq<string>, stack: seq<string>, o: Oracles) {
    (forall x :: x in stack ==> x in Discovered(seed, fetched, o)) &&
    (forall i :: 0 <= i < |fetched| ==> fetched[i] in Discovered(seed, fetched[..i], o))
  }

  /** Nothing discovered is lost: it is visited or still pending. */
  ghost predicate NothingLost(seed: string, fetched: seq<string>, visited: set<string>, stack: seq<string>, o: Oracles) {
    forall x :: x in Discovered(seed, fetched, o) ==> x in visited || x in stack
  }

  /** The loop invariant of the crawl. */
  ghost predicate CrawlInvariant(seed: string, visitedIn: set<string>, universe: set<string>, o: Oracles,
                                 visited: set<string>, fetched: seq<string>, stack: seq<string>, results: seq<string>) {
    VisitedByTrace(visitedIn, visited, fetched) &&
    (forall x :: x in stack ==> x in universe) &&
    DiscoveredFirst(seed, fetched, stack, o) &&
    NothingLost(seed, fetched, visited, stack, o) &&
    results == ResultsOf(fetched, o)
  }

  /** Popping a URL that is already visited keeps the invariant and changes nothing else. */
  lemma PopVisited(seed: string, visitedIn: set<string>, universe: set<string>, o: Oracles,
                   visited: set<string>, fetched: seq<string>, stack: seq<string>, results: seq<string>)
    requires stack != [] && stack[|stack| - 1] in visited
    requires CrawlInvariant(seed, visitedIn, universe, o, visited, fetched, stack, results)
    ensures CrawlInvariant(seed, visitedIn, universe, o, visited, fetched, stack[..|stack| - 1], results)
  {
    var n := |stack| - 1;
    forall x | x in stack
      ensures x in stack[..n] || x == stack[n]
    {
      var k :| 0 <= k < |stack| && stack[k] == x;
      if k < n {
        assert stack[..n][k] == x;
      }
    }
  }

  lemma VisitKeepsTrace(visitedIn: set<string>, visited: set<string>, fetched: seq<string>, u: string)
    requires VisitedByTrace(visitedIn, visited, fetched) && u !in visited
    ensures VisitedByTrace(visitedIn, visited + {u}, fetched + [u])
  {
  }

  lemma VisitKeepsDiscoveredFirst(seed: string, fetched: seq<string>, stack: seq<string>, o: Oracles,
                                  u: string, stack': seq<string>)
    requires DiscoveredFirst(seed, fetched, stack, o)
    requires stack != [] && u == stack[|stack| - 1]
    requires stack' == stack[..|stack| - 1] + Successors(u, o)
    ensures DiscoveredFirst(seed, fetched + [u], stack', o)
  {
    var fetched' := fetched + [u];
    assert fetched'[..|fetched'| - 1] == fetched;
    assert Discovered(seed, fetched', o) == Discovered(seed, fetched, o) + Successors(u, o);
    assert forall i :: 0 <= i < |fetched| ==> fetched'[..i] == fetched[..i];
    assert u in stack;
  }

  lemma VisitKeepsNothingLost(seed: string, fetched: seq<string>, visited: set<string>, stack: seq<string>,
                              o: Oracles, u: string, stack': seq<string>)
    requires NothingLost(seed, fetched, visited, stack, o)
    requires stack != [] && u == stack[|stack| - 1]
    requires stack' == stack[..|stack| - 1] + Successors(u, o)
    ensures NothingLost(seed, fetched + [u], visited + {u}, stack', o)
  {
    var fetched' := fetched + [u];
    var n := |stack| - 1;
    assert fetched'[..|fetched'| - 1] == fetched;
    assert Discovered(seed, fetched', o) == Discovered(seed, fetched, o) + Successors(u, o);
    forall x | x in stack
      ensures x == u || x in stack'
    {
      var k :| 0 <= k < |stack| && stack[k] == x;
      if k < n {
        assert stack'[k] == x;
      }
    }
  }

  lemma VisitKeepsUniverse(universe: set<string>, visitedIn: set<string>, o: Oracles,
                           stack: seq<string>, u: string, stack': seq<string>)
    requires ClosedUnder(universe, visitedIn, o)
    requires forall x :: x in stack ==> x in universe
    requires stack != [] && u == stack[|stack| - 1] && u !in visitedIn
    requires stack' == stack[..|stack| - 1] + Successors(u, o)
    ensures forall x :: x in stack' ==> x in universe
  {
    assert u in universe;
  }

  /**
   * Fetching the unvisited URL on top of the stack keeps the invariant and
   * leaves fewer URLs of the universe unvisited.
   */
  lemma VisitUnvisited(seed: string, visitedIn: set<string>, universe: set<string>, o: Oracles,
                       visited: set<string>, fetched: seq<string>, stack: seq<string>, results: seq<string>, u: string)
    requires ClosedUnder(universe, visitedIn, o)
    requires stack != [] && u == stack[|stack| - 1] && u !in visited
    requires CrawlInvariant(seed, visitedIn, universe, o, visited, fetched, stack, results)
    ensures CrawlInvariant(seed, visitedIn, universe, o, visited + {u}, fetched + [u],
                           stack[..|stack| - 1] + Successors(u, o), results + PageResults(u, o))
    ensures |universe - (visited + {u})| < |universe - visited|
  {
    var stack' := stack[..|stack| - 1] + Successors(u, o);
    assert u in universe;
    CardinalityDrops(universe, visited, u);
    VisitKeepsTrace(visitedIn, visited, fetched, u);
    assert u !in visitedIn;
    VisitKeepsUniverse(universe, visitedIn, o, stack, u, stack');
    VisitKeepsDiscoveredFirst(seed, fetched, stack, o, u, stack');
    VisitKeepsNothingLost(seed, fetched, visited, stack, o, u, stack');
    assert (fetched + [u])[..|fetched|] == fetched;
  }

  /** With the stack empty, the invariant is the crawl's promise. */
  lemma CrawlDone(seed: string, visitedIn: set<string>, universe: set<string>, o: Oracles,
                  visited: set<string>, fetched: seq<string>, results: seq<string>)
    requires CrawlInvariant(seed, visitedIn, universe, o, visited, fetched, [], results)
    ensures forall u :: u in visited <==> u in visitedIn || u in fetched
    ensures forall i, j :: 0 <= i < j < |fetched| ==> fetched[i] != fetched[j]
    ensures forall u :: u in fetched ==> u !in visitedIn
    ensures forall i :: 0 <= i < |fetched| ==> fetched[i] in Discovered(seed, fetched[..i], o)
    ensures forall x :: x in Discovered(seed, fetched, o) ==> x in visited
    ensures results == ResultsOf(fetched, o)
  {
  }

  /** A crawl fetches nothing when its seed was visited by the caller. */
  lemma NothingFetched(seed: string, visitedIn: set<string>, fetched: seq<string>, o: Oracles)
    requires seed in visitedIn
    requires forall u :: u in fetched ==> u !in visitedIn
    requires forall i :: 0 <= i < |fetched| ==> fetched[i] in Discovered(seed, fetched[..i], o)
    ensures fetched == []
  {
    FirstFetch(seed, fetched, o);
  }

  /** The first URL a crawl fetches, when it fetches one, is its seed. */
  lemma FirstFetch(seed: string, fetched: seq<string>, o: Oracles)
    ensures fetched != [] && fetched[0] in Discovered(seed, fetched[..0], o) ==> fetched[0] == seed
  {
    if fetched != [] {
      assert fetched[..0] == [];
    }
  }

  /**
   * The crawl. `visitedIn` is the set passed by the caller; the set after
   * the crawl is returned as `visited`. The ghost `fetched` lists, in order,
   * the URLs that were marked visited and fetched.
   */
  method FetchAllHtmlRecursive(startUrl: string, visitedIn: set<string>, o: Oracles, ghost universe: set<string>)
    returns (results: seq<string>, visited: set<string>, ghost fetched: seq<string>)
    requires Seed(startUrl) in universe
    requires ClosedUnder(universe, visitedIn, o)
    // visited only grows, and grows by exactly the fetched URLs
    ensures forall u :: u in visited <==> u in visitedIn || u in fetched
    // no URL is fetched twice, nor one that was visited before the crawl
    ensures forall i, j :: 0 <= i < j < |fetched| ==> fetched[i] != fetched[j]
    ensures forall u :: u in fetched ==> u !in visitedIn
    // each fetched URL had been discovered by the fetches before it
    ensures forall i :: 0 <= i < |fetched| ==> fetched[i] in Discovered(Seed(startUrl), fetched[..i], o)
    // the crawl is complete: everything discovered is visited
    ensures forall x :: x in Discovered(Seed(startUrl), fetched, o) ==> x in visited
    // the results are exactly those of the fetched pages, in fetch order
    ensures results == ResultsOf(fetched, o)
  {
    ghost var seed := Seed(startUrl);
    results := [];
    visited := visitedIn;
    fetched := [];
    var urlsToVisit := [TrimTrailing(startUrl, '/') + "/"];

    while urlsToVisit != []
      invariant CrawlInvariant(seed, visitedIn, universe, o, visited, fetched, urlsToVisit, results)
      decreases |universe - visited|, |urlsToVisit|
    {
      var currentUrl := urlsToVisit[|urlsToVisit| - 1];
      if currentUrl in visited {
        PopVisited(seed, visitedIn, universe, o, visited, fetched, urlsToVisit, results);
        urlsToVisit := urlsToVisit[..|urlsToVisit| - 1];
        continue;
      }
      VisitUnvisited(seed, visitedIn, universe, o, visited, fetched, urlsToVisit, results, currentUrl);
      urlsToVisit := urlsToVisit[..|urlsToVisit| - 1];
      visited := visited + {currentUrl};
      fetched := fetched + [currentUrl];
      results, urlsToVisit := ScanUrl(currentUrl, o, results, urlsToVisit);
    }
    CrawlDone(seed, visitedIn, universe, o, visited, fetched, results);
  }
}
