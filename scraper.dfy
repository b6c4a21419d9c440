/**
 * `main`: crawl the galleries, write the sorted, deduplicated gallery paths
 * to `files.txt`, then build the folder structure from that file. The text
 * of `files.txt` is the list of chunks written to it; reading it back, the
 * loop sees one line per chunk.
 */
module Scraper {
  import opened Wrappers
  import opened Strings
  import opened Tokens
  import opened Links
  import opened Crawler
  import opened Manifest
  import opened Folders

  /** No gallery path ends in whitespace, which `line.strip()` would remove on reading back. */
  predicate TidyPaths(rels: seq<string>) {
    forall r :: r in rels ==> r != [] && !IsSpace(r[|r| - 1])
  }

  /** Every result of a crawl is a non-empty gallery path. */
  lemma ResultsNonEmpty(fetched: seq<string>, o: Oracles)
    ensures forall r :: r in ResultsOf(fetched, o) ==> r != ""
  {
    forall r | r in ResultsOf(fetched, o)
      ensures r != ""
    {
      ResultsFromFetchedPages(fetched, o, r);
    }
  }

  /**
   * What the crawl sees of the site: `fetch_links` on the pages `fetchPage`
   * returns (a failed request or parse is `None`), and the URL path
   * component `urlPath`.
   */
  function SiteOracles(fetchPage: string -> Option<Page>, join: Join, urlPath: string -> string): (o: Oracles) {
    Oracles(LinkOracle(fetchPage, join), urlPath)
  }

  /**
   * The whole run. `fetchPage`, `join` and `urlPath` stand for the crawl's
   * HTTP requests with HTML parsing, `urljoin` and `urlparse`; `fetch` for
   * the page requests of `extract_direct_links`. The ghost `fetched` lists
   * the directory pages the crawl fetched, in order.
   */
  method Run(fetchPage: string -> Option<Page>, join: Join, urlPath: string -> string,
             fetch: string -> Option<seq<Image>>, ghost universe: set<string>)
    returns (manifest: seq<string>, chunks: seq<string>, processed: nat, total: nat,
             created: seq<string>, catalogs: map<string, seq<string>>, ghost fetched: seq<string>)
    requires Seed(GalleriesUrl) in universe
    requires ClosedUnder(universe, {}, SiteOracles(fetchPage, join, urlPath))
    // the crawl fetched every directory page it discovered, each once
    ensures forall x :: x in Discovered(Seed(GalleriesUrl), fetched, SiteOracles(fetchPage, join, urlPath)) ==> x in fetched
    ensures forall i, j :: 0 <= i < j < |fetched| ==> fetched[i] != fetched[j]
    // the manifest: sorted, no duplicates, exactly the gallery paths found, none empty
    ensures StrictlySorted(manifest)
    ensures forall r :: r in manifest <==> r in ResultsOf(fetched, SiteOracles(fetchPage, join, urlPath))
    ensures forall r :: r in manifest ==> r != ""
    // every gallery page linked from a reachable directory page that could be fetched is listed
    ensures forall u, r ::
              (u in Discovered(Seed(GalleriesUrl), fetched, SiteOracles(fetchPage, join, urlPath))
               && r in PageResults(u, SiteOracles(fetchPage, join, urlPath))) ==> r in manifest
    // files.txt: one line per manifest entry, its full URL
    ensures |chunks| == |manifest|
    ensures forall i :: 0 <= i < |chunks| ==> chunks[i] == FileUrl(manifest[i]) + "\n"
    // the folder structure is built from the lines of files.txt
    ensures processed == |Urls(chunks)| && created == Folders.Folders(Urls(chunks))
    ensures catalogs == Catalogs(Urls(chunks), fetch) && total == Total(Urls(chunks), fetch)
    // and those lines are the manifest's URLs, in order
    ensures TidyPaths(manifest) ==> Urls(chunks) == ManifestUrls(manifest)
  {
    var o := SiteOracles(fetchPage, join, urlPath);
    var results, visited;
    results, visited, fetched := FetchAllHtmlRecursive(GalleriesUrl, {}, o, universe);
    manifest := SortedSet(results);
    SortedSetSpec(results);
    ResultsNonEmpty(fetched, o);
    DiscoveredResultsKept(Seed(GalleriesUrl), fetched, o);
    chunks := WriteManifest(results);
    ManifestUrlsAt(manifest);
    if TidyPaths(manifest) {
      ReadBack(manifest, chunks);
    }
    processed, total, created, catalogs := CreateFolderStructure(chunks, fetch);
  }
}
