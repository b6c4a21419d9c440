# baka.ms gallery scraper — a Dafny model

This project models `main.py`, a scraper for the gallery site `https://baka.ms/galleries/`. It covers these parts of the program:

- **Crawl.** A LIFO worklist of directory URLs, seeded with the galleries root. Each URL is visited once. The crawl fetches the links of every directory page, records the gallery path of every `.html` link whose URL path starts with `/galleries/` and goes on past it, and pushes every other link that is not an asset. An `.html` link outside `/galleries/`, or whose path is exactly `/galleries/`, is dropped. A page whose fetch fails contributes nothing.
- **Link filtering.** `fetch_links` has two passes. The primary pass is over table-row anchors. The fallback pass is over all anchors and runs only when the primary pass found nothing.
- **Path resolution.** `relative_path` strips `/galleries/` from a URL path.
- **Manifest.** `sorted(set(results))` gives the manifest. It is written to `files.txt`, one full URL per line.
- **Folder structure.** `create_folder_structure` reads `files.txt` back. It makes one directory per non-blank line, named with two `str.replace` calls, and writes a `links.txt` for every gallery page that could be fetched. A page whose fetch fails gets its directory but no `links.txt`.
- **Direct links.** These are built by the token transform of `extract_direct_links`: the prefix `https://photos.baka.ms/photoservice/uwu/pull/`, then the reversed `data-idimg` token, then `?`, then the token.

Network, HTML parsing and URL parsing are parameters. `Crawler.Oracles` holds what `fetch_links` returns for a URL (or `None` when it raises) and the path component `urlparse` extracts. `Links.Join` stands for `urljoin`. A fetched page is given as its anchors (`Links.Page`) or its images (`Tokens.Image`). The file system is modelled as values:
- the text written to `files.txt`, as a list of chunks;
- the list of directories made;
- a map from directory to the lines of its `links.txt`.

Modules:

| file | module | models |
|---|---|---|
| `wrappers.dfy` | `Wrappers` | `Option` |
| `strings.dfy` | `Strings` | the Python string operations the program uses: `startswith`, `endswith`, `in`, `[::-1]`, `strip()`, `rstrip("/")`, `replace(p, "")` and `<` |
| `paths.dfy` | `Paths` | `relative_path` |
| `tokens.dfy` | `Tokens` | the token transform and the image loop of `extract_direct_links` |
| `links.dfy` | `Links` | the two anchor passes of `fetch_links` |
| `crawler.dfy` | `Crawler` | the link classifier and `fetch_all_html_recursive` |
| `manifest.dfy` | `Manifest` | `sorted(set(results))` and the write loop of `main` |
| `folders.dfy` | `Folders` | `create_folder_structure` |
| `scraper.dfy` | `Scraper` | `main`, end to end |
| `scenarios.dfy` | `Scenarios` | a three-directory sample site crawled end to end, one branch failing |

Behaviour of the code that the model keeps, though it may be unexpected:
- **Primary anchor pass.** It drops an anchor only when the stripped text is one of the four excluded labels. Blank text is kept.
- **Fallback anchor pass.** It drops blank text and text containing `..`. No other blacklist is applied, and none is applied to URLs.
- **Worklist.** It is a stack: `pop()` takes the last URL pushed.
- **Links outside `/galleries/`.** A directory link outside `/galleries/` is still pushed. Only `.html` links are passed through `relative_path`.
- **Directory names.** The directory of a gallery path is computed with `str.replace`. It removes every occurrence of the galleries URL and every occurrence of `.html`, not just a prefix and a suffix. So `x.html/y.html` and `x/y.html` get the same directory, and the later page's `links.txt` replaces the earlier one (`Folders.FolderCollision`, `Folders.LastWriteWins`).
- **Reported counts.** The model keeps the counts the program computes for its final summary. These are the number of processed lines and the total number of direct links (main.py:177-178), and each gallery page's link count that `extract_direct_links` returns. Overwritten `links.txt` files are still counted in the total. Three printed numbers are left out with the rest of the printing: the number of URLs saved to `files.txt` (main.py:196, the manifest's length), the number of links found on each directory page (main.py:70) and the `Photos found` count of each gallery page (main.py:132).

## Model

| member | source | states |
|---|---|---|
| Paths.RelativePath | main.py:93-98 | `None` exactly when the path does not start with `/galleries/`; otherwise `/galleries/` followed by the result is the path |
| Paths.RelativePathRoundTrip | main.py:93-98 | every gallery path is resolved from `/galleries/` + itself |
| Paths.RelativePathInjective | main.py:93-98 | two accepted paths with the same gallery path are equal |
| Strings.Reverse | main.py:116 | reversal keeps the length |
| Strings.ReverseAt | main.py:116 | character `i` of the reversal is character `len-1-i` of the input |
| Strings.ReverseReverse | main.py:116 | reversing twice gives the token back |
| Strings.ReverseInjective | main.py:116 | different tokens have different reversals |
| Tokens.RecoverDirectLink | main.py:116-118 | the token can be read back out of its direct link (path and query agree) |
| Tokens.RecoverTokenSound | main.py:116-118 | any link the decoder accepts is exactly the direct link of the token it returns |
| Tokens.DirectLinkInjective | main.py:116-118 | equal direct links if and only if equal tokens |
| Tokens.DirectLink | main.py:116-118 | the token transform: photo-service prefix, reversed token, `?`, token; `RecoverDirectLink` and `RecoverTokenSound` show it is inverted exactly by `RecoverToken`, and `DirectLinkInjective` that it is one-to-one |
| Tokens.Tokens | main.py:111-119 | at most one token per image; `KeptImage` and `SkippedImage` state what each image contributes in place, and `TokensMembers` which tokens occur |
| Tokens.KeptImage | main.py:112-119 | an image with a non-empty `data-idimg` contributes exactly that token, at its own position among the others |
| Tokens.TokensMembers | main.py:111-119 | a token is scanned if and only if it is non-empty and some image carries it as its `data-idimg` |
| Tokens.TokenOf | main.py:113-114 | the token one image contributes: its `data-idimg` when present and non-empty, otherwise nothing; `KeptImage` and `SkippedImage` state it in place |
| Tokens.DirectLinks | main.py:111-119 | the `direct_links` list: one direct link per scanned token, in image order; `CatalogDecodes` reads each line back to its token |
| Tokens.TokensNonEmpty | main.py:113-114 | no empty token is ever turned into a link |
| Tokens.TokensAppend | main.py:111-119 | the scan keeps image order: tokens of a concatenation are the concatenation of tokens |
| Tokens.SkippedImage | main.py:113-119 | an image with a missing or empty `data-idimg` contributes nothing, wherever it is |
| Tokens.CatalogDecodes | main.py:112-119 | line `i` of a catalog decodes to token `i` of the page |
| Tokens.TwoImagePage | main.py:112-119 | tokens `abc` and `xy` give `.../cba?abc` then `.../yx?xy` |
| Tokens.ExtractDirectLinks | main.py:101-137 | a failed fetch writes nothing and returns 0; otherwise the lines written are the direct links of the page's tokens, in order, and their number is returned |
| Strings.ContainsOccurs | main.py:42 | `p in s` holds exactly when `p` occurs at some index of `s` |
| Strings.Contains | main.py:42 | Python's `p in s`; `ContainsOccurs` characterises it by an occurrence index |
| Strings.StartsWith | main.py:96 | `s.startswith(p)`: `s` begins with `p` |
| Strings.EndsWith | main.py:75 | `s.endswith(p)`: `s` ends with `p` |
| Strings.IsSpace | main.py:33 | the characters Python's `isspace()` accepts, which `strip()` removes (also at main.py:155); `StripSpec` uses it |
| Strings.LeadingSpaces | main.py:33 | the count of leading whitespace does not exceed the length |
| Strings.LeadingSpacesRun | main.py:33 | the counted leading characters are whitespace and the next one is not |
| Strings.TrailingSpaces | main.py:33 | the count of trailing whitespace does not exceed the length |
| Strings.TrailingSpacesRun | main.py:33 | the counted trailing characters are whitespace and the one before them is not |
| Strings.StripSpec | main.py:155-156 | `strip()` is empty exactly for all-whitespace text, and otherwise neither starts nor ends with whitespace |
| Strings.Strip | main.py:155 | `strip()`: leading and trailing Python whitespace removed; `StripSpec` states what is left |
| Links.DirectoryUrl | main.py:35 | the join base ends in `/` and is the URL followed by at most one `/`; no `/` is added when the URL already ends in one |
| Links.KeepRowAnchor | main.py:33 | the primary filter: the stripped text is not one of `..`, `.DS_Store`, `favicon.ico`, `v-proxy.js` |
| Links.KeepAnyAnchor | main.py:42 | the fallback filter: the stripped text is non-blank and the raw text has no `..` |
| Links.Resolve | main.py:44-47 | a root-relative href is put after `https://baka.ms`; any other is `urljoin`ed with the page URL |
| Links.RowLinks | main.py:31-37 | the primary pass; `RowLinksMembers` and `RowLinksEmpty` characterise it |
| Links.AnyLinks | main.py:40-47 | the fallback pass; `AnyLinksMembers` characterises it |
| Links.PageLinks | main.py:31-49 | primary pass, else fallback; `PageLinksStrategy` states which pass decides, and `FetchLinks` is proved equal to it |
| Links.Collect | main.py:31-47 | one anchor pass: the link of every accepted anchor, in document order; `CollectSound`, `CollectComplete`, `CollectMembers` and `CollectEmpty` characterise it |
| Links.CollectSound | main.py:31-47 | every link a pass appends comes from an anchor it accepts |
| Links.CollectComplete | main.py:31-47 | every accepted anchor's link is appended |
| Links.CollectMembers | main.py:31-47 | a link is appended exactly when some accepted anchor yields it |
| Links.CollectEmpty | main.py:31-47 | a pass appends nothing exactly when it accepts no anchor |
| Links.RowLinksMembers | main.py:31-37 | the primary pass yields `l` if and only if some row anchor whose stripped text is not excluded has an href that joins to `l` |
| Links.RowLinksEmpty | main.py:31-40 | the primary pass is empty if and only if every row anchor is excluded |
| Links.AnyLinksMembers | main.py:40-47 | the fallback yields `l` if and only if some non-blank anchor without `..` resolves to `l` (`https://baka.ms` + href for a root-relative href) |
| Links.PageLinksStrategy | main.py:39-47 | the primary result is returned when some row anchor survives; the fallback decides only when none does |
| Links.FetchLinks | main.py:22-49 | the two loops return exactly the links of the two-pass strategy |
| Crawler.EndsWithAny | main.py:80-83 | the `any(link.endswith(ext) ...)` test; `EndsWithAnyExists` characterises it |
| Crawler.EndsWithAnyExists | main.py:80-83 | the `any(...)` test holds exactly when the link ends in one of the extensions |
| Crawler.ClassifyKinds | main.py:75-85 | leaf if and only if it ends in `.html`; asset if and only if not `.html` and ending in a skip extension; directory if and only if neither |
| Crawler.Classify | main.py:75-85 | leaf, asset or directory, tested in that order; `ClassifyKinds` characterises each kind by suffixes |
| Crawler.LinkOracle | main.py:22-49 | `fetch_links` over a page fetch: `None` when the request or parse fails (the `except` at main.py:87-88), otherwise the two-pass links; `Scraper.Run` crawls with it (a raising `urljoin` is not modelled, see below) |
| Strings.TrimTrailingSpec | main.py:58 | `rstrip("/")` removes only slashes and leaves no slash at the end |
| Strings.TrimTrailingAppend | main.py:58 | one more trailing slash makes no difference to `rstrip("/")` |
| Strings.TrimTrailingIdempotent | main.py:58 | `rstrip("/")` twice is `rstrip("/")` once |
| Strings.TrimTrailing | main.py:58 | `rstrip(c)`; `TrimTrailingSpec`, `TrimTrailingAppend` and `TrimTrailingIdempotent` characterise it |
| Crawler.Seed | main.py:58 | `start_url.rstrip("/") + "/"`; `SeedOneSlash`, `SeedIgnoresSlash` and `SeedIdempotent` state its shape |
| Crawler.SeedOneSlash | main.py:58 | the only URL of the initial worklist ends in exactly one `/` |
| Crawler.SeedIgnoresSlash | main.py:58 | trailing slashes on the start URL do not change the seed |
| Crawler.SeedIdempotent | main.py:58 | normalising a seed again gives it back |
| Crawler.LinkSuccessorsMembers | main.py:72-85 | a link is pushed if and only if it is on the page and classified as a directory: `.html` links and assets never are |
| Crawler.LeafPath | main.py:76-78 | what one `.html` link records: its gallery path when `relative_path` accepts it and the path is non-empty, otherwise nothing |
| Crawler.LinkResults | main.py:72-85 | the results the link loop appends; `LinkResultsFromLeaves`, `LeafRecorded` and `ClassifyLinks` characterise it |
| Crawler.LinkSuccessors | main.py:72-85 | the URLs the link loop pushes; `LinkSuccessorsMembers` and `ClassifyLinks` characterise it |
| Crawler.LinkResultsFromLeaves | main.py:72-78 | every recorded result is non-empty and is the gallery path of some `.html` link of the page |
| Crawler.LeafRecorded | main.py:75-78 | every `.html` link with a non-empty gallery path is recorded |
| Crawler.LinkStep | main.py:72-85 | one more link adds exactly its own contribution to results and worklist |
| Crawler.ClassifyLinks | main.py:72-85 | the link loop appends the page's leaf results and pushes its directory links, in order |
| Crawler.PageResults | main.py:68-88 | the results one visit adds: none when `fetch_links` raises, otherwise those of its links; `ScanUrl` is proved against it |
| Crawler.Successors | main.py:68-88 | the URLs one visit pushes: none when `fetch_links` raises, otherwise the page's directory links; `ScanUrl` is proved against it |
| Crawler.Discovered | main.py:60-85 | the seed and every URL pushed by the fetched pages; `DiscoveredMembers` characterises it |
| Crawler.DiscoveredMembers | main.py:60-85 | a URL is discovered if and only if it is the seed or a directory link on a fetched page |
| Crawler.ScanUrl | main.py:68-88 | a fetched page adds its results and directory links; a failed fetch adds nothing |
| Crawler.CardinalityDrops | main.py:62-65 | marking an unvisited URL visited shrinks the unvisited part of the universe (the termination measure) |
| Crawler.PopVisited | main.py:61-63 | popping an already visited URL keeps the invariant with nothing else changed: no fetch, no result |
| Crawler.VisitKeepsTrace | main.py:65 | marking a URL visited before fetching it keeps visited = initial ∪ fetched, fetched without repeats |
| Crawler.VisitKeepsDiscoveredFirst | main.py:61-85 | each fetched and each pending URL had been discovered first |
| Crawler.VisitKeepsNothingLost | main.py:61-85 | every discovered URL stays visited or pending after a visit |
| Crawler.VisitKeepsUniverse | main.py:80-85 | the URLs a newly fetched page pushes stay inside a universe closed under the directory links of the pages not visited before the crawl |
| Crawler.VisitUnvisited | main.py:61-88 | visiting an unvisited URL keeps the crawl invariant and decreases the measure |
| Crawler.FirstFetch | main.py:58-65 | the first URL a crawl fetches is its seed |
| Crawler.NothingFetched | main.py:58-65 | a crawl whose seed the caller already visited fetches nothing |
| Crawler.CrawlDone | main.py:60-90 | with an empty worklist the invariant gives the crawl's postconditions |
| Crawler.FetchAllHtmlRecursive | main.py:52-90 | visited grows by exactly the fetched URLs; no URL is fetched twice or if visited before; each fetched URL was discovered first; everything discovered is visited; results are those of the fetched pages in fetch order |
| Crawler.ResultsFromFetchedPages | main.py:60-90 | every crawl result is a non-empty gallery path of a `.html` link on a page that was fetched successfully |
| Crawler.ResultsOf | main.py:68-88 | the results of a sequence of visits, page by page in fetch order; `ResultsOfMembers` characterises it |
| Crawler.ResultsOfSnoc | main.py:68-88 | one more visit adds that page's results at the end |
| Crawler.ResultsOfAppend | main.py:60-88 | the results of two stretches of visits are those of each, in order |
| Crawler.ResultsOfAt | main.py:60-88 | the results split around any one visit: before it, that page's own, after it |
| Crawler.ResultsOfComplete | main.py:60-90 | every result of every fetched page is among the crawl's results |
| Crawler.DiscoveredResultsKept | main.py:60-90 | when every discovered URL was fetched, every result of every discovered page is a result of the crawl |
| Crawler.ResultsOfMembers | main.py:60-90 | a gallery path is a crawl result if and only if some fetched page yields it; a failed fetch removes only that page's own contribution |
| Scenarios.NoExtensionFits | main.py:80-83 | a link is no asset when no skip extension ends in its last character |
| Scenarios.SlashDirectory | main.py:75-85 | a link ending in `/` is a directory |
| Scenarios.SeedOfRoot | main.py:58 | `https://baka.ms/galleries/` is its own seed |
| Scenarios.SuccessorsOf | main.py:72-85 | on the sample site only the root pushes anything: `b/` and `d/` |
| Scenarios.PageResultsOf | main.py:72-78 | on the sample site the root yields `a/index.html`, `b/` yields `b/c.html`, and nothing else yields anything |
| Scenarios.CrawlResults | main.py:60-90 | any crawl of the sample site that fetched the root and `b/` found exactly the two pages |
| Scenarios.TwoPageManifest | main.py:188 | those two results give the manifest `[a/index.html, b/c.html]` in any order or multiplicity |
| Scenarios.CrawlVisitedRoot | main.py:52-65 | a crawl of the sample site whose root the caller already visited returns no results and leaves `visited` as it was; it needs a universe holding only the root |
| Scenarios.CrawlSite | main.py:52-90 | crawling the sample site, whose `d/` cannot be fetched, gives the manifest `[a/index.html, b/c.html]`: the failed branch loses nothing found elsewhere |
| Strings.LessIrreflexive | main.py:188 | Python string `<` is irreflexive |
| Strings.LessTransitive | main.py:188 | Python string `<` is transitive |
| Strings.LessTotal | main.py:188 | Python string `<` is total on distinct strings |
| Strings.LessAsymmetric | main.py:188 | Python string `<` is asymmetric |
| Strings.LessPrefix | main.py:191-194 | a common prefix does not change the order |
| Strings.Less | main.py:188 | Python's `<` on strings, code point by code point; the lemmas above make it a strict total order |
| Manifest.InsertMembers | main.py:188 | insertion adds exactly the new string |
| Manifest.ConsSorted | main.py:188 | a smaller head on a sorted tail is sorted |
| Manifest.InsertSorted | main.py:188 | insertion keeps the sequence strictly sorted |
| Manifest.SortedSetSpec | main.py:188 | `sorted(set(xs))` is strictly ascending and holds exactly the strings of `xs` |
| Manifest.SortedSet | main.py:188 | `sorted(set(xs))` built by insertion; `SortedSetSpec` and `SortedUnique` pin it to the one sorted, duplicate-free listing of `xs` |
| Manifest.SortedDistinct | main.py:188 | the manifest lists no gallery path twice |
| Manifest.SortedUnique | main.py:188 | two strictly sorted sequences with the same strings are equal |
| Manifest.SortedSetOrderIndependent | main.py:185-188 | the manifest does not depend on the order the crawl found the paths in |
| Manifest.ManifestUrls | main.py:191-194 | one URL per gallery path |
| Manifest.ManifestUrlsAt | main.py:191-194 | line `i` is `https://baka.ms/galleries/` + path `i` |
| Manifest.ManifestUrlsSorted | main.py:188-194 | `files.txt` is sorted too |
| Manifest.ManifestUrlsMembers | main.py:191-194 | a URL is in `files.txt` if and only if it is the galleries URL + a manifest path |
| Manifest.FileUrl | main.py:193 | the line for a gallery path: `https://baka.ms/galleries/` + path; `StripGalleriesUrl` and `FolderOfFileUrl` read it back |
| Manifest.WriteManifest | main.py:191-194 | the chunks written are the manifest's URLs, each with a newline, in order |
| Strings.RemoveAll | main.py:162-166 | `replace(p, "")` never lengthens the string |
| Strings.RemoveAllChanges | main.py:162-166 | `replace(p, "")` changes the string if and only if `p` occurs in it |
| Strings.RemoveAllAfter | main.py:162-166 | a prefix in which `p` starts nowhere passes through `replace` untouched |
| Strings.NoOccurrenceInTail | main.py:162-166 | no occurrence of `p` starting inside `a` means none starting inside `a` without its first character |
| Folders.StripGalleriesUrl | main.py:162 | removing the galleries URL from a manifest URL gives its gallery path when the path does not contain it |
| Folders.NoStraddle | main.py:166 | `.html` cannot straddle the end of an `.html`-free stem |
| Folders.FolderOfPage | main.py:161-166 | the directory of `stem.html` is `galleries/stem` when the stem has no `.html` and no galleries URL |
| Folders.FolderOfFileUrl | main.py:161-166 | the directory of any manifest URL is `galleries/` + its path with every copy of the galleries URL and then every `.html` removed |
| Folders.GalleriesDirKept | main.py:165-166 | the `.html` removal leaves the `galleries/` in front untouched |
| Folders.FolderOfGalleryPath | main.py:161-166 | when the path does not contain the galleries URL, the directory is `galleries/` + path with every `.html` removed |
| Folders.HtmlDropped | main.py:166 | an `.html` right after a dot-free start is removed and nothing else changes |
| Folders.DotFreeStart | main.py:166 | a dot-free start of a path is untouched by the `.html` removal |
| Folders.InnerHtmlIgnored | main.py:161-166 | an inner `.html` in a gallery path does not change its directory |
| Folders.FolderCollision | main.py:161-166 | two different manifest URLs are given the same directory |
| Folders.FolderPath | main.py:161-166 | the directory of a URL: galleries URL removed everywhere, `galleries/` put in front, `.html` removed everywhere; the lemmas above state its value on manifest URLs |
| Folders.StripLine | main.py:155 | a written line strips back to its URL |
| Folders.StripManifestLine | main.py:155-157 | a manifest line strips back to its full URL when the gallery path does not end in whitespace |
| Folders.UrlsOfStripped | main.py:154-159 | lines that strip to non-blank URLs are processed as exactly those URLs |
| Folders.ReadBack | main.py:153-159 | when no gallery path ends in whitespace, the lines read back are exactly the URLs written, in order |
| Folders.UrlsStep | main.py:154-159 | a blank line adds nothing; a non-blank one adds its stripped text |
| Folders.Urls | main.py:154-157 | the stripped non-blank lines in file order; `UrlsStep`, `UrlsOfStripped` and `ReadBack` characterise it |
| Folders.Folders | main.py:161-168 | one directory per processed URL |
| Folders.FoldersAt | main.py:161-168 | directory `i` is the folder path of URL `i` |
| Folders.CountOf | main.py:172-174 | the count one URL adds: the number of lines of its `links.txt`, or 0 when nothing is written |
| Folders.Total | main.py:172-174 | the reported total: the counts of all processed URLs, overwritten files included; `TotalAppend` states it is additive |
| Folders.Catalogs | main.py:122-129 | the `links.txt` files after the loop; `LastWriteWins`, `RecordElsewhere` and `CatalogsFromPages` characterise it |
| Folders.TotalAppend | main.py:172-174 | the total adds up over consecutive stretches of URLs |
| Folders.RecordElsewhere | main.py:122-129 | a page written to another directory, or not written, leaves this `links.txt` alone |
| Folders.LastWriteWins | main.py:122-129 | a page's links stay in its directory unless a later page with the same directory overwrites them |
| Folders.CatalogsFromPages | main.py:122-129 | every `links.txt` holds the links of some processed page whose directory it is |
| Folders.PageCatalog | main.py:122-133 | the `links.txt` lines for a `.html` URL whose page was fetched, and nothing otherwise |
| Folders.Record | main.py:122-133 | writing a page's `links.txt` replaces whatever that directory held; `RecordElsewhere` shows it touches no other directory |
| Folders.LoopStep | main.py:159-174 | one more URL adds its directory, its `links.txt` and its count |
| Folders.ProcessUrl | main.py:159-174 | the loop body: one directory, and for a `.html` URL its links file and count |
| Folders.CreateFolderStructure | main.py:140-179 | the processed count, directories, `links.txt` files and total are those of the stripped non-blank lines |
| Scraper.ResultsNonEmpty | main.py:76-78 | no crawl result is empty |
| Scraper.SiteOracles | main.py:22-49 | the crawl's view of the site: `fetch_links` over the page fetch, and `urlparse`'s path |
| Scraper.Run | main.py:182-199 | the crawl, with `fetch_links` as modelled, is complete and fetches nothing twice; the manifest is strictly sorted, equals the set of results and holds every gallery path on every reachable page that could be fetched; `files.txt` holds its URLs; the folder structure is built from those lines, which are the manifest's URLs when no path ends in whitespace |

## Left out

- HTTP is left out: sessions, headers, timeouts and `raise_for_status`. A fetch is a function parameter returning `None` on failure.
- HTML parsing is left out. A page is given as its anchors (table-row anchors and all anchors) or as its `<img>` elements' `data-idimg` attributes.
- `urljoin` and `urlparse(...).path` are uninterpreted function parameters.
- Printing and logging are left out.
- The file system is modelled as values:
  - `shutil.rmtree` is the empty starting state;
  - `os.makedirs` appends to the list of directories;
  - writing `links.txt` updates a map.

  Errors from `makedirs` or from opening files are not modelled.
- Crawler.FetchAllHtmlRecursive: termination assumes a ghost set of URLs. The set holds the seed and every directory link found on those of its pages that are not in the caller's `visited` set; pages already visited are never fetched, so their links need not be in it. Every call that stops has such a set: the seed together with every URL pushed. Only a crawl that runs forever, on an unbounded site, is left out.
- Crawler.FetchAllHtmlRecursive: the caller's `visited` set is returned as a new value instead of being mutated in place, so aliasing with the caller is not modelled.
- Crawler.FetchAllHtmlRecursive: an exception raised by `urlparse` in the middle of the link loop is not modelled. It would drop the rest of that page's links while keeping those already recorded. The link loop is treated as not raising, and `fetch_links` as a whole returns `None` on failure.
- Scraper.Run: reading `files.txt` back is modelled as one line per written chunk. A gallery path containing a line break would be split into several lines by Python's file iterator.
- Folders.Record and Folders.LastWriteWins: directories are compared as strings. A trailing `/`, a doubled `//`, a `./` segment and case folding are not normalised. So two directory names the file system treats as one directory stay two keys. For example, `x.html` and `x/.html` give `galleries/x` and `galleries/x/`, and on disk the second page's `links.txt` overwrites the first's, while the model keeps both.
- Tokens.ExtractDirectLinks: the `Photos found` count is only printed, so it is not modelled. It counts the `<img>` elements that carry a `data-idimg` attribute (main.py:111), including those whose attribute is empty (main.py:132).
- Crawler.LinkOracle: `urljoin` is treated as total. In Python it can raise `ValueError` on a malformed href such as `http://[oops/a.html` (main.py:36 and main.py:47). `fetch_links` then raises, and the `except` at main.py:87-88 drops the whole page: no results and no pushed links, not even those joined before the bad href. The model instead returns all of the page's links. A page on which `urljoin` raises must be given by the page fetch returning `None`.
