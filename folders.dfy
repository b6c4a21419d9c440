/**
 * `create_folder_structure`: reads `files.txt` back, makes one directory per
 * URL and, for every gallery page, writes the page's direct links to
 * `links.txt` in that directory. The file system is modelled by the list of
 * directories made and a map from directory to the lines of its `links.txt`;
 * the page fetch is a parameter.
 */
module Folders {
  import opened Wrappers
  import opened Strings
  import opened Tokens
  import opened Manifest

  const GalleriesDir: string := "galleries/"
  const HtmlSuffix: string := ".html"

  /**
   * The directory made for a URL: every copy of the galleries URL removed,
   * `galleries/` put in front, then every `.html` removed (Python's
   * `str.replace`, which removes all occurrences, not only a suffix).
   */
  function FolderPath(url: string): (dir: string) {
    RemoveAll(GalleriesDir + RemoveAll(url, GalleriesUrl), HtmlSuffix)
  }

  lemma {:induction false} ShortNoContains(s: string, p: string)
    requires |s| < |p|
    ensures !Contains(s, p)
    decreases |s|
  {
    if s != [] {
      ShortNoContains(s[1..], p);
    }
  }

  /** Removing the galleries URL from a manifest URL gives back its gallery path, unless the path repeats that URL. */
  lemma StripGalleriesUrl(rel: string)
    requires !Contains(rel, GalleriesUrl)
    ensures RemoveAll(FileUrl(rel), GalleriesUrl) == rel
  {
    var u := FileUrl(rel);
    assert u[..|GalleriesUrl|] == GalleriesUrl;
    assert u[|GalleriesUrl|..] == rel;
    RemoveAllChanges(rel, GalleriesUrl);
  }

  /** No occurrence of a pattern that starts with a dot can start inside a dot-free prefix. */
  lemma DotFreePrefix(a: string, b: string, p: string)
    requires p != [] && p[0] == '.'
    requires forall k :: 0 <= k < |a| ==> a[k] != '.'
    ensures forall i :: 0 <= i < |a| ==> !OccursAt(a + b, p, i)
  {
    forall i | 0 <= i < |a|
      ensures !OccursAt(a + b, p, i)
    {
      assert (a + b)[i] == a[i];
      if i + |p| <= |a + b| {
        assert (a + b)[i..i + |p|][0] == (a + b)[i];
      }
    }
  }

  /** Appending `.html` to a stem without `.html` adds an occurrence only at the end. */
  lemma NoStraddle(stem: string)
    requires !Contains(stem, HtmlSuffix)
    ensures forall i :: 0 <= i < |stem| ==> !OccursAt(stem + HtmlSuffix, HtmlSuffix, i)
  {
    ContainsOccurs(stem, HtmlSuffix);
    var s := stem + HtmlSuffix;
    forall i | 0 <= i < |stem|
      ensures !OccursAt(s, HtmlSuffix, i)
    {
      if i + |HtmlSuffix| <= |stem| {
        assert !OccursAt(stem, HtmlSuffix, i);
        assert stem[i..i + |HtmlSuffix|] == s[i..i + |HtmlSuffix|];
      } else if i + |HtmlSuffix| <= |s| {
        var k := |stem| - i;
        assert s[i..i + |HtmlSuffix|][k] == s[|stem|] == '.';
        assert HtmlSuffix[k] != '.';
      }
    }
  }

  /**
   * The directory of a gallery page is its gallery path without the
   * `.html`, when the path has no other `.html` and does not repeat the
   * galleries URL.
   */
  lemma FolderOfPage(stem: string)
    requires !Contains(stem, HtmlSuffix)
    requires !Contains(stem + HtmlSuffix, GalleriesUrl)
    ensures FolderPath(FileUrl(stem + HtmlSuffix)) == GalleriesDir + stem
  {
    var rel := stem + HtmlSuffix;
    StripGalleriesUrl(rel);
    DotFreePrefix(GalleriesDir, rel, HtmlSuffix);
    RemoveAllAfter(GalleriesDir, rel, HtmlSuffix);
    NoStraddle(stem);
    RemoveAllAfter(stem, HtmlSuffix, HtmlSuffix);
    assert RemoveAll(HtmlSuffix, HtmlSuffix) == [] by {
      assert HtmlSuffix[|HtmlSuffix|..] == [];
    }
  }

  /**
   * The directory of any manifest URL: `galleries/` followed by its gallery
   * path with every copy of the galleries URL and then every `.html` removed.
   */
  lemma FolderOfFileUrl(rel: string)
    ensures FolderPath(FileUrl(rel)) == GalleriesDir + RemoveAll(RemoveAll(rel, GalleriesUrl), HtmlSuffix)
  {
    var x := RemoveAll(rel, GalleriesUrl);
    assert RemoveAll(FileUrl(rel), GalleriesUrl) == x by {
      var u := FileUrl(rel);
      assert u[..|GalleriesUrl|] == GalleriesUrl;
      assert u[|GalleriesUrl|..] == rel;
    }
    GalleriesDirKept(x);
  }

  /** `galleries/` has no dot, so the `.html` removal leaves it in front. */
  lemma GalleriesDirKept(x: string)
    ensures RemoveAll(GalleriesDir + x, HtmlSuffix) == GalleriesDir + RemoveAll(x, HtmlSuffix)
  {
    assert forall k :: 0 <= k < |GalleriesDir| ==> GalleriesDir[k] != '.';
    DotFreePrefix(GalleriesDir, x, HtmlSuffix);
    RemoveAllAfter(GalleriesDir, x, HtmlSuffix);
  }

  /** The directory of a manifest URL whose gallery path does not repeat the galleries URL. */
  lemma FolderOfGalleryPath(rel: string)
    requires !Contains(rel, GalleriesUrl)
    ensures FolderPath(FileUrl(rel)) == GalleriesDir + RemoveAll(rel, HtmlSuffix)
    ensures FolderPath(FileUrl(rel)) == RemoveAll(GalleriesDir + rel, HtmlSuffix)
  {
    FolderOfFileUrl(rel);
    RemoveAllChanges(rel, GalleriesUrl);
  }

  /** A dot-free start of a gallery path passes through the `.html` removal untouched. */
  lemma DotFreeStart(a: string, b: string)
    requires forall k :: 0 <= k < |a| ==> a[k] != '.'
    ensures RemoveAll(GalleriesDir + (a + b), HtmlSuffix) == GalleriesDir + a + RemoveAll(b, HtmlSuffix)
  {
    var pre := GalleriesDir + a;
    forall k | 0 <= k < |pre|
      ensures pre[k] != '.'
    {
      if k >= |GalleriesDir| {
        assert pre[k] == a[k - |GalleriesDir|];
      }
    }
    assert GalleriesDir + (a + b) == pre + b;
    DotFreePrefix(pre, b, HtmlSuffix);
    RemoveAllAfter(pre, b, HtmlSuffix);
  }

  /**
   * Because every `.html` is removed, an `.html` inside a gallery path does
   * not change its directory (when what precedes it has no dot).
   */
  lemma InnerHtmlIgnored(a: string, b: string)
    requires forall k :: 0 <= k < |a| ==> a[k] != '.'
    requires !Contains(a + HtmlSuffix + b, GalleriesUrl) && !Contains(a + b, GalleriesUrl)
    ensures FolderPath(FileUrl(a + HtmlSuffix + b)) == FolderPath(FileUrl(a + b))
  {
    FolderOfGalleryPath(a + HtmlSuffix + b);
    FolderOfGalleryPath(a + b);
    HtmlDropped(a, b);
  }

  /** `.html` right after a dot-free start is removed and nothing else changes. */
  lemma HtmlDropped(a: string, b: string)
    requires forall k :: 0 <= k < |a| ==> a[k] != '.'
    ensures RemoveAll(a + HtmlSuffix + b, HtmlSuffix) == RemoveAll(a + b, HtmlSuffix)
  {
    assert a + HtmlSuffix + b == a + (HtmlSuffix + b);
    DotFreePrefix(a, HtmlSuffix + b, HtmlSuffix);
    RemoveAllAfter(a, HtmlSuffix + b, HtmlSuffix);
    DotFreePrefix(a, b, HtmlSuffix);
    RemoveAllAfter(a, b, HtmlSuffix);
    assert RemoveAll(HtmlSuffix + b, HtmlSuffix) == RemoveAll(b, HtmlSuffix) by {
      assert (HtmlSuffix + b)[..|HtmlSuffix|] == HtmlSuffix;
      assert (HtmlSuffix + b)[|HtmlSuffix|..] == b;
    }
  }

  /** Two different pages, `x.html/y.html` and `x/y.html`, are given the same directory. */
  lemma FolderCollision()
    ensures FileUrl("x" + HtmlSuffix + "/y.html") != FileUrl("x" + "/y.html")
    ensures FolderPath(FileUrl("x" + HtmlSuffix + "/y.html")) == FolderPath(FileUrl("x" + "/y.html"))
  {
    ShortNoContains("x" + HtmlSuffix + "/y.html", GalleriesUrl);
    ShortNoContains("x" + "/y.html", GalleriesUrl);
    InnerHtmlIgnored("x", "/y.html");
  }

  /** The URLs the loop processes: every line of `files.txt`, stripped, blank ones skipped. */
  function Urls(lines: seq<string>): (urls: seq<string>) {
    if lines == [] then []
    else
      var url := Strip(lines[|lines| - 1]);
      Urls(lines[..|lines| - 1]) + (if url != "" then [url] else [])
  }

  /** A manifest line as written, newline included, strips back to its URL. */
  lemma StripLine(u: string)
    requires u != [] && !IsSpace(u[0]) && !IsSpace(u[|u| - 1])
    ensures Strip(u + "\n") == u
  {
    var t := u + "\n";
    assert LeadingSpaces(t) == 0 by {
      assert t[0] == u[0];
    }
    assert t[..|t| - 1] == u;
    assert TrailingSpaces(t) == 1 by {
      assert TrailingSpaces(u) == 0;
    }
  }

  /** A written `files.txt` line strips back to its URL when the gallery path does not end in whitespace. */
  lemma StripManifestLine(r: string)
    requires r != [] && !IsSpace(r[|r| - 1])
    ensures Strip(FileUrl(r) + "\n") == FileUrl(r)
  {
    var u := FileUrl(r);
    assert u[0] == GalleriesUrl[0] == 'h';
    assert u[|u| - 1] == r[|r| - 1];
    StripLine(u);
  }

  /** Lines that strip to non-blank URLs are processed as exactly those URLs, in order. */
  lemma {:induction false} UrlsOfStripped(lines: seq<string>, urls: seq<string>)
    requires |lines| == |urls|
    requires forall i :: 0 <= i < |lines| ==> Strip(lines[i]) == urls[i] && urls[i] != ""
    ensures Urls(lines) == urls
  {
    if lines != [] {
      var n := |lines| - 1;
      UrlsOfStripped(lines[..n], urls[..n]);
      assert urls == urls[..n] + [urls[n]];
    }
  }

  /**
   * Reading `files.txt` back: when no gallery path is empty or ends in
   * whitespace, the loop processes exactly the URLs that were written, in
   * the order they were written.
   */
  lemma ReadBack(rels: seq<string>, chunks: seq<string>)
    requires forall r :: r in rels ==> r != [] && !IsSpace(r[|r| - 1])
    requires |chunks| == |rels|
    requires forall i :: 0 <= i < |chunks| ==> chunks[i] == ManifestUrls(rels)[i] + "\n"
    ensures Urls(chunks) == ManifestUrls(rels)
  {
    var urls := ManifestUrls(rels);
    ManifestUrlsAt(rels);
    forall i | 0 <= i < |chunks|
      ensures Strip(chunks[i]) == urls[i] && urls[i] != ""
    {
      assert rels[i] in rels;
      StripManifestLine(rels[i]);
    }
    UrlsOfStripped(chunks, urls);
  }

  /** What `extract_direct_links` writes for a URL: nothing unless it names a page that could be fetched. */
  function PageCatalog(url: string, fetch: string -> Option<seq<Image>>): (catalog: Option<seq<string>>) {
    if EndsWith(url, HtmlSuffix) && fetch(url).Some? then Some(DirectLinks(fetch(url).value)) else None
  }

  /** The `links.txt` files after processing `url`: its page's links, if any, replace its directory's file. */
  function Record(files: map<string, seq<string>>, url: string, fetch: string -> Option<seq<Image>>): (updated: map<string, seq<string>>) {
    match PageCatalog(url, fetch)
    case Some(lines) => files[FolderPath(url) := lines]
    case None => files
  }

  /** The number of direct links `extract_direct_links` reports for `url`. */
  function CountOf(url: string, fetch: string -> Option<seq<Image>>): (count: nat) {
    match PageCatalog(url, fetch)
    case Some(lines) => |lines|
    case None => 0
  }

  /** The directories made, in order, one per URL. */
  function Folders(urls: seq<string>): (dirs: seq<string>)
    ensures |dirs| == |urls|
  {
    if urls == [] then []
    else Folders(urls[..|urls| - 1]) + [FolderPath(urls[|urls| - 1])]
  }

  /** One directory per URL, at the URL's position. */
  lemma {:induction false} FoldersAt(urls: seq<string>)
    ensures |Folders(urls)| == |urls|
    ensures forall i :: 0 <= i < |urls| ==> Folders(urls)[i] == FolderPath(urls[i])
  {
    if urls != [] {
      FoldersAt(urls[..|urls| - 1]);
    }
  }

  /** The `links.txt` files after the loop: a later page with the same directory overwrites an earlier one. */
  function Catalogs(urls: seq<string>, fetch: string -> Option<seq<Image>>): (files: map<string, seq<string>>) {
    if urls == [] then map[]
    else Record(Catalogs(urls[..|urls| - 1], fetch), urls[|urls| - 1], fetch)
  }

  /** The number of direct links reported in total, counting overwritten files too. */
  function Total(urls: seq<string>, fetch: string -> Option<seq<Image>>): (total: nat) {
    if urls == [] then 0
    else Total(urls[..|urls| - 1], fetch) + CountOf(urls[|urls| - 1], fetch)
  }

  /** The total adds up over consecutive stretches of the manifest. */
  lemma {:induction false} TotalAppend(a: seq<string>, b: seq<string>, fetch: string -> Option<seq<Image>>)
    ensures Total(a + b, fetch) == Total(a, fetch) + Total(b, fetch)
    decreases |b|
  {
    if b == [] {
      assert a + b == a;
    } else {
      var b' := b[..|b| - 1];
      assert (a + b)[..|a + b| - 1] == a + b';
      TotalAppend(a, b', fetch);
    }
  }

  /** Processing a URL whose page is not written to `dir` leaves `dir`'s file as it was. */
  lemma RecordElsewhere(files: map<string, seq<string>>, url: string, fetch: string -> Option<seq<Image>>, dir: string)
    requires PageCatalog(url, fetch).None? || FolderPath(url) != dir
    ensures dir in Record(files, url, fetch) <==> dir in files
    ensures dir in files ==> Record(files, url, fetch)[dir] == files[dir]
  {
  }

  /**
   * A page's links survive in its directory unless a later page with the
   * same directory overwrites them.
   */
  lemma {:induction false} LastWriteWins(urls: seq<string>, fetch: string -> Option<seq<Image>>, i: int)
    requires 0 <= i < |urls| && PageCatalog(urls[i], fetch).Some?
    requires forall j :: i < j < |urls| && PageCatalog(urls[j], fetch).Some? ==> FolderPath(urls[j]) != FolderPath(urls[i])
    ensures FolderPath(urls[i]) in Catalogs(urls, fetch)
    ensures Catalogs(urls, fetch)[FolderPath(urls[i])] == PageCatalog(urls[i], fetch).value
  {
    var n := |urls| - 1;
    var init := urls[..n];
    var dir := FolderPath(urls[i]);
    assert Catalogs(urls, fetch) == Record(Catalogs(init, fetch), urls[n], fetch);
    if i < n {
      assert init[i] == urls[i];
      forall j | i < j < |init| && PageCatalog(init[j], fetch).Some?
        ensures FolderPath(init[j]) != dir
      {
        assert init[j] == urls[j];
      }
      LastWriteWins(init, fetch, i);
      RecordElsewhere(Catalogs(init, fetch), urls[n], fetch, dir);
    }
  }

  /** Every `links.txt` holds the links of some page whose directory it is. */
  lemma {:induction false} CatalogsFromPages(urls: seq<string>, fetch: string -> Option<seq<Image>>, dir: string)
    requires dir in Catalogs(urls, fetch)
    ensures exists i :: 0 <= i < |urls| && PageCatalog(urls[i], fetch) == Some(Catalogs(urls, fetch)[dir])
                        && FolderPath(urls[i]) == dir
  {
    var n := |urls| - 1;
    var init := urls[..n];
    if PageCatalog(urls[n], fetch).Some? && FolderPath(urls[n]) == dir {
      assert PageCatalog(urls[n], fetch) == Some(Catalogs(urls, fetch)[dir]);
    } else {
      assert Catalogs(urls, fetch)[dir] == Catalogs(init, fetch)[dir];
      CatalogsFromPages(init, fetch, dir);
      var i :| 0 <= i < |init| && PageCatalog(init[i], fetch) == Some(Catalogs(init, fetch)[dir])
               && FolderPath(init[i]) == dir;
      assert urls[i] == init[i];
    }
  }

  /** One more line extends the processed URLs by its stripped text, unless that is blank. */
  lemma UrlsStep(lines: seq<string>, i: nat)
    requires i < |lines|
    ensures Strip(lines[i]) == "" ==> Urls(lines[..i + 1]) == Urls(lines[..i])
    ensures Strip(lines[i]) != "" ==> Urls(lines[..i + 1]) == Urls(lines[..i]) + [Strip(lines[i])]
  {
    assert lines[..i + 1][..i] == lines[..i];
  }

  /** What processing one more URL adds to the directories, the files and the total. */
  lemma LoopStep(urls: seq<string>, url: string, fetch: string -> Option<seq<Image>>)
    ensures Folders(urls + [url]) == Folders(urls) + [FolderPath(url)]
    ensures Catalogs(urls + [url], fetch) == Record(Catalogs(urls, fetch), url, fetch)
    ensures Total(urls + [url], fetch) == Total(urls, fetch) + CountOf(url, fetch)
  {
    assert (urls + [url])[..|urls|] == urls;
  }

  /**
   * The body of the loop for one non-blank URL: make its directory and, for
   * a page, write its links there and add their number to the total.
   */
  method ProcessUrl(url: string, fetch: string -> Option<seq<Image>>,
                    createdIn: seq<string>, filesIn: map<string, seq<string>>, totalIn: nat)
    returns (created: seq<string>, files: map<string, seq<string>>, total: nat)
    ensures created == createdIn + [FolderPath(url)]
    ensures files == Record(filesIn, url, fetch)
    ensures total == totalIn + CountOf(url, fetch)
  {
    var path := RemoveAll(url, GalleriesUrl);
    var dirFolder := RemoveAll(GalleriesDir + path, HtmlSuffix);
    created, files, total := createdIn + [dirFolder], filesIn, totalIn;
    if EndsWith(url, HtmlSuffix) {
      var written, imageCount := ExtractDirectLinks(fetch(url));
      if written.Some? {
        files := files[dirFolder := written.value];
      }
      total := total + imageCount;
    }
  }

  /**
   * The loop of `create_folder_structure` over the lines of `files.txt`
   * (`lines`, as the file iterator yields them). It starts from an empty
   * `galleries` directory, makes one directory per non-blank line and, for
   * every `.html` URL, writes the links of the fetched page.
   */
  method CreateFolderStructure(lines: seq<string>, fetch: string -> Option<seq<Image>>)
    returns (processed: nat, total: nat, created: seq<string>, catalogs: map<string, seq<string>>)
    ensures processed == |Urls(lines)|
    ensures created == Folders(Urls(lines))
    ensures catalogs == Catalogs(Urls(lines), fetch)
    ensures total == Total(Urls(lines), fetch)
  {
    processed, total, created, catalogs := 0, 0, [], map[];
    for i := 0 to |lines|
      invariant processed == |Urls(lines[..i])|
      invariant created == Folders(Urls(lines[..i]))
      invariant catalogs == Catalogs(Urls(lines[..i]), fetch)
      invariant total == Total(Urls(lines[..i]), fetch)
    {
      UrlsStep(lines, i);
      ghost var urls := Urls(lines[..i]);
      var url := Strip(lines[i]);
      if url == "" {
        continue;
      }
      LoopStep(urls, url, fetch);
      processed := processed + 1;
      created, catalogs, total := ProcessUrl(url, fetch, created, catalogs, total);
    }
    assert lines[..|lines|] == lines;
  }
}
