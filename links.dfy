/**
 * Link extraction of `fetch_links`, over an already parsed page: the HTTP
 * request and the HTML parser are not modelled, a page is given as its
 * anchors, and `urljoin` is a parameter.
 */
module Links {
  import opened Strings

  /** Anchor texts the directory-listing pass ignores. */
  const Exclude: set<string> := {"..", ".DS_Store", "favicon.ico", "v-proxy.js"}

  /** Scheme and host that root-relative hrefs are joined to by the fallback pass. */
  const Site: string := "https://baka.ms"

  /** An `<a href=...>` element: its visible text and its `href`. */
  datatype Anchor = Anchor(text: string, href: string)

  /**
   * A parsed page: the anchors with an `href` inside table rows (`tr a[href]`)
   * and every anchor with an `href`, both in document order.
   */
  datatype Page = Page(rowAnchors: seq<Anchor>, anchors: seq<Anchor>)

  /** `urljoin(base, href)`, a library function this model does not interpret. */
  type Join = (string, string) -> string

  /** The base the primary pass joins against: the page URL with a trailing slash. */
  function DirectoryUrl(url: string): (r: string)
    ensures EndsWith(r, "/")
    ensures r == url || r == url + "/"
    ensures EndsWith(url, "/") ==> r == url
  {
    if EndsWith(url, "/") then url else url + "/"
  }

  /** The primary pass drops an anchor only for an excluded (stripped) text; blank text is kept. */
  predicate KeepRowAnchor(a: Anchor) {
    Strip(a.text) !in Exclude
  }

  /** The fallback pass drops blank texts and any text containing "..". */
  predicate KeepAnyAnchor(a: Anchor) {
    Strip(a.text) != "" && !Contains(a.text, "..")
  }

  /** How the fallback pass resolves an href. */
  function Resolve(url: string, href: string, join: Join): (link: string) {
    if StartsWith(href, "/") then Site + href else join(url, href)
  }

  /**
   * What one pass over `anchors` appends, in document order: `link(a)` for
   * every anchor `a` that `keep` accepts.
   */
  function Collect(anchors: seq<Anchor>, keep: Anchor -> bool, link: Anchor -> string): (links: seq<string>) {
    if anchors == [] then []
    else
      var a := anchors[|anchors| - 1];
      Collect(anchors[..|anchors| - 1], keep, link) + (if keep(a) then [link(a)] else [])
  }

  /** Links of the primary pass, each href joined to `base`. */
  function RowLinks(base: string, rows: seq<Anchor>, join: Join): (links: seq<string>) {
    Collect(rows, KeepRowAnchor, (a: Anchor) => join(base, a.href))
  }

  /** Links of the fallback pass. */
  function AnyLinks(url: string, anchors: seq<Anchor>, join: Join): (links: seq<string>) {
    Collect(anchors, KeepAnyAnchor, (a: Anchor) => Resolve(url, a.href, join))
  }

  /** `fetch_links` on a fetched page: the primary pass, or the fallback when it found nothing. */
  function PageLinks(url: string, page: Page, join: Join): (links: seq<string>) {
    var primary := RowLinks(DirectoryUrl(url), page.rowAnchors, join);
    if primary != [] then primary else AnyLinks(url, page.anchors, join)
  }

  /** Anchor `i` is accepted and yields `l`. */
  predicate Yields(anchors: seq<Anchor>, keep: Anchor -> bool, link: Anchor -> string, i: int, l: string) {
    0 <= i < |anchors| && keep(anchors[i]) && l == link(anchors[i])
  }

  /** Every collected link comes from an accepted anchor. */
  lemma {:induction false} CollectSound(anchors: seq<Anchor>, keep: Anchor -> bool, link: Anchor -> string, l: string)
    requires l in Collect(anchors, keep, link)
    ensures exists i :: Yields(anchors, keep, link, i, l)
  {
    var n := |anchors| - 1;
    var init := anchors[..n];
    if l in Collect(init, keep, link) {
      CollectSound(init, keep, link, l);
      var i :| Yields(init, keep, link, i, l);
      assert anchors[i] == init[i];
      assert Yields(anchors, keep, link, i, l);
    } else {
      assert Yields(anchors, keep, link, n, l);
    }
  }

  /** Every accepted anchor contributes its link. */
  lemma {:induction false} CollectComplete(anchors: seq<Anchor>, keep: Anchor -> bool, link: Anchor -> string, i: int, l: string)
    requires Yields(anchors, keep, link, i, l)
    ensures l in Collect(anchors, keep, link)
  {
    var n := |anchors| - 1;
    var init := anchors[..n];
    if i < n {
      assert init[i] == anchors[i];
      assert Yields(init, keep, link, i, l);
      CollectComplete(init, keep, link, i, l);
    }
  }

  /** A link is collected exactly when an accepted anchor yields it. */
  lemma CollectMembers(anchors: seq<Anchor>, keep: Anchor -> bool, link: Anchor -> string, l: string)
    ensures l in Collect(anchors, keep, link) <==> exists i :: Yields(anchors, keep, link, i, l)
  {
    if l in Collect(anchors, keep, link) {
      CollectSound(anchors, keep, link, l);
    }
    if exists i :: Yields(anchors, keep, link, i, l) {
      var i :| Yields(anchors, keep, link, i, l);
      CollectComplete(anchors, keep, link, i, l);
    }
  }

  /** A pass collects nothing exactly when it accepts no anchor. */
  lemma {:induction false} CollectEmpty(anchors: seq<Anchor>, keep: Anchor -> bool, link: Anchor -> string)
    ensures Collect(anchors, keep, link) == [] <==> forall i :: 0 <= i < |anchors| ==> !keep(anchors[i])
  {
    if anchors != [] {
      var n := |anchors| - 1;
      var init := anchors[..n];
      CollectEmpty(init, keep, link);
      if Collect(anchors, keep, link) == [] {
        forall i | 0 <= i < |anchors|
          ensures !keep(anchors[i])
        {
          if i < n {
            assert anchors[i] == init[i];
          }
        }
      } else if Collect(init, keep, link) != [] {
        var i :| 0 <= i < |init| && keep(init[i]);
        assert anchors[i] == init[i];
      }
    }
  }

  /** A link comes out of the primary pass exactly when a kept row anchor's href joins to it. */
  lemma RowLinksMembers(base: string, rows: seq<Anchor>, join: Join, l: string)
    ensures l in RowLinks(base, rows, join)
        <==> exists i :: 0 <= i < |rows| && KeepRowAnchor(rows[i]) && l == join(base, rows[i].href)
  {
    var link := (a: Anchor) => join(base, a.href);
    CollectMembers(rows, KeepRowAnchor, link, l);
    assert forall i :: (Yields(rows, KeepRowAnchor, link, i, l)
      <==> 0 <= i < |rows| && KeepRowAnchor(rows[i]) && l == join(base, rows[i].href));
  }

  /** The primary pass finds nothing exactly when it drops every row anchor. */
  lemma RowLinksEmpty(base: string, rows: seq<Anchor>, join: Join)
    ensures RowLinks(base, rows, join) == [] <==> forall i :: 0 <= i < |rows| ==> !KeepRowAnchor(rows[i])
  {
    CollectEmpty(rows, KeepRowAnchor, (a: Anchor) => join(base, a.href));
  }

  /** A link comes out of the fallback pass exactly when a kept anchor's href resolves to it. */
  lemma AnyLinksMembers(url: string, anchors: seq<Anchor>, join: Join, l: string)
    ensures l in AnyLinks(url, anchors, join)
        <==> exists i :: 0 <= i < |anchors| && KeepAnyAnchor(anchors[i]) && l == Resolve(url, anchors[i].href, join)
  {
    var link := (a: Anchor) => Resolve(url, a.href, join);
    CollectMembers(anchors, KeepAnyAnchor, link, l);
    assert forall i :: (Yields(anchors, KeepAnyAnchor, link, i, l)
      <==> 0 <= i < |anchors| && KeepAnyAnchor(anchors[i]) && l == Resolve(url, anchors[i].href, join));
  }

  /**
   * Which pass decides: the fallback is consulted only when no row anchor
   * survives the primary filter.
   */
  lemma PageLinksStrategy(url: string, page: Page, join: Join)
    ensures (exists i :: 0 <= i < |page.rowAnchors| && KeepRowAnchor(page.rowAnchors[i]))
        ==> PageLinks(url, page, join) == RowLinks(DirectoryUrl(url), page.rowAnchors, join)
    ensures (forall i :: 0 <= i < |page.rowAnchors| ==> !KeepRowAnchor(page.rowAnchors[i]))
        ==> PageLinks(url, page, join) == AnyLinks(url, page.anchors, join)
  {
    RowLinksEmpty(DirectoryUrl(url), page.rowAnchors, join);
  }

  /** `fetch_links` after a successful request, with its two loops. */
  method FetchLinks(url: string, page: Page, join: Join) returns (links: seq<string>)
    ensures links == PageLinks(url, page, join)
  {
    var rows := page.rowAnchors;
    var currentUrl := DirectoryUrl(url);
    links := [];
    for i := 0 to |rows|
      invariant links == RowLinks(currentUrl, rows[..i], join)
    {
      assert rows[..i + 1][..i] == rows[..i];
      if Strip(rows[i].text) !in Exclude {
        links := links + [join(currentUrl, rows[i].href)];
      }
    }
    assert rows[..|rows|] == rows;
    if links == [] {
      var anchors := page.anchors;
      for i := 0 to |anchors|
        invariant links == AnyLinks(url, anchors[..i], join)
      {
        assert anchors[..i + 1][..i] == anchors[..i];
        var a := anchors[i];
        if Strip(a.text) != "" && !Contains(a.text, "..") {
          if StartsWith(a.href, "/") {
            links := links + [Site + a.href];
          } else {
            links := links + [join(url, a.href)];
          }
        }
      }
      assert anchors[..|anchors|] == anchors;
    }
  }
}
