/**
 * The token transformer and the per-page image scan of
 * `extract_direct_links`.
 */
module Tokens {
  import opened Wrappers
  import opened Strings

  const PhotoService: string := "https://photos.baka.ms/photoservice/uwu/pull/"

  /** An `<img>` element; `idimg` is its `data-idimg` attribute, if any. */
  datatype Image = Image(idimg: Option<string>)

  /** The reversed token as the path's last segment, the token itself as the query. */
  function DirectLink(token: string): (link: string) {
    PhotoService + Reverse(token) + "?" + token
  }

  /** Reads the token back out of a direct link, checking both halves agree. */
  function RecoverToken(link: string): (token: Option<string>) {
    if !StartsWith(link, PhotoService) then None
    else
      var rest := link[|PhotoService|..];
      if |rest| % 2 == 0 then None
      else
        var n := |rest| / 2;
        if rest[n] == '?' && rest[..n] == Reverse(rest[n + 1..]) then Some(rest[n + 1..])
        else None
  }

  lemma RecoverDirectLink(token: string)
    ensures RecoverToken(DirectLink(token)) == Some(token)
  {
    var link := DirectLink(token);
    assert link[..|PhotoService|] == PhotoService;
    var rest := link[|PhotoService|..];
    assert rest == Reverse(token) + "?" + token;
    var n := |rest| / 2;
    assert n == |token|;
    assert rest[..n] == Reverse(token);
    assert rest[n + 1..] == token;
  }

  lemma RecoverTokenSound(link: string, token: string)
    requires RecoverToken(link) == Some(token)
    ensures DirectLink(token) == link
  {
    var rest := link[|PhotoService|..];
    var n := |rest| / 2;
    assert rest[..n] == Reverse(token) && rest[n] == '?' && rest[n + 1..] == token;
    assert rest == Reverse(token) + "?" + token by {
      assert rest == rest[..n] + [rest[n]] + rest[n + 1..];
    }
    assert link == PhotoService + rest by {
      assert link == link[..|PhotoService|] + rest;
    }
  }

  /** Equal links come from equal tokens, and equal tokens give equal links. */
  lemma DirectLinkInjective(s: string, t: string)
    ensures DirectLink(s) == DirectLink(t) <==> s == t
  {
    if DirectLink(s) == DirectLink(t) {
      RecoverDirectLink(s);
      RecoverDirectLink(t);
    }
  }

  /** The token an image contributes: none when the attribute is missing or empty. */
  function TokenOf(img: Image): (ts: seq<string>) {
    match img.idimg
    case Some(t) => if t != "" then [t] else []
    case None => []
  }

  /** The non-empty tokens of a page's images, in image order. */
  function Tokens(images: seq<Image>): (ts: seq<string>)
    ensures |ts| <= |images|
  {
    if images == [] then []
    else Tokens(images[..|images| - 1]) + TokenOf(images[|images| - 1])
  }

  /** Empty tokens never reach the catalog. */
  lemma {:induction false} TokensNonEmpty(images: seq<Image>)
    ensures forall i :: 0 <= i < |Tokens(images)| ==> Tokens(images)[i] != ""
  {
    if images != [] {
      TokensNonEmpty(images[..|images| - 1]);
    }
  }

  /** Tokens of a concatenation: the scan keeps image order. */
  lemma {:induction false} TokensAppend(a: seq<Image>, b: seq<Image>)
    ensures Tokens(a + b) == Tokens(a) + Tokens(b)
    decreases |b|
  {
    if b == [] {
      assert a + b == a;
    } else {
      var b' := b[..|b| - 1];
      assert (a + b)[..|a + b| - 1] == a + b';
      TokensAppend(a, b');
    }
  }

  /** An image without a usable token contributes nothing, wherever it is. */
  lemma SkippedImage(a: seq<Image>, img: Image, b: seq<Image>)
    requires img.idimg.None? || img.idimg == Some("")
    ensures Tokens(a + [img] + b) == Tokens(a + b)
  {
    var ai := a + [img];
    assert ai[..|ai| - 1] == a;
    assert Tokens(ai) == Tokens(a) + TokenOf(img) == Tokens(a);
    TokensAppend(ai, b);
    TokensAppend(a, b);
  }

  /** An image with a non-empty token contributes exactly that token, in its place. */
  lemma KeptImage(a: seq<Image>, t: string, b: seq<Image>)
    requires t != ""
    ensures Tokens(a + [Image(Some(t))] + b) == Tokens(a) + [t] + Tokens(b)
  {
    var ai := a + [Image(Some(t))];
    assert ai[..|ai| - 1] == a;
    TokensAppend(ai, b);
  }

  /** A token is in the scan exactly when some image carries it as a non-empty `data-idimg`. */
  lemma {:induction false} TokensMembers(images: seq<Image>, t: string)
    ensures t in Tokens(images) <==> t != "" && exists i :: 0 <= i < |images| && images[i].idimg == Some(t)
  {
    if images != [] {
      var n := |images| - 1;
      var init := images[..n];
      TokensMembers(init, t);
      if t in Tokens(images) {
        if t in Tokens(init) {
          var i :| 0 <= i < |init| && init[i].idimg == Some(t);
          assert images[i] == init[i];
        } else {
          assert images[n].idimg == Some(t);
        }
      } else if t != "" {
        forall i | 0 <= i < |images|
          ensures images[i].idimg != Some(t)
        {
          if i < n {
            assert images[i] == init[i];
          }
        }
      }
    }
  }

  /** The catalog of a page: one direct link per token, in token order. */
  function DirectLinks(images: seq<Image>): (links: seq<string>) {
    var ts := Tokens(images);
    seq(|ts|, i requires 0 <= i < |ts| => DirectLink(ts[i]))
  }

  /** Each catalog line decodes back to the token at the same position. */
  lemma CatalogDecodes(images: seq<Image>, i: nat)
    requires i < |DirectLinks(images)|
    ensures RecoverToken(DirectLinks(images)[i]) == Some(Tokens(images)[i])
  {
    RecoverDirectLink(Tokens(images)[i]);
  }

  /** A page with tokens "abc" and "xy" gives two lines, in that order. */
  lemma TwoImagePage()
    ensures DirectLinks([Image(Some("abc")), Image(Some("xy"))])
      == [PhotoService + "cba?abc", PhotoService + "yx?xy"]
  {
    var imgs := [Image(Some("abc")), Image(Some("xy"))];
    assert imgs[..1] == [Image(Some("abc"))];
    assert [Image(Some("abc"))][..0] == [];
    assert Tokens(imgs) == ["abc", "xy"];
    assert Reverse("abc") == "cba";
    assert Reverse("xy") == "yx";
    var links := DirectLinks(imgs);
    assert |links| == 2;
    assert links[0] == DirectLink("abc") == PhotoService + "cba?abc";
    assert links[1] == DirectLink("xy") == PhotoService + "yx?xy";
  }

  /**
   * The image scan of `extract_direct_links` on the result of fetching the
   * page: `None` for a fetch or parse failure, in which case nothing is
   * written and the count is 0; otherwise the lines written to `links.txt`
   * and their number.
   */
  method ExtractDirectLinks(page: Option<seq<Image>>) returns (written: Option<seq<string>>, count: nat)
    ensures page.None? ==> written == None && count == 0
    ensures page.Some? ==> written == Some(DirectLinks(page.value))
    ensures page.Some? ==> count == |Tokens(page.value)|
  {
    if page.None? {
      return None, 0;
    }
    var images := page.value;
    var links: seq<string> := [];
    for i := 0 to |images|
      invariant links == DirectLinks(images[..i])
    {
      assert images[..i + 1][..i] == images[..i];
      var id := images[i].idimg;
      if id.Some? && id.value != "" {
        links := links + [DirectLink(id.value)];
      }
    }
    assert images[..|images|] == images;
    return Some(links), |links|;
  }
}
