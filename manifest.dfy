/**
 * The manifest `main` writes: the crawl results deduplicated and sorted
 * (`sorted(set(results))`), each written to `files.txt` as a full URL on
 * its own line.
 */
module Manifest {
  import opened Strings
  import Paths
  import Links

  /** Strictly increasing under Python's string order, hence also free of duplicates. */
  predicate StrictlySorted(s: seq<string>) {
    forall i, j :: 0 <= i < j < |s| ==> Less(s[i], s[j])
  }

  /** Adds `x` to a sorted sequence, keeping it sorted and adding nothing already present. */
  function Insert(s: seq<string>, x: string): (r: seq<string>) {
    if s == [] then [x]
    else if x == s[0] then s
    else if Less(x, s[0]) then [x] + s
    else [s[0]] + Insert(s[1..], x)
  }

  lemma {:induction false} InsertMembers(s: seq<string>, x: string)
    ensures forall y :: y in Insert(s, x) <==> y in s || y == x
  {
    if s != [] && x != s[0] && !Less(x, s[0]) {
      InsertMembers(s[1..], x);
      assert s == [s[0]] + s[1..];
    }
  }

  /** A sorted sequence is its head followed by a sorted tail of larger strings. */
  lemma ConsSorted(a: string, t: seq<string>)
    requires StrictlySorted(t)
    requires forall y :: y in t ==> Less(a, y)
    ensures StrictlySorted([a] + t)
  {
    var s := [a] + t;
    forall i, j | 0 <= i < j < |s|
      ensures Less(s[i], s[j])
    {
      if i == 0 {
        assert s[j] == t[j - 1];
      } else {
        assert s[i] == t[i - 1] && s[j] == t[j - 1];
      }
    }
  }

  lemma {:induction false} InsertSorted(s: seq<string>, x: string)
    requires StrictlySorted(s)
    ensures StrictlySorted(Insert(s, x))
  {
    if s == [] {
    } else if x == s[0] {
    } else if Less(x, s[0]) {
      forall y | y in s
        ensures Less(x, y)
      {
        var k :| 0 <= k < |s| && s[k] == y;
        if k > 0 {
          LessTransitive(x, s[0], y);
        }
      }
      ConsSorted(x, s);
    } else {
      var t := s[1..];
      assert StrictlySorted(t) by {
        forall i, j | 0 <= i < j < |t|
          ensures Less(t[i], t[j])
        {
          assert t[i] == s[i + 1] && t[j] == s[j + 1];
        }
      }
      LessTotal(x, s[0]);
      InsertSorted(t, x);
      InsertMembers(t, x);
      forall y | y in Insert(t, x)
        ensures Less(s[0], y)
      {
        if y != x {
          var k :| 0 <= k < |t| && t[k] == y;
          assert s[k + 1] == y;
        }
      }
      ConsSorted(s[0], Insert(t, x));
    }
  }

  /** `sorted(set(xs))`. */
  function SortedSet(xs: seq<string>): (sorted: seq<string>) {
    if xs == [] then []
    else Insert(SortedSet(xs[..|xs| - 1]), xs[|xs| - 1])
  }

  /** The manifest is sorted and holds exactly the strings of `xs`. */
  lemma {:induction false} SortedSetSpec(xs: seq<string>)
    ensures StrictlySorted(SortedSet(xs))
    ensures forall y :: y in SortedSet(xs) <==> y in xs
  {
    if xs != [] {
      var init, x := xs[..|xs| - 1], xs[|xs| - 1];
      SortedSetSpec(init);
      InsertSorted(SortedSet(init), x);
      InsertMembers(SortedSet(init), x);
      assert xs == init + [x];
      assert forall y :: y in xs <==> y in init || y == x;
    }
  }

  /** A strictly sorted sequence lists no string twice. */
  lemma SortedDistinct(s: seq<string>)
    requires StrictlySorted(s)
    ensures forall i, j :: 0 <= i < j < |s| ==> s[i] != s[j]
  {
    forall i, j | 0 <= i < j < |s|
      ensures s[i] != s[j]
    {
      if s[i] == s[j] {
        LessIrreflexive(s[i]);
      }
    }
  }

  /** Sorting a set gives one answer: two sorted sequences with the same strings are equal. */
  lemma {:induction false} SortedUnique(a: seq<string>, b: seq<string>)
    requires StrictlySorted(a) && StrictlySorted(b)
    requires forall y :: y in a <==> y in b
    ensures a == b
  {
    assert a == [] <==> b == [] by {
      if a != [] {
        assert a[0] in a;
      }
      if b != [] {
        assert b[0] in b;
      }
    }
    if a != [] {
      var a', b' := a[1..], b[1..];
      assert a[0] == b[0] by {
        if a[0] != b[0] {
          assert a[0] in a && b[0] in b;
          var i :| 0 <= i < |b| && b[i] == a[0];
          var j :| 0 <= j < |a| && a[j] == b[0];
          assert i > 0 && j > 0;
          assert Less(b[0], a[0]) && Less(a[0], b[0]);
          LessAsymmetric(b[0], a[0]);
        }
      }
      assert StrictlySorted(a') by {
        forall i, j | 0 <= i < j < |a'|
          ensures Less(a'[i], a'[j])
        {
          assert a'[i] == a[i + 1] && a'[j] == a[j + 1];
        }
      }
      assert StrictlySorted(b') by {
        forall i, j | 0 <= i < j < |b'|
          ensures Less(b'[i], b'[j])
        {
          assert b'[i] == b[i + 1] && b'[j] == b[j + 1];
        }
      }
      forall y
        ensures y in a' <==> y in b'
      {
        if y in a' {
          var k :| 0 <= k < |a'| && a'[k] == y;
          assert Less(a[0], a[k + 1]);
          LessIrreflexive(y);
          assert y in b && y != b[0];
          var m :| 0 <= m < |b| && b[m] == y;
          assert b'[m - 1] == y;
        }
        if y in b' {
          var k :| 0 <= k < |b'| && b'[k] == y;
          assert Less(b[0], b[k + 1]);
          LessIrreflexive(y);
          assert y in a && y != a[0];
          var m :| 0 <= m < |a| && a[m] == y;
          assert a'[m - 1] == y;
        }
      }
      SortedUnique(a', b');
      assert a == [a[0]] + a' && b == [b[0]] + b';
    }
  }

  /** The manifest does not depend on the order the crawl found the results in. */
  lemma SortedSetOrderIndependent(xs: seq<string>, ys: seq<string>)
    requires forall y :: y in xs <==> y in ys
    ensures SortedSet(xs) == SortedSet(ys)
  {
    SortedSetSpec(xs);
    SortedSetSpec(ys);
    SortedUnique(SortedSet(xs), SortedSet(ys));
  }

  const GalleriesUrl: string := Links.Site + Paths.GalleriesRoot

  /** The full URL of a gallery path, as written to `files.txt`. */
  function FileUrl(rel: string): (url: string) {
    GalleriesUrl + rel
  }

  /** The URLs of `files.txt`, in file order. */
  function ManifestUrls(rels: seq<string>): (urls: seq<string>)
    ensures |urls| == |rels|
  {
    if rels == [] then []
    else ManifestUrls(rels[..|rels| - 1]) + [FileUrl(rels[|rels| - 1])]
  }

  /** One URL per gallery path, at the path's position. */
  lemma {:induction false} ManifestUrlsAt(rels: seq<string>)
    ensures |ManifestUrls(rels)| == |rels|
    ensures forall i :: 0 <= i < |rels| ==> ManifestUrls(rels)[i] == FileUrl(rels[i])
  {
    if rels != [] {
      ManifestUrlsAt(rels[..|rels| - 1]);
    }
  }

  /** Prefixing the common base keeps a sorted manifest sorted. */
  lemma ManifestUrlsSorted(rels: seq<string>)
    requires StrictlySorted(rels)
    ensures StrictlySorted(ManifestUrls(rels))
  {
    var urls := ManifestUrls(rels);
    ManifestUrlsAt(rels);
    forall i, j | 0 <= i < j < |urls|
      ensures Less(urls[i], urls[j])
    {
      LessPrefix(GalleriesUrl, rels[i], rels[j]);
    }
  }

  /** Every line of `files.txt` names a gallery path of the manifest under the galleries URL. */
  lemma ManifestUrlsMembers(rels: seq<string>, u: string)
    ensures u in ManifestUrls(rels) <==> exists r :: r in rels && u == FileUrl(r)
  {
    var urls := ManifestUrls(rels);
    ManifestUrlsAt(rels);
    if u in urls {
      var i :| 0 <= i < |urls| && urls[i] == u;
      assert rels[i] in rels;
    }
    if exists r :: r in rels && u == FileUrl(r) {
      var r :| r in rels && u == FileUrl(r);
      var i :| 0 <= i < |rels| && rels[i] == r;
      assert urls[i] == u;
    }
  }

  /**
   * The write loop of `main`: the text written to `files.txt`, one
   * newline-terminated chunk per line, for the sorted, deduplicated results.
   */
  method WriteManifest(results: seq<string>) returns (chunks: seq<string>)
    ensures |chunks| == |SortedSet(results)|
    ensures forall i :: 0 <= i < |chunks| ==> chunks[i] == ManifestUrls(SortedSet(results))[i] + "\n"
  {
    var rels := SortedSet(results);
    ManifestUrlsAt(rels);
    chunks := [];
    for i := 0 to |rels|
      invariant |chunks| == i
      invariant forall k :: 0 <= k < i ==> chunks[k] == FileUrl(rels[k]) + "\n"
    {
      var fullUrl := GalleriesUrl + rels[i];
      chunks := chunks + [fullUrl + "\n"];
    }
  }
}
