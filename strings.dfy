/**
 * The handful of Python `str` operations the scraper relies on, written out
 * over `seq<char>`: `startswith`, `endswith`, the `in` substring test,
 * `strip()`, `rstrip(c)`, `replace(old, "")`, slicing with `[::-1]` and the
 * `<` ordering used by `sorted`.
 */
module Strings {

  /** An element of a non-empty sequence is in its front part or is its last element. */
  lemma LastSplit<T>(s: seq<T>)
    requires s != []
    ensures forall x :: x in s <==> x in s[..|s| - 1] || x == s[|s| - 1]
  {
    forall x | x in s
      ensures x in s[..|s| - 1] || x == s[|s| - 1]
    {
      var k :| 0 <= k < |s| && s[k] == x;
      if k < |s| - 1 {
        assert s[..|s| - 1][k] == x;
      }
    }
  }

  /** Concatenation is associative; stated once so that proofs need not rediscover it. */
  lemma AppendAssoc<T>(x: seq<T>, y: seq<T>, z: seq<T>)
    ensures (x + y) + z == x + (y + z)
  {
  }

  predicate StartsWith(s: string, p: string) {
    |p| <= |s| && s[..|p|] == p
  }

  predicate EndsWith(s: string, p: string) {
    |p| <= |s| && s[|s| - |p|..] == p
  }

  /** `p` occurs in `s` starting at index `i`. */
  predicate OccursAt(s: string, p: string, i: int) {
    0 <= i && i + |p| <= |s| && s[i..i + |p|] == p
  }

  /** Python's `p in s`. */
  function Contains(s: string, p: string): (found: bool)
    decreases |s|
  {
    StartsWith(s, p) || (s != [] && Contains(s[1..], p))
  }

  /** `Contains` holds exactly when `p` occurs somewhere in `s`. */
  lemma {:induction false} ContainsOccurs(s: string, p: string)
    ensures Contains(s, p) <==> exists i :: OccursAt(s, p, i)
    decreases |s|
  {
    if StartsWith(s, p) {
      assert OccursAt(s, p, 0);
    } else if s != [] {
      ContainsOccurs(s[1..], p);
      assert forall i :: OccursAt(s[1..], p, i) ==> OccursAt(s, p, i + 1);
      assert forall i :: OccursAt(s, p, i) && i > 0 ==> OccursAt(s[1..], p, i - 1);
    }
  }

  /** Python's `s[::-1]`. */
  function Reverse(s: string): (r: string)
    ensures |r| == |s|
  {
    if s == [] then [] else Reverse(s[1..]) + [s[0]]
  }

  /** Position `i` of the reversal holds position `|s| - 1 - i` of `s`. */
  lemma {:induction false} ReverseAt(s: string)
    ensures forall i :: 0 <= i < |s| ==> Reverse(s)[i] == s[|s| - 1 - i]
  {
    if s != [] {
      ReverseAt(s[1..]);
    }
  }

  lemma ReverseReverse(s: string)
    ensures Reverse(Reverse(s)) == s
  {
    var r := Reverse(s);
    ReverseAt(s);
    ReverseAt(r);
    assert forall i :: 0 <= i < |s| ==> Reverse(r)[i] == r[|s| - 1 - i] == s[i];
  }

  lemma ReverseInjective(s: string, t: string)
    requires Reverse(s) == Reverse(t)
    ensures s == t
  {
    ReverseReverse(s);
    ReverseReverse(t);
  }

  /** The characters Python's `str.isspace()` accepts, which `strip()` removes. */
  predicate IsSpace(c: char) {
    var n := c as int;
    (0x09 <= n <= 0x0d) || (0x1c <= n <= 0x20) || n == 0x85 || n == 0xa0 ||
    n == 0x1680 || (0x2000 <= n <= 0x200a) || n == 0x2028 || n == 0x2029 ||
    n == 0x202f || n == 0x205f || n == 0x3000
  }

  /** Length of the longest whitespace prefix of `s`. */
  function LeadingSpaces(s: string): (n: nat)
    ensures n <= |s|
  {
    if s != [] && IsSpace(s[0]) then 1 + LeadingSpaces(s[1..]) else 0
  }

  /** `LeadingSpaces` counts exactly the whitespace run at the front. */
  lemma {:induction false} LeadingSpacesRun(s: string)
    ensures forall k :: 0 <= k < LeadingSpaces(s) ==> IsSpace(s[k])
    ensures LeadingSpaces(s) == |s| || !IsSpace(s[LeadingSpaces(s)])
  {
    if s != [] && IsSpace(s[0]) {
      LeadingSpacesRun(s[1..]);
    }
  }

  /** Length of the longest whitespace suffix of `s`. */
  function TrailingSpaces(s: string): (n: nat)
    ensures n <= |s|
  {
    if s != [] && IsSpace(s[|s| - 1]) then 1 + TrailingSpaces(s[..|s| - 1]) else 0
  }

  /** `TrailingSpaces` counts exactly the whitespace run at the back. */
  lemma {:induction false} TrailingSpacesRun(s: string)
    ensures forall k :: |s| - TrailingSpaces(s) <= k < |s| ==> IsSpace(s[k])
    ensures TrailingSpaces(s) == |s| || !IsSpace(s[|s| - 1 - TrailingSpaces(s)])
  {
    if s != [] && IsSpace(s[|s| - 1]) {
      TrailingSpacesRun(s[..|s| - 1]);
    }
  }

  /** `s.strip()`: `s` without its leading and trailing whitespace. */
  function Strip(s: string): (t: string) {
    var t := s[LeadingSpaces(s)..];
    t[..|t| - TrailingSpaces(t)]
  }

  /**
   * `strip()` yields the empty string exactly for an all-whitespace input,
   * and otherwise neither starts nor ends with whitespace.
   */
  lemma StripSpec(s: string)
    ensures Strip(s) == [] <==> forall k :: 0 <= k < |s| ==> IsSpace(s[k])
    ensures Strip(s) != [] ==> !IsSpace(Strip(s)[0]) && !IsSpace(Strip(s)[|Strip(s)| - 1])
  {
    var n := LeadingSpaces(s);
    var t := s[n..];
    LeadingSpacesRun(s);
    TrailingSpacesRun(t);
    if n < |s| {
      assert t[0] == s[n];
      assert TrailingSpaces(t) < |t|;
    }
  }

  /** Number of copies of `c` that `s` ends with. */
  function TrailingCount(s: string, c: char): (n: nat)
    ensures n <= |s|
  {
    if s != [] && s[|s| - 1] == c then 1 + TrailingCount(s[..|s| - 1], c) else 0
  }

  /** `s.rstrip(c)` for a single character `c`. */
  function TrimTrailing(s: string, c: char): (t: string) {
    s[..|s| - TrailingCount(s, c)]
  }

  /** `rstrip(c)` removes a run of `c` at the end, and all of it. */
  lemma {:induction false} TrimTrailingSpec(s: string, c: char)
    ensures forall k :: |TrimTrailing(s, c)| <= k < |s| ==> s[k] == c
    ensures TrimTrailing(s, c) == [] || TrimTrailing(s, c)[|TrimTrailing(s, c)| - 1] != c
  {
    if s != [] && s[|s| - 1] == c {
      var init := s[..|s| - 1];
      TrimTrailingSpec(init, c);
      assert TrimTrailing(s, c) == TrimTrailing(init, c);
    }
  }

  /** One more trailing `c` makes no difference to `rstrip(c)`. */
  lemma TrimTrailingAppend(s: string, c: char)
    ensures TrimTrailing(s + [c], c) == TrimTrailing(s, c)
  {
    assert (s + [c])[..|s|] == s;
  }

  /** `rstrip(c)` leaves nothing more to strip. */
  lemma TrimTrailingIdempotent(s: string, c: char)
    ensures TrimTrailing(TrimTrailing(s, c), c) == TrimTrailing(s, c)
  {
    var t := TrimTrailing(s, c);
    TrimTrailingSpec(s, c);
    assert TrailingCount(t, c) == 0;
    assert t[..|t|] == t;
  }

  /**
   * `s.replace(p, "")` for a non-empty `p`: scans left to right and drops
   * every non-overlapping occurrence, not only a leading or trailing one.
   */
  function RemoveAll(s: string, p: string): (r: string)
    requires p != ""
    ensures |r| <= |s|
    decreases |s|
  {
    if s == [] then []
    else if StartsWith(s, p) then RemoveAll(s[|p|..], p)
    else [s[0]] + RemoveAll(s[1..], p)
  }

  /** The removal changes `s` exactly when `p` occurs in it. */
  lemma {:induction false} RemoveAllChanges(s: string, p: string)
    requires p != ""
    ensures RemoveAll(s, p) == s <==> !Contains(s, p)
    decreases |s|
  {
    if s == [] {
    } else if StartsWith(s, p) {
      assert |RemoveAll(s, p)| < |s|;
    } else {
      RemoveAllChanges(s[1..], p);
      assert RemoveAll(s, p) == [s[0]] + RemoveAll(s[1..], p);
      assert s == [s[0]] + s[1..];
    }
  }

  /**
   * If no occurrence of `p` starts inside `a`, removing `p` from `a + b`
   * leaves `a` alone.
   */
  lemma {:induction false} RemoveAllAfter(a: string, b: string, p: string)
    requires p != ""
    requires forall i :: 0 <= i < |a| ==> !OccursAt(a + b, p, i)
    ensures RemoveAll(a + b, p) == a + RemoveAll(b, p)
    decreases |a|
  {
    if a == [] {
      assert a + b == b;
    } else {
      var s := a + b;
      var t := a[1..] + b;
      assert s[1..] == t;
      assert RemoveAll(s, p) == [a[0]] + RemoveAll(t, p) by {
        assert !OccursAt(s, p, 0);
      }
      NoOccurrenceInTail(a, b, p);
      RemoveAllAfter(a[1..], b, p);
      assert [a[0]] + (a[1..] + RemoveAll(b, p)) == a + RemoveAll(b, p) by {
        assert a == [a[0]] + a[1..];
      }
    }
  }

  /** No occurrence starting inside `a` means none starting inside `a[1..]` either, once `a[0]` is dropped. */
  lemma NoOccurrenceInTail(a: string, b: string, p: string)
    requires a != []
    requires forall i :: 0 <= i < |a| ==> !OccursAt(a + b, p, i)
    ensures forall i :: 0 <= i < |a| - 1 ==> !OccursAt(a[1..] + b, p, i)
  {
    var s, t := a + b, a[1..] + b;
    forall i | 0 <= i < |a| - 1
      ensures !OccursAt(t, p, i)
    {
      assert !OccursAt(s, p, i + 1);
      if i + |p| <= |t| {
        assert s[i + 1..i + 1 + |p|] == t[i..i + |p|];
      }
    }
  }

  /** Python's `a < b` on strings: code-point lexicographic order. */
  predicate Less(a: string, b: string) {
    if a == [] then b != []
    else if b == [] then false
    else if a[0] != b[0] then a[0] < b[0]
    else Less(a[1..], b[1..])
  }

  lemma {:induction false} LessIrreflexive(a: string)
    ensures !Less(a, a)
  {
    if a != [] { LessIrreflexive(a[1..]); }
  }

  lemma {:induction false} LessTransitive(a: string, b: string, c: string)
    requires Less(a, b) && Less(b, c)
    ensures Less(a, c)
  {
    if a != [] && b != [] && c != [] && a[0] == b[0] && b[0] == c[0] {
      LessTransitive(a[1..], b[1..], c[1..]);
    }
  }

  lemma {:induction false} LessTotal(a: string, b: string)
    requires a != b
    ensures Less(a, b) || Less(b, a)
  {
    if a != [] && b != [] && a[0] == b[0] {
      assert a == [a[0]] + a[1..] && b == [b[0]] + b[1..];
      LessTotal(a[1..], b[1..]);
    }
  }

  lemma {:induction false} LessAsymmetric(a: string, b: string)
    requires Less(a, b)
    ensures !Less(b, a)
  {
    if a != [] && b != [] && a[0] == b[0] {
      LessAsymmetric(a[1..], b[1..]);
    }
  }

  /** A common prefix does not change the order. */
  lemma {:induction false} LessPrefix(p: string, a: string, b: string)
    ensures Less(p + a, p + b) <==> Less(a, b)
    decreases |p|
  {
    if p != [] {
      assert (p + a)[1..] == p[1..] + a;
      assert (p + b)[1..] == p[1..] + b;
      LessPrefix(p[1..], a, b);
    } else {
      assert p + a == a && p + b == b;
    }
  }
}
