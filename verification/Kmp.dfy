/** The Knuth-Morris-Pratt failure table and search of algorithm.c. */
module Kmp {
  /** A byte of a string; the byte that ends one is 0. */
  type Char = c: int | 1 <= c < 256 witness 1

  /** s[j] as the C code reads it: the terminating 0 when j is the length. */
  function At(s: seq<Char>, j: nat): int
    requires j <= |s|
  {
    if j < |s| then s[j] else 0
  }

  /** The first b characters of pat are the b characters of s before position e. */
  ghost predicate Ends(pat: seq<Char>, s: seq<Char>, e: int, b: int) {
    0 <= b <= |pat| && b <= e <= |s| && forall k :: e - b <= k < e ==> s[k] == pat[k - (e - b)]
  }

  /** b is the length of the longest prefix of pat, of those shorter than bound, that ends at position e of s. */
  ghost predicate Longest(pat: seq<Char>, s: seq<Char>, e: int, b: int, bound: int) {
    b < bound && Ends(pat, s, e, b) && forall c :: b < c < bound ==> !Ends(pat, s, e, c)
  }

  /** b is the length of the longest proper border of s[..e]. */
  ghost predicate LongestBorder(s: seq<Char>, e: int, b: int) {
    Longest(s, s, e, b, e)
  }

  /** One character more: the prefixes that end at e+1 are those that end at e and go on alike. */
  lemma EndsNext(pat: seq<Char>, s: seq<Char>, e: nat, b: nat)
    requires e < |s| && b < |pat|
    ensures Ends(pat, s, e + 1, b + 1) <==> Ends(pat, s, e, b) && pat[b] == s[e]
  {
  }

  /** A prefix of pat shorter than j that ends where one of length j ends is a border of that one. */
  lemma EndsBorder(pat: seq<Char>, s: seq<Char>, e: nat, j: nat, c: nat)
    requires Ends(pat, s, e, j) && c < j
    ensures Ends(pat, s, e, c) <==> Ends(pat, pat, j, c)
  {
    forall k | j - c <= k < j ensures pat[k] == s[e - j + k] {
      assert s[e - j + k] == pat[k];
    }
    if Ends(pat, pat, j, c) {
      forall k | e - c <= k < e ensures s[k] == pat[k - (e - c)] {
        assert pat[k - (e - j)] == s[k];
      }
    }
  }

  /** Falling back: j is a prefix of pat that ends at e of s, and no longer one below bound goes on with s[e]. */
  ghost predicate Falling(pat: seq<Char>, s: seq<Char>, e: int, j: int, bound: int)
    requires 0 <= e < |s|
  {
    && j < bound && Ends(pat, s, e, j)
    && forall c :: j < c < bound && c < |pat| && Ends(pat, s, e, c) ==> pat[c] != s[e]
  }

  lemma StartFalling(pat: seq<Char>, s: seq<Char>, e: nat, j: nat, bound: int)
    requires e < |s| && Longest(pat, s, e, j, bound)
    ensures Falling(pat, s, e, j, bound) && j <= |pat|
  {
  }

  lemma StartLongest(pat: seq<Char>, s: seq<Char>)
    ensures Longest(pat, s, 0, 0, |pat| + 1)
  {
  }

  lemma StartBorder(s: seq<Char>)
    requires |s| > 0
    ensures LongestBorder(s, 1, 0)
  {
  }

  lemma BorderBound(pat: seq<Char>, j: nat, b: int)
    requires LongestBorder(pat, j, b)
    ensures 0 <= b < j
  {
  }

  lemma FallBack(pat: seq<Char>, s: seq<Char>, e: nat, j: nat, bound: int, b: nat)
    requires e < |s| && Falling(pat, s, e, j, bound) && 0 < j && (j < |pat| ==> pat[j] != s[e])
    requires LongestBorder(pat, j, b)
    ensures Falling(pat, s, e, b, bound)
  {
    EndsBorder(pat, s, e, j, b);
    forall c | b < c < bound && c < |pat| && Ends(pat, s, e, c) ensures pat[c] != s[e] {
      if c < j { EndsBorder(pat, s, e, j, c); }
    }
  }

  lemma Advance(pat: seq<Char>, s: seq<Char>, e: nat, j: nat, bound: int)
    requires e < |s| && |pat| > 0 && Falling(pat, s, e, j, bound)
    requires j == 0 || (j < |pat| && pat[j] == s[e])
    ensures var j' := if pat[j] == s[e] then j + 1 else j;
            Longest(pat, s, e + 1, j', if bound < |pat| + 1 then bound + 1 else |pat| + 1)
  {
    var bound' := if bound < |pat| + 1 then bound + 1 else |pat| + 1;
    var j' := if pat[j] == s[e] then j + 1 else j;
    EndsNext(pat, s, e, j);
    var e' := e + 1;
    forall c | j' < c < bound' ensures !Ends(pat, s, e', c) {
      EndsNext(pat, s, e, c - 1);
    }
  }

  /** `algorithm_kmp_next` */
  method KmpNext(s: seq<Char>) returns (next: array<nat>)
    requires |s| > 0
    ensures fresh(next) && next.Length == |s|
    ensures forall i :: 0 <= i < |s| ==> LongestBorder(s, i + 1, next[i])
  {
    hide Longest, Ends, Falling;
    var n := |s|;
    next := new nat[n];
    StartBorder(s);
    next[0] := 0;
    var j: nat := 0;
    ghost var steps := 0;
    for i := 1 to n
      invariant forall k :: 0 <= k < i ==> LongestBorder(s, k + 1, next[k])
      invariant j == next[i - 1] && steps + j < i
    {
      assert LongestBorder(s, (i - 1) + 1, next[i - 1]);
      StartFalling(s, s, i, j, i);
      while j > 0 && s[i] != s[j]
        invariant Falling(s, s, i, j, i) && steps + j < i && 0 <= j < i
        invariant forall k :: 0 <= k < i ==> LongestBorder(s, k + 1, next[k])
      {
        assert LongestBorder(s, (j - 1) + 1, next[j - 1]);
        BorderBound(s, j, next[j - 1]);
        FallBack(s, s, i, j, i, next[j - 1]);
        j := next[j - 1];
        steps := steps + 1;
      }
      Advance(s, s, i, j, i);
      if s[i] == s[j] { j := j + 1; }
      assert LongestBorder(s, i + 1, j);
      next[i] := j;
    }
  }

  ghost predicate Occurs(src: seq<Char>, dst: seq<Char>, p: int) {
    0 <= p && p + |dst| <= |src| && src[p..p + |dst|] == dst
  }

  /** `algorithm_kmp_search`: found is what the source prints. Every start of an occurrence is
      reported, once and in order, and the fallback loop runs at most |src| times in all. */
  method KmpSearch(src: seq<Char>, dst: seq<Char>) returns (found: seq<int>, ghost steps: nat)
    requires |dst| > 0
    ensures forall p :: p in found <==> Occurs(src, dst, p)
    ensures forall a, b :: 0 <= a < b < |found| ==> found[a] < found[b]
    ensures steps <= |src|
  {
    hide Longest, Ends, Falling;
    var m, n := |src|, |dst|;
    var next := KmpNext(dst);
    found, steps := [], 0;
    var j: nat := 0;
    StartLongest(dst, src);
    for i := 0 to m
      invariant forall k :: 0 <= k < n ==> LongestBorder(dst, k + 1, next[k])
      invariant Longest(dst, src, i, j, n + 1) && steps + j <= i
      invariant forall p :: p in found <==> Occurs(src, dst, p) && p + n <= i
      invariant forall a, b :: 0 <= a < b < |found| ==> found[a] < found[b]
    {
      StartFalling(dst, src, i, j, n + 1);
      while j > 0 && src[i] != At(dst, j)
        invariant forall k :: 0 <= k < n ==> LongestBorder(dst, k + 1, next[k])
        invariant j <= n && Falling(dst, src, i, j, n + 1) && steps + j <= i
      {
        assert LongestBorder(dst, (j - 1) + 1, next[j - 1]);
        BorderBound(dst, j, next[j - 1]);
        FallBack(dst, src, i, j, n + 1, next[j - 1]);
        j := next[j - 1];
        steps := steps + 1;
      }
      Advance(dst, src, i, j, n + 1);
      if src[i] == At(dst, j) { j := j + 1; }
      Reported(src, dst, i + 1, j);
      ghost var before := found;
      assert forall a :: 0 <= a < |before| ==> before[a] in before;
      if j == n {
        found := found + [i - n + 1];
      }
      assert forall p :: p in found <==> p in before || (j == n && p == i + 1 - n);
    }
  }

  lemma Reported(src: seq<Char>, dst: seq<Char>, e: nat, j: nat)
    requires Longest(dst, src, e, j, |dst| + 1)
    ensures j == |dst| <==> Occurs(src, dst, e - |dst|)
  {
    var p := e - |dst|;
    if Occurs(src, dst, p) {
      assert forall k :: p <= k < e ==> src[k] == src[p..e][k - p];
      assert Ends(dst, src, e, |dst|);
    }
  }
}
