/** Boyer-Moore search (klib/kstring.c): the two shift tables and the search that uses them. */
module BoyerMoore {
  import opened Wrappers

  type byte = x: int | 0 <= x < 256

  // ------------------------------------------------------------------
  // What the tables are for
  // ------------------------------------------------------------------

  /** pat stands at position j of str. */
  ghost predicate MatchAt(str: seq<byte>, pat: seq<byte>, j: int) {
    0 <= j && j + |pat| <= |str| && forall k :: 0 <= k < |pat| ==> pat[k] == str[j + k]
  }

  /** Bytes g+1..i of pat are its last i-g bytes. */
  ghost predicate Suffix(pat: seq<byte>, i: int, g: int) {
    -1 <= g <= i < |pat| && forall k :: g < k <= i ==> pat[k] == pat[k + |pat| - 1 - i]
  }

  /** l is the length of the longest common suffix of pat[..i+1] and pat. */
  ghost predicate LongestSuffix(pat: seq<byte>, i: int, l: int) {
    Suffix(pat, i, i - l) && (l <= i ==> pat[i - l] != pat[|pat| - 1 - l])
  }

  /** Shifting by s keeps what matched to the right of a mismatch at i, and puts another byte at i. */
  ghost predicate Consistent(pat: seq<byte>, i: int, s: int)
    requires 0 <= i < |pat| && 0 <= s
  {
    && (forall k :: i < k < |pat| && s <= k ==> pat[k - s] == pat[k])
    && (s <= i ==> pat[i - s] != pat[i])
  }

  /** s is the least consistent shift for a mismatch at i: the good-suffix rule. */
  ghost predicate GoodSuffix(pat: seq<byte>, i: int, s: int)
    requires 0 <= i < |pat|
  {
    1 <= s <= |pat| && Consistent(pat, i, s) && forall r :: 1 <= r < s ==> !Consistent(pat, i, r)
  }

  /** b is how far byte c is from the end of pat, its last place not counted: the bad-character rule. */
  ghost predicate BadChar(pat: seq<byte>, c: byte, b: int) {
    && 1 <= b <= |pat|
    && (b < |pat| ==> pat[|pat| - 1 - b] == c)
    && forall k :: |pat| - 1 - b < k < |pat| - 1 ==> pat[k] != c
  }

  /** If pat also stands s further on, shifting by s is consistent and long enough for the byte seen. */
  lemma MatchConsistent(str: seq<byte>, pat: seq<byte>, j: nat, i: nat, s: nat, bc: int)
    requires i < |pat| && j + |pat| <= |str|
    requires forall k :: i < k < |pat| ==> pat[k] == str[j + k]
    requires pat[i] != str[j + i]
    requires 1 <= s && MatchAt(str, pat, j + s) && BadChar(pat, str[j + i], bc)
    ensures Consistent(pat, i, s) && s >= bc - |pat| + 1 + i
  {
    forall k | i < k < |pat| && s <= k ensures pat[k - s] == pat[k] {
      assert pat[k - s] == str[j + s + (k - s)];
    }
    if s <= i {
      assert pat[i - s] == str[j + s + (i - s)];
    }
  }

  /** The shift the search makes skips no match. */
  lemma NoMatchSkipped(str: seq<byte>, pat: seq<byte>, j: nat, i: nat, gs: int, bc: int, s: nat)
    requires i < |pat| && j + |pat| <= |str|
    requires forall k :: i < k < |pat| ==> pat[k] == str[j + k]
    requires pat[i] != str[j + i]
    requires GoodSuffix(pat, i, gs) && BadChar(pat, str[j + i], bc)
    requires 1 <= s && (s < gs || s < bc - |pat| + 1 + i)
    ensures !MatchAt(str, pat, j + s)
  {
    if MatchAt(str, pat, j + s) {
      MatchConsistent(str, pat, j, i, s, bc);
    }
  }

  // ------------------------------------------------------------------
  // The tables
  // ------------------------------------------------------------------

  /** preBmBc() */
  method PreBmBc(pat: seq<byte>, bmBc: array<int>)
    requires |pat| > 0 && bmBc.Length == 256
    modifies bmBc
    ensures forall c: byte :: BadChar(pat, c, bmBc[c])
  {
    var m := |pat|;
    for i := 0 to 256
      invariant forall c :: 0 <= c < i ==> bmBc[c] == m
    {
      bmBc[i] := m;
    }
    for i := 0 to m - 1
      invariant forall c: byte :: BadBefore(pat, c, bmBc[c], i)
    {
      bmBc[pat[i]] := m - i - 1;
    }
    forall c: byte ensures BadChar(pat, c, bmBc[c]) {
      assert BadBefore(pat, c, bmBc[c], m - 1);
    }
  }

  ghost predicate BadBefore(pat: seq<byte>, c: byte, b: int, n: int)
    requires n <= |pat|
  {
    && 1 <= b <= |pat|
    && (b < |pat| ==> |pat| - 1 - b < n && pat[|pat| - 1 - b] == c)
    && forall k :: |pat| - 1 - b < k < n ==> pat[k] != c
  }

  /** suffixes() */
  method Suffixes(pat: seq<byte>) returns (suff: array<int>)
    requires |pat| > 0
    ensures fresh(suff) && suff.Length == |pat|
    ensures forall i :: 0 <= i < |pat| ==> LongestSuffix(pat, i, suff[i])
  {
    var m := |pat|;
    suff := new int[m];
    var f, g := 0, m - 1;
    suff[m - 1] := m;
    var i := m - 2;
    while i >= 0
      invariant -1 <= i <= m - 2
      invariant forall k :: i < k < m ==> LongestSuffix(pat, k, suff[k])
      invariant if i == m - 2 then g == m - 1 else i < f <= m - 2 && Suffix(pat, f, g)
    {
      if i > g && suff[i + m - 1 - f] < i - g {
        Copied(pat, i, f, g, suff[i + m - 1 - f]);
        suff[i] := suff[i + m - 1 - f];
      } else {
        if i > g { Kept(pat, i, f, g, suff[i + m - 1 - f]); }
        if i < g { g := i; }
        f := i;
        g := ExtendDown(pat, i, g);
        suff[i] := f - g;
      }
      i := i - 1;
    }
  }

  /** The inner loop of suffixes(). */
  method ExtendDown(pat: seq<byte>, f: nat, g0: int) returns (g: int)
    requires f <= |pat| - 2 && Suffix(pat, f, g0)
    ensures Suffix(pat, f, g) && LongestSuffix(pat, f, f - g)
  {
    g := g0;
    while g >= 0 && pat[g] == pat[g + |pat| - 1 - f]
      invariant Suffix(pat, f, g)
    {
      g := g - 1;
    }
  }

  /** Inside a known match of the suffix, a shorter common suffix found further right is the answer. */
  lemma Copied(pat: seq<byte>, i: nat, f: nat, g: int, l: int)
    requires i < f <= |pat| - 2 && g < i && Suffix(pat, f, g)
    requires LongestSuffix(pat, i + |pat| - 1 - f, l) && l < i - g
    ensures LongestSuffix(pat, i, l)
  {
    var d := |pat| - 1 - f;
    forall k | i - l < k <= i ensures pat[k] == pat[k + |pat| - 1 - i] {
      assert pat[k] == pat[k + d];
      assert pat[k + d] == pat[(k + d) + |pat| - 1 - (i + d)];
    }
    assert pat[i - l] == pat[i - l + d];
    assert pat[(i + d) - l] != pat[|pat| - 1 - l];
  }

  /** A longer one shows that the match reaches at least down to g. */
  lemma Kept(pat: seq<byte>, i: nat, f: nat, g: int, l: int)
    requires i < f <= |pat| - 2 && g < i && Suffix(pat, f, g)
    requires LongestSuffix(pat, i + |pat| - 1 - f, l) && l >= i - g
    ensures Suffix(pat, i, g)
  {
    var d := |pat| - 1 - f;
    forall k | g < k <= i ensures pat[k] == pat[k + |pat| - 1 - i] {
      assert pat[k] == pat[k + d];
      assert pat[k + d] == pat[(k + d) + |pat| - 1 - (i + d)];
    }
  }

  /** s > j is consistent for j just when pat has a border of length m - s. */
  ghost predicate Border(pat: seq<byte>, s: int) {
    0 < s <= |pat| && forall k :: s <= k < |pat| ==> pat[k - s] == pat[k]
  }

  lemma BorderConsistent(pat: seq<byte>, j: int, s: int)
    requires 0 <= j < s && 0 <= j < |pat|
    ensures s <= |pat| ==> (Consistent(pat, j, s) <==> Border(pat, s))
  {
  }

  /** A border of length i+1 is a prefix that is its own longest common suffix with pat. */
  lemma BorderSuffix(pat: seq<byte>, i: nat, l: int)
    requires i < |pat| && LongestSuffix(pat, i, l)
    ensures l == i + 1 <==> Border(pat, |pat| - 1 - i) || i == |pat| - 1
  {
    var m := |pat|;
    var s := m - 1 - i;
    if l == i + 1 && s > 0 {
      forall k | s <= k < m ensures pat[k - s] == pat[k] {
        assert pat[k - s] == pat[(k - s) + m - 1 - i];
      }
    }
    if l <= i {
      assert pat[(m - 1 - l) - s] != pat[m - 1 - l];
    }
  }

  /** For s <= j, s is consistent for a mismatch at j just when exactly m-1-j bytes match at m-1-s. */
  lemma InnerConsistent(pat: seq<byte>, j: nat, s: nat, l: int)
    requires 1 <= s <= j < |pat| && LongestSuffix(pat, |pat| - 1 - s, l)
    ensures Consistent(pat, j, s) <==> l == |pat| - 1 - j
  {
    var m := |pat|;
    var i := m - 1 - s;
    if l < m - 1 - j {
      assert pat[(m - 1 - l) - s] != pat[m - 1 - l];
    }
    if l > m - 1 - j {
      assert pat[j - s] == pat[(j - s) + m - 1 - i];
    }
    if l == m - 1 - j {
      forall k | j < k < m && s <= k ensures pat[k - s] == pat[k] {
        assert pat[k - s] == pat[(k - s) + m - 1 - i];
      }
    }
  }

  /** v is the least shift greater than j that is consistent for j. */
  ghost predicate LeastAbove(pat: seq<byte>, j: int, v: int) {
    j < v && Border(pat, v) && forall r :: j < r < v ==> !Border(pat, r)
  }

  /** The first two loops of preBmGs(): shifts that move pat past the mismatch. */
  method PreBmGsOuter(pat: seq<byte>, suff: array<int>, bmGs: array<int>)
    requires |pat| > 0 && suff.Length == |pat| == bmGs.Length && suff != bmGs
    requires forall i :: 0 <= i < |pat| ==> LongestSuffix(pat, i, suff[i])
    modifies bmGs
    ensures forall p :: 0 <= p < |pat| ==> LeastAbove(pat, p, bmGs[p])
  {
    var m := |pat|;
    for i := 0 to m
      invariant forall p :: 0 <= p < i ==> bmGs[p] == m
    {
      bmGs[i] := m;
    }
    var j := 0;
    var i := m - 1;
    while i >= 0
      invariant -1 <= i <= m - 1 && 0 <= j <= m && (i < m - 1 ==> j < m - 1 - i)
      invariant j <= m - 1 - i
      invariant forall p :: 0 <= p < j ==> LeastAbove(pat, p, bmGs[p])
      invariant forall p :: j <= p < m ==> bmGs[p] == m
      invariant forall r :: j < r < m - 1 - i ==> !Border(pat, r)
    {
      BorderSuffix(pat, i, suff[i]);
      if suff[i] == i + 1 {
        while j < m - 1 - i
          invariant j <= m - 1 - i
          invariant forall p :: 0 <= p < j ==> LeastAbove(pat, p, bmGs[p])
          invariant forall p :: j <= p < m ==> bmGs[p] == m
          invariant forall r :: j < r < m - 1 - i ==> !Border(pat, r)
        {
          if bmGs[j] == m { bmGs[j] := m - 1 - i; }
          j := j + 1;
        }
      }
      i := i - 1;
    }
  }

  /** Of the shifts at least b, and of those that move pat past j, v is the least consistent one. */
  ghost predicate LeastFrom(pat: seq<byte>, j: int, v: int, b: int)
    requires 0 <= j < |pat|
  {
    && 1 <= v <= |pat| && Consistent(pat, j, v)
    && forall r :: 1 <= r < v && (b <= r || j < r) ==> !Consistent(pat, j, r)
  }

  /** preBmGs() */
  method PreBmGs(pat: seq<byte>, suff: array<int>, bmGs: array<int>)
    requires |pat| > 0 && suff.Length == |pat| == bmGs.Length && suff != bmGs
    requires forall i :: 0 <= i < |pat| ==> LongestSuffix(pat, i, suff[i])
    modifies bmGs
    ensures forall p :: 0 <= p < |pat| ==> GoodSuffix(pat, p, bmGs[p])
  {
    var m := |pat|;
    PreBmGsOuter(pat, suff, bmGs);
    forall p | 0 <= p < m ensures LeastFrom(pat, p, bmGs[p], m) {
      AboveFrom(pat, p, bmGs[p]);
    }
    for i := 0 to m - 1
      invariant forall p :: 0 <= p < m ==> LeastFrom(pat, p, bmGs[p], m - i)
    {
      assert LongestSuffix(pat, i, suff[i]);
      ghost var was := bmGs[..];
      bmGs[m - 1 - suff[i]] := m - 1 - i;
      forall p | 0 <= p < m ensures LeastFrom(pat, p, bmGs[p], m - 1 - i) {
        StepFrom(pat, p, was[p], m - 1 - i, suff[i]);
      }
    }
    forall p | 0 <= p < m ensures GoodSuffix(pat, p, bmGs[p]) {
      assert LeastFrom(pat, p, bmGs[p], 1);
    }
  }

  lemma AboveFrom(pat: seq<byte>, p: nat, v: int)
    requires p < |pat| && LeastAbove(pat, p, v)
    ensures LeastFrom(pat, p, v, |pat|)
  {
    BorderConsistent(pat, p, v);
    forall r | 1 <= r < v && (|pat| <= r || p < r) ensures !Consistent(pat, p, r) {
      BorderConsistent(pat, p, r);
    }
  }

  /** One round of the last loop of preBmGs(), for the shift s and its longest suffix l. */
  lemma StepFrom(pat: seq<byte>, p: nat, v: int, s: nat, l: int)
    requires p < |pat| && 1 <= s < |pat| && LongestSuffix(pat, |pat| - 1 - s, l)
    requires LeastFrom(pat, p, v, s + 1)
    ensures LeastFrom(pat, p, if p == |pat| - 1 - l then s else v, s)
  {
    BorderSuffix(pat, |pat| - 1 - s, l);
    if s <= p {
      InnerConsistent(pat, p, s, l);
    } else {
      BorderConsistent(pat, p, s);
    }
  }

  // ------------------------------------------------------------------
  // The search
  // ------------------------------------------------------------------

  /** The two tables of `ksBM_prep`, which the source keeps in one block. */
  datatype Prep = Prep(bmGs: array<int>, bmBc: array<int>)

  ghost predicate Prepared(pat: seq<byte>, prep: Prep)
    reads prep.bmGs, prep.bmBc
  {
    && prep.bmGs.Length == |pat| && prep.bmBc.Length == 256
    && (forall i :: 0 <= i < |pat| ==> GoodSuffix(pat, i, prep.bmGs[i]))
    && (forall c: byte :: BadChar(pat, c, prep.bmBc[c]))
  }

  /** `ksBM_prep` */
  method KsBMPrep(pat: seq<byte>) returns (prep: Prep)
    requires |pat| > 0
    ensures fresh(prep.bmGs) && fresh(prep.bmBc) && Prepared(pat, prep)
  {
    var bmGs, bmBc := new int[|pat|], new int[256];
    PreBmBc(pat, bmBc);
    var suff := Suffixes(pat);
    PreBmGs(pat, suff, bmGs);
    prep := Prep(bmGs, bmBc);
  }

  /** r is the leftmost place of pat in str, or None when there is none. */
  ghost predicate Leftmost(str: seq<byte>, pat: seq<byte>, r: Option<nat>) {
    match r
    case Some(j) => MatchAt(str, pat, j) && forall p :: 0 <= p < j ==> !MatchAt(str, pat, p)
    case None => forall p :: !MatchAt(str, pat, p)
  }

  /** With pat at position j the first difference, from the right, is at its byte i. */
  ghost predicate Differs(str: seq<byte>, pat: seq<byte>, j: nat, i: nat) {
    && i < |pat| && j + |pat| <= |str| && pat[i] != str[j + i]
    && forall k :: i < k < |pat| ==> pat[k] == str[j + k]
  }

  /** After position j comes the one that the better of the two rules leads to. */
  ghost predicate Jumps(str: seq<byte>, pat: seq<byte>, j: nat, next: int) {
    exists i: nat, gs: int, bc: int :: JumpsFrom(str, pat, j, next, i, gs, bc)
  }

  ghost predicate JumpsFrom(str: seq<byte>, pat: seq<byte>, j: nat, next: int, i: nat, gs: int, bc: int) {
    && Differs(str, pat, j, i) && GoodSuffix(pat, i, gs) && BadChar(pat, str[j + i], bc)
    && next == j + if gs > bc - |pat| + 1 + i then gs else bc - |pat| + 1 + i
  }

  /** The positions tried, one after another, up to position next, which comes after the last. */
  ghost predicate Trail(str: seq<byte>, pat: seq<byte>, tried: seq<nat>, next: int) {
    if tried == [] then next == 0
    else
      var n := |tried| - 1;
      Jumps(str, pat, tried[n], next) && Trail(str, pat, tried[..n], tried[n])
  }

  /** The search of `kmemmem`; tried are the positions where pat has been held against str in vain. */
  method Search(str: seq<byte>, pat: seq<byte>, prep: Prep) returns (r: Option<nat>, ghost tried: seq<nat>)
    requires |pat| > 0 && Prepared(pat, prep)
    ensures Leftmost(str, pat, r)
    ensures match r
            case Some(j) => Trail(str, pat, tried, j)
            case None => exists j :: Trail(str, pat, tried, j) && j > |str| - |pat|
  {
    hide Trail, Jumps, GoodSuffix, BadChar, MatchAt, Differs;
    var n, m := |str|, |pat|;
    var j := 0;
    tried := [];
    NoTrail(str, pat);
    while j <= n - m
      invariant 0 <= j && Trail(str, pat, tried, j)
      invariant forall p :: 0 <= p < j ==> !MatchAt(str, pat, p)
      decreases n - j
    {
      var i := m - 1;
      while i >= 0 && pat[i] == str[i + j]
        invariant -1 <= i < m
        invariant forall k :: i < k < m ==> pat[k] == str[j + k]
      {
        i := i - 1;
      }
      if i >= 0 {
        var max := prep.bmBc[str[i + j]] - m + 1 + i;
        if max < prep.bmGs[i] { max := prep.bmGs[i]; }
        assert Differs(str, pat, j, i) by { DiffersIf(str, pat, j, i); }
        Advance(str, pat, j, i, prep.bmGs[i], prep.bmBc[str[i + j]], max);
        TrailNext(str, pat, tried, j, j + max);
        tried := tried + [j];
        j := j + max;
      } else {
        FoundHere(str, pat, j);
        return Some(j), tried;
      }
    }
    NoneBeyond(str, pat, j);
    return None, tried;
  }

  lemma NoTrail(str: seq<byte>, pat: seq<byte>)
    ensures Trail(str, pat, [], 0)
  {
  }

  lemma DiffersIf(str: seq<byte>, pat: seq<byte>, j: nat, i: nat)
    requires i < |pat| && j + |pat| <= |str| && pat[i] != str[j + i] && forall k :: i < k < |pat| ==> pat[k] == str[j + k]
    ensures Differs(str, pat, j, i)
  {
  }

  lemma FoundHere(str: seq<byte>, pat: seq<byte>, j: nat)
    requires j + |pat| <= |str| && forall k :: 0 <= k < |pat| ==> pat[k] == str[j + k]
    ensures MatchAt(str, pat, j)
  {
  }

  lemma NoneBeyond(str: seq<byte>, pat: seq<byte>, j: nat)
    requires j > |str| - |pat|
    ensures forall p :: p >= j ==> !MatchAt(str, pat, p)
    ensures forall p :: p < 0 ==> !MatchAt(str, pat, p)
  {
  }

  /** The shift goes on, skips no match, and is the one that the rules give. */
  lemma Advance(str: seq<byte>, pat: seq<byte>, j: nat, i: nat, gs: int, bc: int, max: int)
    requires Differs(str, pat, j, i) && GoodSuffix(pat, i, gs) && BadChar(pat, str[j + i], bc)
    requires max == if bc - |pat| + 1 + i < gs then gs else bc - |pat| + 1 + i
    ensures max >= 1 && Jumps(str, pat, j, j + max)
    ensures forall p :: j <= p < j + max ==> !MatchAt(str, pat, p)
  {
    hide Consistent;
    assert JumpsFrom(str, pat, j, j + max, i, gs, bc);
    forall p | j < p < j + max ensures !MatchAt(str, pat, p) {
      NoMatchSkipped(str, pat, j, i, gs, bc, p - j);
    }
  }

  lemma TrailNext(str: seq<byte>, pat: seq<byte>, tried: seq<nat>, j: nat, next: int)
    requires Trail(str, pat, tried, j) && Jumps(str, pat, j, next)
    ensures Trail(str, pat, tried + [j], next)
  {
    assert (tried + [j])[..|tried|] == tried;
  }

  /** `kmemmem`: when no tables are given they are made first, and handed back for the next call. */
  method Kmemmem(str: seq<byte>, pat: seq<byte>, given: Option<Prep>) returns (r: Option<nat>, prep: Prep, ghost tried: seq<nat>)
    requires |pat| > 0 && (given.Some? ==> Prepared(pat, given.value))
    ensures Leftmost(str, pat, r)
    ensures Prepared(pat, prep)
    ensures match r
            case Some(j) => Trail(str, pat, tried, j)
            case None => exists j :: Trail(str, pat, tried, j) && j > |str| - |pat|
  {
    if given.None? { prep := KsBMPrep(pat); } else { prep := given.value; }
    r, tried := Search(str, pat, prep);
  }
}
