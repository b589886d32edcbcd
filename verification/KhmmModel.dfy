/** Hidden Markov models over exact real numbers (klib/khmm.c): sums over all state paths, and the
    recurrences that the forward and backward algorithms follow. */
module KhmmModel {
  type Vec = seq<real>

  // ------------------------------------------------------------------
  // Sums
  // ------------------------------------------------------------------

  function Sum(v: Vec): real {
    if v == [] then 0.0 else Sum(v[..|v| - 1]) + v[|v| - 1]
  }

  function Times(x: Vec, y: Vec): (z: Vec)
    requires |x| == |y|
    ensures |z| == |x| && forall i :: 0 <= i < |x| ==> z[i] == x[i] * y[i]
  {
    seq(|x|, i requires 0 <= i < |x| => x[i] * y[i])
  }

  function Dot(x: Vec, y: Vec): real
    requires |x| == |y|
  {
    Sum(Times(x, y))
  }

  lemma {:induction false} SumScale(v: Vec, w: Vec, c: real)
    requires |v| == |w| && forall i :: 0 <= i < |v| ==> w[i] == c * v[i]
    ensures Sum(w) == c * Sum(v)
  {
    if v != [] {
      var n := |v| - 1;
      SumScale(v[..n], w[..n], c);
      Distribute(c, Sum(v[..n]), v[n]);
    }
  }

  lemma Distribute(c: real, x: real, y: real)
    ensures c * (x + y) == c * x + c * y
  {
  }

  lemma {:induction false} SumAdd(u: Vec, v: Vec, w: Vec)
    requires |u| == |v| == |w| && forall i :: 0 <= i < |u| ==> w[i] == u[i] + v[i]
    ensures Sum(w) == Sum(u) + Sum(v)
  {
    if u != [] {
      var n := |u| - 1;
      SumAdd(u[..n], v[..n], w[..n]);
    }
  }

  lemma {:induction false} SumZero(v: Vec)
    requires forall i :: 0 <= i < |v| ==> v[i] == 0.0
    ensures Sum(v) == 0.0
  {
    if v != [] { SumZero(v[..|v| - 1]); }
  }

  predicate NonNeg(v: Vec) { forall i :: 0 <= i < |v| ==> v[i] >= 0.0 }

  lemma {:induction false} SumNonNeg(v: Vec)
    requires NonNeg(v)
    ensures Sum(v) >= 0.0
    ensures Sum(v) == 0.0 ==> forall i :: 0 <= i < |v| ==> v[i] == 0.0
  {
    if v != [] { SumNonNeg(v[..|v| - 1]); }
  }

  /** A sum with one term. */
  lemma {:induction false} SumSingle(v: Vec, k: nat)
    requires k < |v| && forall i :: 0 <= i < |v| && i != k ==> v[i] == 0.0
    ensures Sum(v) == v[k]
  {
    var n := |v| - 1;
    if k < n { SumSingle(v[..n], k); } else { SumZero(v[..n]); }
  }

  function Column(m: seq<Vec>, j: nat): (c: Vec)
    requires forall i :: 0 <= i < |m| ==> j < |m[i]|
    ensures |c| == |m| && forall i :: 0 <= i < |m| ==> c[i] == m[i][j]
  {
    seq(|m|, i requires 0 <= i < |m| => m[i][j])
  }

  /** Adding up a table by rows or by columns. */
  lemma {:induction false} SumSwap(m: seq<Vec>, n: nat, rows: Vec, cols: Vec)
    requires forall i :: 0 <= i < |m| ==> |m[i]| == n
    requires |rows| == |m| && forall i :: 0 <= i < |m| ==> rows[i] == Sum(m[i])
    requires |cols| == n && forall j :: 0 <= j < n ==> cols[j] == Sum(Column(m, j))
    ensures Sum(rows) == Sum(cols)
  {
    if m == [] {
      forall j | 0 <= j < n ensures cols[j] == 0.0 { assert Column(m, j) == []; }
      SumZero(cols);
    } else {
      var k := |m| - 1;
      var cols' := seq(n, j requires 0 <= j < n => Sum(Column(m[..k], j)));
      SumSwap(m[..k], n, rows[..k], cols');
      forall j: nat | j < n ensures cols[j] == cols'[j] + m[k][j] { ColumnLast(m, n, j); }
      hide Column;
      SumAdd(cols', m[k], cols);
    }
  }

  lemma ColumnLast(m: seq<Vec>, n: nat, j: nat)
    requires m != [] && j < n && forall i :: 0 <= i < |m| ==> |m[i]| == n
    ensures Sum(Column(m, j)) == Sum(Column(m[..|m| - 1], j)) + m[|m| - 1][j]
  {
    assert Column(m, j)[..|m| - 1] == Column(m[..|m| - 1], j);
  }

  // ------------------------------------------------------------------
  // The model
  // ------------------------------------------------------------------

  /** n states and m symbols, besides symbol m that stands for no observation: starting, transition
      and emission probabilities. */
  datatype Hmm = Hmm(n: nat, m: nat, a0: Vec, a: seq<Vec>, e: seq<Vec>)

  ghost predicate Valid(h: Hmm) {
    && h.n > 0 && |h.a0| == h.n && NonNeg(h.a0)
    && |h.a| == h.n && (forall k :: 0 <= k < h.n ==> |h.a[k]| == h.n && NonNeg(h.a[k]))
    && |h.e| == h.m + 1 && (forall b :: 0 <= b <= h.m ==> |h.e[b]| == h.n && NonNeg(h.e[b]))
  }

  /** A sequence of observations. Observation u, counted from 1, is o[u - 1]. */
  ghost predicate Observed(h: Hmm, o: seq<nat>) {
    Valid(h) && |o| > 0 && forall i :: 0 <= i < |o| ==> o[i] <= h.m
  }

  /** The emission probabilities for observation u. */
  function Emit(h: Hmm, o: seq<nat>, u: nat): (v: Vec)
    requires Observed(h, o) && 1 <= u <= |o|
    ensures |v| == h.n && NonNeg(v)
  {
    h.e[o[u - 1]]
  }

  // ------------------------------------------------------------------
  // Paths
  // ------------------------------------------------------------------

  predicate IsPath(h: Hmm, o: seq<nat>, p: seq<nat>) {
    |p| <= |o| && forall i :: 0 <= i < |p| ==> p[i] < h.n
  }

  /** The probability of going from state x at observation u to state l, and observing the next symbol. */
  function Edge(h: Hmm, o: seq<nat>, u: nat, x: nat, l: nat): real
    requires Observed(h, o) && 1 <= u < |o| && x < h.n && l < h.n
  {
    h.a[x][l] * Emit(h, o, u + 1)[l]
  }

  /** The probability of running through the states p and observing the first |p| symbols. */
  function Joint(h: Hmm, o: seq<nat>, p: seq<nat>): real
    requires Observed(h, o) && IsPath(h, o, p)
  {
    var m := |p| - 1;
    if |p| == 0 then 1.0
    else if |p| == 1 then h.a0[p[0]] * Emit(h, o, 1)[p[0]]
    else Joint(h, o, p[..m]) * Edge(h, o, m, p[m - 1], p[m])
  }

  /** Which paths are counted: all of them, or those in state k at observation u. */
  datatype Filter = All | At(u: nat, k: nat)

  predicate Passes(w: Filter, p: seq<nat>) {
    w.At? ==> 1 <= w.u <= |p| && p[w.u - 1] == w.k
  }

  /** The sum of the joint probabilities of all state paths of full length that go on from p. */
  function PathSum(h: Hmm, o: seq<nat>, p: seq<nat>, w: Filter): real
    requires Observed(h, o) && IsPath(h, o, p)
    decreases |o| - |p|, 1, 0
  {
    if |p| == |o| then (if Passes(w, p) then Joint(h, o, p) else 0.0)
    else NextSum(h, o, p, w, h.n)
  }

  /** The part of that sum for the first l states that can come next. */
  function NextSum(h: Hmm, o: seq<nat>, p: seq<nat>, w: Filter, l: nat): real
    requires Observed(h, o) && IsPath(h, o, p) && |p| < |o| && l <= h.n
    decreases |o| - |p|, 0, l
  {
    if l == 0 then 0.0 else NextSum(h, o, p, w, l - 1) + PathSum(h, o, p + [l - 1], w)
  }

  /** The probability of the observations: the sum over all n^L state paths. */
  function Total(h: Hmm, o: seq<nat>): real
    requires Observed(h, o)
  {
    PathSum(h, o, [], All)
  }

  lemma {:induction false} NextIs(h: Hmm, o: seq<nat>, p: seq<nat>, w: Filter, l: nat, v: Vec)
    requires Observed(h, o) && IsPath(h, o, p) && |p| < |o| && l <= h.n
    requires |v| == l && forall i: nat :: i < l ==> v[i] == PathSum(h, o, p + [i], w)
    ensures NextSum(h, o, p, w, l) == Sum(v)
  {
    if l > 0 { NextIs(h, o, p, w, l - 1, v[..l - 1]); }
  }

  // ------------------------------------------------------------------
  // Going forward and backward
  // ------------------------------------------------------------------

  /** What flows into state k. */
  function Inflow(h: Hmm, x: Vec, k: nat): (v: Vec)
    requires Valid(h) && |x| == h.n && k < h.n
    ensures |v| == h.n
  {
    Times(x, Column(h.a, k))
  }

  /** One step forward: the inflow of every state, times the emission. */
  function Forth(h: Hmm, o: seq<nat>, u: nat, x: Vec): (y: Vec)
    requires Observed(h, o) && 1 < u <= |o| && |x| == h.n
    ensures |y| == h.n
  {
    seq(h.n, k requires 0 <= k < h.n => Emit(h, o, u)[k] * Sum(Inflow(h, x, k)))
  }

  /** The sum of the joint probabilities of all paths that are in state k at observation u. */
  function Alpha(h: Hmm, o: seq<nat>, u: nat): (x: Vec)
    requires Observed(h, o) && 1 <= u <= |o|
    ensures |x| == h.n
  {
    if u == 1 then Times(h.a0, Emit(h, o, 1)) else Forth(h, o, u, Alpha(h, o, u - 1))
  }

  /** What flows out of state k to the states of observation u + 1, each with a weight. */
  function Outflow(h: Hmm, o: seq<nat>, u: nat, y: Vec, k: nat): (v: Vec)
    requires Observed(h, o) && 1 <= u < |o| && |y| == h.n && k < h.n
    ensures |v| == h.n
  {
    Times(Times(Emit(h, o, u + 1), h.a[k]), y)
  }

  function Backward(h: Hmm, o: seq<nat>, u: nat, y: Vec): (x: Vec)
    requires Observed(h, o) && 1 <= u < |o| && |y| == h.n
    ensures |x| == h.n
  {
    seq(h.n, k requires 0 <= k < h.n => Sum(Outflow(h, o, u, y, k)))
  }

  /** The weights c at observation u, carried back to observation j. */
  function Back(h: Hmm, o: seq<nat>, u: nat, c: Vec, j: nat): (x: Vec)
    requires Observed(h, o) && 1 <= j <= u <= |o| && |c| == h.n
    ensures |x| == h.n
    decreases u - j
  {
    if j == u then c else Backward(h, o, j, Back(h, o, u, c, j + 1))
  }

  function Ones(n: nat): (v: Vec)
    ensures |v| == n
  {
    seq(n, _ => 1.0)
  }

  function Beta(h: Hmm, o: seq<nat>, u: nat): (x: Vec)
    requires Observed(h, o) && 1 <= u <= |o|
    ensures |x| == h.n
  {
    Back(h, o, |o|, Ones(h.n), u)
  }

  /** Row i of the table of all terms x[i] * a[i][j] * e[j] * y[j]. */
  function Terms(h: Hmm, o: seq<nat>, u: nat, x: Vec, y: Vec): (m: seq<Vec>)
    requires Observed(h, o) && 1 <= u < |o| && |x| == |y| == h.n
    ensures |m| == h.n && forall i :: 0 <= i < h.n ==> |m[i]| == h.n
    ensures forall i, j :: 0 <= i < h.n && 0 <= j < h.n ==> m[i][j] == x[i] * Outflow(h, o, u, y, i)[j]
  {
    seq(h.n, i requires 0 <= i < h.n =>
      seq(h.n, j requires 0 <= j < h.n => x[i] * Outflow(h, o, u, y, i)[j]))
  }

  lemma TermRow(h: Hmm, o: seq<nat>, u: nat, x: Vec, y: Vec, i: nat)
    requires Observed(h, o) && 1 <= u < |o| && |x| == |y| == h.n && i < h.n
    ensures Sum(Terms(h, o, u, x, y)[i]) == Times(x, Backward(h, o, u, y))[i]
  {
    SumScale(Outflow(h, o, u, y, i), Terms(h, o, u, x, y)[i], x[i]);
  }

  lemma TermColumn(h: Hmm, o: seq<nat>, u: nat, x: Vec, y: Vec, j: nat)
    requires Observed(h, o) && 1 <= u < |o| && |x| == |y| == h.n && j < h.n
    ensures Sum(Column(Terms(h, o, u, x, y), j)) == Times(Forth(h, o, u + 1, x), y)[j]
  {
    hide Sum, NonNeg;
    var c, f := Column(Terms(h, o, u, x, y), j), Inflow(h, x, j);
    var e := Emit(h, o, u + 1)[j];
    forall i: nat | i < h.n ensures c[i] == (e * y[j]) * f[i] { TermAt(h, o, u, x, y, i, j); }
    SumScale(f, c, e * y[j]);
    Regroup3(e, y[j], Sum(f));
  }

  lemma TermAt(h: Hmm, o: seq<nat>, u: nat, x: Vec, y: Vec, i: nat, j: nat)
    requires Observed(h, o) && 1 <= u < |o| && |x| == |y| == h.n && i < h.n && j < h.n
    ensures Terms(h, o, u, x, y)[i][j] == (Emit(h, o, u + 1)[j] * y[j]) * Inflow(h, x, j)[i]
  {
    hide Sum, NonNeg;
    Regroup(x[i], Emit(h, o, u + 1)[j], h.a[i][j], y[j]);
  }

  lemma Regroup(x: real, e: real, a: real, y: real)
    ensures x * ((e * a) * y) == (e * y) * (x * a)
  {
  }

  lemma Regroup3(e: real, y: real, s: real)
    ensures (e * y) * s == (e * s) * y
  {
  }

  /** A step forward on one side of a product is a step backward on the other. */
  lemma PairStep(h: Hmm, o: seq<nat>, u: nat, x: Vec, y: Vec)
    requires Observed(h, o) && 1 <= u < |o| && |x| == |y| == h.n
    ensures Dot(x, Backward(h, o, u, y)) == Dot(Forth(h, o, u + 1, x), y)
  {
    hide *;
    var rows, cols := Times(x, Backward(h, o, u, y)), Times(Forth(h, o, u + 1, x), y);
    var m := Terms(h, o, u, x, y);
    forall i | 0 <= i < h.n ensures rows[i] == Sum(m[i]) { TermRow(h, o, u, x, y, i); }
    forall j | 0 <= j < h.n ensures cols[j] == Sum(Column(m, j)) { TermColumn(h, o, u, x, y, j); }
    SumSwap(m, h.n, rows, cols);
    DotIs(x, Backward(h, o, u, y));
    DotIs(Forth(h, o, u + 1, x), y);
  }

  lemma DotIs(x: Vec, y: Vec)
    requires |x| == |y|
    ensures Dot(x, y) == Sum(Times(x, y))
  {
  }

  lemma AlphaStep(h: Hmm, o: seq<nat>, u: nat)
    requires Observed(h, o) && 1 <= u < |o|
    ensures Alpha(h, o, u + 1) == Forth(h, o, u + 1, Alpha(h, o, u))
  {
  }

  lemma BackStep(h: Hmm, o: seq<nat>, u: nat, c: Vec, j: nat)
    requires Observed(h, o) && 1 <= j <= u <= |o| && |c| == h.n
    ensures Back(h, o, u, c, u) == c
    ensures j < u ==> Back(h, o, u, c, j) == Backward(h, o, j, Back(h, o, u, c, j + 1))
  {
  }

  /** The product of what has come forward to j and what has been carried back to j is the same at every j. */
  lemma {:induction false} Pairing(h: Hmm, o: seq<nat>, u: nat, c: Vec, j: nat)
    requires Observed(h, o) && 1 <= j <= u <= |o| && |c| == h.n
    ensures Dot(Alpha(h, o, j), Back(h, o, u, c, j)) == Dot(Alpha(h, o, u), c)
    decreases u - j
  {
    hide *;
    BackStep(h, o, u, c, j);
    if j < u {
      Pairing(h, o, u, c, j + 1);
      AlphaStep(h, o, j);
      PairStep(h, o, j, Alpha(h, o, j), Back(h, o, u, c, j + 1));
    }
  }

  lemma PathNext(h: Hmm, o: seq<nat>, p: seq<nat>, l: nat)
    requires Observed(h, o) && IsPath(h, o, p) && 0 < |p| < |o| && l < h.n
    ensures IsPath(h, o, p + [l])
    ensures Joint(h, o, p + [l]) == Joint(h, o, p) * Edge(h, o, |p|, p[|p| - 1], l)
  {
    hide Joint, Edge, Observed;
    var q := p + [l];
    assert q[..|p|] == p && q[|p|] == l && q[|p| - 1] == p[|p| - 1];
    JointLast(h, o, q);
  }

  lemma JointLast(h: Hmm, o: seq<nat>, p: seq<nat>)
    requires Observed(h, o) && IsPath(h, o, p) && 1 < |p|
    ensures var m := |p| - 1;
            IsPath(h, o, p[..m]) && Joint(h, o, p) == Joint(h, o, p[..m]) * Edge(h, o, m, p[m - 1], p[m])
  {
    hide Edge, Observed, Emit;
  }

  /** The weight of the paths that go on from p, all of which the filter treats alike. */
  ghost predicate Going(h: Hmm, o: seq<nat>, p: seq<nat>, w: Filter, y: Vec)
    requires Observed(h, o) && IsPath(h, o, p) && 0 < |p| && |y| == h.n
  {
    PathSum(h, o, p, w) == Joint(h, o, p) * y[p[|p| - 1]]
  }

  lemma GoingBack(h: Hmm, o: seq<nat>, p: seq<nat>, w: Filter, y: Vec)
    requires Observed(h, o) && IsPath(h, o, p) && 0 < |p| < |o| && |y| == h.n
    requires forall l: nat :: l < h.n ==> IsPath(h, o, p + [l]) && Going(h, o, p + [l], w, y)
    ensures Going(h, o, p, w, Backward(h, o, |p|, y))
  {
    hide *;
    assert IsPath(h, o, p);
    LastState(h, o, p);
    var v := NextWeights(h, o, p, w);
    var f := Outflow(h, o, |p|, y, p[|p| - 1]);
    forall l: nat | l < h.n ensures v[l] == Joint(h, o, p) * f[l] {
      assert Going(h, o, p + [l], w, y);
      GoingOne(h, o, p, w, y, l);
    }
    SumScale(f, v, Joint(h, o, p));
    GoingIf(h, o, p, w, y);
  }

  lemma LastState(h: Hmm, o: seq<nat>, p: seq<nat>)
    requires IsPath(h, o, p) && 0 < |p|
    ensures p[|p| - 1] < h.n
  {
  }

  /** The sums for the states that can come next. */
  lemma NextWeights(h: Hmm, o: seq<nat>, p: seq<nat>, w: Filter) returns (v: Vec)
    requires Observed(h, o) && IsPath(h, o, p) && |p| < |o|
    ensures |v| == h.n && forall l: nat :: l < h.n ==> IsPath(h, o, p + [l]) && v[l] == PathSum(h, o, p + [l], w)
    ensures PathSum(h, o, p, w) == Sum(v)
  {
    v := seq(h.n, l requires 0 <= l < h.n => PathSum(h, o, p + [l], w));
    NextIs(h, o, p, w, h.n, v);
  }

  lemma GoingIf(h: Hmm, o: seq<nat>, p: seq<nat>, w: Filter, y: Vec)
    requires Observed(h, o) && IsPath(h, o, p) && 0 < |p| < |o| && |y| == h.n
    requires PathSum(h, o, p, w) == Joint(h, o, p) * Sum(Outflow(h, o, |p|, y, p[|p| - 1]))
    ensures Going(h, o, p, w, Backward(h, o, |p|, y))
  {
  }

  lemma GoingOne(h: Hmm, o: seq<nat>, p: seq<nat>, w: Filter, y: Vec, l: nat)
    requires Observed(h, o) && IsPath(h, o, p) && 0 < |p| < |o| && |y| == h.n && l < h.n
    requires IsPath(h, o, p + [l]) && Going(h, o, p + [l], w, y)
    ensures PathSum(h, o, p + [l], w) == Joint(h, o, p) * Outflow(h, o, |p|, y, p[|p| - 1])[l]
  {
    hide Joint, PathSum, NonNeg;
    PathNext(h, o, p, l);
    Regroup4(Joint(h, o, p), h.a[p[|p| - 1]][l], Emit(h, o, |p| + 1)[l], y[l]);
  }

  lemma Regroup4(j: real, a: real, e: real, y: real)
    ensures (j * (a * e)) * y == j * ((e * a) * y)
  {
  }

  /** All paths that go on from p. */
  lemma {:induction false} GoingAll(h: Hmm, o: seq<nat>, p: seq<nat>)
    requires Observed(h, o) && IsPath(h, o, p) && 0 < |p|
    ensures Going(h, o, p, All, Beta(h, o, |p|))
    decreases |o| - |p|
  {
    if |p| < |o| {
      forall l: nat | l < h.n ensures IsPath(h, o, p + [l]) && Going(h, o, p + [l], All, Beta(h, o, |p| + 1)) {
        GoingAll(h, o, p + [l]);
      }
      BackStep(h, o, |o|, Ones(h.n), |p|);
      GoingBack(h, o, p, All, Beta(h, o, |p| + 1));
    }
  }

  /** Once the filter has been passed or not, all further paths count or none does. */
  lemma {:induction false} GoingPassed(h: Hmm, o: seq<nat>, p: seq<nat>, w: Filter)
    requires Observed(h, o) && IsPath(h, o, p) && 0 < |p| && w.At? && 1 <= w.u <= |p|
    ensures PathSum(h, o, p, w) == if Passes(w, p) then PathSum(h, o, p, All) else 0.0
    decreases |o| - |p|
  {
    if |p| < |o| {
      var v := seq(h.n, l requires 0 <= l < h.n => PathSum(h, o, p + [l], w));
      var v' := seq(h.n, l requires 0 <= l < h.n => PathSum(h, o, p + [l], All));
      forall l: nat | l < h.n ensures v[l] == if Passes(w, p) then v'[l] else 0.0 {
        GoingPassed(h, o, p + [l], w);
      }
      NextIs(h, o, p, w, h.n, v);
      NextIs(h, o, p, All, h.n, v');
      if Passes(w, p) { assert v == v'; } else { SumZero(v); }
    }
  }

  /** The weights that single out state k at observation u. */
  function Only(h: Hmm, o: seq<nat>, u: nat, k: nat): (c: Vec)
    requires Observed(h, o) && 1 <= u <= |o|
    ensures |c| == h.n
  {
    seq(h.n, i requires 0 <= i < h.n => if i == k then Beta(h, o, u)[i] else 0.0)
  }

  lemma {:induction false} GoingAt(h: Hmm, o: seq<nat>, p: seq<nat>, u: nat, k: nat)
    requires Observed(h, o) && IsPath(h, o, p) && 0 < |p| <= u <= |o|
    ensures Going(h, o, p, At(u, k), Back(h, o, u, Only(h, o, u, k), |p|))
    decreases u - |p|
  {
    var c := Only(h, o, u, k);
    BackStep(h, o, u, c, |p|);
    if |p| < u {
      forall l: nat | l < h.n ensures IsPath(h, o, p + [l]) && Going(h, o, p + [l], At(u, k), Back(h, o, u, c, |p| + 1)) {
        GoingAt(h, o, p + [l], u, k);
      }
      GoingBack(h, o, p, At(u, k), Back(h, o, u, c, |p| + 1));
    } else {
      GoingPassed(h, o, p, At(u, k));
      GoingAll(h, o, p);
    }
  }

  /** The sum over all paths, from the weights of the first states. */
  lemma FirstStates(h: Hmm, o: seq<nat>, w: Filter, y: Vec)
    requires Observed(h, o) && |y| == h.n
    requires forall l: nat :: l < h.n ==> IsPath(h, o, [l]) && Going(h, o, [l], w, y)
    ensures PathSum(h, o, [], w) == Dot(Alpha(h, o, 1), y)
  {
    hide *;
    EmptyPath(h, o);
    var v := NextWeights(h, o, [], w);
    forall l: nat | l < h.n ensures v[l] == Times(Alpha(h, o, 1), y)[l] {
      assert [] + [l] == [l] && Going(h, o, [l], w, y);
      FirstState(h, o, w, y, l);
    }
    assert v == Times(Alpha(h, o, 1), y);
    DotIs(Alpha(h, o, 1), y);
  }

  lemma EmptyPath(h: Hmm, o: seq<nat>)
    requires Observed(h, o)
    ensures IsPath(h, o, []) && 0 < |o|
  {
  }

  lemma FirstState(h: Hmm, o: seq<nat>, w: Filter, y: Vec, l: nat)
    requires Observed(h, o) && |y| == h.n && l < h.n && IsPath(h, o, [l]) && Going(h, o, [l], w, y)
    ensures PathSum(h, o, [l], w) == Alpha(h, o, 1)[l] * y[l]
  {
    hide PathSum, NonNeg;
  }

  /** The probability of the observations is the product of what comes forward and what is carried
      back, at any observation; at the last one it is the sum of what has come forward. */
  lemma TotalIs(h: Hmm, o: seq<nat>, u: nat)
    requires Observed(h, o) && 1 <= u <= |o|
    ensures Total(h, o) == Dot(Alpha(h, o, u), Beta(h, o, u))
    ensures Total(h, o) == Sum(Alpha(h, o, |o|))
  {
    hide *;
    BetaIs(h, o, 1);
    BetaIs(h, o, u);
    forall l: nat | l < h.n ensures IsPath(h, o, [l]) && Going(h, o, [l], All, Beta(h, o, 1)) {
      OneState(h, o, l);
      GoingAll(h, o, [l]);
    }
    FirstStates(h, o, All, Beta(h, o, 1));
    Pairing(h, o, |o|, Ones(h.n), 1);
    Pairing(h, o, |o|, Ones(h.n), u);
    DotOnes(Alpha(h, o, |o|));
  }

  lemma BetaIs(h: Hmm, o: seq<nat>, u: nat)
    requires Observed(h, o) && 1 <= u <= |o|
    ensures Beta(h, o, u) == Back(h, o, |o|, Ones(h.n), u) && Total(h, o) == PathSum(h, o, [], All)
    ensures 1 <= |o|
  {
  }

  lemma OneState(h: Hmm, o: seq<nat>, l: nat)
    requires Observed(h, o) && l < h.n
    ensures IsPath(h, o, [l])
  {
  }

  lemma DotOnes(x: Vec)
    ensures Dot(x, Ones(|x|)) == Sum(x)
  {
    assert Times(x, Ones(|x|)) == x;
  }

  lemma DotOnly(h: Hmm, o: seq<nat>, u: nat, k: nat, x: Vec)
    requires Observed(h, o) && 1 <= u <= |o| && k < h.n && |x| == h.n
    ensures Dot(x, Only(h, o, u, k)) == x[k] * Beta(h, o, u)[k]
  {
    SumSingle(Times(x, Only(h, o, u, k)), k);
  }

  /** The sum over the paths that are in state k at observation u. */
  lemma StateSum(h: Hmm, o: seq<nat>, u: nat, k: nat)
    requires Observed(h, o) && 1 <= u <= |o| && k < h.n
    ensures PathSum(h, o, [], At(u, k)) == Alpha(h, o, u)[k] * Beta(h, o, u)[k]
  {
    hide *;
    var c := Only(h, o, u, k);
    forall l: nat | l < h.n ensures IsPath(h, o, [l]) && Going(h, o, [l], At(u, k), Back(h, o, u, c, 1)) {
      OneState(h, o, l);
      GoingAt(h, o, [l], u, k);
    }
    FirstStates(h, o, At(u, k), Back(h, o, u, c, 1));
    Pairing(h, o, u, c, 1);
    DotOnly(h, o, u, k, Alpha(h, o, u));
  }

  lemma {:induction false} JointNonNeg(h: Hmm, o: seq<nat>, p: seq<nat>)
    requires Observed(h, o) && IsPath(h, o, p)
    ensures Joint(h, o, p) >= 0.0
  {
    if |p| == 1 {
      NonNegProduct(h.a0[p[0]], Emit(h, o, 1)[p[0]]);
    } else if |p| > 1 {
      var m := |p| - 1;
      JointNonNeg(h, o, p[..m]);
      EdgeNonNeg(h, o, m, p[m - 1], p[m]);
      NonNegProduct(Joint(h, o, p[..m]), Edge(h, o, m, p[m - 1], p[m]));
    }
  }

  lemma EdgeNonNeg(h: Hmm, o: seq<nat>, u: nat, x: nat, l: nat)
    requires Observed(h, o) && 1 <= u < |o| && x < h.n && l < h.n
    ensures Edge(h, o, u, x, l) >= 0.0
  {
    assert NonNeg(h.a[x]);
    NonNegProduct(h.a[x][l], Emit(h, o, u + 1)[l]);
  }

  lemma NonNegProduct(x: real, y: real)
    requires x >= 0.0 && y >= 0.0
    ensures x * y >= 0.0
  {
  }

  lemma {:induction false} PathSumNonNeg(h: Hmm, o: seq<nat>, p: seq<nat>, w: Filter)
    requires Observed(h, o) && IsPath(h, o, p)
    ensures PathSum(h, o, p, w) >= 0.0
    decreases |o| - |p|
  {
    if |p| == |o| {
      JointNonNeg(h, o, p);
    } else {
      var v := NextWeights(h, o, p, w);
      forall l: nat | l < h.n ensures v[l] >= 0.0 { PathSumNonNeg(h, o, p + [l], w); }
      SumNonNeg(v);
    }
  }
}
