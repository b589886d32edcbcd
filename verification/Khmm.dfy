/** The scaled forward and backward algorithms of klib/khmm.c, and posterior probabilities. */
module Khmm {
  import opened KhmmModel

  // ------------------------------------------------------------------
  // What the tables hold
  // ------------------------------------------------------------------

  function Div(v: Vec, c: real): (w: Vec)
    requires c != 0.0
    ensures |w| == |v| && forall i :: 0 <= i < |v| ==> w[i] == v[i] / c
  {
    seq(|v|, i requires 0 <= i < |v| => v[i] / c)
  }

  /** One step of the forward algorithm before scaling. */
  function Unscaled(h: Hmm, o: seq<nat>, u: nat, x: Vec): (y: Vec)
    requires Observed(h, o) && 1 <= u <= |o| && |x| == h.n
    ensures |y| == h.n
  {
    if u == 1 then Times(h.a0, Emit(h, o, 1)) else Forth(h, o, u, x)
  }

  /** Row u of the table f. */
  function Fwd(h: Hmm, o: seq<nat>, u: nat): (x: Vec)
    requires Observed(h, o) && u <= |o|
    ensures |x| == h.n
  {
    if u == 0 then Zeros(h.n)
    else
      var y := Unscaled(h, o, u, Fwd(h, o, u - 1));
      if Sum(y) == 0.0 then y else Div(y, Sum(y))
  }

  function Zeros(n: nat): (v: Vec)
    ensures |v| == n
  {
    seq(n, _ => 0.0)
  }

  /** The factor s[u]. */
  function Factor(h: Hmm, o: seq<nat>, u: nat): real
    requires Observed(h, o) && 1 <= u <= |o|
  {
    Sum(Unscaled(h, o, u, Fwd(h, o, u - 1)))
  }

  /** s[1] * ... * s[u]. */
  function Prod(h: Hmm, o: seq<nat>, u: nat): real
    requires Observed(h, o) && u <= |o|
  {
    if u == 0 then 1.0 else Prod(h, o, u - 1) * Factor(h, o, u)
  }

  /** s[u] * ... * s[L]. */
  function Tail(h: Hmm, o: seq<nat>, u: nat): real
    requires Observed(h, o) && 1 <= u <= |o| + 1
    decreases |o| + 1 - u
  {
    if u == |o| + 1 then 1.0 else Factor(h, o, u) * Tail(h, o, u + 1)
  }

  /** Row u of the table b. */
  function Bwd(h: Hmm, o: seq<nat>, u: nat): (x: Vec)
    requires Observed(h, o) && 1 <= u <= |o|
    ensures |x| == h.n
    decreases |o| - u
  {
    var y := if u == |o| then Ones(h.n) else Backward(h, o, u, Bwd(h, o, u + 1));
    var c := Factor(h, o, u);
    if c == 0.0 then y else Div(y, c)
  }

  // ------------------------------------------------------------------
  // Scaling
  // ------------------------------------------------------------------

  /** v is c times w. */
  ghost predicate Multiple(v: Vec, c: real, w: Vec) {
    |v| == |w| && forall k :: 0 <= k < |v| ==> v[k] == c * w[k]
  }

  lemma ForthScale(h: Hmm, o: seq<nat>, u: nat, x: Vec, y: Vec, c: real)
    requires Observed(h, o) && 1 < u <= |o| && |x| == |y| == h.n && Multiple(y, c, x)
    ensures Multiple(Forth(h, o, u, y), c, Forth(h, o, u, x))
  {
    forall k | 0 <= k < h.n ensures Forth(h, o, u, y)[k] == c * Forth(h, o, u, x)[k] {
      ForthScaleAt(h, o, u, x, y, c, k);
    }
  }

  lemma ForthScaleAt(h: Hmm, o: seq<nat>, u: nat, x: Vec, y: Vec, c: real, k: nat)
    requires Observed(h, o) && 1 < u <= |o| && |x| == |y| == h.n && k < h.n && forall i :: 0 <= i < h.n ==> y[i] == c * x[i]
    ensures Forth(h, o, u, y)[k] == c * Forth(h, o, u, x)[k]
  {
    var v, w := Inflow(h, x, k), Inflow(h, y, k);
    forall i | 0 <= i < h.n ensures w[i] == c * v[i] { Assoc(c, x[i], h.a[i][k], c * x[i], x[i] * h.a[i][k]); }
    SumScale(v, w, c);
    Swap(Emit(h, o, u)[k], c, Sum(v));
  }

  lemma Swap(a: real, b: real, c: real)
    ensures a * (b * c) == b * (a * c)
  {
  }

  lemma BackwardScale(h: Hmm, o: seq<nat>, u: nat, x: Vec, y: Vec, c: real)
    requires Observed(h, o) && 1 <= u < |o| && |x| == |y| == h.n && Multiple(y, c, x)
    ensures Multiple(Backward(h, o, u, y), c, Backward(h, o, u, x))
  {
    forall k | 0 <= k < h.n ensures Backward(h, o, u, y)[k] == c * Backward(h, o, u, x)[k] {
      BackwardScaleAt(h, o, u, x, y, c, k);
    }
  }

  lemma BackwardScaleAt(h: Hmm, o: seq<nat>, u: nat, x: Vec, y: Vec, c: real, k: nat)
    requires Observed(h, o) && 1 <= u < |o| && |x| == |y| == h.n && k < h.n && Multiple(y, c, x)
    ensures Backward(h, o, u, y)[k] == c * Backward(h, o, u, x)[k]
  {
    OutflowScale(h, o, u, x, y, c, k);
    hide Outflow, Sum, Observed;
    SumMultiple(Outflow(h, o, u, y, k), c, Outflow(h, o, u, x, k));
  }

  lemma OutflowScale(h: Hmm, o: seq<nat>, u: nat, x: Vec, y: Vec, c: real, k: nat)
    requires Observed(h, o) && 1 <= u < |o| && |x| == |y| == h.n && k < h.n && Multiple(y, c, x)
    ensures Multiple(Outflow(h, o, u, y, k), c, Outflow(h, o, u, x, k))
  {
    hide NonNeg;
    var g := Times(Emit(h, o, u + 1), h.a[k]);
    var v, w := Outflow(h, o, u, x, k), Outflow(h, o, u, y, k);
    forall i | 0 <= i < h.n ensures w[i] == c * v[i] { SwapIn(g[i], c, x[i], y[i]); }
  }

  lemma SwapIn(g: real, c: real, x: real, y: real)
    requires y == c * x
    ensures g * y == c * (g * x)
  {
  }

  lemma {:induction false} AlphaNonNeg(h: Hmm, o: seq<nat>, u: nat)
    requires Observed(h, o) && 1 <= u <= |o|
    ensures NonNeg(Alpha(h, o, u))
  {
    if u > 1 {
      var x := Alpha(h, o, u - 1);
      AlphaNonNeg(h, o, u - 1);
      AlphaStep(h, o, u - 1);
      forall k | 0 <= k < h.n ensures Forth(h, o, u, x)[k] >= 0.0 { ForthNonNeg(h, o, u, x, k); }
    }
  }

  lemma ForthNonNeg(h: Hmm, o: seq<nat>, u: nat, x: Vec, k: nat)
    requires Observed(h, o) && 1 < u <= |o| && |x| == h.n && k < h.n && NonNeg(x)
    ensures Forth(h, o, u, x)[k] >= 0.0
  {
    assert NonNeg(Column(h.a, k)) by { forall i | 0 <= i < h.n ensures h.a[i][k] >= 0.0 { assert NonNeg(h.a[i]); } }
    assert NonNeg(Inflow(h, x, k));
    SumNonNeg(Inflow(h, x, k));
  }

  /** If the observations are possible at all, some state is possible at each of them. */
  lemma AlphaPositive(h: Hmm, o: seq<nat>, u: nat)
    requires Observed(h, o) && 1 <= u <= |o| && Total(h, o) > 0.0
    ensures Sum(Alpha(h, o, u)) > 0.0
  {
    hide *;
    AlphaNonNeg(h, o, u);
    TotalIs(h, o, u);
    DotPositive(Alpha(h, o, u), Beta(h, o, u));
  }

  lemma DotPositive(x: Vec, y: Vec)
    requires |x| == |y| && NonNeg(x) && Dot(x, y) > 0.0
    ensures Sum(x) > 0.0
  {
    SumNonNeg(x);
    if Sum(x) == 0.0 { SumZero(Times(x, y)); }
  }

  lemma ScaleStep(y: Vec, x: Vec, c: real, s: real, r: real)
    requires Multiple(x, c, y) && Sum(x) > 0.0 && c > 0.0 && s == Sum(y) && r == c * s
    ensures s > 0.0 && r > 0.0 && Sum(x) == r
    ensures Multiple(x, r, Div(y, s)) && Sum(Div(y, s)) == 1.0
  {
    hide *;
    SumMultiple(x, c, y);
    Positive(c, s, r);
    Restored(x, y, c, s, r);
    SameMultiple(y);
    Restored(y, y, 1.0, s, s);
    SumMultiple(y, s, Div(y, s));
    One(s, Sum(Div(y, s)), Sum(y));
  }

  lemma SumMultiple(x: Vec, c: real, y: Vec)
    requires Multiple(x, c, y)
    ensures Sum(x) == c * Sum(y)
  {
    SumScale(y, x, c);
  }

  lemma SameMultiple(y: Vec)
    ensures Multiple(y, 1.0, y)
  {
  }

  lemma ZeroProduct(s: real, x: real)
    requires s > 0.0 && s * x == 0.0
    ensures x == 0.0
  {
    assert s * (-x) == -(s * x);
    if x > 0.0 { PosProduct(s, x); }
    if x < 0.0 { PosProduct(s, -x); }
  }

  lemma Positive(c: real, s: real, r: real)
    requires c > 0.0 && r > 0.0 && r == c * s
    ensures s > 0.0
  {
  }

  lemma Cancel(c: real, s: real, y: real)
    requires s != 0.0
    ensures (c * s) * (y / s) == c * y
  {
    assert s * (y / s) == y;
    Assoc(c, s, y / s, c * s, s * (y / s));
  }

  lemma One(s: real, z: real, r: real)
    requires s > 0.0 && r == s && r == s * z
    ensures z == 1.0
  {
    assert s * (z - 1.0) == s * z - s;
    ZeroProduct(s, z - 1.0);
  }

  /** The scaled forward table: its rows add up to one, and the factors take it back to the sums
      over paths. */
  lemma {:induction false} Scaling(h: Hmm, o: seq<nat>, u: nat)
    requires Observed(h, o) && 1 <= u <= |o| && Total(h, o) > 0.0
    ensures Factor(h, o, u) > 0.0 && Prod(h, o, u) > 0.0
    ensures Multiple(Alpha(h, o, u), Prod(h, o, u), Fwd(h, o, u))
    ensures Sum(Fwd(h, o, u)) == 1.0 && Sum(Alpha(h, o, u)) == Prod(h, o, u)
  {
    hide *;
    var y := Unscaled(h, o, u, Fwd(h, o, u - 1));
    AlphaPositive(h, o, u);
    if u == 1 {
      ScalingStart(h, o);
    } else {
      Scaling(h, o, u - 1);
      ScalingNext(h, o, u);
    }
    FactorIs(h, o, u);
    ScaleStep(y, Alpha(h, o, u), Prod(h, o, u - 1), Factor(h, o, u), Prod(h, o, u));
    FwdIs(h, o, u);
  }

  lemma PosProduct(x: real, y: real)
    requires x > 0.0 && y > 0.0
    ensures x * y > 0.0
  {
  }

  lemma ScalingStart(h: Hmm, o: seq<nat>)
    requires Observed(h, o)
    ensures Prod(h, o, 0) == 1.0 && Multiple(Alpha(h, o, 1), 1.0, Unscaled(h, o, 1, Fwd(h, o, 0)))
  {
  }

  lemma ScalingNext(h: Hmm, o: seq<nat>, u: nat)
    requires Observed(h, o) && 1 < u <= |o| && Multiple(Alpha(h, o, u - 1), Prod(h, o, u - 1), Fwd(h, o, u - 1))
    ensures Multiple(Alpha(h, o, u), Prod(h, o, u - 1), Unscaled(h, o, u, Fwd(h, o, u - 1)))
  {
    hide *;
    AlphaStep(h, o, u - 1);
    UnscaledIs(h, o, u, Fwd(h, o, u - 1));
    ForthScale(h, o, u, Fwd(h, o, u - 1), Alpha(h, o, u - 1), Prod(h, o, u - 1));
  }

  lemma UnscaledIs(h: Hmm, o: seq<nat>, u: nat, x: Vec)
    requires Observed(h, o) && 1 < u <= |o| && |x| == h.n
    ensures Unscaled(h, o, u, x) == Forth(h, o, u, x)
  {
  }

  lemma FactorIs(h: Hmm, o: seq<nat>, u: nat)
    requires Observed(h, o) && 1 <= u <= |o|
    ensures Factor(h, o, u) == Sum(Unscaled(h, o, u, Fwd(h, o, u - 1)))
    ensures Prod(h, o, u) == Prod(h, o, u - 1) * Factor(h, o, u)
  {
    hide Fwd, Unscaled, Sum, Observed;
  }

  lemma FwdIs(h: Hmm, o: seq<nat>, u: nat)
    requires Observed(h, o) && 1 <= u <= |o| && Factor(h, o, u) != 0.0
    ensures Fwd(h, o, u) == Div(Unscaled(h, o, u, Fwd(h, o, u - 1)), Factor(h, o, u))
  {
    hide Unscaled, Observed;
  }

  lemma {:induction false} ProdTail(h: Hmm, o: seq<nat>, u: nat)
    requires Observed(h, o) && 1 <= u <= |o| + 1
    ensures Prod(h, o, u - 1) * Tail(h, o, u) == Prod(h, o, |o|)
    decreases |o| + 1 - u
  {
    hide *;
    TailEnd(h, o);
    if u <= |o| {
      ProdTail(h, o, u + 1);
      FactorIs(h, o, u);
      TailIs(h, o, u);
      Assoc(Prod(h, o, u - 1), Factor(h, o, u), Tail(h, o, u + 1), Prod(h, o, u), Tail(h, o, u));
    }
  }

  lemma Assoc(a: real, b: real, c: real, ab: real, bc: real)
    requires ab == a * b && bc == b * c
    ensures ab * c == a * bc
  {
  }

  lemma TailEnd(h: Hmm, o: seq<nat>)
    requires Observed(h, o)
    ensures Tail(h, o, |o| + 1) == 1.0
  {
  }

  lemma TailIs(h: Hmm, o: seq<nat>, u: nat)
    requires Observed(h, o) && 1 <= u <= |o|
    ensures Tail(h, o, u) == Factor(h, o, u) * Tail(h, o, u + 1) && Tail(h, o, |o| + 1) == 1.0
  {
    hide Factor, Observed;
  }

  /** The probability of the observations is the product of the factors. */
  lemma ProdTotal(h: Hmm, o: seq<nat>)
    requires Observed(h, o) && Total(h, o) > 0.0
    ensures Prod(h, o, |o|) == Total(h, o)
  {
    hide *;
    EmptyPath(h, o);
    Scaling(h, o, |o|);
    TotalIs(h, o, |o|);
  }

  /** The scaled backward table. */
  lemma {:induction false} BackScaling(h: Hmm, o: seq<nat>, u: nat)
    requires Observed(h, o) && 1 <= u <= |o| && Total(h, o) > 0.0
    ensures Multiple(Beta(h, o, u), Tail(h, o, u), Bwd(h, o, u))
    decreases |o| - u
  {
    hide *;
    Scaling(h, o, u);
    TailIs(h, o, u);
    var c := Factor(h, o, u);
    BetaIs(h, o, u);
    BackStep(h, o, |o|, Ones(h.n), u);
    if u == |o| {
      BwdLast(h, o);
      Restored(Ones(h.n), Ones(h.n), 1.0, c, Tail(h, o, u));
    } else {
      BackScaling(h, o, u + 1);
      BetaIs(h, o, u + 1);
      BwdIs(h, o, u);
      BackwardScale(h, o, u, Bwd(h, o, u + 1), Beta(h, o, u + 1), Tail(h, o, u + 1));
      Restored(Beta(h, o, u), Backward(h, o, u, Bwd(h, o, u + 1)), Tail(h, o, u + 1), c, Tail(h, o, u));
    }
  }

  lemma BwdLast(h: Hmm, o: seq<nat>)
    requires Observed(h, o) && Factor(h, o, |o|) != 0.0
    ensures Bwd(h, o, |o|) == Div(Ones(h.n), Factor(h, o, |o|))
    ensures Multiple(Ones(h.n), 1.0, Ones(h.n))
  {
    hide Factor;
  }

  lemma BwdIs(h: Hmm, o: seq<nat>, u: nat)
    requires Observed(h, o) && 1 <= u < |o| && Factor(h, o, u) != 0.0
    ensures Bwd(h, o, u) == Div(Backward(h, o, u, Bwd(h, o, u + 1)), Factor(h, o, u))
  {
    hide Factor, Observed, Backward;
  }

  /** Dividing by s and multiplying by it again. */
  lemma Restored(x: Vec, y: Vec, c: real, s: real, r: real)
    requires Multiple(x, c, y) && s != 0.0 && r == s * c
    ensures Multiple(x, r, Div(y, s))
  {
    forall k | 0 <= k < |x| ensures x[k] == r * Div(y, s)[k] { Cancel(c, s, y[k]); }
  }

  /** For every observation and state, f * b * s is the share of the paths that are in the state
      there: the posterior probability of the state. */
  lemma Posterior(h: Hmm, o: seq<nat>, u: nat, k: nat)
    requires Observed(h, o) && 1 <= u <= |o| && k < h.n && Total(h, o) > 0.0
    ensures Fwd(h, o, u)[k] * Bwd(h, o, u)[k] * Factor(h, o, u) == PathSum(h, o, [], At(u, k)) / Total(h, o)
  {
    hide *;
    Scaling(h, o, u);
    BackScaling(h, o, u);
    StateSum(h, o, u, k);
    ProdTotal(h, o);
    ProdTail(h, o, u);
    FactorIs(h, o, u);
    MultipleAt(Alpha(h, o, u), Prod(h, o, u), Fwd(h, o, u), k);
    MultipleAt(Beta(h, o, u), Tail(h, o, u), Bwd(h, o, u), k);
    Share(Prod(h, o, u - 1), Factor(h, o, u), Tail(h, o, u), Fwd(h, o, u)[k], Bwd(h, o, u)[k]);
    Quotient(Total(h, o), Fwd(h, o, u)[k] * Bwd(h, o, u)[k] * Factor(h, o, u));
  }

  lemma MultipleAt(v: Vec, c: real, w: Vec, k: nat)
    requires Multiple(v, c, w) && k < |v|
    ensures k < |w| && v[k] == c * w[k]
  {
  }

  lemma Share(p: real, s: real, t: real, f: real, b: real)
    ensures ((p * s) * f) * (t * b) == (p * t) * (f * b * s)
  {
  }

  lemma Quotient(t: real, x: real)
    requires t != 0.0
    ensures (t * x) / t == x
  {
  }

  /** At every observation the posterior probabilities add up to one. */
  lemma PosteriorsAddUp(h: Hmm, o: seq<nat>, u: nat, prob: Vec)
    requires Observed(h, o) && 1 <= u <= |o| && Total(h, o) > 0.0
    requires |prob| == h.n && forall k :: 0 <= k < h.n ==> prob[k] == Fwd(h, o, u)[k] * Bwd(h, o, u)[k] * Factor(h, o, u)
    ensures Sum(prob) == 1.0
  {
    hide *;
    var t := Total(h, o);
    var v := Times(Alpha(h, o, u), Beta(h, o, u));
    forall k | 0 <= k < h.n ensures v[k] == t * prob[k] {
      Posterior(h, o, u, k);
      StateSum(h, o, u, k);
      Product(t, v[k], prob[k]);
    }
    SumScale(prob, v, t);
    TotalIs(h, o, u);
    DotIs(Alpha(h, o, u), Beta(h, o, u));
    One(t, Sum(prob), Sum(v));
  }

  lemma Product(t: real, v: real, x: real)
    requires t != 0.0 && x == v / t
    ensures v == t * x
  {
  }
}
