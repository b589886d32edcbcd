/** The tables that klib/khmm.c keeps for a sequence of observations, and the loops that fill them. */
module KhmmData {
  import opened Arithmetic
  import opened KhmmModel
  import opened Khmm

  /** The innermost loops: the sum of the products of two rows. */
  method InnerProduct(x: Vec, y: Vec) returns (t: real)
    requires |x| == |y|
    ensures t == Dot(x, y)
  {
    t := 0.0;
    ghost var z := Times(x, y);
    for l := 0 to |x|
      invariant t == Sum(z[..l])
    {
      assert z[..l + 1][..l] == z[..l];
      t := t + x[l] * y[l];
    }
    assert z[..|z|] == z;
  }

  method Divide(row: array<real>, c: real)
    requires c != 0.0
    modifies row
    ensures row[..] == Div(old(row[..]), c)
  {
    for k := 0 to row.Length
      invariant forall i :: 0 <= i < k ==> row[i] == old(row[i]) / c
      invariant forall i :: k <= i < row.Length ==> row[i] == old(row[i])
    {
      row[k] := row[k] / c;
    }
  }

  method Transpose(h: Hmm) returns (at: seq<Vec>)
    requires Valid(h)
    ensures |at| == h.n && forall k :: 0 <= k < h.n ==> at[k] == Column(h.a, k)
  {
    at := [];
    for k := 0 to h.n
      invariant |at| == k && forall j :: 0 <= j < k ==> at[j] == Column(h.a, j)
    {
      var row := new real[h.n];
      for l := 0 to h.n
        invariant forall i :: 0 <= i < l ==> row[i] == h.a[i][k]
      {
        row[l] := h.a[l][k];
      }
      assert row[..] == Column(h.a, k);
      at := at + [row[..]];
    }
  }

  /** The first row, and its sum. */
  method FirstRow(h: Hmm, o: seq<nat>) returns (row: array<real>, sum: real)
    requires Observed(h, o)
    ensures fresh(row) && row[..] == Times(h.a0, Emit(h, o, 1)) && sum == Sum(row[..])
  {
    hide *;
    Started(h, o);
    ghost var y := Times(h.a0, Emit(h, o, 1));
    row := new real[h.n];
    sum := 0.0;
    SumNone(y);
    for k := 0 to h.n
      invariant row.Length == h.n && row[..k] == y[..k] && sum == Sum(y[..k])
    {
      FirstAt(h, o, k);
      SumNext(y, k);
      row[k] := h.a0[k] * h.e[o[0]][k];
      assert row[..k + 1] == row[..k] + [row[k]];
      sum := sum + row[k];
    }
    assert row[..] == row[..h.n] && y == y[..h.n];
  }

  lemma Started(h: Hmm, o: seq<nat>)
    requires Observed(h, o)
    ensures |o| > 0 && |h.a0| == h.n
  {
  }

  lemma SumNone(y: Vec)
    ensures Sum(y[..0]) == 0.0
  {
  }

  lemma SumNext(y: Vec, k: nat)
    requires k < |y|
    ensures y[..k + 1] == y[..k] + [y[k]] && Sum(y[..k + 1]) == Sum(y[..k]) + y[k]
  {
    assert y[..k + 1][..k] == y[..k];
  }

  lemma FirstAt(h: Hmm, o: seq<nat>, k: nat)
    requires Observed(h, o) && k < h.n
    ensures |o| > 0 && |h.a0| == h.n && o[0] < |h.e| && |h.e[o[0]]| == h.n
    ensures Times(h.a0, Emit(h, o, 1))[k] == h.a0[k] * h.e[o[0]][k]
  {
  }

  /** One row of the forward table before scaling, and its sum. */
  method NextRow(h: Hmm, o: seq<nat>, u: nat, at: seq<Vec>, prev: Vec) returns (row: array<real>, sum: real)
    requires Observed(h, o) && 1 < u <= |o| && |prev| == h.n
    requires |at| == h.n && forall k :: 0 <= k < h.n ==> at[k] == Column(h.a, k)
    ensures fresh(row) && row[..] == Forth(h, o, u, prev) && sum == Sum(row[..])
  {
    hide *;
    ghost var y := Forth(h, o, u, prev);
    row := new real[h.n];
    sum := 0.0;
    SumNone(y);
    for k := 0 to h.n
      invariant row.Length == h.n && row[..k] == y[..k] && sum == Sum(y[..k])
    {
      ColumnSize(h, o, u, k);
      var tmp := InnerProduct(prev, at[k]);
      ForthAt(h, o, u, prev, k, tmp);
      SumNext(y, k);
      row[k] := h.e[o[u - 1]][k] * tmp;
      assert row[..k + 1] == row[..k] + [row[k]];
      sum := sum + row[k];
    }
    assert row[..] == row[..h.n] && y == y[..h.n];
  }

  lemma ColumnSize(h: Hmm, o: seq<nat>, u: nat, k: nat)
    requires Observed(h, o) && 1 < u <= |o| && k < h.n
    ensures o[u - 1] < |h.e| && |h.e[o[u - 1]]| == h.n
    ensures |h.a| == h.n && forall i :: 0 <= i < |h.a| ==> k < |h.a[i]|
  {
  }

  lemma ForthAt(h: Hmm, o: seq<nat>, u: nat, x: Vec, k: nat, t: real)
    requires Observed(h, o) && 1 < u <= |o| && |x| == h.n && k < h.n && t == Dot(x, Column(h.a, k))
    ensures Forth(h, o, u, x)[k] == h.e[o[u - 1]][k] * t
  {
  }

  /** Row k of block b of the table that `hmm_pre_backward` makes. */
  function Place(h: Hmm, b: nat, k: nat): nat { b * h.n + k }

  ghost predicate Prepared(h: Hmm, ae: seq<Vec>, n: nat)
    requires Valid(h)
  {
    forall b: nat, k: nat :: b <= h.m && k < h.n && Place(h, b, k) < n ==>
      Place(h, b, k) < |ae| && ae[Place(h, b, k)] == Times(h.e[b], h.a[k])
  }

  lemma PreparedNext(h: Hmm, ae: seq<Vec>, b: nat, k: nat)
    requires Valid(h) && b <= h.m && k < h.n && Prepared(h, ae, Place(h, b, k)) && |ae| == Place(h, b, k)
    ensures Prepared(h, ae + [Times(h.e[b], h.a[k])], Place(h, b, k) + 1)
  {
    forall b': nat, k': nat | b' <= h.m && k' < h.n && Place(h, b', k') == Place(h, b, k) ensures b' == b && k' == k {
      DivUnique(Place(h, b, k), h.n, b, k);
      DivUnique(Place(h, b', k'), h.n, b', k');
    }
  }

  lemma PreparedNone(h: Hmm)
    requires Valid(h)
    ensures Prepared(h, [], 0) && Place(h, 0, 0) == 0
  {
  }

  lemma PlaceNext(h: Hmm, b: nat, k: nat)
    ensures Place(h, b, k + 1) == Place(h, b, k) + 1
  {
  }

  lemma PlaceBound(h: Hmm, b: nat, k: nat)
    requires b <= h.m && k < h.n
    ensures Place(h, b, k) < Place(h, h.m + 1, 0) && Place(h, b, h.n) == Place(h, b + 1, 0)
  {
    assert (b + 1) * h.n <= (h.m + 1) * h.n;
    assert (b + 1) * h.n == b * h.n + h.n;
  }

  /** `hmm_pre_backward` */
  method PreBackward(h: Hmm) returns (ae: seq<Vec>)
    requires Valid(h)
    ensures Prepared(h, ae, |ae|) && |ae| == Place(h, h.m + 1, 0)
  {
    hide Prepared, Place;
    ae := [];
    PreparedNone(h);
    for b := 0 to h.m + 1
      invariant |ae| == Place(h, b, 0) && Prepared(h, ae, |ae|)
    {
      for k := 0 to h.n
        invariant |ae| == Place(h, b, k) && Prepared(h, ae, |ae|)
      {
        var p := new real[h.n];
        for l := 0 to h.n
          invariant forall i :: 0 <= i < l ==> p[i] == h.e[b][i] * h.a[k][i]
        {
          p[l] := h.e[b][l] * h.a[k][l];
        }
        assert p[..] == Times(h.e[b], h.a[k]);
        PreparedNext(h, ae, b, k);
        PlaceNext(h, b, k);
        ae := ae + [p[..]];
      }
      PlaceBound(h, b, 0);
    }
  }

  /** One row of the backward table, where c is s[u]. */
  method PrevRow(h: Hmm, o: seq<nat>, u: nat, ae: seq<Vec>, next: Vec, c: real) returns (row: array<real>)
    requires Observed(h, o) && 1 <= u < |o| && |next| == h.n && c != 0.0
    requires Prepared(h, ae, |ae|) && |ae| == Place(h, h.m + 1, 0)
    ensures fresh(row) && row[..] == Div(Backward(h, o, u, next), c)
  {
    hide *;
    ghost var y := Div(Backward(h, o, u, next), c);
    row := new real[h.n];
    for k := 0 to h.n
      invariant row.Length == h.n && row[..k] == y[..k]
    {
      ReadsRow(h, o, u, ae, k);
      var tmp := InnerProduct(ae[o[u] * h.n + k], next);
      BackAt(h, o, u, next, k, tmp);
      row[k] := tmp / c;
      assert row[..k + 1] == row[..k] + [row[k]] && y[..k + 1] == y[..k] + [y[k]];
    }
    assert row[..] == row[..h.n] && y == y[..h.n];
  }

  lemma ReadsRow(h: Hmm, o: seq<nat>, u: nat, ae: seq<Vec>, k: nat)
    requires Observed(h, o) && 1 <= u < |o| && k < h.n && Prepared(h, ae, |ae|) && |ae| == Place(h, h.m + 1, 0)
    ensures 0 <= o[u] * h.n + k < |ae|
    ensures ae[o[u] * h.n + k] == Times(Emit(h, o, u + 1), h.a[k]) && |h.a| == h.n && |h.a[k]| == h.n
  {
    PlaceBound(h, o[u], k);
    assert Place(h, o[u], k) == o[u] * h.n + k;
  }

  lemma BackAt(h: Hmm, o: seq<nat>, u: nat, y: Vec, k: nat, t: real)
    requires Observed(h, o) && 1 <= u < |o| && |y| == h.n && k < h.n && t == Dot(Times(Emit(h, o, u + 1), h.a[k]), y)
    ensures Backward(h, o, u, y)[k] == t
  {
  }

  method LastRow(h: Hmm, c: real) returns (row: array<real>)
    requires c != 0.0
    ensures fresh(row) && row[..] == Div(Ones(h.n), c)
  {
    row := new real[h.n];
    for k := 0 to h.n
      invariant forall i :: 0 <= i < k ==> row[i] == 1.0 / c
    {
      row[k] := 1.0 / c;
    }
  }

  /** The check at the end of `hmm_backward`. */
  method Check(h: Hmm, o: seq<nat>, y: Vec) returns (tmp: real)
    requires Observed(h, o) && |y| == h.n
    ensures tmp == Dot(Alpha(h, o, 1), y)
  {
    hide *;
    Started(h, o);
    tmp := 0.0;
    ghost var z := Times(Alpha(h, o, 1), y);
    SumNone(z);
    for l := 0 to h.n
      invariant tmp == Sum(z[..l])
    {
      SumNext(z, l);
      CheckAt(h, o, y, l);
      tmp := tmp + h.a0[l] * y[l] * h.e[o[0]][l];
    }
    assert z[..h.n] == z;
    DotIs(Alpha(h, o, 1), y);
  }

  lemma CheckAt(h: Hmm, o: seq<nat>, y: Vec, l: nat)
    requires Observed(h, o) && |y| == h.n && l < h.n
    ensures |o| > 0 && o[0] < |h.e| && |h.e[o[0]]| == h.n && |h.a0| == h.n
    ensures Times(Alpha(h, o, 1), y)[l] == h.a0[l] * y[l] * h.e[o[0]][l]
  {
    Commute(h.a0[l], Emit(h, o, 1)[l], y[l]);
  }

  lemma Commute(a: real, e: real, y: real)
    ensures (a * e) * y == a * y * e
  {
  }

  /** What the check finds: the product of the first forward and backward rows is one. */
  lemma CheckOne(h: Hmm, o: seq<nat>)
    requires Observed(h, o) && Total(h, o) > 0.0
    ensures Dot(Alpha(h, o, 1), Bwd(h, o, 1)) == 1.0
  {
    hide *;
    Started(h, o);
    TotalIs(h, o, 1);
    BackScaling(h, o, 1);
    ProdTail(h, o, 1);
    ProdTotal(h, o);
    ProdNone(h, o);
    var x, t := Alpha(h, o, 1), Tail(h, o, 1);
    DotIs(x, Beta(h, o, 1));
    DotIs(x, Bwd(h, o, 1));
    TimesMultiple(x, Beta(h, o, 1), Bwd(h, o, 1), t);
    SumMultiple(Times(x, Beta(h, o, 1)), t, Times(x, Bwd(h, o, 1)));
    One(Total(h, o), Dot(x, Bwd(h, o, 1)), Total(h, o));
  }

  lemma ProdNone(h: Hmm, o: seq<nat>)
    requires Observed(h, o)
    ensures Prod(h, o, 0) == 1.0
  {
  }

  lemma TimesMultiple(x: Vec, v: Vec, w: Vec, c: real)
    requires |x| == |v| && Multiple(v, c, w)
    ensures Multiple(Times(x, v), c, Times(x, w))
  {
    forall k | 0 <= k < |x| ensures Times(x, v)[k] == c * Times(x, w)[k] { SwapIn(x[k], c, w[k], v[k]); }
  }

  // ------------------------------------------------------------------
  // The data of one sequence
  // ------------------------------------------------------------------

  class HmmData {
    const o: seq<nat>
    var f: seq<Vec>
    var s: Vec
    var b: seq<Vec>
    var p: seq<nat>
    var forwardDone: bool
    var backwardDone: bool

    constructor (o: seq<nat>)
      ensures this.o == o && !forwardDone && !backwardDone
    {
      this.o, f, s, b, p, forwardDone, backwardDone := o, [], [], [], [], false, false;
    }

    /** The tables f and s for the model h: row u of f is scaled to add up to one, by the factor s[u]. */
    ghost predicate ForwardTable(h: Hmm)
      reads `f, `s, `forwardDone
    {
      && Observed(h, o) && forwardDone && |f| == |s| == |o| + 1 && f[0] == Zeros(h.n) && s[0] == 1.0
      && forall u :: 1 <= u <= |o| ==> f[u] == Fwd(h, o, u) && s[u] == Factor(h, o, u)
    }

    ghost predicate BackwardTable(h: Hmm)
      reads `b, `backwardDone
    {
      && Observed(h, o) && backwardDone && |b| == |o| + 1 && b[0] == Zeros(h.n)
      && forall u :: 1 <= u <= |o| ==> b[u] == Bwd(h, o, u)
    }

    /** `hmm_forward`. The observations must be possible: otherwise the source divides by zero. */
    method Forward(h: Hmm)
      requires Observed(h, o) && Total(h, o) > 0.0
      modifies this
      ensures ForwardTable(h) && b == old(b) && p == old(p) && backwardDone == old(backwardDone)
      ensures forall u :: 1 <= u <= |o| ==> Sum(f[u]) == 1.0
      ensures Prod(h, o, |o|) == Total(h, o)
    {
      hide *;
      Started(h, o);
      forwardDone := false;
      var at := Transpose(h) by { ObservedValid(h, o); }
      var row, sum := FirstRow(h, o);
      Scaling(h, o, 1);
      StartIs(h, o);
      Divide(row, sum);
      var rows, factors := [Zeros(h.n), row[..]], [1.0, sum];
      var u := 2;
      while u <= |o|
        invariant b == old(b) && p == old(p) && backwardDone == old(backwardDone)
        invariant 2 <= u <= |o| + 1 && |rows| == |factors| == u && rows[0] == Zeros(h.n) && factors[0] == 1.0
        invariant forall v :: 1 <= v < u ==> rows[v] == Fwd(h, o, v) && factors[v] == Factor(h, o, v)
      {
        row, sum := NextRow(h, o, u, at, rows[u - 1]);
        Scaling(h, o, u);
        RowIs(h, o, u);
        Divide(row, sum);
        rows, factors := rows + [row[..]], factors + [sum];
        u := u + 1;
      }
      f, s, forwardDone := rows, factors, true;
      forall u | 1 <= u <= |o| ensures Sum(f[u]) == 1.0 { Scaling(h, o, u); }
      ProdTotal(h, o);
      ForwardIs(h);
    }

    /** `hmm_backward`, and the value that it checks. */
    method BackwardRows(h: Hmm, ae: seq<Vec>) returns (check: real)
      requires ForwardTable(h) && Total(h, o) > 0.0 && Prepared(h, ae, |ae|) && |ae| == Place(h, h.m + 1, 0)
      modifies this
      ensures BackwardTable(h) && f == old(f) && s == old(s) && p == old(p) && ForwardTable(h)
      ensures check == 1.0
    {
      hide *;
      Observation(h);
      backwardDone := false;
      var L := |o|;
      var rows := new Vec[L + 1](_ => Zeros(h.n));
      Scaling(h, o, L);
      BwdLast(h, o);
      FactorAt(h, L);
      var row := LastRow(h, s[L]);
      rows[L] := row[..];
      var u := L - 1;
      while u >= 1
        invariant 0 <= u < L && rows.Length == L + 1 && rows[0] == Zeros(h.n) && ForwardTable(h)
        invariant f == old(f) && s == old(s) && p == old(p)
        invariant forall v :: u < v <= L ==> rows[v] == Bwd(h, o, v)
      {
        Scaling(h, o, u);
        FactorAt(h, u);
        BwdIs(h, o, u);
        row := PrevRow(h, o, u, ae, rows[u + 1], s[u]);
        rows[u] := row[..];
        u := u - 1;
      }
      b, backwardDone := rows[..], true;
      check := Check(h, o, rows[1]);
      CheckOne(h, o);
      BackwardIs(h);
    }

    lemma Observation(h: Hmm)
      requires ForwardTable(h)
      ensures Observed(h, o) && |o| > 0 && |f| == |s| == |o| + 1
    {
    }

    lemma FactorAt(h: Hmm, u: nat)
      requires ForwardTable(h) && 1 <= u <= |o|
      ensures |f| == |s| == |o| + 1 && f[u] == Fwd(h, o, u) && s[u] == Factor(h, o, u)
    {
    }

    lemma BackwardIs(h: Hmm)
      requires Observed(h, o) && backwardDone && |b| == |o| + 1 && b[0] == Zeros(h.n)
      requires forall u :: 1 <= u <= |o| ==> b[u] == Bwd(h, o, u)
      ensures BackwardTable(h)
    {
    }

    lemma RowAt(h: Hmm, u: nat)
      requires ForwardTable(h) && BackwardTable(h) && 1 <= u <= |o|
      ensures Observed(h, o) && |f| == |b| == |s| == |o| + 1
      ensures f[u] == Fwd(h, o, u) && b[u] == Bwd(h, o, u) && s[u] == Factor(h, o, u)
    {
    }

    /** `hmm_post_state`: the posterior probability of each state at observation u. They add up to one. */
    method PostState(h: Hmm, u: nat) returns (prob: array<real>, sum: real)
      requires ForwardTable(h) && BackwardTable(h) && Total(h, o) > 0.0 && 1 <= u <= |o|
      ensures fresh(prob) && prob.Length == h.n && sum == 1.0
      ensures forall k: nat :: k < h.n ==> prob[k] == PathSum(h, o, [], At(u, k)) / Total(h, o)
    {
      hide *;
      RowAt(h, u);
      var ss, fu, bu := s[u], f[u], b[u];
      prob := new real[h.n];
      sum := 0.0;
      SumNone(prob[..]);
      for k := 0 to h.n
        invariant prob.Length == h.n && sum == Sum(prob[..k])
        invariant forall i :: 0 <= i < k ==> prob[i] == Fwd(h, o, u)[i] * Bwd(h, o, u)[i] * Factor(h, o, u)
      {
        ghost var before := prob[..k];
        prob[k] := fu[k] * bu[k] * ss;
        assert prob[..k] == before;
        SumNext(prob[..], k);
        assert prob[..][..k + 1] == prob[..k + 1] && prob[..][..k] == prob[..k];
        sum := sum + prob[k];
      }
      assert prob[..h.n] == prob[..];
      PosteriorsAddUp(h, o, u, prob[..]);
      EmptyPath(h, o);
      forall k: nat | k < h.n ensures prob[k] == PathSum(h, o, [], At(u, k)) / Total(h, o) { Posterior(h, o, u, k); }
    }

    /** `hmm_post_decode`: at each observation the state that most of the probability goes through. */
    method PostDecode(h: Hmm)
      requires ForwardTable(h) && BackwardTable(h) && Total(h, o) > 0.0
      modifies `p
      ensures ForwardTable(h) && BackwardTable(h) && |p| == |o| + 1
      ensures forall u :: 1 <= u <= |o| ==> MostLikely(h, o, u, p[u])
    {
      hide *;
      Observation(h);
      p := [0];
      for u := 1 to |o| + 1
        invariant |p| == u && forall v :: 1 <= v < u ==> MostLikely(h, o, v, p[v])
      {
        var k := DecodeAt(h, u);
        p := p + [k];
      }
    }

    method DecodeAt(h: Hmm, u: nat) returns (maxK: nat)
      requires ForwardTable(h) && BackwardTable(h) && Total(h, o) > 0.0 && 1 <= u <= |o|
      ensures MostLikely(h, o, u, maxK)
    {
      hide *;
      RowAt(h, u);
      Observation(h);
      EmptyPath(h, o);
      HasState(h, o);
      var fu, bu, su := f[u], b[u], s[u];
      var max, best: int := -1.0, -1;
      for k := 0 to h.n
        invariant -1 <= best < k && (k > 0 ==> best >= 0)
        invariant if best < 0 then max == -1.0 else max == PathSum(h, o, [], At(u, best)) / Total(h, o)
        invariant forall i: nat :: i < k ==> PathSum(h, o, [], At(u, i)) / Total(h, o) <= max
        invariant forall i: nat :: i < best ==> PathSum(h, o, [], At(u, i)) / Total(h, o) < max
      {
        var prob := fu[k] * bu[k] * su;
        Posterior(h, o, u, k);
        PathSumNonNeg(h, o, [], At(u, k));
        Fraction(PathSum(h, o, [], At(u, k)), Total(h, o));
        if max < prob { max, best := prob, k; }
      }
      maxK := best;
      forall i: nat | i < h.n ensures PathSum(h, o, [], At(u, i)) <= PathSum(h, o, [], At(u, maxK)) {
        Numerators(PathSum(h, o, [], At(u, i)), PathSum(h, o, [], At(u, maxK)), Total(h, o));
      }
      forall i: nat | i < maxK ensures PathSum(h, o, [], At(u, i)) < PathSum(h, o, [], At(u, maxK)) {
        Numerators(PathSum(h, o, [], At(u, maxK)), PathSum(h, o, [], At(u, i)), Total(h, o));
      }
      IsMostLikely(h, o, u, maxK);
    }

    lemma ForwardIs(h: Hmm)
      requires Observed(h, o) && forwardDone && |f| == |s| == |o| + 1 && f[0] == Zeros(h.n) && s[0] == 1.0
      requires forall u :: 1 <= u <= |o| ==> f[u] == Fwd(h, o, u) && s[u] == Factor(h, o, u)
      ensures ForwardTable(h)
    {
    }
  }

  /** No state has more of the paths through it than state k, and those before it have less. */
  ghost predicate MostLikely(h: Hmm, o: seq<nat>, u: nat, k: nat)
    requires Observed(h, o)
  {
    && 1 <= u <= |o| && k < h.n
    && (forall i: nat :: i < h.n ==> PathSum(h, o, [], At(u, i)) <= PathSum(h, o, [], At(u, k)))
    && (forall i: nat :: i < k ==> PathSum(h, o, [], At(u, i)) < PathSum(h, o, [], At(u, k)))
  }

  lemma IsMostLikely(h: Hmm, o: seq<nat>, u: nat, k: nat)
    requires Observed(h, o) && 1 <= u <= |o| && k < h.n && IsPath(h, o, [])
    requires forall i: nat :: i < h.n ==> PathSum(h, o, [], At(u, i)) <= PathSum(h, o, [], At(u, k))
    requires forall i: nat :: i < k ==> PathSum(h, o, [], At(u, i)) < PathSum(h, o, [], At(u, k))
    ensures MostLikely(h, o, u, k)
  {
  }

  lemma HasState(h: Hmm, o: seq<nat>)
    requires Observed(h, o)
    ensures h.n > 0
  {
  }

  lemma Fraction(x: real, t: real)
    requires x >= 0.0 && t > 0.0
    ensures x / t >= 0.0
  {
  }

  lemma Numerators(x: real, y: real, t: real)
    requires t > 0.0
    ensures x / t <= y / t <==> x <= y
  {
    assert (x / t) * t == x && (y / t) * t == y;
  }

  lemma ObservedValid(h: Hmm, o: seq<nat>)
    requires Observed(h, o)
    ensures Valid(h)
  {
  }

  lemma StartIs(h: Hmm, o: seq<nat>)
    requires Observed(h, o) && Factor(h, o, 1) > 0.0
    ensures Factor(h, o, 1) == Sum(Times(h.a0, Emit(h, o, 1)))
    ensures Fwd(h, o, 1) == Div(Times(h.a0, Emit(h, o, 1)), Factor(h, o, 1))
  {
    FactorIs(h, o, 1);
    FwdIs(h, o, 1);
    hide Fwd, Factor;
  }

  lemma RowIs(h: Hmm, o: seq<nat>, u: nat)
    requires Observed(h, o) && 1 < u <= |o| && Factor(h, o, u) > 0.0
    ensures Factor(h, o, u) == Sum(Forth(h, o, u, Fwd(h, o, u - 1)))
    ensures Fwd(h, o, u) == Div(Forth(h, o, u, Fwd(h, o, u - 1)), Factor(h, o, u))
  {
    hide *;
    FactorIs(h, o, u);
    FwdIs(h, o, u);
    UnscaledIs(h, o, u, Fwd(h, o, u - 1));
  }
}
