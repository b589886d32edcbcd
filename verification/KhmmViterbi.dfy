/** The Viterbi algorithm of klib/khmm.c over exact logarithms: the best score of all state paths,
    and a path that has it. */
module KhmmViterbi {
  import opened Wrappers

  /** A logarithm of a probability, which may be zero. */
  datatype Weight = NegInf | Fin(r: real)

  type Vec = seq<Weight>

  function Plus(x: Weight, y: Weight): Weight {
    if x == NegInf || y == NegInf then NegInf else Fin(x.r + y.r)
  }

  predicate Less(x: Weight, y: Weight) {
    y != NegInf && (x == NegInf || x.r < y.r)
  }

  predicate AtMost(x: Weight, y: Weight) { !Less(y, x) }

  lemma PlusMonotone(x: Weight, y: Weight, a: Weight, e: Weight)
    requires AtMost(x, y)
    ensures AtMost(Plus(x, a), Plus(y, a)) && AtMost(Plus(e, x), Plus(e, y))
  {
  }

  lemma AtMostTrans(x: Weight, y: Weight, z: Weight)
    requires AtMost(x, y) && AtMost(y, z)
    ensures AtMost(x, z)
  {
  }

  const HMM_INF: real := 1e300

  /** Above the value that stands for "no state found yet". */
  predicate Above(x: Weight) { Less(Fin(-HMM_INF), x) }

  /** Logarithms of the starting, transition and emission probabilities, with n states and m
      symbols; symbol m, no observation, has logarithm zero whatever the table says. */
  datatype Logs = Logs(n: nat, m: nat, a0: Vec, a: seq<Vec>, e: seq<Vec>)

  ghost predicate Valid(w: Logs, o: seq<nat>) {
    && w.n > 0 && |w.a0| == w.n && |w.a| == w.n && (forall k :: 0 <= k < w.n ==> |w.a[k]| == w.n)
    && |w.e| == w.m && (forall b :: 0 <= b < w.m ==> |w.e[b]| == w.n)
    && |o| > 0 && forall i :: 0 <= i < |o| ==> o[i] <= w.m
  }

  /** The weight of observation u in state k; observations are counted from 1. */
  function Emit(w: Logs, o: seq<nat>, u: nat, k: nat): Weight
    requires Valid(w, o) && 1 <= u <= |o| && k < w.n
  {
    var b := o[u - 1];
    if b == w.m then Fin(0.0) else w.e[b][k]
  }

  predicate IsPath(w: Logs, o: seq<nat>, p: seq<nat>) {
    1 <= |p| <= |o| && forall i :: 0 <= i < |p| ==> p[i] < w.n
  }

  /** The logarithm of the joint probability of the states p and the first |p| observations. */
  function Score(w: Logs, o: seq<nat>, p: seq<nat>): Weight
    requires Valid(w, o) && IsPath(w, o, p)
  {
    var m := |p| - 1;
    if m == 0 then Plus(Emit(w, o, 1, p[0]), w.a0[p[0]])
    else Plus(Emit(w, o, m + 1, p[m]), Plus(Score(w, o, p[..m]), w.a[p[m - 1]][p[m]]))
  }

  /** Some path over the first u observations can go on to state k without falling to -HMM_INF. */
  ghost predicate Enters(w: Logs, o: seq<nat>, u: nat, k: nat)
    requires Valid(w, o) && 1 <= u <= |o| && k < w.n
  {
    exists p :: IsPath(w, o, p) && |p| == u && Above(Plus(Score(w, o, p), w.a[p[u - 1]][k]))
  }

  /** Some path over all observations stays above -HMM_INF. */
  ghost predicate Ends(w: Logs, o: seq<nat>)
    requires Valid(w, o)
  {
    exists p :: IsPath(w, o, p) && |p| == |o| && Above(Score(w, o, p))
  }

  /** Neither assertion of the source can fail: every state can be entered at every observation but
      the first, and some path comes to the end. */
  ghost predicate Passable(w: Logs, o: seq<nat>)
    requires Valid(w, o)
  {
    (forall u, k :: 1 <= u < |o| && 0 <= k < w.n ==> Enters(w, o, u, k)) && Ends(w, o)
  }

  /** x is the best score of the paths that end in state k at observation u, and tr is one of them. */
  ghost predicate Best(w: Logs, o: seq<nat>, u: nat, k: nat, x: Weight, tr: seq<nat>)
    requires Valid(w, o)
  {
    && IsPath(w, o, tr) && |tr| == u && tr[u - 1] == k && Score(w, o, tr) == x
    && forall p :: IsPath(w, o, p) && |p| == u && p[u - 1] == k ==> AtMost(Score(w, o, p), x)
  }

  lemma BestStart(w: Logs, o: seq<nat>, k: nat)
    requires Valid(w, o) && k < w.n
    ensures Best(w, o, 1, k, Plus(Emit(w, o, 1, k), w.a0[k]), [k])
  {
  }

  /** The last step of a path. */
  lemma ScoreLast(w: Logs, o: seq<nat>, p: seq<nat>)
    requires Valid(w, o) && IsPath(w, o, p) && |p| > 1
    ensures var m := |p| - 1;
            && IsPath(w, o, p[..m])
            && Score(w, o, p) == Plus(Emit(w, o, m + 1, p[m]), Plus(Score(w, o, p[..m]), w.a[p[m - 1]][p[m]]))
  {
  }

  lemma BestUpper(w: Logs, o: seq<nat>, u: nat, k: nat, x: Weight, tr: seq<nat>, p: seq<nat>)
    requires Valid(w, o) && Best(w, o, u, k, x, tr) && IsPath(w, o, p) && |p| == u && p[u - 1] == k
    ensures AtMost(Score(w, o, p), x)
  {
  }

  lemma BestIs(w: Logs, o: seq<nat>, u: nat, k: nat, x: Weight, tr: seq<nat>)
    requires Valid(w, o) && Best(w, o, u, k, x, tr)
    ensures IsPath(w, o, tr) && |tr| == u && tr[u - 1] == k && Score(w, o, tr) == x
  {
  }

  /** What state i gives to state k. */
  function Into(w: Logs, xs: Vec, i: nat, k: nat): Weight
    requires |xs| == |w.a| == w.n && i < w.n && k < |w.a[i]|
  {
    Plus(xs[i], w.a[i][k])
  }

  /** The best way to state k goes through the state l from which it is best. */
  lemma BestNext(w: Logs, o: seq<nat>, u: nat, k: nat, xs: Vec, trs: seq<seq<nat>>, l: nat)
    requires Valid(w, o) && 1 <= u < |o| && k < w.n && l < w.n && |xs| == |trs| == w.n
    requires forall i: nat :: i < w.n ==> Best(w, o, u, i, xs[i], trs[i])
    requires forall i: nat :: i < w.n ==> AtMost(Into(w, xs, i, k), Into(w, xs, l, k))
    ensures Best(w, o, u + 1, k, Plus(Emit(w, o, u + 1, k), Into(w, xs, l, k)), trs[l] + [k])
  {
    hide Best, Score, Plus, AtMost;
    var e := Emit(w, o, u + 1, k);
    var x := Plus(e, Into(w, xs, l, k));
    var tr := trs[l] + [k];
    BestIs(w, o, u, l, xs[l], trs[l]);
    assert tr[..u] == trs[l];
    ScoreLast(w, o, tr);
    forall p | IsPath(w, o, p) && |p| == u + 1 && p[u] == k ensures AtMost(Score(w, o, p), x) {
      ScoreLast(w, o, p);
      var i := p[u - 1];
      BestUpper(w, o, u, i, xs[i], trs[i], p[..u]);
      PlusMonotone(Score(w, o, p[..u]), xs[i], w.a[i][k], e);
      AtMostTrans(Plus(Score(w, o, p[..u]), w.a[i][k]), Into(w, xs, i, k), Into(w, xs, l, k));
      PlusMonotone(Plus(Score(w, o, p[..u]), w.a[i][k]), Into(w, xs, l, k), e, e);
    }
    BestIf(w, o, u + 1, k, x, tr);
  }

  lemma BestIf(w: Logs, o: seq<nat>, u: nat, k: nat, x: Weight, tr: seq<nat>)
    requires Valid(w, o) && IsPath(w, o, tr) && |tr| == u && tr[u - 1] == k && Score(w, o, tr) == x
    requires forall p :: IsPath(w, o, p) && |p| == u && p[u - 1] == k ==> AtMost(Score(w, o, p), x)
    ensures Best(w, o, u, k, x, tr)
  {
  }

  // ------------------------------------------------------------------
  // The algorithm
  // ------------------------------------------------------------------

  /** The path that the backtrace table leads to from state k at observation u. */
  ghost function Trace(vmax: seq<seq<nat>>, u: nat, k: nat): (tr: seq<nat>)
    requires u < |vmax|
    ensures |tr| == u && (u > 0 ==> tr[u - 1] == k)
  {
    if u == 0 then []
    else if u == 1 then [k]
    else if k < |vmax[u]| then Trace(vmax, u - 1, vmax[u][k]) + [k]
    else Trace(vmax, u - 1, 0) + [k]
  }

  lemma {:induction false} TraceGrows(vmax: seq<seq<nat>>, row: seq<nat>, u: nat, k: nat)
    requires u < |vmax|
    ensures Trace(vmax + [row], u, k) == Trace(vmax, u, k)
  {
    if u > 1 {
      assert (vmax + [row])[u] == vmax[u];
      TraceGrows(vmax, row, u - 1, if k < |vmax[u]| then vmax[u][k] else 0);
    }
  }

  lemma TraceNext(vmax: seq<seq<nat>>, u: nat, k: nat)
    requires 1 < u < |vmax| && k < |vmax[u]|
    ensures Trace(vmax, u, k) == Trace(vmax, u - 1, vmax[u][k]) + [k]
  {
  }

  /** The row xs holds the best scores at observation u, and the backtrace table leads to the paths. */
  ghost predicate RowDone(w: Logs, o: seq<nat>, u: nat, xs: Vec, vmax: seq<seq<nat>>)
    requires Valid(w, o)
  {
    && 1 <= u <= |o| && |xs| == w.n && |vmax| == u + 1
    && (forall v :: 1 <= v <= u ==> |vmax[v]| == w.n && forall k :: 0 <= k < w.n ==> vmax[v][k] < w.n)
    && forall k: nat :: k < w.n ==> Best(w, o, u, k, xs[k], Trace(vmax, u, k))
  }

  method FirstScores(w: Logs, o: seq<nat>) returns (xs: Vec, vmax: seq<seq<nat>>)
    requires Valid(w, o)
    ensures RowDone(w, o, 1, xs, vmax)
  {
    var pre := new Weight[w.n];
    for k := 0 to w.n
      invariant forall i: nat :: i < k ==> Best(w, o, 1, i, pre[i], [i])
    {
      BestStart(w, o, k);
      var b := o[0];
      pre[k] := Plus(if b == w.m then Fin(0.0) else w.e[b][k], w.a0[k]);
    }
    xs := pre[..];
    vmax := [[], seq(w.n, _ => 0)];
  }

  /** best is the first state from which k is best, or -1 when none gives more than -HMM_INF. */
  ghost predicate FirstBest(w: Logs, xs: Vec, k: nat, n: nat, max: Weight, best: int)
    requires |xs| == |w.a| == w.n && n <= w.n && forall i :: 0 <= i < w.n ==> k < |w.a[i]|
  {
    if best < 0 then max == Fin(-HMM_INF) && best == -1 && forall i: nat :: i < n ==> !Above(Into(w, xs, i, k))
    else
      && best < n && max == Into(w, xs, best, k) && Above(max)
      && (forall i: nat :: i < n ==> AtMost(Into(w, xs, i, k), max))
      && (forall i: nat :: i < best ==> Less(Into(w, xs, i, k), max))
  }

  lemma BestSoFar(w: Logs, xs: Vec, k: nat, i: nat, max: Weight, best: int)
    requires |xs| == |w.a| == w.n && i < w.n && forall j :: 0 <= j < w.n ==> k < |w.a[j]|
    requires FirstBest(w, xs, k, i, max, best)
    ensures var x := Into(w, xs, i, k);
            if Less(max, x) then FirstBest(w, xs, k, i + 1, x, i) else FirstBest(w, xs, k, i + 1, max, best)
  {
    hide Into;
  }

  /** The loop over the states that can come before. */
  method MaxInto(w: Logs, o: seq<nat>, xs: Vec, k: nat) returns (max: Weight, best: int)
    requires Valid(w, o) && k < w.n && |xs| == w.n
    ensures FirstBest(w, xs, k, w.n, max, best)
  {
    best := -1;
    max := Fin(-HMM_INF);
    for i := 0 to w.n
      invariant FirstBest(w, xs, k, i, max, best)
    {
      BestSoFar(w, xs, k, i, max, best);
      if Less(max, Plus(xs[i], w.a[i][k])) { max, best := Plus(xs[i], w.a[i][k]), i; }
    }
  }

  /** One row of scores and backtrace entries, unless some state cannot be entered. */
  method NextScores(w: Logs, o: seq<nat>, u: nat, xs: Vec, vmax: seq<seq<nat>>)
    returns (ok: bool, ys: Vec, vmax': seq<seq<nat>>)
    requires Valid(w, o) && u < |o| && RowDone(w, o, u, xs, vmax)
    ensures ok <==> forall k: nat :: k < w.n ==> Enters(w, o, u, k)
    ensures ok ==> RowDone(w, o, u + 1, ys, vmax')
  {
    hide *;
    RowFacts(w, o, u, xs, vmax);
    ys, vmax' := xs, vmax;
    var cur, row := new Weight[w.n], new nat[w.n];
    for k := 0 to w.n
      invariant forall i: nat :: i < k ==> Chosen(w, o, u, xs, i, cur[i], row[i])
    {
      var max, best := MaxInto(w, o, xs, k);
      if best < 0 {
        NotEntered(w, o, u, xs, vmax, k, max, best);
        return false, xs, vmax;
      }
      SymbolAt(w, o, u, k);
      var b := o[u];
      cur[k] := Plus(if b == w.m then Fin(0.0) else w.e[b][k], max);
      row[k] := best;
      ChosenIf(w, o, u, xs, k, max, best, cur[k]);
    }
    ok, ys, vmax' := true, cur[..], vmax + [row[..]];
    RowNext(w, o, u, xs, vmax, ys, row[..]);
  }

  lemma RowFacts(w: Logs, o: seq<nat>, u: nat, xs: Vec, vmax: seq<seq<nat>>)
    requires Valid(w, o) && RowDone(w, o, u, xs, vmax)
    ensures 1 <= u <= |o| && |xs| == w.n && |vmax| == u + 1 && |w.a| == w.n
    ensures forall i :: 0 <= i < w.n ==> |w.a[i]| == w.n
  {
  }

  lemma SymbolAt(w: Logs, o: seq<nat>, u: nat, k: nat)
    requires Valid(w, o) && u < |o| && k < w.n
    ensures o[u] != w.m ==> o[u] < |w.e| && k < |w.e[o[u]]|
    ensures Emit(w, o, u + 1, k) == if o[u] == w.m then Fin(0.0) else w.e[o[u]][k]
  {
  }

  /** A path that enters k shows that the row does, and the other way round. */
  lemma EntersRow(w: Logs, o: seq<nat>, u: nat, xs: Vec, vmax: seq<seq<nat>>, k: nat)
    requires Valid(w, o) && RowDone(w, o, u, xs, vmax) && k < w.n
    ensures Enters(w, o, u, k) <==> exists i: nat :: i < w.n && Above(Into(w, xs, i, k))
  {
    hide Score, Best, Trace, Above, AtMost, Plus;
    if i: nat :| i < w.n && Above(Into(w, xs, i, k)) {
      BestIs(w, o, u, i, xs[i], Trace(vmax, u, i));
    }
    if Enters(w, o, u, k) {
      var p :| IsPath(w, o, p) && |p| == u && Above(Plus(Score(w, o, p), w.a[p[u - 1]][k]));
      var i := p[u - 1];
      BestUpper(w, o, u, i, xs[i], Trace(vmax, u, i), p);
      PlusMonotone(Score(w, o, p), xs[i], w.a[i][k], NegInf);
      AboveToo(Plus(Score(w, o, p), w.a[i][k]), Into(w, xs, i, k));
    }
  }

  lemma AboveToo(x: Weight, y: Weight)
    requires Above(x) && AtMost(x, y)
    ensures Above(y)
  {
  }

  lemma NotEntered(w: Logs, o: seq<nat>, u: nat, xs: Vec, vmax: seq<seq<nat>>, k: nat, max: Weight, best: int)
    requires Valid(w, o) && RowDone(w, o, u, xs, vmax) && k < w.n && FirstBest(w, xs, k, w.n, max, best) && best < 0
    ensures !Enters(w, o, u, k)
  {
    hide Enters, RowDone;
    RowFacts(w, o, u, xs, vmax);
    EntersRow(w, o, u, xs, vmax, k);
  }

  /** l is the state from which k is best, and y the score there. */
  ghost predicate Chosen(w: Logs, o: seq<nat>, u: nat, xs: Vec, k: nat, y: Weight, l: nat)
    requires Valid(w, o) && 1 <= u < |o| && |xs| == w.n && k < w.n
  {
    && l < w.n && y == Plus(Emit(w, o, u + 1, k), Into(w, xs, l, k)) && Above(Into(w, xs, l, k))
    && forall i: nat :: i < w.n ==> AtMost(Into(w, xs, i, k), Into(w, xs, l, k))
  }

  lemma ChosenIf(w: Logs, o: seq<nat>, u: nat, xs: Vec, k: nat, max: Weight, l: nat, y: Weight)
    requires Valid(w, o) && 1 <= u < |o| && |xs| == w.n && k < w.n && FirstBest(w, xs, k, w.n, max, l)
    requires y == Plus(Emit(w, o, u + 1, k), max)
    ensures Chosen(w, o, u, xs, k, y, l)
  {
  }

  lemma RowNext(w: Logs, o: seq<nat>, u: nat, xs: Vec, vmax: seq<seq<nat>>, ys: Vec, row: seq<nat>)
    requires Valid(w, o) && u < |o| && RowDone(w, o, u, xs, vmax) && |ys| == |row| == w.n
    requires forall k: nat :: k < w.n ==> Chosen(w, o, u, xs, k, ys[k], row[k])
    ensures RowDone(w, o, u + 1, ys, vmax + [row])
    ensures forall k: nat :: k < w.n ==> Enters(w, o, u, k)
  {
    hide Best, Trace, Chosen, Emit, Enters;
    var vmax' := vmax + [row];
    forall k: nat | k < w.n
      ensures Best(w, o, u + 1, k, ys[k], Trace(vmax', u + 1, k)) && row[k] < w.n && Enters(w, o, u, k)
    {
      RowNextAt(w, o, u, xs, vmax, ys, row, k);
    }
    forall v | 1 <= v <= u + 1 ensures |vmax'[v]| == w.n && forall k :: 0 <= k < w.n ==> vmax'[v][k] < w.n {
      if v <= u { assert vmax'[v] == vmax[v]; } else { assert vmax'[v] == row; }
    }
  }

  lemma RowNextAt(w: Logs, o: seq<nat>, u: nat, xs: Vec, vmax: seq<seq<nat>>, ys: Vec, row: seq<nat>, k: nat)
    requires Valid(w, o) && u < |o| && RowDone(w, o, u, xs, vmax) && |ys| == |row| == w.n && k < w.n
    requires Chosen(w, o, u, xs, k, ys[k], row[k])
    ensures Best(w, o, u + 1, k, ys[k], Trace(vmax + [row], u + 1, k)) && row[k] < w.n && Enters(w, o, u, k)
  {
    hide Best, Trace, Emit, Enters, Above, AtMost, Plus, Into;
    var l := row[k];
    var trs := seq(w.n, i requires 0 <= i < w.n => Trace(vmax, u, i));
    BestNext(w, o, u, k, xs, trs, l);
    TraceNext(vmax + [row], u + 1, k);
    TraceGrows(vmax, row, u, l);
    EntersRow(w, o, u, xs, vmax, k);
  }

  /** The loop over the last row. */
  method BestLast(w: Logs, xs: Vec) returns (max: Weight, best: int)
    requires |xs| == w.n
    ensures -1 <= best < w.n
    ensures best < 0 ==> forall i: nat :: i < w.n ==> !Above(xs[i])
    ensures best >= 0 ==> max == xs[best] && Above(max) && forall i: nat :: i < w.n ==> AtMost(xs[i], max)
    ensures forall i: nat :: i < best ==> Less(xs[i], max)
  {
    best := -1;
    max := Fin(-HMM_INF);
    for i := 0 to w.n
      invariant -1 <= best < i
      invariant best < 0 ==> max == Fin(-HMM_INF) && forall j: nat :: j < i ==> !Above(xs[j])
      invariant best >= 0 ==> max == xs[best] && Above(max) && forall j: nat :: j < i ==> AtMost(xs[j], max)
      invariant forall j: nat :: j < best ==> Less(xs[j], max)
    {
      if Less(max, xs[i]) { max, best := xs[i], i; }
    }
  }

  /** Following the backtrace table from the last state. */
  method Backtrace(w: Logs, o: seq<nat>, xs: Vec, vmax: seq<seq<nat>>, l: nat) returns (v: array<nat>)
    requires Valid(w, o) && RowDone(w, o, |o|, xs, vmax) && l < w.n
    ensures v.Length == |o| + 1 && v[1..] == Trace(vmax, |o|, l)
  {
    hide *;
    var L := |o|;
    RowFacts(w, o, L, xs, vmax);
    v := new nat[L + 1];
    v[L] := l;
    TraceStart(vmax, L, l);
    assert v[L..] == [l];
    var u := L;
    while u >= 1
      invariant 0 <= u <= L && v.Length == L + 1 && (u >= 1 ==> v[u] < w.n)
      invariant u >= 1 ==> Trace(vmax, L, l) == Trace(vmax, u - 1, Prior(vmax, u, v[u])) + v[u..]
      invariant u == 0 ==> Trace(vmax, L, l) == v[1..]
    {
      EntryAt(w, o, L, xs, vmax, u, v[u]);
      TraceBack(vmax, u, v[u]);
      ghost var rest := v[u..];
      v[u - 1] := vmax[u][v[u]];
      assert v[u..] == rest && v[u - 1..] == [v[u - 1]] + rest;
      u := u - 1;
    }
  }

  /** The state before state k at observation u. */
  ghost function Prior(vmax: seq<seq<nat>>, u: nat, k: nat): nat {
    if u < |vmax| && k < |vmax[u]| then vmax[u][k] else 0
  }

  lemma TraceStart(vmax: seq<seq<nat>>, u: nat, k: nat)
    requires 1 <= u < |vmax|
    ensures Trace(vmax, u, k) == Trace(vmax, u - 1, Prior(vmax, u, k)) + [k]
  {
  }

  lemma TraceBack(vmax: seq<seq<nat>>, u: nat, k: nat)
    requires 1 <= u < |vmax|
    ensures u == 1 ==> Trace(vmax, u - 1, Prior(vmax, u, k)) == []
    ensures u > 1 ==> Trace(vmax, u - 1, Prior(vmax, u, k))
                      == Trace(vmax, u - 2, Prior(vmax, u - 1, Prior(vmax, u, k))) + [Prior(vmax, u, k)]
  {
    if u > 1 { TraceStart(vmax, u - 1, Prior(vmax, u, k)); }
  }

  lemma EntryAt(w: Logs, o: seq<nat>, u: nat, xs: Vec, vmax: seq<seq<nat>>, v: nat, k: nat)
    requires Valid(w, o) && RowDone(w, o, u, xs, vmax) && 1 <= v <= u && k < w.n
    ensures |vmax| == u + 1 && k < |vmax[v]| && vmax[v][k] < w.n && Prior(vmax, v, k) == vmax[v][k]
  {
  }

  /** x is the greatest score of all state paths, and v has it. */
  ghost predicate BestPath(w: Logs, o: seq<nat>, x: Weight, v: seq<nat>)
    requires Valid(w, o)
  {
    && IsPath(w, o, v) && |v| == |o| && Score(w, o, v) == x
    && forall p :: IsPath(w, o, p) && |p| == |o| ==> AtMost(Score(w, o, p), x)
  }

  lemma BestOfRow(w: Logs, o: seq<nat>, xs: Vec, vmax: seq<seq<nat>>, l: nat)
    requires Valid(w, o) && RowDone(w, o, |o|, xs, vmax) && l < w.n && forall i: nat :: i < w.n ==> AtMost(xs[i], xs[l])
    requires Above(xs[l])
    ensures BestPath(w, o, xs[l], Trace(vmax, |o|, l)) && Ends(w, o)
  {
    hide Score, Trace, Above, AtMost, Best;
    var u := |o|;
    forall p | IsPath(w, o, p) && |p| == u ensures AtMost(Score(w, o, p), xs[l]) {
      var i := p[u - 1];
      BestUpper(w, o, u, i, xs[i], Trace(vmax, u, i), p);
      AtMostTrans(Score(w, o, p), xs[i], xs[l]);
    }
    BestIs(w, o, u, l, xs[l], Trace(vmax, u, l));
  }

  lemma NoEnd(w: Logs, o: seq<nat>, xs: Vec, vmax: seq<seq<nat>>)
    requires Valid(w, o) && RowDone(w, o, |o|, xs, vmax) && forall i: nat :: i < w.n ==> !Above(xs[i])
    ensures !Ends(w, o)
  {
    hide Score, Trace, Above, AtMost, Best;
    var u := |o|;
    if Ends(w, o) {
      var p :| IsPath(w, o, p) && |p| == |o| && Above(Score(w, o, p));
      var i := p[u - 1];
      BestUpper(w, o, u, i, xs[i], Trace(vmax, u, i), p);
      AboveToo(Score(w, o, p), xs[i]);
    }
  }

  /** `hmm_Viterbi`: the best score of all state paths, and in v[1..] a path that has it; nothing
      just when one of the two assertions of the source fails. */
  method HmmViterbi(w: Logs, o: seq<nat>) returns (max: Option<Weight>, v: array<nat>)
    requires Valid(w, o)
    ensures max.Some? <==> Passable(w, o)
    ensures max.Some? ==> v.Length == |o| + 1 && BestPath(w, o, max.value, v[1..])
  {
    hide *;
    Started(w, o);
    v := new nat[|o| + 1];
    var pre, vmax := FirstScores(w, o);
    var u := 1;
    while u < |o|
      invariant 1 <= u <= |o| && RowDone(w, o, u, pre, vmax) && EntersTo(w, o, u)
    {
      var ok;
      ok, pre, vmax := NextScores(w, o, u, pre, vmax);
      if !ok {
        Blocked(w, o, u);
        return None, v;
      }
      EntersNext(w, o, u);
      u := u + 1;
    }
    RowFacts(w, o, u, pre, vmax);
    var best, l := BestLast(w, pre);
    EntersAll(w, o);
    if l < 0 {
      NoEnd(w, o, pre, vmax);
      return None, v;
    }
    max := Some(best);
    v := Backtrace(w, o, pre, vmax, l);
    BestOfRow(w, o, pre, vmax, l);
  }

  /** Every state can be entered at the observations up to u. */
  ghost predicate EntersTo(w: Logs, o: seq<nat>, u: nat)
    requires Valid(w, o) && 1 <= u <= |o|
  {
    forall v, k :: 1 <= v < u && 0 <= k < w.n ==> Enters(w, o, v, k)
  }

  lemma EntersNext(w: Logs, o: seq<nat>, u: nat)
    requires Valid(w, o) && 1 <= u < |o| && EntersTo(w, o, u) && forall k: nat :: k < w.n ==> Enters(w, o, u, k)
    ensures EntersTo(w, o, u + 1)
  {
  }

  lemma EntersAll(w: Logs, o: seq<nat>)
    requires Valid(w, o) && EntersTo(w, o, |o|)
    ensures Passable(w, o) <==> Ends(w, o)
  {
  }

  lemma Blocked(w: Logs, o: seq<nat>, u: nat)
    requires Valid(w, o) && 1 <= u < |o| && !forall k: nat :: k < w.n ==> Enters(w, o, u, k)
    ensures !Passable(w, o)
  {
  }

  lemma Started(w: Logs, o: seq<nat>)
    requires Valid(w, o)
    ensures |o| > 0 && EntersTo(w, o, 1)
  {
  }
}
