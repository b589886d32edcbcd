/** The score of a banded global alignment with affine gaps (klib/ksw.c): a single row of cells,
    overwritten from left to right, computes a recurrence, which is the best score of all alignments
    within the band that do not begin with two gaps; and when it is the best of all. */
module Ksw {
  import opened Arithmetic

  const MINUS_INF := -0x4000_0000

  /** What `ksw_global` is given: residues below m, an m by m matrix of scores, penalties, and the
      half-width w of the band. */
  datatype Input = Input(query: seq<nat>, target: seq<nat>, m: nat, mat: seq<int>, gapo: int, gape: int, w: nat)

  ghost predicate Valid(p: Input) {
    && |p.mat| == p.m * p.m && (forall k :: 0 <= k < |p.mat| ==> -128 <= p.mat[k] < 128)
    && (forall j :: 0 <= j < |p.query| ==> p.query[j] < p.m)
    && (forall i :: 0 <= i < |p.target| ==> p.target[i] < p.m)
  }

  lemma Indexed(m: nat, k: nat, x: nat)
    requires k < m && x < m
    ensures 0 <= k * m + x < m * m
  {
    assert k * m + m <= m * m by { assert (k + 1) * m <= m * m; }
  }

  /** The score of residue i of the target against residue j of the query. */
  function S(p: Input, i: nat, j: nat): (s: int)
    requires Valid(p) && i < |p.target| && j < |p.query|
    ensures -128 <= s < 128
  {
    Indexed(p.m, p.target[i], p.query[j]);
    p.mat[p.target[i] * p.m + p.query[j]]
  }

  // ------------------------------------------------------------------
  // The recurrence on the whole table
  // ------------------------------------------------------------------

  /** The columns of row i that lie in the band, as the loop computes them. */
  function Beg(p: Input, i: nat): nat { if i > p.w then i - p.w else 0 }
  function End(p: Input, i: nat): nat { if i + p.w + 1 < |p.query| then i + p.w + 1 else |p.query| }

  function Max(x: int, y: int): int { if x > y then x else y }

  /** The cell for a residues of the target and b of the query is computed. */
  predicate Computed(p: Input, a: nat, b: nat) {
    1 <= a <= |p.target| && 1 <= b && Beg(p, a - 1) < b <= End(p, a - 1)
  }

  /** The best score for a residues of the target and b of the query. */
  function H(p: Input, a: nat, b: nat): int
    requires Valid(p) && a <= |p.target| && b <= |p.query|
    decreases a, b, 1
  {
    if a == 0 then (if b == 0 then 0 else if b <= p.w then -(p.gapo + p.gape * b) else MINUS_INF)
    else if b == 0 then (if a - 1 <= p.w then -(p.gapo + p.gape * a) else MINUS_INF)
    else if Computed(p, a, b) then Max(Max(H(p, a - 1, b - 1) + S(p, a - 1, b - 1), E(p, a, b)), F(p, a, b))
    else MINUS_INF
  }

  /** The same if the alignment ends in a gap in the query. */
  function E(p: Input, a: nat, b: nat): int
    requires Valid(p) && 1 <= a <= |p.target| + 1 && 1 <= b <= |p.query|
    decreases a, b, 0
  {
    if a > 1 && Computed(p, a - 1, b) then Max(H(p, a - 1, b) - (p.gapo + p.gape), E(p, a - 1, b) - p.gape)
    else MINUS_INF
  }

  /** The same if it ends in a gap in the target. */
  function F(p: Input, a: nat, b: nat): int
    requires Valid(p) && 1 <= a <= |p.target| && 1 <= b <= |p.query|
    decreases a, b, 0
  {
    if b > 1 && Computed(p, a, b - 1) then Max(H(p, a, b - 1) - (p.gapo + p.gape), F(p, a, b - 1) - p.gape)
    else MINUS_INF
  }

  // ------------------------------------------------------------------
  // The single row
  // ------------------------------------------------------------------

  datatype Cell = Cell(h: int, e: int)

  /** Before row i: from the left end of the band on, cell j holds the score of the row above and
      the score of a gap coming down from there. */
  ghost predicate RowReady(p: Input, eh: seq<Cell>, i: nat)
    requires Valid(p) && i <= |p.target|
  {
    && |eh| == |p.query| + 1
    && (forall j :: 0 <= j <= |p.query| && (Beg(p, i) <= j || j == |p.query|) ==> eh[j].h == H(p, i, j))
    && (forall j :: Beg(p, i) <= j < |p.query| ==> eh[j].e == E(p, i + 1, j + 1))
  }

  /** The first row. */
  method FirstRow(p: Input) returns (eh: array<Cell>)
    requires Valid(p)
    ensures fresh(eh) && RowReady(p, eh[..], 0)
  {
    hide RowReady, Valid;
    var qlen := |p.query|;
    eh := new Cell[qlen + 1];
    eh[0] := Cell(0, MINUS_INF);
    var j := 1;
    while j <= qlen && j <= p.w
      invariant 1 <= j <= qlen + 1 && (j <= p.w + 1)
      invariant eh[0] == Cell(0, MINUS_INF)
      invariant forall k :: 1 <= k < j ==> eh[k] == Cell(-(p.gapo + p.gape * k), MINUS_INF)
    {
      eh[j] := Cell(-(p.gapo + p.gape * j), MINUS_INF);
      j := j + 1;
    }
    while j <= qlen
      invariant 1 <= j <= qlen + 1 && j > 0
      invariant eh[0] == Cell(0, MINUS_INF)
      invariant forall k :: 1 <= k < j ==> eh[k] == Cell(if k <= p.w then -(p.gapo + p.gape * k) else MINUS_INF, MINUS_INF)
      invariant j <= qlen ==> j > p.w
    {
      eh[j] := Cell(MINUS_INF, MINUS_INF);
      j := j + 1;
    }
    FirstReady(p, eh[..]);
  }

  lemma FirstReady(p: Input, eh: seq<Cell>)
    requires Valid(p) && |eh| == |p.query| + 1 && eh[0] == Cell(0, MINUS_INF)
    requires forall k :: 1 <= k < |eh| ==> eh[k] == Cell(if k <= p.w then -(p.gapo + p.gape * k) else MINUS_INF, MINUS_INF)
    ensures RowReady(p, eh, 0)
  {
  }

  // The query profile: the scores of the query against each residue, one row after another.

  function Place(p: Input, k: nat, j: nat): nat { k * |p.query| + j }

  ghost predicate ProfileTo(p: Input, qp: seq<int>, n: nat)
    requires Valid(p)
  {
    && |qp| == p.m * |p.query|
    && forall k: nat, j: nat :: k < p.m && j < |p.query| && Place(p, k, j) < n && Place(p, k, j) < |qp| ==>
         qp[Place(p, k, j)] == ProfileOf(p, k, j)
  }

  function ProfileOf(p: Input, k: nat, j: nat): int
    requires Valid(p) && k < p.m && j < |p.query|
  {
    Indexed(p.m, k, p.query[j]);
    p.mat[k * p.m + p.query[j]]
  }

  lemma PlaceBound(p: Input, k: nat, j: nat)
    requires k < p.m && j < |p.query|
    ensures Place(p, k, j) < p.m * |p.query|
  {
    assert (k + 1) * |p.query| <= p.m * |p.query|;
  }

  lemma PlaceUnique(p: Input, k: nat, j: nat, k': nat, j': nat)
    requires j < |p.query| && j' < |p.query| && Place(p, k, j) == Place(p, k', j')
    ensures k == k' && j == j'
  {
    DivUnique(Place(p, k, j), |p.query|, k, j);
    DivUnique(Place(p, k, j), |p.query|, k', j');
  }

  lemma ProfileNext(p: Input, qp: seq<int>, k: nat, j: nat)
    requires Valid(p) && k < p.m && j < |p.query| && ProfileTo(p, qp, Place(p, k, j)) && Place(p, k, j) < |qp|
    ensures ProfileTo(p, qp[Place(p, k, j) := ProfileOf(p, k, j)], Place(p, k, j) + 1)
  {
    var qp' := qp[Place(p, k, j) := ProfileOf(p, k, j)];
    forall k': nat, j': nat | k' < p.m && j' < |p.query| && Place(p, k', j') < Place(p, k, j) + 1 && Place(p, k', j') < |qp'|
      ensures qp'[Place(p, k', j')] == ProfileOf(p, k', j')
    {
      if Place(p, k', j') == Place(p, k, j) { PlaceUnique(p, k, j, k', j'); }
    }
  }

  lemma ProfileNone(p: Input, qp: seq<int>)
    requires Valid(p) && |qp| == p.m * |p.query|
    ensures ProfileTo(p, qp, 0)
  {
  }

  lemma PlaceNext(p: Input, k: nat, j: nat)
    ensures Place(p, k, 0) == k * |p.query| && Place(p, 0, 0) == 0
    ensures Place(p, k, j + 1) == Place(p, k, j) + 1
    ensures Place(p, k, |p.query|) == Place(p, k + 1, 0)
  {
    assert (k + 1) * |p.query| == k * |p.query| + |p.query|;
  }

  lemma AllPlaces(p: Input, qp: seq<int>)
    requires Valid(p) && ProfileTo(p, qp, Place(p, p.m, 0))
    ensures |qp| == Place(p, p.m, 0)
  {
  }

  method Profile(p: Input) returns (qp: array<int>)
    requires Valid(p)
    ensures fresh(qp) && ProfileTo(p, qp[..], qp.Length)
  {
    hide *;
    var qlen := |p.query|;
    NonNegative(p.m, qlen);
    qp := new int[p.m * qlen];
    ProfileNone(p, qp[..]);
    PlaceNext(p, 0, 0);
    var i := 0;
    for k := 0 to p.m
      invariant i == Place(p, k, 0) && ProfileTo(p, qp[..], i) && qp.Length == p.m * qlen
    {
      for j := 0 to qlen
        invariant i == Place(p, k, j) && ProfileTo(p, qp[..], i) && qp.Length == p.m * qlen
      {
        ResidueOk(p, k, j);
        PlaceBound(p, k, j);
        PlaceNext(p, k, j);
        ProfileNext(p, qp[..], k, j);
        ghost var before := qp[..];
        qp[i] := p.mat[k * p.m + p.query[j]];
        assert qp[..] == before[i := ProfileOf(p, k, j)];
        i := i + 1;
      }
      PlaceNext(p, k, 0);
    }
    AllPlaces(p, qp[..]);
  }

  lemma ResidueOk(p: Input, k: nat, j: nat)
    requires Valid(p) && k < p.m && j < |p.query|
    ensures 0 <= k * p.m + p.query[j] < |p.mat| && p.mat[k * p.m + p.query[j]] == ProfileOf(p, k, j)
  {
    Indexed(p.m, k, p.query[j]);
  }

  /** Within row i, before column j: the cells to the left belong to the next row already. h1 is
      the score to the left, f that of a gap coming from there. */
  ghost predicate Mid(p: Input, eh: seq<Cell>, i: nat, j: nat, h1: int, f: int)
    requires Valid(p) && i < |p.target|
  {
    && |eh| == |p.query| + 1 && Beg(p, i) <= j <= End(p, i)
    && (forall k :: Beg(p, i) <= k < j ==> eh[k].h == H(p, i + 1, k) && eh[k].e == E(p, i + 2, k + 1))
    && (forall k :: j <= k <= |p.query| ==> eh[k].h == H(p, i, k))
    && (forall k :: j <= k < |p.query| ==> eh[k].e == E(p, i + 1, k + 1))
    && h1 == H(p, i + 1, j)
    && (j < |p.query| ==> f == F(p, i + 1, j + 1))
  }

  lemma MidStart(p: Input, eh: seq<Cell>, i: nat)
    requires Valid(p) && i < |p.target| && RowReady(p, eh, i) && Beg(p, i) <= |p.query|
    ensures Mid(p, eh, i, Beg(p, i), if Beg(p, i) == 0 then -(p.gapo + p.gape * (i + 1)) else MINUS_INF, MINUS_INF)
  {
  }

  lemma MidNext(p: Input, eh: seq<Cell>, i: nat, j: nat, h1: int, f: int, h: int, e: int, f': int)
    requires Valid(p) && i < |p.target| && j < End(p, i) && Mid(p, eh, i, j, h1, f)
    requires h == Max(Max(eh[j].h + S(p, i, j), eh[j].e), f)
    requires e == Max(h - (p.gapo + p.gape), eh[j].e - p.gape) && f' == Max(h - (p.gapo + p.gape), f - p.gape)
    ensures Mid(p, eh[j := Cell(h1, e)], i, j + 1, h, f')
  {
    assert Computed(p, i + 1, j + 1);
    assert h == H(p, i + 1, j + 1);
    assert e == E(p, i + 2, j + 1);
    assert j + 1 < |p.query| ==> f' == F(p, i + 1, j + 2);
    hide H, E, F, S;
  }

  lemma MidEnd(p: Input, eh: seq<Cell>, i: nat, h1: int, f: int)
    requires Valid(p) && i < |p.target| && Mid(p, eh, i, End(p, i), h1, f)
    ensures RowReady(p, eh[End(p, i) := Cell(h1, MINUS_INF)], i + 1)
  {
    var n, eh' := End(p, i), eh[End(p, i) := Cell(h1, MINUS_INF)];
    forall j | 0 <= j <= |p.query| && (Beg(p, i + 1) <= j || j == |p.query|) ensures eh'[j].h == H(p, i + 1, j) {
      if j > n { Beyond(p, i, j); }
    }
    forall j | Beg(p, i + 1) <= j < |p.query| ensures eh'[j].e == E(p, i + 2, j + 1) {
      if j > n { Beyond(p, i, j); }
    }
  }

  /** Above the band nothing has been computed. */
  lemma Beyond(p: Input, i: nat, j: nat)
    requires Valid(p) && i < |p.target| && End(p, i) < j <= |p.query|
    ensures H(p, i, j) == MINUS_INF == H(p, i + 1, j)
    ensures j < |p.query| ==> E(p, i + 1, j + 1) == MINUS_INF == E(p, i + 2, j + 1)
  {
  }

  /** The row lies wholly to the right of the query. */
  lemma RowPast(p: Input, eh: seq<Cell>, i: nat)
    requires Valid(p) && i < |p.target| && RowReady(p, eh, i) && Beg(p, i) > |p.query|
    ensures End(p, i) == |p.query| && RowReady(p, eh[|p.query| := Cell(MINUS_INF, MINUS_INF)], i + 1)
  {
  }

  /** The entry of the profile that a cell needs. */
  lemma ProfileAt(p: Input, qp: seq<int>, i: nat, j: nat)
    requires Valid(p) && ProfileTo(p, qp, |qp|) && i < |p.target| && j < |p.query|
    ensures 0 <= p.target[i] * |p.query| + j < |qp| && qp[p.target[i] * |p.query| + j] == S(p, i, j)
  {
    PlaceBound(p, p.target[i], j);
    assert qp[Place(p, p.target[i], j)] == ProfileOf(p, p.target[i], j);
  }

  /** The body of the inner loop: the cell gets the score h1 from the left and the gap that comes
      down to the next row. */
  method UpdateCell(p: Input, c0: Cell, h0: int, f0: int, s: int) returns (c: Cell, h1: int, f: int)
    ensures h1 == Max(Max(c0.h + s, c0.e), f0)
    ensures c == Cell(h0, Max(h1 - (p.gapo + p.gape), c0.e - p.gape)) && f == Max(h1 - (p.gapo + p.gape), f0 - p.gape)
  {
    var h, e, gapoe := c0.h, c0.e, p.gapo + p.gape;
    c, f := c0.(h := h0), f0;
    h := h + s;
    h := if h > e then h else e;
    h := if h > f then h else f;
    h1 := h;
    h := h - gapoe;
    e := e - p.gape;
    e := if e > h then e else h;
    c := c.(e := e);
    f := f - p.gape;
    f := if f > h then f else h;
  }

  lemma MidBounds(p: Input, eh: seq<Cell>, i: nat, j: nat, h1: int, f: int)
    requires Valid(p) && i < |p.target| && Mid(p, eh, i, j, h1, f)
    ensures |eh| == |p.query| + 1 && Beg(p, i) <= j <= End(p, i) <= |p.query|
  {
  }

  /** What the row loop keeps. */
  ghost predicate InRow(p: Input, eh: seq<Cell>, i: nat, j: nat, h1: int, f: int)
    requires Valid(p) && i < |p.target|
  {
    if Beg(p, i) <= |p.query| then Mid(p, eh, i, j, h1, f)
    else RowReady(p, eh, i) && j == Beg(p, i) && h1 == MINUS_INF
  }

  lemma RowStart(p: Input, eh: seq<Cell>, i: nat)
    requires Valid(p) && i < |p.target| && RowReady(p, eh, i)
    ensures InRow(p, eh, i, Beg(p, i), if Beg(p, i) == 0 then -(p.gapo + p.gape * (i + 1)) else MINUS_INF, MINUS_INF)
    ensures |eh| == |p.query| + 1 && End(p, i) <= |p.query|
  {
    if Beg(p, i) <= |p.query| { MidStart(p, eh, i); }
  }

  lemma RowNext(p: Input, eh: seq<Cell>, i: nat, j: nat, h1: int, f: int)
    requires Valid(p) && i < |p.target| && j < End(p, i) && InRow(p, eh, i, j, h1, f)
    ensures |eh| == |p.query| + 1 && j < |p.query|
    ensures var h := Max(Max(eh[j].h + S(p, i, j), eh[j].e), f);
            var e, f' := Max(h - (p.gapo + p.gape), eh[j].e - p.gape), Max(h - (p.gapo + p.gape), f - p.gape);
            InRow(p, eh[j := Cell(h1, e)], i, j + 1, h, f')
  {
    MidBounds(p, eh, i, j, h1, f);
    var h := Max(Max(eh[j].h + S(p, i, j), eh[j].e), f);
    var e, f' := Max(h - (p.gapo + p.gape), eh[j].e - p.gape), Max(h - (p.gapo + p.gape), f - p.gape);
    hide Mid, H, E, F;
    MidNext(p, eh, i, j, h1, f, h, e, f');
  }

  lemma RowEnd(p: Input, eh: seq<Cell>, i: nat, j: nat, h1: int, f: int)
    requires Valid(p) && i < |p.target| && End(p, i) <= j && InRow(p, eh, i, j, h1, f)
    ensures |eh| == |p.query| + 1 && End(p, i) <= |p.query| && RowReady(p, eh[End(p, i) := Cell(h1, MINUS_INF)], i + 1)
  {
    hide H, E, F;
    if Beg(p, i) <= |p.query| { MidEnd(p, eh, i, h1, f); } else { RowPast(p, eh, i); }
  }

  /** One round of the loop over the target. */
  method Row(p: Input, qp: array<int>, eh: array<Cell>, i: nat)
    requires Valid(p) && ProfileTo(p, qp[..], qp.Length) && i < |p.target| && RowReady(p, eh[..], i)
    modifies eh
    ensures RowReady(p, eh[..], i + 1)
  {
    hide *;
    RowStart(p, eh[..], i);
    ProfileSize(p, qp[..], i);
    var f := MINUS_INF;
    var q := p.target[i] * |p.query|;
    var beg, end := Beg(p, i), End(p, i);
    var h1 := if beg == 0 then -(p.gapo + p.gape * (i + 1)) else MINUS_INF;
    var j := beg;
    while j < end
      invariant InRow(p, eh[..], i, j, h1, f)
    {
      RowNext(p, eh[..], i, j, h1, f);
      ProfileAt(p, qp[..], i, j);
      ghost var before := eh[..];
      var c;
      c, h1, f := UpdateCell(p, eh[j], h1, f, qp[q + j]);
      eh[j] := c;
      assert eh[..] == before[j := c];
      j := j + 1;
    }
    RowEnd(p, eh[..], i, j, h1, f);
    ghost var before := eh[..];
    eh[end] := Cell(h1, MINUS_INF);
    assert eh[..] == before[end := Cell(h1, MINUS_INF)];
  }

  lemma ProfileSize(p: Input, qp: seq<int>, i: nat)
    requires Valid(p) && i < |p.target|
    ensures p.target[i] * |p.query| >= 0
  {
  }

  lemma RowScore(p: Input, eh: seq<Cell>)
    requires Valid(p) && RowReady(p, eh, |p.target|)
    ensures |eh| == |p.query| + 1 && eh[|p.query|].h == H(p, |p.target|, |p.query|)
  {
  }

  // ------------------------------------------------------------------
  // Alignments
  // ------------------------------------------------------------------

  /** One step of an alignment: two residues side by side, a residue of the target against a gap,
      or one of the query against a gap. */
  datatype Move = Pair | Del | Ins

  /** How many residues of the target and of the query an alignment uses. */
  function Rows(al: seq<Move>): nat {
    if al == [] then 0 else Rows(al[..|al| - 1]) + (if al[|al| - 1] == Ins then 0 else 1)
  }

  function Cols(al: seq<Move>): nat {
    if al == [] then 0 else Cols(al[..|al| - 1]) + (if al[|al| - 1] == Del then 0 else 1)
  }

  /** The score: a gap of length l costs gapo + l * gape. */
  function Score(p: Input, al: seq<Move>): int
    requires Valid(p) && Rows(al) <= |p.target| && Cols(al) <= |p.query|
  {
    if al == [] then 0
    else
      var al', x := al[..|al| - 1], al[|al| - 1];
      if x == Pair then Score(p, al') + S(p, Rows(al'), Cols(al'))
      else Score(p, al') - p.gape - (if al' != [] && al'[|al'| - 1] == x then 0 else p.gapo)
  }

  predicate Near(p: Input, a: nat, b: nat) { a <= b + p.w && b <= a + p.w }

  /** The alignment never leaves the band. */
  predicate InBand(p: Input, al: seq<Move>) {
    al == [] || (InBand(p, al[..|al| - 1]) && Near(p, Rows(al), Cols(al)))
  }

  predicate HasPair(al: seq<Move>) { exists k :: 0 <= k < |al| && al[k] == Pair }
  predicate Only(al: seq<Move>, x: Move) { forall k :: 0 <= k < |al| ==> al[k] == x }

  /** A gap at the beginning is followed by a pair, if by anything. */
  predicate OneGapFirst(al: seq<Move>) {
    al == [] ||
    (var al', x := al[..|al| - 1], al[|al| - 1];
     OneGapFirst(al') && (x == Pair || HasPair(al') || Only(al', x)))
  }

  /** al is one of the alignments of a residues of the target with b of the query that the
      recurrence looks at. */
  ghost predicate Aligns(p: Input, al: seq<Move>, a: nat, b: nat) {
    Rows(al) == a && Cols(al) == b && InBand(p, al) && OneGapFirst(al)
  }

  lemma AddMove(al: seq<Move>, x: Move)
    ensures (al + [x])[..|al + [x]| - 1] == al && (al + [x])[|al + [x]| - 1] == x
    ensures Rows(al + [x]) == Rows(al) + (if x == Ins then 0 else 1)
    ensures Cols(al + [x]) == Cols(al) + (if x == Del then 0 else 1)
  {
  }

  /** The cells that are computed are those in the band. */
  lemma ComputedNear(p: Input, a: nat, b: nat)
    requires a <= |p.target| && b <= |p.query|
    ensures Computed(p, a, b) <==> 1 <= a && 1 <= b && Near(p, a, b)
  {
  }

  lemma {:induction false} OnlyCounts(al: seq<Move>, x: Move)
    requires Only(al, x)
    ensures Rows(al) == (if x == Ins then 0 else |al|) && Cols(al) == (if x == Del then 0 else |al|)
  {
    if al != [] { OnlyCounts(al[..|al| - 1], x); }
  }

  lemma {:induction false} GapScore(p: Input, al: seq<Move>, x: Move)
    requires Valid(p) && x != Pair && Only(al, x) && Rows(al) <= |p.target| && Cols(al) <= |p.query|
    ensures Score(p, al) == if al == [] then 0 else -(p.gapo + p.gape * |al|)
  {
    if al != [] {
      var n := |al| - 1;
      GapScore(p, al[..n], x);
      assert p.gape * |al| == p.gape * n + p.gape;
    }
  }

  /** An alignment that uses both sequences has a pair. */
  lemma {:induction false} BothUsed(al: seq<Move>)
    requires OneGapFirst(al) && Rows(al) > 0 && Cols(al) > 0
    ensures HasPair(al)
  {
    var n := |al| - 1;
    var al', x := al[..n], al[n];
    if x == Pair {
      assert al[n] == Pair;
    } else if HasPair(al') {
      var k :| 0 <= k < |al'| && al'[k] == Pair;
      assert al[k] == Pair;
    } else {
      OnlyCounts(al', x);
    }
  }

  // ------------------------------------------------------------------
  // No alignment scores higher
  // ------------------------------------------------------------------

  /** H bounds every alignment from above, E those that end in a gap in the query, F those that end
      in a gap in the target, after a pair. */
  ghost predicate Bounded(p: Input, al: seq<Move>)
    requires Valid(p) && Rows(al) <= |p.target| && Cols(al) <= |p.query|
  {
    var a, b, s := Rows(al), Cols(al), Score(p, al);
    && s <= H(p, a, b)
    && (al != [] && HasPair(al[..|al| - 1]) && 1 <= a && 1 <= b ==>
         (al[|al| - 1] == Del ==> s <= E(p, a, b)) && (al[|al| - 1] == Ins ==> s <= F(p, a, b)))
  }

  lemma {:induction false} Upper(p: Input, al: seq<Move>)
    requires Valid(p) && Rows(al) <= |p.target| && Cols(al) <= |p.query| && InBand(p, al) && OneGapFirst(al)
    ensures Bounded(p, al)
  {
    if al != [] {
      var al', x := al[..|al| - 1], al[|al| - 1];
      Upper(p, al');
      if x == Pair {
        ComputedNear(p, Rows(al), Cols(al));
      } else if HasPair(al') {
        PairUses(al');
        if x == Del { UpperDel(p, al); } else { UpperIns(p, al); }
      } else {
        GapOnly(al);
        OnlyCounts(al, x);
        GapScore(p, al, x);
      }
    }
  }

  lemma GapOnly(al: seq<Move>)
    requires al != [] && OneGapFirst(al) && !HasPair(al[..|al| - 1]) && al[|al| - 1] != Pair
    ensures Only(al, al[|al| - 1])
  {
  }

  lemma {:induction false} PairUses(al: seq<Move>)
    requires HasPair(al)
    ensures Rows(al) > 0 && Cols(al) > 0
  {
    var k :| 0 <= k < |al| && al[k] == Pair;
    if k < |al| - 1 {
      assert al[..|al| - 1][k] == Pair;
      PairUses(al[..|al| - 1]);
    }
  }

  lemma PairBefore(al: seq<Move>)
    requires al != [] && HasPair(al) && al[|al| - 1] != Pair
    ensures HasPair(al[..|al| - 1])
  {
    var k :| 0 <= k < |al| && al[k] == Pair;
    assert al[..|al| - 1][k] == Pair;
  }

  lemma UpperDel(p: Input, al: seq<Move>)
    requires Valid(p) && Rows(al) <= |p.target| && Cols(al) <= |p.query| && InBand(p, al)
    requires al != [] && al[|al| - 1] == Del && HasPair(al[..|al| - 1])
    requires Rows(al[..|al| - 1]) > 0 && Cols(al[..|al| - 1]) > 0 && Bounded(p, al[..|al| - 1])
    ensures Bounded(p, al)
  {
    var al' := al[..|al| - 1];
    var a, b := Rows(al), Cols(al);
    ComputedNear(p, a - 1, b);
    ComputedNear(p, a, b);
    assert E(p, a, b) == Max(H(p, a - 1, b) - (p.gapo + p.gape), E(p, a - 1, b) - p.gape);
    assert H(p, a, b) >= E(p, a, b);
    if al'[|al'| - 1] == Del { PairBefore(al'); }
    hide H, E, F;
  }

  lemma UpperIns(p: Input, al: seq<Move>)
    requires Valid(p) && Rows(al) <= |p.target| && Cols(al) <= |p.query| && InBand(p, al)
    requires al != [] && al[|al| - 1] == Ins && HasPair(al[..|al| - 1])
    requires Rows(al[..|al| - 1]) > 0 && Cols(al[..|al| - 1]) > 0 && Bounded(p, al[..|al| - 1])
    ensures Bounded(p, al)
  {
    var al' := al[..|al| - 1];
    var a, b := Rows(al), Cols(al);
    ComputedNear(p, a, b - 1);
    ComputedNear(p, a, b);
    assert F(p, a, b) == Max(H(p, a, b - 1) - (p.gapo + p.gape), F(p, a, b - 1) - p.gape);
    assert H(p, a, b) >= F(p, a, b);
    if al'[|al'| - 1] == Ins { PairBefore(al'); }
    hide H, E, F;
  }

  // ------------------------------------------------------------------
  // Some alignment scores as high
  // ------------------------------------------------------------------

  function Min(x: int, y: int): int { if x < y then x else y }

  /** The penalties are penalties, and no score of an alignment comes near MINUS_INF. */
  ghost predicate Far(p: Input) {
    && p.gapo >= 0 && p.gape >= 0
    && p.gapo + (p.gape + 128) * (|p.target| + |p.query|) < -MINUS_INF
  }

  /** The score of one gap and pairs, at their worst. */
  lemma {:induction false} LowH(p: Input, a: nat, b: nat)
    requires Valid(p) && p.gapo >= 0 && p.gape >= 0 && a <= |p.target| && b <= |p.query| && Near(p, a, b)
    ensures H(p, a, b) >= -(p.gapo + p.gape * Max(a, b)) - 128 * Min(a, b)
  {
    if a > 0 && b > 0 {
      ComputedNear(p, a, b);
      assert H(p, a, b) >= H(p, a - 1, b - 1) + S(p, a - 1, b - 1);
      hide H;
      LowH(p, a - 1, b - 1);
      OneMore(p.gape, Max(a, b));
    } else {
      LowEdge(p, a, b);
    }
  }

  lemma LowEdge(p: Input, a: nat, b: nat)
    requires Valid(p) && p.gapo >= 0 && p.gape >= 0 && a <= |p.target| && b <= |p.query| && Near(p, a, b)
    requires a == 0 || b == 0
    ensures H(p, a, b) >= -(p.gapo + p.gape * Max(a, b)) - 128 * Min(a, b)
  {
  }

  lemma AboveMinusInf(p: Input, a: nat, b: nat)
    requires Valid(p) && Far(p) && a <= |p.target| && b <= |p.query| && Near(p, a, b)
    ensures H(p, a, b) > MINUS_INF
  {
    hide H;
    LowH(p, a, b);
    var n := |p.target| + |p.query|;
    Distributes(p.gape, n);
    Monotone(p.gape, Max(a, b), n);
  }

  lemma Distributes(x: int, n: int)
    ensures (x + 128) * n == x * n + 128 * n
  {
  }

  /** A leading gap. */
  function Gap(x: Move, n: nat): (al: seq<Move>)
    ensures |al| == n && Only(al, x)
  {
    seq(n, _ => x)
  }

  lemma {:induction false} GapAligns(p: Input, x: Move, n: nat)
    requires Valid(p) && x != Pair && n <= p.w && n <= (if x == Del then |p.target| else |p.query|)
    ensures Aligns(p, Gap(x, n), if x == Del then n else 0, if x == Del then 0 else n)
    ensures Score(p, Gap(x, n)) == if n == 0 then 0 else -(p.gapo + p.gape * n)
  {
    OnlyCounts(Gap(x, n), x);
    GapScore(p, Gap(x, n), x);
    if n > 0 {
      GapAligns(p, x, n - 1);
      assert Gap(x, n)[..n - 1] == Gap(x, n - 1);
    }
  }

  /** An alignment that attains H. */
  lemma {:induction false} AttainH(p: Input, a: nat, b: nat) returns (al: seq<Move>)
    requires Valid(p) && Far(p) && a <= |p.target| && b <= |p.query| && Near(p, a, b)
    ensures Aligns(p, al, a, b) && Score(p, al) == H(p, a, b)
    decreases a, b, 1
  {
    if a == 0 || b == 0 {
      var x, n := if a == 0 then Ins else Del, if a == 0 then b else a;
      GapAligns(p, x, n);
      al := Gap(x, n);
    } else {
      ComputedNear(p, a, b);
      AboveMinusInf(p, a, b);
      var h := H(p, a, b);
      assert h == Max(Max(H(p, a - 1, b - 1) + S(p, a - 1, b - 1), E(p, a, b)), F(p, a, b));
      hide H, E, F;
      if h == F(p, a, b) {
        al := AttainF(p, a, b);
      } else if h == E(p, a, b) {
        al := AttainE(p, a, b);
      } else {
        var al' := AttainH(p, a - 1, b - 1);
        al := al' + [Pair];
        AddMove(al', Pair);
      }
    }
  }

  /** An alignment that ends in a gap in the query and attains E. */
  lemma {:induction false} AttainE(p: Input, a: nat, b: nat) returns (al: seq<Move>)
    requires Valid(p) && Far(p) && 1 <= a <= |p.target| && 1 <= b <= |p.query| && Near(p, a, b) && E(p, a, b) > MINUS_INF
    ensures Aligns(p, al, a, b) && Score(p, al) == E(p, a, b) && al != [] && al[|al| - 1] == Del && HasPair(al)
    decreases a, b, 0
  {
    hide *;
    EComes(p, a, b);
    var al';
    if E(p, a, b) == E(p, a - 1, b) - p.gape {
      al' := AttainE(p, a - 1, b);
    } else {
      al' := AttainH(p, a - 1, b);
      IsAligned(p, al', a - 1, b);
      BothUsed(al');
    }
    IsAligned(p, al', a - 1, b);
    al := al' + [Del];
    AddMove(al', Del);
    AddedGap(p, al', Del);
    GapUpper(p, al);
  }

  /** Where a value of E above MINUS_INF comes from. */
  lemma EComes(p: Input, a: nat, b: nat)
    requires Valid(p) && Far(p) && 1 <= a <= |p.target| && 1 <= b <= |p.query| && E(p, a, b) > MINUS_INF
    ensures a > 1 && Near(p, a - 1, b) && p.gapo >= 0
    ensures E(p, a, b) == H(p, a - 1, b) - (p.gapo + p.gape) || E(p, a, b) == E(p, a - 1, b) - p.gape
    ensures E(p, a, b) == E(p, a - 1, b) - p.gape ==> E(p, a - 1, b) > MINUS_INF
  {
    ComputedNear(p, a - 1, b);
  }

  lemma FComes(p: Input, a: nat, b: nat)
    requires Valid(p) && Far(p) && 1 <= a <= |p.target| && 1 <= b <= |p.query| && F(p, a, b) > MINUS_INF
    ensures b > 1 && Near(p, a, b - 1) && p.gapo >= 0
    ensures F(p, a, b) == H(p, a, b - 1) - (p.gapo + p.gape) || F(p, a, b) == F(p, a, b - 1) - p.gape
    ensures F(p, a, b) == F(p, a, b - 1) - p.gape ==> F(p, a, b - 1) > MINUS_INF
  {
    ComputedNear(p, a, b - 1);
  }

  lemma IsAligned(p: Input, al: seq<Move>, a: nat, b: nat)
    requires Aligns(p, al, a, b)
    ensures Rows(al) == a && Cols(al) == b && InBand(p, al) && OneGapFirst(al)
  {
  }

  /** An alignment that goes on with a gap after a pair is bounded by E or F. */
  lemma GapUpper(p: Input, al: seq<Move>)
    requires Valid(p) && 1 <= Rows(al) <= |p.target| && 1 <= Cols(al) <= |p.query|
    requires Aligns(p, al, Rows(al), Cols(al)) && HasPair(al) && al[|al| - 1] != Pair
    ensures al[|al| - 1] == Del ==> Score(p, al) <= E(p, Rows(al), Cols(al))
    ensures al[|al| - 1] == Ins ==> Score(p, al) <= F(p, Rows(al), Cols(al))
  {
    Upper(p, al);
    PairBefore(al);
  }

  lemma AddedGap(p: Input, al: seq<Move>, x: Move)
    requires Valid(p) && x != Pair && p.gapo >= 0 && HasPair(al) && OneGapFirst(al) && InBand(p, al)
    requires Rows(al + [x]) <= |p.target| && Cols(al + [x]) <= |p.query| && Rows(al) <= Rows(al + [x]) && Cols(al) <= Cols(al + [x])
    requires Near(p, Rows(al + [x]), Cols(al + [x]))
    ensures Aligns(p, al + [x], Rows(al + [x]), Cols(al + [x])) && HasPair(al + [x])
    ensures Score(p, al + [x]) >= Score(p, al) - (p.gapo + p.gape)
    ensures al[|al| - 1] == x ==> Score(p, al + [x]) == Score(p, al) - p.gape
  {
    AddMove(al, x);
    var k :| 0 <= k < |al| && al[k] == Pair;
    assert (al + [x])[k] == Pair;
  }

  /** An alignment that ends in a gap in the target and attains F. */
  lemma {:induction false} AttainF(p: Input, a: nat, b: nat) returns (al: seq<Move>)
    requires Valid(p) && Far(p) && 1 <= a <= |p.target| && 1 <= b <= |p.query| && Near(p, a, b) && F(p, a, b) > MINUS_INF
    ensures Aligns(p, al, a, b) && Score(p, al) == F(p, a, b) && al != [] && al[|al| - 1] == Ins && HasPair(al)
    decreases a, b, 0
  {
    hide *;
    FComes(p, a, b);
    var al';
    if F(p, a, b) == F(p, a, b - 1) - p.gape {
      al' := AttainF(p, a, b - 1);
    } else {
      al' := AttainH(p, a, b - 1);
      IsAligned(p, al', a, b - 1);
      BothUsed(al');
    }
    IsAligned(p, al', a, b - 1);
    al := al' + [Ins];
    AddMove(al', Ins);
    AddedGap(p, al', Ins);
    GapUpper(p, al);
  }

  // ------------------------------------------------------------------
  // Machine integers
  // ------------------------------------------------------------------

  lemma {:induction false} HighH(p: Input, a: nat, b: nat)
    requires Valid(p) && p.gapo >= 0 && p.gape >= 0 && a <= |p.target| && b <= |p.query|
    ensures H(p, a, b) <= 128 * Min(a, b)
    decreases a, b, 1
  {
    NonNegative(p.gape, a);
    NonNegative(p.gape, b);
    if a > 0 && b > 0 && Computed(p, a, b) {
      HighH(p, a - 1, b - 1);
      HighGaps(p, a, b);
    }
  }

  lemma {:induction false} HighGaps(p: Input, a: nat, b: nat)
    requires Valid(p) && p.gapo >= 0 && p.gape >= 0 && 1 <= a <= |p.target| && 1 <= b <= |p.query|
    ensures E(p, a, b) <= 128 * Min(a, b) && F(p, a, b) <= 128 * Min(a, b)
    decreases a, b, 0
  {
    if a > 1 {
      HighH(p, a - 1, b);
      HighGaps(p, a - 1, b);
    }
    if b > 1 {
      HighH(p, a, b - 1);
      HighGaps(p, a, b - 1);
    }
    hide H;
  }

  predicate Int32(x: int) { -0x8000_0000 <= x < 0x8000_0000 }

  /** Nothing that is computed for a cell leaves the range of a 32-bit integer. */
  lemma NoOverflow(p: Input, a: nat, b: nat)
    requires Valid(p) && Far(p) && a <= |p.target| && b <= |p.query| && Computed(p, a, b)
    ensures Int32(H(p, a - 1, b - 1) + S(p, a - 1, b - 1)) && Int32(E(p, a, b)) && Int32(F(p, a, b)) && Int32(H(p, a, b))
    ensures Int32(H(p, a, b) - (p.gapo + p.gape)) && Int32(E(p, a, b) - p.gape) && Int32(F(p, a, b) - p.gape)
  {
    hide H, E, F, S, Computed, Near, Far;
    ComputedNear(p, a, b);
    SmallPenalties(p, a, b);
    AboveMinusInf(p, a, b);
    LowGaps(p, a, b);
    HighH(p, a - 1, b - 1);
    HighH(p, a, b);
    HighGaps(p, a, b);
    NearBefore(p, a, b);
    AboveMinusInf(p, a - 1, b - 1);
  }

  lemma NearBefore(p: Input, a: nat, b: nat)
    requires 1 <= a && 1 <= b && Near(p, a, b)
    ensures Near(p, a - 1, b - 1)
  {
  }

  lemma SmallPenalties(p: Input, a: nat, b: nat)
    requires Far(p) && 1 <= a <= |p.target| && 1 <= b <= |p.query|
    ensures p.gapo >= 0 && p.gape >= 0 && p.gapo + 2 * p.gape + 128 * Min(a, b) < -MINUS_INF
  {
    var n := |p.target| + |p.query|;
    Distributes(p.gape, n);
    Monotone(p.gape, 2, n);
  }

  lemma LowGaps(p: Input, a: nat, b: nat)
    requires Valid(p) && Far(p) && 1 <= a <= |p.target| && 1 <= b <= |p.query|
    ensures E(p, a, b) >= MINUS_INF - (p.gapo + p.gape) && F(p, a, b) >= MINUS_INF - (p.gapo + p.gape)
  {
    if a > 1 && Computed(p, a - 1, b) { ComputedNear(p, a - 1, b); AboveMinusInf(p, a - 1, b); }
    if b > 1 && Computed(p, a, b - 1) { ComputedNear(p, a, b - 1); AboveMinusInf(p, a, b - 1); }
    hide H;
  }

  // ------------------------------------------------------------------
  // The result
  // ------------------------------------------------------------------

  /** s is the best score of all alignments of the two sequences within the band in which a
      leading gap is followed by a pair. */
  ghost predicate Best(p: Input, s: int)
    requires Valid(p)
  {
    && (exists al :: Aligns(p, al, |p.target|, |p.query|) && Score(p, al) == s)
    && (forall al :: Aligns(p, al, |p.target|, |p.query|) ==> Score(p, al) <= s)
  }

  /** If the band reaches the end of both sequences the recurrence gives the best score. */
  lemma RecurrenceBest(p: Input)
    requires Valid(p) && Far(p) && Near(p, |p.target|, |p.query|)
    ensures Best(p, H(p, |p.target|, |p.query|))
  {
    var a, b := |p.target|, |p.query|;
    var best := AttainH(p, a, b);
    forall al | Aligns(p, al, a, b) ensures Score(p, al) <= H(p, a, b) { Upper(p, al); }
  }

  /** If it does not there is no alignment, and the result is MINUS_INF; but a target one longer
      than the band against an empty query gets the score of a gap all the same. */
  lemma OutOfBand(p: Input, al: seq<Move>)
    requires Valid(p) && !Near(p, |p.target|, |p.query|)
    ensures !Aligns(p, al, |p.target|, |p.query|)
    ensures H(p, |p.target|, |p.query|) ==
            if p.query == [] && |p.target| == p.w + 1 then -(p.gapo + p.gape * |p.target|) else -0x4000_0000
  {
  }

  // ------------------------------------------------------------------
  // Alignments that begin with two gaps
  // ------------------------------------------------------------------

  /** al aligns a residues of the target with b of the query within the band. */
  ghost predicate AlignsAny(p: Input, al: seq<Move>, a: nat, b: nat) {
    Rows(al) == a && Cols(al) == b && InBand(p, al)
  }

  /** s is the best score of all alignments of the two sequences within the band. */
  ghost predicate BestOfAll(p: Input, s: int)
    requires Valid(p)
  {
    && (exists al :: AlignsAny(p, al, |p.target|, |p.query|) && Score(p, al) == s)
    && (forall al :: AlignsAny(p, al, |p.target|, |p.query|) ==> Score(p, al) <= s)
  }

  /** What a caller can see beforehand: there are no two gaps to begin with, or the first residues
      score no less side by side than in two gaps that are open already. */
  predicate PairFirst(p: Input)
    requires Valid(p)
  {
    p.target == [] || p.query == [] || p.w == 0 || S(p, 0, 0) + 2 * p.gape >= 0
  }

  /** The first two residues side by side, then a gap. */
  lemma {:induction false} PairThenGap(p: Input, x: Move, n: nat) returns (al: seq<Move>)
    requires Valid(p) && x != Pair && n < p.w && p.target != [] && p.query != []
    requires n < (if x == Del then |p.target| else |p.query|)
    ensures AlignsAny(p, al, if x == Del then n + 1 else 1, if x == Del then 1 else n + 1)
    ensures OneGapFirst(al) && HasPair(al) && al[|al| - 1] == (if n == 0 then Pair else x)
    ensures Score(p, al) == S(p, 0, 0) - (if n == 0 then 0 else p.gapo + p.gape * n)
  {
    if n == 0 {
      al := [Pair];
      assert al[..0] == [] && al[0] == Pair;
      assert InBand(p, []) && OneGapFirst([]);
    } else {
      var al' := PairThenGap(p, x, n - 1);
      hide S;
      al := al' + [x];
      AddMove(al', x);
      PairStays(al', x);
      assert InBand(p, al);
      assert OneGapFirst(al);
      assert Score(p, al) == Score(p, al') - p.gape - (if n == 1 then p.gapo else 0);
      OneMore(p.gape, n);
    }
  }

  lemma PairStays(al: seq<Move>, x: Move)
    requires HasPair(al)
    ensures HasPair(al + [x])
  {
    var k :| 0 <= k < |al| && al[k] == Pair;
    assert (al + [x])[k] == Pair;
  }

  function Last(al: seq<Move>): Move
    requires al != []
  {
    al[|al| - 1]
  }

  /** al' does what al does and no worse; if it ends otherwise, it is ahead by the cost of a gap
      that has to be opened again. */
  ghost predicate Improves(p: Input, al': seq<Move>, al: seq<Move>)
    requires Valid(p) && Rows(al) <= |p.target| && Cols(al) <= |p.query| && al != []
  {
    && al' != [] && HasPair(al') && OneGapFirst(al') && AlignsAny(p, al', Rows(al), Cols(al))
    && Score(p, al') >= Score(p, al) + (if Last(al') == Last(al) then 0 else p.gapo)
  }

  /** An alignment that begins with two gaps gives way to one that begins with a pair. */
  lemma {:induction false} Improve(p: Input, al: seq<Move>) returns (al': seq<Move>)
    requires Valid(p) && p.gapo >= 0 && Rows(al) <= |p.target| && Cols(al) <= |p.query|
    requires p.target != [] && p.query != [] && S(p, 0, 0) + 2 * p.gape >= 0
    requires InBand(p, al) && al != [] && !OneGapFirst(al)
    ensures Improves(p, al', al)
  {
    hide S, HasPair, Only, Near;
    var n := |al| - 1;
    var rest, x := al[..n], al[n];
    if OneGapFirst(rest) {
      al' := ImproveTwo(p, al);
    } else {
      var rest' := Improve(p, rest);
      al' := rest' + [x];
      AddMove(rest', x);
      PairStays(rest', x);
    }
  }

  lemma ImproveTwo(p: Input, al: seq<Move>) returns (al': seq<Move>)
    requires Valid(p) && p.gapo >= 0 && Rows(al) <= |p.target| && Cols(al) <= |p.query|
    requires p.target != [] && p.query != [] && S(p, 0, 0) + 2 * p.gape >= 0
    requires InBand(p, al) && al != [] && !OneGapFirst(al) && OneGapFirst(al[..|al| - 1])
    ensures Improves(p, al', al)
  {
    hide S;
    var n := |al| - 1;
    var rest, x := al[..n], al[n];
    var z := Last(rest);
    AllGap(rest);
    OnlyCounts(rest, z);
    GapScore(p, rest, z);
    al' := PairThenGap(p, z, n - 1);
    OneMore(p.gape, n);
  }

  lemma AllGap(al: seq<Move>)
    requires al != [] && OneGapFirst(al) && !HasPair(al)
    ensures Only(al, Last(al)) && Last(al) != Pair
  {
    assert al[|al| - 1] != Pair;
    assert forall k :: 0 <= k < |al| - 1 ==> al[..|al| - 1][k] == al[k];
  }

  /** A band of half-width zero has no room for a gap. */
  lemma {:induction false} NoRoom(p: Input, al: seq<Move>)
    requires InBand(p, al) && p.w == 0
    ensures OneGapFirst(al)
  {
    if al != [] { NoRoom(p, al[..|al| - 1]); }
  }

  /** The recurrence gives the best of all alignments within the band if the first pair is no worse
      than going on with two gaps. */
  lemma AllAlignmentsBest(p: Input)
    requires Valid(p) && Far(p) && Near(p, |p.target|, |p.query|) && PairFirst(p)
    ensures BestOfAll(p, H(p, |p.target|, |p.query|))
  {
    hide H, S, Score, InBand, OneGapFirst, Rows, Cols, HasPair;
    var a, b := |p.target|, |p.query|;
    var best := AttainH(p, a, b);
    assert AlignsAny(p, best, a, b);
    forall al | AlignsAny(p, al, a, b) ensures Score(p, al) <= H(p, a, b) {
      if OneGapFirst(al) {
        Upper(p, al);
      } else {
        var al' := NoWorse(p, al);
        Upper(p, al');
      }
    }
  }

  lemma NoWorse(p: Input, al: seq<Move>) returns (al': seq<Move>)
    requires Valid(p) && Far(p) && PairFirst(p) && AlignsAny(p, al, |p.target|, |p.query|) && !OneGapFirst(al)
    ensures Aligns(p, al', |p.target|, |p.query|) && Score(p, al') >= Score(p, al)
  {
    hide S;
    if p.w == 0 {
      NoRoom(p, al);
    } else {
      NotOneSided(al);
      al' := Improve(p, al);
    }
  }

  lemma {:induction false} NotOneSided(al: seq<Move>)
    requires !OneGapFirst(al)
    ensures Rows(al) > 0 && Cols(al) > 0
  {
    var rest := al[..|al| - 1];
    if OneGapFirst(rest) {
      AllGap(rest);
      OnlyCounts(rest, Last(rest));
    } else {
      NotOneSided(rest);
    }
  }

  // Sequences of one residue, which scores v against itself.

  function Uniform(n: nat, v: int, gapo: int, gape: int, w: nat): Input {
    Input(seq(n, _ => 0), seq(n, _ => 0), 1, [v], gapo, gape, w)
  }

  function Pairs(al: seq<Move>): nat {
    if al == [] then 0 else Pairs(al[..|al| - 1]) + (if Last(al) == Pair then 1 else 0)
  }

  lemma UniformScore(p: Input, n: nat, v: int, i: nat, j: nat)
    requires p == Uniform(n, v, p.gapo, p.gape, p.w) && Valid(p)
    ensures i < n && j < n ==> S(p, i, j) == v
  {
  }

  /** How many gaps there are at least. */
  function Gaps(al: seq<Move>): nat {
    (if Rows(al) > Pairs(al) then 1 else 0) + (if Cols(al) > Pairs(al) then 1 else 0)
  }

  lemma {:induction false} PairsFit(al: seq<Move>)
    ensures Pairs(al) <= Rows(al) && Pairs(al) <= Cols(al)
    ensures al != [] && Last(al) == Del ==> Pairs(al) < Rows(al)
    ensures al != [] && Last(al) == Ins ==> Pairs(al) < Cols(al)
    ensures HasPair(al) ==> Pairs(al) > 0
  {
    if al != [] {
      PairsFit(al[..|al| - 1]);
      if HasPair(al) && Last(al) != Pair { PairBefore(al); }
    }
  }

  /** The score from the number of pairs alone. */
  function Estimate(p: Input, v: int, pairs: int, rows: int, cols: int, gaps: int): int {
    pairs * v - p.gape * (rows + cols - 2 * pairs) - p.gapo * gaps
  }

  lemma {:induction false} ScoreBelow(p: Input, n: nat, v: int, al: seq<Move>)
    requires p == Uniform(n, v, p.gapo, p.gape, p.w) && Valid(p) && p.gapo >= 0
    requires Rows(al) <= n && Cols(al) <= n
    ensures Score(p, al) <= Estimate(p, v, Pairs(al), Rows(al), Cols(al), Gaps(al))
  {
    hide Estimate, S;
    if al == [] {
      EstimateNone(p, v);
    } else {
      var rest := al[..|al| - 1];
      ScoreBelow(p, n, v, rest);
      PairsFit(rest);
      PairsFit(al);
      if Last(al) == Pair { UniformScore(p, n, v, Rows(rest), Cols(rest)); }
      var more := Gaps(al) - Gaps(rest);
      EstimateNext(p, v, Pairs(rest), Rows(rest), Cols(rest), Gaps(rest), Last(al), more);
      Opening(p, rest, al, more);
    }
  }

  lemma EstimateNone(p: Input, v: int)
    ensures Estimate(p, v, 0, 0, 0, 0) == 0
  {
  }

  /** A move that adds a gap to the count opens one. */
  lemma Opening(p: Input, rest: seq<Move>, al: seq<Move>, more: int)
    requires al != [] && rest == al[..|al| - 1] && p.gapo >= 0 && more == Gaps(al) - Gaps(rest)
    ensures p.gapo * more <= (if Last(al) == Pair || (rest != [] && Last(rest) == Last(al)) then 0 else p.gapo)
  {
    PairsFit(rest);
    assert more == 0 || more == 1;
  }

  lemma EstimateNext(p: Input, v: int, pairs: int, rows: int, cols: int, gaps: int, x: Move, more: int)
    ensures Estimate(p, v, pairs, rows, cols, gaps) + (if x == Pair then v else -p.gape) - p.gapo * more ==
            Estimate(p, v, pairs + (if x == Pair then 1 else 0), rows + (if x == Ins then 0 else 1),
                     cols + (if x == Del then 0 else 1), gaps + more)
  {
  }

  /** An alignment of pairs alone. */
  lemma {:induction false} PairsOnly(p: Input, n: nat, v: int, k: nat)
    requires p == Uniform(n, v, p.gapo, p.gape, p.w) && Valid(p) && Far(p) && k <= n
    ensures H(p, k, k) >= v * k
  {
    if k > 0 {
      PairsOnly(p, n, v, k - 1);
      UniformScore(p, n, v, k - 1, k - 1);
      ComputedNear(p, k, k);
      assert H(p, k, k) >= H(p, k - 1, k - 1) + S(p, k - 1, k - 1);
      hide H, S;
      OneMore(v, k);
    }
  }

  /** n residues of the query in one gap, then n of the target in another. */
  lemma {:induction false} GapThenGap(p: Input, n: nat, k: nat) returns (al: seq<Move>)
    requires Valid(p) && 1 <= n <= p.w && k <= n && n <= |p.query| && k <= |p.target|
    ensures AlignsAny(p, al, k, n) && al != [] && Last(al) == (if k == 0 then Ins else Del)
    ensures Score(p, al) == -(p.gapo + p.gape * n) - (if k == 0 then 0 else p.gapo + p.gape * k)
  {
    if k == 0 {
      GapAligns(p, Ins, n);
      al := Gap(Ins, n);
    } else {
      var al' := GapThenGap(p, n, k - 1);
      al := al' + [Del];
      AddMove(al', Del);
      assert InBand(p, al);
      assert Score(p, al) == Score(p, al') - p.gape - (if k == 1 then p.gapo else 0);
      OneMore(p.gape, k);
    }
  }

  /** The estimates with some pairs lie between that without a pair and that of pairs alone. */
  lemma EstimateBetween(p: Input, n: nat, v: int, pairs: nat)
    requires pairs < n && p.gapo >= 0
    ensures n * (v + 2 * p.gape) + 2 * p.gapo >= 0 ==> Estimate(p, v, pairs, n, n, 2) <= v * n
    ensures n * (v + 2 * p.gape) + 2 * p.gapo < 0 ==>
              v * n < Estimate(p, v, 0, n, n, 2) && (pairs > 0 ==> Estimate(p, v, pairs, n, n, 2) < Estimate(p, v, 0, n, n, 2))
  {
    var c := v + 2 * p.gape;
    assert Estimate(p, v, pairs, n, n, 2) == pairs * c - 2 * (p.gape * n) - 2 * p.gapo;
    assert v * n == n * c - 2 * (p.gape * n);
    if c >= 0 {
      Monotone(c, pairs, n);
      Monotone(c, 0, n);
    } else {
      Monotone(-c, 0, pairs);
      Monotone(-c, 0, n);
      if pairs > 0 { Monotone(-c, 1, pairs); }
    }
  }

  /** For sequences of one residue, and a band that leaves out nothing: exactly when the recurrence
      gives the best of all alignments. */
  lemma UniformExact(p: Input, n: nat, v: int)
    requires p == Uniform(n, v, p.gapo, p.gape, p.w) && 1 <= n <= p.w && Valid(p) && Far(p)
    ensures BestOfAll(p, H(p, n, n)) <==> n * (v + 2 * p.gape) + 2 * p.gapo >= 0
  {
    hide H, S, Score, InBand, OneGapFirst, Rows, Cols, HasPair, Pairs, Estimate;
    var best := AttainH(p, n, n);
    assert AlignsAny(p, best, n, n);
    EstimateBetween(p, n, v, 0);
    if n * (v + 2 * p.gape) + 2 * p.gapo >= 0 {
      PairsOnly(p, n, v, n);
      forall al | AlignsAny(p, al, n, n) ensures Score(p, al) <= H(p, n, n) { UniformBelow(p, n, v, al); }
    } else {
      var al := GapThenGap(p, n, n);
      TwoGapsAbove(p, n, v, best);
      assert AlignsAny(p, al, n, n) && Score(p, al) == Estimate(p, v, 0, n, n, 2) by { EstimateTwo(p, v, n); }
    }
  }

  lemma EstimateTwo(p: Input, v: int, n: nat)
    ensures Estimate(p, v, 0, n, n, 2) == -(p.gapo + p.gape * n) - (p.gapo + p.gape * n)
    ensures Estimate(p, v, n, n, n, 0) == v * n
  {
    assert p.gape * (n + n - 2 * n) == 0;
  }

  /** No alignment is better than pairs alone. */
  lemma UniformBelow(p: Input, n: nat, v: int, al: seq<Move>)
    requires p == Uniform(n, v, p.gapo, p.gape, p.w) && Valid(p) && p.gapo >= 0 && AlignsAny(p, al, n, n)
    requires n * (v + 2 * p.gape) + 2 * p.gapo >= 0
    ensures Score(p, al) <= v * n
  {
    hide Score, InBand, Pairs, Estimate, Rows, Cols;
    ScoreBelow(p, n, v, al);
    PairsFit(al);
    EstimateTwo(p, v, n);
    if Pairs(al) < n { EstimateBetween(p, n, v, Pairs(al)); }
  }

  /** An alignment with a pair is worse than two gaps. */
  lemma TwoGapsAbove(p: Input, n: nat, v: int, al: seq<Move>)
    requires p == Uniform(n, v, p.gapo, p.gape, p.w) && Valid(p) && p.gapo >= 0 && n >= 1 && Aligns(p, al, n, n)
    requires n * (v + 2 * p.gape) + 2 * p.gapo < 0
    ensures Score(p, al) < Estimate(p, v, 0, n, n, 2)
  {
    hide Score, InBand, Pairs, Estimate, Rows, Cols, OneGapFirst, HasPair;
    ScoreBelow(p, n, v, al);
    BothUsed(al);
    PairsFit(al);
    EstimateTwo(p, v, n);
    EstimateBetween(p, n, v, if Pairs(al) < n then Pairs(al) else 0);
  }

  /** The recurrence gives the best of all alignments within the band. */
  ghost predicate Reliable(p: Input) {
    Valid(p) && Far(p) && Near(p, |p.target|, |p.query|) ==> BestOfAll(p, H(p, |p.target|, |p.query|))
  }

  /** p has these penalties, and v is the score of the first residue against the first. */
  ghost predicate Opens(p: Input, v: int, gapo: int, gape: int) {
    Valid(p) && p.target != [] && p.query != [] && p.gapo == gapo && p.gape == gape && S(p, 0, 0) == v
  }

  lemma OpensWell(p: Input, v: int, gapo: int, gape: int)
    requires Opens(p, v, gapo, gape) && v + 2 * gape >= 0
    ensures Reliable(p)
  {
    hide H, S, BestOfAll;
    if Far(p) && Near(p, |p.target|, |p.query|) { AllAlignmentsBest(p); }
  }

  lemma Fails(v: int, gapo: nat, gape: int) returns (p: Input)
    requires -128 <= v && v + 2 * gape < 0 && v < 128 && Far(Uniform(2 * gapo + 1, v, gapo, gape, 2 * gapo + 1))
    ensures Opens(p, v, gapo, gape) && !Reliable(p)
  {
    var n := 2 * gapo + 1;
    p := Uniform(n, v, gapo, gape, n);
    assert Valid(p);
    UniformScore(p, n, v, 0, 0);
    hide H, S, BestOfAll;
    UniformExact(p, n, v);
    Monotone(n, v + 2 * gape, -1);
  }

  /** The condition on the first pair is exact: with these penalties and the score v for the first
      pair, every input gets the best of all alignments if and only if v + 2 * gape is not negative.
      The penalties leave room for an input of 2 * gapo + 1 residues far from MINUS_INF. */
  lemma FirstPairExact(v: int, gapo: int, gape: int)
    requires -128 <= v < 128 && gapo >= 0 && Far(Uniform(2 * gapo + 1, v, gapo, gape, 2 * gapo + 1))
    ensures (forall p :: Opens(p, v, gapo, gape) ==> Reliable(p)) <==> v + 2 * gape >= 0
  {
    hide H, S, BestOfAll, Far;
    if v + 2 * gape >= 0 {
      forall p | Opens(p, v, gapo, gape) ensures Reliable(p) { OpensWell(p, v, gapo, gape); }
    } else {
      var p := Fails(v, gapo, gape);
    }
  }

  /** `ksw_global` without the backtrack. */
  method KswGlobal(p: Input) returns (score: int)
    requires Valid(p)
    ensures score == H(p, |p.target|, |p.query|)
    ensures Far(p) && Near(p, |p.target|, |p.query|) ==> Best(p, score)
    ensures Far(p) && Near(p, |p.target|, |p.query|) && PairFirst(p) ==> BestOfAll(p, score)
  {
    hide *;
    var qp := Profile(p);
    var eh := FirstRow(p);
    for i := 0 to |p.target|
      invariant ProfileTo(p, qp[..], qp.Length) && RowReady(p, eh[..], i)
    {
      Row(p, qp, eh, i);
    }
    RowScore(p, eh[..]);
    score := eh[|p.query|].h;
    if Far(p) && Near(p, |p.target|, |p.query|) {
      RecurrenceBest(p);
      if PairFirst(p) { AllAlignmentsBest(p); }
    }
  }
}
