/** The work-stealing parallel loop of klib/kthread.c as interleaved atomic steps. */
module KtFor {
  import opened Arithmetic

  /** Where a worker is. Own: about to fetch from its own counter. Exec: running an index it has
      fetched, by stealing or not. Scan: looking through the counters for the least one; it has
      read the first p of them and the least so far was the min of counter at. */
  datatype Pc = Own | Exec(k: int, stolen: bool) | Scan(p: nat, min: Least) | Done

  /** No counter read yet (LONG_MAX in the source), or the least one read and where. */
  datatype Least = None | Some(min: int, at: nat)

  /** c are the counters w[i].i; log and fetches record the indices run and the fetch-and-adds made. */
  datatype State = State(n: int, c: seq<int>, pc: seq<Pc>, log: seq<int>, fetches: nat)

  ghost predicate Init(s: State) {
    && |s.c| == |s.pc| > 0 && s.log == [] && s.fetches == 0
    && (forall i :: 0 <= i < |s.c| ==> s.c[i] == i && s.pc[i] == Own)
  }

  // ------------------------------------------------------------------
  // Steps of worker i
  // ------------------------------------------------------------------

  /** The atomic fetch-and-add on the worker's own counter. */
  ghost predicate OwnFetch(s: State, s': State, i: nat) {
    && i < |s.pc| && s.pc[i] == Own && |s.c| == |s.pc|
    && var k := s.c[i];
    s' == s.(c := s.c[i := k + |s.c|], fetches := s.fetches + 1,
             pc := s.pc[i := if k >= s.n then Scan(0, None) else Exec(k, false)])
  }

  /** The call of func. */
  ghost predicate Run(s: State, s': State, i: nat) {
    && i < |s.pc| && s.pc[i].Exec?
    && s' == s.(log := s.log + [s.pc[i].k], pc := s.pc[i := if s.pc[i].stolen then Scan(0, None) else Own])
  }

  /** One read in the scan of `steal_work`. */
  ghost predicate ScanRead(s: State, s': State, i: nat) {
    && i < |s.pc| && s.pc[i].Scan? && s.pc[i].p < |s.c|
    && var Scan(p, min) := s.pc[i];
    s' == s.(pc := s.pc[i := Scan(p + 1, if min == None || min.min > s.c[p] then Some(s.c[p], p) else min)])
  }

  /** The fetch-and-add of `steal_work`, on the counter that looked least. */
  ghost predicate StealFetch(s: State, s': State, i: nat) {
    && i < |s.pc| && s.pc[i].Scan? && s.pc[i].p == |s.c| && s.pc[i].min.Some? && s.pc[i].min.at < |s.c|
    && var at := s.pc[i].min.at;
    var k := s.c[at];
    s' == s.(c := s.c[at := k + |s.c|], fetches := s.fetches + 1,
             pc := s.pc[i := if k >= s.n then Done else Exec(k, true)])
  }

  ghost predicate StepBy(s: State, s': State, i: nat) {
    OwnFetch(s, s', i) || Run(s, s', i) || ScanRead(s, s', i) || StealFetch(s, s', i)
  }

  ghost predicate Next(s: State, s': State) { exists i: nat :: StepBy(s, s', i) }

  // ------------------------------------------------------------------
  // The invariant
  // ------------------------------------------------------------------

  function Holding(pc: seq<Pc>, k: int): nat {
    if pc == [] then 0 else Holding(pc[..|pc| - 1], k) + (if pc[|pc| - 1].Exec? && pc[|pc| - 1].k == k then 1 else 0)
  }

  lemma {:induction false} HoldingUpdate(pc: seq<Pc>, i: nat, x: Pc, k: int)
    requires i < |pc|
    ensures Holding(pc[i := x], k) ==
            Holding(pc, k) - (if pc[i].Exec? && pc[i].k == k then 1 else 0) + (if x.Exec? && x.k == k then 1 else 0)
  {
    var m := |pc| - 1;
    if i < m {
      HoldingUpdate(pc[..m], i, x, k);
      assert pc[i := x][..m] == pc[..m][i := x];
    } else {
      assert pc[i := x][..m] == pc[..m];
    }
  }

  lemma {:induction false} HoldingNone(pc: seq<Pc>, k: int)
    requires forall i :: 0 <= i < |pc| ==> !(pc[i].Exec? && pc[i].k == k)
    ensures Holding(pc, k) == 0
  {
    if pc != [] { HoldingNone(pc[..|pc| - 1], k); }
  }

  /** Index k has been fetched from its counter. */
  ghost predicate Claimed(s: State, k: int)
    requires |s.c| > 0
  {
    0 <= k < s.n && k < s.c[k % |s.c|]
  }

  ghost predicate Inv(s: State) {
    && |s.c| == |s.pc| > 0
    && (forall i :: 0 <= i < |s.c| ==> s.c[i] >= i && s.c[i] % |s.c| == i)
    && (forall k :: multiset(s.log)[k] + Holding(s.pc, k) == if Claimed(s, k) then 1 else 0)
    && (forall i :: 0 <= i < |s.pc| && s.pc[i].Scan? ==>
          s.pc[i].p <= |s.c| && (s.pc[i].p > 0 ==> s.pc[i].min.Some?) && (s.pc[i].min.Some? ==> s.pc[i].min.at < |s.c|))
    && (forall i :: 0 <= i < |s.pc| && Left(s.pc[i]) ==> s.c[i] >= s.n)
  }

  /** The worker has found its own counter exhausted. */
  predicate Left(pc: Pc) { pc.Scan? || pc.Done? || (pc.Exec? && pc.stolen) }

  lemma InitInv(s: State)
    requires Init(s)
    ensures Inv(s)
  {
    forall k ensures Holding(s.pc, k) == 0 { HoldingNone(s.pc, k); }
    forall k ensures !Claimed(s, k) {
      if 0 <= k { ModLe(k, |s.c|); }
    }
    forall i | 0 <= i < |s.c| ensures s.c[i] % |s.c| == i { SmallMod(i, |s.c|); }
  }

  /** A fetch-and-add claims just the index it returns. */
  lemma ClaimOne(s: State, c': seq<int>, p: nat, k: int)
    requires Inv(s) && p < |s.c| && c' == s.c[p := s.c[p] + |s.c|]
    ensures Claimed(s.(c := c'), k) <==> Claimed(s, k) || (k == s.c[p] && k < s.n)
    ensures !Claimed(s, s.c[p])
    ensures c'[p] >= p && c'[p] % |s.c| == p
  {
    var t := |s.c|;
    ModPlus(s.c[p], t);
    if 0 <= k < s.n && k % t == p && s.c[p] <= k < s.c[p] + t {
      ModGap(s.c[p], k, t);
    }
    if 0 <= k { ModLe(k, t); }
  }

  lemma FetchInv(s: State, s': State, i: nat, p: nat)
    requires Inv(s) && i < |s.pc| && p < |s.c| && !s.pc[i].Exec?
    requires |s'.pc| == |s.pc|
    requires s' == s.(c := s.c[p := s.c[p] + |s.c|], fetches := s.fetches + 1, pc := s.pc[i := s'.pc[i]])
    requires if s.c[p] < s.n then s'.pc[i].Exec? && s'.pc[i].k == s.c[p] else s'.pc[i] == Scan(0, None) || s'.pc[i] == Done
    requires Left(s'.pc[i]) ==> s'.c[i] >= s.n
    ensures Inv(s')
  {
    forall k ensures multiset(s'.log)[k] + Holding(s'.pc, k) == if Claimed(s', k) then 1 else 0 {
      ClaimOne(s, s'.c, p, k);
      HoldingUpdate(s.pc, i, s'.pc[i], k);
      assert Claimed(s', k) <==> Claimed(s.(c := s'.c), k);
    }
    ClaimOne(s, s'.c, p, 0);
  }

  lemma RunInv(s: State, s': State, i: nat)
    requires Inv(s) && Run(s, s', i)
    ensures Inv(s')
  {
    forall k ensures multiset(s'.log)[k] + Holding(s'.pc, k) == if Claimed(s', k) then 1 else 0 {
      HoldingUpdate(s.pc, i, s'.pc[i], k);
      assert Claimed(s', k) <==> Claimed(s, k);
    }
  }

  lemma ScanInv(s: State, s': State, i: nat)
    requires Inv(s) && ScanRead(s, s', i)
    ensures Inv(s')
  {
    forall k ensures multiset(s'.log)[k] + Holding(s'.pc, k) == if Claimed(s', k) then 1 else 0 {
      HoldingUpdate(s.pc, i, s'.pc[i], k);
      assert Claimed(s', k) <==> Claimed(s, k);
    }
  }

  lemma NextInv(s: State, s': State, i: nat)
    requires Inv(s) && StepBy(s, s', i)
    ensures Inv(s')
  {
    if OwnFetch(s, s', i) {
      FetchInv(s, s', i, i);
    } else if Run(s, s', i) {
      RunInv(s, s', i);
    } else if ScanRead(s, s', i) {
      ScanInv(s, s', i);
    } else {
      FetchInv(s, s', i, s.pc[i].min.at);
    }
  }

  // ------------------------------------------------------------------
  // How many steps there are
  // ------------------------------------------------------------------

  /** The indices that have been fetched and not yet run. */
  function Held(pc: seq<Pc>): seq<int> {
    if pc == [] then [] else
      Held(pc[..|pc| - 1]) + (if pc[|pc| - 1].Exec? then [pc[|pc| - 1].k] else [])
  }

  lemma {:induction false} HeldHolding(pc: seq<Pc>, k: int)
    ensures multiset(Held(pc))[k] == Holding(pc, k)
  {
    if pc != [] { HeldHolding(pc[..|pc| - 1], k); }
  }

  /** The fetch-and-adds that have found nothing, by a worker in this place. */
  function Failed(pc: Pc): nat {
    match pc
    case Own => 0
    case Exec(_, stolen) => if stolen then 1 else 0
    case Scan(_, _) => 1
    case Done => 2
  }

  function Fails(pc: seq<Pc>): nat {
    if pc == [] then 0 else Fails(pc[..|pc| - 1]) + Failed(pc[|pc| - 1])
  }

  /** How many steps a worker in this place takes before its next fetch-and-add. */
  function Local(pc: Pc, t: nat): nat {
    match pc
    case Own => 0
    case Exec(_, stolen) => if stolen then t + 1 else 1
    case Scan(p, _) => if p <= t then t - p else 0
    case Done => 0
  }

  function Locals(pc: seq<Pc>, t: nat): nat {
    if pc == [] then 0 else Locals(pc[..|pc| - 1], t) + Local(pc[|pc| - 1], t)
  }

  lemma {:induction false} SumsUpdate(pc: seq<Pc>, i: nat, x: Pc, t: nat)
    requires i < |pc|
    ensures |Held(pc[i := x])| == |Held(pc)| - (if pc[i].Exec? then 1 else 0) + (if x.Exec? then 1 else 0)
    ensures Fails(pc[i := x]) == Fails(pc) - Failed(pc[i]) + Failed(x)
    ensures Locals(pc[i := x], t) == Locals(pc, t) - Local(pc[i], t) + Local(x, t)
  {
    var m := |pc| - 1;
    if i < m {
      SumsUpdate(pc[..m], i, x, t);
      assert pc[i := x][..m] == pc[..m][i := x];
    } else {
      assert pc[i := x][..m] == pc[..m];
    }
  }

  ghost predicate Counted(s: State) { s.fetches == |s.log| + |Held(s.pc)| + Fails(s.pc) }

  lemma {:induction false} StartSums(pc: seq<Pc>, x: Pc)
    requires forall i :: 0 <= i < |pc| ==> pc[i] == x
    requires x == Own || x == Done
    ensures Held(pc) == [] && Fails(pc) == |pc| * Failed(x)
  {
    if pc != [] { StartSums(pc[..|pc| - 1], x); }
  }

  lemma InitCounted(s: State)
    requires Init(s)
    ensures Counted(s)
  {
    StartSums(s.pc, Own);
  }

  function Size(n: int): nat { if n < 0 then 0 else n }

  /** Every index fetched is one of n, and is fetched once. */
  lemma FewClaims(s: State)
    requires Inv(s)
    ensures |s.log| + |Held(s.pc)| <= Size(s.n)
  {
    var q := s.log + Held(s.pc);
    forall k ensures multiset(q)[k] <= multiset(Indices(s.n))[k] {
      HeldHolding(s.pc, k);
      assert multiset(q)[k] == multiset(s.log)[k] + multiset(Held(s.pc))[k];
    }
    hide *;
    Smaller(multiset(q), multiset(Indices(s.n)));
    IndicesSize(s.n);
  }

  lemma Smaller(a: multiset<int>, b: multiset<int>)
    requires forall k :: a[k] <= b[k]
    ensures |a| <= |b|
  {
    forall k ensures (a + (b - a))[k] == b[k] {
      assert a[k] <= b[k];
    }
    assert b == a + (b - a);
  }

  function Indices(n: int): (r: set<int>)
    ensures forall k :: k in r <==> 0 <= k < n
    decreases Size(n)
  {
    if n <= 0 then {} else Indices(n - 1) + {n - 1}
  }

  lemma {:induction false} IndicesSize(n: int)
    ensures |Indices(n)| == Size(n)
    decreases Size(n)
  {
    if n > 0 { IndicesSize(n - 1); }
  }

  lemma {:induction false} FailsBound(pc: seq<Pc>)
    ensures Fails(pc) <= 2 * |pc|
  {
    if pc != [] { FailsBound(pc[..|pc| - 1]); }
  }

  /** An upper bound on the steps still to be taken. */
  ghost function Measure(s: State): int {
    (Size(s.n) + 2 * |s.pc| - s.fetches) * (|s.pc| + 3) + Locals(s.pc, |s.pc|)
  }

  /** Every step brings the end nearer, so every run ends. */
  lemma MeasureDown(s: State, s': State, i: nat)
    requires Inv(s) && Counted(s) && StepBy(s, s', i)
    ensures Counted(s') && 0 <= Measure(s') < Measure(s)
  {
    hide *;
    CountedNext(s, s', i);
    NextInv(s, s', i);
    StepSizes(s, s', i);
    FewFetches(s');
    var t, b := |s.pc|, Size(s.n) + 2 * |s.pc|;
    if s'.fetches == s.fetches + 1 {
      Shrinks(b, s.fetches, s'.fetches, t + 3, Locals(s.pc, t), Locals(s'.pc, t));
    }
    NonNegative(b - s'.fetches, t + 3);
    MeasureIs(s);
    MeasureIs(s');
  }

  /** A step either makes a fetch-and-add or has one other step fewer before the next. */
  lemma StepSizes(s: State, s': State, i: nat)
    requires Inv(s) && StepBy(s, s', i)
    ensures |s'.pc| == |s.pc| && s'.n == s.n
    ensures || (s'.fetches == s.fetches + 1 && Locals(s'.pc, |s.pc|) <= Locals(s.pc, |s.pc|) + |s.pc| + 1)
            || (s'.fetches == s.fetches && Locals(s'.pc, |s.pc|) == Locals(s.pc, |s.pc|) - 1)
  {
    hide Inv, StepBy, Locals, Local, Failed;
    StepKinds(s, s', i);
    SumsUpdate(s.pc, i, s'.pc[i], |s.pc|);
  }

  lemma FewFetches(s: State)
    requires Inv(s) && Counted(s)
    ensures s.fetches <= Size(s.n) + 2 * |s.pc|
  {
    hide Inv, Held, Fails;
    FewClaims(s);
    FailsBound(s.pc);
  }

  lemma CountedNext(s: State, s': State, i: nat)
    requires Inv(s) && Counted(s) && StepBy(s, s', i)
    ensures Counted(s')
  {
    SumsUpdate(s.pc, i, s'.pc[i], 0);
    StepKinds(s, s', i);
  }

  lemma MeasureIs(s: State)
    ensures Measure(s) == (Size(s.n) + 2 * |s.pc| - s.fetches) * (|s.pc| + 3) + Locals(s.pc, |s.pc|)
  {
  }

  lemma Shrinks(b: int, f: int, f': int, k: int, l: nat, l': nat)
    requires f' == f + 1 && l' <= l + k - 2
    ensures (b - f') * k + l' < (b - f) * k + l
  {
    Minus(b - f, 1, k);
  }

  /** A fetch-and-add may start up to t + 1 other steps; every other step is one fewer of those. */
  lemma StepKinds(s: State, s': State, i: nat)
    requires Inv(s) && StepBy(s, s', i)
    ensures i < |s.pc| && |s'.pc| == |s.pc| && s'.pc == s.pc[i := s'.pc[i]] && s'.n == s.n
    ensures var t, x, x' := |s.pc|, s.pc[i], s'.pc[i];
            || (s'.fetches == s.fetches + 1 && s'.log == s.log && Local(x', t) <= Local(x, t) + t + 1
                && (if x'.Exec? then 1 else 0) + Failed(x') == 1 + (if x.Exec? then 1 else 0) + Failed(x))
            || (s'.fetches == s.fetches && Local(x', t) == Local(x, t) - 1
                && |s'.log| + (if x'.Exec? then 1 else 0) + Failed(x') == |s.log| + (if x.Exec? then 1 else 0) + Failed(x))
  {
  }

  /** A worker that has not left can always take a step. */
  lemma NotStuck(s: State, i: nat)
    requires Inv(s) && i < |s.pc| && s.pc[i] != Done
    ensures exists s' :: StepBy(s, s', i)
  {
    var x, t := s.pc[i], |s.c|;
    if x == Own {
      var k := s.c[i];
      var s' := s.(c := s.c[i := k + t], fetches := s.fetches + 1, pc := s.pc[i := if k >= s.n then Scan(0, None) else Exec(k, false)]);
      assert OwnFetch(s, s', i) && StepBy(s, s', i);
    } else if x.Exec? {
      var s' := s.(log := s.log + [x.k], pc := s.pc[i := if x.stolen then Scan(0, None) else Own]);
      assert Run(s, s', i) && StepBy(s, s', i);
    } else if x.p < t {
      var p, min := x.p, x.min;
      var s' := s.(pc := s.pc[i := Scan(p + 1, if min == None || min.min > s.c[p] then Some(s.c[p], p) else min)]);
      assert ScanRead(s, s', i) && StepBy(s, s', i);
    } else {
      var at := x.min.at;
      var k := s.c[at];
      var s' := s.(c := s.c[at := k + t], fetches := s.fetches + 1, pc := s.pc[i := if k >= s.n then Done else Exec(k, true)]);
      assert StealFetch(s, s', i) && StepBy(s, s', i);
    }
  }

  lemma OneCounter(s: State, s': State, i: nat)
    requires StepBy(s, s', i)
    ensures |s'.c| == |s.c|
  {
  }

  // ------------------------------------------------------------------
  // Runs
  // ------------------------------------------------------------------

  ghost predicate IsRun(r: seq<State>) {
    && r != [] && Init(r[0])
    && forall j, k :: 0 <= j && k == j + 1 && k < |r| ==> Next(r[j], r[k])
  }

  lemma {:induction false} RunInvariant(r: seq<State>)
    requires IsRun(r)
    ensures var s := r[|r| - 1]; Inv(s) && Counted(s) && s.n == r[0].n && |s.pc| == |r[0].pc|
    ensures |r| - 1 + Measure(r[|r| - 1]) <= Measure(r[0])
  {
    if |r| == 1 {
      InitInv(r[0]);
      InitCounted(r[0]);
    } else {
      var m := |r| - 1;
      RunInvariant(r[..m]);
      assert r[..m][m - 1] == r[m - 1] && r[..m][0] == r[0];
      assert Next(r[m - 1], r[m]);
      var i: nat :| StepBy(r[m - 1], r[m], i);
      NextInv(r[m - 1], r[m], i);
      MeasureDown(r[m - 1], r[m], i);
    }
  }

  // ------------------------------------------------------------------
  // Which counter is stolen from
  // ------------------------------------------------------------------

  /** The scan keeps the least of the numbers read, which no counter passed is below now, and the
      counter where it was read: the numbers of counter i leave the remainder i. */
  ghost predicate LeastSeen(s: State, x: Pc)
    requires |s.c| > 0
  {
    x.Scan? && x.min.Some? ==>
      && x.min.at < x.p <= |s.c| && x.min.min % |s.c| == x.min.at
      && forall j :: 0 <= j < x.p ==> x.min.min <= s.c[j]
  }

  ghost predicate Scanned(s: State) {
    |s.c| == |s.pc| > 0 && forall i :: 0 <= i < |s.pc| ==> LeastSeen(s, s.pc[i])
  }

  lemma ScannedNext(s: State, s': State, i: nat)
    requires Inv(s) && Scanned(s) && StepBy(s, s', i)
    ensures Scanned(s')
  {
    OneCounter(s, s', i);
    CountersGrow(s, s', i);
    forall k | 0 <= k < |s'.pc| ensures LeastSeen(s', s'.pc[k]) {
      assert LeastSeen(s, s.pc[k]);
      if k == i { SeenNext(s, s', i); } else { SeenStays(s, s', i, k); }
    }
  }

  lemma CountersGrow(s: State, s': State, i: nat)
    requires Inv(s) && StepBy(s, s', i)
    ensures |s'.c| == |s.c| && |s'.pc| == |s.pc| && forall j :: 0 <= j < |s.c| ==> s.c[j] <= s'.c[j]
  {
  }

  lemma SeenStays(s: State, s': State, i: nat, k: nat)
    requires Inv(s) && StepBy(s, s', i) && k < |s.pc| && k != i && LeastSeen(s, s.pc[k])
    requires |s'.c| == |s.c| && |s'.pc| == |s.pc| && forall j :: 0 <= j < |s.c| ==> s.c[j] <= s'.c[j]
    ensures LeastSeen(s', s'.pc[k])
  {
    assert s'.pc[k] == s.pc[k];
  }

  lemma SeenNext(s: State, s': State, i: nat)
    requires Inv(s) && StepBy(s, s', i) && i < |s.pc| == |s'.pc| && |s'.c| == |s.c| && LeastSeen(s, s.pc[i])
    ensures LeastSeen(s', s'.pc[i])
  {
    hide Holding, Claimed;
  }

  /** A fetch-and-add that steals is made on a counter whose number, when it was read, was the least:
      no counter is below that number now. */
  lemma StealsLeast(s: State, s': State, i: nat)
    requires Inv(s) && Scanned(s) && StealFetch(s, s', i)
    ensures var m, t := s.pc[i].min.min, |s.c|;
            && (forall j :: 0 <= j < t ==> m <= s.c[j])
            && 0 <= m % t < t && s'.c == s.c[m % t := s.c[m % t] + t]
  {
    assert LeastSeen(s, s.pc[i]);
  }

  lemma {:induction false} RunScanned(r: seq<State>)
    requires IsRun(r)
    ensures Inv(r[|r| - 1]) && Scanned(r[|r| - 1])
  {
    RunInvariant(r);
    if |r| > 1 {
      var m := |r| - 1;
      RunScanned(r[..m]);
      assert r[..m][m - 1] == r[m - 1] && r[..m][0] == r[0];
      assert Next(r[m - 1], r[m]);
      var i: nat :| StepBy(r[m - 1], r[m], i);
      ScannedNext(r[m - 1], r[m], i);
    }
  }

  ghost predicate Joined(s: State) { forall i :: 0 <= i < |s.pc| ==> s.pc[i] == Done }

  /** When all workers have left, each index has been run exactly once and nothing else has,
      and there have been exactly n + 2 * n_threads fetch-and-adds. */
  lemma AllRunOnce(s: State)
    requires Inv(s) && Counted(s) && Joined(s)
    ensures forall k :: multiset(s.log)[k] == if 0 <= k < s.n then 1 else 0
    ensures |s.log| == Size(s.n) && s.fetches == Size(s.n) + 2 * |s.pc|
  {
    forall k ensures multiset(s.log)[k] == if 0 <= k < s.n then 1 else 0 {
      HoldingNone(s.pc, k);
      if 0 <= k < s.n {
        ModLe(k, |s.c|);
        assert Left(s.pc[k % |s.c|]);
      }
    }
    StartSums(s.pc, Done);
    assert multiset(s.log) == multiset(Indices(s.n));
    IndicesSize(s.n);
  }

  /** Safety and progress of `kt_for` over every run: no index is ever run twice, the run has a
      bounded number of steps, and a run that can go no further has run every index exactly once. */
  lemma KtForCorrect(r: seq<State>)
    requires IsRun(r)
    ensures var s, t := r[|r| - 1], |r[0].pc|;
            && (forall k :: multiset(s.log)[k] <= if 0 <= k < r[0].n then 1 else 0)
            && |r| - 1 <= (Size(r[0].n) + 2 * t) * (t + 3)
            && (Joined(s) || exists s' :: Next(s, s'))
            && (Joined(s) ==> (forall k :: multiset(s.log)[k] == if 0 <= k < r[0].n then 1 else 0)
                              && s.fetches == Size(r[0].n) + 2 * t)
  {
    RunInvariant(r);
    var s, t := r[|r| - 1], |r[0].pc|;
    FewClaims(s);
    FailsBound(s.pc);
    NonNegative(Size(s.n) + 2 * t - s.fetches, t + 3);
    StartLocals(r[0].pc, t);
    if Joined(s) {
      AllRunOnce(s);
    } else {
      var i :| 0 <= i < |s.pc| && s.pc[i] != Done;
      NotStuck(s, i);
      var s' :| StepBy(s, s', i);
      assert Next(s, s');
    }
  }

  lemma {:induction false} StartLocals(pc: seq<Pc>, t: nat)
    requires forall i :: 0 <= i < |pc| ==> pc[i] == Own
    ensures Locals(pc, t) == 0
  {
    if pc != [] { StartLocals(pc[..|pc| - 1], t); }
  }
}
