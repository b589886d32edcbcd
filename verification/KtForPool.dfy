/** The reusable thread pool of klib/kthread.c: a barrier around the work-stealing loop.
    Condition variables wake up only when they are signalled. */
module KtForPool {
  import opened Arithmetic
  import KtFor

  /** Where a worker is with respect to the barrier. Waiting: in pthread_cond_wait(&cv_s).
      Woken: about to look at its action. Working: in the two job loops. Arriving: about to
      lock, count itself off and wait. */
  datatype Stage = Arriving | Waiting | Woken | Working

  /** Where the caller is. Setting(k): in `kt_forpool`, having set up k workers. Testing: about to
      look at n_pending. Asleep: in pthread_cond_wait(&cv_m). Idle: outside the pool. */
  datatype Main = Idle | Setting(k: nat) | Testing | Asleep

  datatype State = State(core: KtFor.State, pending: int, action: seq<int>, stage: seq<Stage>, main: Main)

  /** After `kt_forpool_init` has made t threads and goes to wait for them. */
  ghost predicate Init(s: State) {
    && |s.stage| > 0 && s.main == Testing && s.pending == |s.stage| == |s.action|
    && (forall i :: 0 <= i < |s.stage| ==> s.stage[i] == Arriving)
    && s.core.n == 0 && s.core.log == [] && |s.core.c| == |s.core.pc| == |s.stage|
    && forall i :: 0 <= i < |s.stage| ==> s.core.c[i] == 0 && s.core.pc[i] == KtFor.Done
  }

  // ------------------------------------------------------------------
  // Steps
  // ------------------------------------------------------------------

  /** Under the mutex: count off, signal the caller if last, and wait with no action. */
  ghost predicate Arrive(s: State, s': State, i: nat) {
    && i < |s.stage| && |s.action| == |s.stage| && s.stage[i] == Arriving
    && s' == s.(pending := s.pending - 1, action := s.action[i := 0], stage := s.stage[i := Waiting],
                main := if s.pending - 1 == 0 && s.main == Asleep then Testing else s.main)
  }

  ghost predicate LookAtAction(s: State, s': State, i: nat) {
    && i < |s.stage| && |s.action| == |s.stage| && s.stage[i] == Woken
    && s' == s.(stage := s.stage[i := if s.action[i] == 0 then Waiting else Working])
  }

  /** A step of the job loops. */
  ghost predicate Work(s: State, s': State, i: nat) {
    && i < |s.stage| && s.stage[i] == Working
    && KtFor.StepBy(s.core, s'.core, i) && s' == s.(core := s'.core)
  }

  ghost predicate Leave(s: State, s': State, i: nat) {
    && i < |s.stage| && |s.core.pc| == |s.stage| && s.stage[i] == Working && s.core.pc[i] == KtFor.Done
    && s' == s.(stage := s.stage[i := Arriving])
  }

  ghost predicate WorkerStep(s: State, s': State, i: nat) {
    Arrive(s, s', i) || LookAtAction(s, s', i) || Work(s, s', i) || Leave(s, s', i)
  }

  /** A call of `kt_forpool` for n indices begins. */
  ghost predicate Call(s: State, s': State, n: int) {
    && s.main == Idle
    && s' == s.(core := KtFor.State(n, s.core.c, seq(|s.stage|, _ => KtFor.Own), [], 0),
                pending := |s.stage|, main := Setting(0))
  }

  /** Worker k starts at index k and has something to do. */
  ghost predicate SetUp(s: State, s': State) {
    && s.main.Setting? && s.main.k < |s.stage| && |s.core.c| == |s.action| == |s.stage|
    && var k := s.main.k;
    s' == s.(core := s.core.(c := s.core.c[k := k]), action := s.action[k := 1], main := Setting(k + 1))
  }

  ghost predicate Broadcast(s: State, s': State) {
    && s.main == Setting(|s.stage|)
    && s' == s.(stage := seq(|s.stage|, i requires 0 <= i < |s.stage| => if s.stage[i] == Waiting then Woken else s.stage[i]),
                main := Testing)
  }

  /** Sleep while n_pending is not zero, else return. */
  ghost predicate TestPending(s: State, s': State) {
    s.main == Testing && s' == s.(main := if s.pending != 0 then Asleep else Idle)
  }

  ghost predicate MainStep(s: State, s': State) {
    (exists n :: Call(s, s', n)) || SetUp(s, s') || Broadcast(s, s') || TestPending(s, s')
  }

  ghost predicate Next(s: State, s': State) { MainStep(s, s') || exists i: nat :: WorkerStep(s, s', i) }

  // ------------------------------------------------------------------
  // The invariant
  // ------------------------------------------------------------------

  /** The workers that have not counted themselves off. */
  function Out(stage: seq<Stage>): nat {
    if stage == [] then 0 else Out(stage[..|stage| - 1]) + (if stage[|stage| - 1] == Waiting then 0 else 1)
  }

  lemma {:induction false} OutUpdate(stage: seq<Stage>, i: nat, x: Stage)
    requires i < |stage|
    ensures Out(stage[i := x]) == Out(stage) - (if stage[i] == Waiting then 0 else 1) + (if x == Waiting then 0 else 1)
  {
    var m := |stage| - 1;
    if i < m {
      OutUpdate(stage[..m], i, x);
      assert stage[i := x][..m] == stage[..m][i := x];
    } else {
      assert stage[i := x][..m] == stage[..m];
    }
  }

  lemma {:induction false} OutAll(stage: seq<Stage>)
    ensures (forall i :: 0 <= i < |stage| ==> stage[i] != Waiting) ==> Out(stage) == |stage|
    ensures Out(stage) == 0 <==> forall i :: 0 <= i < |stage| ==> stage[i] == Waiting
  {
    if stage != [] { OutAll(stage[..|stage| - 1]); }
  }

  /** What a worker's stage says during a call, or while the pool starts up. */
  predicate StageOk(stage: Stage, action: int, pc: KtFor.Pc) {
    match stage
    case Arriving => pc == KtFor.Done
    case Waiting => pc == KtFor.Done && action == 0
    case Woken => pc == KtFor.Own && action == 1
    case Working => action == 1
  }

  /** No call has been made yet. */
  ghost predicate Unused(s: State) {
    && s.core.n == 0 && s.core.log == [] && |s.core.pc| == |s.stage|
    && forall i :: 0 <= i < |s.stage| ==> s.core.pc[i] == KtFor.Done && (s.stage[i] == Arriving || s.stage[i] == Waiting)
  }

  ghost predicate Inv(s: State) {
    && |s.stage| == |s.action| == |s.core.c| == |s.core.pc| > 0
    && match s.main
       case Setting(k) =>
         && k <= |s.stage| && s.pending == |s.stage| && s.core.log == [] && s.core.fetches == 0
         && (forall i :: 0 <= i < |s.stage| ==> s.stage[i] == Waiting && s.core.pc[i] == KtFor.Own)
         && (forall i :: 0 <= i < k ==> s.core.c[i] == i && s.action[i] == 1)
       case _ =>
         && (Unused(s) || (KtFor.Inv(s.core) && KtFor.Counted(s.core)))
         && (forall i :: 0 <= i < |s.stage| ==> StageOk(s.stage[i], s.action[i], s.core.pc[i]))
         && s.pending == Out(s.stage)
         && (s.main == Asleep ==> s.pending > 0)
         && (s.main == Idle ==> s.pending == 0)
  }

  lemma InitInv(s: State)
    requires Init(s)
    ensures Inv(s)
  {
    OutAll(s.stage);
  }

  lemma WorkerInv(s: State, s': State, i: nat)
    requires Inv(s) && WorkerStep(s, s', i)
    ensures Inv(s')
  {
    if Work(s, s', i) {
      WorkInv(s, s', i);
    } else if Arrive(s, s', i) {
      ArriveInv(s, s', i);
    } else if LookAtAction(s, s', i) {
      LookInv(s, s', i);
    } else {
      LeaveInv(s, s', i);
    }
  }

  lemma ArriveInv(s: State, s': State, i: nat)
    requires Inv(s) && Arrive(s, s', i)
    ensures Inv(s')
  {
    hide KtFor.Inv, KtFor.Counted;
    OutUpdate(s.stage, i, Waiting);
  }

  lemma LookInv(s: State, s': State, i: nat)
    requires Inv(s) && LookAtAction(s, s', i)
    ensures Inv(s')
  {
    hide KtFor.Inv, KtFor.Counted;
    OutUpdate(s.stage, i, s'.stage[i]);
  }

  lemma LeaveInv(s: State, s': State, i: nat)
    requires Inv(s) && Leave(s, s', i)
    ensures Inv(s')
  {
    hide KtFor.Inv, KtFor.Counted;
    OutUpdate(s.stage, i, Arriving);
  }

  lemma WorkInv(s: State, s': State, i: nat)
    requires Inv(s) && Work(s, s', i)
    ensures Inv(s')
  {
    KtFor.NextInv(s.core, s'.core, i);
    KtFor.CountedNext(s.core, s'.core, i);
    KtFor.StepKinds(s.core, s'.core, i);
    KtFor.OneCounter(s.core, s'.core, i);
    hide KtFor.Inv, KtFor.Counted, KtFor.StepBy;
  }

  lemma MainInv(s: State, s': State)
    requires Inv(s) && MainStep(s, s')
    ensures Inv(s')
  {
    if Broadcast(s, s') {
      BroadcastInv(s, s');
    } else if TestPending(s, s') {
    } else if SetUp(s, s') {
    } else {
      var n :| Call(s, s', n);
      OutAll(s.stage);
    }
  }

  lemma BroadcastInv(s: State, s': State)
    requires Inv(s) && Broadcast(s, s')
    ensures Inv(s')
  {
    assert KtFor.Init(s'.core);
    KtFor.InitInv(s'.core);
    KtFor.InitCounted(s'.core);
    OutAll(s'.stage);
    hide KtFor.Inv, KtFor.Counted, KtFor.Init, Out;
  }

  /** The caller returns only when every worker waits and has left the job loops, and then each
      index of the call has been run exactly once. */
  lemma ReturnsWhenDone(s: State, s': State)
    requires Inv(s) && TestPending(s, s') && s'.main == Idle
    ensures forall i :: 0 <= i < |s.stage| ==> s.stage[i] == Waiting && s.core.pc[i] == KtFor.Done
    ensures forall k :: multiset(s.core.log)[k] == if 0 <= k < s.core.n then 1 else 0
    ensures Unused(s) || s.core.fetches == KtFor.Size(s.core.n) + 2 * |s.stage|
  {
    OutAll(s.stage);
    assert forall i :: 0 <= i < |s.stage| ==> StageOk(s.stage[i], s.action[i], s.core.pc[i]);
    if !Unused(s) { KtFor.AllRunOnce(s.core); }
  }

  /** Until the caller is outside the pool some thread can take a step. */
  lemma NoDeadlock(s: State)
    requires Inv(s) && s.main != Idle
    ensures exists s' :: Next(s, s')
  {
    if s.main == Testing {
      var s' := s.(main := if s.pending != 0 then Asleep else Idle);
      assert TestPending(s, s') && MainStep(s, s') && Next(s, s');
    } else if s.main.Setting? {
      SettingStep(s);
    } else {
      OutAll(s.stage);
      var i: nat :| i < |s.stage| && s.stage[i] != Waiting;
      OutStep(s, i);
    }
  }

  lemma SettingStep(s: State)
    requires Inv(s) && s.main.Setting?
    ensures exists s' :: Next(s, s')
  {
    var k := s.main.k;
    if k < |s.stage| {
      var s' := s.(core := s.core.(c := s.core.c[k := k]), action := s.action[k := 1], main := Setting(k + 1));
      assert SetUp(s, s') && MainStep(s, s') && Next(s, s');
    } else {
      var s' := s.(stage := seq(|s.stage|, i requires 0 <= i < |s.stage| => if s.stage[i] == Waiting then Woken else s.stage[i]),
                   main := Testing);
      assert Broadcast(s, s') && MainStep(s, s') && Next(s, s');
    }
  }

  lemma OutStep(s: State, i: nat)
    requires Inv(s) && !s.main.Setting? && i < |s.stage| && s.stage[i] != Waiting
    ensures exists s' :: Next(s, s')
  {
    hide KtFor.Inv, KtFor.Counted, KtFor.StepBy;
    if s.stage[i] == Arriving {
      var s' := s.(pending := s.pending - 1, action := s.action[i := 0], stage := s.stage[i := Waiting],
                   main := if s.pending - 1 == 0 && s.main == Asleep then Testing else s.main);
      assert Arrive(s, s', i) && WorkerStep(s, s', i) && Next(s, s');
    } else if s.stage[i] == Woken {
      var s' := s.(stage := s.stage[i := if s.action[i] == 0 then Waiting else Working]);
      assert LookAtAction(s, s', i) && WorkerStep(s, s', i) && Next(s, s');
    } else if s.core.pc[i] == KtFor.Done {
      var s' := s.(stage := s.stage[i := Arriving]);
      assert Leave(s, s', i) && WorkerStep(s, s', i) && Next(s, s');
    } else {
      KtFor.NotStuck(s.core, i);
      var c :| KtFor.StepBy(s.core, c, i);
      var s' := s.(core := c);
      assert Work(s, s', i) && WorkerStep(s, s', i) && Next(s, s');
    }
  }

  // ------------------------------------------------------------------
  // How many steps a call takes
  // ------------------------------------------------------------------

  /** The steps of a worker around the job loops that are still to come in this call. */
  function StageLeft(x: Stage): nat {
    match x
    case Waiting => 0
    case Arriving => 1
    case Working => 2
    case Woken => 3
  }

  function StagesLeft(stage: seq<Stage>): nat {
    if stage == [] then 0 else StagesLeft(stage[..|stage| - 1]) + StageLeft(stage[|stage| - 1])
  }

  lemma {:induction false} StagesUpdate(stage: seq<Stage>, i: nat, x: Stage)
    requires i < |stage|
    ensures StagesLeft(stage[i := x]) == StagesLeft(stage) - StageLeft(stage[i]) + StageLeft(x)
  {
    var m := |stage| - 1;
    if i < m {
      StagesUpdate(stage[..m], i, x);
      assert stage[i := x][..m] == stage[..m][i := x];
    } else {
      assert stage[i := x][..m] == stage[..m];
    }
  }

  lemma {:induction false} StagesAll(stage: seq<Stage>, x: Stage)
    requires forall i :: 0 <= i < |stage| ==> stage[i] == x
    ensures StagesLeft(stage) == StageLeft(x) * |stage|
  {
    if stage != [] { StagesAll(stage[..|stage| - 1], x); }
  }

  /** The caller's own steps, and what its broadcast brings about. */
  function MainLeft(s: State): nat {
    match s.main
    case Idle => 0
    case Asleep => 1
    case Testing => if s.pending == 0 then 1 else 2
    case Setting(k) => (if k <= |s.stage| then |s.stage| - k else 0) + 3 * |s.stage| + 3
  }

  ghost function Measure(s: State): int { MainLeft(s) + StagesLeft(s.stage) + KtFor.Measure(s.core) }

  /** A call is on, or has just ended. */
  ghost predicate InCall(s: State) {
    Inv(s) && (s.main.Setting? || (KtFor.Inv(s.core) && KtFor.Counted(s.core)))
  }

  lemma MeasureNonNegative(s: State)
    requires InCall(s)
    ensures Measure(s) >= 0
  {
    hide KtFor.Inv, KtFor.Counted;
    if !s.main.Setting? { KtFor.FewFetches(s.core); }
    NonNegative(KtFor.Size(s.core.n) + 2 * |s.core.pc| - s.core.fetches, |s.core.pc| + 3);
  }

  lemma WorkerDown(s: State, s': State, i: nat)
    requires InCall(s) && WorkerStep(s, s', i)
    ensures InCall(s') && Measure(s') < Measure(s) && s'.core.n == s.core.n
  {
    WorkerInv(s, s', i);
    if Work(s, s', i) { WorkDown(s, s', i); } else { StageDown(s, s', i); }
  }

  lemma WorkDown(s: State, s': State, i: nat)
    requires InCall(s) && Work(s, s', i) && Inv(s')
    ensures InCall(s') && Measure(s') < Measure(s) && s'.core.n == s.core.n
  {
    hide KtFor.Inv, KtFor.Counted, KtFor.Measure, KtFor.StepBy;
    KtFor.MeasureDown(s.core, s'.core, i);
    KtFor.StepSizes(s.core, s'.core, i);
    KtFor.NextInv(s.core, s'.core, i);
  }

  lemma StageDown(s: State, s': State, i: nat)
    requires InCall(s) && (Arrive(s, s', i) || LookAtAction(s, s', i) || Leave(s, s', i)) && Inv(s')
    ensures InCall(s') && Measure(s') < Measure(s) && s'.core.n == s.core.n
  {
    hide KtFor.Inv, KtFor.Counted, KtFor.Measure, Out;
    StagesUpdate(s.stage, i, s'.stage[i]);
  }

  lemma MainDown(s: State, s': State)
    requires InCall(s) && s.main != Idle && MainStep(s, s')
    ensures InCall(s') && Measure(s') < Measure(s) && s'.core.n == s.core.n
  {
    MainInv(s, s');
    if Broadcast(s, s') {
      BroadcastDown(s, s');
    } else {
      hide KtFor.Inv, KtFor.Counted;
    }
  }

  lemma BroadcastDown(s: State, s': State)
    requires InCall(s) && Broadcast(s, s')
    ensures KtFor.Inv(s'.core) && KtFor.Counted(s'.core) && Measure(s') < Measure(s)
  {
    assert KtFor.Init(s'.core);
    KtFor.InitInv(s'.core);
    KtFor.InitCounted(s'.core);
    StagesAll(s.stage, Waiting);
    StagesAll(s'.stage, Woken);
    hide KtFor.Inv, KtFor.Counted, KtFor.Init, KtFor.Measure;
  }

  /** A step of a call that has not come back yet. */
  ghost predicate Goes(s: State, s': State) { s.main != Idle && Next(s, s') }

  /** A call ends: a run from its beginning that has not come back to Idle before its last state has
      at most as many steps as the job loops can take, and four for each worker and three more. */
  lemma CallEnds(s0: State, s: State, n: int, r: seq<State>)
    requires Inv(s0) && Call(s0, s, n) && r != [] && r[0] == s
    requires forall j, k :: 0 <= j && k == j + 1 && k < |r| ==> Goes(r[j], r[k])
    ensures var t := |s.stage|; |r| - 1 <= (KtFor.Size(n) + 2 * t) * (t + 3) + 4 * t + 3
    ensures var s' := r[|r| - 1]; s'.main == Idle ==> forall k :: multiset(s'.core.log)[k] == if 0 <= k < n then 1 else 0
  {
    CallDown(s0, s, n, r);
    MeasureNonNegative(r[|r| - 1]);
    StartMeasure(s0, s, n);
    if r[|r| - 1].main == Idle { AllRun(r[|r| - 1]); }
  }

  /** After a call that has come back its indices have been run, once each. */
  lemma AllRun(s: State)
    requires InCall(s) && s.main == Idle
    ensures forall k :: multiset(s.core.log)[k] == if 0 <= k < s.core.n then 1 else 0
  {
    OutAll(s.stage);
    assert forall i :: 0 <= i < |s.stage| ==> StageOk(s.stage[i], s.action[i], s.core.pc[i]);
    KtFor.AllRunOnce(s.core);
  }

  lemma StartMeasure(s0: State, s: State, n: int)
    requires Inv(s0) && Call(s0, s, n)
    ensures var t := |s.stage|; Inv(s) && InCall(s) && s.core.n == n && Measure(s) == (KtFor.Size(n) + 2 * t) * (t + 3) + 4 * t + 3
  {
    assert MainStep(s0, s);
    MainInv(s0, s);
    OutAll(s0.stage);
    StagesAll(s.stage, Waiting);
    KtFor.StartLocals(s.core.pc, |s.stage|);
  }

  lemma {:induction false} CallDown(s0: State, s: State, n: int, r: seq<State>)
    requires Inv(s0) && Call(s0, s, n) && r != [] && r[0] == s
    requires forall j, k :: 0 <= j && k == j + 1 && k < |r| ==> Goes(r[j], r[k])
    ensures InCall(r[|r| - 1]) && |r| - 1 + Measure(r[|r| - 1]) <= Measure(s) && r[|r| - 1].core.n == n
  {
    hide InCall, Inv, Call, Measure, MainStep, WorkerStep;
    if |r| == 1 {
      StartMeasure(s0, s, n);
    } else {
      var m := |r| - 1;
      CallDown(s0, s, n, r[..m]);
      var j := m - 1;
      assert r[..m][j] == r[j] && Goes(r[j], r[m]);
      if MainStep(r[j], r[m]) {
        MainDown(r[j], r[m]);
      } else {
        var i: nat :| WorkerStep(r[j], r[m], i);
        WorkerDown(r[j], r[m], i);
      }
    }
  }

  // ------------------------------------------------------------------
  // Runs
  // ------------------------------------------------------------------

  ghost predicate IsRun(r: seq<State>) {
    && r != [] && Init(r[0])
    && forall j, k :: 0 <= j && k == j + 1 && k < |r| ==> Next(r[j], r[k])
  }

  lemma {:induction false} RunInvariant(r: seq<State>)
    requires IsRun(r)
    ensures Inv(r[|r| - 1])
  {
    if |r| == 1 {
      InitInv(r[0]);
    } else {
      var m := |r| - 1;
      RunInvariant(r[..m]);
      assert r[..m][m - 1] == r[m - 1] && r[..m][0] == r[0];
      assert Next(r[m - 1], r[m]);
      if MainStep(r[m - 1], r[m]) {
        MainInv(r[m - 1], r[m]);
      } else {
        var i: nat :| WorkerStep(r[m - 1], r[m], i);
        WorkerInv(r[m - 1], r[m], i);
      }
    }
  }

  /** Over every run, with any number of calls one after another: when the caller goes back to
      Idle all workers wait and the call's indices have been run exactly once each; and before
      that some thread can always take a step. */
  lemma PoolCorrect(r: seq<State>)
    requires IsRun(r)
    ensures var s := r[|r| - 1];
            && (s.main != Idle ==> exists s' :: Next(s, s'))
            && (s.main == Idle ==>
                  && (forall i :: 0 <= i < |s.stage| ==> s.stage[i] == Waiting)
                  && (forall k :: multiset(s.core.log)[k] == if 0 <= k < s.core.n then 1 else 0))
  {
    RunInvariant(r);
    var s := r[|r| - 1];
    if s.main != Idle {
      NoDeadlock(s);
    } else {
      OutAll(s.stage);
      assert forall i :: 0 <= i < |s.stage| ==> StageOk(s.stage[i], s.action[i], s.core.pc[i]);
      if !Unused(s) { KtFor.AllRunOnce(s.core); }
    }
  }
}
