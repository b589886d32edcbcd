/** The ordered pipeline of klib/kthread.c as interleaved atomic steps. */
module KtPipeline {
  import opened Arithmetic

  /** Where a worker is. Test: at the loop head. Ready: about to look at the other workers, which it
      does with the mutex in hand. Asleep: in pthread_cond_wait. Running: in func. Ran: back from func, with or
      without data. Gone: after the loop. */
  datatype Pc = Test | Ready | Asleep | Running | Ran(data: bool) | Gone

  datatype Worker = Worker(step: nat, index: nat, pc: Pc)

  /** A call of func: which step, on which item. */
  datatype Call = Call(step: nat, index: nat)

  /** What came back from a call: data, or nothing. */
  datatype Result = Result(step: nat, index: nat, data: bool)

  /** next is aux.index; log records the calls of func in the order they begin, and res what they
      give back in the order they end. */
  datatype State = State(nSteps: nat, next: nat, w: seq<Worker>, log: seq<Call>, res: seq<Result>)

  ghost predicate Init(s: State) {
    && |s.w| >= 1 && s.next == |s.w| && s.log == [] && s.res == []
    && forall i :: 0 <= i < |s.w| ==> s.w[i] == Worker(0, i, Test)
  }

  /** No other worker with a smaller index is at this worker's step or an earlier one. */
  ghost predicate Clear(s: State, i: nat)
    requires i < |s.w|
  {
    forall j :: 0 <= j < |s.w| && j != i ==> !(s.w[j].step <= s.w[i].step && s.w[j].index < s.w[i].index)
  }

  // ------------------------------------------------------------------
  // Steps of worker i
  // ------------------------------------------------------------------

  /** At the loop head: on with the step, or out of the loop. */
  ghost predicate Enter(s: State, s': State, i: nat) {
    && i < |s.w| && s.w[i].pc == Test
    && s' == s.(w := s.w[i := s.w[i].(pc := if s.w[i].step < s.nSteps then Ready else Gone)])
  }

  /** The scan of the other workers, under the mutex: go on, or wait. */
  ghost predicate Look(s: State, s': State, i: nat) {
    && i < |s.w| && s.w[i].pc == Ready
    && s' == if Clear(s, i)
             then s.(w := s.w[i := s.w[i].(pc := Running)], log := s.log + [Call(s.w[i].step, s.w[i].index)])
             else s.(w := s.w[i := s.w[i].(pc := Asleep)])
  }

  /** func returns. */
  ghost predicate Return(s: State, s': State, i: nat, data: bool) {
    && i < |s.w| && s.w[i].pc == Running
    && s' == s.(w := s.w[i := s.w[i].(pc := Ran(data))], res := s.res + [Result(s.w[i].step, s.w[i].index, data)])
  }

  /** The step a worker goes to after step k. */
  function After(nSteps: nat, k: nat, data: bool): nat
    requires k < nSteps
  {
    if k == nSteps - 1 || data then (k + 1) % nSteps else nSteps
  }

  function Woken(x: Worker): Worker { if x.pc == Asleep then x.(pc := Ready) else x }

  /** The update under the mutex, and the broadcast. */
  ghost predicate Update(s: State, s': State, i: nat) {
    && i < |s.w| && s.w[i].pc.Ran? && s.w[i].step < s.nSteps
    && var k := After(s.nSteps, s.w[i].step, s.w[i].pc.data);
    var x := Worker(k, if k == 0 then s.next else s.w[i].index, Test);
    && |s'.w| == |s.w| && s'.nSteps == s.nSteps && s'.log == s.log && s'.res == s.res
    && s'.next == (if k == 0 then s.next + 1 else s.next)
    && forall j :: 0 <= j < |s.w| ==> s'.w[j] == if j == i then x else Woken(s.w[j])
  }

  ghost predicate StepBy(s: State, s': State, i: nat) {
    Enter(s, s', i) || Look(s, s', i) || (exists d :: Return(s, s', i, d)) || Update(s, s', i)
  }

  ghost predicate Next(s: State, s': State) { exists i: nat :: StepBy(s, s', i) }

  // ------------------------------------------------------------------
  // The invariant
  // ------------------------------------------------------------------

  predicate InStep(x: Worker) { x.pc == Running || x.pc.Ran? }

  /** The worker has still to begin the given step on the item it holds. */
  predicate Before(x: Worker, step: nat) {
    x.step < step || (x.step == step && (x.pc == Test || x.pc == Ready || x.pc == Asleep))
  }

  ghost predicate Inv(s: State) {
    && Distinct(s) && Placed(s) && Exclusive(s) && Waiting(s)
    && Logged(s) && Overtaken(s) && InOrder(s.log) && InStages(s.log) && Traced(s)
  }

  ghost predicate Distinct(s: State) {
    forall i, j :: 0 <= i < j < |s.w| ==> s.w[i].index != s.w[j].index
  }

  ghost predicate Placed(s: State) { forall i :: 0 <= i < |s.w| ==> WorkerOk(s, s.w[i]) }

  /** A worker at work has all workers with smaller indices past its step. */
  ghost predicate Exclusive(s: State) { forall i :: 0 <= i < |s.w| && InStep(s.w[i]) ==> Clear(s, i) }

  /** No worker sleeps through its chance. */
  ghost predicate Waiting(s: State) { forall i :: 0 <= i < |s.w| && s.w[i].pc == Asleep ==> !Clear(s, i) }

  ghost predicate Logged(s: State) {
    forall e :: 0 <= e < |s.log| ==> s.log[e].index < s.next && s.log[e].step < s.nSteps
  }

  /** Items that have begun a step come before all items that have not. */
  ghost predicate Overtaken(s: State) {
    forall e, i :: 0 <= e < |s.log| && 0 <= i < |s.w| && Before(s.w[i], s.log[e].step) ==> s.log[e].index < s.w[i].index
  }

  ghost predicate Traced(s: State) { forall i :: 0 <= i < |s.w| ==> Behind(s, s.w[i]) }

  ghost predicate WorkerOk(s: State, x: Worker) {
    && x.index < s.next && x.step <= s.nSteps
    && (x.pc != Test && x.pc != Gone ==> x.step < s.nSteps)
    && (x.pc == Gone ==> x.step == s.nSteps)
  }

  /** Each step sees the items in increasing order. */
  ghost predicate InOrder(log: seq<Call>) {
    forall a, b :: 0 <= a < b < |log| && log[a].step == log[b].step ==> log[a].index < log[b].index
  }

  /** An item is at a step only after it has been at the step before. */
  ghost predicate InStages(log: seq<Call>) {
    forall b :: 0 <= b < |log| && log[b].step > 0 ==> Call(log[b].step - 1, log[b].index) in log[..b]
  }

  /** The calls that a worker's place implies. */
  ghost predicate Behind(s: State, x: Worker) {
    && (0 < x.step < s.nSteps ==> Call(x.step - 1, x.index) in s.log)
    && (InStep(x) ==> Call(x.step, x.index) in s.log)
  }

  lemma InitInv(s: State)
    requires Init(s)
    ensures Inv(s)
  {
  }

  /** Clear looks at steps and indices only. */
  lemma SameClear(s: State, s': State, i: nat)
    requires |s'.w| == |s.w| && i < |s.w|
    requires forall j :: 0 <= j < |s.w| ==> s'.w[j].step == s.w[j].step && s'.w[j].index == s.w[j].index
    ensures Clear(s', i) <==> Clear(s, i)
  {
  }

  lemma LookInv(s: State, s': State, i: nat)
    requires Inv(s) && Look(s, s', i)
    ensures Inv(s')
  {
    hide Clear, Before, Behind;
    if Clear(s, i) {
      StartInv(s, s', i);
    } else {
      PcInv(s, s', i, Asleep);
    }
  }

  /** Only the place of worker i changes, and not whether it has begun its step. */
  lemma PcInv(s: State, s': State, i: nat, pc: Pc)
    requires Inv(s) && i < |s.w| && s'.(res := s.res) == s.(w := s.w[i := s.w[i].(pc := pc)])
    requires WorkerOk(s, s'.w[i]) && (pc == Asleep ==> !Clear(s, i))
    requires InStep(s'.w[i]) <==> InStep(s.w[i])
    ensures Inv(s')
  {
    assert Distinct(s') && Placed(s') && Logged(s') by { hide Clear, Before, Behind; }
    PcClear(s, s', i, pc);
    PcOvertaken(s, s', i, pc);
    PcTraced(s, s', i, pc);
    hide *;
    InvParts(s);
    InvOf(s');
  }

  lemma PcClear(s: State, s': State, i: nat, pc: Pc)
    requires Exclusive(s) && Waiting(s) && i < |s.w| && s'.(res := s.res) == s.(w := s.w[i := s.w[i].(pc := pc)])
    requires (pc == Asleep ==> !Clear(s, i)) && (InStep(s'.w[i]) ==> InStep(s.w[i]) || Clear(s, i))
    ensures Exclusive(s') && Waiting(s')
  {
    forall j | 0 <= j < |s.w| ensures Clear(s', j) <==> Clear(s, j) { SameClear(s, s', j); }
    hide Clear;
  }

  lemma PcTraced(s: State, s': State, i: nat, pc: Pc)
    requires Traced(s) && i < |s.w| && s'.(res := s.res) == s.(w := s.w[i := s.w[i].(pc := pc)])
    requires InStep(s'.w[i]) ==> InStep(s.w[i])
    ensures Traced(s')
  {
    forall j | 0 <= j < |s.w| ensures Behind(s', s'.w[j]) { assert Behind(s, s.w[j]); }
  }

  lemma PcOvertaken(s: State, s': State, i: nat, pc: Pc)
    requires Overtaken(s) && i < |s.w| && s'.(res := s.res) == s.(w := s.w[i := s.w[i].(pc := pc)])
    requires Placed(s) && Logged(s) && WorkerOk(s, s'.w[i]) && (InStep(s'.w[i]) <==> InStep(s.w[i]))
    ensures Overtaken(s')
  {
    forall e, j | 0 <= e < |s'.log| && 0 <= j < |s'.w| && Before(s'.w[j], s'.log[e].step)
      ensures s'.log[e].index < s'.w[j].index
    {
      assert WorkerOk(s, s.w[j]);
      assert Before(s.w[j], s.log[e].step);
    }
  }

  /** Worker i begins its step. */
  lemma StartInv(s: State, s': State, i: nat)
    requires Inv(s) && i < |s.w| && s.w[i].pc == Ready && Clear(s, i)
    requires s' == s.(w := s.w[i := s.w[i].(pc := Running)], log := s.log + [Call(s.w[i].step, s.w[i].index)])
    ensures Inv(s')
  {
    LogGrows(s, i);
    LookLog(s, s', i, Call(s.w[i].step, s.w[i].index));
    StartPlaced(s, s', i);
    PcClear(s, s'.(log := s.log), i, Running);
    SameWorkers(s', s'.(log := s.log));
    hide *;
    InvOf(s');
  }

  lemma StartPlaced(s: State, s': State, i: nat)
    requires Distinct(s) && Placed(s) && Logged(s) && i < |s.w| && s.w[i].pc == Ready
    requires s' == s.(w := s.w[i := s.w[i].(pc := Running)], log := s.log + [Call(s.w[i].step, s.w[i].index)])
    ensures Distinct(s') && Placed(s') && Logged(s')
  {
    assert WorkerOk(s, s.w[i]);
  }

  lemma SameWorkers(s: State, s': State)
    requires s.w == s'.w
    ensures Exclusive(s) == Exclusive(s') && Waiting(s) == Waiting(s')
  {
    forall j | 0 <= j < |s.w| ensures Clear(s', j) <==> Clear(s, j) { SameClear(s, s', j); }
    hide Clear;
  }

  /** The call that worker i begins comes after all calls of the same step. */
  lemma LogGrows(s: State, i: nat)
    requires Overtaken(s) && Traced(s) && InOrder(s.log) && InStages(s.log) && Placed(s) && i < |s.w| && s.w[i].pc == Ready
    ensures var log' := s.log + [Call(s.w[i].step, s.w[i].index)]; InOrder(log') && InStages(log')
  {
    hide InOrder, InStages;
    var x := s.w[i];
    assert Behind(s, x) && WorkerOk(s, x);
    forall a | 0 <= a < |s.log| && s.log[a].step == x.step ensures s.log[a].index < x.index {
      assert Before(x, s.log[a].step);
    }
    hide Overtaken, Traced, Placed;
    OrderGrows(s.log, Call(x.step, x.index));
    StagesGrow(s.log, Call(x.step, x.index));
  }

  lemma OrderGrows(log: seq<Call>, c: Call)
    requires InOrder(log) && forall a :: 0 <= a < |log| && log[a].step == c.step ==> log[a].index < c.index
    ensures InOrder(log + [c])
  {
  }

  lemma StagesGrow(log: seq<Call>, c: Call)
    requires InStages(log) && (c.step > 0 ==> Call(c.step - 1, c.index) in log)
    ensures InStages(log + [c])
  {
    var log' := log + [c];
    forall b | 0 <= b < |log'| && log'[b].step > 0 ensures Call(log'[b].step - 1, log'[b].index) in log'[..b] {
      if b < |log| {
        assert log'[b] == log[b] && log'[..b] == log[..b];
      } else {
        assert log'[..b] == log;
      }
    }
  }

  lemma ClearOf(s: State, i: nat, j: nat)
    requires i < |s.w| && j < |s.w| && j != i && Clear(s, i)
    ensures !(s.w[j].step <= s.w[i].step && s.w[j].index < s.w[i].index)
  {
  }

  lemma LookLog(s: State, s': State, i: nat, c: Call)
    requires i < |s.w|
    requires Distinct(s) && Overtaken(s) && Traced(s) && Clear(s, i)
    requires s.w[i].pc == Ready && c == Call(s.w[i].step, s.w[i].index)
    requires s' == s.(w := s.w[i := s.w[i].(pc := Running)], log := s.log + [c])
    ensures Overtaken(s') && Traced(s')
  {
    hide Clear, InOrder, InStages;
    forall e, j | 0 <= e < |s'.log| && 0 <= j < |s'.w| && Before(s'.w[j], s'.log[e].step)
      ensures s'.log[e].index < s'.w[j].index
    {
      if e < |s.log| {
        assert s'.log[e] == s.log[e] && Before(s.w[j], s.log[e].step);
      } else {
        assert j != i && s.w[j].index != s.w[i].index;
        ClearOf(s, i, j);
      }
    }
    forall j | 0 <= j < |s'.w| ensures Behind(s', s'.w[j]) { assert Behind(s, s.w[j]); }
  }

  lemma ReturnInv(s: State, s': State, i: nat, d: bool)
    requires Inv(s) && Return(s, s', i, d)
    ensures Inv(s')
  {
    assert WorkerOk(s, s.w[i]);
    hide Inv, Clear;
    PcInv(s, s', i, Ran(d));
  }

  lemma EnterInv(s: State, s': State, i: nat)
    requires Inv(s) && Enter(s, s', i)
    ensures Inv(s')
  {
    assert WorkerOk(s, s.w[i]);
    hide Inv, Clear;
    PcInv(s, s', i, s'.w[i].pc);
  }

  lemma UpdateInv(s: State, s': State, i: nat)
    requires Inv(s) && Update(s, s', i)
    ensures Inv(s')
  {
    UpdateWorkers(s, s', i);
    UpdateClear(s, s', i);
    UpdateLog(s, s', i);
    hide *;
    assert s'.log == s.log by { UpdateKeepsLog(s, s', i); }
    InvParts(s);
    InvOf(s');
  }

  lemma UpdateKeepsLog(s: State, s': State, i: nat)
    requires Update(s, s', i)
    ensures s'.log == s.log
  {
  }

  lemma InvParts(s: State)
    requires Inv(s)
    ensures InOrder(s.log) && InStages(s.log)
  {
  }

  lemma InvOf(s: State)
    requires Distinct(s) && Placed(s) && Exclusive(s) && Waiting(s)
    requires Logged(s) && Overtaken(s) && InOrder(s.log) && InStages(s.log) && Traced(s)
    ensures Inv(s)
  {
  }

  lemma UpdateWorkers(s: State, s': State, i: nat)
    requires Inv(s) && Update(s, s', i)
    ensures Distinct(s') && Placed(s') && Traced(s') && Waiting(s') && Logged(s')
  {
    hide Clear, InOrder, InStages, Before, Behind, WorkerOk, After, Exclusive, Overtaken;
    forall j | 0 <= j < |s'.w| ensures WorkerOk(s', s'.w[j]) && Behind(s', s'.w[j]) {
      assert WorkerOk(s, s.w[j]) && Behind(s, s.w[j]);
      if j == i { UpdateOwn(s, s', i); } else { UpdateOther(s, s', i, j); }
    }
    UpdateDistinct(s, s', i);
    UpdateLogged(s, s', i);
  }

  lemma UpdateOwn(s: State, s': State, i: nat)
    requires Update(s, s', i) && WorkerOk(s, s.w[i]) && Behind(s, s.w[i])
    ensures WorkerOk(s', s'.w[i]) && Behind(s', s'.w[i])
  {
  }

  lemma UpdateOther(s: State, s': State, i: nat, j: nat)
    requires Update(s, s', i) && j < |s.w| && j != i && WorkerOk(s, s.w[j]) && Behind(s, s.w[j])
    ensures WorkerOk(s', s'.w[j]) && Behind(s', s'.w[j])
  {
  }

  lemma UpdateDistinct(s: State, s': State, i: nat)
    requires Distinct(s) && Placed(s) && Update(s, s', i)
    ensures Distinct(s') && Waiting(s')
  {
    hide After, Clear;
    assert forall j :: 0 <= j < |s.w| ==> s.w[j].index < s.next && (j != i ==> s'.w[j].index == s.w[j].index);
  }

  lemma UpdateLogged(s: State, s': State, i: nat)
    requires Logged(s) && Update(s, s', i)
    ensures Logged(s')
  {
    hide After;
  }

  lemma UpdateClear(s: State, s': State, i: nat)
    requires Inv(s) && Update(s, s', i)
    ensures Exclusive(s')
  {
    hide InOrder, InStages, Before, Behind;
    forall j | 0 <= j < |s'.w| && InStep(s'.w[j]) ensures Clear(s', j) {
      assert j != i && s'.w[j] == s.w[j] && Clear(s, j) && WorkerOk(s, s.w[j]);
      forall k | 0 <= k < |s'.w| && k != j
        ensures !(s'.w[k].step <= s'.w[j].step && s'.w[k].index < s'.w[j].index)
      {
        assert !(s.w[k].step <= s.w[j].step && s.w[k].index < s.w[j].index);
      }
    }
  }

  lemma UpdateLog(s: State, s': State, i: nat)
    requires Inv(s) && Update(s, s', i)
    ensures Overtaken(s')
  {
    hide InOrder, InStages, Clear, Behind, Exclusive, Waiting, Traced, Distinct;
    forall e, j | 0 <= e < |s'.log| && 0 <= j < |s'.w| && Before(s'.w[j], s'.log[e].step)
      ensures s'.log[e].index < s'.w[j].index
    {
      assert s.log[e].index < s.next && s.log[e].step < s.nSteps;
      if j != i || s'.w[i].index == s.w[i].index {
        assert Before(s.w[j], s.log[e].step);
      }
    }
  }

  lemma NextInv(s: State, s': State, i: nat)
    requires Inv(s) && StepBy(s, s', i)
    ensures Inv(s')
  {
    if Enter(s, s', i) {
      EnterInv(s, s', i);
    } else if Look(s, s', i) {
      LookInv(s, s', i);
    } else if Update(s, s', i) {
      UpdateInv(s, s', i);
    } else {
      var d :| Return(s, s', i, d);
      ReturnInv(s, s', i, d);
    }
  }

  // ------------------------------------------------------------------
  // Safety and progress in one state
  // ------------------------------------------------------------------

  /** While x is at work on a step, y is not at work on it; and y is past it if its index is smaller. */
  predicate Apart(x: Worker, y: Worker) {
    InStep(x) ==> (InStep(y) ==> x.step != y.step) && (y.index < x.index ==> x.step < y.step)
  }

  lemma OneAtATime(s: State, i: nat, j: nat)
    requires Inv(s) && i < |s.w| && j < |s.w| && i != j && InStep(s.w[i])
    ensures Apart(s.w[i], s.w[j])
  {
    ClearOf(s, i, j);
    if InStep(s.w[j]) { ClearOf(s, j, i); }
  }

  /** y holds an earlier item and is not past the step that x is at: what x has to wait for. */
  predicate Ahead(y: Worker, x: Worker) { y.step <= x.step && y.index < x.index }

  lemma SleepsBehind(s: State, i: nat)
    requires Inv(s) && i < |s.w| && s.w[i].pc == Asleep
    ensures exists j :: 0 <= j < |s.w| && Ahead(s.w[j], s.w[i])
  {
    assert !Clear(s, i);
    var j :| 0 <= j < |s.w| && j != i && s.w[j].step <= s.w[i].step && s.w[j].index < s.w[i].index;
    assert Ahead(s.w[j], s.w[i]);
  }

  ghost predicate Finished(s: State) { forall i :: 0 <= i < |s.w| ==> s.w[i].pc == Gone }

  /** The worker with the least index among those that have not gone. */
  ghost predicate Front(s: State, i: nat) {
    && i < |s.w| && s.w[i].pc != Gone
    && forall j :: 0 <= j < |s.w| && s.w[j].pc != Gone ==> s.w[i].index <= s.w[j].index
  }

  lemma {:induction false} FrontUpTo(s: State, m: nat) returns (i: nat)
    requires m <= |s.w| && exists j :: 0 <= j < m && s.w[j].pc != Gone
    ensures i < m && s.w[i].pc != Gone
    ensures forall j :: 0 <= j < m && s.w[j].pc != Gone ==> s.w[i].index <= s.w[j].index
  {
    if exists j :: 0 <= j < m - 1 && s.w[j].pc != Gone {
      i := FrontUpTo(s, m - 1);
      if s.w[m - 1].pc != Gone && s.w[m - 1].index < s.w[i].index { i := m - 1; }
    } else {
      i := m - 1;
    }
  }

  /** The front worker is never blocked. */
  lemma FrontRuns(s: State, i: nat)
    requires Inv(s) && Front(s, i)
    ensures s.w[i].pc != Asleep
    ensures exists s' :: StepBy(s, s', i)
  {
    assert WorkerOk(s, s.w[i]);
    if s.w[i].pc == Asleep || s.w[i].pc == Ready {
      forall j | 0 <= j < |s.w| && j != i ensures !(s.w[j].step <= s.w[i].step && s.w[j].index < s.w[i].index) {
        assert WorkerOk(s, s.w[j]);
      }
      assert Clear(s, i);
    }
    hide Inv;
    CanStep(s, i);
  }

  lemma CanStep(s: State, i: nat)
    requires i < |s.w| && s.w[i].pc != Gone && s.w[i].pc != Asleep && (s.w[i].pc.Ran? ==> s.w[i].step < s.nSteps)
    ensures exists s' :: StepBy(s, s', i)
  {
    var x := s.w[i];
    if x.pc == Test {
      var s' := s.(w := s.w[i := x.(pc := if x.step < s.nSteps then Ready else Gone)]);
      assert Enter(s, s', i) && StepBy(s, s', i);
    } else if x.pc == Ready {
      var s' := if Clear(s, i) then s.(w := s.w[i := x.(pc := Running)], log := s.log + [Call(x.step, x.index)])
                else s.(w := s.w[i := x.(pc := Asleep)]);
      assert Look(s, s', i) && StepBy(s, s', i);
    } else if x.pc == Running {
      var s' := s.(w := s.w[i := x.(pc := Ran(true))], res := s.res + [Result(x.step, x.index, true)]);
      assert Return(s, s', i, true) && StepBy(s, s', i);
    } else {
      var k := After(s.nSteps, x.step, x.pc.data);
      var y := Worker(k, if k == 0 then s.next else x.index, Test);
      var s' := State(s.nSteps, if k == 0 then s.next + 1 else s.next,
                      seq(|s.w|, j requires 0 <= j < |s.w| => if j == i then y else Woken(s.w[j])), s.log, s.res);
      assert Update(s, s', i) && StepBy(s, s', i);
    }
  }

  // ------------------------------------------------------------------
  // Ending
  // ------------------------------------------------------------------

  /** The updates a worker has still to make if the first step yields nothing more. */
  function Left(nSteps: nat, x: Worker): nat {
    if x.pc == Gone || x.step >= nSteps then 0
    else if x.step > 0 then nSteps - x.step + 1
    else if x.pc == Ran(true) then nSteps + 1
    else 1
  }

  function Lefts(nSteps: nat, w: seq<Worker>): nat {
    if w == [] then 0 else Lefts(nSteps, w[..|w| - 1]) + Left(nSteps, w[|w| - 1])
  }

  function Rank(x: Worker): nat {
    match x.pc
    case Test => 4
    case Ready => 3
    case Running => 2
    case Ran(_) => 1
    case Asleep => 0
    case Gone => 0
  }

  function Ranks(w: seq<Worker>): nat {
    if w == [] then 0 else Ranks(w[..|w| - 1]) + Rank(w[|w| - 1])
  }

  lemma {:induction false} RanksBound(w: seq<Worker>)
    ensures Ranks(w) <= 4 * |w|
  {
    if w != [] { RanksBound(w[..|w| - 1]); }
  }

  lemma {:induction false} LeftsChange(nSteps: nat, w: seq<Worker>, w': seq<Worker>, i: nat)
    requires |w| == |w'| && i < |w| && forall j :: 0 <= j < |w| && j != i ==> Left(nSteps, w[j]) == Left(nSteps, w'[j])
    ensures Lefts(nSteps, w') - Left(nSteps, w'[i]) == Lefts(nSteps, w) - Left(nSteps, w[i])
  {
    var m := |w| - 1;
    if i < m {
      LeftsChange(nSteps, w[..m], w'[..m], i);
    } else {
      LeftsSame(nSteps, w[..m], w'[..m]);
    }
  }

  lemma {:induction false} LeftsSame(nSteps: nat, w: seq<Worker>, w': seq<Worker>)
    requires |w| == |w'| && forall j :: 0 <= j < |w| ==> Left(nSteps, w[j]) == Left(nSteps, w'[j])
    ensures Lefts(nSteps, w') == Lefts(nSteps, w)
  {
    if w != [] { LeftsSame(nSteps, w[..|w| - 1], w'[..|w| - 1]); }
  }

  lemma {:induction false} RanksChange(w: seq<Worker>, i: nat, x: Worker)
    requires i < |w|
    ensures Ranks(w[i := x]) == Ranks(w) - Rank(w[i]) + Rank(x)
  {
    var m := |w| - 1;
    if i < m {
      RanksChange(w[..m], i, x);
      assert w[i := x][..m] == w[..m][i := x];
    } else {
      assert w[i := x][..m] == w[..m];
    }
  }

  /** A step in which the first stage, if it returns, has nothing more to give. */
  ghost predicate DryStep(s: State, s': State, i: nat) {
    && StepBy(s, s', i)
    && (i < |s.w| && s.w[i].pc == Running && s.w[i].step == 0 ==> !Return(s, s', i, true))
  }

  ghost predicate DryNext(s: State, s': State) { exists i: nat :: DryStep(s, s', i) }

  ghost function Measure(s: State): nat {
    Lefts(s.nSteps, s.w) * (4 * |s.w| + 1) + Ranks(s.w)
  }

  /** A step that moves one worker on without an update. */
  ghost predicate Small(s: State, s': State, i: nat) {
    && i < |s.w| && |s'.w| == |s.w| && s'.nSteps == s.nSteps && s'.w == s.w[i := s'.w[i]]
    && Rank(s'.w[i]) < Rank(s.w[i]) && Left(s.nSteps, s'.w[i]) <= Left(s.nSteps, s.w[i])
  }

  /** An update: one fewer of them is left. */
  ghost predicate Big(s: State, s': State, i: nat) {
    && i < |s.w| && |s'.w| == |s.w| && s'.nSteps == s.nSteps
    && Left(s.nSteps, s'.w[i]) < Left(s.nSteps, s.w[i])
    && forall j :: 0 <= j < |s.w| && j != i ==> Left(s.nSteps, s'.w[j]) == Left(s.nSteps, s.w[j])
  }

  lemma UpdateBig(s: State, s': State, i: nat)
    requires s.nSteps != 1 && Update(s, s', i)
    ensures Big(s, s', i)
  {
    forall j | 0 <= j < |s.w| && j != i ensures Left(s.nSteps, s'.w[j]) == Left(s.nSteps, s.w[j]) {
      assert s'.w[j] == Woken(s.w[j]);
    }
    AfterLeft(s.nSteps, s.w[i], s'.w[i]);
  }

  lemma AfterLeft(n: nat, x: Worker, y: Worker)
    requires n >= 2 && x.pc.Ran? && x.step < n && y.pc == Test && y.step == After(n, x.step, x.pc.data)
    ensures Left(n, y) < Left(n, x)
  {
    AfterIs(n, x.step, x.pc.data);
    hide After;
  }

  lemma AfterIs(n: nat, k: nat, data: bool)
    requires k < n
    ensures After(n, k, data) == if k == n - 1 then 0 else if data then k + 1 else n
  {
    if k < n - 1 { SmallMod(k + 1, n); } else { SelfMod(n); }
  }

  lemma DryKinds(s: State, s': State, i: nat)
    requires s.nSteps != 1 && DryStep(s, s', i)
    ensures Small(s, s', i) || Big(s, s', i)
  {
    hide Clear, Update;
    if Update(s, s', i) { UpdateBig(s, s', i); }
  }

  /** Once the first stage is dry every step brings the end nearer. */
  lemma DryMeasure(s: State, s': State, i: nat)
    requires s.nSteps != 1 && DryStep(s, s', i)
    ensures Measure(s') < Measure(s)
  {
    DryKinds(s, s', i);
    if Small(s, s', i) { SmallMeasure(s, s', i); } else { BigMeasure(s, s', i); }
  }

  lemma SmallMeasure(s: State, s': State, i: nat)
    requires Small(s, s', i)
    ensures Measure(s') < Measure(s)
  {
    LeftsChange(s.nSteps, s.w, s'.w, i);
    RanksChange(s.w, i, s'.w[i]);
    hide Left, Rank, Lefts, Ranks;
    Scaled(Lefts(s.nSteps, s'.w), Lefts(s.nSteps, s.w), 4 * |s.w| + 1);
  }

  lemma BigMeasure(s: State, s': State, i: nat)
    requires Big(s, s', i)
    ensures Measure(s') < Measure(s)
  {
    LeftsChange(s.nSteps, s.w, s'.w, i);
    RanksBound(s'.w);
    hide Left, Rank, Lefts, Ranks;
    Scaled(Lefts(s.nSteps, s'.w) + 1, Lefts(s.nSteps, s.w), 4 * |s.w| + 1);
  }

  lemma Scaled(a: nat, b: nat, k: nat)
    requires a <= b
    ensures a * k <= b * k && (a + 1) * k == a * k + k
    ensures a > 0 ==> (a - 1) * k == a * k - k
  {
  }

  // ------------------------------------------------------------------
  // Runs
  // ------------------------------------------------------------------

  ghost predicate IsRun(r: seq<State>) {
    && r != [] && Init(r[0])
    && forall j, k :: 0 <= j && k == j + 1 && k < |r| ==> Next(r[j], r[k])
  }

  lemma {:induction false} RunInvariant(r: seq<State>)
    requires IsRun(r)
    ensures Inv(r[|r| - 1]) && r[|r| - 1].nSteps == r[0].nSteps && |r[|r| - 1].w| == |r[0].w|
  {
    if |r| == 1 {
      InitInv(r[0]);
    } else {
      var m := |r| - 1;
      RunInvariant(r[..m]);
      assert r[..m][m - 1] == r[m - 1] && r[..m][0] == r[0];
      assert Next(r[m - 1], r[m]);
      var i: nat :| StepBy(r[m - 1], r[m], i);
      NextInv(r[m - 1], r[m], i);
    }
  }

  /** In every state that can be reached: at most one worker is at work on a step, and all workers
      with smaller indices are past it; each step has been given the items in increasing order, and
      each item its steps in order; a worker sleeps only behind one with an earlier item that is not past
      its step; and unless all workers have gone, the front worker is awake and can take a step. */
  lemma PipelineSafe(r: seq<State>)
    requires IsRun(r)
    ensures var s := r[|r| - 1];
            && (forall i, j :: 0 <= i < |s.w| && 0 <= j < |s.w| && i != j ==> Apart(s.w[i], s.w[j]))
            && InOrder(s.log) && InStages(s.log)
            && (forall i :: 0 <= i < |s.w| && s.w[i].pc == Asleep ==> exists j :: 0 <= j < |s.w| && Ahead(s.w[j], s.w[i]))
            && (Finished(s) || exists i: nat, s' :: Front(s, i) && s.w[i].pc != Asleep && StepBy(s, s', i))
  {
    RunInvariant(r);
    var s := r[|r| - 1];
    forall i, j | 0 <= i < |s.w| && 0 <= j < |s.w| && i != j ensures Apart(s.w[i], s.w[j]) {
      if InStep(s.w[i]) { OneAtATime(s, i, j); }
    }
    InvParts(s);
    forall i | 0 <= i < |s.w| && s.w[i].pc == Asleep ensures exists j :: 0 <= j < |s.w| && Ahead(s.w[j], s.w[i]) {
      SleepsBehind(s, i);
    }
    if !Finished(s) {
      var i := FrontUpTo(s, |s.w|);
      FrontRuns(s, i);
      var s' :| StepBy(s, s', i);
      assert Front(s, i) && StepBy(s, s', i);
    }
  }

  /** From any reachable state on, a run of dry steps is bounded. */
  lemma {:induction false} DryRunEnds(s: State, r: seq<State>)
    requires Inv(s) && s.nSteps != 1 && r != [] && r[0] == s
    requires forall j, k :: 0 <= j && k == j + 1 && k < |r| ==> DryNext(r[j], r[k])
    ensures Inv(r[|r| - 1]) && r[|r| - 1].nSteps == s.nSteps
    ensures |r| - 1 + Measure(r[|r| - 1]) <= Measure(s)
  {
    if |r| > 1 {
      var m := |r| - 1;
      DryRunEnds(s, r[..m]);
      assert r[..m][m - 1] == r[m - 1];
      var j, k := m - 1, m;
      assert DryNext(r[j], r[k]);
      var i: nat :| DryStep(r[j], r[k], i);
      DryMeasure(r[j], r[k], i);
      NextInv(r[j], r[k], i);
    }
  }

  /** With a single step the update always goes back to that step, data or not: no worker ever leaves. */
  lemma {:induction false} OneStepNeverEnds(r: seq<State>)
    requires IsRun(r) && r[0].nSteps == 1
    ensures var s := r[|r| - 1]; |s.w| == |r[0].w| && s.nSteps == 1 && forall i :: 0 <= i < |s.w| ==> s.w[i].step == 0 && s.w[i].pc != Gone
  {
    if |r| > 1 {
      var m := |r| - 1;
      OneStepNeverEnds(r[..m]);
      assert r[..m][m - 1] == r[m - 1] && r[..m][0] == r[0];
      assert Next(r[m - 1], r[m]);
    }
  }
}
