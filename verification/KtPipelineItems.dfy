/** What becomes of the items in the pipeline of klib/kthread.c: each one is given the steps in order,
    once each, up to the first that yields nothing. */
module KtPipelineItems {
  import opened KtPipeline

  // ------------------------------------------------------------------
  // The history of one item
  // ------------------------------------------------------------------

  /** Item x has been given steps 0 to m-1, once each, and no other. */
  ghost predicate Had(log: seq<Call>, x: nat, m: nat) {
    forall k: nat :: multiset(log)[Call(k, x)] == if k < m then 1 else 0
  }

  /** Steps 0 to m-1 on x have come back, once each, and no other; all with data, but for the last
      one, which is as told. */
  ghost predicate Gave(res: seq<Result>, x: nat, m: nat, last: bool) {
    forall k: nat, d: bool :: multiset(res)[Result(k, x, d)] == if k < m && d == (if k == m - 1 then last else true) then 1 else 0
  }

  ghost predicate Story(s: State, x: nat, begun: nat, returned: nat, last: bool) {
    Had(s.log, x, begun) && Gave(s.res, x, returned, last)
  }

  /** No step comes after the first one without data; with no steps at all there is nothing to give. */
  ghost predicate Stopped(s: State, x: nat) {
    if s.nSteps == 0 then Story(s, x, 0, 0, true) else exists m :: 1 <= m < s.nSteps && Story(s, x, m, m, false)
  }

  /** The item has been through all steps. */
  ghost predicate Through(s: State, x: nat) { s.nSteps > 0 && exists d :: Story(s, x, s.nSteps, s.nSteps, d) }

  /** The item that worker x holds. */
  ghost predicate Holds(s: State, x: Worker) {
    if x.step < s.nSteps then
      Story(s, x.index, x.step + (if InStep(x) then 1 else 0), x.step + (if x.pc.Ran? then 1 else 0), x.pc.Ran? ==> x.pc.data)
    else
      Stopped(s, x.index)
  }

  ghost predicate Held(s: State, x: nat) { exists j :: 0 <= j < |s.w| && s.w[j].index == x }

  ghost predicate Items(s: State) {
    && (forall j :: 0 <= j < |s.w| ==> Holds(s, s.w[j]))
    && (forall x: nat :: x < s.next && !Held(s, x) ==> Through(s, x))
    && (forall x: nat :: s.next <= x ==> Story(s, x, 0, 0, true))
  }

  // ------------------------------------------------------------------
  // What one call or result changes
  // ------------------------------------------------------------------

  lemma HadOther(log: seq<Call>, c: Call, x: nat, m: nat)
    requires Had(log, x, m) && c.index != x
    ensures Had(log + [c], x, m)
  {
  }

  lemma HadOwn(log: seq<Call>, x: nat, m: nat)
    requires Had(log, x, m)
    ensures Had(log + [Call(m, x)], x, m + 1)
  {
  }

  lemma GaveOther(res: seq<Result>, c: Result, x: nat, m: nat, last: bool)
    requires Gave(res, x, m, last) && c.index != x
    ensures Gave(res + [c], x, m, last)
  {
  }

  lemma GaveOwn(res: seq<Result>, x: nat, m: nat, d: bool)
    requires Gave(res, x, m, true)
    ensures Gave(res + [Result(m, x, d)], x, m + 1, d)
  {
  }

  /** A call or a result for item y leaves the history of every other item as it is. */
  ghost predicate Only(s: State, s': State, y: nat) {
    && s'.nSteps == s.nSteps
    && (s'.log == s.log || exists k :: s'.log == s.log + [Call(k, y)])
    && (s'.res == s.res || exists k, d :: s'.res == s.res + [Result(k, y, d)])
  }

  lemma StoryOther(s: State, s': State, y: nat, x: nat, begun: nat, returned: nat, last: bool)
    requires Only(s, s', y) && x != y && Story(s, x, begun, returned, last)
    ensures Story(s', x, begun, returned, last)
  {
    hide Had, Gave;
    if s'.log != s.log {
      var k :| s'.log == s.log + [Call(k, y)];
      HadOther(s.log, Call(k, y), x, begun);
    }
    if s'.res != s.res {
      var k, d :| s'.res == s.res + [Result(k, y, d)];
      GaveOther(s.res, Result(k, y, d), x, returned, last);
    }
  }

  lemma StoppedOther(s: State, s': State, y: nat, x: nat)
    requires Only(s, s', y) && x != y && Stopped(s, x)
    ensures Stopped(s', x)
  {
    hide Only, Story;
    assert s'.nSteps == s.nSteps by { OnlySteps(s, s', y); }
    if s.nSteps == 0 {
      StoryOther(s, s', y, x, 0, 0, true);
    } else {
      var m :| 1 <= m < s.nSteps && Story(s, x, m, m, false);
      StoryOther(s, s', y, x, m, m, false);
    }
  }

  lemma OnlySteps(s: State, s': State, y: nat)
    requires Only(s, s', y)
    ensures s'.nSteps == s.nSteps
  {
  }

  lemma HoldsOther(s: State, s': State, y: nat, x: Worker)
    requires Only(s, s', y) && x.index != y && Holds(s, x)
    ensures Holds(s', x)
  {
    hide Only, Story, Stopped;
    OnlySteps(s, s', y);
    if x.step < s.nSteps {
      StoryOther(s, s', y, x.index, x.step + (if InStep(x) then 1 else 0), x.step + (if x.pc.Ran? then 1 else 0), x.pc.Ran? ==> x.pc.data);
    } else {
      StoppedOther(s, s', y, x.index);
    }
  }

  lemma ThroughOther(s: State, s': State, y: nat, x: nat)
    requires Only(s, s', y) && x != y && Through(s, x)
    ensures Through(s', x)
  {
    hide Only, Story;
    OnlySteps(s, s', y);
    var d :| Story(s, x, s.nSteps, s.nSteps, d);
    StoryOther(s, s', y, x, s.nSteps, s.nSteps, d);
  }

  /** Only worker i moves, with the item it holds. */
  lemma ItemsMoved(s: State, s': State, i: nat)
    requires Items(s) && Distinct(s) && i < |s.w| && s.w[i].index < s.next
    requires |s'.w| == |s.w| && s'.w == s.w[i := s'.w[i]] && s'.w[i].index == s.w[i].index && s'.next == s.next
    requires Only(s, s', s.w[i].index) && Holds(s', s'.w[i])
    ensures Items(s')
  {
    hide Only, Holds, Through, Story;
    var y := s.w[i].index;
    forall j | 0 <= j < |s'.w| ensures Holds(s', s'.w[j]) {
      if j != i { HoldsOther(s, s', y, s.w[j]); }
    }
    forall x: nat | x < s'.next && !Held(s', x) ensures Through(s', x) {
      HeldSame(s, s', i, x);
      assert x != y;
      ThroughOther(s, s', y, x);
    }
    forall x: nat | s'.next <= x ensures Story(s', x, 0, 0, true) {
      StoryOther(s, s', y, x, 0, 0, true);
    }
  }

  lemma HeldSame(s: State, s': State, i: nat, x: nat)
    requires i < |s.w| == |s'.w| && s'.w == s.w[i := s'.w[i]] && s'.w[i].index == s.w[i].index
    ensures Held(s, x) ==> Held(s', x)
    ensures Held(s', s.w[i].index)
  {
    if Held(s, x) {
      var j :| 0 <= j < |s.w| && s.w[j].index == x;
      assert s'.w[j].index == x;
    }
    assert s'.w[i].index == s.w[i].index;
  }

  // ------------------------------------------------------------------
  // Every step keeps it
  // ------------------------------------------------------------------

  lemma InitItems(s: State)
    requires Init(s)
    ensures Items(s)
  {
    forall x: nat | x < s.next ensures Held(s, x) { assert s.w[x].index == x; }
  }

  /** Between the head of the loop, the look around and sleep nothing happens to the item. */
  lemma PcItems(s: State, s': State, i: nat, pc: Pc)
    requires Inv(s) && Items(s) && i < |s.w| && s' == s.(w := s.w[i := s.w[i].(pc := pc)])
    requires !InStep(s.w[i]) && !InStep(s'.w[i])
    ensures Items(s')
  {
    hide Inv, Story, Clear;
    ItemsParts(s, i);
    assert Holds(s', s'.w[i]) by { SameHolds(s, s', s.w[i], s'.w[i]); }
    ItemsMoved(s, s', i);
  }

  lemma SameHolds(s: State, s': State, x: Worker, x': Worker)
    requires Holds(s, x) && s'.log == s.log && s'.res == s.res && s'.nSteps == s.nSteps
    requires x'.step == x.step && x'.index == x.index && !InStep(x) && !InStep(x')
    ensures Holds(s', x')
  {
    SameStopped(s, s', x.index);
    hide Stopped, Had, Gave;
  }

  lemma SameStopped(s: State, s': State, x: nat)
    requires s'.log == s.log && s'.res == s.res && s'.nSteps == s.nSteps
    ensures Stopped(s, x) ==> Stopped(s', x)
  {
    hide Had, Gave;
    if s.nSteps > 0 && Stopped(s, x) {
      var m :| 1 <= m < s.nSteps && Story(s, x, m, m, false);
      assert Story(s', x, m, m, false);
    }
  }

  lemma ItemsParts(s: State, i: nat)
    requires Inv(s) && Items(s) && i < |s.w|
    ensures Distinct(s) && s.w[i].index < s.next && WorkerOk(s, s.w[i]) && Holds(s, s.w[i])
  {
    assert WorkerOk(s, s.w[i]);
  }

  lemma StartItems(s: State, s': State, i: nat)
    requires Inv(s) && Items(s) && i < |s.w| && s.w[i].pc == Ready
    requires s' == s.(w := s.w[i := s.w[i].(pc := Running)], log := s.log + [Call(s.w[i].step, s.w[i].index)])
    ensures Items(s')
  {
    hide Inv, Had, Gave;
    ItemsParts(s, i);
    var x := s.w[i];
    HadOwn(s.log, x.index, x.step);
    assert Only(s, s', x.index);
    ItemsMoved(s, s', i);
  }

  lemma ReturnItems(s: State, s': State, i: nat, d: bool)
    requires Inv(s) && Items(s) && Return(s, s', i, d)
    ensures Items(s')
  {
    hide Inv, Had, Gave;
    ItemsParts(s, i);
    var x := s.w[i];
    GaveOwn(s.res, x.index, x.step, d);
    assert Only(s, s', x.index);
    ItemsMoved(s, s', i);
  }

  /** What a worker does after a step. With data it takes the item on; after the last step, with or
      without data, it takes a new item; otherwise it leaves. */
  lemma WhatNext(s: State, s': State, i: nat)
    requires Update(s, s', i)
    ensures var x := s.w[i];
            if x.step == s.nSteps - 1 then s'.w[i] == Worker(0, s.next, Test) && s'.next == s.next + 1
            else s'.w[i] == Worker(if x.pc.data then x.step + 1 else s.nSteps, x.index, Test) && s'.next == s.next
  {
    AfterIs(s.nSteps, s.w[i].step, s.w[i].pc.data);
    hide After;
  }

  lemma UpdateItems(s: State, s': State, i: nat)
    requires Inv(s) && Items(s) && Update(s, s', i)
    ensures Items(s')
  {
    hide Inv, Story, After;
    ItemsParts(s, i);
    WhatNext(s, s', i);
    var x := s.w[i];
    forall j | 0 <= j < |s'.w| ensures Holds(s', s'.w[j]) {
      if j == i { UpdateHolds(s, s', i); } else { WokenHolds(s, s', s.w[j]); }
    }
    forall y: nat | y < s'.next && !Held(s', y) ensures Through(s', y) { UpdateThrough(s, s', i, y); }
    forall y: nat | s'.next <= y ensures Story(s', y, 0, 0, true) { SameStory(s, s', y, 0, 0, true); }
  }

  lemma SameStory(s: State, s': State, x: nat, begun: nat, returned: nat, last: bool)
    requires s'.log == s.log && s'.res == s.res && Story(s, x, begun, returned, last)
    ensures Story(s', x, begun, returned, last)
  {
    hide Had, Gave;
  }

  lemma WokenHolds(s: State, s': State, x: Worker)
    requires Holds(s, x) && s'.log == s.log && s'.res == s.res && s'.nSteps == s.nSteps
    ensures Holds(s', Woken(x))
  {
    SameStopped(s, s', x.index);
    hide Stopped, Had, Gave;
  }

  lemma UpdateHolds(s: State, s': State, i: nat)
    requires Inv(s) && Items(s) && Update(s, s', i)
    ensures Holds(s', s'.w[i])
  {
    hide Inv, After, Had, Gave;
    ItemsParts(s, i);
    WhatNext(s, s', i);
    var x := s.w[i];
    if x.step == s.nSteps - 1 {
      assert Story(s, s.next, 0, 0, true);
    } else {
      assert Story(s', x.index, x.step + 1, x.step + 1, x.pc.data);
    }
  }

  /** An item that nobody holds any more has just been through its last step. */
  lemma UpdateThrough(s: State, s': State, i: nat, y: nat)
    requires Inv(s) && Items(s) && Update(s, s', i) && y < s'.next && !Held(s', y)
    ensures Through(s', y)
  {
    hide Inv, After, Had, Gave;
    ItemsParts(s, i);
    WhatNext(s, s', i);
    var x := s.w[i];
    assert s'.w[i].index != y;
    if y == x.index {
      assert Story(s', y, s.nSteps, s.nSteps, x.pc.data);
    } else {
      HeldStays(s, s', i, y);
      var d :| Story(s, y, s.nSteps, s.nSteps, d);
      assert Story(s', y, s.nSteps, s.nSteps, d);
    }
  }

  lemma HeldStays(s: State, s': State, i: nat, y: nat)
    requires Update(s, s', i) && y != s.w[i].index
    ensures Held(s, y) ==> Held(s', y)
  {
    hide After;
    if Held(s, y) {
      var j :| 0 <= j < |s.w| && s.w[j].index == y;
      assert s'.w[j].index == y;
    }
  }

  lemma NextItems(s: State, s': State, i: nat)
    requires Inv(s) && Items(s) && StepBy(s, s', i)
    ensures Items(s')
  {
    hide Inv, Items, Clear, Update;
    if Enter(s, s', i) {
      PcItems(s, s', i, s'.w[i].pc);
    } else if Look(s, s', i) {
      if Clear(s, i) { StartItems(s, s', i); } else { PcItems(s, s', i, Asleep); }
    } else if Update(s, s', i) {
      UpdateItems(s, s', i);
    } else {
      var d :| Return(s, s', i, d);
      ReturnItems(s, s', i, d);
    }
  }

  // ------------------------------------------------------------------
  // Runs
  // ------------------------------------------------------------------

  lemma {:induction false} RunItems(r: seq<State>)
    requires IsRun(r)
    ensures Inv(r[|r| - 1]) && Items(r[|r| - 1])
  {
    RunInvariant(r);
    if |r| == 1 {
      InitItems(r[0]);
    } else {
      var m := |r| - 1;
      RunItems(r[..m]);
      assert r[..m][m - 1] == r[m - 1] && r[..m][0] == r[0];
      assert Next(r[m - 1], r[m]);
      var i: nat :| StepBy(r[m - 1], r[m], i);
      NextItems(r[m - 1], r[m], i);
    }
  }

  /** A worker is about to give step k + 1 to its item: it has just had data from step k, or waits
      for its turn. */
  predicate Due(x: Worker, k: nat) {
    (x.step == k && x.pc == Ran(true)) || (x.step == k + 1 && (x.pc == Test || x.pc == Ready || x.pc == Asleep))
  }

  /** Data is passed on: the next step has begun on the item, or a worker is about to give it. */
  ghost predicate PassedOn(s: State) {
    forall k: nat, x: nat :: Result(k, x, true) in s.res && k + 1 < s.nSteps ==>
      Call(k + 1, x) in s.log || exists j :: 0 <= j < |s.w| && s.w[j].index == x && Due(s.w[j], k)
  }

  /** An item on which a step has come back empty gets no later step. */
  ghost predicate StopsThere(s: State) {
    forall k: nat, x: nat, l: nat :: Result(k, x, false) in s.res && k < l ==> Call(l, x) !in s.log
  }

  /** Nobody leaves with an item that has had the last step. */
  ghost predicate LeavesEarly(s: State) {
    forall j :: 0 <= j < |s.w| && s.w[j].pc == Gone && s.nSteps > 0 ==> Call(s.nSteps - 1, s.w[j].index) !in s.log
  }

  /** The item has had exactly steps 0 to m-1, once each: all steps, or those up to the first that
      gave nothing. */
  ghost predicate Served(s: State, x: nat, m: nat) {
    && m <= s.nSteps && (s.nSteps > 0 ==> m > 0)
    && (forall k: nat :: multiset(s.log)[Call(k, x)] == if k < m then 1 else 0)
    && (forall k: nat :: k + 1 < m ==> Result(k, x, true) in s.res && Result(k, x, false) !in s.res)
    && (0 < m < s.nSteps ==> Result(m - 1, x, false) in s.res && Result(m - 1, x, true) !in s.res)
  }

  lemma StoryServed(s: State, x: nat, m: nat, last: bool)
    requires Story(s, x, m, m, last) && m <= s.nSteps && (s.nSteps > 0 ==> m > 0) && (m < s.nSteps && m > 0 ==> !last)
    ensures Served(s, x, m)
  {
    forall k: nat | k + 1 < m ensures Result(k, x, true) in s.res && Result(k, x, false) !in s.res {
      assert multiset(s.res)[Result(k, x, true)] == 1 && multiset(s.res)[Result(k, x, false)] == 0;
    }
    if 0 < m < s.nSteps {
      assert multiset(s.res)[Result(m - 1, x, false)] == 1 && multiset(s.res)[Result(m - 1, x, true)] == 0;
    }
  }

  /** What each kind of history says about one result. */
  lemma StoryResult(s: State, x: nat, begun: nat, returned: nat, last: bool, k: nat, d: bool)
    requires Story(s, x, begun, returned, last) && Result(k, x, d) in s.res
    ensures k < returned && d == (if k == returned - 1 then last else true)
  {
    assert multiset(s.res)[Result(k, x, d)] > 0;
  }

  lemma StoryCall(s: State, x: nat, begun: nat, returned: nat, last: bool, k: nat)
    requires Story(s, x, begun, returned, last)
    ensures Call(k, x) in s.log <==> k < begun
  {
    assert multiset(s.log)[Call(k, x)] == if k < begun then 1 else 0;
  }

  /** The history of any item, in one form. */
  lemma AnyStory(s: State, x: nat) returns (begun: nat, returned: nat, last: bool)
    requires Inv(s) && Items(s)
    ensures Story(s, x, begun, returned, last) && returned <= begun <= returned + 1
    ensures begun > returned > 0 ==> last
    ensures 0 < returned == begun < s.nSteps && last ==> exists j :: 0 <= j < |s.w| && s.w[j].index == x && Due(s.w[j], returned - 1)
  {
    hide Inv, Story;
    if s.next <= x {
      begun, returned, last := 0, 0, true;
    } else if Held(s, x) {
      var j :| 0 <= j < |s.w| && s.w[j].index == x;
      ItemsParts(s, j);
      var w := s.w[j];
      if w.step < s.nSteps {
        begun, returned := w.step + (if InStep(w) then 1 else 0), w.step + (if w.pc.Ran? then 1 else 0);
        last := w.pc.Ran? ==> w.pc.data;
        if 0 < returned == begun && last { assert Due(w, returned - 1); }
      } else if s.nSteps == 0 {
        begun, returned, last := 0, 0, true;
      } else {
        var m :| 1 <= m < s.nSteps && Story(s, x, m, m, false);
        begun, returned, last := m, m, false;
      }
    } else {
      var d :| Story(s, x, s.nSteps, s.nSteps, d);
      begun, returned, last := s.nSteps, s.nSteps, d;
    }
  }

  lemma PassesOn(s: State)
    requires Inv(s) && Items(s)
    ensures PassedOn(s)
  {
    hide Inv, Items, Story, Due;
    forall k: nat, x: nat | Result(k, x, true) in s.res && k + 1 < s.nSteps
      ensures Call(k + 1, x) in s.log || exists j :: 0 <= j < |s.w| && s.w[j].index == x && Due(s.w[j], k)
    {
      var begun, returned, last := AnyStory(s, x);
      StoryResult(s, x, begun, returned, last, k, true);
      StoryCall(s, x, begun, returned, last, k + 1);
    }
  }

  lemma Stops(s: State)
    requires Inv(s) && Items(s)
    ensures StopsThere(s)
  {
    hide Inv, Items, Story, Due;
    forall k: nat, x: nat, l: nat | Result(k, x, false) in s.res && k < l ensures Call(l, x) !in s.log {
      var begun, returned, last := AnyStory(s, x);
      StoryResult(s, x, begun, returned, last, k, false);
      StoryCall(s, x, begun, returned, last, l);
    }
  }

  lemma Leaves(s: State)
    requires Inv(s) && Items(s)
    ensures LeavesEarly(s)
  {
    hide Inv, Story;
    forall j | 0 <= j < |s.w| && s.w[j].pc == Gone && s.nSteps > 0 ensures Call(s.nSteps - 1, s.w[j].index) !in s.log {
      ItemsParts(s, j);
      var m :| 1 <= m < s.nSteps && Story(s, s.w[j].index, m, m, false);
      StoryCall(s, s.w[j].index, m, m, false, s.nSteps - 1);
    }
  }

  lemma ServedAtEnd(s: State, x: nat) returns (m: nat)
    requires Inv(s) && Items(s) && Finished(s) && x < s.next
    ensures Served(s, x, m)
  {
    hide Inv, Story, Served;
    if Held(s, x) {
      var j :| 0 <= j < |s.w| && s.w[j].index == x;
      ItemsParts(s, j);
      if s.nSteps == 0 {
        m := 0;
        StoryServed(s, x, 0, true);
      } else {
        m :| 1 <= m < s.nSteps && Story(s, x, m, m, false);
        StoryServed(s, x, m, false);
      }
    } else {
      m := s.nSteps;
      var d :| Story(s, x, m, m, d);
      StoryServed(s, x, m, d);
    }
  }

  ghost predicate WasServed(s: State, x: nat) { exists m :: Served(s, x, m) }

  /** Each item that has been taken has been served, and no other has been touched. */
  ghost predicate AllServed(s: State) {
    && (forall x: nat :: x < s.next ==> WasServed(s, x))
    && (forall c :: c in s.log ==> c.index < s.next)
  }

  lemma AllServedAtEnd(s: State)
    requires Inv(s) && Items(s) && Finished(s)
    ensures AllServed(s)
  {
    hide Items, Served, Finished;
    forall x: nat | x < s.next ensures WasServed(s, x) {
      var m := ServedAtEnd(s, x);
    }
    assert Logged(s);
  }

  /** In every state that can be reached: data goes on to the next step, an empty result ends the
      item, and nobody leaves after a last step. And when all workers have gone, each item taken has
      had exactly the steps up to its first empty result, once each, and no other item has had any. */
  lemma PipelineServes(r: seq<State>)
    requires IsRun(r)
    ensures var s := r[|r| - 1]; PassedOn(s) && StopsThere(s) && LeavesEarly(s) && (Finished(s) ==> AllServed(s))
  {
    hide *;
    NotEmpty(r);
    RunItems(r);
    var s := r[|r| - 1];
    PassesOn(s);
    Stops(s);
    Leaves(s);
    if Finished(s) { AllServedAtEnd(s); }
  }

  lemma NotEmpty(r: seq<State>)
    requires IsRun(r)
    ensures r != []
  {
  }
}
