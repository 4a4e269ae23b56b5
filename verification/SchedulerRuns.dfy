/** Facts about whole scheduler runs that hold for every policy, and the shape of SRTF runs. */
module SchedulerRuns {
  import opened Int32
  import opened SchedulerSpec

  // ---------------------------------------------------------------- makespan

  /** No task arrives and none is dropped. */
  ghost predicate Closed(events: seq<Event>) {
    forall i :: 0 <= i < |events| ==> events[i].Scheduled? || events[i].PolicySet?
  }

  function CallCount(events: seq<Event>): nat {
    if events == [] then 0
    else CallCount(events[..|events| - 1]) + if events[|events| - 1].Scheduled? then 1 else 0
  }

  function TotalBurst(info: seq<Info>): int {
    if info == [] then 0 else TotalBurst(info[..|info| - 1]) + info[|info| - 1].burst
  }

  /** Ticks still to run once k calls were made from an idle state with W ticks of work. */
  function WorkAfter(W: nat, k: nat): nat {
    if k == 0 then W else if k - 1 <= W then W - (k - 1) else 0
  }

  /** Policy-independent makespan: from an idle state, k calls execute exactly min(k - 1, W) ticks,
      whichever READY tasks are picked and however often the policy is switched. */
  lemma {:induction false} Makespan(s: Sched, events: seq<Event>, choose: Strategy)
    requires Ok(s) && s.cur == -1 && Legal(choose) && Closed(events)
    ensures var r := Run(s, events, choose); var k := CallCount(events);
      && Sum(r.rem) == WorkAfter(Sum(s.rem), k)
      && (r.cur >= 0 <==> k > 0 && Sum(r.rem) > 0)
      && r.info == s.info && |r.rem| == |s.rem|
  {
    if events != [] {
      var n := |events| - 1;
      var r := Run(s, events[..n], choose);
      Makespan(s, events[..n], choose);
      if events[n].Scheduled? {
        TickOk(r);
        CallOk(r, choose(r));
        LiveIsPositive(CallWith(r, choose(r)).rem);
      }
    }
  }

  /** All tasks are done after exactly W + 1 calls, and not before. */
  lemma DoneAfterExactly(s: Sched, events: seq<Event>, choose: Strategy)
    requires Ok(s) && s.cur == -1 && Legal(choose) && Closed(events) && CallCount(events) > 0
    ensures Live(Run(s, events, choose).rem) == 0 <==> CallCount(events) >= Sum(s.rem) + 1
  {
    Makespan(s, events, choose);
    LiveIsPositive(Run(s, events, choose).rem);
  }

  // ---------------------------------------------------------------- counters

  /** Ticks that a step executes. */
  function Executes(s: Sched, e: Event): nat {
    if e.Scheduled? && s.cur >= 0 then 1 else 0
  }

  /** Ticks executed over a run, counting those of tasks that a reset drops. */
  ghost function Executed(s: Sched, events: seq<Event>, choose: Strategy): nat
    requires Ok(s) && Legal(choose)
  {
    if events == [] then 0
    else
      var n := |events| - 1;
      Executed(s, events[..n], choose) + Executes(Run(s, events[..n], choose), events[n])
  }

  ghost predicate NoReset(events: seq<Event>) {
    forall i :: 0 <= i < |events| ==> !events[i].WasReset?
  }

  /** Nothing is lost: the bursts asked for are the ticks executed and the ticks left. */
  lemma {:induction false} BurstsAreConserved(s: Sched, events: seq<Event>, choose: Strategy)
    requires Ok(s) && Legal(choose) && NoReset(events)
    ensures var r := Run(s, events, choose);
      TotalBurst(r.info) - Sum(r.rem) == TotalBurst(s.info) - Sum(s.rem) + Executed(s, events, choose)
  {
    if events != [] {
      var n := |events| - 1;
      BurstsAreConserved(s, events[..n], choose);
      StepConserves(Run(s, events[..n], choose), events[n], choose);
    }
  }

  lemma SumSnoc(rem: seq<nat>, v: nat)
    ensures Sum(rem + [v]) == Sum(rem) + v
  {
    assert (rem + [v])[..|rem|] == rem;
  }

  lemma TotalBurstSnoc(info: seq<Info>, task: Info)
    ensures TotalBurst(info + [task]) == TotalBurst(info) + task.burst
  {
    assert (info + [task])[..|info|] == info;
  }

  lemma StepConserves(s: Sched, e: Event, choose: Strategy)
    requires Ok(s) && Legal(choose) && !e.WasReset?
    ensures var r := Step(s, e, choose);
      TotalBurst(r.info) - Sum(r.rem) == TotalBurst(s.info) - Sum(s.rem) + Executes(s, e)
  {
    match e
    case Scheduled =>
      TickOk(s);
      CallOk(s, choose(s));
    case Created(task) =>
      SumSnoc(s.rem, AtLeastOne(task.burst));
      TotalBurstSnoc(s.info, task.(burst := AtLeastOne(task.burst)));
    case PolicySet(p) =>
  }

  /** Ticks that slot i executes over a run. */
  ghost function ExecutedBy(s: Sched, i: nat, events: seq<Event>, choose: Strategy): nat
    requires Ok(s) && Legal(choose)
  {
    if events == [] then 0
    else
      var n := |events| - 1;
      ExecutedBy(s, i, events[..n], choose)
        + if events[n].Scheduled? && Run(s, events[..n], choose).cur == i then 1 else 0
  }

  lemma StepRunsOnly(s: Sched, i: nat, e: Event, choose: Strategy)
    requires Ok(s) && Legal(choose) && !e.WasReset? && i < |s.rem|
    ensures var r := Step(s, e, choose);
      && i < |r.rem| && i < |r.info| && r.info[i] == s.info[i]
      && r.rem[i] == s.rem[i] - if e.Scheduled? && s.cur == i then 1 else 0
  {
    if e.Scheduled? {
      CallOk(s, choose(s));
    }
  }

  /** A task is live exactly until it has run for its burst, wherever its slot is and whoever else runs. */
  lemma {:induction false} TaskRunsItsBurst(s: Sched, i: nat, events: seq<Event>, choose: Strategy)
    requires Ok(s) && Legal(choose) && NoReset(events) && i < |s.rem| && s.rem[i] == s.info[i].burst
    ensures var r := Run(s, events, choose);
      && i < |r.rem| && r.info[i] == s.info[i]
      && r.rem[i] == s.info[i].burst - ExecutedBy(s, i, events, choose)
      && (r.rem[i] == 0 <==> ExecutedBy(s, i, events, choose) == s.info[i].burst)
  {
    if events != [] {
      var n := |events| - 1;
      TaskRunsItsBurst(s, i, events[..n], choose);
      StepRunsOnly(Run(s, events[..n], choose), i, events[n], choose);
    }
  }

  /** An accepted creation adds one live task behind the others, with exactly the ticks asked for but at
      least one; it is refused only when the table is full or there is nothing to run. */
  lemma CreateAddsTask(s: Sched, task: Info)
    requires Ok(s)
    ensures var r := Create(s, task);
      && Ok(r)
      && (Live(r.rem) == Live(s.rem) + 1 <==> |s.rem| < 16 && task.entry != 0)
      && (Live(r.rem) != Live(s.rem) + 1 ==> r == s)
      && (r != s ==> r.rem == s.rem + [if task.burst >= 1 then task.burst else 1])
      && (r != s && task.burst >= 1 ==> r.info == s.info + [task])
      && (r != s && task.burst < 1 ==> r.info == s.info + [task.(burst := 1)])
      && r == s.(info := r.info, rem := r.rem)
  {
    if Create(s, task) != s {
      assert Create(s, task).rem[..|s.rem|] == s.rem;
    }
  }

  /** A valid policy is set and an invalid one is not; a reset leaves no task; neither touches the rest. */
  lemma PolicyAndReset(s: Sched, p: nat)
    ensures var r := SetPolicy(s, p);
      r.policy == (if p <= 1 then p else s.policy) && r.(policy := s.policy) == s
    ensures var r := ResetAll(s);
      && r.info == [] && r.rem == [] && r.cur == -1 && r.policy == s.policy
      && r.calls == s.calls && r.switches == s.switches && r.completed == s.completed
  {
  }

  /** 1 while a task is RUNNING. */
  function Busy(s: Sched): nat { if s.cur >= 0 then 1 else 0 }

  /** completed + running <= context switches <= schedule() calls. */
  predicate CountersOk(s: Sched) {
    s.completed + Busy(s) <= s.switches <= s.calls
  }

  lemma CountersStep(s: Sched, e: Event, choose: Strategy)
    requires Ok(s) && CountersOk(s) && Legal(choose)
    ensures CountersOk(Step(s, e, choose))
  {
    if e.Scheduled? { CallOk(s, choose(s)); }
  }

  lemma {:induction false} CountersStayOk(s: Sched, events: seq<Event>, choose: Strategy)
    requires Ok(s) && CountersOk(s) && Legal(choose)
    ensures CountersOk(Run(s, events, choose))
  {
    if events != [] {
      var n := |events| - 1;
      CountersStayOk(s, events[..n], choose);
      CountersStep(Run(s, events[..n], choose), events[n], choose);
    }
  }

  /** What one call adds to the counters, whatever it chooses: one call, one completion if the task that
      ran has nothing left, and one switch if and only if another slot runs than before. */
  lemma CallCounts(s: Sched, choose: Strategy)
    requires Ok(s) && Legal(choose)
    ensures var r := Step(s, Scheduled, choose);
      && |r.rem| == |s.rem|
      && r.calls == s.calls + 1
      && r.switches == s.switches + (if r.cur >= 0 && r.cur != s.cur then 1 else 0)
      && r.completed == s.completed + (if s.cur >= 0 && r.rem[s.cur] == 0 then 1 else 0)
  {
    CallOk(s, choose(s));
    TickOk(s);
  }

  /** The slot that runs changes with this event. */
  predicate Switches(before: Sched, e: Event, after: Sched) {
    e.Scheduled? && after.cur >= 0 && after.cur != before.cur
  }

  /** The task that ran finishes with this event. */
  predicate Completes(before: Sched, e: Event, after: Sched) {
    e.Scheduled? && 0 <= before.cur < |after.rem| && after.rem[before.cur] == 0
  }

  ghost function SwitchCount(s: Sched, events: seq<Event>, choose: Strategy): nat
    requires Ok(s) && Legal(choose)
  {
    if events == [] then 0
    else
      var n := |events| - 1;
      SwitchCount(s, events[..n], choose)
        + if Switches(Run(s, events[..n], choose), events[n], Run(s, events, choose)) then 1 else 0
  }

  ghost function CompletionCount(s: Sched, events: seq<Event>, choose: Strategy): nat
    requires Ok(s) && Legal(choose)
  {
    if events == [] then 0
    else
      var n := |events| - 1;
      CompletionCount(s, events[..n], choose)
        + if Completes(Run(s, events[..n], choose), events[n], Run(s, events, choose)) then 1 else 0
  }

  lemma CountersStepExact(s: Sched, e: Event, choose: Strategy)
    requires Ok(s) && Legal(choose)
    ensures var r := Step(s, e, choose);
      && r.calls == s.calls + (if e.Scheduled? then 1 else 0)
      && r.switches == s.switches + (if Switches(s, e, r) then 1 else 0)
      && r.completed == s.completed + (if Completes(s, e, r) then 1 else 0)
  {
    if e.Scheduled? { CallCounts(s, choose); }
  }

  /** The three counters count exactly what they are named for, over every run: calls, changes of the
      running slot, and tasks finished. Creations, policy switches and resets leave them alone. */
  lemma {:induction false} CountersAreExact(s: Sched, events: seq<Event>, choose: Strategy)
    requires Ok(s) && Legal(choose)
    ensures var r := Run(s, events, choose);
      && r.calls == s.calls + CallCount(events)
      && r.switches == s.switches + SwitchCount(s, events, choose)
      && r.completed == s.completed + CompletionCount(s, events, choose)
  {
    if events != [] {
      var n := |events| - 1;
      CountersAreExact(s, events[..n], choose);
      CountersStepExact(Run(s, events[..n], choose), events[n], choose);
    }
  }

  /** After every call some task is RUNNING if and only if some task is live. */
  lemma BusyWhileLive(s: Sched, choose: Strategy)
    requires Ok(s) && Legal(choose)
    ensures CallWith(s, choose(s)).cur >= 0 <==> exists i :: 0 <= i < |s.rem| && CallWith(s, choose(s)).rem[i] > 0
  {
    CallOk(s, choose(s));
    LiveIsPositive(CallWith(s, choose(s)).rem);
  }

  // ---------------------------------------------------------------- the kernel without arrivals

  /** k calls of `schedule()`. */
  function Calls(s: Sched, k: nat): (r: Sched)
    requires Ok(s)
    ensures Ok(r) && |r.rem| == |s.rem| && r.info == s.info && r.policy == s.policy
  {
    if k == 0 then s
    else
      var before := Calls(s, k - 1);
      KernelCallOk(before);
      Schedule(before)
  }

  lemma KernelCallOk(s: Sched)
    requires Ok(s)
    ensures CanPick(s, PolicyChoice(s)) && Ok(Schedule(s))
    ensures |Schedule(s).rem| == |s.rem| && Schedule(s).info == s.info && Schedule(s).policy == s.policy
  {
    PoliciesAreLegal();
    assert Kernel(s) == PolicyChoice(s);
    CallOk(s, Kernel(s));
  }

  // ---------------------------------------------------------------- shape of SRTF runs

  /** What an SRTF run looks like at any moment, against the idle state `start` it began in. */
  ghost predicate SrtfShape(start: Sched, s: Sched) {
    && |s.rem| == |start.rem| && s.policy == SCHED_SRTF
    // a task other than the running one was never started or has finished: none is ever preempted
    && (forall i :: 0 <= i < |s.rem| && i != s.cur ==> s.rem[i] == 0 || s.rem[i] == start.rem[i])
    && (0 <= s.cur < |s.rem| ==> 0 < s.rem[s.cur] <= start.rem[s.cur])
    // what has finished comes before what has not, in the order (work at the start, pid)
    && (forall i, j :: 0 <= i < |s.rem| && 0 <= j < |s.rem| && start.rem[i] > 0 && s.rem[i] == 0 && s.rem[j] > 0
          ==> Before(start.rem, i, j))
    // and the running task comes first among the rest
    && (0 <= s.cur < |s.rem| ==>
          forall j :: 0 <= j < |s.rem| && s.rem[j] > 0 && j != s.cur ==> Before(start.rem, s.cur, j))
    && s.switches - start.switches == s.completed - start.completed + Busy(s)
  }

  lemma SrtfTickShape(start: Sched, s: Sched)
    requires Ok(s) && SrtfShape(start, s) && s.cur >= 0
    ensures Tick(s).cur >= 0 ==>
              forall j :: 0 <= j < |s.rem| && Tick(s).rem[j] > 0 && j != s.cur ==> Tick(s).rem[s.cur] < Tick(s).rem[j]
  {
  }

  lemma SrtfKeepsShape(start: Sched, s: Sched)
    requires Ok(s) && SrtfShape(start, s)
    ensures Ok(Schedule(s)) && SrtfShape(start, Schedule(s))
  {
    var t, i := Tick(s), SrtfChoice(s);
    KernelCallOk(s);
    CallOk(s, i);
    ShortestFound(t.rem);
    ShortestIsLeast(t.rem, |t.rem|);
    if t.cur >= 0 {
      SrtfTickShape(start, s);
      assert i == t.cur;
    }
  }

  /** From an idle start under SRTF, tasks finish in ascending (work, pid) order, each runs to its end
      once started, and there is one context switch for each task that was started. */
  lemma {:induction false} SrtfRunShape(start: Sched, k: nat)
    requires Ok(start) && start.cur == -1 && start.policy == SCHED_SRTF
    ensures SrtfShape(start, Calls(start, k))
  {
    if k > 0 {
      SrtfRunShape(start, k - 1);
      SrtfKeepsShape(start, Calls(start, k - 1));
    }
  }
}
