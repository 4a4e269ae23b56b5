/** Shortest remaining time first against every other way to choose among READY tasks. */
module Srtf {
  import opened Int32
  import opened SchedulerSpec
  import opened SchedulerRuns

  // ---------------------------------------------------------------- the j largest

  /** The largest sum of at most j elements of rem. */
  function Top(rem: seq<nat>, j: nat): nat {
    if rem == [] || j == 0 then 0
    else
      var n := |rem| - 1;
      var without, with := Top(rem[..n], j), Top(rem[..n], j - 1) + rem[n];
      if without < with then with else without
  }

  lemma TopBounds(rem: seq<nat>, j: nat)
    ensures Top(rem, j) <= Top(rem, j + 1) <= Sum(rem)
    ensures j >= Live(rem) ==> Top(rem, j) == Sum(rem)
  {
    if rem != [] {
      var n := |rem| - 1;
      TopBounds(rem[..n], j);
      if j > 0 { TopBounds(rem[..n], j - 1); }
    }
  }

  lemma TopMonotone(low: seq<nat>, high: seq<nat>, j: nat)
    requires |low| == |high| && forall i :: 0 <= i < |low| ==> low[i] <= high[i]
    ensures Top(low, j) <= Top(high, j)
  {
    if low != [] && j > 0 {
      var n := |low| - 1;
      TopMonotone(low[..n], high[..n], j);
      TopMonotone(low[..n], high[..n], j - 1);
    }
  }

  /** As long as some task with work is left out, adding one adds at least the smallest work m. */
  lemma {:induction false} TopGrows(rem: seq<nat>, m: nat, j: nat)
    requires j < Live(rem)
    requires forall i :: 0 <= i < |rem| && rem[i] > 0 ==> m <= rem[i]
    ensures Top(rem, j) + m <= Top(rem, j + 1)
  {
    var n := |rem| - 1;
    var front := rem[..n];
    if rem[n] == 0 {
      TopGrows(front, m, j);
      if j > 0 { TopBounds(front, j - 1); }
    } else if j > 0 {
      TopGrows(front, m, j - 1);
    }
  }

  /** How Top compares when the fronts do, or when the last element makes up for what is missing. */
  lemma TopWithLast(rem: seq<nat>, fewer: seq<nat>, j: nat)
    requires |rem| == |fewer| > 0 && j > 0
    requires var n := |rem| - 1;
      && rem[n] == fewer[n] && Top(rem[..n], j - 1) <= Top(fewer[..n], j - 1)
      && (Top(rem[..n], j) <= Top(fewer[..n], j) || Top(rem[..n], j) <= Top(fewer[..n], j - 1) + fewer[n])
    ensures Top(rem, j) <= Top(fewer, j)
  {
  }

  /** j tasks are all that have work: the sum without task i is that of the other j - 1. */
  lemma AllBut(rem: seq<nat>, i: nat, j: nat)
    requires i < |rem| && rem[i] > 0 && j == Live(rem)
    ensures j > 0 && Top(rem, j) == rem[i] + Top(rem[i := 0], j - 1)
  {
    SumUpdate(rem, i, 0);
    LiveIsPositive(rem);
    TopBounds(rem, j);
    TopBounds(rem[i := 0], j - 1);
  }

  /** The last task is the smallest: the others fill any choice that leaves a task out. */
  lemma TopWithoutLast(rem: seq<nat>, j: nat)
    requires rem != [] && rem[|rem| - 1] > 0 && 0 < j < Live(rem)
    requires forall k :: 0 <= k < |rem| && rem[k] > 0 ==> rem[|rem| - 1] <= rem[k]
    ensures Top(rem, j) <= Top(rem[..|rem| - 1], j)
  {
    TopGrows(rem[..|rem| - 1], rem[|rem| - 1], j - 1);
  }

  lemma ZeroLast(rem: seq<nat>, j: nat)
    requires rem != []
    ensures Top(rem[..|rem| - 1], j) <= Top(rem[|rem| - 1 := 0], j)
  {
    assert rem[|rem| - 1 := 0][..|rem| - 1] == rem[..|rem| - 1];
  }

  /** Fewer tasks than have work can be chosen largest-first without the smallest one. */
  lemma {:induction false} TopWithoutSmallest(rem: seq<nat>, i: nat, j: nat)
    requires i < |rem| && rem[i] > 0 && j < Live(rem)
    requires forall k :: 0 <= k < |rem| && rem[k] > 0 ==> rem[i] <= rem[k]
    ensures Top(rem, j) <= Top(rem[i := 0], j)
  {
    if j == 0 { return; }
    var n := |rem| - 1;
    if i == n {
      TopWithoutLast(rem, j);
      ZeroLast(rem, j);
    } else {
      var front := rem[..n];
      assert forall k :: 0 <= k < n && front[k] > 0 ==> rem[i] <= rem[k] == front[k];
      TopWithoutSmallest(front, i, j - 1);
      if j < Live(front) { TopWithoutSmallest(front, i, j); } else { AllBut(front, i, j); }
      FrontUpdate(rem, i);
      TopWithLast(rem, rem[i := 0], j);
    }
  }

  lemma FrontUpdate(rem: seq<nat>, i: nat)
    requires i < |rem| - 1
    ensures rem[i := 0][..|rem| - 1] == rem[..|rem| - 1][i := 0]
  {
  }

  // ---------------------------------------------------------------- dominance

  /** The same total work, but at least as much of it in the j longest tasks, for every j. */
  ghost predicate Dominates(a: seq<nat>, b: seq<nat>) {
    && |a| == |b|
    && Sum(a) == Sum(b)
    && forall j: nat :: Top(a, j) >= Top(b, j)
  }

  lemma DominatesHasFewerLive(a: seq<nat>, b: seq<nat>)
    requires Dominates(a, b)
    ensures Live(a) <= Live(b)
  {
    if Live(a) > Live(b) {
      TopBounds(b, Live(b));
      TopLess(a, Live(b));
    }
  }

  /** Leaving out a task with work loses something. */
  lemma TopLess(rem: seq<nat>, j: nat)
    requires j < Live(rem)
    ensures Top(rem, j) < Sum(rem)
  {
    TopGrows(rem, 1, j);
    TopBounds(rem, j);
  }

  lemma DominatesAfterArrival(a: seq<nat>, b: seq<nat>, work: nat)
    requires Dominates(a, b)
    ensures Dominates(a + [work], b + [work])
  {
    assert (a + [work])[..|a|] == a && (b + [work])[..|b|] == b;
    forall j: nat
      ensures Top(a + [work], j) >= Top(b + [work], j)
    {
      if j > 0 {
        assert Top(a, j - 1) >= Top(b, j - 1);
      }
    }
  }

  /** The exchange argument: one tick of the shortest task against one tick of any task. */
  lemma DominatesAfterTick(a: seq<nat>, b: seq<nat>, i: nat, k: nat)
    requires Dominates(a, b)
    requires i < |a| && a[i] > 0 && forall h :: 0 <= h < |a| && a[h] > 0 ==> a[i] <= a[h]
    requires k < |b| && b[k] > 0
    ensures Dominates(a[i := a[i] - 1], b[k := b[k] - 1])
  {
    var a', b' := a[i := a[i] - 1], b[k := b[k] - 1];
    SumUpdate(a, i, a[i] - 1);
    SumUpdate(b, k, b[k] - 1);
    forall j: nat
      ensures Top(a', j) >= Top(b', j)
    {
      if j < Live(a) {
        TopWithoutSmallest(a, i, j);
        TopMonotone(a[i := 0], a', j);
        TopMonotone(b', b, j);
        assert Top(a, j) >= Top(b, j);
      } else {
        TopBounds(a', j);
        TopBounds(b', j);
      }
    }
  }

  // ---------------------------------------------------------------- whole runs

  /** a is at least as far as b now, and also once the tick already decided has run. */
  ghost predicate Ahead(a: Sched, b: Sched)
    requires Ok(a) && Ok(b)
  {
    && a.info == b.info
    && Dominates(a.rem, b.rem)
    && Dominates(Tick(a).rem, Tick(b).rem)
    && a.completed + Live(a.rem) >= b.completed + Live(b.rem)
  }

  /** The pending tick after a call is the one of the task just picked. */
  lemma TickAfterCall(s: Sched, i: int)
    requires Ok(s) && CanPick(s, i)
    ensures Ok(CallWith(s, i))
    ensures Tick(CallWith(s, i)).rem == if i < 0 then Tick(s).rem else Tick(s).rem[i := Tick(s).rem[i] - 1]
  {
    CallOk(s, i);
  }

  lemma SrtfCanPick(s: Sched)
    requires Ok(s)
    ensures var i := SrtfChoice(s);
      && CanPick(s, i)
      && (i >= 0 <==> Live(Tick(s).rem) > 0)
      && (i >= 0 ==> forall h :: 0 <= h < |s.rem| && Tick(s).rem[h] > 0 ==> Tick(s).rem[i] <= Tick(s).rem[h])
  {
    ShortestFound(Tick(s).rem);
    ShortestIsLeast(Tick(s).rem, |s.rem|);
  }

  lemma AheadAfterCall(a: Sched, b: Sched, choice: int)
    requires Ok(a) && Ok(b) && Ahead(a, b) && CanPick(b, choice)
    ensures CanPick(a, SrtfChoice(a))
    ensures Ok(CallWith(a, SrtfChoice(a))) && Ok(CallWith(b, choice))
    ensures Ahead(CallWith(a, SrtfChoice(a)), CallWith(b, choice))
  {
    var best, ra, rb := SrtfChoice(a), Tick(a).rem, Tick(b).rem;
    SrtfCanPick(a);
    LiveIsPositive(ra);
    LiveIsPositive(rb);
    var a', b' := CallWith(a, best), CallWith(b, choice);
    CallOk(a, best);
    CallOk(b, choice);
    assert Dominates(Tick(a').rem, Tick(b').rem) by {
      TickAfterCall(a, best);
      TickAfterCall(b, choice);
      if best >= 0 {
        DominatesAfterTick(ra, rb, best, choice);
      }
    }
  }

  lemma AheadAfterCreate(a: Sched, b: Sched, task: Info)
    requires Ok(a) && Ok(b) && Ahead(a, b)
    ensures Ok(Create(a, task)) && Ok(Create(b, task))
    ensures Ahead(Create(a, task), Create(b, task))
  {
    if Create(a, task) != a {
      var work := AtLeastOne(task.burst);
      DominatesAfterArrival(a.rem, b.rem, work);
      DominatesAfterArrival(Tick(a).rem, Tick(b).rem, work);
      TickThenArrival(a, task);
      TickThenArrival(b, task);
      assert (a.rem + [work])[..|a.rem|] == a.rem && (b.rem + [work])[..|b.rem|] == b.rem;
    }
  }

  /** A task that arrives between two calls cannot change which tick comes next. */
  lemma TickThenArrival(s: Sched, task: Info)
    requires Ok(s) && Create(s, task) != s
    ensures Ok(Create(s, task))
    ensures Tick(Create(s, task)).rem == Tick(s).rem + [AtLeastOne(task.burst)]
  {
  }

  lemma AheadAfterPolicy(a: Sched, b: Sched, p: nat)
    requires Ok(a) && Ok(b) && Ahead(a, b)
    ensures Ok(SetPolicy(a, p)) && Ok(SetPolicy(b, p)) && Ahead(SetPolicy(a, p), SetPolicy(b, p))
  {
    TickIgnoresPolicy(a, p);
    TickIgnoresPolicy(b, p);
  }

  lemma TickIgnoresPolicy(s: Sched, p: nat)
    requires Ok(s)
    ensures var r := SetPolicy(s, p);
      && Ok(r) && r.rem == s.rem && r.info == s.info && r.completed == s.completed && Tick(r).rem == Tick(s).rem
  {
  }

  lemma AheadAfterReset(a: Sched, b: Sched)
    requires Ok(a) && Ok(b) && Ahead(a, b)
    ensures Ok(ResetAll(a)) && Ok(ResetAll(b)) && Ahead(ResetAll(a), ResetAll(b))
  {
    DominatesHasFewerLive(a.rem, b.rem);
  }

  lemma AheadAfterStep(a: Sched, b: Sched, e: Event, rival: Strategy)
    requires Ok(a) && Ok(b) && Ahead(a, b) && Legal(rival)
    ensures Ok(Step(a, e, Srtf)) && Ok(Step(b, e, rival))
    ensures Ahead(Step(a, e, Srtf), Step(b, e, rival))
  {
    match e
    case Scheduled => AheadAfterCall(a, b, rival(b));
    case Created(task) => AheadAfterCreate(a, b, task);
    case PolicySet(p) => AheadAfterPolicy(a, b, p);
    case WasReset => AheadAfterReset(a, b);
  }

  /** At every point of every run, with arrivals, policy switches and resets in any order, always
      serving the shortest task has left no more tasks unfinished and completed at least as many
      as any rival that picks some READY task in each call. */
  lemma {:induction false} SrtfIsOptimal(s: Sched, events: seq<Event>, rival: Strategy)
    requires Ok(s) && Legal(rival)
    ensures Legal(Srtf)
    ensures Ahead(Run(s, events, Srtf), Run(s, events, rival))
    ensures Live(Run(s, events, Srtf).rem) <= Live(Run(s, events, rival).rem)
    ensures Run(s, events, Srtf).completed >= Run(s, events, rival).completed
  {
    PoliciesAreLegal();
    if events != [] {
      var n := |events| - 1;
      SrtfIsOptimal(s, events[..n], rival);
      AheadAfterStep(Run(s, events[..n], Srtf), Run(s, events[..n], rival), events[n], rival);
    }
    DominatesHasFewerLive(Run(s, events, Srtf).rem, Run(s, events, rival).rem);
  }

  /** Live tasks summed over the states after each event. */
  ghost function TotalWait(s: Sched, events: seq<Event>, choose: Strategy): nat
    requires Ok(s) && Legal(choose)
  {
    if events == [] then 0
    else TotalWait(s, events[..|events| - 1], choose) + Live(Run(s, events, choose).rem)
  }

  lemma {:induction false} SrtfMinimisesWait(s: Sched, events: seq<Event>, rival: Strategy)
    requires Ok(s) && Legal(rival)
    ensures Legal(Srtf)
    ensures TotalWait(s, events, Srtf) <= TotalWait(s, events, rival)
  {
    PoliciesAreLegal();
    if events != [] {
      SrtfMinimisesWait(s, events[..|events| - 1], rival);
      SrtfIsOptimal(s, events, rival);
    }
  }

  /** Events after which slot i is still live: one less than the event that completes it. */
  ghost function LiveTime(s: Sched, i: nat, events: seq<Event>, choose: Strategy): nat
    requires Ok(s) && Legal(choose)
  {
    if events == [] then 0
    else
      var r := Run(s, events, choose);
      LiveTime(s, i, events[..|events| - 1], choose) + if i < |r.rem| && r.rem[i] > 0 then 1 else 0
  }

  /** Completion times of the first n slots, added up. */
  ghost function TotalLiveTime(s: Sched, n: nat, events: seq<Event>, choose: Strategy): nat
    requires Ok(s) && Legal(choose)
  {
    if n == 0 then 0 else TotalLiveTime(s, n - 1, events, choose) + LiveTime(s, n - 1, events, choose)
  }

  lemma {:induction false} TotalLiveTimeStep(s: Sched, n: nat, events: seq<Event>, choose: Strategy)
    requires Ok(s) && Legal(choose) && events != [] && n <= |Run(s, events, choose).rem|
    ensures TotalLiveTime(s, n, events, choose)
      == TotalLiveTime(s, n, events[..|events| - 1], choose) + Live(Run(s, events, choose).rem[..n])
  {
    if n > 0 {
      TotalLiveTimeStep(s, n - 1, events, choose);
      LiveSnoc(Run(s, events, choose).rem, n);
    }
  }

  lemma LiveSnoc(rem: seq<nat>, n: nat)
    requires 0 < n <= |rem|
    ensures Live(rem[..n]) == Live(rem[..n - 1]) + if rem[n - 1] > 0 then 1 else 0
  {
    assert rem[..n][..n - 1] == rem[..n - 1];
  }

  /** Without arrivals the wait is the sum over the tasks of the time each stays live. */
  lemma {:induction false} WaitIsCompletionTimes(s: Sched, events: seq<Event>, choose: Strategy)
    requires Ok(s) && Legal(choose) && Closed(events)
    ensures |Run(s, events, choose).rem| == |s.rem|
    ensures TotalWait(s, events, choose) == TotalLiveTime(s, |s.rem|, events, choose)
  {
    if events == [] {
      NoLiveTime(s, |s.rem|, choose);
    } else {
      var n := |events| - 1;
      WaitIsCompletionTimes(s, events[..n], choose);
      SameSlots(Run(s, events[..n], choose), events[n], choose);
      TotalLiveTimeStep(s, |s.rem|, events, choose);
      assert Run(s, events, choose).rem[..|s.rem|] == Run(s, events, choose).rem;
    }
  }

  lemma SameSlots(s: Sched, e: Event, choose: Strategy)
    requires Ok(s) && Legal(choose) && (e.Scheduled? || e.PolicySet?)
    ensures |Step(s, e, choose).rem| == |s.rem|
  {
    if e.Scheduled? { CallOk(s, choose(s)); }
  }

  lemma {:induction false} NoLiveTime(s: Sched, n: nat, choose: Strategy)
    requires Ok(s) && Legal(choose)
    ensures TotalLiveTime(s, n, [], choose) == 0
  {
    if n > 0 { NoLiveTime(s, n - 1, choose); }
  }

  ghost predicate KeepsPolicy(events: seq<Event>) {
    forall i :: 0 <= i < |events| ==> !events[i].PolicySet?
  }

  /** With the policy set to SRTF and left there, the kernel takes exactly the SRTF steps. */
  lemma {:induction false} KernelFollowsSrtf(s: Sched, events: seq<Event>)
    requires Ok(s) && s.policy == SCHED_SRTF && KeepsPolicy(events)
    ensures Legal(Srtf) && Legal(Kernel)
    ensures Run(s, events, Kernel) == Run(s, events, Srtf)
    ensures Run(s, events, Kernel).policy == SCHED_SRTF
  {
    PoliciesAreLegal();
    if events != [] {
      KernelFollowsSrtf(s, events[..|events| - 1]);
    }
  }

  /** Drop the policy switches of a run. */
  function WithoutSwitches(events: seq<Event>): (r: seq<Event>)
    ensures KeepsPolicy(r)
  {
    if events == [] then []
    else
      var n := |events| - 1;
      WithoutSwitches(events[..n]) + if events[n].PolicySet? then [] else [events[n]]
  }

  /** Two states that differ in the policy only. */
  predicate SameButPolicy(a: Sched, b: Sched) {
    a == b.(policy := a.policy)
  }

  lemma SameButPolicyStep(a: Sched, b: Sched, e: Event)
    requires Ok(a) && Ok(b) && SameButPolicy(a, b) && !e.PolicySet?
    ensures SameButPolicy(Step(a, e, Srtf), Step(b, e, Srtf))
  {
    assert Tick(a).rem == Tick(b).rem;
    assert Srtf(a) == Srtf(b);
  }

  lemma {:induction false} SrtfIgnoresSwitches(s: Sched, events: seq<Event>)
    requires Ok(s)
    ensures Legal(Srtf) && Ok(s.(policy := SCHED_SRTF))
    ensures SameButPolicy(Run(s, events, Srtf), Run(s.(policy := SCHED_SRTF), WithoutSwitches(events), Srtf))
  {
    PoliciesAreLegal();
    if events != [] {
      var n := |events| - 1;
      SrtfIgnoresSwitches(s, events[..n]);
      var kept, start := WithoutSwitches(events[..n]), s.(policy := SCHED_SRTF);
      if !events[n].PolicySet? {
        RunSnoc(start, kept, events[n], Srtf);
        SameButPolicyStep(Run(s, events[..n], Srtf), Run(start, kept, Srtf), events[n]);
      } else {
        assert kept + [] == kept;
      }
    }
  }

  lemma RunSnoc(s: Sched, events: seq<Event>, e: Event, choose: Strategy)
    requires Ok(s) && Legal(choose)
    ensures Run(s, events + [e], choose) == Step(Run(s, events, choose), e, choose)
  {
    assert (events + [e])[..|events|] == events;
  }

  /** The machine as built: setting the policy to SRTF once beats any pattern of policy switches over
      the same arrivals. */
  lemma KernelBestUnderSrtf(s: Sched, events: seq<Event>)
    requires Ok(s)
    ensures Legal(Kernel) && Ok(s.(policy := SCHED_SRTF))
    ensures Run(s.(policy := SCHED_SRTF), WithoutSwitches(events), Kernel).completed
            >= Run(s, events, Kernel).completed
  {
    PoliciesAreLegal();
    SrtfIsOptimal(s, events, Kernel);
    SrtfIgnoresSwitches(s, events);
    KernelFollowsSrtf(s.(policy := SCHED_SRTF), WithoutSwitches(events));
  }
}
