/** Round robin: how long a READY task can wait, and how evenly ticks are shared. */
module RoundRobin {
  import opened SchedulerSpec
  import opened SchedulerRuns

  /** What one call does under round robin. */
  lemma RRCall(s: Sched)
    requires Ok(s) && s.policy == SCHED_RR && Live(Tick(s).rem) > 0
    ensures Ok(Schedule(s)) && Schedule(s).rem == Tick(s).rem
    ensures FirstAfter(Tick(s).rem, Tick(s).cur, Schedule(s).cur)
  {
    KernelCallOk(s);
    CallOk(s, RRChoice(s));
    RRNextFirst(Tick(s).rem, Tick(s).cur);
  }

  // ---------------------------------------------------------------- bounded waiting

  /** k sweeps over n slots. */
  function Sweeps(k: nat, n: nat): nat {
    if k == 0 then 0 else Sweeps(k - 1, n) + n
  }

  lemma {:induction false} SweepsIsProduct(k: nat, n: nat)
    ensures Sweeps(k, n) == k * n
  {
    if k > 0 {
      SweepsIsProduct(k - 1, n);
      assert (k - 1) * n + n == k * n;
    }
  }

  /** Calls until slot i runs, at most: a full sweep for each other live task that may complete and
      restart the scan at slot 0, then the slots still to pass over. */
  function WaitBound(s: Sched, i: nat): int
    requires Ok(s) && i < |s.rem| && Live(s.rem) > 0
  {
    Sweeps(Live(s.rem) - 1, |s.rem|) + Distance(|s.rem|, s.cur, i) + 1
  }

  /** The tick leaves slot i alone, and either goes on or completes the task that ran. */
  lemma TickSparesOthers(s: Sched, i: nat)
    requires Ok(s) && i < |s.rem| && s.rem[i] > 0 && i != s.cur
    ensures var t := Tick(s);
      && |t.rem| == |s.rem| && t.rem[i] == s.rem[i] && Live(t.rem) > 0 && -1 <= t.cur < |s.rem|
      && ((t.cur == s.cur && Live(t.rem) == Live(s.rem)) || (t.cur == -1 && Live(t.rem) == Live(s.rem) - 1))
  {
    TickOk(s);
    LiveIsPositive(Tick(s).rem);
  }

  lemma WaitShrinks(s: Sched, i: nat)
    requires Ok(s) && s.policy == SCHED_RR && i < |s.rem| && s.rem[i] > 0 && i != s.cur
    ensures Ok(Schedule(s)) && Schedule(s).rem[i] == s.rem[i]
    ensures Live(s.rem) > 0 && Live(Schedule(s).rem) > 0
    ensures Schedule(s).cur == i || WaitBound(Schedule(s), i) < WaitBound(s, i)
  {
    var n, t := |s.rem|, Tick(s);
    TickSparesOthers(s, i);
    RRCall(s);
    var j := Schedule(s).cur;
    if j != i {
      Closer(n, t.cur, j, i);
    }
  }

  /** From a slot passed on the way to i, i is closer. */
  lemma Closer(n: nat, cur: int, j: nat, i: nat)
    requires -1 <= cur < n && i < n && j < n && i != j
    requires Distance(n, cur, j) <= Distance(n, cur, i)
    ensures 0 <= Distance(n, j, i) < Distance(n, cur, i) < n
  {
  }

  /** Slot i has run within k calls. */
  ghost predicate HasRun(s: Sched, i: nat, k: nat)
    requires Ok(s)
  {
    exists t: nat :: 1 <= t <= k && RunsAt(s, i, t)
  }

  ghost predicate RunsAt(s: Sched, i: nat, t: nat)
    requires Ok(s)
  {
    Calls(s, t).cur == i
  }

  /** Slot i is READY after k calls and will wait for at most `left` more. */
  ghost predicate Waits(s: Sched, i: nat, k: nat, left: int)
    requires Ok(s) && i < |s.rem|
  {
    var r := Calls(s, k);
    r.rem[i] > 0 && i != r.cur && Live(r.rem) > 0 && WaitBound(r, i) <= left
  }

  lemma WaitsStart(s: Sched, i: nat)
    requires Ok(s) && i < |s.rem| && s.rem[i] > 0 && i != s.cur && Live(s.rem) > 0
    ensures Waits(s, i, 0, WaitBound(s, i))
  {
  }

  lemma WaitsStep(s: Sched, i: nat, k: nat, left: int)
    requires Ok(s) && s.policy == SCHED_RR && i < |s.rem| && Waits(s, i, k, left)
    ensures RunsAt(s, i, k + 1) || Waits(s, i, k + 1, left - 1)
  {
    WaitShrinks(Calls(s, k), i);
  }

  lemma RunsOrWaitsStep(s: Sched, i: nat, k: nat, left: int)
    requires Ok(s) && s.policy == SCHED_RR && i < |s.rem| && (HasRun(s, i, k) || Waits(s, i, k, left))
    ensures HasRun(s, i, k + 1) || Waits(s, i, k + 1, left - 1)
  {
    if HasRun(s, i, k) {
      var t: nat :| 1 <= t <= k && RunsAt(s, i, t);
      assert RunsAt(s, i, t) && t <= k + 1;
    } else {
      WaitsStep(s, i, k, left);
    }
  }

  lemma {:induction false} RunsOrWaits(s: Sched, i: nat, k: nat, left: int)
    requires Ok(s) && s.policy == SCHED_RR && i < |s.rem| && Waits(s, i, 0, left)
    ensures HasRun(s, i, k) || Waits(s, i, k, left - k)
  {
    if k > 0 {
      RunsOrWaits(s, i, k - 1, left);
      RunsOrWaitsStep(s, i, k - 1, left - (k - 1));
    }
  }

  lemma WaitBounded(s: Sched, i: nat)
    requires Ok(s) && i < |s.rem| && s.rem[i] > 0
    ensures Live(s.rem) > 0 && 1 <= WaitBound(s, i) <= Sweeps(Live(s.rem), |s.rem|)
  {
    LiveIsPositive(s.rem);
    assert 0 <= Distance(|s.rem|, s.cur, i) < |s.rem|;
  }

  /** Bounded waiting: a READY task is RUNNING within live * slots calls, although each completion
      sends the scan back to slot 0. */
  lemma RRBoundedWaiting(s: Sched, i: nat)
    requires Ok(s) && s.policy == SCHED_RR && i < |s.rem| && s.rem[i] > 0 && i != s.cur
    ensures exists k: nat :: 1 <= k <= Live(s.rem) * |s.rem| && Calls(s, k).cur == i
  {
    WaitBounded(s, i);
    SweepsIsProduct(Live(s.rem), |s.rem|);
    var bound := WaitBound(s, i);
    WaitsStart(s, i);
    RunsOrWaits(s, i, bound, bound);
    if Waits(s, i, bound, 0) { WaitBounded(Calls(s, bound), i); }
    var t: nat :| 1 <= t <= bound && RunsAt(s, i, t);
    assert Calls(s, t).cur == i;
  }

  // ---------------------------------------------------------------- fair shares

  /** Position of slot i among the live slots. */
  function Rank(rem: seq<nat>, i: nat): nat
    requires i <= |rem|
  {
    Live(rem[..i])
  }

  lemma RankStep(rem: seq<nat>, i: nat)
    requires i < |rem|
    ensures Rank(rem, i + 1) == Rank(rem, i) + if rem[i] > 0 then 1 else 0
    ensures Rank(rem, |rem|) == Live(rem)
  {
    assert rem[..i + 1][..i] == rem[..i];
    assert rem[..|rem|] == rem;
  }

  lemma {:induction false} RankGap(rem: seq<nat>, a: nat, b: nat)
    requires a <= b <= |rem|
    ensures Rank(rem, a) <= Rank(rem, b)
    ensures Rank(rem, a) == Rank(rem, b) <==> forall i :: a <= i < b ==> rem[i] == 0
    decreases b
  {
    if a < b {
      RankStep(rem, b - 1);
      RankGap(rem, a, b - 1);
    }
  }

  lemma RankInjective(rem: seq<nat>, i: nat, j: nat)
    requires i < |rem| && j < |rem| && rem[i] > 0 && rem[j] > 0
    ensures Rank(rem, i) == Rank(rem, j) <==> i == j
    ensures Rank(rem, i) < Live(rem)
  {
    if i < j { RankGap(rem, i, j); }
    if j < i { RankGap(rem, j, i); }
    RankStep(rem, i);
    RankGap(rem, i + 1, |rem|);
  }

  /** The same slots are live. */
  ghost predicate SameLive(a: seq<nat>, b: seq<nat>) {
    |a| == |b| && forall i :: 0 <= i < |a| ==> (a[i] > 0 <==> b[i] > 0)
  }

  lemma SameLiveSameRank(a: seq<nat>, b: seq<nat>)
    requires SameLive(a, b)
    ensures Live(a) == Live(b)
    ensures forall i: nat :: i <= |a| ==> Rank(a, i) == Rank(b, i)
  {
    forall i: nat | i <= |a| ensures Rank(a, i) == Rank(b, i) {
      SameLivePrefix(a, b, i);
    }
    assert a[..|a|] == a && b[..|a|] == b;
  }

  lemma {:induction false} SameLivePrefix(a: seq<nat>, b: seq<nat>, i: nat)
    requires SameLive(a, b) && i <= |a|
    ensures Rank(a, i) == Rank(b, i)
  {
    if i > 0 {
      SameLivePrefix(a, b, i - 1);
      RankStep(a, i - 1);
      RankStep(b, i - 1);
    }
  }

  /** Rank of the running slot, -1 before the first pick. */
  function RunningRank(s: Sched): int
    requires Ok(s)
  {
    if s.cur < 0 then -1 else Rank(s.rem, s.cur)
  }

  /** The rank that has its turn after rank r, among L. */
  function NextTurn(r: int, L: nat): int {
    if r + 1 == L then 0 else r + 1
  }

  lemma IdleBetween(rem: seq<nat>, cur: int, j: int)
    requires -1 <= cur < |rem| && FirstAfter(rem, cur, j)
    ensures j > cur ==> forall i :: cur < i < j ==> rem[i] == 0
    ensures j <= cur ==> forall i :: 0 <= i < j || cur < i < |rem| ==> rem[i] == 0
  {
    forall i | 0 <= i < |rem| && Distance(|rem|, cur, i) < Distance(|rem|, cur, j)
      ensures rem[i] == 0
    {
    }
  }

  /** Round robin goes through the live slots in rank order, and round again. */
  lemma NextRank(rem: seq<nat>, cur: int, j: int)
    requires -1 <= cur < |rem| && FirstAfter(rem, cur, j) && (cur >= 0 ==> rem[cur] > 0)
    ensures Rank(rem, j) == NextTurn(if cur < 0 then -1 else Rank(rem, cur), Live(rem))
  {
    IdleBetween(rem, cur, j);
    RankInjective(rem, j, j);
    if cur >= 0 { RankStep(rem, cur); }
    if j > cur {
      RankGap(rem, cur + 1, j);
    } else {
      RankGap(rem, cur + 1, |rem|);
      RankStep(rem, j);
      RankGap(rem, 0, j);
    }
  }

  /** After t calls the live slots are those of s. */
  ghost predicate NoneDone(s: Sched, t: nat)
    requires Ok(s)
  {
    SameLive(Calls(s, t).rem, s.rem)
  }

  /** No task completes in the next m calls. */
  ghost predicate NoCompletion(s: Sched, m: nat)
    requires Ok(s)
  {
    forall t: nat :: t <= m ==> NoneDone(s, t)
  }

  lemma RRCallRank(s: Sched)
    requires Ok(s) && s.policy == SCHED_RR && Live(s.rem) > 0
    requires Ok(Schedule(s)) && SameLive(Schedule(s).rem, s.rem)
    ensures 0 <= Schedule(s).cur < |s.rem| && s.rem[Schedule(s).cur] > 0
    ensures RunningRank(Schedule(s)) == NextTurn(RunningRank(s), Live(s.rem))
  {
    KernelCallOk(s);
    CallOk(s, PolicyChoice(s));
    SameLiveSameRank(Schedule(s).rem, s.rem);
    RRCall(s);
    assert Tick(s).cur == s.cur;
    NextRank(Tick(s).rem, s.cur, Schedule(s).cur);
  }

  /** The rank that runs after t more turns, and how often the turn went back to 0 on the way. */
  function Turn(r: int, t: nat, L: nat): int {
    if t == 0 then r else NextTurn(Turn(r, t - 1, L), L)
  }

  function Wraps(r: int, t: nat, L: nat): nat {
    if t == 0 then 0 else Wraps(r, t - 1, L) + if Turn(r, t - 1, L) + 1 == L then 1 else 0
  }

  lemma RankAfterCall(s: Sched, m: nat, t: nat)
    requires Ok(s) && s.policy == SCHED_RR && Live(s.rem) > 0 && NoCompletion(s, m) && 0 < t <= m
    ensures RunningRank(Calls(s, t)) == NextTurn(RunningRank(Calls(s, t - 1)), Live(s.rem))
    ensures 0 <= Calls(s, t).cur < |s.rem| && s.rem[Calls(s, t).cur] > 0
  {
    var before := Calls(s, t - 1);
    assert NoneDone(s, t - 1) && NoneDone(s, t);
    SameLiveSameRank(before.rem, s.rem);
    RRCallRank(before);
  }

  lemma TurnAfterCall(s: Sched, m: nat, t: nat)
    requires Ok(s) && s.policy == SCHED_RR && Live(s.rem) > 0 && NoCompletion(s, m) && 0 < t <= m
    requires RunningRank(Calls(s, t - 1)) == Turn(RunningRank(s), t - 1, Live(s.rem))
    ensures RunningRank(Calls(s, t)) == Turn(RunningRank(s), t, Live(s.rem))
  {
    RankAfterCall(s, m, t);
  }

  lemma {:induction false} RanksInTurn(s: Sched, m: nat, t: nat)
    requires Ok(s) && s.policy == SCHED_RR && Live(s.rem) > 0 && NoCompletion(s, m) && t <= m
    ensures RunningRank(Calls(s, t)) == Turn(RunningRank(s), t, Live(s.rem))
  {
    if t > 0 {
      RanksInTurn(s, m, t - 1);
      TurnAfterCall(s, m, t);
    }
  }

  lemma PickedByRank(s: Sched, i: nat, m: nat, t: nat)
    requires Ok(s) && s.policy == SCHED_RR && NoCompletion(s, m) && 0 < t <= m && i < |s.rem| && s.rem[i] > 0
    ensures Live(s.rem) > 0
    ensures Calls(s, t).cur == i <==> Turn(RunningRank(s), t, Live(s.rem)) == Rank(s.rem, i)
  {
    RankInjective(s.rem, i, i);
    RanksInTurn(s, m, t);
    RankAfterCall(s, m, t);
    var c := Calls(s, t).cur;
    assert NoneDone(s, t);
    SameLiveSameRank(Calls(s, t).rem, s.rem);
    RankInjective(s.rem, c, i);
  }

  /** How often slot i is picked in m calls. */
  ghost function Picks(s: Sched, i: nat, m: nat): nat
    requires Ok(s)
  {
    if m == 0 then 0 else Picks(s, i, m - 1) + if Calls(s, m).cur == i then 1 else 0
  }

  function AtLeast(r: int, k: int): nat { if r >= k then 1 else 0 }

  lemma RunningRankInRange(s: Sched)
    requires Ok(s)
    ensures -1 <= RunningRank(s) && (Live(s.rem) > 0 ==> RunningRank(s) < Live(s.rem))
  {
    if s.cur >= 0 { RankInjective(s.rem, s.cur, s.cur); }
  }

  /** One more turn hits rank k if and only if the count of wraps and passes goes up. */
  lemma HitStep(r: int, t: nat, L: nat, k: nat)
    requires -1 <= r < L && L > 0 && k < L && t > 0
    ensures Wraps(r, t, L) + AtLeast(Turn(r, t, L), k)
      == Wraps(r, t - 1, L) + AtLeast(Turn(r, t - 1, L), k) + if Turn(r, t, L) == k then 1 else 0
  {
    WrapsCount(r, t - 1, L);
  }

  lemma {:induction false} PicksAreWraps(s: Sched, i: nat, m: nat, t: nat)
    requires Ok(s) && s.policy == SCHED_RR && NoCompletion(s, m) && t <= m && i < |s.rem| && s.rem[i] > 0
    ensures var r, L, k := RunningRank(s), Live(s.rem), Rank(s.rem, i);
      Picks(s, i, t) == Wraps(r, t, L) + AtLeast(Turn(r, t, L), k) - AtLeast(r, k)
  {
    if t > 0 {
      PicksAreWraps(s, i, m, t - 1);
      PickedByRank(s, i, m, t);
      RankInjective(s.rem, i, i);
      RunningRankInRange(s);
      HitStep(RunningRank(s), t, Live(s.rem), Rank(s.rem, i));
    }
  }

  lemma {:induction false} WrapsCount(r: int, t: nat, L: nat)
    requires -1 <= r < L && L > 0
    ensures -1 <= Turn(r, t, L) < L && r + t == Wraps(r, t, L) * L + Turn(r, t, L)
  {
    if t > 0 {
      WrapsCount(r, t - 1, L);
      var w := Wraps(r, t - 1, L);
      assert (w + 1) * L == w * L + L;
    }
  }

  /** Fair shares: while no task completes, q rounds and a part of another one pick each of the L live
      slots q or q + 1 times, and q full rounds exactly q times. In particular L consecutive calls
      pick each live slot exactly once. */
  lemma RRFairShare(s: Sched, i: nat, m: nat, q: nat)
    requires Ok(s) && s.policy == SCHED_RR && NoCompletion(s, m) && i < |s.rem| && s.rem[i] > 0
    requires q * Live(s.rem) <= m < (q + 1) * Live(s.rem)
    ensures q <= Picks(s, i, m) <= q + 1
    ensures m == q * Live(s.rem) ==> Picks(s, i, m) == q
  {
    var r, L, k := RunningRank(s), Live(s.rem), Rank(s.rem, i);
    RankInjective(s.rem, i, i);
    RunningRankInRange(s);
    PicksAreWraps(s, i, m, m);
    WrapsCount(r, m, L);
    RoundsAndRest(Wraps(r, m, L), q, L, r, Turn(r, m, L), k, m);
  }

  lemma RoundsAndRest(w: nat, q: nat, L: nat, r: int, p: int, k: nat, m: nat)
    requires r + m == w * L + p && q * L <= m < (q + 1) * L
    requires -1 <= r < L && -1 <= p < L && k < L
    ensures q <= w + AtLeast(p, k) - AtLeast(r, k) <= q + 1
    ensures m == q * L ==> w + AtLeast(p, k) - AtLeast(r, k) == q
  {
    var d := p - r;
    var v := if d < 0 then w - 1 else if d == L then w + 1 else w;
    var e := if d < 0 then d + L else if d == L then 0 else d;
    assert m == v * L + e by {
      MulMonotone(w, w, L);
      MulMonotone(w + 1, w + 1, L);
    }
    SameQuotient(v, e, q, L, m);
  }

  lemma SameQuotient(v: int, e: int, q: int, L: nat, m: int)
    requires 0 <= e < L && m == v * L + e && q * L <= m < (q + 1) * L
    ensures v == q
  {
    MulMonotone(q + 1, q + 1, L);
    if v < q { MulMonotone(v + 1, q, L); MulMonotone(v + 1, v + 1, L); }
    if v > q { MulMonotone(q + 1, v, L); }
  }

  lemma MulMonotone(a: int, b: int, L: nat)
    requires a <= b
    ensures a * L <= b * L
    ensures a * L == (a - 1) * L + L
  {
    assert b * L - a * L == (b - a) * L;
  }

  // ---------------------------------------------------------------- context switches

  /** With another live task to go to, a call without completion runs another slot than before. */
  lemma RRMovesOn(s: Sched)
    requires Ok(s) && s.policy == SCHED_RR && Live(s.rem) >= 2
    requires Ok(Schedule(s)) && SameLive(Schedule(s).rem, s.rem)
    ensures Schedule(s).switches == s.switches + 1
  {
    RRCallRank(s);
    RunningRankInRange(s);
    SameLiveSameRank(Schedule(s).rem, s.rem);
    PoliciesAreLegal();
    CallCounts(s, Kernel);
    assert Step(s, Scheduled, Kernel) == Schedule(s);
  }

  /** t calls from s made t switches. */
  ghost predicate SwitchedBy(s: Sched, t: nat)
    requires Ok(s)
  {
    Calls(s, t).switches == s.switches + t
  }

  lemma SwitchAfterCall(s: Sched, m: nat, t: nat)
    requires Ok(s) && s.policy == SCHED_RR && Live(s.rem) >= 2 && NoCompletion(s, m) && 0 < t <= m
    requires SwitchedBy(s, t - 1)
    ensures SwitchedBy(s, t)
  {
    var before := Calls(s, t - 1);
    assert NoneDone(s, t - 1) && NoneDone(s, t);
    SameLiveSameRank(before.rem, s.rem);
    RRMovesOn(before);
  }

  lemma {:induction false} SwitchedEachTime(s: Sched, m: nat, t: nat)
    requires Ok(s) && s.policy == SCHED_RR && Live(s.rem) >= 2 && NoCompletion(s, m) && t <= m
    ensures SwitchedBy(s, t)
  {
    if t > 0 {
      SwitchedEachTime(s, m, t - 1);
      SwitchAfterCall(s, m, t);
    }
  }

  /** Round robin preempts on every call: with at least two live tasks and no completion, m calls make
      exactly m context switches. */
  lemma RRSwitchesEveryCall(s: Sched, m: nat)
    requires Ok(s) && s.policy == SCHED_RR && Live(s.rem) >= 2 && NoCompletion(s, m)
    ensures Calls(s, m).switches == s.switches + m
  {
    SwitchedEachTime(s, m, m);
  }
}
