/** What `process.c` keeps between calls, as a value, and what each entry point does to it.
    A slot is UNUSED exactly when nothing is left to run in it and RUNNING exactly when it is
    `cur`, so the state tags of the table are functions of `rem` and `cur` (see `Process.Table.Valid`). */
module SchedulerSpec {
  import opened Int32

  const MAX_PROCESSES := 16
  const SCHED_RR := 0
  const SCHED_SRTF := 1

  /** The fields of a PCB that never change while its task is alive. */
  datatype Info = Info(burst: int32, isThread: bool, parent: int, entry: nat)

  /** `rem[i]` is `remaining_ticks` of slot i and `info[i]` the fixed rest; `cur` is `current_index`. */
  datatype Sched = Sched(info: seq<Info>, rem: seq<nat>, cur: int, policy: nat,
                         calls: nat, switches: nat, completed: nat)

  predicate Ok(s: Sched) {
    && |s.info| == |s.rem| <= MAX_PROCESSES
    && -1 <= s.cur < |s.rem|
    && (s.cur >= 0 ==> s.rem[s.cur] > 0)
    && (forall i :: 0 <= i < |s.rem| ==> s.rem[i] <= s.info[i].burst)
    && s.policy <= SCHED_SRTF
  }

  // ---------------------------------------------------------------- work and live tasks

  /** Ticks left over all tasks. */
  function Sum(rem: seq<nat>): nat {
    if rem == [] then 0 else Sum(rem[..|rem| - 1]) + rem[|rem| - 1]
  }

  /** Number of tasks with ticks left. */
  function Live(rem: seq<nat>): nat {
    if rem == [] then 0 else Live(rem[..|rem| - 1]) + if rem[|rem| - 1] > 0 then 1 else 0
  }

  // ---------------------------------------------------------------- the two policies

  /** The first slot with work among the `left` slots that follow `index` cyclically, or -1. */
  function RRScan(rem: seq<nat>, index: int, left: nat): int
    requires rem != [] && -1 <= index < |rem|
    decreases left
  {
    if left == 0 then -1
    else
      var next := (index + 1) % |rem|;
      if rem[next] > 0 then next else RRScan(rem, next, left - 1)
  }

  function RRNext(rem: seq<nat>, cur: int): int
    requires -1 <= cur < |rem|
  {
    if rem == [] then -1 else RRScan(rem, cur, |rem|)
  }

  /** The slot with the least work among the first n slots with work, lowest slot on ties, or -1. */
  function Shortest(rem: seq<nat>, n: nat): (best: int)
    requires n <= |rem|
    ensures -1 <= best < n
    ensures best >= 0 ==> rem[best] > 0
  {
    if n == 0 then -1
    else
      var b := Shortest(rem, n - 1);
      if rem[n - 1] > 0 && (b == -1 || rem[n - 1] < rem[b]) then n - 1 else b
  }

  // ---------------------------------------------------------------- entry points

  /** One tick of the task chosen by the previous call. */
  function Tick(s: Sched): Sched
    requires Ok(s)
  {
    if s.cur < 0 then s
    else
      var r := s.rem[s.cur] - 1;
      if r == 0 then s.(rem := s.rem[s.cur := r], cur := -1, completed := s.completed + 1)
      else s.(rem := s.rem[s.cur := r])
  }

  function Pick(s: Sched, i: int): Sched {
    if i < 0 then s
    else s.(cur := i, switches := if s.cur == i then s.switches else s.switches + 1)
  }

  /** `schedule()` with the policy replaced by the choice i. */
  function CallWith(s: Sched, i: int): Sched
    requires Ok(s)
  {
    Pick(Tick(s.(calls := s.calls + 1)), i)
  }

  /** i is a READY task after the tick, or -1 when there is none. */
  predicate CanPick(s: Sched, i: int)
    requires Ok(s)
  {
    var rem := Tick(s).rem;
    if Live(rem) > 0 then 0 <= i < |rem| && rem[i] > 0 else i == -1
  }

  function SrtfChoice(s: Sched): int
    requires Ok(s)
  {
    Shortest(Tick(s).rem, |s.rem|)
  }

  function RRChoice(s: Sched): int
    requires Ok(s)
  {
    RRNext(Tick(s).rem, Tick(s).cur)
  }

  function PolicyChoice(s: Sched): int
    requires Ok(s)
  {
    if s.policy == SCHED_SRTF then SrtfChoice(s) else RRChoice(s)
  }

  function Schedule(s: Sched): Sched
    requires Ok(s)
  {
    CallWith(s, PolicyChoice(s))
  }

  function AtLeastOne(burst: int32): int32 {
    if burst < 1 then 1 else burst
  }

  function Create(s: Sched, task: Info): Sched {
    if |s.rem| >= MAX_PROCESSES || task.entry == 0 then s
    else
      var burst := AtLeastOne(task.burst);
      s.(info := s.info + [task.(burst := burst)], rem := s.rem + [burst])
  }

  function SetPolicy(s: Sched, p: nat): Sched {
    if p <= SCHED_SRTF then s.(policy := p) else s
  }

  function ResetAll(s: Sched): Sched {
    s.(info := [], rem := [], cur := -1)
  }

  // ---------------------------------------------------------------- runs

  datatype Event =
    | Scheduled
    | Created(task: Info)
    | PolicySet(p: nat)
    | WasReset

  /** A way to choose the next task. It sees the whole state, `calls` included, so any sequence of
      choices is one. */
  type Strategy = Sched -> int

  ghost predicate Legal(choose: Strategy) {
    forall s :: Ok(s) ==> CanPick(s, choose(s))
  }

  function Step(s: Sched, e: Event, choose: Strategy): Sched
    requires Ok(s)
  {
    match e
    case Scheduled => CallWith(s, choose(s))
    case Created(task) => Create(s, task)
    case PolicySet(p) => SetPolicy(s, p)
    case WasReset => ResetAll(s)
  }

  ghost function Run(s: Sched, events: seq<Event>, choose: Strategy): (r: Sched)
    requires Ok(s) && Legal(choose)
    ensures Ok(r)
  {
    if events == [] then s
    else
      var before := Run(s, events[..|events| - 1], choose);
      StepOk(before, events[|events| - 1], choose);
      Step(before, events[|events| - 1], choose)
  }

  /** The strategy that `schedule()` itself follows, made total. */
  function Kernel(s: Sched): int { if Ok(s) then PolicyChoice(s) else -1 }

  /** Always shortest remaining time first, whatever the policy says. */
  function Srtf(s: Sched): int { if Ok(s) then SrtfChoice(s) else -1 }

  // ---------------------------------------------------------------- basic facts

  lemma SumUpdate(rem: seq<nat>, i: nat, v: nat)
    requires i < |rem|
    ensures Sum(rem[i := v]) == Sum(rem) - rem[i] + v
    ensures Live(rem[i := v]) == Live(rem) - (if rem[i] > 0 then 1 else 0) + (if v > 0 then 1 else 0)
  {
    var n := |rem| - 1;
    if i < n {
      SumUpdate(rem[..n], i, v);
      assert rem[i := v][..n] == rem[..n][i := v];
    } else {
      assert rem[i := v][..n] == rem[..n];
    }
  }

  lemma LiveIsPositive(rem: seq<nat>)
    ensures Live(rem) > 0 <==> Sum(rem) > 0
    ensures Live(rem) > 0 <==> exists i :: 0 <= i < |rem| && rem[i] > 0
  {
    if rem != [] {
      var n := |rem| - 1;
      LiveIsPositive(rem[..n]);
      if Live(rem[..n]) > 0 {
        var i :| 0 <= i < n && rem[..n][i] > 0;
        assert rem[i] > 0;
      }
      if i :| 0 <= i < |rem| && rem[i] > 0 {
        assert i == n || rem[..n][i] > 0;
      }
    }
  }

  lemma TickOk(s: Sched)
    requires Ok(s)
    ensures Ok(Tick(s))
    ensures Sum(Tick(s).rem) == Sum(s.rem) - if s.cur >= 0 then 1 else 0
    ensures Live(Tick(s).rem) + Tick(s).completed == Live(s.rem) + s.completed
    ensures Live(Tick(s).rem) == 0 ==> Tick(s).cur == -1
    ensures Tick(s.(calls := s.calls + 1)) == Tick(s).(calls := s.calls + 1)
  {
    if s.cur >= 0 {
      SumUpdate(s.rem, s.cur, s.rem[s.cur] - 1);
      LiveIsPositive(Tick(s).rem);
    } else {
      LiveIsPositive(s.rem);
    }
  }

  lemma CallOk(s: Sched, i: int)
    requires Ok(s) && CanPick(s, i)
    ensures Ok(CallWith(s, i))
    ensures CallWith(s, i).rem == Tick(s).rem && CallWith(s, i).cur == i
    ensures CallWith(s, i).info == s.info && CallWith(s, i).policy == s.policy
    ensures CallWith(s, i).cur >= 0 <==> Live(CallWith(s, i).rem) > 0
    ensures Live(CallWith(s, i).rem) + CallWith(s, i).completed == Live(s.rem) + s.completed
  {
    TickOk(s);
  }

  lemma StepOk(s: Sched, e: Event, choose: Strategy)
    requires Ok(s) && Legal(choose)
    ensures Ok(Step(s, e, choose))
  {
    if e.Scheduled? {
      CallOk(s, choose(s));
    }
  }

  // ---------------------------------------------------------------- what the policies choose

  /** Slots to pass over before slot i is looked at, counting from the slot after `cur`. */
  function Distance(n: nat, cur: int, i: nat): int
    requires -1 <= cur < n && i < n
  {
    if i > cur then i - cur - 1 else i + n - cur - 1
  }

  lemma NextSlot(n: nat, index: int)
    requires 0 < n && -1 <= index < n
    ensures 0 <= (index + 1) % n < n
    ensures Distance(n, index, (index + 1) % n) == 0
    ensures forall i: nat :: i < n && i != (index + 1) % n ==>
      Distance(n, index, i) == Distance(n, (index + 1) % n, i) + 1
  {
    assert (index + 1) % n == if index + 1 == n then 0 else index + 1;
  }

  /** j is the first slot with work after `index`, in cyclic order. */
  predicate FirstAfter(rem: seq<nat>, index: int, j: int)
    requires -1 <= index < |rem|
  {
    && 0 <= j < |rem| && rem[j] > 0
    && forall i: nat :: i < |rem| && rem[i] > 0 ==> Distance(|rem|, index, j) <= Distance(|rem|, index, i)
  }

  lemma {:induction false} RRScanFirst(rem: seq<nat>, index: int, left: nat)
    requires rem != [] && -1 <= index < |rem|
    ensures var j := RRScan(rem, index, left);
      if j == -1 then forall i: nat :: i < |rem| && Distance(|rem|, index, i) < left ==> rem[i] == 0
      else FirstAfter(rem, index, j)
    decreases left
  {
    if left > 0 {
      var next := (index + 1) % |rem|;
      NextSlot(|rem|, index);
      if rem[next] == 0 {
        RRScanFirst(rem, next, left - 1);
      }
    }
  }

  /** Round robin takes the first task with work in cyclic order after `cur`; `cur` itself comes last. */
  lemma RRNextFirst(rem: seq<nat>, cur: int)
    requires -1 <= cur < |rem|
    ensures RRNext(rem, cur) == -1 <==> Live(rem) == 0
    ensures var j := RRNext(rem, cur);
      j != -1 ==> FirstAfter(rem, cur, j)
  {
    LiveIsPositive(rem);
    if rem != [] {
      RRScanFirst(rem, cur, |rem|);
      assert forall i: nat :: i < |rem| ==> Distance(|rem|, cur, i) < |rem|;
    }
  }

  /** i comes before j in the order (work, pid); pids grow with the slot. */
  predicate Before(rem: seq<nat>, i: nat, j: nat)
    requires i < |rem| && j < |rem|
  {
    rem[i] < rem[j] || (rem[i] == rem[j] && i < j)
  }

  lemma {:induction false} ShortestIsLeast(rem: seq<nat>, n: nat)
    requires n <= |rem|
    ensures var b := Shortest(rem, n);
      forall i :: 0 <= i < n && rem[i] > 0 ==> b >= 0 && (i == b || Before(rem, b, i))
  {
    if n > 0 {
      ShortestIsLeast(rem, n - 1);
    }
  }

  lemma ShortestFound(rem: seq<nat>)
    ensures Shortest(rem, |rem|) >= 0 <==> Live(rem) > 0
  {
    LiveIsPositive(rem);
    ShortestIsLeast(rem, |rem|);
  }

  /** Every policy of the kernel is work conserving: it picks a READY task whenever there is one. */
  lemma PoliciesAreLegal()
    ensures Legal(Kernel) && Legal(Srtf)
  {
    forall s | Ok(s)
      ensures CanPick(s, Kernel(s)) && CanPick(s, Srtf(s))
    {
      TickOk(s);
      ShortestFound(Tick(s).rem);
      RRNextFirst(Tick(s).rem, Tick(s).cur);
    }
  }
}
