/** The process table of `process.c` and its entry points, proved against `SchedulerSpec`. */
module Process {
  import opened Int32
  import opened SchedulerSpec

  datatype State = UNUSED | READY | RUNNING | WAITING

  datatype Pcb = Pcb(pid: int, state: State, priority: int, burst: int32, remaining: int32,
                     isThread: bool, parentPid: int, entry: nat)

  const EMPTY := Pcb(0, UNUSED, 0, 0, 0, false, 0, 0)

  /** The state tag that the work left and the running slot determine. */
  function TagOf(remaining: int, isRunning: bool): State {
    if remaining <= 0 then UNUSED else if isRunning then RUNNING else READY
  }

  function InfosOf(slots: seq<Pcb>): (r: seq<Info>)
    ensures |r| == |slots|
    ensures forall i :: 0 <= i < |r| ==>
              r[i] == Info(slots[i].burst, slots[i].isThread, slots[i].parentPid, slots[i].entry)
  {
    seq(|slots|, i requires 0 <= i < |slots| =>
      Info(slots[i].burst, slots[i].isThread, slots[i].parentPid, slots[i].entry))
  }

  function RemsOf(slots: seq<Pcb>): (r: seq<nat>)
    requires forall i :: 0 <= i < |slots| ==> slots[i].remaining >= 0
    ensures |r| == |slots| && forall i :: 0 <= i < |r| ==> r[i] == slots[i].remaining
  {
    seq(|slots|, i requires 0 <= i < |slots| && slots[i].remaining >= 0 => slots[i].remaining as nat)
  }

  /** What the policy of t chooses in t. */
  function ChoiceAfterTick(t: Sched): int
    requires Ok(t)
  {
    if t.policy == SCHED_SRTF then Shortest(t.rem, |t.rem|) else RRNext(t.rem, t.cur)
  }

  lemma ScheduleInTwo(s: Sched)
    requires Ok(s)
    ensures var t := Tick(s.(calls := s.calls + 1));
      Ok(t) && Schedule(s) == Pick(t, ChoiceAfterTick(t))
    ensures s.rem == [] ==> Schedule(s) == s.(calls := s.calls + 1)
  {
    TickOk(s);
  }

  /** As long as the slot that ran has work, both policies find someone. */
  lemma SomeoneFound(rem: seq<nat>, cur: int)
    requires -1 <= cur < |rem| && (cur >= 0 ==> rem[cur] > 0)
    ensures RRNext(rem, cur) == -1 ==> cur == -1
    ensures Shortest(rem, |rem|) == -1 ==> cur == -1
    ensures -1 <= RRNext(rem, cur) < |rem| && (RRNext(rem, cur) >= 0 ==> rem[RRNext(rem, cur)] > 0)
  {
    LiveIsPositive(rem);
    RRNextFirst(rem, cur);
    ShortestFound(rem);
  }

  class Table {
    const table: array<Pcb>
    var count: nat
    var nextPid: int
    var currentIndex: int
    var policy: nat
    var statCalls: nat
    var statSwitches: nat
    var statCompleted: nat

    /** Slots in use are numbered from 1 and have at most their burst left. */
    ghost predicate SlotsOk()
      reads `count, table
    {
      && table.Length == MAX_PROCESSES && count <= MAX_PROCESSES
      && forall i :: 0 <= i < count ==>
           && table[i].pid == i + 1 && table[i].priority == table[i].burst
           && 0 <= table[i].remaining <= table[i].burst
    }

    /** What holds between any two statements that change one slot. */
    ghost predicate Shape()
      reads this, table
    {
      && SlotsOk()
      && nextPid == count + 1
      && -1 <= currentIndex < count
      && policy <= SCHED_SRTF
      && (forall i :: count <= i < MAX_PROCESSES ==> table[i].state == UNUSED)
    }

    /** The tags are right if `running` is the slot that runs. */
    ghost predicate Tags(running: int)
      reads this, table
      requires Shape()
    {
      forall i :: 0 <= i < count ==> table[i].state == TagOf(table[i].remaining, i == running)
    }

    /** A slot is RUNNING exactly when it is `current_index`, UNUSED exactly when it has no work left. */
    ghost predicate Valid()
      reads this, table
    {
      && Shape()
      && Tags(currentIndex)
      && (currentIndex >= 0 ==> table[currentIndex].remaining > 0)
    }

    ghost function Infos(): (r: seq<Info>)
      reads `count, table
      requires SlotsOk()
      ensures |r| == count
    {
      InfosOf(table[..count])
    }

    ghost function Rems(): (r: seq<nat>)
      reads `count, table
      requires SlotsOk()
      ensures |r| == count && forall i :: 0 <= i < count ==> r[i] == table[i].remaining
    {
      RemsOf(table[..count])
    }

    ghost function View(): (s: Sched)
      reads this, table
      requires SlotsOk()
    {
      Sched(Infos(), Rems(), currentIndex, policy, statCalls, statSwitches, statCompleted)
    }

    constructor ()
      ensures Valid() && fresh(table)
      ensures View() == Sched([], [], -1, SCHED_RR, 0, 0, 0)
    {
      table := new Pcb[MAX_PROCESSES](_ => EMPTY);
      count, nextPid, currentIndex, policy := 0, 1, -1, SCHED_RR;
      statCalls, statSwitches, statCompleted := 0, 0, 0;
    }

    method LiveCount() returns (n: nat)
      requires Valid()
      ensures n == Live(View().rem)
    {
      n := 0;
      ghost var rem := Rems();
      for i := 0 to count
        invariant n == Live(rem[..i])
      {
        assert rem[..i + 1][..i] == rem[..i];
        if table[i].state != UNUSED {
          n := n + 1;
        }
      }
      assert rem[..count] == rem;
    }

    lemma ViewOk()
      requires Valid()
      ensures Ok(View())
    {
    }

    /** One slot changes, its fixed part does not. */
    method SetSlot(i: nat, remaining: int32, state: State)
      requires Shape() && i < count && 0 <= remaining <= table[i].burst
      modifies table
      ensures Shape() && table[i] == old(table[i]).(remaining := remaining, state := state)
      ensures Infos() == old(Infos()) && Rems() == old(Rems())[i := remaining]
      ensures forall k :: 0 <= k < count && k != i ==> table[k] == old(table[k])
    {
      table[i] := table[i].(remaining := remaining, state := state);
      assert Infos() == old(Infos());
    }

    method DemoteRunning()
      requires Valid()
      modifies table
      ensures Shape() && View() == old(View()) && Tags(-1)
    {
      if 0 <= currentIndex < count {
        if table[currentIndex].state == RUNNING {
          SetSlot(currentIndex, table[currentIndex].remaining, READY);
          assert Rems() == old(Rems());
        }
      }
    }

    method PickRunning(newIndex: int)
      requires Shape() && Tags(-1)
      requires -1 <= newIndex < count && (newIndex >= 0 ==> table[newIndex].remaining > 0)
      requires newIndex == -1 ==> currentIndex == -1
      modifies this`currentIndex, this`statSwitches, table
      ensures Valid() && View() == Pick(old(View()), newIndex)
      ensures statSwitches == old(statSwitches) + if newIndex >= 0 && newIndex != old(currentIndex) then 1 else 0
    {
      if newIndex < 0 || newIndex >= count {
        return;
      }
      if table[newIndex].state != READY {
        return;
      }
      if currentIndex != newIndex {
        statSwitches := statSwitches + 1;
      }
      SetSlot(newIndex, table[newIndex].remaining, RUNNING);
      currentIndex := newIndex;
      assert Rems() == old(Rems());
    }

    method RunCurrentTick()
      requires Valid()
      modifies this`currentIndex, this`statCompleted, table
      ensures Valid() && Ok(old(View())) && View() == Tick(old(View()))
    {
      ViewOk();
      if currentIndex < 0 || currentIndex >= count {
        return;
      }
      var c := currentIndex;
      if table[c].state != RUNNING {
        return;
      }
      if table[c].remaining > 0 {
        SetSlot(c, table[c].remaining - 1, RUNNING);
      }
      if table[c].remaining <= 0 {
        SetSlot(c, table[c].remaining, UNUSED);
        statCompleted := statCompleted + 1;
        currentIndex := -1;
      }
    }

    /** Scans at most `count` slots from the one after `current_index`. */
    method ScheduleRR()
      requires Shape() && Tags(-1) && Ok(View())
      requires currentIndex == -1 || table[currentIndex].remaining > 0
      modifies this`currentIndex, this`statSwitches, table
      ensures Valid() && View() == Pick(old(View()), RRNext(old(Rems()), old(currentIndex)))
    {
      ghost var rem := Rems();
      SomeoneFound(rem, currentIndex);
      if count == 0 {
        return;
      }
      var scanned := 0;
      var index := currentIndex;
      while scanned < count
        invariant 0 <= scanned <= count && -1 <= index < count
        invariant RRNext(rem, currentIndex) == RRScan(rem, index, count - scanned)
      {
        index := (index + 1) % count;
        if table[index].state == READY {
          PickRunning(index);
          return;
        }
        scanned := scanned + 1;
      }
    }

    /** Keeps the best slot so far. The starting values are INT_MAX, yet a task with that much work is
        still found, because its pid is smaller. */
    method ScheduleSRTF()
      requires Shape() && Tags(-1) && Ok(View())
      requires currentIndex == -1 || table[currentIndex].remaining > 0
      modifies this`currentIndex, this`statSwitches, table
      ensures Valid() && View() == Pick(old(View()), Shortest(old(Rems()), old(count)))
    {
      ghost var rem := Rems();
      SomeoneFound(rem, currentIndex);
      var best := -1;
      var bestRemaining := INT_MAX;
      var bestPid := INT_MAX;
      for i := 0 to count
        invariant best == Shortest(rem, i)
        invariant if best == -1 then bestRemaining == bestPid == INT_MAX
                  else bestRemaining == rem[best] && bestPid == best + 1
      {
        if table[i].state != READY {
          continue;
        }
        var p := table[i].remaining;
        var pid := table[i].pid;
        if p < bestRemaining || (p == bestRemaining && pid < bestPid) {
          bestRemaining := p;
          bestPid := pid;
          best := i;
        }
      }
      if best >= 0 {
        PickRunning(best);
      }
    }

    /** The choice on the state after the tick: round robin is also the default of the switch. */
    method PickByPolicy()
      requires Shape() && Tags(-1) && Ok(View())
      requires currentIndex == -1 || table[currentIndex].remaining > 0
      modifies this`currentIndex, this`statSwitches, table
      ensures Valid() && View() == Pick(old(View()), ChoiceAfterTick(old(View())))
    {
      if policy == SCHED_SRTF {
        ScheduleSRTF();
      } else {
        ScheduleRR();
      }
    }

    /** `schedule()`: the tick decided by the previous call, then the choice of the next one. */
    method Schedule()
      requires Valid()
      modifies this, table
      ensures Valid()
      ensures Ok(old(View())) && View() == SchedulerSpec.Schedule(old(View()))
    {
      ghost var s := View();
      ScheduleInTwo(s);
      statCalls := statCalls + 1;
      assert View() == s.(calls := s.calls + 1);
      if count == 0 {
        return;
      }
      RunCurrentTick();
      DemoteRunning();
      PickByPolicy();
    }

    /** `create_process_burst` and `create_thread`: a process is created with isThread false, parent 0. */
    method CreateTask(entry: nat, isThread: bool, parentPid: int, burstTicks: int32)
      requires Valid()
      modifies this, table
      ensures Valid()
      ensures View() == Create(old(View()), Info(burstTicks, isThread, parentPid, entry))
    {
      if count >= MAX_PROCESSES || entry == 0 {
        return;
      }
      var burst := burstTicks;
      if burst < 1 {
        burst := 1;
      }
      ghost var infos, rems := Infos(), Rems();
      table[count] := Pcb(nextPid, READY, burst, burst, burst, isThread, parentPid, entry);
      nextPid := nextPid + 1;
      count := count + 1;
      assert Rems() == rems + [burst as nat];
      assert Infos() == infos + [Info(burst, isThread, parentPid, entry)];
    }

    method SetPolicy(p: nat)
      requires Valid()
      modifies this`policy
      ensures Valid() && View() == SchedulerSpec.SetPolicy(old(View()), p)
      ensures policy == if p <= SCHED_SRTF then p else old(policy)
    {
      if p <= SCHED_SRTF {
        policy := p;
      }
    }

    method ResetAll()
      requires Valid()
      modifies this, table
      ensures Valid()
      ensures View() == SchedulerSpec.ResetAll(old(View()))
      ensures count == 0 && currentIndex == -1 && forall i :: 0 <= i < MAX_PROCESSES ==> table[i] == EMPTY
    {
      for i := 0 to MAX_PROCESSES
        invariant forall j :: 0 <= j < i ==> table[j] == EMPTY
        invariant unchanged(this)
      {
        table[i] := EMPTY;
      }
      count := 0;
      nextPid := 1;
      currentIndex := -1;
    }
  }
}
