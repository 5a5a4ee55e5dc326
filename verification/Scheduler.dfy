/** The round-robin scheduler with delays (src/scheduler/scheduler.cpp): index, quantum and delay state.
    Saving and restoring contexts is not part of this model. */
module Scheduler {

  const MAX_NUMBER_OF_TASKS: nat := 100
  const QUANTUM: nat := 10

  datatype State = State(alive: seq<bool>, delay: seq<nat>, quantum: nat, last: nat, curr: nat, prev: nat,
      initialized: bool)

  /** Task slots in use come first. */
  ghost predicate Inv(s: State) {
    && |s.alive| == |s.delay| == MAX_NUMBER_OF_TASKS && s.last <= MAX_NUMBER_OF_TASKS
    && s.curr < MAX_NUMBER_OF_TASKS && s.prev < MAX_NUMBER_OF_TASKS
    && (forall i :: 0 <= i < MAX_NUMBER_OF_TASKS && s.alive[i] ==> i < s.last)
    && s.quantum <= QUANTUM
  }

  predicate Runnable(alive: seq<bool>, delay: seq<nat>, t: nat) {
    t < |alive| && t < |delay| && alive[t] && delay[t] == 0
  }

  /** Steps from `curr` to `t` on the ring of slots 1..99; the idle task 0 stands before slot 1. */
  function Distance(curr: nat, t: nat): int {
    if t > curr then t - curr else t + (MAX_NUMBER_OF_TASKS - 1) - curr
  }

  /** Which task runs after `curr`: the runnable one the fewest steps ahead, the idle task if there is
      none but `curr` itself. */
  ghost predicate IsNext(alive: seq<bool>, delay: seq<nat>, curr: nat, next: nat) {
    if exists t :: IsCandidate(alive, delay, curr, t) then
      && IsCandidate(alive, delay, curr, next)
      && forall t :: IsCandidate(alive, delay, curr, t) ==> Distance(curr, next) <= Distance(curr, t)
    else next == 0
  }

  ghost predicate IsCandidate(alive: seq<bool>, delay: seq<nat>, curr: nat, t: nat) {
    1 <= t < MAX_NUMBER_OF_TASKS && t != curr && Runnable(alive, delay, t)
  }

  function Decremented(alive: seq<bool>, delay: seq<nat>, last: nat): (r: seq<nat>)
    requires |alive| == |delay|
    ensures |r| == |delay|
  {
    seq(|delay|, i requires 0 <= i < |delay| => if i < last && alive[i] && delay[i] > 0 then delay[i] - 1 else delay[i])
  }

  /** round_robin, with the index updates of switch_context. */
  ghost predicate RoundRobin(s: State, s': State)
    requires |s.alive| == |s.delay|
  {
    if !s.initialized then s' == s
    else
      var delay := Decremented(s.alive, s.delay, s.last);
      if s.quantum + 1 < QUANTUM then s' == s.(quantum := s.quantum + 1, delay := delay)
      else
        && s' == s.(quantum := 0, delay := delay, prev := s.curr, curr := s'.curr)
        && IsNext(s.alive, delay, s.curr, s'.curr)
  }

  class TaskTable {
    const alive: array<bool>
    const delayTicks: array<nat>
    var quantumCounter: nat
    var lastTaskIdx: nat
    var currTaskIdx: nat
    var prevTaskIdx: nat
    var initialized: bool

    ghost function TheState(): State
      reads this, alive, delayTicks
    {
      State(alive[..], delayTicks[..], quantumCounter, lastTaskIdx, currTaskIdx, prevTaskIdx, initialized)
    }

    /** The statics at boot. */
    constructor ()
      ensures Inv(TheState()) && !initialized && lastTaskIdx == 2 && currTaskIdx == 1 && fresh(alive)
      ensures fresh(delayTicks)
      ensures forall i :: 0 <= i < MAX_NUMBER_OF_TASKS ==> !alive[i] && delayTicks[i] == 0
    {
      alive := new bool[MAX_NUMBER_OF_TASKS](_ => false);
      delayTicks := new nat[MAX_NUMBER_OF_TASKS](_ => 0);
      quantumCounter, lastTaskIdx, currTaskIdx, prevTaskIdx, initialized := 0, 2, 1, 1, false;
    }

    /** init_scheduler: the idle task comes alive. */
    method Init()
      requires Inv(TheState())
      modifies this`initialized, alive, delayTicks
      ensures TheState() == old(TheState()).(initialized := true, alive := old(alive[..])[0 := true],
                                             delay := old(delayTicks[..])[0 := 0])
    {
      alive[0] := true;
      delayTicks[0] := 0;
      initialized := true;
    }

    /** decrement_delays. */
    method DecrementDelays()
      requires alive.Length == delayTicks.Length == MAX_NUMBER_OF_TASKS && lastTaskIdx <= MAX_NUMBER_OF_TASKS
      modifies delayTicks
      ensures delayTicks[..] == Decremented(alive[..], old(delayTicks[..]), lastTaskIdx)
    {
      for i := 0 to lastTaskIdx
        invariant forall j :: 0 <= j < MAX_NUMBER_OF_TASKS ==>
          delayTicks[j] == old(delayTicks[j]) - if j < i && alive[j] && old(delayTicks[j]) > 0 then 1 else 0
      {
        if alive[i] && delayTicks[i] > 0 {
          delayTicks[i] := delayTicks[i] - 1;
        }
      }
    }

    /** find_next_task: forward from the current task, then from slot 1. */
    method FindNextTask(curr: nat) returns (next: nat)
      requires alive.Length == delayTicks.Length == MAX_NUMBER_OF_TASKS && curr < MAX_NUMBER_OF_TASKS
      ensures IsNext(alive[..], delayTicks[..], curr, next)
    {
      next := curr + 1;
      while next < MAX_NUMBER_OF_TASKS
        invariant curr + 1 <= next <= MAX_NUMBER_OF_TASKS
        invariant forall t :: curr < t < next ==> !Runnable(alive[..], delayTicks[..], t)
      {
        if alive[next] && delayTicks[next] == 0 {
          assert IsCandidate(alive[..], delayTicks[..], curr, next);
          return;
        }
        next := next + 1;
      }
      next := 1;
      while next < curr
        invariant 1 <= next && (next <= curr || next == 1)
        invariant forall t :: 1 <= t < next ==> !Runnable(alive[..], delayTicks[..], t)
      {
        if alive[next] && delayTicks[next] == 0 {
          assert IsCandidate(alive[..], delayTicks[..], curr, next);
          return;
        }
        next := next + 1;
      }
      next := 0;
    }

    /** round_robin. */
    method RoundRobinCall()
      requires Inv(TheState())
      modifies this, delayTicks
      ensures RoundRobin(old(TheState()), TheState())
    {
      if !initialized {
        return;
      }
      quantumCounter := quantumCounter + 1;
      DecrementDelays();
      if quantumCounter < QUANTUM {
        return;
      }
      quantumCounter := 0;
      var next := FindNextTask(currTaskIdx);
      prevTaskIdx := currTaskIdx;
      currTaskIdx := next;
    }

    /** delay_task: the current task sleeps and gives up the rest of its quantum. */
    method DelayTask(ms: nat, msPerTick: nat)
      requires Inv(TheState()) && msPerTick > 0
      modifies this, delayTicks
      ensures DelayStep(old(TheState()), ms / msPerTick, TheState())
    {
      delayTicks[currTaskIdx] := ms / msPerTick;
      quantumCounter := QUANTUM;
      RoundRobinCall();
    }

    /** The slot allocation of create_kernel_task. */
    method CreateTask() returns (id: nat)
      requires Inv(TheState()) && lastTaskIdx < MAX_NUMBER_OF_TASKS
      modifies this`lastTaskIdx, alive, delayTicks
      ensures CreateStep(old(TheState()), TheState()) && id == old(lastTaskIdx)
    {
      id := lastTaskIdx;
      delayTicks[lastTaskIdx] := 0;
      alive[lastTaskIdx] := true;
      lastTaskIdx := lastTaskIdx + 1;
    }
  }

  ghost predicate DelayStep(s: State, ticks: nat, s': State)
    requires |s.alive| == |s.delay| && s.curr < |s.delay|
  {
    RoundRobin(s.(delay := s.delay[s.curr := ticks], quantum := QUANTUM), s')
  }

  ghost predicate CreateStep(s: State, s': State)
    requires |s.alive| == |s.delay|
  {
    && s.last < MAX_NUMBER_OF_TASKS == |s.alive|
    && s' == s.(alive := s.alive[s.last := true], delay := s.delay[s.last := 0], last := s.last + 1)
  }

  // ----- runs ---------------------------------------------------------------

  datatype Event = Tick | Delay(ticks: nat) | Create

  ghost predicate Next(s: State, e: Event, s': State) {
    && Inv(s)
    && match e
       case Tick => RoundRobin(s, s')
       case Delay(ticks) => DelayStep(s, ticks, s')
       case Create => CreateStep(s, s')
  }

  lemma StepKeepsInv(s: State, e: Event, s': State)
    requires Next(s, e, s') && s.initialized
    ensures Inv(s') && s'.initialized
  {
    assert IsCandidate(s.alive, s'.delay, s.curr, s'.curr) ==> s'.curr < MAX_NUMBER_OF_TASKS;
  }

  /** Calls of round_robin, from a tick or from delay_task. */
  ghost function Calls(events: seq<Event>, n: nat): nat
    requires n <= |events|
  {
    if n == 0 then 0 else Calls(events, n - 1) + if events[n - 1].Create? then 0 else 1
  }

  ghost predicate IsRun(states: seq<State>, events: seq<Event>) {
    && |states| == |events| + 1 && Inv(states[0]) && states[0].initialized
    && forall i :: 0 <= i < |events| ==> Next(states[i], events[i], states[i + 1])
  }

  ghost predicate IsTask(s: State, t: nat) {
    1 <= t < MAX_NUMBER_OF_TASKS && Inv(s) && s.alive[t]
  }

  /** Calls that task `t` has yet to wait for, at most: its delay first, then ten for each step of its
      distance from the current task. */
  ghost function Wait(s: State, t: nat): int
    requires IsTask(s, t)
  {
    if s.delay[t] > 0 then s.delay[t] + QUANTUM * (MAX_NUMBER_OF_TASKS - 1)
    else QUANTUM * Distance(s.curr, t) - if s.quantum < QUANTUM then s.quantum else QUANTUM - 1
  }

  /** A switch to another task brings a runnable task strictly nearer. */
  lemma SwitchNearer(alive: seq<bool>, delay: seq<nat>, curr: nat, next: nat, t: nat)
    requires curr < MAX_NUMBER_OF_TASKS && IsNext(alive, delay, curr, next) && IsCandidate(alive, delay, curr, t)
    requires next != t
    ensures 1 <= next && Distance(next, t) < Distance(curr, t)
  {
  }

  /** Every call of round_robin, whatever task makes it, brings a waiting task nearer to its turn; a
      delayed task counts down by one and is not chosen before it reaches 0. */
  lemma CallBringsNearer(s: State, e: Event, s': State, t: nat)
    requires Next(s, e, s') && s.initialized && !e.Create? && IsTask(s, t) && t != s.curr
    ensures IsTask(s', t) && s'.delay[t] == if s.delay[t] > 0 then s.delay[t] - 1 else 0
    ensures s.delay[t] > 1 ==> s'.curr != t
    ensures s'.curr == t || 0 < Wait(s', t) < Wait(s, t)
  {
    StepKeepsInv(s, e, s');
    var started := if e.Delay? then s.delay[s.curr := e.ticks] else s.delay;
    var delay := Decremented(s.alive, started, s.last);
    assert s'.delay == delay;
    if s'.quantum == 0 && s'.curr != t && delay[t] == 0 {
      assert IsCandidate(s.alive, delay, s.curr, t);
      SwitchNearer(s.alive, delay, s.curr, s'.curr, t);
    }
  }

  lemma CreateKeepsWait(s: State, s': State, t: nat)
    requires Inv(s) && CreateStep(s, s') && IsTask(s, t)
    ensures IsTask(s', t) && Wait(s', t) == Wait(s, t) && s'.delay[t] == s.delay[t] && s'.curr == s.curr
  {
  }

  /** As long as task t has not become current, its wait has shrunk with every call. */
  lemma {:induction false} WaitShrinks(states: seq<State>, events: seq<Event>, t: nat, n: nat)
    requires IsRun(states, events) && IsTask(states[0], t) && n <= |events|
    requires forall i :: 0 <= i <= n ==> states[i].curr != t
    ensures Inv(states[n]) && states[n].initialized && IsTask(states[n], t)
    ensures n > 0 && Calls(events, n) > 0 ==> Wait(states[n], t) > 0
    ensures Wait(states[n], t) <= Wait(states[0], t) - Calls(events, n)
    decreases n
  {
    hide RoundRobin, CreateStep, Inv, Distance;
    if n == 0 {
    } else {
      WaitShrinks(states, events, t, n - 1);
      assert Next(states[n - 1], events[n - 1], states[n - 1 + 1]);
      StepKeepsInv(states[n - 1], events[n - 1], states[n]);
      if events[n - 1].Create? {
        CreateKeepsWait(states[n - 1], states[n], t);
      } else {
        CallBringsNearer(states[n - 1], events[n - 1], states[n], t);
      }
    }
  }

  /** Bounded waiting: in any run, whatever tasks are created and whatever delays the others take, a
      task becomes current within its delay plus 10*99 calls of round_robin. */
  lemma BoundedWaiting(states: seq<State>, events: seq<Event>, t: nat, n: nat)
    requires IsRun(states, events) && IsTask(states[0], t) && n <= |events|
    requires Calls(events, n) >= states[0].delay[t] + QUANTUM * (MAX_NUMBER_OF_TASKS - 1)
    ensures exists i :: 0 <= i <= n && states[i].curr == t
  {
    assert states[0].curr != t ==> Wait(states[0], t) <= states[0].delay[t] + QUANTUM * (MAX_NUMBER_OF_TASKS - 1);
    if forall i :: 0 <= i <= n ==> states[i].curr != t {
      WaitShrinks(states, events, t, n);
    }
  }

  /** A delayed task is never chosen before its delay has counted down, one tick a call. */
  lemma {:induction false} DelayHolds(states: seq<State>, events: seq<Event>, t: nat, n: nat)
    requires IsRun(states, events) && IsTask(states[0], t) && n <= |events| && states[0].curr != t
    requires Calls(events, n) < states[0].delay[t]
    ensures IsTask(states[n], t) && states[n].initialized && states[n].curr != t
    ensures states[n].delay[t] == states[0].delay[t] - Calls(events, n)
    decreases n
  {
    if n == 0 {
    } else {
      DelayHolds(states, events, t, n - 1);
      assert Next(states[n - 1], events[n - 1], states[n - 1 + 1]);
      StepKeepsInv(states[n - 1], events[n - 1], states[n]);
      if events[n - 1].Create? {
        CreateKeepsWait(states[n - 1], states[n], t);
      } else {
        CallBringsNearer(states[n - 1], events[n - 1], states[n], t);
      }
    }
  }

  /** The order of turns: the slots after the current one first, then those before it, each in order; the
      idle task only when none of them is ready. */
  lemma NextInOrder(alive: seq<bool>, delay: seq<nat>, curr: nat, next: nat)
    requires |alive| == |delay| == 100 && curr < 100 && IsNext(alive, delay, curr, next)
    ensures next < 100 && (next != curr || curr == next == 0)
    ensures next > curr ==> Runnable(alive, delay, next) && forall t :: curr < t < next ==> !Runnable(alive, delay, t)
    ensures 0 < next < curr ==>
              && Runnable(alive, delay, next)
              && forall t :: curr < t < 100 || 1 <= t < next ==> !Runnable(alive, delay, t)
    ensures next == 0 <==> forall t :: 1 <= t < 100 && t != curr ==> !Runnable(alive, delay, t)
  {
    forall t: nat | 1 <= t < 100 && t != curr && Runnable(alive, delay, t) ensures IsCandidate(alive, delay, curr, t) {
    }
    forall t: nat | IsCandidate(alive, delay, curr, t) ensures Distance(curr, next) <= Distance(curr, t) {
    }
  }

  // ----- time slices --------------------------------------------------------

  /** Every change of the current task begins a slice. */
  lemma SwitchBeginsSlice(s: State, e: Event, s': State)
    requires Next(s, e, s') && s.initialized && s'.curr != s.curr
    ensures s'.quantum == 0
  {
  }

  ghost predicate NoDelays(events: seq<Event>, n: nat)
    requires n <= |events|
  {
    forall i :: 0 <= i < n ==> !events[i].Delay?
  }

  /** From the beginning of a slice the current task stays for nine calls unless it delays itself. */
  lemma {:induction false} SliceKept(states: seq<State>, events: seq<Event>, n: nat)
    requires IsRun(states, events) && n <= |events| && states[0].quantum == 0
    requires NoDelays(events, n) && Calls(events, n) <= 9
    ensures Inv(states[n]) && states[n].initialized
    ensures states[n].curr == states[0].curr && states[n].quantum == Calls(events, n)
    decreases n
  {
    if n == 0 {
    } else {
      SliceKept(states, events, n - 1);
      assert Next(states[n - 1], events[n - 1], states[n - 1 + 1]);
      StepKeepsInv(states[n - 1], events[n - 1], states[n]);
    }
  }

  /** The tenth call ends the slice and chooses the next task. */
  lemma TenthCallSwitches(states: seq<State>, events: seq<Event>, n: nat)
    requires IsRun(states, events) && n < |events| && states[0].quantum == 0
    requires NoDelays(events, n + 1) && Calls(events, n) == 9 && events[n].Tick?
    ensures Calls(events, n + 1) == 10 && states[n + 1].quantum == 0
    ensures IsNext(states[n + 1].alive, states[n + 1].delay, states[0].curr, states[n + 1].curr)
  {
    SliceKept(states, events, n);
    assert Next(states[n], events[n], states[n + 1]);
  }

  /** A task that is alone ready to run still shares the processor: at the end of its slice the idle task
      gets one, and then it runs again. */
  lemma AloneAlternates(s: State, s': State, t: nat)
    requires Next(s, Tick, s') && s.initialized && s.quantum == 9 && IsTask(s, t)
    requires forall u :: 1 <= u < 100 && s.alive[u] && u != t ==> s.delay[u] > 1
    requires s.delay[t] <= 1
    ensures s.curr == t ==> s'.curr == 0
    ensures s.curr == 0 ==> s'.curr == t
  {
    assert Runnable(s'.alive, s'.delay, t);
    if s.curr == 0 {
      assert IsCandidate(s'.alive, s'.delay, 0, t);
    }
  }

  // ----- delays -------------------------------------------------------------

  lemma {:induction false} CallsFrom(events: seq<Event>, n: nat)
    requires 1 <= n <= |events|
    ensures Calls(events, n) == (if events[0].Create? then 0 else 1) + Calls(events[1..], n - 1)
    decreases n
  {
    if n == 1 {
    } else {
      CallsFrom(events, n - 1);
    }
  }

  /** A task that delays itself by some ticks is off the processor at once, and for fewer calls than that,
      the delaying one counted, it is not chosen again. */
  lemma DelayedStaysOff(states: seq<State>, events: seq<Event>, ticks: nat, n: nat)
    requires IsRun(states, events) && 1 <= n <= |events| && events[0] == Delay(ticks)
    requires IsTask(states[0], states[0].curr)
    requires Calls(events, n) < ticks || Calls(events, n) == 1
    ensures states[n].curr != states[0].curr
    ensures Calls(events, n) < ticks ==> states[n].delay[states[0].curr] == ticks - Calls(events, n)
  {
    hide Next, IsRun, IsTask, Calls, Inv;
    RunFrom(states, events);
    var t := states[0].curr;
    DelayBegins(states[0], ticks, states[1]);
    CallsFrom(events, n);
    if Calls(events, n) < ticks {
      DelayHolds(states[1..], events[1..], t, n - 1);
    } else {
      NobodyCalls(states[1..], events[1..], n - 1);
    }
  }

  lemma DelayBegins(s: State, ticks: nat, s': State)
    requires Next(s, Delay(ticks), s') && s.initialized && IsTask(s, s.curr)
    ensures s'.initialized && IsTask(s', s.curr) && s'.curr != s.curr
    ensures s'.delay[s.curr] == if ticks > 0 then ticks - 1 else 0
  {
    StepKeepsInv(s, Delay(ticks), s');
  }

  lemma RunFrom(states: seq<State>, events: seq<Event>)
    requires IsRun(states, events) && |events| > 0
    ensures |states| == |events| + 1 && states[0].initialized && Next(states[0], events[0], states[1])
    ensures IsRun(states[1..], events[1..])
  {
    assert Next(states[0], events[0], states[0 + 1]);
    StepKeepsInv(states[0], events[0], states[1]);
    forall i | 0 <= i < |events| - 1 ensures Next(states[1..][i], events[1..][i], states[1..][i + 1]) {
      assert Next(states[i + 1], events[i + 1], states[i + 1 + 1]);
    }
  }

  /** Without a call the current task stays. */
  lemma {:induction false} NobodyCalls(states: seq<State>, events: seq<Event>, n: nat)
    requires IsRun(states, events) && n <= |events| && Calls(events, n) == 0
    ensures states[n].curr == states[0].curr
    decreases n
  {
    if n == 0 {
    } else {
      NobodyCalls(states, events, n - 1);
      assert Next(states[n - 1], events[n - 1], states[n - 1 + 1]);
    }
  }
}
