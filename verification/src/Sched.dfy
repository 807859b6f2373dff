/** The scheduler: two pick policies over the task table, and what a tick does. */
module Sched {
  import opened Common

  datatype RunState = Unused | Runnable | Running | Sleeping | Zombie

  datatype Policy = RoundRobin | Cfs

  /** The scheduling part of a task; hasStack is saved_rsp != 0. */
  datatype Task = Task(state: RunState, hasStack: bool, priority: nat, timeslice: nat, vruntime: nat, budget: nat)

  /** current is a slot index, or -1 for none. */
  datatype Sys = Sys(tasks: seq<Task>, current: int, cursor: nat, policy: Policy)

  predicate WellFormed(s: Sys) {
    s.cursor < |s.tasks| && -1 <= s.current < |s.tasks|
  }

  function PriorityWeight(priority: nat): (w: nat)
    ensures 1 <= w <= 40
  {
    40 - (if priority > 39 then 39 else priority)
  }

  /** A slot round robin may pick. */
  predicate Eligible(s: Sys, i: int) {
    && 0 <= i < |s.tasks|
    && (s.tasks[i].state == Runnable || s.tasks[i].state == Running)
    && (i == s.current || s.tasks[i].hasStack)
  }

  /** A slot the fair policy considers in the pass over tasks in state st. */
  predicate Candidate(s: Sys, st: RunState, i: int) {
    0 <= i < |s.tasks| && s.tasks[i].state == st && (i == s.current || s.tasks[i].hasStack)
  }

  /** The better of the best slot so far and the next one. */
  function Better(s: Sys, st: RunState, b: int, i: nat): int
    requires -1 <= b < i < |s.tasks|
  {
    if Candidate(s, st, i) && (b < 0 || s.tasks[i].vruntime < s.tasks[b].vruntime) then i else b
  }

  /** The candidate with the least virtual runtime among the first n slots, the lowest slot on a tie; -1
      if there is none. */
  function Least(s: Sys, st: RunState, n: nat): (b: int)
    requires n <= |s.tasks|
    ensures -1 <= b < n
    ensures b == -1 <==> forall j | 0 <= j < n :: !Candidate(s, st, j)
    ensures b >= 0 ==> Candidate(s, st, b) && forall j | 0 <= j < n && Candidate(s, st, j) ::
              s.tasks[b].vruntime < s.tasks[j].vruntime || (s.tasks[b].vruntime == s.tasks[j].vruntime && b <= j)
  {
    if n == 0 then -1 else Better(s, st, Least(s, st, n - 1), n - 1)
  }

  /** pick_cfs: runnable tasks first, then running ones, then whoever is current. */
  function PickCfs(s: Sys): (b: int)
    requires WellFormed(s)
    ensures -1 <= b < |s.tasks|
  {
    var b := Least(s, Runnable, |s.tasks|);
    if b >= 0 then b
    else
      var r := Least(s, Running, |s.tasks|);
      if r >= 0 then r else s.current
  }

  /** The slot probed after `probe` steps from the cursor. */
  function Probe(s: Sys, probe: nat): nat
    requires s.cursor < |s.tasks|
  {
    (s.cursor + probe) % |s.tasks|
  }

  /** The first probe, from `probe` on, that hits an eligible slot; the table size if none does. */
  function FirstProbe(s: Sys, probe: nat): (r: nat)
    requires s.cursor < |s.tasks| && probe <= |s.tasks|
    ensures probe <= r <= |s.tasks|
    ensures r < |s.tasks| ==> Eligible(s, Probe(s, r))
    ensures forall k | probe <= k < r :: !Eligible(s, Probe(s, k))
    decreases |s.tasks| - probe
  {
    if probe == |s.tasks| || Eligible(s, Probe(s, probe)) then probe else FirstProbe(s, probe + 1)
  }

  /** What a pick returns, with the cursor after it. */
  datatype Pick = Pick(slot: int, cursor: nat)

  function PickRr(s: Sys): Pick
    requires WellFormed(s)
  {
    var k := FirstProbe(s, 0);
    if k < |s.tasks| then Pick(Probe(s, k), (Probe(s, k) + 1) % |s.tasks|) else Pick(s.current, s.cursor)
  }

  function PickNext(s: Sys): (p: Pick)
    requires WellFormed(s)
    ensures -1 <= p.slot < |s.tasks| && p.cursor < |s.tasks|
  {
    if s.policy == Cfs then Pick(PickCfs(s), s.cursor) else PickRr(s)
  }

  /** sched_on_run. The sums wrap at 2^64. */
  function OnRun(t: Task, ticks: nat, policy: Policy): Task {
    if ticks == 0 then t
    else if policy == Cfs then
      t.(vruntime := (t.vruntime + ticks * 1024 % TWO64 / PriorityWeight(t.priority)) % TWO64)
    else
      var b := (t.budget + ticks) % TWO64;
      if b >= t.timeslice then t.(budget := 0, state := Runnable) else t.(budget := b)
  }

  /** Make `next` current unless it already is. */
  function SwitchTo(s: Sys, next: int): Sys
    requires -1 <= next < |s.tasks| && 0 <= s.current < |s.tasks|
  {
    if next < 0 || next == s.current then s
    else
      var tasks1 := s.tasks[s.current := s.tasks[s.current].(state := Runnable)];
      s.(tasks := tasks1[next := tasks1[next].(state := Running)], current := next)
  }

  /** The table after the running task has been charged. */
  function Charge(s: Sys, ticks: nat): (r: Sys)
    requires WellFormed(s) && s.current >= 0
    ensures WellFormed(r) && |r.tasks| == |s.tasks| && r.current == s.current
  {
    s.(tasks := s.tasks[s.current := OnRun(s.tasks[s.current], ticks, s.policy)])
  }

  function Reschedule(s: Sys): (r: Sys)
    requires WellFormed(s) && s.current >= 0
    ensures WellFormed(r) && |r.tasks| == |s.tasks|
  {
    var p := PickNext(s);
    SwitchTo(s.(cursor := p.cursor), p.slot)
  }

  /** sched_tick. */
  function Tick(s: Sys, ticks: nat): (r: Sys)
    requires WellFormed(s)
    ensures WellFormed(r) && |r.tasks| == |s.tasks|
  {
    if s.current < 0 then s else Reschedule(Charge(s, ticks))
  }

  /** sched_yield: no charge, and a switch to a task with a stack saves that of the outgoing one. */
  function Yield(s: Sys): (r: Sys)
    requires WellFormed(s)
    ensures WellFormed(r) && |r.tasks| == |s.tasks|
  {
    if s.current < 0 then s
    else
      var r := Reschedule(s);
      if r.current == s.current || !r.tasks[r.current].hasStack then r
      else r.(tasks := r.tasks[s.current := r.tasks[s.current].(hasStack := true)])
  }

  /** The loops of pick_cfs. */
  method ScanCfs(s: Sys, st: RunState) returns (best: int)
    ensures best == Least(s, st, |s.tasks|)
  {
    best := -1;
    var idx := 0;
    while idx < |s.tasks|
      invariant 0 <= idx <= |s.tasks| && best == Least(s, st, idx)
    {
      best := ScanOne(s, st, best, idx);
      idx := idx + 1;
    }
  }

  /** One round of those loops. */
  method ScanOne(s: Sys, st: RunState, best: int, idx: nat) returns (r: int)
    requires -1 <= best < idx < |s.tasks|
    ensures r == Better(s, st, best, idx)
  {
    r := best;
    var task := s.tasks[idx];
    if task.state == st && (idx == s.current || task.hasStack) {
      if best < 0 || task.vruntime < s.tasks[best].vruntime {
        r := idx;
      }
    }
  }

  /** The loop of pick_rr. */
  method ScanRr(s: Sys) returns (p: Pick)
    requires WellFormed(s)
    ensures p == PickRr(s)
  {
    var probe := 0;
    while probe < |s.tasks|
      invariant 0 <= probe <= |s.tasks| && FirstProbe(s, 0) == FirstProbe(s, probe)
    {
      var idx := (s.cursor + probe) % |s.tasks|;
      var task := s.tasks[idx];
      if (task.state == Runnable || task.state == Running) && (idx == s.current || task.hasStack) {
        return Pick(idx, (idx + 1) % |s.tasks|);
      }
      probe := probe + 1;
    }
    return Pick(s.current, s.cursor);
  }

  class Scheduler {
    var tasks: seq<Task>
    var current: int
    var cursor: nat
    var policy: Policy

    constructor (tasks: seq<Task>, current: int, policy: Policy)
      ensures View() == Sys(tasks, current, 0, policy)
    {
      this.tasks, this.current, this.cursor, this.policy := tasks, current, 0, policy;
    }

    ghost function View(): Sys
      reads this
    {
      Sys(tasks, current, cursor, policy)
    }

    /** sched_pick_next. */
    method PickTask() returns (slot: int)
      requires WellFormed(View())
      modifies this`cursor
      ensures Pick(slot, cursor) == PickNext(old(View()))
    {
      var s := Sys(tasks, current, cursor, policy);
      if policy == Cfs {
        slot := ScanCfs(s, Runnable);
        if slot >= 0 { return; }
        slot := ScanCfs(s, Running);
        if slot < 0 { slot := current; }
      } else {
        var p := ScanRr(s);
        slot, cursor := p.slot, p.cursor;
      }
    }

    /** sched_tick. */
    method RunTick(ticks: nat)
      requires WellFormed(View())
      modifies this
      ensures View() == Tick(old(View()), ticks)
    {
      if current < 0 { return; }
      tasks := tasks[current := OnRun(tasks[current], ticks, policy)];
      RunSwitch();
    }

    /** What sched_tick and sched_yield have in common. */
    method RunSwitch()
      requires WellFormed(View()) && current >= 0
      modifies this
      ensures View() == Reschedule(old(View()))
    {
      var next := PickTask();
      if next < 0 || next == current { return; }
      tasks := tasks[current := tasks[current].(state := Runnable)];
      tasks := tasks[next := tasks[next].(state := Running)];
      current := next;
    }

    /** sched_yield. */
    method RunYield()
      requires WellFormed(View())
      modifies this
      ensures View() == Yield(old(View()))
    {
      if current < 0 { return; }
      var before := current;
      RunSwitch();
      if current == before { return; }
      if tasks[current].hasStack {
        tasks := tasks[before := tasks[before].(hasStack := true)];
      }
    }
  }
}
