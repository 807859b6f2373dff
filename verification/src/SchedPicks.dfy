/** What the scheduler decides, said of the tasks themselves: whom it picks, what it charges and what a switch
    leaves behind. */
module SchedPicks {
  import opened Common
  import opened Sched
  import opened SchedWaiting

  // ---- Charges ----

  /** A lower priority number weighs more, and numbers past 39 count as 39. */
  lemma WeightFalls(p: nat, q: nat)
    requires p < q
    ensures q <= 39 ==> PriorityWeight(p) > PriorityWeight(q)
    ensures p >= 39 ==> PriorityWeight(p) == PriorityWeight(q)
    ensures PriorityWeight(0) == 40 && PriorityWeight(39) == 1
  {
  }

  /** The sums of a charge stay below 2^64. */
  predicate Fits(t: Task, ticks: nat) {
    ticks * 1024 < TWO64 && t.vruntime + ticks * 1024 < TWO64
  }

  lemma QuotientFalls(x: nat, a: nat, b: nat)
    requires 0 < b <= a
    ensures x / a <= x / b <= x
  {
    var p := x / a;
    MulMono(b, a, p);
    QuotientTimes(x, a);
    DivAtLeast(x, b, p);
    QuotientTimes(x, b);
    MulMono(1, b, x / b);
  }

  lemma QuotientTimes(x: nat, a: nat)
    requires a > 0
    ensures a * (x / a) <= x && x / a * a <= x
  {
  }

  /** What the fair policy adds: 1024 per tick, divided by 40 less the priority, which counts up to 39. */
  function Gain(ticks: nat, priority: nat): nat {
    ticks * 1024 / (if priority < 39 then 40 - priority else 1)
  }

  lemma OnRunFair(t: Task, ticks: nat, x: nat, w: nat)
    requires ticks > 0 && x == ticks * 1024 && w == PriorityWeight(t.priority)
    ensures OnRun(t, ticks, Cfs) == t.(vruntime := (t.vruntime + x % TWO64 / w) % TWO64)
  {
  }

  lemma GainIs(ticks: nat, priority: nat, x: nat, w: nat)
    requires x == ticks * 1024 && w == PriorityWeight(priority)
    ensures Gain(ticks, priority) == x / w <= x
  {
    QuotientFalls(x, w, w);
  }

  /** The fair policy adds the gain and touches nothing else. */
  lemma FairCharge(t: Task, ticks: nat)
    requires Fits(t, ticks)
    ensures OnRun(t, ticks, Cfs) == t.(vruntime := t.vruntime + Gain(ticks, t.priority))
  {
    var x, w := ticks * 1024, PriorityWeight(t.priority);
    GainIs(ticks, t.priority, x, w);
    if ticks > 0 {
      OnRunFair(t, ticks, x, w);
      SumFits(t.vruntime, x, w);
    }
  }

  /** Of two tasks charged the same ticks from the same virtual runtime, the one with the lower priority number
      gains no more; so the fair policy never puts it behind. */
  lemma FavouredGainsLess(a: Task, b: Task, ticks: nat)
    requires a.vruntime == b.vruntime && a.priority <= b.priority && Fits(a, ticks)
    ensures OnRun(a, ticks, Cfs).vruntime <= OnRun(b, ticks, Cfs).vruntime
  {
    FairCharge(a, ticks);
    FairCharge(b, ticks);
    var x, v, w := ticks * 1024, PriorityWeight(a.priority), PriorityWeight(b.priority);
    GainIs(ticks, a.priority, x, v);
    GainIs(ticks, b.priority, x, w);
    QuotientFalls(x, v, w);
  }

  /** A task charged one tick n times under round robin. */
  function RunFor(t: Task, n: nat): Task {
    if n == 0 then t else OnRun(RunFor(t, n - 1), 1, RoundRobin)
  }

  /** From the start of its slice a task is charged tick by tick without any other effect until the slice is used
      up; then it starts anew and is runnable. */
  lemma {:induction false} SliceIsUsedUp(t: Task, n: nat)
    requires t.budget == 0 && 0 < t.timeslice < TWO64 && n <= t.timeslice
    ensures RunFor(t, n) == if n < t.timeslice then t.(budget := n) else t.(state := Runnable)
  {
    if n > 0 { SliceIsUsedUp(t, n - 1); }
  }

  /** Several ticks at once use up the slice just when one by one they would have. */
  lemma SliceAtOnce(t: Task, ticks: nat)
    requires t.budget < t.timeslice && 0 < ticks && t.budget + ticks < TWO64
    ensures
      var r := OnRun(t, ticks, RoundRobin);
      if t.budget + ticks < t.timeslice then r == t.(budget := t.budget + ticks)
      else r == t.(budget := 0, state := Runnable)
  {
  }

  // ---- Picks ----

  /** Slot i can be switched to: it runs now, or its stack was saved. */
  predicate Startable(s: Sys, i: int) {
    0 <= i < |s.tasks| && (i == s.current || s.tasks[i].hasStack)
  }

  /** Slot b has the least virtual runtime of the tasks in this state that can be switched to, and is the lowest
      such slot. */
  ghost predicate LeastRun(s: Sys, st: RunState, b: int) {
    && Startable(s, b) && s.tasks[b].state == st
    && forall j | Startable(s, j) && s.tasks[j].state == st ::
         s.tasks[b].vruntime < s.tasks[j].vruntime || (s.tasks[b].vruntime == s.tasks[j].vruntime && b <= j)
  }

  ghost predicate NoneIn(s: Sys, st: RunState) {
    forall j | Startable(s, j) :: s.tasks[j].state != st
  }

  /** The fair policy picks the runnable task with the least virtual runtime; if none is runnable, such a running
      one; and otherwise stays with the current task. */
  lemma FairPick(s: Sys)
    requires WellFormed(s) && s.policy == Cfs
    ensures PickNext(s).cursor == s.cursor
    ensures
      var b := PickNext(s).slot;
      || LeastRun(s, Runnable, b)
      || (NoneIn(s, Runnable) && LeastRun(s, Running, b))
      || (NoneIn(s, Runnable) && NoneIn(s, Running) && b == s.current)
  {
    var b, r := Least(s, Runnable, |s.tasks|), Least(s, Running, |s.tasks|);
    forall j | Startable(s, j)
      ensures (s.tasks[j].state == Runnable ==> Candidate(s, Runnable, j)) &&
              (s.tasks[j].state == Running ==> Candidate(s, Running, j))
    {
    }
  }

  predicate RrReady(s: Sys, i: int) {
    Startable(s, i) && (s.tasks[i].state == Runnable || s.tasks[i].state == Running)
  }

  /** Round robin picks the first ready slot from the cursor on, going round, and puts the cursor behind it; with
      none ready it stays with the current task and leaves the cursor. */
  lemma RoundRobinPick(s: Sys)
    requires WellFormed(s) && s.policy == RoundRobin
    ensures
      var p, n := PickNext(s), |s.tasks|;
      || (&& RrReady(s, p.slot) && p.cursor == (p.slot + 1) % n
          && forall j | RrReady(s, j) :: Distance(s.cursor, p.slot, n) <= Distance(s.cursor, j, n))
      || ((forall j :: !RrReady(s, j)) && p == Pick(s.current, s.cursor))
  {
    var k := FirstProbe(s, 0);
    forall j | RrReady(s, j)
      ensures Eligible(s, PickRr(s).slot) && PickRr(s).cursor == (PickRr(s).slot + 1) % |s.tasks|
      ensures Distance(s.cursor, PickRr(s).slot, |s.tasks|) <= Distance(s.cursor, j, |s.tasks|)
    {
      assert Eligible(s, j);
      RrProgress(s, j);
    }
    if k < |s.tasks| { assert RrReady(s, Probe(s, k)); }
  }

  // ---- Switches ----

  /** From task `was` to task `next`, or nothing. */
  ghost predicate Switches(s: Sys, s': Sys, next: int) {
    && |s'.tasks| == |s.tasks| && s'.policy == s.policy
    && if next < 0 || next == s.current then s'.tasks == s.tasks && s'.current == s.current
       else
         && next < |s.tasks| && 0 <= s.current < |s.tasks| && s'.current == next
         && s'.tasks[next] == s.tasks[next].(state := Running)
         && s'.tasks[s.current] == s.tasks[s.current].(state := Runnable, hasStack := s'.tasks[s.current].hasStack)
         && forall j | 0 <= j < |s.tasks| && j != next && j != s.current :: s'.tasks[j] == s.tasks[j]
  }

  /** A tick charges the current task and then switches to the pick; no stack is saved. */
  lemma TickIs(s: Sys, ticks: nat)
    requires WellFormed(s)
    ensures s.current < 0 ==> Tick(s, ticks) == s
    ensures s.current >= 0 ==>
      var c := s.(tasks := s.tasks[s.current := OnRun(s.tasks[s.current], ticks, s.policy)]);
      && Switches(c, Tick(s, ticks), PickNext(c).slot) && Tick(s, ticks).cursor == PickNext(c).cursor
      && Tick(s, ticks).tasks[s.current].hasStack == s.tasks[s.current].hasStack
  {
  }

  /** A yield switches to the pick and saves the stack of the task it leaves. */
  lemma YieldIs(s: Sys)
    requires WellFormed(s)
    ensures s.current < 0 ==> Yield(s) == s
    ensures s.current >= 0 ==>
      && Switches(s, Yield(s), PickNext(s).slot) && Yield(s).cursor == PickNext(s).cursor
      && (Yield(s).current != s.current ==> Yield(s).tasks[s.current].hasStack)
  {
    if s.current >= 0 && s.policy == Cfs { FairPick(s); }
    if s.current >= 0 && s.policy == RoundRobin { RoundRobinPick(s); }
  }
}
