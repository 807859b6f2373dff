/** Bounded waiting under both policies, and what a tick does to a task that has exited. */
module SchedWaiting {
  import opened Common
  import opened Sched

  // ---- Fair policy ----

  /** A task that waits for its turn: runnable, with a stack to resume, and not current. */
  predicate Waits(s: Sys, i: nat) {
    && WellFormed(s) && i < |s.tasks|
    && s.tasks[i].state == Runnable && s.tasks[i].hasStack && s.current != i
  }

  /** The tick charges at least one tick and nothing overflows 64 bits. */
  predicate Charges(s: Sys, ticks: nat) {
    && s.policy == Cfs && 0 <= s.current < |s.tasks| && ticks > 0 && ticks * 1024 < TWO64
    && s.tasks[s.current].vruntime + ticks * 1024 / PriorityWeight(s.tasks[s.current].priority) < TWO64
  }

  /** How often slot u can run before it falls behind virtual runtime v. */
  function Turns(t: Task, v: nat): nat {
    if t.state != Unused && t.vruntime <= v then (v - t.vruntime) / 25 + 1 else 0
  }

  /** The turns of the first n slots other than i. */
  function TurnsAhead(s: Sys, i: nat, n: nat): nat
    requires i < |s.tasks| && n <= |s.tasks|
  {
    if n == 0 then 0
    else TurnsAhead(s, i, n - 1) + if n - 1 == i then 0 else Turns(s.tasks[n - 1], s.tasks[i].vruntime)
  }

  lemma DivAtLeast(x: nat, w: nat, k: nat)
    requires w > 0 && x >= k * w
    ensures x / w >= k
  {
    if x / w < k {
      assert x == x / w * w + x % w;
      assert x / w * w <= (k - 1) * w by { MulMono(x / w, k - 1, w); }
      assert false;
    }
  }

  lemma MulMono(a: int, b: int, w: nat)
    requires a <= b
    ensures a * w <= b * w
  {
  }

  lemma TicksOverWeight(ticks: nat, w: nat)
    requires ticks > 0 && 1 <= w <= 40
    ensures ticks * 1024 / w >= 25
  {
    assert 25 * w <= 1000 <= ticks * 1024;
    DivAtLeast(ticks * 1024, w, 25);
  }

  lemma ChargeIs(s: Sys, ticks: nat)
    requires WellFormed(s) && Charges(s, ticks)
    ensures Charge(s, ticks).tasks[s.current].vruntime ==
            s.tasks[s.current].vruntime + ticks * 1024 / PriorityWeight(s.tasks[s.current].priority)
  {
    SumFits(s.tasks[s.current].vruntime, ticks * 1024, PriorityWeight(s.tasks[s.current].priority));
  }

  lemma SumFits(v: nat, x: nat, w: nat)
    requires 0 < w && x < TWO64 && v + x / w < TWO64
    ensures (v + x % TWO64 / w) % TWO64 == v + x / w
  {
    assert x % TWO64 == x;
  }

  /** A charged tick adds at least 25, because every weight is at most 40. */
  lemma ChargeAtLeast25(s: Sys, ticks: nat)
    requires WellFormed(s) && Charges(s, ticks)
    ensures Charge(s, ticks).tasks[s.current].vruntime >= s.tasks[s.current].vruntime + 25
  {
    ChargeIs(s, ticks);
    TicksOverWeight(ticks, PriorityWeight(s.tasks[s.current].priority));
  }

  lemma OneTurnFewer(a: Task, b: Task, v: nat)
    requires a.state != Unused && b.state != Unused && b.vruntime >= a.vruntime + 25
    ensures Turns(b, v) <= Turns(a, v)
    ensures a.vruntime <= v ==> Turns(b, v) < Turns(a, v)
  {
  }

  /** If no slot gains a turn and slot k (when given) loses one, the total drops accordingly. */
  lemma {:induction false} TurnsDrop(s: Sys, s': Sys, i: nat, k: int, n: nat)
    requires |s'.tasks| == |s.tasks| && i < |s.tasks| && n <= |s.tasks| && k != i
    requires s'.tasks[i].vruntime == s.tasks[i].vruntime
    requires forall j | 0 <= j < n && j != i ::
        Turns(s'.tasks[j], s.tasks[i].vruntime) <= Turns(s.tasks[j], s.tasks[i].vruntime)
    requires 0 <= k < n ==> Turns(s'.tasks[k], s.tasks[i].vruntime) < Turns(s.tasks[k], s.tasks[i].vruntime)
    ensures TurnsAhead(s', i, n) <= TurnsAhead(s, i, n) - if 0 <= k < n then 1 else 0
  {
    if n > 0 { TurnsDrop(s, s', i, k, n - 1); }
  }

  lemma {:induction false} TurnsCover(s: Sys, i: nat, k: nat, n: nat)
    requires i < |s.tasks| && k < n <= |s.tasks| && k != i
    ensures TurnsAhead(s, i, n) >= Turns(s.tasks[k], s.tasks[i].vruntime)
  {
    if k < n - 1 { TurnsCover(s, i, k, n - 1); }
  }

  /** The current task has not run longer than the waiting one. */
  predicate Behind(s: Sys, i: nat) {
    Waits(s, i) && s.current >= 0 && s.tasks[s.current].vruntime <= s.tasks[i].vruntime
        && s.tasks[s.current].state != Unused
  }

  /** One tick: the waiting task is picked, or it waits behind a task that still has a turn ahead of it
      and the total has dropped by one if the charged task had a turn. */
  lemma TickProgress(s: Sys, ticks: nat, i: nat)
    requires Waits(s, i) && Charges(s, ticks) && s.tasks[s.current].state != Unused
    ensures
      var s' := Tick(s, ticks);
      s'.current == i ||
      (&& Behind(s', i) && s'.policy == Cfs
       && TurnsAhead(s', i, |s.tasks|) <= TurnsAhead(s, i, |s.tasks|) - if Behind(s, i) then 1 else 0)
  {
    var c := Charge(s, ticks);
    var s' := Tick(s, ticks);
    ChargeAtLeast25(s, ticks);
    assert Candidate(c, Runnable, i);
    var b := Least(c, Runnable, |c.tasks|);
    assert b >= 0 && c.tasks[b].vruntime <= c.tasks[i].vruntime;
    if b != i {
      var v := s.tasks[i].vruntime;
      OneTurnFewer(s.tasks[s.current], c.tasks[s.current], v);
      var k := if Behind(s, i) then s.current else -1;
      SwitchKeepsTurns(c, b, i);
      forall j | 0 <= j < |s.tasks| && j != i ensures Turns(s'.tasks[j], v) <= Turns(s.tasks[j], v) {
        assert Turns(s'.tasks[j], v) == Turns(c.tasks[j], v);
      }
      TurnsDrop(s, s', i, k, |s.tasks|);
    }
  }

  lemma SwitchKeepsTurns(c: Sys, next: nat, i: nat)
    requires WellFormed(c) && c.current >= 0 && next < |c.tasks| && i < |c.tasks| && next != i && c.current != i
    requires c.tasks[c.current].state != Unused && c.tasks[next].state != Unused
    ensures
      var s' := SwitchTo(c, next);
      && s'.tasks[i] == c.tasks[i]
      && s'.current == next && s'.tasks[next].state != Unused && s'.tasks[next].vruntime == c.tasks[next].vruntime
      && forall j, v | 0 <= j < |c.tasks| :: Turns(s'.tasks[j], v) == Turns(c.tasks[j], v)
  {
  }

  /** A run of ticks under the fair policy. */
  ghost predicate IsTickRun(run: seq<Sys>, ticks: seq<nat>) {
    && |run| == |ticks| + 1
    && forall k | 0 <= k < |ticks| :: TickStep(run[k], run[k + 1], ticks[k])
  }

  ghost predicate TickStep(s: Sys, s': Sys, ticks: nat) {
    WellFormed(s) && Charges(s, ticks) && s' == Tick(s, ticks)
  }

  /** Behind a task with a turn left, the waiting task is picked within as many ticks as there are turns. */
  lemma {:induction false} PickedWithinTurns(run: seq<Sys>, ticks: seq<nat>, i: nat, k: nat) returns (when: nat)
    requires IsTickRun(run, ticks) && k < |run| && Behind(run[k], i)
    requires |ticks| - k >= TurnsAhead(run[k], i, |run[k].tasks|)
    ensures k < when <= k + TurnsAhead(run[k], i, |run[k].tasks|) && when < |run| && run[when].current == i
    decreases TurnsAhead(run[k], i, |run[k].tasks|)
  {
    var s := run[k];
    TurnsCover(s, i, s.current, |s.tasks|);
    assert TickStep(run[k], run[k + 1], ticks[k]);
    TickProgress(s, ticks[k], i);
    if run[k + 1].current == i {
      when := k + 1;
    } else {
      when := PickedWithinTurns(run, ticks, i, k + 1);
    }
  }

  /** Bounded waiting under the fair policy: a runnable task with a stack is picked within one tick plus,
      for each other task at or below its virtual runtime, one tick per 25 of the difference and one more. */
  lemma CfsBoundedWaiting(run: seq<Sys>, ticks: seq<nat>, i: nat)
    requires IsTickRun(run, ticks) && Waits(run[0], i)
    requires 0 <= run[0].current && run[0].tasks[run[0].current].state != Unused
    requires |ticks| >= 1 + TurnsAhead(run[0], i, |run[0].tasks|)
    ensures exists k :: 0 < k <= 1 + TurnsAhead(run[0], i, |run[0].tasks|) && k < |run| && run[k].current == i
  {
    assert TickStep(run[0], run[0 + 1], ticks[0]);
    TickProgress(run[0], ticks[0], i);
    if run[1].current != i {
      var when := PickedWithinTurns(run, ticks, i, 1);
    }
  }

  // ---- Round robin ----

  lemma ProbeIs(s: Sys, k: nat)
    requires s.cursor < |s.tasks| && k < |s.tasks|
    ensures Probe(s, k) == if s.cursor + k < |s.tasks| then s.cursor + k else s.cursor + k - |s.tasks|
  {
    var x, n := s.cursor + k, |s.tasks|;
    if x >= n {
      assert x == n * 1 + (x - n);
      assert x / n == 1;
    }
  }

  /** With slot i eligible, the pick is i or a slot strictly nearer the cursor, and the cursor moves past
      it without passing i. */
  lemma RrProgress(s: Sys, i: nat)
    requires WellFormed(s) && Eligible(s, i)
    ensures
      var p, n := PickRr(s), |s.tasks|;
      && Eligible(s, p.slot) && p.cursor == (p.slot + 1) % n < n
      && 0 <= Distance(s.cursor, p.slot, n) <= Distance(s.cursor, i, n) < n
      && (p.slot != i ==>
            Distance(p.cursor, i, n) == Distance(p.slot, i, n) - 1 ==
            Distance(s.cursor, i, n) - Distance(s.cursor, p.slot, n) - 1)
  {
    var n := |s.tasks|;
    var d := Distance(s.cursor, i, n);
    ProbeIs(s, d);
    assert Probe(s, d) == i;
    var k := FirstProbe(s, 0);
    assert k <= d;
    ProbeIs(s, k);
    NextSlot(Probe(s, k), n);
  }

  lemma NextSlot(slot: nat, n: nat)
    requires slot < n
    ensures (slot + 1) % n == if slot + 1 < n then slot + 1 else 0
  {
  }

  /** Snapshots of the table at successive picks; anything may change between them except the cursor. */
  ghost predicate IsPickRun(run: seq<Sys>, n: nat) {
    && (forall k | 0 <= k < |run| :: WellFormed(run[k]) && |run[k].tasks| == n)
    && forall k | 0 <= k < |run| - 1 :: PickStep(run[k], run[k + 1])
  }

  ghost predicate PickStep(s: Sys, s': Sys) {
    WellFormed(s) && s'.cursor == PickRr(s).cursor
  }

  lemma {:induction false} RrPickedWithinSteps(run: seq<Sys>, n: nat, i: nat, k: nat) returns (when: nat)
    requires IsPickRun(run, n) && i < n && k < |run|
    requires forall j | k <= j < |run| :: Eligible(run[j], i)
    requires |run| - k > Distance(run[k].cursor, i, n)
    ensures k <= when <= k + Distance(run[k].cursor, i, n) && when < |run| && PickRr(run[when]).slot == i
    decreases Distance(run[k].cursor, i, n)
  {
    RrProgress(run[k], i);
    if PickRr(run[k]).slot == i {
      when := k;
    } else {
      assert PickStep(run[k], run[k + 1]);
      when := RrPickedWithinSteps(run, n, i, k + 1);
    }
  }

  /** Bounded waiting under round robin: whatever happens to the other slots, one that stays eligible is
      picked within as many picks as its distance from the cursor plus one. */
  lemma RrBoundedWaiting(run: seq<Sys>, n: nat, i: nat)
    requires IsPickRun(run, n) && i < n && run != []
    requires forall j | 0 <= j < |run| :: Eligible(run[j], i)
    requires |run| > Distance(run[0].cursor, i, n)
    ensures exists k :: 0 <= k <= Distance(run[0].cursor, i, n) && k < |run| && PickRr(run[k]).slot == i
  {
    var when := RrPickedWithinSteps(run, n, i, 0);
  }

  /** Until it is picked, the picks come strictly closer to it. */
  lemma {:induction false} RrPicksApproach(run: seq<Sys>, n: nat, i: nat, j: nat, k: nat)
    requires IsPickRun(run, n) && i < n && j < k < |run|
    requires forall m | j <= m <= k :: Eligible(run[m], i)
    requires forall m | j <= m < k :: PickRr(run[m]).slot != i
    ensures PickRr(run[j]).slot >= 0 && PickRr(run[k]).slot >= 0
    ensures Distance(PickRr(run[k]).slot, i, n) < Distance(PickRr(run[j]).slot, i, n)
    decreases k - j
  {
    RrProgress(run[k], i);
    RrProgress(run[k - 1], i);
    assert PickStep(run[k - 1], run[k - 1 + 1]);
    if j < k - 1 { RrPicksApproach(run, n, i, j, k - 1); }
  }

  /** Until it is picked, no other slot is picked twice. */
  lemma RrPicksDistinct(run: seq<Sys>, n: nat, i: nat, j: nat, k: nat)
    requires IsPickRun(run, n) && i < n && j < k < |run|
    requires forall m | j <= m <= k :: Eligible(run[m], i)
    requires forall m | j <= m < k :: PickRr(run[m]).slot != i
    ensures PickRr(run[j]).slot != PickRr(run[k]).slot
  {
    RrPicksApproach(run, n, i, j, k);
  }

  // ---- Exit ----

  /** Somebody other than the current task could be picked. */
  ghost predicate OtherEligible(s: Sys) {
    exists j :: j != s.current && Eligible(s, j)
  }

  lemma CfsPickIsEligible(s: Sys)
    requires WellFormed(s) && s.current >= 0
    ensures Eligible(s, PickCfs(s)) || PickCfs(s) == s.current
    ensures forall j :: Eligible(s, j) ==> Eligible(s, PickCfs(s))
  {
    var b, r := Least(s, Runnable, |s.tasks|), Least(s, Running, |s.tasks|);
    forall j | Eligible(s, j) ensures b >= 0 || r >= 0 {
      assert Candidate(s, Runnable, j) || Candidate(s, Running, j);
    }
  }

  lemma RrPickIsEligible(s: Sys)
    requires WellFormed(s) && s.current >= 0
    ensures Eligible(s, PickRr(s).slot) || PickRr(s).slot == s.current
    ensures forall j :: Eligible(s, j) ==> Eligible(s, PickRr(s).slot)
  {
    forall j | Eligible(s, j) ensures Eligible(s, PickRr(s).slot) { RrProgress(s, j); }
  }

  /** When the current task is not eligible the pick is somebody else exactly when somebody else is. */
  lemma PickWithoutCurrent(s: Sys)
    requires WellFormed(s) && s.current >= 0 && !Eligible(s, s.current)
    ensures PickNext(s).slot == s.current <==> !OtherEligible(s)
    ensures PickNext(s).slot >= 0
  {
    CfsPickIsEligible(s);
    RrPickIsEligible(s);
  }

  /** Exiting is not final: a tick turns the exited current task runnable again unless nobody else can be
      picked and, under round robin, its time slice is not used up by the tick. */
  lemma ExitSurvivesTickIff(s: Sys, ticks: nat)
    requires WellFormed(s) && s.current >= 0 && s.tasks[s.current].state == Zombie
    ensures Tick(s, ticks).tasks[s.current].state == Zombie <==>
            && !OtherEligible(s)
            && (s.policy == RoundRobin && ticks > 0 ==>
                (s.tasks[s.current].budget + ticks) % TWO64 < s.tasks[s.current].timeslice)
  {
    var c := Charge(s, ticks);
    forall j | j != s.current ensures Eligible(c, j) <==> Eligible(s, j) {
    }
    if c.tasks[s.current].state == Zombie {
      PickWithoutCurrent(c);
      assert OtherEligible(c) <==> OtherEligible(s);
    }
  }

  /** A tick that revives a zombie: task 0 has exited, task 1 is ready, under either policy. */
  lemma TickRevivesZombie(policy: Policy)
    ensures
      var tasks := [Task(Zombie, true, 20, 4, 0, 0), Task(Runnable, true, 20, 4, 0, 0)];
      var s := Tick(Sys(tasks, 0, 0, policy), 1);
      s.current == 1 && s.tasks[0].state == Runnable
  {
    var tasks := [Task(Zombie, true, 20, 4, 0, 0), Task(Runnable, true, 20, 4, 0, 0)];
    var s := Sys(tasks, 0, 0, policy);
    var c := Charge(s, 1);
    assert Eligible(c, 1) && !Eligible(c, 0) && OtherEligible(c);
    PickWithoutCurrent(c);
  }

  /** A task that a tick switches away from can be picked again exactly when its stack was saved before; one that
      yields always can. */
  lemma SwitchedOutEligible(s: Sys, ticks: nat)
    requires WellFormed(s) && s.current >= 0
    ensures Tick(s, ticks).current != s.current ==>
              (Eligible(Tick(s, ticks), s.current) <==> s.tasks[s.current].hasStack)
    ensures Yield(s).current != s.current ==> Eligible(Yield(s), s.current)
  {
    if Yield(s).current != s.current {
      CfsPickIsEligible(s);
      RrPickIsEligible(s);
    }
  }

  /** Only the current task is ever in state Running. */
  predicate OnlyCurrentRuns(s: Sys) {
    forall j | 0 <= j < |s.tasks| && s.tasks[j].state == Running :: j == s.current
  }

  lemma TickKeepsOneRunning(s: Sys, ticks: nat)
    requires WellFormed(s) && OnlyCurrentRuns(s)
    ensures OnlyCurrentRuns(Tick(s, ticks)) && OnlyCurrentRuns(Yield(s))
  {
    if s.current >= 0 {
      RescheduleKeepsOneRunning(s);
      ChargeKeepsOneRunning(s, ticks);
      RescheduleKeepsOneRunning(Charge(s, ticks));
    }
  }

  lemma ChargeKeepsOneRunning(s: Sys, ticks: nat)
    requires WellFormed(s) && OnlyCurrentRuns(s) && s.current >= 0
    ensures OnlyCurrentRuns(Charge(s, ticks))
  {
  }

  lemma RescheduleKeepsOneRunning(s: Sys)
    requires WellFormed(s) && OnlyCurrentRuns(s) && s.current >= 0
    ensures OnlyCurrentRuns(Reschedule(s))
  {
  }
}
