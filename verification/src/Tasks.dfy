/** The task table: slots, pids and parents over every interleaving of the locked phases of thread
    creation, fork, exit and wait. */
module Tasks {
  import opened Common
  import opened Sched

  datatype Slot = Slot(state: RunState, pid: int, ppid: int, exitCode: int)

  const FREE_SLOT := Slot(Unused, 0, 0, 0)

  /** The table with its counters; current is a slot index or -1. pending are the slots that forks have
      chosen and not yet filled; parents records the parent of every pid issued, exits the code of every
      exit, and reaped every pid that waitpid returned with the pid of its caller. */
  datatype Procs = Procs(slots: seq<Slot>, used: nat, nextPid: int, current: int,
                         pending: seq<nat>, parents: map<int, int>, exits: map<int, int>, reaped: seq<(int, int)>)

  predicate Taken(s: Procs, i: int) {
    0 <= i < |s.slots| && s.slots[i].state != Unused
  }

  ghost function TakenSlots(slots: seq<Slot>): set<int> {
    set i | 0 <= i < |slots| && slots[i].state != Unused
  }

  /** alloc_task_slot: the first unused slot, or the table size. */
  function FirstFreeSlot(slots: seq<Slot>): (r: nat)
    ensures r <= |slots| && (r < |slots| ==> slots[r].state == Unused)
    ensures forall i | 0 <= i < r :: slots[i].state != Unused
  {
    FirstFrom(slots, (x: Slot) => x.state == Unused, 0)
  }

  function CurrentPid(s: Procs): int
    requires -1 <= s.current < |s.slots|
  {
    if s.current >= 0 then s.slots[s.current].pid else 0
  }

  /** Give an unused slot the next pid. */
  function Fill(s: Procs, i: nat): Procs
    requires i < |s.slots| && -1 <= s.current < |s.slots|
  {
    s.(slots := s.slots[i := Slot(Runnable, s.nextPid, CurrentPid(s), 0)], used := s.used + 1, nextPid := s.nextPid + 1,
       parents := s.parents[s.nextPid := CurrentPid(s)])
  }

  /** task_create_kernel_thread, under its lock. */
  function CreateThread(s: Procs): Procs
    requires -1 <= s.current < |s.slots|
  {
    var i := FirstFreeSlot(s.slots);
    if i == |s.slots| then s else Fill(s, i)
  }

  /** The first locked phase of proc_fork_current: choose a slot, leave it unused. */
  function ForkBegin(s: Procs): Procs {
    var i := FirstFreeSlot(s.slots);
    if s.current < 0 || i == |s.slots| then s else s.(pending := s.pending + [i])
  }

  /** The second locked phase, for the k-th pending fork: fill the slot only if it is still unused. */
  function ForkCommit(s: Procs, k: nat): Procs
    requires k < |s.pending| && s.pending[k] < |s.slots| && -1 <= s.current < |s.slots|
  {
    var i := s.pending[k];
    var s1 := s.(pending := s.pending[..k] + s.pending[k + 1..]);
    if s.current < 0 || s.slots[i].state != Unused then s1 else Fill(s1, i)
  }

  /** proc_exit_current. */
  function ExitCurrent(s: Procs, code: int): Procs
    requires -1 <= s.current < |s.slots|
  {
    if s.current < 0 then s
    else
      var t := s.slots[s.current];
      s.(slots := s.slots[s.current := t.(state := Zombie, exitCode := code)], exits := s.exits[t.pid := code])
  }

  /** A zombie child of `parent` that waitpid(pid) would take. */
  predicate Waitable(t: Slot, parent: int, pid: int) {
    t.state == Zombie && t.ppid == parent && (pid > 0 ==> t.pid == pid)
  }

  function FirstWaitable(slots: seq<Slot>, parent: int, pid: int): (r: nat)
    ensures r <= |slots| && (r < |slots| ==> Waitable(slots[r], parent, pid))
    ensures forall i | 0 <= i < r :: !Waitable(slots[i], parent, pid)
  {
    FirstFrom(slots, (x: Slot) => Waitable(x, parent, pid), 0)
  }

  /** The table after proc_waitpid, the pid it returns and the status it stores. */
  datatype Waited = Waited(s: Procs, ret: int, status: int)

  function Waitpid(s: Procs, pid: int): Waited
    requires -1 <= s.current < |s.slots|
  {
    if s.current < 0 then Waited(s, EFAIL, 0)
    else
      var parent := s.slots[s.current].pid;
      var i := FirstWaitable(s.slots, parent, pid);
      if i == |s.slots| then Waited(s, EFAIL, 0)
      else
        var t := s.slots[i];
        Waited(s.(slots := s.slots[i := FREE_SLOT], used := if s.used > 0 then s.used - 1 else 0,
                  reaped := s.reaped + [(t.pid, parent)]), t.pid, t.exitCode)
  }

  /** What the scheduler may do to the table: make another task current, and write Runnable or Running
      over the state of a task, even of one that has exited. */
  function Reschedule(s: Procs, i: nat, st: RunState, current: int): Procs
    requires i < |s.slots|
  {
    s.(slots := s.slots[i := s.slots[i].(state := st)], current := current)
  }

  /** Live pids are positive, below the next pid, distinct, and above their parents'; the counter is
      exact; the current task is live; an exited task carries the code it exited with; no reaped pid is
      live again or was reaped twice, and each was returned to its parent. */
  ghost predicate Inv(s: Procs) {
    && -1 <= s.current < |s.slots| && (s.current >= 0 ==> Taken(s, s.current))
    && 0 < s.nextPid
    && s.used == |TakenSlots(s.slots)|
    && (forall i | Taken(s, i) :: 0 <= s.slots[i].ppid < s.slots[i].pid < s.nextPid)
    && (forall i, j | Taken(s, i) && Taken(s, j) && i != j :: s.slots[i].pid != s.slots[j].pid)
    && (forall i | Taken(s, i) && s.slots[i].state == Zombie ::
          s.slots[i].pid in s.exits && s.exits[s.slots[i].pid] == s.slots[i].exitCode)
    && (forall k | 0 <= k < |s.pending| :: s.pending[k] < |s.slots|)
    && Issued(s)
    && Retired(s)
  }

  /** Every live task still has the parent it was made with. */
  ghost predicate Issued(s: Procs) {
    && (forall p | p in s.parents :: p < s.nextPid)
    && (forall i | Taken(s, i) :: s.slots[i].pid in s.parents && s.parents[s.slots[i].pid] == s.slots[i].ppid)
  }

  /** The reaped pids: all below the next pid, none live, none twice, each returned to its parent. */
  ghost predicate Retired(s: Procs) {
    && (forall k | 0 <= k < |s.reaped| :: 0 < s.reaped[k].0 < s.nextPid)
    && (forall k, i | 0 <= k < |s.reaped| && Taken(s, i) :: s.slots[i].pid != s.reaped[k].0)
    && (forall j, k | 0 <= j < k < |s.reaped| :: s.reaped[j].0 != s.reaped[k].0)
    && (forall k | 0 <= k < |s.reaped| :: s.reaped[k].0 in s.parents && s.parents[s.reaped[k].0] == s.reaped[k].1)
  }

  lemma FillKeeps(s: Procs, i: nat)
    requires Inv(s) && i < |s.slots| && s.slots[i].state == Unused
    ensures Inv(Fill(s, i)) && Taken(Fill(s, i), i) && Fill(s, i).slots[i].pid == s.nextPid
  {
    FillPids(s, i);
    FillRetired(s, i);
    FillCount(s, i);
    FillZombies(s, i);
  }

  lemma FillCount(s: Procs, i: nat)
    requires i < |s.slots| && s.slots[i].state == Unused && -1 <= s.current < |s.slots|
    ensures |TakenSlots(Fill(s, i).slots)| == |TakenSlots(s.slots)| + 1
  {
    assert TakenSlots(Fill(s, i).slots) == TakenSlots(s.slots) + {i as int};
  }

  lemma FillZombies(s: Procs, i: nat)
    requires Inv(s) && i < |s.slots| && s.slots[i].state == Unused
    ensures
      var s' := Fill(s, i);
      forall j | Taken(s', j) && s'.slots[j].state == Zombie ::
        s'.slots[j].pid in s'.exits && s'.exits[s'.slots[j].pid] == s'.slots[j].exitCode
  {
    var s' := Fill(s, i);
    assert forall j | Taken(s', j) && j != i :: Taken(s, j) && s'.slots[j] == s.slots[j];
  }

  lemma FillPids(s: Procs, i: nat)
    requires Inv(s) && i < |s.slots| && s.slots[i].state == Unused
    ensures
      var s' := Fill(s, i);
      && (forall j | Taken(s', j) :: 0 <= s'.slots[j].ppid < s'.slots[j].pid < s'.nextPid)
      && (forall j, k | Taken(s', j) && Taken(s', k) && j != k :: s'.slots[j].pid != s'.slots[k].pid)
  {
    var s' := Fill(s, i);
    assert forall j | Taken(s', j) && j != i :: Taken(s, j) && s'.slots[j] == s.slots[j];
  }

  lemma FillRetired(s: Procs, i: nat)
    requires Inv(s) && i < |s.slots| && s.slots[i].state == Unused
    ensures Retired(Fill(s, i)) && Issued(Fill(s, i))
  {
    var s' := Fill(s, i);
    assert forall j | Taken(s', j) && j != i :: Taken(s, j) && s'.slots[j] == s.slots[j];
  }

  /** A new task: an unused slot holds it, runnable, with the next pid, the current task as its parent and no exit
      code; every other slot and the current task stay; one more pid is issued and one more slot counted. */
  ghost predicate Makes(s: Procs, s': Procs, i: int) {
    && -1 <= s.current < |s.slots| == |s'.slots| && 0 <= i < |s.slots|
    && s.slots[i].state == Unused && s'.slots[i].state == Runnable
    && s'.slots[i].pid == s.nextPid && s'.slots[i].exitCode == 0
    && s'.slots[i].ppid == (if s.current >= 0 then s.slots[s.current].pid else 0)
    && (forall j | 0 <= j < |s.slots| && j != i :: s'.slots[j] == s.slots[j])
    && s'.nextPid == s.nextPid + 1 && s'.used == s.used + 1 && s'.current == s.current
    && s'.exits == s.exits && s'.reaped == s.reaped
  }

  /** No task is made and none is changed. */
  ghost predicate SameTasks(s: Procs, s': Procs) {
    && s'.slots == s.slots && s'.nextPid == s.nextPid && s'.used == s.used && s'.current == s.current
    && s'.exits == s.exits && s'.reaped == s.reaped
  }

  /** The lowest unused slot. */
  predicate FirstUnused(s: Procs, i: int) {
    0 <= i < |s.slots| && s.slots[i].state == Unused && forall j | 0 <= j < i :: s.slots[j].state != Unused
  }

  /** Creating a thread makes a task in the lowest unused slot, or changes nothing when every slot is taken. */
  lemma CreateMakes(s: Procs)
    requires Inv(s)
    ensures
      var s' := CreateThread(s);
      && s'.pending == s.pending
      && if exists i :: FirstUnused(s, i) then exists i :: FirstUnused(s, i) && Makes(s, s', i) else SameTasks(s, s')
  {
    var i := FirstFreeSlot(s.slots);
    if i < |s.slots| { assert FirstUnused(s, i) && Makes(s, CreateThread(s), i); }
  }

  /** The first phase of a fork notes the lowest unused slot and changes no task. */
  lemma BeginNotes(s: Procs)
    requires Inv(s)
    ensures
      var s' := ForkBegin(s);
      && SameTasks(s, s')
      && if s.current >= 0 && exists i :: FirstUnused(s, i)
         then exists i: nat :: FirstUnused(s, i) && s'.pending == s.pending + [i]
         else s'.pending == s.pending
  {
    var i := FirstFreeSlot(s.slots);
    if s.current >= 0 && i < |s.slots| { assert FirstUnused(s, i) && ForkBegin(s).pending == s.pending + [i]; }
  }

  /** The second phase makes the child in the slot noted if there is a current task and the slot is still unused,
      and changes no task otherwise; either way the note is used up. */
  lemma CommitMakes(s: Procs, k: nat)
    requires Inv(s) && k < |s.pending|
    ensures
      var s', i := ForkCommit(s, k), s.pending[k];
      && s'.pending == s.pending[..k] + s.pending[k + 1..]
      && if s.current >= 0 && s.slots[i].state == Unused then Makes(s, s', i) else SameTasks(s, s')
  {
  }

  /** The current task becomes a zombie with the code and nothing else changes. */
  ghost predicate Exits(s: Procs, s': Procs, code: int) {
    && 0 <= s.current < |s.slots| == |s'.slots|
    && s'.slots[s.current] == Slot(Zombie, s.slots[s.current].pid, s.slots[s.current].ppid, code)
    && (forall j | 0 <= j < |s.slots| && j != s.current :: s'.slots[j] == s.slots[j])
    && s'.nextPid == s.nextPid && s'.used == s.used && s'.current == s.current && s'.reaped == s.reaped
    && s'.exits == s.exits[s.slots[s.current].pid := code]
  }

  lemma ExitIs(s: Procs, code: int)
    requires Inv(s)
    ensures if s.current >= 0 then Exits(s, ExitCurrent(s, code), code) else SameTasks(s, ExitCurrent(s, code))
    ensures ExitCurrent(s, code).pending == s.pending
  {
  }

  lemma CommitKeeps(s: Procs, k: nat)
    requires Inv(s) && k < |s.pending|
    ensures Inv(ForkCommit(s, k))
  {
    var s1 := s.(pending := s.pending[..k] + s.pending[k + 1..]);
    forall j | 0 <= j < |s1.pending| ensures s1.pending[j] < |s1.slots| {
      assert s1.pending[j] == s.pending[if j < k then j else j + 1];
    }
    assert forall j :: Taken(s1, j) == Taken(s, j);
    assert Inv(s1);
    if s.current >= 0 && s.slots[s.pending[k]].state == Unused { FillKeeps(s1, s.pending[k]); }
  }

  lemma ExitKeeps(s: Procs, code: int)
    requires Inv(s)
    ensures Inv(ExitCurrent(s, code))
  {
    var s' := ExitCurrent(s, code);
    assert TakenSlots(s'.slots) == TakenSlots(s.slots);
    assert forall j :: Taken(s', j) == Taken(s, j);
  }

  lemma RescheduleKeeps(s: Procs, i: nat, st: RunState, current: int)
    requires Inv(s) && Taken(s, i) && (st == Runnable || st == Running) && (current == -1 || Taken(s, current))
    ensures
      var s' := Reschedule(s, i, st, current);
      && Inv(s') && s'.current == current && |s'.slots| == |s.slots| && s'.slots[i].state == st
      && forall j | 0 <= j < |s.slots| :: s'.slots[j] == if j == i then s'.slots[i] else s.slots[j]
  {
    var s' := Reschedule(s, i, st, current);
    assert TakenSlots(s'.slots) == TakenSlots(s.slots);
    assert forall j :: Taken(s', j) == Taken(s, j);
  }

  /** Slot i held the zombie with this pid, a child of the current task; it is free and the others stay. */
  ghost predicate ReapsAt(s: Procs, s': Procs, i: int, pid: int) {
    && 0 <= i < |s.slots| && 0 <= s.current < |s.slots| && i != s.current
    && s.slots[i].state == Zombie && s.slots[i].pid == pid && s.slots[i].ppid == s.slots[s.current].pid
    && s'.slots == s.slots[i := FREE_SLOT]
  }

  /** Slot i holds an exited child of the current task, the one asked for if one is. */
  predicate ZombieChild(s: Procs, i: int, pid: int) {
    && 0 <= i < |s.slots| && 0 <= s.current < |s.slots| && s.slots[i].state == Zombie
    && s.slots[i].ppid == s.slots[s.current].pid && (pid > 0 ==> s.slots[i].pid == pid)
  }

  /** A successful wait reaps a zombie child of the caller, never the caller itself, returns the code it
      exited with, and frees exactly that slot; the pid was never returned before. */
  lemma WaitKeeps(s: Procs, pid: int)
    requires Inv(s)
    ensures
      var w := Waitpid(s, pid);
      && Inv(w.s)
      && (w.ret == EFAIL ==> w.s == s && w.status == 0)
      && (w.ret == EFAIL <==>
          s.current < 0 || !exists i :: ZombieChild(s, i, pid))
      && (w.ret != EFAIL ==>
            && w.ret > 0 && (pid > 0 ==> w.ret == pid)
            && w.ret in s.exits && w.status == s.exits[w.ret]
            && w.s.reaped == s.reaped + [(w.ret, s.slots[s.current].pid)]
            && (forall k | 0 <= k < |s.reaped| :: s.reaped[k].0 != w.ret)
            && w.ret in s.parents && s.parents[w.ret] == s.slots[s.current].pid
            && w.s.used == s.used - 1
            && exists i :: ReapsAt(s, w.s, i, w.ret))
  {
    if s.current >= 0 {
      var parent := s.slots[s.current].pid;
      var i := FirstWaitable(s.slots, parent, pid);
      assert forall j | 0 <= j < i :: !Waitable(s.slots[j], parent, pid);
      assert i < |s.slots| ==> ZombieChild(s, i, pid);
      if i < |s.slots| {
        assert Taken(s, i) && Taken(s, s.current);
        var s' := Waitpid(s, pid).s;
        ReapKeeps(s, s', i, parent);
        assert ReapsAt(s, s', i, s.slots[i].pid);
      }
    }
  }

  lemma OneFewer(slots: seq<Slot>, i: nat)
    requires i < |slots| && slots[i].state != Unused
    ensures |TakenSlots(slots[i := FREE_SLOT])| == |TakenSlots(slots)| - 1
  {
    var after := TakenSlots(slots[i := FREE_SLOT]);
    assert TakenSlots(slots) == after + {i as int} && (i as int) !in after;
  }

  lemma ReapKeeps(s: Procs, s': Procs, i: nat, parent: int)
    requires Inv(s) && Taken(s, i) && i != s.current && s.slots[i].ppid == parent
    requires s'.slots == s.slots[i := FREE_SLOT] && s'.reaped == s.reaped + [(s.slots[i].pid, parent)]
    requires s'.used == if s.used > 0 then s.used - 1 else 0
    requires s' == s.(slots := s'.slots, used := s'.used, reaped := s'.reaped)
    ensures Inv(s') && s'.used == s.used - 1
  {
    OneFewer(s.slots, i);
    forall j | Taken(s', j) ensures Taken(s, j) && j != i && s'.slots[j] == s.slots[j] {
    }
    ReapRetires(s, s', i, parent);
  }

  lemma ReapRetires(s: Procs, s': Procs, i: nat, parent: int)
    requires Inv(s) && Taken(s, i) && s'.nextPid == s.nextPid && s'.parents == s.parents && s.slots[i].ppid == parent
    requires s'.reaped == s.reaped + [(s.slots[i].pid, parent)]
    requires forall j | Taken(s', j) :: Taken(s, j) && j != i && s'.slots[j] == s.slots[j]
    ensures Retired(s')
  {
    forall j, k | 0 <= j < k < |s'.reaped| ensures s'.reaped[j].0 != s'.reaped[k].0 {
      if k == |s.reaped| { assert s'.reaped[j] == s.reaped[j]; }
    }
    forall k | 0 <= k < |s'.reaped|
      ensures s'.reaped[k].0 in s'.parents && s'.parents[s'.reaped[k].0] == s'.reaped[k].1
    {
      if k < |s.reaped| { assert s'.reaped[k] == s.reaped[k]; }
    }
  }

  datatype Phase =
    | NewThread
    | Begin
    | Commit(k: nat)
    | Exit(code: int)
    | Wait(pid: int)
    | Switch(i: nat, st: RunState, current: int)

  predicate Allowed(s: Procs, p: Phase) {
    && -1 <= s.current < |s.slots|
    && match p
       case Commit(k) => k < |s.pending| && s.pending[k] < |s.slots|
       case Switch(i, st, current) =>
         Taken(s, i) && (st == Runnable || st == Running) && (current == -1 || Taken(s, current))
       case _ => true
  }

  function Apply(s: Procs, p: Phase): Procs
    requires Allowed(s, p)
  {
    match p
    case NewThread => CreateThread(s)
    case Begin => ForkBegin(s)
    case Commit(k) => ForkCommit(s, k)
    case Exit(code) => ExitCurrent(s, code)
    case Wait(pid) => Waitpid(s, pid).s
    case Switch(i, st, current) => Reschedule(s, i, st, current)
  }

  lemma StepKeeps(s: Procs, p: Phase)
    requires Inv(s) && Allowed(s, p)
    ensures Inv(Apply(s, p))
  {
    match p
    case NewThread =>
      var i := FirstFreeSlot(s.slots);
      if i < |s.slots| { FillKeeps(s, i); }
    case Begin =>
      var s' := ForkBegin(s);
      assert forall j :: Taken(s', j) == Taken(s, j);
    case Commit(k) => CommitKeeps(s, k);
    case Exit(code) => ExitKeeps(s, code);
    case Wait(pid) => WaitKeeps(s, pid);
    case Switch(i, st, current) => RescheduleKeeps(s, i, st, current);
  }

  /** What was reaped stays reaped, pids only go up, and no pid changes its parent. */
  lemma StepGrows(s: Procs, p: Phase)
    requires Inv(s) && Allowed(s, p)
    ensures s.reaped <= Apply(s, p).reaped
    ensures Apply(s, p).nextPid >= s.nextPid
    ensures forall q | q in s.parents :: q in Apply(s, p).parents && Apply(s, p).parents[q] == s.parents[q]
  {
  }

  /** The task with this pid is in slot i, with the parent it was made with. */
  predicate Sits(s: Procs, i: int, pid: int, ppid: int) {
    Taken(s, i) && s.slots[i].pid == pid && s.slots[i].ppid == ppid
  }

  predicate Reaped(s: Procs, pid: int, ppid: int) {
    (pid, ppid) in s.reaped
  }

  /** A phase leaves a task in its slot with its pid and its parent, unless its parent waits for it. */
  lemma StepKeepsSlot(s: Procs, p: Phase, i: int)
    requires Inv(s) && Allowed(s, p) && Taken(s, i)
    ensures
      var s', pid, ppid := Apply(s, p), s.slots[i].pid, s.slots[i].ppid;
      Sits(s', i, pid, ppid) || (p.Wait? && ppid == CurrentPid(s) && Reaped(s', pid, ppid))
  {
    if p.Wait? {
      var s' := Apply(s, p);
      if s'.reaped != s.reaped { assert s'.reaped[|s.reaped|] in s'.reaped; }
    }
  }

  ghost predicate Step(s: Procs, s': Procs, p: Phase) {
    Allowed(s, p) && s' == Apply(s, p)
  }

  ghost predicate StepAt(run: seq<Procs>, phases: seq<Phase>, i: int) {
    0 <= i < |phases| && |run| == |phases| + 1 ==> Step(run[i], run[i + 1], phases[i])
  }

  /** States from a sound table on, and between them the locked phases of any task. */
  ghost predicate IsRun(run: seq<Procs>, phases: seq<Phase>) {
    |run| == |phases| + 1 && Inv(run[0]) && forall i: int :: StepAt(run, phases, i)
  }

  /** In every interleaving of the locked phases the invariant holds throughout, what was reaped stays reaped
      and no pid changes its parent; so no pid is ever returned by waitpid twice or to a task other than the
      one that made it. */
  lemma {:induction false} RunsKeep(run: seq<Procs>, phases: seq<Phase>, n: nat)
    requires IsRun(run, phases) && n < |run|
    ensures Inv(run[n]) && run[0].reaped <= run[n].reaped && run[0].nextPid <= run[n].nextPid
    ensures forall q | q in run[0].parents :: q in run[n].parents && run[n].parents[q] == run[0].parents[q]
  {
    if n > 0 {
      RunsKeep(run, phases, n - 1);
      assert StepAt(run, phases, n - 1);
      StepKeeps(run[n - 1], phases[n - 1]);
      StepGrows(run[n - 1], phases[n - 1]);
    }
  }

  /** No slot is claimed twice: in every interleaving a task keeps its slot, pid and parent until its parent
      waits for it, after which no slot ever holds its pid again. */
  lemma {:induction false} KeepsSlotUntilReaped(run: seq<Procs>, phases: seq<Phase>, m: nat, n: nat, i: int)
    requires IsRun(run, phases) && m <= n < |run| && Taken(run[m], i)
    ensures
      var pid, ppid := run[m].slots[i].pid, run[m].slots[i].ppid;
      if Reaped(run[n], pid, ppid) then forall j | Taken(run[n], j) :: run[n].slots[j].pid != pid
      else Sits(run[n], i, pid, ppid)
    decreases n
  {
    RunsKeep(run, phases, n);
    if n > m {
      KeepsSlotUntilReaped(run, phases, m, n - 1, i);
      RunsKeep(run, phases, n - 1);
      assert StepAt(run, phases, n - 1);
      StepGrows(run[n - 1], phases[n - 1]);
      if Taken(run[n - 1], i) { StepKeepsSlot(run[n - 1], phases[n - 1], i); }
    }
    ReapedIsGone(run[n], run[m].slots[i].pid, run[m].slots[i].ppid);
  }

  lemma ReapedIsGone(s: Procs, pid: int, ppid: int)
    requires Inv(s)
    ensures Reaped(s, pid, ppid) ==> forall j | Taken(s, j) :: s.slots[j].pid != pid
  {
    if Reaped(s, pid, ppid) {
      var k :| 0 <= k < |s.reaped| && s.reaped[k] == (pid, ppid);
    }
  }

  /** Two forks that chose the same slot cannot both fill it, whatever happens in between: once one has, the
      other changes nothing unless the task made by the first has been waited for. */
  lemma SecondCommitFails(run: seq<Procs>, phases: seq<Phase>, m: nat, n: nat)
    requires IsRun(run, phases) && m < n < |phases|
    requires Fills(run[m], phases[m]) && phases[n].Commit? && phases[n].k < |run[n].pending|
    requires run[n].pending[phases[n].k] == run[m].pending[phases[m].k]
    ensures
      || Reaped(run[n], run[m].nextPid, CurrentPid(run[m]))
      || (run[n + 1].slots == run[n].slots && run[n + 1].nextPid == run[n].nextPid)
  {
    var i := run[m].pending[phases[m].k];
    RunsKeep(run, phases, m);
    assert StepAt(run, phases, m) && StepAt(run, phases, n);
    assert Sits(run[m + 1], i, run[m].nextPid, CurrentPid(run[m]));
    KeepsSlotUntilReaped(run, phases, m + 1, n, i);
  }

  /** The second phase of a fork that succeeds. */
  predicate Fills(s: Procs, p: Phase) {
    && p.Commit? && p.k < |s.pending| && s.pending[p.k] < |s.slots|
    && 0 <= s.current < |s.slots| && s.slots[s.pending[p.k]].state == Unused
  }

  /** proc_init. */
  lemma InitKeeps(n: nat)
    requires n > 0
    ensures Inv(Procs(seq(n, i => if i == 0 then Slot(Running, 1, 0, 0) else FREE_SLOT), 1, 2, 0, [], map[1 := 0],
        map[], []))
  {
    var slots := seq(n, i => if i == 0 then Slot(Running, 1, 0, 0) else FREE_SLOT);
    assert TakenSlots(slots) == {0};
  }
}
