/** What a wait returns over whole runs: the code of the task's last exit. */
module TaskRuns {
  import opened Tasks

  /** Task `pid` exits with this code. */
  predicate ExitsWith(s: Procs, p: Phase, pid: int, code: int) {
    p == Exit(code) && 0 <= s.current < |s.slots| && s.slots[s.current].pid == pid
  }

  predicate ExitsNow(s: Procs, p: Phase, pid: int) {
    p.Exit? && ExitsWith(s, p, pid, p.code)
  }

  /** Phase j is the last exit of the task among the first n phases. */
  ghost predicate LastExit(run: seq<Procs>, phases: seq<Phase>, j: int, n: nat, pid: int, code: int) {
    && 0 <= j < n <= |phases| && |run| == |phases| + 1
    && ExitsWith(run[j], phases[j], pid, code)
    && forall m: int :: ExitsLater(run, phases, j, m, n, pid) ==> false
  }

  ghost predicate ExitsLater(run: seq<Procs>, phases: seq<Phase>, j: int, m: int, n: nat, pid: int) {
    0 <= j < m < n && n <= |phases| && |run| == |phases| + 1 && ExitsNow(run[m], phases[m], pid)
  }

  /** Only an exit changes what is recorded of a task. */
  lemma StepRecords(s: Procs, p: Phase, pid: int)
    requires Inv(s) && Allowed(s, p)
    ensures
      var s' := Apply(s, p);
      && (!ExitsNow(s, p, pid) ==> (pid in s'.exits <==> pid in s.exits) &&
                                   (pid in s.exits ==> s'.exits[pid] == s.exits[pid]))
      && (ExitsNow(s, p, pid) ==> pid in s'.exits && s'.exits[pid] == p.code)
  {
    match p
    case NewThread => CreateMakes(s);
    case Begin => BeginNotes(s);
    case Commit(k) => CommitMakes(s, k);
    case Exit(code) => ExitIs(s, code);
    case Wait(q) => WaitKeeps(s, q);
    case Switch(_, _, _) =>
  }

  /** What is recorded of a task is the code of its last exit. */
  lemma {:induction false} RecordedIsLast(run: seq<Procs>, phases: seq<Phase>, n: nat, pid: int) returns (j: nat)
    requires IsRun(run, phases) && n < |run| && run[0].exits == map[] && pid in run[n].exits
    ensures LastExit(run, phases, j, n, pid, run[n].exits[pid])
  {
    RunsKeep(run, phases, n - 1);
    assert StepAt(run, phases, n - 1);
    StepRecords(run[n - 1], phases[n - 1], pid);
    if ExitsNow(run[n - 1], phases[n - 1], pid) {
      j := n - 1;
    } else {
      j := RecordedIsLast(run, phases, n - 1, pid);
      forall m: int ensures !ExitsLater(run, phases, j, m, n, pid) {
        assert !ExitsLater(run, phases, j, m, n - 1, pid);
      }
    }
  }

  /** In every interleaving, a wait that returns a pid returns the code of the last exit of that task, which was made
      by a fork or as a thread of the waiter. */
  lemma WaitGivesLastExit(run: seq<Procs>, phases: seq<Phase>, n: nat) returns (j: nat)
    requires IsRun(run, phases) && run[0].exits == map[] && n < |phases| && phases[n].Wait?
    requires exists i :: ZombieChild(run[n], i, phases[n].pid)
    ensures -1 <= run[n].current < |run[n].slots|
    ensures
      var w := Waitpid(run[n], phases[n].pid);
      && LastExit(run, phases, j, n, w.ret, w.status)
      && w.ret in run[n].parents && run[n].parents[w.ret] == run[n].slots[run[n].current].pid
  {
    RunsKeep(run, phases, n);
    WaitKeeps(run[n], phases[n].pid);
    j := RecordedIsLast(run, phases, n, Waitpid(run[n], phases[n].pid).ret);
  }
}
