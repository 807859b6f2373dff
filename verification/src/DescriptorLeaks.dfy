/** Exit and waitpid release no descriptor: what the reference counts then mean, over every run. */
module DescriptorLeaks {
  import opened Descriptors
  import opened DescriptorOps
  import opened DescriptorSteps
  import opened DescriptorForks
  import opened HalfForks
  import opened PipeStreams
  import opened DescriptorRuns

  ghost predicate HoldsAny(s: State, t: int, id: int) {
    exists fd :: Holds(s.tabs, s.counted, t, fd, id)
  }

  /** The slots of tasks not waited for that hold an object. */
  ghost function LiveHolders(tr: Trace, id: int): set<(int, int)> {
    set h | h in Holders(tr.s.tabs, tr.s.counted, id) && h.0 !in tr.reaped
  }

  predicate SameTable(s: State, s': State, u: int) {
    && 0 <= u < |s.tabs| <= |s'.tabs| && |s.counted| == |s.tabs| && |s'.counted| == |s'.tabs|
    && s'.tabs[u] == s.tabs[u] && s'.counted[u] == s.counted[u]
  }

  /** An operation leaves every table alone but that of the task it is issued by or on. */
  lemma OtherTablesStay(tr: Trace, op: Op, u: nat)
    requires Good(tr) && Issued(tr, op) && u < |tr.s.tabs|
    requires op.SpawnTask? || op.ForkCopy? || u != TaskOf(op)
    ensures SameTable(tr.s, Apply(tr, op).s, u)
  {
    if Moves(op) {
      MovesAreLocal(tr, op);
    } else if op.ForkRetain? {
      ForkKeeps(tr.s, op.child);
    }
  }

  /** No operation is issued by or on a task that has been waited for. */
  lemma ReapedStays(tr: Trace, op: Op, u: nat)
    requires Good(tr) && Allowed(tr, op) && u in tr.reaped && u < |tr.s.tabs|
    ensures u in Apply(tr, op).reaped && SameTable(tr.s, Apply(tr, op).s, u)
  {
    OtherTablesStay(tr, op, u);
  }

  lemma SameTableTwice(s: State, s': State, s'': State, u: int)
    requires SameTable(s, s', u) && SameTable(s', s'', u)
    ensures SameTable(s, s'', u)
  {
  }

  /** A task that has been waited for keeps its table as it was then. */
  lemma {:induction false} ReapedTableStays(run: seq<Trace>, ops: seq<Op>, r: nat, n: nat)
    requires IsRun(run, ops) && Good(run[0]) && r < n < |run| && ops[r].Reap?
    ensures ops[r].t in run[n].reaped && SameTable(run[r].s, run[n].s, ops[r].t)
    decreases n
  {
    if n == r + 1 {
      ReapsAt(run, ops, r);
    } else {
      ReapedTableStays(run, ops, r, n - 1);
      ReapedStaysAt(run, ops, n - 1, ops[r].t);
      SameTableTwice(run[r].s, run[n - 1].s, run[n].s, ops[r].t);
    }
  }

  lemma ReapsAt(run: seq<Trace>, ops: seq<Op>, r: nat)
    requires IsRun(run, ops) && Good(run[0]) && r < |ops| && ops[r].Reap?
    ensures ops[r].t in run[r + 1].reaped && SameTable(run[r].s, run[r + 1].s, ops[r].t)
  {
    RunsStayGood(run, ops, r);
    assert StepAt(run, ops, r);
  }

  lemma ReapedStaysAt(run: seq<Trace>, ops: seq<Op>, k: nat, u: nat)
    requires IsRun(run, ops) && Good(run[0]) && k < |ops| && u in run[k].reaped && u < |run[k].s.tabs|
    ensures u in run[k + 1].reaped && SameTable(run[k].s, run[k + 1].s, u)
  {
    RunsStayGood(run, ops, k);
    assert StepAt(run, ops, k);
    ReapedStays(run[k], ops[k], u);
  }

  /** The tasks waited for are those of the run's waits. */
  lemma {:induction false} ReapedWhen(run: seq<Trace>, ops: seq<Op>, n: nat, t: nat) returns (r: nat)
    requires IsRun(run, ops) && run[0].reaped == {} && n < |run| && t in run[n].reaped
    ensures r < n && ops[r] == Reap(t)
  {
    assert StepAt(run, ops, n - 1);
    if ops[n - 1] == Reap(t) { r := n - 1; } else { r := ReapedWhen(run, ops, n - 1, t); }
  }

  ghost predicate LeaksAt(run: seq<Trace>, ops: seq<Op>, r: int, id: int) {
    0 <= r < |ops| && r < |run| && ops[r].Reap? && HoldsAny(run[r].s, ops[r].t, id)
  }

  /** A task waited for holds an object now exactly when some wait found it holding the object. */
  lemma ReapedHolderIff(run: seq<Trace>, ops: seq<Op>, n: nat, id: int)
    requires IsRun(run, ops) && Good(run[0]) && run[0].reaped == {} && n < |run|
    ensures (exists t :: t in run[n].reaped && HoldsAny(run[n].s, t, id)) <==>
        exists r :: r < n && LeaksAt(run, ops, r, id)
  {
    if t :| t in run[n].reaped && HoldsAny(run[n].s, t, id) {
      var r := ReapedWhen(run, ops, n, t);
      ReapedTableStays(run, ops, r, n);
      SameHoldings(run[r].s, run[n].s, t, id);
      assert LeaksAt(run, ops, r, id);
    }
    if r :| r < n && LeaksAt(run, ops, r, id) {
      ReapedTableStays(run, ops, r, n);
      SameHoldings(run[r].s, run[n].s, ops[r].t, id);
    }
  }

  lemma SameHoldings(s: State, s': State, t: int, id: int)
    requires SameTable(s, s', t)
    ensures HoldsAny(s, t, id) <==> HoldsAny(s', t, id)
  {
    forall fd ensures Holds(s.tabs, s.counted, t, fd, id) <==> Holds(s'.tabs, s'.counted, t, fd, id) {
    }
  }

  lemma LiveHoldersCount(tr: Trace, id: int)
    ensures |LiveHolders(tr, id)| <= |Holders(tr.s.tabs, tr.s.counted, id)|
    ensures |LiveHolders(tr, id)| == |Holders(tr.s.tabs, tr.s.counted, id)| <==>
            !exists t :: t in tr.reaped && HoldsAny(tr.s, t, id)
  {
    var all, live := Holders(tr.s.tabs, tr.s.counted, id), LiveHolders(tr, id);
    assert all == live + (all - live);
    if t :| t in tr.reaped && HoldsAny(tr.s, t, id) {
      var fd :| Holds(tr.s.tabs, tr.s.counted, t, fd, id);
      assert (t as int, fd) in all - live;
    } else {
      forall h | h in all ensures h in live {
        assert Holds(tr.s.tabs, tr.s.counted, h.0, h.1, id);
        assert h.0 in tr.reaped ==> HoldsAny(tr.s, h.0, id);
      }
      assert all == live;
    }
  }

  /** Over every run the count of an object is at least the slots of tasks not waited for that hold it, and equal
      exactly when every task waited for had closed all its slots on the object by then. */
  lemma ReapedTasksLeak(run: seq<Trace>, ops: seq<Op>, n: nat, id: int)
    requires IsRun(run, ops) && Good(run[0]) && run[0].reaped == {} && n < |run| && InUse(run[n].s.objs, id)
    ensures run[n].s.objs[id].refcnt >= |LiveHolders(run[n], id)|
    ensures run[n].s.objs[id].refcnt == |LiveHolders(run[n], id)| <==> !exists r :: r < n && LeaksAt(run, ops, r, id)
  {
    RunsStayGood(run, ops, n);
    LiveHoldersCount(run[n], id);
    ReapedHolderIff(run, ops, n, id);
  }

  /** An object held when its task is waited for is never freed. */
  lemma LeakedForever(run: seq<Trace>, ops: seq<Op>, r: nat, n: nat, id: int)
    requires IsRun(run, ops) && Good(run[0]) && r < n < |run| && LeaksAt(run, ops, r, id) && id != NO_FD
    ensures InUse(run[n].s.objs, id)
  {
    ReapedTableStays(run, ops, r, n);
    SameHoldings(run[r].s, run[n].s, ops[r].t, id);
    RunsStayGood(run, ops, n);
  }

  /** From nm_fd_init: a task makes a pipe, exits and is waited for. */
  const PIPE_AND_EXIT := [SpawnTask, OpenPipeOp(0), Exit(0), Reap(0)]

  lemma FirstTaskCanPipe(tr: Trace, objs: nat, bufs: seq<seq<nat>>)
    requires objs >= 2 && bufs != [] && Allowed(Init(objs, bufs), SpawnTask)
    requires tr == Apply(Init(objs, bufs), SpawnTask)
    ensures |tr.s.tabs| == 1 && Attached(tr.s, 0) && MakePipe(tr.s, 0).ret == 0
  {
    assert tr.s.tabs[0].slots == EmptySlots();
    assert !tr.s.pipes[0].used && !tr.s.objs[0].used && !tr.s.objs[1].used;
    assert tr.s.tabs[0].slots[0] == tr.s.tabs[0].slots[1] == NO_FD;
    PipeSucceedsIff(tr.s, 0);
  }

  /** The first table after its task made a pipe: slots rd and wr hold the two ends, each with one reference. */
  predicate HoldsPipe(s: State, rd: nat, wr: nat) {
    && |s.tabs| == 1 && Shaped(s) && SlotInUse(s, 0, rd) && SlotInUse(s, 0, wr)
    && s.tabs[0].slots[rd] != s.tabs[0].slots[wr]
    && var o := s.objs[s.tabs[0].slots[rd]];
       NamesPipe(o) && o.refcnt == 1 && 0 <= o.pipe < |s.pipes| && s.pipes[o.pipe].used
  }

  lemma OpenedEnds(s: State) returns (rd: nat, wr: nat)
    requires Inv(s) && |s.tabs| == 1 && Attached(s, 0) && MakePipe(s, 0).ret == 0
    ensures HoldsPipe(MakePipe(s, 0).s, rd, wr)
  {
    PipeKeeps(s, 0);
    var r := MakePipe(s, 0);
    var ro: nat, wo: nat, p: nat :| OpensPipe(s, r, 0, ro, wo, p);
    rd, wr := r.rd, r.wr;
  }

  /** The only table is that of a task waited for, so nobody left holds anything. */
  lemma NobodyLeft(tr: Trace, id: int)
    requires |tr.s.tabs| == 1 && 0 in tr.reaped
    ensures LiveHolders(tr, id) == {}
  {
    forall h | h in Holders(tr.s.tabs, tr.s.counted, id) ensures h.0 == 0 {
    }
  }

  /** A run after which an object and its pipe are in use although no task that is left holds them. */
  lemma PipeExitReapLeaks(objs: nat, bufs: seq<seq<nat>>) returns (run: seq<Trace>, id: nat, p: nat)
    requires objs >= 2 && bufs != [] && forall i | 0 <= i < |bufs| :: |bufs[i]| == PIPE_BUF
    ensures IsRun(run, PIPE_AND_EXIT) && run[0] == Init(objs, bufs)
    ensures InUse(run[4].s.objs, id) && run[4].s.objs[id].pipe == p < |run[4].s.pipes| && run[4].s.pipes[p].used
    ensures LiveHolders(run[4], id) == {} && run[4].s.objs[id].refcnt > 0
  {
    var t1, t2, rd, _ := SpawnAndPipe(objs, bufs);
    id := t2.s.tabs[0].slots[rd];
    p := t2.s.objs[id].pipe;
    var t3, t4 := ExitAndReap(t2, id);
    run := FourSteps(Init(objs, bufs), t1, t2, t3, t4);
  }

  lemma SpawnAndPipe(objs: nat, bufs: seq<seq<nat>>) returns (t1: Trace, t2: Trace, rd: nat, wr: nat)
    requires objs >= 2 && bufs != [] && forall i | 0 <= i < |bufs| :: |bufs[i]| == PIPE_BUF
    ensures Step(Init(objs, bufs), t1, SpawnTask) && Step(t1, t2, OpenPipeOp(0))
    ensures Good(t2) && HoldsPipe(t2.s, rd, wr) && Attached(t2.s, 0) && t2.reaped == {}
  {
    t1 := FirstTask(objs, bufs);
    t2, rd, wr := PipeOfFirst(t1);
  }

  lemma FirstTask(objs: nat, bufs: seq<seq<nat>>) returns (t1: Trace)
    requires objs >= 2 && bufs != [] && forall i | 0 <= i < |bufs| :: |bufs[i]| == PIPE_BUF
    ensures Step(Init(objs, bufs), t1, SpawnTask) && Good(t1) && |t1.s.tabs| == 1 && Attached(t1.s, 0)
    ensures MakePipe(t1.s, 0).ret == 0 && t1.reaped == {}
  {
    var t0 := Init(objs, bufs);
    InitIsGood(objs, bufs);
    t1 := Apply(t0, SpawnTask);
    StepGoodIff(t0, SpawnTask);
    FirstTaskCanPipe(t1, objs, bufs);
  }

  lemma PipeOfFirst(t1: Trace) returns (t2: Trace, rd: nat, wr: nat)
    requires Good(t1) && |t1.s.tabs| == 1 && Attached(t1.s, 0) && MakePipe(t1.s, 0).ret == 0 && t1.reaped == {}
    ensures Step(t1, t2, OpenPipeOp(0)) && Good(t2) && HoldsPipe(t2.s, rd, wr) && Attached(t2.s, 0) && t2.reaped == {}
  {
    rd, wr := OpenedEnds(t1.s);
    t2 := Apply(t1, OpenPipeOp(0));
    StepGoodIff(t1, OpenPipeOp(0));
    PipeIsLocal(t1.s, 0);
  }

  lemma ExitAndReap(tr: Trace, id: nat) returns (t3: Trace, t4: Trace)
    requires Good(tr) && |tr.s.tabs| == 1 && Attached(tr.s, 0) && tr.reaped == {} && InUse(tr.s.objs, id)
    ensures Step(tr, t3, Exit(0)) && Step(t3, t4, Reap(0)) && t4.s == tr.s
    ensures LiveHolders(t4, id) == {} && tr.s.objs[id].refcnt > 0
  {
    t3 := Apply(tr, Exit(0));
    t4 := Apply(t3, Reap(0));
    NobodyLeft(t4, id);
  }

  lemma FourSteps(t0: Trace, t1: Trace, t2: Trace, t3: Trace, t4: Trace) returns (run: seq<Trace>)
    requires Step(t0, t1, SpawnTask) && Step(t1, t2, OpenPipeOp(0)) && Step(t2, t3, Exit(0)) && Step(t3, t4, Reap(0))
    ensures IsRun(run, PIPE_AND_EXIT) && run[0] == t0 && run[4] == t4
  {
    run := [t0, t1, t2, t3, t4];
  }
}
