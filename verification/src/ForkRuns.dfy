/** What a fork's two phases do over whole runs: the child gets its parent's descriptors, unless it acts first. */
module ForkRuns {
  import opened Descriptors
  import opened DescriptorOps
  import opened DescriptorSteps
  import opened DescriptorForks
  import opened HalfForks
  import opened PipeStreams
  import opened DescriptorRuns
  import opened DescriptorLeaks

  /** The operation is by or on neither of two tasks; copying one of their tables does not matter. */
  predicate LeavesAlone(op: Op, p: nat, c: nat) {
    op.SpawnTask? || op.ForkCopy? || (TaskOf(op) != p && TaskOf(op) != c)
  }

  /** Between the two phases of a fork neither parent nor child acts. */
  ghost predicate Undisturbed(ops: seq<Op>, i: nat, j: nat, p: nat, c: nat) {
    && i < j < |ops| && ops[i] == ForkCopy(p) && ops[j] == ForkRetain(c)
    && forall k | i < k < j :: LeavesAlone(ops[k], p, c)
  }

  /** Until the second phase both tables are what the parent's was at the first. */
  ghost predicate Waiting(s: State, s': State, p: nat, c: nat) {
    HalfForked(s', c) && SameTable(s, s', p) && s'.tabs[c] == s.tabs[p]
  }

  lemma {:induction false} TablesWait(run: seq<Trace>, ops: seq<Op>, i: nat, j: nat, n: nat, p: nat, c: nat)
    requires IsRun(run, ops) && Good(run[0]) && Undisturbed(ops, i, j, p, c) && i < n <= j
    requires p < c == |run[i].s.tabs|
    ensures Waiting(run[i].s, run[n].s, p, c)
    decreases n
  {
    if n == i + 1 {
      CopyAt(run, ops, i, p);
    } else {
      TablesWait(run, ops, i, j, n - 1, p, c);
      WaitsAt(run, ops, n - 1, run[i].s, p, c);
    }
  }

  lemma CopyAt(run: seq<Trace>, ops: seq<Op>, i: nat, p: nat)
    requires IsRun(run, ops) && Good(run[0]) && i < |ops| && ops[i] == ForkCopy(p)
    ensures Waiting(run[i].s, run[i + 1].s, p, |run[i].s.tabs|)
  {
    RunsStayGood(run, ops, i);
    assert StepAt(run, ops, i);
    CopyWaits(run[i], run[i + 1], p);
  }

  lemma WaitsAt(run: seq<Trace>, ops: seq<Op>, k: nat, s: State, p: nat, c: nat)
    requires IsRun(run, ops) && Good(run[0]) && k < |ops| && LeavesAlone(ops[k], p, c) && Waiting(s, run[k].s, p, c)
    ensures Waiting(s, run[k + 1].s, p, c)
  {
    RunsStayGood(run, ops, k);
    assert StepAt(run, ops, k);
    TablesWaitOn(s, run[k], run[k + 1], ops[k], p, c);
  }

  lemma CopyWaits(tr: Trace, tr': Trace, p: nat)
    requires Good(tr) && Step(tr, tr', ForkCopy(p))
    ensures Waiting(tr.s, tr'.s, p, |tr.s.tabs|)
  {
  }

  lemma TablesWaitOn(s: State, tr: Trace, tr': Trace, op: Op, p: nat, c: nat)
    requires Good(tr) && Step(tr, tr', op) && LeavesAlone(op, p, c) && Waiting(s, tr.s, p, c)
    ensures Waiting(s, tr'.s, p, c)
  {
    OtherTablesStay(tr, op, p);
    OtherTablesStay(tr, op, c);
  }

  lemma CloseEnds(s: State, t: nat, fd: int, id: int)
    requires Shaped(s) && t < |s.tabs| && InUse(s.objs, id) && InUse(Close(s, t, fd).s.objs, id)
    ensures SameEnd(s.objs[id], Close(s, t, fd).s.objs[id])
  {
  }

  lemma Dup2Ends(s: State, t: nat, a: int, b: int, id: int)
    requires Shaped(s) && t < |s.tabs| && InUse(s.objs, id) && InUse(Dup2(s, t, a, b).s.objs, id)
    ensures SameEnd(s.objs[id], Dup2(s, t, a, b).s.objs[id])
  {
  }

  lemma PipeEnds(s: State, t: nat, id: int)
    requires Shaped(s) && t < |s.tabs| && InUse(s.objs, id) && InUse(MakePipe(s, t).s.objs, id)
    ensures SameEnd(s.objs[id], MakePipe(s, t).s.objs[id])
  {
  }

  lemma ExecEnds(s: State, t: nat, id: int)
    requires Shaped(s) && t < |s.tabs| && InUse(s.objs, id) && InUse(CloseMarked(s, t, 0).objs, id)
    ensures SameEnd(s.objs[id], CloseMarked(s, t, 0).objs[id])
  {
    ExecFewer(s, t, 0);
    assert FewerAt(s.objs, CloseMarked(s, t, 0).objs, id);
  }

  lemma PlainEnds(tr: Trace, op: Op, id: int)
    requires Issued(tr, op) && InUse(tr.s.objs, id) && (!Moves(op) || op.ReadFd? || op.WriteFd?) && !op.ForkRetain?
    ensures Apply(tr, op).s.objs == tr.s.objs ||
            (InUse(Apply(tr, op).s.objs, id) && SameEnd(tr.s.objs[id], Apply(tr, op).s.objs[id]))
  {
  }

  /** No operation turns an object in use into another one in use. */
  lemma EndsStay(tr: Trace, op: Op, s': State, id: int)
    requires Good(tr) && Issued(tr, op) && s' == Apply(tr, op).s && InUse(tr.s.objs, id) && InUse(s'.objs, id)
    ensures SameEnd(tr.s.objs[id], s'.objs[id])
  {
    match op
    case ForkRetain(child) => ForkKeeps(tr.s, child);
    case CloseFd(t, fd) => CloseEnds(tr.s, t, fd, id);
    case Dup(t, a, b) => Dup2Ends(tr.s, t, a, b, id);
    case OpenPipeOp(t) => PipeEnds(tr.s, t, id);
    case Exec(t) => ExecEnds(tr.s, t, id);
    case _ => PlainEnds(tr, op, id);
  }

  /** A slot of an attached table has this number. */
  predicate SlotIs(s: State, t: nat, fd: nat, id: int) {
    Attached(s, t) && fd < MAX_FDS && |s.tabs[t].slots| == MAX_FDS && s.tabs[t].slots[fd] == id
  }

  /** So what an attached slot holds stays the same file or end as long as the slot is not written. */
  lemma {:induction false} HeldStays(run: seq<Trace>, ops: seq<Op>, i: nat, n: nat, t: nat, fd: nat, id: int)
    requires IsRun(run, ops) && Good(run[0]) && i <= n < |run| && id != NO_FD
    requires forall k: nat | i <= k <= n :: SlotIs(run[k].s, t, fd, id)
    ensures InUse(run[i].s.objs, id) && InUse(run[n].s.objs, id) && SameEnd(run[i].s.objs[id], run[n].s.objs[id])
    decreases n
  {
    assert SlotIs(run[n].s, t, fd, id);
    HeldAt(run, ops, n, t, fd, id);
    if n > i {
      HeldStays(run, ops, i, n - 1, t, fd, id);
      EndStaysAt(run, ops, n - 1, id);
    }
  }

  lemma HeldAt(run: seq<Trace>, ops: seq<Op>, n: nat, t: nat, fd: nat, id: int)
    requires IsRun(run, ops) && Good(run[0]) && n < |run| && SlotIs(run[n].s, t, fd, id) && id != NO_FD
    ensures InUse(run[n].s.objs, id)
  {
    RunsStayGood(run, ops, n);
    NeverStale(run[n].s, t, fd);
  }

  lemma EndStaysAt(run: seq<Trace>, ops: seq<Op>, k: nat, id: int)
    requires IsRun(run, ops) && Good(run[0]) && k < |ops| && InUse(run[k].s.objs, id) && InUse(run[k + 1].s.objs, id)
    ensures SameEnd(run[k].s.objs[id], run[k + 1].s.objs[id])
  {
    RunsStayGood(run, ops, k);
    assert StepAt(run, ops, k);
    EndsStay(run[k], ops[k], run[k + 1].s, id);
  }

  /** The slot holds an object that was in use at both times and is the same file or pipe end. */
  predicate SameHeld(s: State, s': State, id: int) {
    InUse(s.objs, id) && InUse(s'.objs, id) && SameEnd(s.objs[id], s'.objs[id])
  }

  /** Fork duplicates: if neither parent nor child acts between the phases, the child ends up with the table the
      parent has and had, slots and marks, and every slot of it holds the file or pipe end it held at the copy. */
  lemma ForkDuplicates(run: seq<Trace>, ops: seq<Op>, i: nat, j: nat, p: nat, c: nat)
    requires IsRun(run, ops) && Good(run[0]) && Undisturbed(ops, i, j, p, c)
    requires c == |run[i].s.tabs| && Attached(run[i].s, p)
    ensures Attached(run[j + 1].s, c) && Attached(run[j + 1].s, p)
    ensures run[j + 1].s.tabs[c] == run[j + 1].s.tabs[p] == run[i].s.tabs[p]
    ensures forall id | id in run[i].s.tabs[p].slots && id != NO_FD :: SameHeld(run[i].s, run[j + 1].s, id)
  {
    TablesWait(run, ops, i, j, j, p, c);
    assert StepAt(run, ops, j);
    RunsStayGood(run, ops, i);
    RunsStayGood(run, ops, j);
    forall id | id in run[i].s.tabs[p].slots && id != NO_FD ensures SameHeld(run[i].s, run[j].s, id) {
      var fd: nat :| fd < MAX_FDS && run[i].s.tabs[p].slots[fd] == id;
      forall k: nat | i <= k <= j ensures SlotIs(run[k].s, p, fd, id) {
        if k > i { TablesWait(run, ops, i, j, k, p, c); }
      }
      HeldStays(run, ops, i, j, p, fd, id);
    }
    AttachedCopy(run[i].s, run[j].s, p, c);
  }

  lemma AttachedCopy(s: State, s': State, p: nat, c: nat)
    requires Inv(s) && Inv(s') && p < |s.tabs| && HalfForked(s', c) && p != c && SameTable(s, s', p) && Attached(s, p)
    requires s'.tabs[c] == s.tabs[p]
    requires forall id | id in s.tabs[p].slots && id != NO_FD :: SameHeld(s, s', id)
    ensures
      var r := RetainAll(s', c);
      && Attached(r, c) && Attached(r, p) && r.tabs[c] == r.tabs[p] == s.tabs[p]
      && forall id | id in s.tabs[p].slots && id != NO_FD :: SameHeld(s, r, id)
  {
    ForkKeeps(s', c);
    var r := RetainAll(s', c);
    forall fd | 0 <= fd < MAX_FDS ensures r.tabs[c].slots[fd] == s.tabs[p].slots[fd] {
      assert s.tabs[p].slots[fd] in s.tabs[p].slots;
    }
  }

  /** From nm_fd_init: a task makes a pipe and forks. */
  const PIPE_AND_FORK := [SpawnTask, OpenPipeOp(0), ForkCopy(0)]

  lemma CopyInUse(tr: Trace, rd: nat, wr: nat)
    requires Good(tr) && HoldsPipe(tr.s, rd, wr) && Attached(tr.s, 0) && tr.reaped == {}
    ensures
      var t3 := Apply(tr, ForkCopy(0));
      && Good(t3) && HalfForked(t3.s, 1) && t3.s.tabs == [tr.s.tabs[0], tr.s.tabs[0]] && t3.s.objs == tr.s.objs
      && Issued(t3, CloseFd(1, rd)) && Issued(t3, Dup(1, rd, wr))
  {
    StepGoodIff(tr, ForkCopy(0));
  }

  lemma ThreeSteps(t0: Trace, t1: Trace, t2: Trace, t3: Trace) returns (run: seq<Trace>)
    requires Step(t0, t1, SpawnTask) && Step(t1, t2, OpenPipeOp(0)) && Step(t2, t3, ForkCopy(0))
    ensures IsRun(run, PIPE_AND_FORK) && run[0] == t0 && run[3] == t3
  {
    run := [t0, t1, t2, t3];
  }

  /** A run after which the child, still half-forked, can close its parent's end of a pipe: the parent's slot
      then names an object that is not in use. A dup2 over the other end spoils the counts too. */
  lemma ChildActsFirst(objs: nat, bufs: seq<seq<nat>>) returns (run: seq<Trace>, rd: nat, wr: nat)
    requires objs >= 2 && bufs != [] && forall i | 0 <= i < |bufs| :: |bufs[i]| == PIPE_BUF
    ensures IsRun(run, PIPE_AND_FORK) && run[0] == Init(objs, bufs) && HalfForked(run[3].s, 1)
    ensures Issued(run[3], CloseFd(1, rd)) && Issued(run[3], Dup(1, rd, wr))
    ensures
      var s := Apply(run[3], CloseFd(1, rd)).s;
      !Inv(s) && |s.tabs| == 2 && Shaped(s) && rd < MAX_FDS && s.tabs[0].slots[rd] != NO_FD && !SlotInUse(s, 0, rd)
    ensures !Inv(Apply(run[3], Dup(1, rd, wr)).s)
  {
    var t1, t2;
    t1, t2, rd, wr := SpawnAndPipe(objs, bufs);
    CopyInUse(t2, rd, wr);
    var t3 := Apply(t2, ForkCopy(0));
    run := ThreeSteps(Init(objs, bufs), t1, t2, t3);
    ActsFirst(t3, rd, wr);
  }

  lemma ActsFirst(tr: Trace, rd: nat, wr: nat)
    requires Good(tr) && HalfForked(tr.s, 1) && |tr.s.tabs| == 2 && tr.s.tabs[1] == tr.s.tabs[0]
    requires SlotInUse(tr.s, 0, rd) && SlotInUse(tr.s, 0, wr) && tr.s.tabs[0].slots[rd] != tr.s.tabs[0].slots[wr]
    requires tr.s.objs[tr.s.tabs[0].slots[rd]].refcnt == 1
    requires Issued(tr, CloseFd(1, rd)) && Issued(tr, Dup(1, rd, wr))
    ensures
      var s := Apply(tr, CloseFd(1, rd)).s;
      !Inv(s) && |s.tabs| == 2 && Shaped(s) && rd < MAX_FDS && s.tabs[0].slots[rd] != NO_FD && !SlotInUse(s, 0, rd)
    ensures !Inv(Apply(tr, Dup(1, rd, wr)).s)
  {
    CloseKeepsIff(tr.s, 1, rd);
    DupKeepsIff(tr.s, 1, rd, wr);
  }
}
