/** Whole runs of descriptor operations by any number of tasks: exact counts and lossless streams. */
module DescriptorRuns {
  import opened Common
  import opened Descriptors
  import opened DescriptorOps
  import opened DescriptorSteps
  import opened DescriptorForks
  import opened HalfForks
  import opened PipeStreams

  /** The slot holds a file; its bytes are the filesystem's business. */
  predicate FileSlot(s: State, t: nat, fd: int)
    requires Shaped(s) && t < |s.tabs|
  {
    0 <= fd < MAX_FDS && InUse(s.objs, s.tabs[t].slots[fd]) && s.objs[s.tabs[t].slots[fd]].kind == File
  }

  /** The pipe whose end of this kind the slot holds, or -1. */
  function EndPipe(s: State, t: nat, fd: int, kind: Kind): (p: int)
    requires Shaped(s) && t < |s.tabs|
    ensures p >= 0 ==> p < |s.pipes|
  {
    if 0 <= fd < MAX_FDS && InUse(s.objs, s.tabs[t].slots[fd]) then
      var o := s.objs[s.tabs[t].slots[fd]];
      if o.kind == kind && 0 <= o.pipe < |s.pipes| && s.pipes[o.pipe].used then o.pipe else -1
    else -1
  }

  /** The slot holds the end of this kind of pipe p. */
  predicate HoldsEnd(s: State, t: nat, fd: int, kind: Kind, p: int)
    requires Shaped(s) && t < |s.tabs|
  {
    && 0 <= fd < MAX_FDS && 0 <= s.tabs[t].slots[fd] < |s.objs| && 0 <= p < |s.pipes| && s.pipes[p].used
    && var o := s.objs[s.tabs[t].slots[fd]];
       o.used && o.kind == kind && o.pipe == p
  }

  predicate PipesOk(s: State) {
    forall p | 0 <= p < |s.pipes| :: |s.pipes[p].buf| == PIPE_BUF && (s.pipes[p].used ==> PipeOk(s.pipes[p]))
  }

  /** The descriptors; per pipe the bytes accepted and the bytes delivered since it was made; and the tasks that
      have exited and those that have been waited for. */
  datatype Trace = Trace(s: State, sent: seq<seq<nat>>, got: seq<seq<nat>>, exited: set<nat>, reaped: set<nat>)

  datatype Op =
    | SpawnTask
    | ForkCopy(parent: nat)
    | ForkRetain(child: nat)
    | CloseFd(t: nat, fd: int)
    | Dup(t: nat, oldfd: int, newfd: int)
    | OpenPipeOp(t: nat)
    | Mark(t: nat, fd: int, on: bool)
    | Exec(t: nat)
    | ReadFd(t: nat, fd: int, len: nat)
    | WriteFd(t: nat, fd: int, data: seq<nat>)
    | Exit(t: nat)
    | Reap(t: nat)

  function TaskOf(op: Op): nat {
    match op
    case SpawnTask => 0
    case ForkCopy(p) => p
    case ForkRetain(c) => c
    case CloseFd(t, _) => t
    case Dup(t, _, _) => t
    case OpenPipeOp(t) => t
    case Mark(t, _, _) => t
    case Exec(t) => t
    case ReadFd(t, _, _) => t
    case WriteFd(t, _, _) => t
    case Exit(t) => t
    case Reap(t) => t
  }

  /** The slot holds no file, so that a read or write is on a pipe or fails. */
  predicate OnPipe(s: State, t: nat, fd: int)
    requires Shaped(s) && t < |s.tabs|
  {
    PipesOk(s) && !FileSlot(s, t, fd)
  }

  /** A write to a pipe that does not carry it past 2^64 bytes, or to a slot that holds no end of one. */
  predicate CanWrite(s: State, t: nat, fd: int, data: seq<nat>)
    requires Shaped(s) && t < |s.tabs|
  {
    && OnPipe(s, t, fd)
    && var p := EndPipe(s, t, fd, PipeWrite);
       p >= 0 ==> s.pipes[p].writePos + Accepted(s.pipes[p], data) < TWO64
  }

  /** The operation is issued by, or on, a task that exists and has not been waited for; reads and writes are on
      pipes; no pipe carries 2^64 bytes. An exited task may still act, since a tick can make it runnable again;
      a half-forked one may act too, but its parent is still in the fork and does not wait for it. */
  predicate Issued(tr: Trace, op: Op) {
    && Shaped(tr.s) && PipesOk(tr.s)
    && (op.SpawnTask? || (TaskOf(op) < |tr.s.tabs| && TaskOf(op) !in tr.reaped))
    && (op.ReadFd? ==> OnPipe(tr.s, op.t, op.fd))
    && (op.WriteFd? ==> CanWrite(tr.s, op.t, op.fd, op.data))
    && (op.Reap? ==> op.t in tr.exited && Attached(tr.s, op.t))
  }

  /** An operation of a half-forked child that moves no count. */
  predicate Harmless(s: State, op: Op)
    requires Shaped(s) && (op.SpawnTask? || TaskOf(op) < |s.tabs|)
  {
    match op
    case CloseFd(t, fd) => !SlotInUse(s, t, fd)
    case Dup(t, oldfd, newfd) => DupHarmless(s, t, oldfd, newfd)
    case OpenPipeOp(t) => !PipeRoom(s, t)
    case Exec(t) => ExecHarmless(s, t, 0)
    case ReadFd(t, fd, _) => !Stale(s, t, fd)
    case WriteFd(t, fd, _) => !Stale(s, t, fd)
    case _ => true
  }

  /** The task's table is attached, or the operation moves no count. */
  predicate Safe(s: State, op: Op)
    requires Shaped(s) && (op.SpawnTask? || TaskOf(op) < |s.tabs|)
  {
    Attached(s, TaskOf(op)) || Harmless(s, op)
  }

  predicate Allowed(tr: Trace, op: Op) {
    Issued(tr, op) && Safe(tr.s, op)
  }

  function Apply(tr: Trace, op: Op): Trace
    requires Issued(tr, op)
  {
    var s := tr.s;
    match op
    case SpawnTask => tr.(s := Spawn(s))
    case ForkCopy(parent) => tr.(s := CopyTable(s, parent))
    case ForkRetain(child) => tr.(s := RetainAll(s, child))
    case CloseFd(t, fd) => tr.(s := Close(s, t, fd).s)
    case Dup(t, oldfd, newfd) => tr.(s := Dup2(s, t, oldfd, newfd).s)
    case Mark(t, fd, on) => tr.(s := SetCloexec(s, t, fd, on).s)
    case Exec(t) => tr.(s := CloseMarked(s, t, 0))
    case OpenPipeOp(t) =>
      var r := MakePipe(s, t);
      var p := FirstFreePipe(s.pipes);
      if r.ret == 0 && p < |tr.sent| && p < |tr.got| then
        tr.(s := r.s, sent := tr.sent[p := []], got := tr.got[p := []])
      else tr.(s := r.s)
    case ReadFd(t, fd, len) =>
      var p := EndPipe(s, t, fd, PipeRead);
      if Stale(s, t, fd) then tr.(s := Adopted(s, t, fd))
      else if p < 0 || p >= |tr.got| then tr
      else tr.(s := s.(pipes := s.pipes[p := AfterRead(s.pipes[p], len)]),
               got := tr.got[p := tr.got[p] + ReadBytes(s.pipes[p], len)])
    case WriteFd(t, fd, data) =>
      var p := EndPipe(s, t, fd, PipeWrite);
      if Stale(s, t, fd) then tr.(s := Adopted(s, t, fd))
      else if p < 0 || p >= |tr.sent| then tr
      else tr.(s := s.(pipes := s.pipes[p := PutBytes(s.pipes[p], data)]),
               sent := tr.sent[p := tr.sent[p] + data[..Accepted(s.pipes[p], data)]])
    case Exit(t) => tr.(exited := tr.exited + {t})
    case Reap(t) => tr.(reaped := tr.reaped + {t})
  }

  /** Bytes delivered followed by bytes still buffered are the bytes accepted, in order. */
  ghost predicate Lossless(tr: Trace) {
    && |tr.sent| == |tr.got| == |tr.s.pipes|
    && PipesOk(tr.s)
    && forall p | 0 <= p < |tr.s.pipes| && tr.s.pipes[p].used ::
         tr.got[p] + Content(tr.s.pipes[p]) == tr.sent[p]
  }

  /** The loop of nm_fd_on_fork_child is one step: a table is counted or it is not. */
  predicate Settled(s: State) {
    |s.counted| == |s.tabs| && forall t | 0 <= t < |s.tabs| :: Attached(s, t) || HalfForked(s, t)
  }

  ghost predicate Good(tr: Trace) {
    Inv(tr.s) && Lossless(tr) && Settled(tr.s)
  }

  lemma StreamsSurvive(tr: Trace, s': State)
    requires Lossless(tr) && SameStreams(tr.s.pipes, s'.pipes)
    ensures Lossless(tr.(s := s'))
  {
    forall p | 0 <= p < |s'.pipes| && s'.pipes[p].used
      ensures PipeOk(s'.pipes[p]) && Content(s'.pipes[p]) == Content(tr.s.pipes[p])
    {
      assert tr.s.pipes[p].used;
    }
  }

  /** Moving bytes changes no count. */
  lemma PositionsKeep(s: State, p: nat, q: Pipe)
    requires Inv(s) && p < |s.pipes| && s.pipes[p].used
    requires q.used && q.readers == s.pipes[p].readers && q.writers == s.pipes[p].writers
    ensures Inv(s.(pipes := s.pipes[p := q]))
  {
    var pipes' := s.pipes[p := q];
    forall i | 0 <= i < |pipes'| ensures PipeMatches(s.objs, pipes', i) {
      assert PipeMatches(s.objs, s.pipes, i);
    }
  }

  /** A write appends the same bytes to what was accepted and to what is buffered. */
  lemma WriteLossless(got: seq<nat>, sent: seq<nat>, q: Pipe, data: seq<nat>)
    requires PipeOk(q) && q.writePos + Accepted(q, data) < TWO64 && got + Content(q) == sent
    ensures PipeOk(PutBytes(q, data)) && got + Content(PutBytes(q, data)) == sent + data[..Accepted(q, data)]
    ensures PutBytes(q, data) == q.(buf := PutBytes(q, data).buf, writePos := PutBytes(q, data).writePos)
  {
    WriteAppends(q, data);
    JoinsSame(got, Content(q), data[..Accepted(q, data)]);
  }

  /** Replacing one pipe and its records. */
  lemma PutPipeGood(tr: Trace, p: nat, q: Pipe, sent: seq<nat>, got: seq<nat>)
    requires Inv(tr.s) && Lossless(tr) && p < |tr.s.pipes| && tr.s.pipes[p].used
    requires q.used && PipeOk(q) && got + Content(q) == sent
    requires q.readers == tr.s.pipes[p].readers && q.writers == tr.s.pipes[p].writers
    ensures
      var tr' := tr.(s := tr.s.(pipes := tr.s.pipes[p := q]), sent := tr.sent[p := sent], got := tr.got[p := got]);
      Inv(tr'.s) && Lossless(tr')
  {
    PositionsKeep(tr.s, p, q);
  }

  lemma WriteGood(tr: Trace, op: Op)
    requires Good(tr) && op.WriteFd? && Issued(tr, op) && !Stale(tr.s, op.t, op.fd)
    ensures Inv(Apply(tr, op).s) && Lossless(Apply(tr, op))
  {
    var p := EndPipe(tr.s, op.t, op.fd, PipeWrite);
    if p >= 0 {
      var q := tr.s.pipes[p];
      var sent := tr.sent[p] + op.data[..Accepted(q, op.data)];
      WriteLossless(tr.got[p], tr.sent[p], q, op.data);
      PutPipeGood(tr, p, PutBytes(q, op.data), sent, tr.got[p]);
      assert tr.got[p := tr.got[p]] == tr.got;
    }
  }

  lemma ReadGood(tr: Trace, op: Op)
    requires Good(tr) && op.ReadFd? && Issued(tr, op) && !Stale(tr.s, op.t, op.fd)
    ensures Inv(Apply(tr, op).s) && Lossless(Apply(tr, op))
  {
    var p := EndPipe(tr.s, op.t, op.fd, PipeRead);
    if p >= 0 {
      var q := tr.s.pipes[p];
      ReadTakesFront(q, op.len);
      var got, rest := ReadBytes(q, op.len), Content(AfterRead(q, op.len));
      JoinsSame(tr.got[p], got, rest);
      PutPipeGood(tr, p, AfterRead(q, op.len), tr.sent[p], tr.got[p] + got);
      assert tr.sent[p := tr.sent[p]] == tr.sent;
    }
  }

  /** The pipe that is made starts empty, whoever makes it. */
  lemma OpenStreams(tr: Trace, t: nat)
    requires Good(tr) && Issued(tr, OpenPipeOp(t))
    ensures Lossless(Apply(tr, OpenPipeOp(t)))
  {
    var s := tr.s;
    var r := MakePipe(s, t);
    if r.ret != 0 {
      FailedPipeChangesNothing(s, t);
    } else {
      var p := FirstFreePipe(s.pipes);
      assert r.s.pipes == s.pipes[p := OpenPipe(s.pipes[p])];
    }
  }

  /** No operation loses or reorders a byte, not even one that spoils a count. */
  lemma StepStreams(tr: Trace, op: Op)
    requires Good(tr) && Issued(tr, op)
    ensures Lossless(Apply(tr, op))
  {
    var s := tr.s;
    match op
    case ForkRetain(child) =>
      assert SameStreams(s.pipes, RetainAll(s, child).pipes) by { ForkKeeps(s, child); }
      StreamsSurvive(tr, RetainAll(s, child));
    case CloseFd(t, fd) => CloseStreams(s, t, fd); StreamsSurvive(tr, Close(s, t, fd).s);
    case Dup(t, a, b) => Dup2Streams(s, t, a, b); StreamsSurvive(tr, Dup2(s, t, a, b).s);
    case Exec(t) => ExecStreams(s, t, 0); StreamsSurvive(tr, CloseMarked(s, t, 0));
    case OpenPipeOp(t) => OpenStreams(tr, t);
    case ReadFd(t, fd, len) => if !Stale(s, t, fd) { ReadGood(tr, op); }
    case WriteFd(t, fd, data) => if !Stale(s, t, fd) { WriteGood(tr, op); }
    case _ =>
  }

  /** Operations of tasks with attached tables keep the counts exact. */
  lemma AttachedStep(tr: Trace, op: Op)
    requires Good(tr) && Issued(tr, op) && Attached(tr.s, TaskOf(op))
    ensures Inv(Apply(tr, op).s)
  {
    var s := tr.s;
    match op
    case CloseFd(t, fd) => assert Inv(Close(s, t, fd).s) by { CloseKeeps(s, t, fd); }
    case Dup(t, a, b) => assert Inv(Dup2(s, t, a, b).s) by { Dup2Keeps(s, t, a, b); }
    case Exec(t) => assert Inv(CloseMarked(s, t, 0)) by { ExecKeeps(s, t, 0); }
    case OpenPipeOp(t) => assert Inv(MakePipe(s, t).s) by { PipeKeeps(s, t); }
    case ReadFd(t, fd, len) => NeverStale(s, t, fd); ReadGood(tr, op);
    case WriteFd(t, fd, data) => NeverStale(s, t, fd); WriteGood(tr, op);
    case _ => PlainStep(tr, op);
  }

  /** Operations that move no reference of the table they are issued on. */
  predicate Moves(op: Op) {
    op.CloseFd? || op.Dup? || op.Exec? || op.OpenPipeOp? || op.ReadFd? || op.WriteFd?
  }

  lemma PlainStep(tr: Trace, op: Op)
    requires Good(tr) && Issued(tr, op) && !Moves(op)
    ensures Inv(Apply(tr, op).s)
  {
    var s := tr.s;
    match op
    case SpawnTask => SpawnKeeps(s);
    case ForkCopy(parent) => CopyKeeps(s, parent);
    case ForkRetain(child) => ForkKeeps(s, child);
    case Mark(t, fd, on) => SetCloexecKeeps(s, t, fd, on);
    case _ =>
  }

  /** Operations of half-forked children keep the counts exact exactly when they are harmless. */
  lemma HalfForkedStep(tr: Trace, op: Op)
    requires Good(tr) && Issued(tr, op) && Moves(op) && HalfForked(tr.s, TaskOf(op))
    ensures Inv(Apply(tr, op).s) <==> Harmless(tr.s, op)
  {
    var s := tr.s;
    match op
    case CloseFd(t, fd) => CloseKeepsIff(s, t, fd);
    case Dup(t, a, b) => DupKeepsIff(s, t, a, b);
    case Exec(t) => ExecKeepsIff(s, t, 0);
    case OpenPipeOp(t) => PipeKeepsIff(s, t);
    case ReadFd(t, fd, len) => if Stale(s, t, fd) { AdoptKeepsIff(s, t, fd); } else { ReadGood(tr, op); }
    case WriteFd(t, fd, data) => if Stale(s, t, fd) { AdoptKeepsIff(s, t, fd); } else { WriteGood(tr, op); }
  }

  /** An operation that moves references touches no table but that of the task it is issued by. */
  lemma MovesAreLocal(tr: Trace, op: Op)
    requires Issued(tr, op) && Moves(op)
    ensures OnlyTable(tr.s, Apply(tr, op).s, TaskOf(op))
  {
    match op
    case CloseFd(t, fd) => CloseIsLocal(tr.s, t, fd);
    case Dup(t, a, b) => Dup2IsLocal(tr.s, t, a, b);
    case Exec(t) => ExecFewer(tr.s, t, 0);
    case OpenPipeOp(t) => PipeIsLocal(tr.s, t);
    case _ =>
  }

  lemma StepSettles(tr: Trace, op: Op)
    requires Good(tr) && Issued(tr, op)
    ensures Settled(Apply(tr, op).s)
  {
    if Moves(op) { MovesAreLocal(tr, op); }
    if op.ForkRetain? { ForkKeeps(tr.s, op.child); }
    CountedSettles(tr.s, Apply(tr, op).s);
  }

  lemma CountedSettles(s: State, s': State)
    requires Settled(s) && |s'.counted| == |s'.tabs| >= |s.tabs|
    requires forall t | 0 <= t < |s'.tabs| ::
               (t < |s.tabs| && s'.counted[t] == s.counted[t]) || s'.counted[t] == 0 || s'.counted[t] == MAX_FDS
    ensures Settled(s')
  {
    forall t | 0 <= t < |s'.tabs| ensures Attached(s', t) || HalfForked(s', t) {
      assert t < |s.tabs| ==> Attached(s, t) || HalfForked(s, t);
    }
  }

  /** Whatever any task does next, the counts stay exact and the streams lossless exactly when the task's table
      is attached or the operation is one that moves no count. */
  lemma StepGoodIff(tr: Trace, op: Op)
    requires Good(tr) && Issued(tr, op)
    ensures Good(Apply(tr, op)) <==> Safe(tr.s, op)
  {
    StepStreams(tr, op);
    StepSettles(tr, op);
    if !Moves(op) {
      PlainStep(tr, op);
    } else if Attached(tr.s, TaskOf(op)) {
      AttachedStep(tr, op);
    } else {
      HalfForkedStep(tr, op);
    }
  }

  ghost predicate Step(tr: Trace, tr': Trace, op: Op) {
    Allowed(tr, op) && tr' == Apply(tr, op)
  }

  ghost predicate IsRun(run: seq<Trace>, ops: seq<Op>) {
    |run| == |ops| + 1 && forall i: int :: StepAt(run, ops, i)
  }

  lemma MarkStep(tr: Trace, tr': Trace, t: nat, fd: int, on: bool)
    requires Step(tr, tr', Mark(t, fd, on)) && Shaped(tr.s) && t < |tr.s.tabs|
    ensures tr'.s == SetCloexec(tr.s, t, fd, on).s
  {
  }

  lemma ExecStep(tr: Trace, tr': Trace, t: nat)
    requires Step(tr, tr', Exec(t)) && Shaped(tr.s) && t < |tr.s.tabs|
    ensures tr'.s == CloseMarked(tr.s, t, 0)
  {
  }

  /** What a task says about an open slot is what its exec then does with it. */
  lemma MarkDecidesExec(tr: Trace, tr1: Trace, tr2: Trace, t: nat, fd: nat, on: bool)
    requires Good(tr) && Attached(tr.s, t) && fd < MAX_FDS && tr.s.tabs[t].slots[fd] != NO_FD
    requires Step(tr, tr1, Mark(t, fd, on)) && Step(tr1, tr2, Exec(t))
    ensures t < |tr2.s.tabs| && |tr2.s.tabs[t].slots| == MAX_FDS
    ensures tr2.s.tabs[t].slots[fd] == if on then NO_FD else tr.s.tabs[t].slots[fd]
  {
    MarkStep(tr, tr1, t, fd, on);
    SetCloexecKeeps(tr.s, t, fd, on);
    ExecStep(tr1, tr2, t);
    MarkThenExec(tr.s, t, fd, on);
  }

  ghost predicate StepAt(run: seq<Trace>, ops: seq<Op>, i: int) {
    0 <= i < |ops| && |run| == |ops| + 1 ==> Step(run[i], run[i + 1], ops[i])
  }

  /** Over every run of safe operations of all tasks, in any interleaving, reference counts equal the slots
      that hold each object, pipe ends equal the references of their objects, and every pipe delivers
      exactly what it accepted, in order. */
  lemma {:induction false} RunsStayGood(run: seq<Trace>, ops: seq<Op>, n: nat)
    requires IsRun(run, ops) && Good(run[0]) && n < |run|
    ensures Good(run[n])
  {
    if n > 0 {
      RunsStayGood(run, ops, n - 1);
      assert StepAt(run, ops, n - 1);
      StepGoodIff(run[n - 1], ops[n - 1]);
    }
  }

  /** nm_fd_init, before any task exists. */
  function Init(objs: nat, bufs: seq<seq<nat>>): Trace {
    var none := seq(|bufs|, _ => []);
    Trace(State([], [], seq(objs, _ => FREE_OBJ), seq(|bufs|, p requires 0 <= p < |bufs| => Idle(bufs[p]))), none,
        none, {}, {})
  }

  function Idle(buf: seq<nat>): Pipe {
    Pipe(false, 0, 0, 0, 0, buf)
  }

  lemma InitIsGood(objs: nat, bufs: seq<seq<nat>>)
    requires forall p | 0 <= p < |bufs| :: |bufs[p]| == PIPE_BUF
    ensures Good(Init(objs, bufs))
  {
  }
}
