/** Which bytes a pipe carries over whole runs: what its write ends accepted is what its read ends get. */
module PipeRuns {
  import opened Common
  import opened Descriptors
  import opened DescriptorOps
  import opened DescriptorSteps
  import opened DescriptorForks
  import opened PipeStreams
  import opened DescriptorRuns
  import opened ForkRuns

  // ---- One operation ----

  /** Of the bytes offered a pipe accepts as many as its buffer has room for. */
  function Offered(q: Pipe, data: seq<nat>): seq<nat>
    requires PipeOk(q)
  {
    data[..Min(|data|, PIPE_BUF - (q.writePos - q.readPos))]
  }

  /** The bytes an operation puts into pipe p: those of a write to a slot that holds its write end. */
  ghost function PutInto(s: State, op: Op, p: nat): seq<nat> {
    if op.WriteFd? && Shaped(s) && op.t < |s.tabs| && HoldsEnd(s, op.t, op.fd, PipeWrite, p) && PipeOk(s.pipes[p]) then
      Offered(s.pipes[p], op.data)
    else []
  }

  /** The bytes an operation takes out of pipe p: the oldest, by a read of a slot that holds its read end. */
  ghost function TakenFrom(s: State, op: Op, p: nat): seq<nat> {
    if op.ReadFd? && Shaped(s) && op.t < |s.tabs| && HoldsEnd(s, op.t, op.fd, PipeRead, p) && PipeOk(s.pipes[p]) then
      Content(s.pipes[p])[..Min(op.len, |Content(s.pipes[p])|)]
    else []
  }

  /** An end is held of one pipe and one kind. */
  lemma OneEnd(s: State, t: nat, fd: int, kind: Kind, p: nat)
    requires Inv(s) && t < |s.tabs| && HoldsEnd(s, t, fd, kind, p)
    ensures EndPipe(s, t, fd, kind) == p && !Stale(s, t, fd)
    ensures forall q, k | HoldsEnd(s, t, fd, k, q) :: q == p && k == kind
    ensures forall k | k != kind :: EndPipe(s, t, fd, k) < 0
  {
  }

  lemma NoEndHeld(s: State, t: nat, fd: int, kind: Kind)
    requires Inv(s) && t < |s.tabs| && (kind == PipeRead || kind == PipeWrite)
    requires forall p: nat :: !HoldsEnd(s, t, fd, kind, p)
    ensures EndPipe(s, t, fd, kind) < 0
  {
    var p := EndPipe(s, t, fd, kind);
    assert p >= 0 ==> HoldsEnd(s, t, fd, kind, p);
  }

  /** A write to the write end of a pipe adds what is accepted to the end of what is buffered, and nothing else
      changes; to any other slot it changes nothing. */
  lemma WriteGoesIn(tr: Trace, op: Op, tr': Trace, p: nat)
    requires Good(tr) && op.WriteFd? && Step(tr, tr', op) && p < |tr.s.pipes| && tr.s.pipes[p].used
    ensures tr'.s.tabs == tr.s.tabs && tr'.s.objs == tr.s.objs && tr'.got == tr.got
    ensures p < |tr'.s.pipes| && tr'.s.pipes[p].used && PipeOk(tr'.s.pipes[p])
    ensures Content(tr'.s.pipes[p]) == Content(tr.s.pipes[p]) + PutInto(tr.s, op, p)
    ensures tr'.sent[p] == tr.sent[p] + PutInto(tr.s, op, p)
  {
    if q: nat :| HoldsEnd(tr.s, op.t, op.fd, PipeWrite, q) {
      WriteChanges(tr, op, tr', q);
      if p == q {
        WriteAppends(tr.s.pipes[p], op.data);
      } else {
        assert !HoldsEnd(tr.s, op.t, op.fd, PipeWrite, p) by { OneEnd(tr.s, op.t, op.fd, PipeWrite, q); }
        assert tr'.s.pipes[p] == tr.s.pipes[p];
      }
    } else {
      NothingWritten(tr, op, tr');
    }
  }

  lemma WriteChanges(tr: Trace, op: Op, tr': Trace, q: nat)
    requires Good(tr) && op.WriteFd? && Step(tr, tr', op) && HoldsEnd(tr.s, op.t, op.fd, PipeWrite, q)
    ensures PipeOk(tr.s.pipes[q]) && tr.s.pipes[q].writePos + Accepted(tr.s.pipes[q], op.data) < TWO64
    ensures tr' == tr.(s := tr.s.(pipes := tr.s.pipes[q := PutBytes(tr.s.pipes[q], op.data)]),
                       sent := tr.sent[q := tr.sent[q] + Offered(tr.s.pipes[q], op.data)])
  {
    OneEnd(tr.s, op.t, op.fd, PipeWrite, q);
  }

  lemma NothingWritten(tr: Trace, op: Op, tr': Trace)
    requires Good(tr) && op.WriteFd? && Step(tr, tr', op)
    requires forall q: nat :: !HoldsEnd(tr.s, op.t, op.fd, PipeWrite, q)
    ensures tr' == tr
  {
    NoEndHeld(tr.s, op.t, op.fd, PipeWrite);
    StepNeverStale(tr, op);
  }

  /** A safe read or write is not on a stale slot. */
  lemma StepNeverStale(tr: Trace, op: Op)
    requires Good(tr) && Allowed(tr, op) && (op.ReadFd? || op.WriteFd?)
    ensures !Stale(tr.s, op.t, op.fd)
  {
    if Attached(tr.s, op.t) { NeverStale(tr.s, op.t, op.fd); }
  }

  /** A read of the read end of a pipe takes the oldest bytes off what is buffered, as many as asked for and there;
      of any other slot it changes nothing. */
  lemma ReadComesOut(tr: Trace, op: Op, tr': Trace, p: nat)
    requires Good(tr) && op.ReadFd? && Step(tr, tr', op) && p < |tr.s.pipes| && tr.s.pipes[p].used
    ensures tr'.s.tabs == tr.s.tabs && tr'.s.objs == tr.s.objs && tr'.sent == tr.sent
    ensures p < |tr'.s.pipes| && tr'.s.pipes[p].used && PipeOk(tr'.s.pipes[p])
    ensures TakenFrom(tr.s, op, p) + Content(tr'.s.pipes[p]) == Content(tr.s.pipes[p])
    ensures tr'.got[p] == tr.got[p] + TakenFrom(tr.s, op, p)
  {
    if q: nat :| HoldsEnd(tr.s, op.t, op.fd, PipeRead, q) {
      ReadChanges(tr, op, tr', q);
      if p == q {
        ReadTakesFront(tr.s.pipes[p], op.len);
      } else {
        assert !HoldsEnd(tr.s, op.t, op.fd, PipeRead, p) by { OneEnd(tr.s, op.t, op.fd, PipeRead, q); }
        assert tr'.s.pipes[p] == tr.s.pipes[p];
      }
    } else {
      NothingRead(tr, op, tr');
    }
  }

  lemma ReadChanges(tr: Trace, op: Op, tr': Trace, q: nat)
    requires Good(tr) && op.ReadFd? && Step(tr, tr', op) && HoldsEnd(tr.s, op.t, op.fd, PipeRead, q)
    ensures PipeOk(tr.s.pipes[q])
    ensures tr' == tr.(s := tr.s.(pipes := tr.s.pipes[q := AfterRead(tr.s.pipes[q], op.len)]),
                       got := tr.got[q := tr.got[q] + ReadBytes(tr.s.pipes[q], op.len)])
  {
    OneEnd(tr.s, op.t, op.fd, PipeRead, q);
  }

  lemma NothingRead(tr: Trace, op: Op, tr': Trace)
    requires Good(tr) && op.ReadFd? && Step(tr, tr', op)
    requires forall q: nat :: !HoldsEnd(tr.s, op.t, op.fd, PipeRead, q)
    ensures tr' == tr
  {
    NoEndHeld(tr.s, op.t, op.fd, PipeRead);
    StepNeverStale(tr, op);
  }

  /** A read of a write end and a write to a read end change nothing. */
  lemma WrongEndDoesNothing(tr: Trace, op: Op, tr': Trace, p: nat)
    requires Good(tr) && Step(tr, tr', op)
    requires (op.ReadFd? && HoldsEnd(tr.s, op.t, op.fd, PipeWrite, p)) ||
             (op.WriteFd? && HoldsEnd(tr.s, op.t, op.fd, PipeRead, p))
    ensures tr' == tr
  {
    OneEnd(tr.s, op.t, op.fd, if op.ReadFd? then PipeWrite else PipeRead, p);
  }

  /** A successful pipe call: the two descriptors it returns hold the two ends of a pipe that nobody was using and
      that is empty. */
  lemma MakesBothEnds(s: State, t: nat) returns (p: nat)
    requires Inv(s) && Attached(s, t) && MakePipe(s, t).ret == 0
    ensures
      var r := MakePipe(s, t);
      && p == FirstFreePipe(s.pipes) < |s.pipes| && r.s.pipes == s.pipes[p := OpenPipe(s.pipes[p])] && t < |r.s.tabs|
      && HoldsEnd(r.s, t, r.rd, PipeRead, p) && HoldsEnd(r.s, t, r.wr, PipeWrite, p) && r.rd != r.wr
  {
    PipeKeeps(s, t);
    var r := MakePipe(s, t);
    var ro: nat, wo: nat, q: nat :| OpensPipe(s, r, t, ro, wo, q);
    p := FirstFreePipe(s.pipes);
    assert r.s.pipes == s.pipes[p := OpenPipe(s.pipes[p])];
    assert r.s.objs[ro] == EndOf(PipeRead, p) && r.s.objs[wo] == EndOf(PipeWrite, p);
  }

  lemma OpensBothEnds(tr: Trace, tr': Trace, t: nat) returns (p: nat)
    requires Good(tr) && Step(tr, tr', OpenPipeOp(t)) && Attached(tr.s, t) && MakePipe(tr.s, t).ret == 0
    ensures
      var r := MakePipe(tr.s, t);
      && p < |tr.s.pipes| && !tr.s.pipes[p].used && t < |tr'.s.tabs|
      && HoldsEnd(tr'.s, t, r.rd, PipeRead, p) && HoldsEnd(tr'.s, t, r.wr, PipeWrite, p) && r.rd != r.wr
      && PipeOk(tr'.s.pipes[p]) && Content(tr'.s.pipes[p]) == [] && tr'.sent[p] == tr'.got[p] == []
  {
    p := MakesBothEnds(tr.s, t);
  }

  // ---- Runs ----

  /** Everything put into pipe p from state i to state n, in order. */
  ghost function AllPut(run: seq<Trace>, ops: seq<Op>, i: nat, n: nat, p: nat): seq<nat>
    requires |run| == |ops| + 1 && i <= n <= |ops|
    decreases n
  {
    if n == i then [] else AllPut(run, ops, i, n - 1, p) + PutInto(run[n - 1].s, ops[n - 1], p)
  }

  /** Everything taken out of it. */
  ghost function AllTaken(run: seq<Trace>, ops: seq<Op>, i: nat, n: nat, p: nat): seq<nat>
    requires |run| == |ops| + 1 && i <= n <= |ops|
    decreases n
  {
    if n == i then [] else AllTaken(run, ops, i, n - 1, p) + TakenFrom(run[n - 1].s, ops[n - 1], p)
  }

  /** Any other operation leaves a pipe that stays in use alone. */
  lemma OtherOpsLeavePipe(tr: Trace, op: Op, tr': Trace, p: nat)
    requires Good(tr) && Step(tr, tr', op) && !op.ReadFd? && !op.WriteFd?
    requires p < |tr.s.pipes| && tr.s.pipes[p].used && p < |tr'.s.pipes| && tr'.s.pipes[p].used
    ensures p < |tr'.sent| && p < |tr'.got| && tr'.sent[p] == tr.sent[p] && tr'.got[p] == tr.got[p]
  {
  }

  /** The records of a pipe that stays in use grow by what is put in and taken out. */
  lemma StepRecords(tr: Trace, op: Op, tr': Trace, p: nat)
    requires Good(tr) && Step(tr, tr', op)
    requires p < |tr.s.pipes| && tr.s.pipes[p].used && p < |tr'.s.pipes| && tr'.s.pipes[p].used
    ensures p < |tr'.sent| && p < |tr'.got|
    ensures tr'.sent[p] == tr.sent[p] + PutInto(tr.s, op, p) && tr'.got[p] == tr.got[p] + TakenFrom(tr.s, op, p)
  {
    if op.WriteFd? {
      WriteGoesIn(tr, op, tr', p);
    } else if op.ReadFd? {
      ReadComesOut(tr, op, tr', p);
    } else {
      OtherOpsLeavePipe(tr, op, tr', p);
    }
  }

  ghost predicate InUseFrom(run: seq<Trace>, i: nat, n: nat, p: nat) {
    forall k: nat | i <= k <= n && k < |run| :: p < |run[k].s.pipes| && run[k].s.pipes[p].used
  }

  lemma RecordsAt(run: seq<Trace>, ops: seq<Op>, k: nat, n: nat, p: nat)
    requires IsRun(run, ops) && Good(run[0]) && n == k + 1 < |run|
    requires p < |run[k].s.pipes| && run[k].s.pipes[p].used && p < |run[n].s.pipes| && run[n].s.pipes[p].used
    ensures p < |run[k].sent| && p < |run[k].got| && p < |run[n].sent| && p < |run[n].got|
    ensures run[n].sent[p] == run[k].sent[p] + PutInto(run[k].s, ops[k], p)
    ensures run[n].got[p] == run[k].got[p] + TakenFrom(run[k].s, ops[k], p)
  {
    RunsStayGood(run, ops, k);
    assert StepAt(run, ops, k);
    StepRecords(run[k], ops[k], run[n], p);
  }

  lemma OneMoreOp(run: seq<Trace>, ops: seq<Op>, i: nat, k: nat, n: nat, p: nat)
    requires |run| == |ops| + 1 && i <= k && n == k + 1 <= |ops|
    ensures AllPut(run, ops, i, n, p) == AllPut(run, ops, i, k, p) + PutInto(run[k].s, ops[k], p)
    ensures AllTaken(run, ops, i, n, p) == AllTaken(run, ops, i, k, p) + TakenFrom(run[k].s, ops[k], p)
  {
  }

  /** What a pipe that stays in use has recorded since state i. */
  ghost predicate Recorded(run: seq<Trace>, ops: seq<Op>, i: nat, n: nat, p: nat)
    requires |run| == |ops| + 1 && i <= n <= |ops|
  {
    && p < |run[i].sent| && p < |run[i].got| && p < |run[n].sent| && p < |run[n].got|
    && run[n].sent[p] == run[i].sent[p] + AllPut(run, ops, i, n, p)
    && run[n].got[p] == run[i].got[p] + AllTaken(run, ops, i, n, p)
  }

  lemma {:induction false} RecordsAre(run: seq<Trace>, ops: seq<Op>, i: nat, n: nat, p: nat)
    requires IsRun(run, ops) && Good(run[0]) && i <= n < |run| && InUseFrom(run, i, n, p)
    ensures Recorded(run, ops, i, n, p)
    decreases n
  {
    if n == i {
      RunsStayGood(run, ops, i);
    } else {
      var k := n - 1;
      RecordsAre(run, ops, i, k, p);
      RecordsAt(run, ops, k, n, p);
      OneMoreOp(run, ops, i, k, n, p);
      JoinsSame(run[i].sent[p], AllPut(run, ops, i, k, p), PutInto(run[k].s, ops[k], p));
      JoinsSame(run[i].got[p], AllTaken(run, ops, i, k, p), TakenFrom(run[k].s, ops[k], p));
    }
  }

  /** A pipe that comes into use. */
  predicate Fresh(tr: Trace, tr': Trace, p: nat) {
    p < |tr.s.pipes| && p < |tr'.s.pipes| && !tr.s.pipes[p].used && tr'.s.pipes[p].used
  }

  /** It does so by a pipe call, and empty. */
  lemma FreshIsEmpty(tr: Trace, op: Op, tr': Trace, p: nat)
    requires Good(tr) && Step(tr, tr', op) && Fresh(tr, tr', p)
    ensures op.OpenPipeOp? && p < |tr'.sent| && p < |tr'.got| && tr'.sent[p] == tr'.got[p] == []
  {
    if !op.OpenPipeOp? { OnlyOpensMakeFresh(tr, op, tr', p); }
  }

  lemma OnlyOpensMakeFresh(tr: Trace, op: Op, tr': Trace, p: nat)
    requires Good(tr) && Step(tr, tr', op) && !op.OpenPipeOp?
    ensures !Fresh(tr, tr', p)
  {
    var s := tr.s;
    match op
    case ForkRetain(child) => ForkKeeps(s, child);
    case CloseFd(t, fd) => CloseStreams(s, t, fd);
    case Dup(t, a, b) => Dup2Streams(s, t, a, b);
    case Exec(t) => ExecStreams(s, t, 0);
    case _ =>
  }

  /** A pipe delivers: from the call that made it on, as long as it stays in use, what all reads of its read end took
      out, followed by what is still buffered, is what all writes to its write end put in, in order, whoever made
      them and through whichever descriptors. */
  lemma PipeDelivers(run: seq<Trace>, ops: seq<Op>, i: nat, k: nat, n: nat, p: nat)
    requires IsRun(run, ops) && Good(run[0]) && k == i + 1 <= n < |run|
    requires Fresh(run[i], run[k], p) && InUseFrom(run, k, n, p)
    ensures p < |run[n].s.pipes| && PipeOk(run[n].s.pipes[p])
    ensures AllTaken(run, ops, k, n, p) + Content(run[n].s.pipes[p]) == AllPut(run, ops, k, n, p)
  {
    FreshAt(run, ops, i, k, p);
    RecordsAre(run, ops, k, n, p);
    assert Good(run[n]) by { RunsStayGood(run, ops, n); }
    Delivered(run[n], run[k].sent[p], run[k].got[p], AllPut(run, ops, k, n, p), AllTaken(run, ops, k, n, p), p);
  }

  lemma FreshAt(run: seq<Trace>, ops: seq<Op>, i: nat, k: nat, p: nat)
    requires IsRun(run, ops) && Good(run[0]) && k == i + 1 < |run| && Fresh(run[i], run[k], p)
    ensures p < |run[k].sent| && p < |run[k].got| && run[k].sent[p] == run[k].got[p] == []
  {
    RunsStayGood(run, ops, i);
    assert StepAt(run, ops, i);
    FreshIsEmpty(run[i], ops[i], run[k], p);
  }

  lemma Delivered(tr: Trace, sent: seq<nat>, got: seq<nat>, put: seq<nat>, taken: seq<nat>, p: nat)
    requires Good(tr) && p < |tr.s.pipes| && tr.s.pipes[p].used && sent == got == []
    requires tr.sent[p] == sent + put && tr.got[p] == got + taken
    ensures PipeOk(tr.s.pipes[p]) && taken + Content(tr.s.pipes[p]) == put
  {
    assert sent + put == put && got + taken == taken;
  }

  // ---- Where the ends are ----

  /** A slot that is not written keeps its end, and the pipe stays in use. */
  lemma EndStaysPut(run: seq<Trace>, ops: seq<Op>, i: nat, n: nat, t: nat, fd: nat, id: int, kind: Kind, p: nat)
    requires IsRun(run, ops) && Good(run[0]) && i <= n < |run| && (kind == PipeRead || kind == PipeWrite)
    requires forall k: nat | i <= k <= n :: SlotIs(run[k].s, t, fd, id)
    requires Shaped(run[i].s) && t < |run[i].s.tabs| && HoldsEnd(run[i].s, t, fd, kind, p)
    ensures Shaped(run[n].s) && t < |run[n].s.tabs| && HoldsEnd(run[n].s, t, fd, kind, p)
  {
    assert SlotIs(run[i].s, t, fd, id) && SlotIs(run[n].s, t, fd, id);
    HeldStays(run, ops, i, n, t, fd, id);
    RunsStayGood(run, ops, n);
    assert NamesPipe(run[n].s.objs[id]);
  }

  /** A descriptor made by dup2 holds the same end. */
  lemma DupSharesEnd(tr: Trace, tr': Trace, t: nat, a: int, b: int, kind: Kind, p: nat)
    requires Good(tr) && Step(tr, tr', Dup(t, a, b)) && Attached(tr.s, t) && 0 <= b < MAX_FDS
    requires HoldsEnd(tr.s, t, a, kind, p) && (kind == PipeRead || kind == PipeWrite)
    ensures t < |tr'.s.tabs| && Shaped(tr'.s) && HoldsEnd(tr'.s, t, a, kind, p) && HoldsEnd(tr'.s, t, b, kind, p)
  {
    var id := tr.s.tabs[t].slots[a];
    Dup2Keeps(tr.s, t, a, b);
    if a != b { Dup2Ends(tr.s, t, a, b, id); }
    assert NamesPipe(tr'.s.objs[id]);
  }

  /** A child whose fork was not disturbed holds the ends its parent held at the copy. */
  lemma ForkSharesEnd(run: seq<Trace>, ops: seq<Op>, i: nat, j: nat, p: nat, c: nat, fd: nat, kind: Kind, q: nat)
    requires IsRun(run, ops) && Good(run[0]) && Undisturbed(ops, i, j, p, c)
    requires c == |run[i].s.tabs| && Attached(run[i].s, p) && Shaped(run[i].s)
    requires HoldsEnd(run[i].s, p, fd, kind, q) && (kind == PipeRead || kind == PipeWrite)
    ensures Shaped(run[j + 1].s) && Attached(run[j + 1].s, c) && HoldsEnd(run[j + 1].s, c, fd, kind, q)
  {
    var id, n := run[i].s.tabs[p].slots[fd], j + 1;
    assert id in run[i].s.tabs[p].slots && id != NO_FD;
    assert SameHeld(run[i].s, run[n].s, id) && SlotIs(run[n].s, c, fd, id) by { ForkDuplicates(run, ops, i, j, p, c); }
    RunsStayGood(run, ops, n);
    assert NamesPipe(run[n].s.objs[id]);
  }
}
