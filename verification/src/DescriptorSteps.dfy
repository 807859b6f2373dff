/** Pipe creation with its rollbacks. */
module DescriptorSteps {
  import opened Common
  import opened Descriptors
  import opened DescriptorOps

  function FirstFreeSlot(slots: seq<int>): (r: nat)
    ensures r <= |slots| && (forall i | 0 <= i < r :: slots[i] != NO_FD) && (r < |slots| ==> slots[r] == NO_FD)
  {
    FirstFrom(slots, (v: int) => v == NO_FD, 0)
  }

  function FirstFreePipe(pipes: seq<Pipe>): (r: nat)
    ensures r <= |pipes| && (forall i | 0 <= i < r :: pipes[i].used) && (r < |pipes| ==> !pipes[r].used)
  {
    FirstFrom(pipes, (q: Pipe) => !q.used, 0)
  }

  /** The state, the result and the two descriptors of nm_fd_pipe. */
  datatype PipeOutcome = PipeOutcome(s: State, ret: int, rd: int, wr: int)

  /** A slot set aside while nm_fd_pipe looks for the second one. */
  const RESERVED: int := -2

  /** nm_fd_pipe, with every rollback the source performs. */
  function MakePipe(s: State, t: nat): PipeOutcome
    requires Shaped(s) && t < |s.tabs|
  {
    var p := FirstFreePipe(s.pipes);
    if p == |s.pipes| then PipeOutcome(s, ENOMEM, -1, -1)
    else
      var tab := s.tabs[t];
      var rd := FirstFreeSlot(tab.slots);
      if rd == MAX_FDS then PipeOutcome(s, ENOMEM, -1, -1)
      else
        var slots1 := tab.slots[rd := RESERVED];
        var wr := FirstFreeSlot(slots1);
        if wr == MAX_FDS then
          PipeOutcome(s.(tabs := s.tabs[t := tab.(slots := slots1[rd := NO_FD])]), ENOMEM, -1, -1)
        else
          MakeEnds(s, t, p, rd, wr, slots1)
  }

  /** The second half of nm_fd_pipe, from marking the pipe used. */
  function MakeEnds(s: State, t: nat, p: nat, rd: nat, wr: nat, slots1: seq<int>): PipeOutcome
    requires Shaped(s) && t < |s.tabs| && p < |s.pipes| && rd < MAX_FDS && wr < MAX_FDS && |slots1| == MAX_FDS
  {
    var tab := s.tabs[t];
    var pipes1 := s.pipes[p := OpenPipe(s.pipes[p])];
    var shut := (q: Pipe) => q.(used := false, readers := 0, writers := 0);
    var ro := FirstFreeObj(s.objs);
    if ro == |s.objs| then
      PipeOutcome(s.(tabs := s.tabs[t := tab.(slots := slots1[rd := NO_FD])],
                     pipes := pipes1[p := shut(pipes1[p])]), ENOMEM, -1, -1)
    else
      var objs1 := s.objs[ro := EndOf(PipeRead, p)];
      var wo := FirstFreeObj(objs1);
      if wo == |objs1| then
        var pipes2 := ReleaseEnd(pipes1, PipeRead, p);
        PipeOutcome(s.(tabs := s.tabs[t := tab.(slots := slots1[rd := NO_FD])],
                       objs := objs1[ro := Released(objs1[ro])],
                       pipes := pipes2[p := shut(pipes2[p])]), ENOMEM, -1, -1)
      else
        PipeOutcome(s.(tabs := s.tabs[t := tab.(slots := slots1[rd := ro][wr := wo])],
                       objs := objs1[wo := EndOf(PipeWrite, p)],
                       pipes := pipes1), 0, rd, wr)
  }

  /** Slot rd got object ro and slot wr object wo, the two ends of a pipe nobody was using. */
  ghost predicate OpensPipe(s: State, r: PipeOutcome, t: nat, ro: nat, wo: nat, p: nat)
    requires Shaped(s) && t < |s.tabs| && 0 <= r.rd < MAX_FDS && 0 <= r.wr < MAX_FDS
  {
    && ro < |s.objs| && wo < |s.objs| && ro != wo && p < |s.pipes|
    && !s.objs[ro].used && !s.objs[wo].used && !s.pipes[p].used
    && r.s.tabs == s.tabs[t := s.tabs[t].(slots := s.tabs[t].slots[r.rd := ro][r.wr := wo])]
    && r.s.objs == s.objs[ro := Obj(true, 1, PipeRead, -1, p)][wo := Obj(true, 1, PipeWrite, -1, p)]
    && r.s.pipes == s.pipes[p := Pipe(true, 0, 0, 1, 1, s.pipes[p].buf)]
  }

  predicate HasFreePipe(s: State) {
    exists p :: 0 <= p < |s.pipes| && !s.pipes[p].used
  }

  predicate HasTwoFreeSlots(tab: Table) {
    exists i, j :: 0 <= i < j < |tab.slots| && tab.slots[i] == tab.slots[j] == NO_FD
  }

  predicate HasTwoFreeObjs(s: State) {
    exists i, j :: 0 <= i < j < |s.objs| && !s.objs[i].used && !s.objs[j].used
  }

  /** nm_fd_pipe succeeds exactly when there is a free pipe, two free slots and two free objects. */
  lemma PipeSucceedsIff(s: State, t: nat)
    requires Shaped(s) && t < |s.tabs|
    ensures
      var r := MakePipe(s, t);
      if HasFreePipe(s) && HasTwoFreeSlots(s.tabs[t]) && HasTwoFreeObjs(s) then r.ret == 0
      else r.ret == ENOMEM && r.rd == r.wr == -1
  {
    var tab := s.tabs[t];
    var p, rd, ro := FirstFreePipe(s.pipes), FirstFreeSlot(tab.slots), FirstFreeObj(s.objs);
    if p < |s.pipes| && rd < MAX_FDS {
      var slots1 := tab.slots[rd := RESERVED];
      var wr := FirstFreeSlot(slots1);
      assert forall i | 0 <= i < MAX_FDS && i != rd :: tab.slots[i] == slots1[i];
      assert wr < MAX_FDS ==> rd < wr && tab.slots[wr] == NO_FD;
      if wr < MAX_FDS && ro < |s.objs| {
        var objs1 := s.objs[ro := EndOf(PipeRead, p)];
        var wo := FirstFreeObj(objs1);
        assert wo < |objs1| ==> ro < wo && !s.objs[wo].used;
        assert forall i | 0 <= i < |s.objs| && i != ro :: s.objs[i] == objs1[i];
      }
    }
  }

  /** A failing nm_fd_pipe leaves everything as it was, at each of its five failure points. */
  lemma FailedPipeChangesNothing(s: State, t: nat)
    requires Inv(s) && t < |s.tabs| && MakePipe(s, t).ret != 0
    ensures MakePipe(s, t).s == s
  {
    var tab := s.tabs[t];
    var p, rd := FirstFreePipe(s.pipes), FirstFreeSlot(tab.slots);
    if p < |s.pipes| && rd < MAX_FDS {
      assert tab.slots[rd := RESERVED][rd := NO_FD] == tab.slots;
      assert s.tabs[t := tab.(slots := tab.slots)] == s.tabs;
      var slots1 := tab.slots[rd := RESERVED];
      var wr := FirstFreeSlot(slots1);
      if wr < MAX_FDS {
        FailedEndsChangeNothing(s, t, p, rd, wr, slots1);
      }
    }
  }

  lemma FailedEndsChangeNothing(s: State, t: nat, p: nat, rd: nat, wr: nat, slots1: seq<int>)
    requires Inv(s) && t < |s.tabs| && p < |s.pipes| && !s.pipes[p].used
    requires rd < MAX_FDS && wr < MAX_FDS && |slots1| == MAX_FDS && slots1[rd := NO_FD] == s.tabs[t].slots
    requires MakeEnds(s, t, p, rd, wr, slots1).ret != 0
    ensures MakeEnds(s, t, p, rd, wr, slots1).s == s
  {
    var r := MakeEnds(s, t, p, rd, wr, slots1);
    assert r.s.tabs == s.tabs;
    assert r.s.pipes[p] == s.pipes[p];
    assert r.s.pipes == s.pipes;
    var ro := FirstFreeObj(s.objs);
    if ro < |s.objs| {
      assert r.s.objs[ro] == FREE_OBJ == s.objs[ro];
    }
    assert r.s.objs == s.objs;
  }

  /** A successful nm_fd_pipe opens two slots on the two ends of a pipe of its own, and the counts
      stay exact. */
  lemma PipeKeeps(s: State, t: nat)
    requires Inv(s) && Attached(s, t)
    ensures
      var r := MakePipe(s, t);
      && Inv(r.s)
      && (r.ret != 0 ==> r.s == s)
      && (r.ret == 0 ==>
            && 0 <= r.rd < r.wr < MAX_FDS
            && s.tabs[t].slots[r.rd] == s.tabs[t].slots[r.wr] == NO_FD
            && r.s.counted == s.counted
            && exists ro: nat, wo: nat, p: nat :: OpensPipe(s, r, t, ro, wo, p))
  {
    if MakePipe(s, t).ret != 0 {
      FailedPipeChangesNothing(s, t);
    } else {
      var tab := s.tabs[t];
      var p, rd := FirstFreePipe(s.pipes), FirstFreeSlot(tab.slots);
      var wr := FirstFreeSlot(tab.slots[rd := RESERVED]);
      var ro := FirstFreeObj(s.objs);
      var wo := FirstFreeObj(s.objs[ro := EndOf(PipeRead, p)]);
      assert tab.slots[rd := RESERVED][rd := ro] == tab.slots[rd := ro];
      OpenedPipeIsExact(s, t, p, rd, wr, ro, wo);
      assert MakePipe(s, t).s.tabs == s.tabs[t := tab.(slots := tab.slots[rd := ro][wr := wo])];
      assert OpensPipe(s, MakePipe(s, t), t, ro, wo, p);
    }
  }

  lemma OpenedPipeIsExact(s: State, t: nat, p: nat, rd: nat, wr: nat, ro: nat, wo: nat)
    requires Inv(s) && Attached(s, t) && p < |s.pipes| && !s.pipes[p].used
    requires ro < |s.objs| && wo < |s.objs| && ro != wo && !s.objs[ro].used && !s.objs[wo].used
    requires rd < MAX_FDS && wr < MAX_FDS && rd != wr && s.tabs[t].slots[rd] == s.tabs[t].slots[wr] == NO_FD
    ensures Inv(s.(tabs := s.tabs[t := s.tabs[t].(slots := s.tabs[t].slots[rd := ro][wr := wo])],
                   objs := s.objs[ro := EndOf(PipeRead, p)][wo := EndOf(PipeWrite, p)],
                   pipes := s.pipes[p := OpenPipe(s.pipes[p])]))
  {
    CreateKeepsPipes(s.objs, s.pipes, p, ro, wo);
    CreateKeepsRefs(s.tabs, s.counted, s.objs, t, rd, ro, EndOf(PipeRead, p));
    var tabs1, objs1 := WriteSlot(s.tabs, t, rd, ro), s.objs[ro := EndOf(PipeRead, p)];
    CreateKeepsRefs(tabs1, s.counted, objs1, t, wr, wo, EndOf(PipeWrite, p));
    assert WriteSlot(tabs1, t, wr, wo) == s.tabs[t := s.tabs[t].(slots := s.tabs[t].slots[rd := ro][wr := wo])];
  }
}
