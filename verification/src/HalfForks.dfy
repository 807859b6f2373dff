/** A forked child is runnable before nm_fd_on_fork_child attaches its table: when what it does with its
    descriptors before that keeps the counts exact. */
module HalfForks {
  import opened Common
  import opened Descriptors
  import opened DescriptorOps
  import opened DescriptorSteps
  import opened DescriptorForks

  /** A copied table of which nothing is counted yet. */
  predicate HalfForked(s: State, c: int) {
    0 <= c < |s.tabs| && c < |s.counted| && s.counted[c] == 0
  }

  predicate SlotInUse(s: State, c: nat, fd: int)
    requires Shaped(s) && c < |s.tabs|
  {
    0 <= fd < MAX_FDS && InUse(s.objs, s.tabs[c].slots[fd])
  }

  /** Nothing about the tables changes but one table. */
  ghost predicate OnlyTable(s: State, s': State, c: nat) {
    && |s'.tabs| == |s.tabs| && s'.counted == s.counted
    && forall t | 0 <= t < |s.tabs| && t != c :: s'.tabs[t] == s.tabs[t]
  }

  lemma CloseIsLocal(s: State, t: nat, fd: int)
    requires Shaped(s) && t < |s.tabs|
    ensures OnlyTable(s, Close(s, t, fd).s, t)
  {
  }

  lemma Dup2IsLocal(s: State, t: nat, a: int, b: int)
    requires Shaped(s) && t < |s.tabs|
    ensures OnlyTable(s, Dup2(s, t, a, b).s, t)
  {
  }

  lemma PipeIsLocal(s: State, t: nat)
    requires Shaped(s) && t < |s.tabs|
    ensures OnlyTable(s, MakePipe(s, t).s, t)
  {
  }

  /** What an uncounted table holds does not matter. */
  lemma UncountedHolders(s: State, s': State, c: nat, id: int)
    requires Shaped(s) && Shaped(s') && HalfForked(s, c) && OnlyTable(s, s', c)
    ensures Holders(s'.tabs, s'.counted, id) == Holders(s.tabs, s.counted, id)
    ensures forall u, g :: Holds(s'.tabs, s'.counted, u, g, id) <==> Holds(s.tabs, s.counted, u, g, id)
  {
    forall u, g ensures Holds(s'.tabs, s'.counted, u, g, id) <==> Holds(s.tabs, s.counted, u, g, id) {
    }
  }

  /** So when the counts are exact before and after, no object changed its count. */
  lemma ExactFixesCounts(s: State, s': State, c: nat, id: int)
    requires Inv(s) && Inv(s') && HalfForked(s, c) && OnlyTable(s, s', c) && id != NO_FD
    ensures InUse(s'.objs, id) <==> InUse(s.objs, id)
    ensures InUse(s.objs, id) ==> s'.objs[id].refcnt == s.objs[id].refcnt
  {
    UncountedHolders(s, s', c, id);
    if InUse(s.objs, id) || InUse(s'.objs, id) {
      assert |Holders(s.tabs, s.counted, id)| > 0;
      var h :| h in Holders(s.tabs, s.counted, id);
      assert Holds(s.tabs, s.counted, h.0, h.1, id) && Holds(s'.tabs, s'.counted, h.0, h.1, id);
    }
  }

  /** And when no object and no pipe changes, the counts stay exact. */
  lemma SameObjectsExact(s: State, s': State, c: nat)
    requires Inv(s) && Shaped(s') && HalfForked(s, c) && OnlyTable(s, s', c)
    requires s'.objs == s.objs && s'.pipes == s.pipes
    ensures Inv(s')
  {
    forall u, g, id | id != NO_FD ensures Holds(s'.tabs, s'.counted, u, g, id) <==> Holds(s.tabs, s.counted, u, g, id) {
      UncountedHolders(s, s', c, id);
    }
    SameHolders(s, s');
  }

  // ---- Close, and what adopts a stale number ----

  /** Closing an adopted slot undoes the adoption, but for the slot. */
  lemma StaleClose(s: State, c: nat, fd: int)
    requires Inv(s) && c < |s.tabs| && Stale(s, c, fd)
    ensures
      var r := Close(s, c, fd);
      r.ret == 0 && r.s.objs == s.objs && r.s.pipes == s.pipes && OnlySlot(s, r.s, c, fd, NO_FD)
  {
    var id := FirstFreeObj(s.objs);
    assert s.objs[id] == FREE_OBJ;
    assert s.tabs[c].slots[fd := id][fd := NO_FD] == s.tabs[c].slots[fd := NO_FD];
  }

  /** A close by a half-forked child keeps the counts exact exactly when its slot holds no object in use: the
      reference it would give back is another's. */
  lemma CloseKeepsIff(s: State, c: nat, fd: int)
    requires Inv(s) && HalfForked(s, c)
    ensures Inv(Close(s, c, fd).s) <==> !SlotInUse(s, c, fd)
  {
    var s' := Close(s, c, fd).s;
    if SlotInUse(s, c, fd) {
      if Inv(s') { ExactFixesCounts(s, s', c, s.tabs[c].slots[fd]); }
    } else {
      if Stale(s, c, fd) { StaleClose(s, c, fd); }
      SameObjectsExact(s, s', c);
    }
  }

  /** A read or a write does exactly when its slot is not stale. */
  lemma AdoptKeepsIff(s: State, c: nat, fd: int)
    requires Inv(s) && HalfForked(s, c)
    ensures Inv(Adopted(s, c, fd)) <==> !Stale(s, c, fd)
  {
    var s' := Adopted(s, c, fd);
    if Stale(s, c, fd) && Inv(s') { ExactFixesCounts(s, s', c, FirstFreeObj(s.objs)); }
  }

  // ---- pipe ----

  predicate PipeRoom(s: State, c: nat)
    requires c < |s.tabs|
  {
    HasFreePipe(s) && HasTwoFreeSlots(s.tabs[c]) && HasTwoFreeObjs(s)
  }

  /** A pipe made by a half-forked child keeps the counts exact exactly when there is no room for one. */
  lemma PipeKeepsIff(s: State, c: nat)
    requires Inv(s) && HalfForked(s, c)
    ensures Inv(MakePipe(s, c).s) <==> !PipeRoom(s, c)
  {
    PipeSucceedsIff(s, c);
    var r := MakePipe(s, c);
    if r.ret != 0 {
      FailedPipeChangesNothing(s, c);
    } else if Inv(r.s) {
      ExactFixesCounts(s, r.s, c, FirstFreeObj(s.objs));
    }
  }

  // ---- dup2 ----

  /** What nm_fd_dup2 does to a table of a half-forked child without moving a count: nothing at all, or the
      slots name one object, which survives the close of one of them. */
  predicate DupHarmless(s: State, c: nat, a: int, b: int)
    requires Shaped(s) && c < |s.tabs|
  {
    if !(0 <= a < MAX_FDS && 0 <= b < MAX_FDS) || a == b || s.tabs[c].slots[a] == NO_FD then true
    else if s.tabs[c].slots[b] == NO_FD then !SlotInUse(s, c, a)
    else
      || !SlotInUse(s, c, b)
      || (s.tabs[c].slots[a] == s.tabs[c].slots[b] && s.objs[s.tabs[c].slots[b]].refcnt > 1)
  }

  /** If both slots name an object with one reference, nm_fd_dup2 frees the object it is about to retain. */
  lemma DupFreesItsSource(s: State, c: nat, a: int, b: int)
    requires Inv(s) && c < |s.tabs| && 0 <= a < MAX_FDS && a != b && SlotInUse(s, c, b)
    requires s.tabs[c].slots[a] == s.tabs[c].slots[b] && s.objs[s.tabs[c].slots[a]].refcnt == 1
    ensures Dup2(s, c, a, b).ret == EFAIL && !InUse(Dup2(s, c, a, b).s.objs, s.tabs[c].slots[a])
  {
  }

  /** If the slot to be overwritten names nothing in use, dup2 fails without a trace. */
  lemma DupRefusesStale(s: State, c: nat, a: int, b: int)
    requires Inv(s) && c < |s.tabs| && 0 <= a < MAX_FDS && 0 <= b < MAX_FDS && a != b && s.tabs[c].slots[a] != NO_FD
    requires s.tabs[c].slots[b] != NO_FD && !SlotInUse(s, c, b)
    ensures Dup2(s, c, a, b) == Outcome(s, EFAIL)
  {
    assert TaskClose(s, c, b) == Outcome(s, ENOENT);
  }

  /** Releasing one of several references and taking it again moves nothing. */
  lemma ReleaseThenRetain(s: State, id: nat)
    requires Inv(s) && InUse(s.objs, id) && s.objs[id].refcnt > 1
    ensures
      var o := s.objs[id];
      && Retained(Released(o)) == o
      && AcquireEnd(ReleaseEnd(s.pipes, o.kind, o.pipe), o.kind, o.pipe) == s.pipes
  {
    var o := s.objs[id];
    if 0 <= o.pipe < |s.pipes| && s.pipes[o.pipe].used {
      assert PipeMatches(s.objs, s.pipes, o.pipe);
      RefsCover(s.objs, id, o.kind, o.pipe);
      assert s.pipes[o.pipe := s.pipes[o.pipe]] == s.pipes;
    }
  }

  lemma DupOnSame(s: State, c: nat, a: int, b: int)
    requires Inv(s) && HalfForked(s, c) && 0 <= a < MAX_FDS && a != b && SlotInUse(s, c, b)
    requires s.tabs[c].slots[a] == s.tabs[c].slots[b] && s.objs[s.tabs[c].slots[a]].refcnt > 1
    ensures Inv(Dup2(s, c, a, b).s)
  {
    var id := s.tabs[c].slots[a];
    ReleaseThenRetain(s, id);
    var s' := Dup2(s, c, a, b).s;
    assert s'.objs == s.objs[id := s.objs[id]] == s.objs;
    SameObjectsExact(s, s', c);
  }

  /** The object of the source slot, or else of the target slot, changes its count. */
  lemma DupMovesCount(s: State, c: nat, a: int, b: int)
    requires Inv(s) && HalfForked(s, c) && !DupHarmless(s, c, a, b)
    ensures !Inv(Dup2(s, c, a, b).s)
  {
    var s' := Dup2(s, c, a, b).s;
    var x, y := s.tabs[c].slots[a], s.tabs[c].slots[b];
    if Inv(s') { ExactFixesCounts(s, s', c, if y == NO_FD then x else y); }
  }

  /** A dup2 by a half-forked child keeps the counts exact exactly when it is harmless in that sense. */
  lemma DupKeepsIff(s: State, c: nat, a: int, b: int)
    requires Inv(s) && HalfForked(s, c)
    ensures Inv(Dup2(s, c, a, b).s) <==> DupHarmless(s, c, a, b)
  {
    if !DupHarmless(s, c, a, b) {
      DupMovesCount(s, c, a, b);
    } else if 0 <= a < MAX_FDS && a != b && SlotInUse(s, c, b) && s.tabs[c].slots[a] == s.tabs[c].slots[b] {
      DupOnSame(s, c, a, b);
    } else {
      assert Dup2(s, c, a, b).s == s;
    }
  }

  // ---- exec ----

  /** No marked slot from k on holds an object in use. */
  predicate ExecHarmless(s: State, c: nat, k: nat)
    requires Shaped(s) && c < |s.tabs|
  {
    forall fd | k <= fd < MAX_FDS && fd in s.tabs[c].cloexec :: !SlotInUse(s, c, fd)
  }

  /** No object came into use, none gained a reference and none became another file or end. */
  ghost predicate Fewer(objs: seq<Obj>, objs': seq<Obj>) {
    |objs'| == |objs| && forall id :: FewerAt(objs, objs', id)
  }

  predicate FewerAt(objs: seq<Obj>, objs': seq<Obj>, id: int) {
    InUse(objs', id) ==> InUse(objs, id) && objs'[id].refcnt <= objs[id].refcnt && SameEnd(objs[id], objs'[id])
  }

  lemma TaskCloseFewer(s: State, c: nat, fd: int)
    requires Shaped(s) && c < |s.tabs|
    ensures Fewer(s.objs, TaskClose(s, c, fd).s.objs)
  {
  }

  lemma ExecOneFewer(s: State, c: nat, fd: nat)
    requires Shaped(s) && c < |s.tabs| && fd < MAX_FDS
    ensures Fewer(s.objs, ExecOne(s, c, fd).objs) && OnlyTable(s, ExecOne(s, c, fd), c)
  {
    if fd in s.tabs[c].cloexec && s.tabs[c].slots[fd] != NO_FD && !Stale(s, c, fd) { TaskCloseFewer(s, c, fd); }
  }

  lemma FewerTwice(a: seq<Obj>, b: seq<Obj>, c: seq<Obj>)
    requires Fewer(a, b) && Fewer(b, c)
    ensures Fewer(a, c)
  {
    forall id ensures FewerAt(a, c, id) {
      assert FewerAt(a, b, id) && FewerAt(b, c, id);
    }
  }

  lemma {:induction false} ExecFewer(s: State, c: nat, k: nat)
    requires Shaped(s) && c < |s.tabs| && k <= MAX_FDS
    ensures Fewer(s.objs, CloseMarked(s, c, k).objs) && OnlyTable(s, CloseMarked(s, c, k), c)
    decreases MAX_FDS - k
  {
    if k < MAX_FDS {
      var m := ExecOne(s, c, k);
      ExecOneFewer(s, c, k);
      ExecFewer(m, c, k + 1);
      FewerTwice(s.objs, m.objs, CloseMarked(s, c, k).objs);
    }
  }

  /** A round on a marked slot in use takes a reference. */
  lemma ExecOneTakes(s: State, c: nat, fd: nat)
    requires Inv(s) && c < |s.tabs| && fd < MAX_FDS && fd in s.tabs[c].cloexec && SlotInUse(s, c, fd)
    ensures
      var objs', id := ExecOne(s, c, fd).objs, s.tabs[c].slots[fd];
      id < |objs'| && (InUse(objs', id) ==> objs'[id].refcnt < s.objs[id].refcnt)
  {
  }

  /** A round on any other slot moves no count. */
  lemma ExecOneHarmless(s: State, c: nat, fd: nat)
    requires Inv(s) && HalfForked(s, c) && fd < MAX_FDS && !(fd in s.tabs[c].cloexec && SlotInUse(s, c, fd))
    ensures
      var r := ExecOne(s, c, fd);
      && Inv(r) && OnlyTable(s, r, c) && r.objs == s.objs && r.pipes == s.pipes
      && (ExecHarmless(r, c, fd + 1) <==> ExecHarmless(s, c, fd))
  {
    var r := ExecOne(s, c, fd);
    if fd in s.tabs[c].cloexec && Stale(s, c, fd) { StaleClose(s, c, fd); }
    SameObjectsExact(s, r, c);
    forall g | fd < g < MAX_FDS
      ensures (g in r.tabs[c].cloexec && SlotInUse(r, c, g)) <==> (g in s.tabs[c].cloexec && SlotInUse(s, c, g))
    {
    }
  }

  /** An exec by a half-forked child keeps the counts exact exactly when no marked slot holds an object in use. */
  lemma {:induction false} ExecKeepsIff(s: State, c: nat, k: nat)
    requires Inv(s) && HalfForked(s, c) && k <= MAX_FDS
    ensures Inv(CloseMarked(s, c, k)) <==> ExecHarmless(s, c, k)
    ensures ExecHarmless(s, c, k) ==> CloseMarked(s, c, k).objs == s.objs && CloseMarked(s, c, k).pipes == s.pipes
    decreases MAX_FDS - k
  {
    if k < MAX_FDS {
      if k in s.tabs[c].cloexec && SlotInUse(s, c, k) {
        MarkedInUseBreaks(s, c, k);
      } else {
        ExecOneHarmless(s, c, k);
        ExecKeepsIff(ExecOne(s, c, k), c, k + 1);
      }
    }
  }

  lemma MarkedInUseBreaks(s: State, c: nat, k: nat)
    requires Inv(s) && HalfForked(s, c) && k < MAX_FDS && k in s.tabs[c].cloexec && SlotInUse(s, c, k)
    ensures !Inv(CloseMarked(s, c, k))
  {
    var r, id := CloseMarked(s, c, k), s.tabs[c].slots[k];
    ExecOneTakes(s, c, k);
    ExecFewer(s, c, k);
    ExecFewer(ExecOne(s, c, k), c, k + 1);
    assert FewerAt(ExecOne(s, c, k).objs, r.objs, id);
    if Inv(r) { ExactFixesCounts(s, r, c, id); }
  }
}
