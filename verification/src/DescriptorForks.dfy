/** Fork, new tasks, close-on-exec marks and exec. */
module DescriptorForks {
  import opened Descriptors
  import opened DescriptorOps

  /** Pipes that stay in use keep their bytes and positions, and none comes into use. */
  ghost predicate SameStreams(pipes: seq<Pipe>, pipes': seq<Pipe>) {
    && |pipes'| == |pipes|
    && forall p | 0 <= p < |pipes| ::
         && pipes'[p].buf == pipes[p].buf
         && (pipes'[p].used ==>
             pipes[p].used && pipes'[p].readPos == pipes[p].readPos && pipes'[p].writePos == pipes[p].writePos)
  }

  function EmptySlots(): seq<int> {
    seq(MAX_FDS, _ => NO_FD)
  }

  /** A new kernel thread starts with every slot empty. */
  function Spawn(s: State): State {
    State(s.tabs + [Table(EmptySlots(), {})], s.counted + [MAX_FDS], s.objs, s.pipes)
  }

  /** proc_fork_current copies the parent's table; nothing is retained yet. */
  function CopyTable(s: State, parent: nat): State
    requires parent < |s.tabs|
  {
    s.(tabs := s.tabs + [s.tabs[parent]], counted := s.counted + [0])
  }

  lemma SpawnKeeps(s: State)
    requires Inv(s)
    ensures Inv(Spawn(s))
  {
    var s' := Spawn(s);
    forall u, g, id | id != NO_FD ensures Holds(s'.tabs, s'.counted, u, g, id) <==> Holds(s.tabs, s.counted, u, g, id) {
    }
    SameHolders(s, s');
  }

  lemma CopyKeeps(s: State, parent: nat)
    requires Inv(s) && parent < |s.tabs|
    ensures Inv(CopyTable(s, parent))
  {
    var s' := CopyTable(s, parent);
    forall u, g, id | id != NO_FD ensures Holds(s'.tabs, s'.counted, u, g, id) <==> Holds(s.tabs, s.counted, u, g, id) {
    }
    SameHolders(s, s');
  }

  lemma SameHolders(s: State, s': State)
    requires Inv(s) && Shaped(s') && s'.objs == s.objs && s'.pipes == s.pipes
    requires forall u, g, id | id != NO_FD :: Holds(s'.tabs, s'.counted, u, g, id) <==>
        Holds(s.tabs, s.counted, u, g, id)
    ensures Inv(s')
  {
    forall id | InUse(s.objs, id) ensures Holders(s'.tabs, s'.counted, id) == Holders(s.tabs, s.counted, id) {
      forall x: (int, int) ensures x in Holders(s'.tabs, s'.counted, id) <==> x in Holders(s.tabs, s.counted, id) {
        assert Holds(s'.tabs, s'.counted, x.0, x.1, id) <==> Holds(s.tabs, s.counted, x.0, x.1, id);
      }
    }
  }

  /** One round of nm_fd_on_fork_child: retain the next slot's object, or empty a slot that names none. */
  function RetainNext(s: State, c: nat): State
    requires Shaped(s) && c < |s.tabs| && s.counted[c] < MAX_FDS
  {
    var k := s.counted[c];
    var id := s.tabs[c].slots[k];
    var counted' := s.counted[c := k + 1];
    if id == NO_FD then s.(counted := counted')
    else if InUse(s.objs, id) then
      s.(counted := counted', objs := s.objs[id := Retained(s.objs[id])],
         pipes := AcquireEnd(s.pipes, s.objs[id].kind, s.objs[id].pipe))
    else s.(counted := counted', tabs := WriteSlot(s.tabs, c, k, NO_FD))
  }

  /** nm_fd_on_fork_child: the rounds for the slots not yet counted. */
  function RetainAll(s: State, c: nat): (r: State)
    requires Shaped(s) && c < |s.tabs|
    ensures Shaped(r) && |r.tabs| == |s.tabs|
    decreases MAX_FDS - s.counted[c]
  {
    if s.counted[c] == MAX_FDS then s else RetainAll(RetainNext(s, c), c)
  }

  /** Counting one more slot adds one holder to the object it names. */
  lemma CountOneMore(tabs: seq<Table>, counted: seq<nat>, c: nat, id: int)
    requires c < |tabs| == |counted| && counted[c] < |tabs[c].slots|
    ensures |Holders(tabs, counted[c := counted[c] + 1], id)| ==
            |Holders(tabs, counted, id)| + if tabs[c].slots[counted[c]] == id then 1 else 0
  {
    var k: int := counted[c];
    var counted' := counted[c := counted[c] + 1];
    forall u, g ensures Holds(tabs, counted', u, g, id) <==>
        Holds(tabs, counted, u, g, id) || (u == c && g == k && tabs[c].slots[k] == id) {
    }
    assert Holders(tabs, counted', id) ==
             Holders(tabs, counted, id) + if tabs[c].slots[k] == id then {(c as int, k)} else {};
    assert (c as int, k) !in Holders(tabs, counted, id);
  }

  lemma RetainNextKeeps(s: State, c: nat)
    requires Inv(s) && c < |s.tabs| && s.counted[c] < MAX_FDS
    ensures Inv(RetainNext(s, c)) && SameStreams(s.pipes, RetainNext(s, c).pipes)
    ensures forall id :: InUse(RetainNext(s, c).objs, id) <==> InUse(s.objs, id)
  {
    var k := s.counted[c];
    var id := s.tabs[c].slots[k];
    var s' := RetainNext(s, c);
    if id != NO_FD && InUse(s.objs, id) {
      RetainKeepsPipes(s.objs, s.pipes, id);
    }
    RetainNextRefs(s, c);
  }

  lemma RetainNextRefs(s: State, c: nat)
    requires Inv(s) && c < |s.tabs| && s.counted[c] < MAX_FDS
    ensures RefsMatch(RetainNext(s, c).tabs, RetainNext(s, c).counted, RetainNext(s, c).objs)
  {
    var k := s.counted[c];
    var s' := RetainNext(s, c);
    forall j | InUse(s'.objs, j) ensures s'.objs[j].refcnt == |Holders(s'.tabs, s'.counted, j)| > 0 {
      assert InUse(s.objs, j);
      UncountedSlot(s.tabs, s.counted, c, s'.tabs[c].slots[k], j);
      assert s'.tabs == WriteSlot(s.tabs, c, k, s'.tabs[c].slots[k]) by {
        assert s.tabs[c].slots[k := s.tabs[c].slots[k]] == s.tabs[c].slots;
      }
      CountOneMore(s'.tabs, s.counted, c, j);
    }
    forall u, g, j | Holds(s'.tabs, s'.counted, u, g, j) ensures j == NO_FD || InUse(s'.objs, j) {
      if u != c || g != k { assert Holds(s.tabs, s.counted, u, g, j); }
    }
  }

  /** A slot that is not counted may hold anything. */
  lemma UncountedSlot(tabs: seq<Table>, counted: seq<nat>, c: nat, v: int, id: int)
    requires c < |tabs| == |counted| && counted[c] < |tabs[c].slots|
    ensures Holders(WriteSlot(tabs, c, counted[c], v), counted, id) == Holders(tabs, counted, id)
  {
    var tabs' := WriteSlot(tabs, c, counted[c], v);
    forall u, g ensures Holds(tabs', counted, u, g, id) <==> Holds(tabs, counted, u, g, id) {
    }
  }

  lemma RetainNextSlots(s: State, c: nat)
    requires Inv(s) && c < |s.tabs| && s.counted[c] < MAX_FDS
    ensures
      var k, s1 := s.counted[c], RetainNext(s, c);
      && |s1.tabs| == |s.tabs| && Shaped(s1) && s1.counted[c] == k + 1 && s1.tabs[c].cloexec == s.tabs[c].cloexec
      && (forall id | InUse(s.objs, id) :: InUse(s1.objs, id) && SameEnd(s.objs[id], s1.objs[id]))
      && (forall fd | 0 <= fd < MAX_FDS && fd != k :: s1.tabs[c].slots[fd] == s.tabs[c].slots[fd])
      && s1.tabs[c].slots[k] == (if InUse(s.objs, s.tabs[c].slots[k]) then s.tabs[c].slots[k] else NO_FD)
      && forall t | 0 <= t < |s.tabs| && t != c :: s1.tabs[t] == s.tabs[t] && s1.counted[t] == s.counted[t]
  {
  }

  /** After nm_fd_on_fork_child the child holds every object its copied slots name, whatever happened
      between the copy and this call; slots naming nothing in use are empty; no other table and no mark changes. */
  lemma {:induction false} ForkKeeps(s: State, c: nat)
    requires Inv(s) && c < |s.tabs|
    ensures Inv(RetainAll(s, c)) && Attached(RetainAll(s, c), c) && SameStreams(s.pipes, RetainAll(s, c).pipes)
    ensures forall id :: InUse(RetainAll(s, c).objs, id) <==> InUse(s.objs, id)
    ensures forall t | 0 <= t < |s.tabs| && t != c ::
              RetainAll(s, c).tabs[t] == s.tabs[t] && RetainAll(s, c).counted[t] == s.counted[t]
    ensures forall fd | s.counted[c] <= fd < MAX_FDS ::
              RetainAll(s, c).tabs[c].slots[fd] ==
                if InUse(s.objs, s.tabs[c].slots[fd]) then s.tabs[c].slots[fd] else NO_FD
    ensures forall fd | 0 <= fd < s.counted[c] :: RetainAll(s, c).tabs[c].slots[fd] == s.tabs[c].slots[fd]
    ensures RetainAll(s, c).tabs[c].cloexec == s.tabs[c].cloexec
    ensures forall id | InUse(s.objs, id) :: SameEnd(s.objs[id], RetainAll(s, c).objs[id])
    decreases MAX_FDS - s.counted[c]
  {
    if s.counted[c] < MAX_FDS {
      var s1 := RetainNext(s, c);
      RetainNextKeeps(s, c);
      RetainNextSlots(s, c);
      ForkKeeps(s1, c);
    }
  }

  /** nm_fd_set_cloexec. */
  function SetCloexec(s: State, t: nat, fd: int, on: bool): Outcome
    requires Shaped(s) && t < |s.tabs|
  {
    if fd < 0 || fd >= MAX_FDS || s.tabs[t].slots[fd] == NO_FD then Outcome(s, EINVAL)
    else
      var marks := if on then s.tabs[t].cloexec + {fd} else s.tabs[t].cloexec - {fd};
      Outcome(s.(tabs := s.tabs[t := s.tabs[t].(cloexec := marks)]), 0)
  }

  lemma SetCloexecKeeps(s: State, t: nat, fd: int, on: bool)
    requires Inv(s) && t < |s.tabs|
    ensures
      var r := SetCloexec(s, t, fd, on);
      var open := 0 <= fd < MAX_FDS && s.tabs[t].slots[fd] != NO_FD;
      && Inv(r.s) && r.ret == (if open then 0 else EINVAL) && (!open ==> r.s == s)
      && r.s.objs == s.objs && r.s.pipes == s.pipes && r.s.counted == s.counted && |r.s.tabs| == |s.tabs|
      && (forall u | 0 <= u < |s.tabs| :: r.s.tabs[u].slots == s.tabs[u].slots)
      && (forall u, g: nat | 0 <= u < |s.tabs| ::
            g in r.s.tabs[u].cloexec <==> if open && u == t && g == fd then on else g in s.tabs[u].cloexec)
  {
    if 0 <= fd < MAX_FDS {
      var marks := if on then s.tabs[t].cloexec + {fd} else s.tabs[t].cloexec - {fd};
      MarksKeepRefs(s.tabs, s.counted, s.objs, t, marks);
    }
  }

  /** One round of nm_fd_close_on_exec. */
  function ExecOne(s: State, t: nat, fd: nat): (r: State)
    requires Shaped(s) && t < |s.tabs| && fd < MAX_FDS
    ensures Shaped(r) && |r.tabs| == |s.tabs|
  {
    if fd !in s.tabs[t].cloexec then s
    else if s.tabs[t].slots[fd] == NO_FD then
      s.(tabs := s.tabs[t := s.tabs[t].(cloexec := s.tabs[t].cloexec - {fd})])
    else Close(s, t, fd).s
  }

  /** nm_fd_close_on_exec from descriptor k on. */
  function CloseMarked(s: State, t: nat, k: nat): (r: State)
    requires Shaped(s) && t < |s.tabs| && k <= MAX_FDS
    ensures Shaped(r) && |r.tabs| == |s.tabs|
    decreases MAX_FDS - k
  {
    if k == MAX_FDS then s else CloseMarked(ExecOne(s, t, k), t, k + 1)
  }

  /** Exactly the marked descriptors in [lo, hi) are closed and unmarked; nothing else of any table
      changes. */
  ghost predicate Execs(s: State, r: State, t: nat, lo: nat, hi: nat)
    requires Shaped(s) && Shaped(r) && t < |s.tabs|
  {
    && r.counted == s.counted && |r.tabs| == |s.tabs|
    && SameStreams(s.pipes, r.pipes)
    && (forall u | 0 <= u < |s.tabs| && u != t :: r.tabs[u] == s.tabs[u])
    && (forall fd | 0 <= fd < MAX_FDS ::
          r.tabs[t].slots[fd] == if lo <= fd < hi && fd in s.tabs[t].cloexec then NO_FD else s.tabs[t].slots[fd])
    && (forall fd: nat :: fd in r.tabs[t].cloexec <==> fd in s.tabs[t].cloexec && !(lo <= fd < hi))
  }

  lemma ExecOneKeeps(s: State, t: nat, fd: nat)
    requires Inv(s) && Attached(s, t) && fd < MAX_FDS
    ensures Inv(ExecOne(s, t, fd)) && Execs(s, ExecOne(s, t, fd), t, fd, fd + 1)
  {
    if fd in s.tabs[t].cloexec {
      if s.tabs[t].slots[fd] == NO_FD {
        MarksKeepRefs(s.tabs, s.counted, s.objs, t, s.tabs[t].cloexec - {fd});
      } else {
        CloseKeeps(s, t, fd);
        CloseStreams(s, t, fd);
      }
    }
  }

  lemma ExecsJoin(s: State, m: State, r: State, t: nat, lo: nat, mid: nat, hi: nat)
    requires Shaped(s) && Shaped(m) && Shaped(r) && t < |s.tabs| && lo <= mid <= hi
    requires Execs(s, m, t, lo, mid) && Execs(m, r, t, mid, hi)
    ensures Execs(s, r, t, lo, hi)
  {
    forall p | 0 <= p < |s.pipes|
      ensures r.pipes[p].buf == s.pipes[p].buf
      ensures r.pipes[p].used ==>
          s.pipes[p].used && r.pipes[p].readPos == s.pipes[p].readPos && r.pipes[p].writePos == s.pipes[p].writePos
    {
      assert m.pipes[p].buf == s.pipes[p].buf;
    }
    forall fd | 0 <= fd < MAX_FDS
      ensures r.tabs[t].slots[fd] == if lo <= fd < hi && fd in s.tabs[t].cloexec then NO_FD else s.tabs[t].slots[fd]
    {
      assert m.tabs[t].slots[fd] == if lo <= fd < mid && fd in s.tabs[t].cloexec then NO_FD else s.tabs[t].slots[fd];
    }
  }

  /** After nm_fd_close_on_exec the open slots are exactly those that were open and unmarked, no mark
      is left from the starting descriptor on, and the counts are exact. */
  lemma {:induction false} ExecKeeps(s: State, t: nat, k: nat)
    requires Inv(s) && Attached(s, t) && k <= MAX_FDS
    ensures Inv(CloseMarked(s, t, k)) && Execs(s, CloseMarked(s, t, k), t, k, MAX_FDS)
    decreases MAX_FDS - k
  {
    if k < MAX_FDS {
      ExecOneKeeps(s, t, k);
      ExecKeeps(ExecOne(s, t, k), t, k + 1);
      ExecsJoin(s, ExecOne(s, t, k), CloseMarked(s, t, k), t, k, k + 1, MAX_FDS);
    }
  }

  /** After marking an open slot, or taking its mark away, an exec closes the slot exactly when it was marked. */
  lemma MarkThenExec(s: State, t: nat, fd: nat, on: bool)
    requires Inv(s) && Attached(s, t) && fd < MAX_FDS && s.tabs[t].slots[fd] != NO_FD
    ensures
      var r := CloseMarked(SetCloexec(s, t, fd, on).s, t, 0);
      && r.tabs[t].slots[fd] == (if on then NO_FD else s.tabs[t].slots[fd])
      && (forall g: nat | g < MAX_FDS && g != fd ::
            r.tabs[t].slots[g] == if g in s.tabs[t].cloexec then NO_FD else s.tabs[t].slots[g])
  {
    SetCloexecKeeps(s, t, fd, on);
    ExecKeeps(SetCloexec(s, t, fd, on).s, t, 0);
  }

  lemma TaskCloseStreams(s: State, t: nat, fd: int)
    requires Shaped(s) && t < |s.tabs|
    ensures SameStreams(s.pipes, TaskClose(s, t, fd).s.pipes)
  {
  }

  lemma CloseStreams(s: State, t: nat, fd: int)
    requires Shaped(s) && t < |s.tabs|
    ensures SameStreams(s.pipes, Close(s, t, fd).s.pipes)
  {
    TaskCloseStreams(Adopted(s, t, fd), t, fd);
  }

  lemma {:induction false} ExecStreams(s: State, t: nat, k: nat)
    requires Shaped(s) && t < |s.tabs| && k <= MAX_FDS
    ensures SameStreams(s.pipes, CloseMarked(s, t, k).pipes)
    decreases MAX_FDS - k
  {
    if k < MAX_FDS {
      CloseStreams(s, t, k);
      ExecStreams(ExecOne(s, t, k), t, k + 1);
    }
  }

  lemma Dup2Streams(s: State, t: nat, oldfd: int, newfd: int)
    requires Shaped(s) && t < |s.tabs|
    ensures SameStreams(s.pipes, Dup2(s, t, oldfd, newfd).s.pipes)
  {
    TaskCloseStreams(s, t, newfd);
  }
}
