/** The descriptor operations as functions on the state, and that each keeps both counts exact. */
module DescriptorOps {
  import opened Common
  import opened Descriptors

  const ENOENT: int := -2
  const ENOMEM: int := -12
  const EINVAL: int := -22

  /** pipe_on_endpoint_acquire. */
  function AcquireEnd(pipes: seq<Pipe>, kind: Kind, p: int): seq<Pipe> {
    if p < 0 || p >= |pipes| || !pipes[p].used then pipes
    else if kind == PipeRead then pipes[p := pipes[p].(readers := pipes[p].readers + 1)]
    else if kind == PipeWrite then pipes[p := pipes[p].(writers := pipes[p].writers + 1)]
    else pipes
  }

  /** pipe_on_endpoint_release. */
  function ReleaseEnd(pipes: seq<Pipe>, kind: Kind, p: int): seq<Pipe> {
    if p < 0 || p >= |pipes| || !pipes[p].used then pipes
    else
      var q := pipes[p];
      var q' :=
        if kind == PipeRead then (if q.readers > 0 then q.(readers := q.readers - 1) else q)
        else if kind == PipeWrite then (if q.writers > 0 then q.(writers := q.writers - 1) else q)
        else q;
      pipes[p := if q'.readers == 0 && q'.writers == 0 then q'.(used := false, readPos := 0, writePos := 0) else q']
  }

  /** fdobj_retain: objects and pipes after it; the object must be in use. */
  function Retained(o: Obj): Obj {
    o.(refcnt := o.refcnt + 1)
  }

  /** fdobj_release on the object itself: the last reference frees it. */
  function Released(o: Obj): Obj
    requires o.refcnt > 0
  {
    if o.refcnt > 1 then o.(refcnt := o.refcnt - 1) else Obj(false, 0, NoKind, -1, -1)
  }

  /** An object that is still the same file or pipe end. */
  predicate SameEnd(o: Obj, o': Obj) {
    o'.kind == o.kind && o'.fsFd == o.fsFd && o'.pipe == o.pipe
  }

  lemma RetainKeepsPipes(objs: seq<Obj>, pipes: seq<Pipe>, id: nat)
    requires PipesMatch(objs, pipes) && InUse(objs, id)
    ensures PipesMatch(objs[id := Retained(objs[id])], AcquireEnd(pipes, objs[id].kind, objs[id].pipe))
  {
    var o := objs[id];
    var objs', pipes' := objs[id := Retained(o)], AcquireEnd(pipes, o.kind, o.pipe);
    forall p | 0 <= p < |pipes'| ensures PipeMatches(objs', pipes', p) {
      assert PipeMatches(objs, pipes, p);
      RefsUpdate(objs, id, Retained(o), PipeRead, p);
      RefsUpdate(objs, id, Retained(o), PipeWrite, p);
    }
  }

  lemma ReleaseKeepsPipes(objs: seq<Obj>, pipes: seq<Pipe>, id: nat)
    requires PipesMatch(objs, pipes) && InUse(objs, id)
    ensures PipesMatch(objs[id := Released(objs[id])], ReleaseEnd(pipes, objs[id].kind, objs[id].pipe))
  {
    var o := objs[id];
    var objs', pipes' := objs[id := Released(o)], ReleaseEnd(pipes, o.kind, o.pipe);
    forall p | 0 <= p < |pipes'|
      ensures PipeMatches(objs', pipes', p)
      ensures pipes[p].used && !pipes'[p].used ==> Refs(objs', PipeRead, p) == Refs(objs', PipeWrite, p) == 0
    {
      assert PipeMatches(objs, pipes, p);
      RefsUpdate(objs, id, Released(o), PipeRead, p);
      RefsUpdate(objs, id, Released(o), PipeWrite, p);
    }
    forall k | 0 <= k < |objs'| && NamesPipe(objs'[k])
      ensures 0 <= objs'[k].pipe < |pipes'| && pipes'[objs'[k].pipe].used
    {
      assert NamesPipe(objs[k]) && objs[k].pipe == objs'[k].pipe;
      RefsCover(objs', k, objs'[k].kind, objs'[k].pipe);
    }
  }

  function WriteSlot(tabs: seq<Table>, t: nat, fd: nat, v: int): seq<Table>
    requires t < |tabs| && fd < |tabs[t].slots|
  {
    tabs[t := tabs[t].(slots := tabs[t].slots[fd := v])]
  }

  lemma HolderCounts(tabs: seq<Table>, counted: seq<nat>, t: int, fd: int, id: int)
    requires Holds(tabs, counted, t, fd, id)
    ensures |Holders(tabs, counted, id)| > 0
  {
    assert (t, fd) in Holders(tabs, counted, id);
  }

  /** Filling an empty slot adds one holder to one object. */
  lemma FillCounts(tabs: seq<Table>, counted: seq<nat>, t: nat, fd: nat, id: int, k: int)
    requires t < |tabs| == |counted| && fd < |tabs[t].slots| && fd < counted[t] && tabs[t].slots[fd] == NO_FD
    requires k != NO_FD
    ensures |Holders(WriteSlot(tabs, t, fd, id), counted, k)| == |Holders(tabs, counted, k)| + if k == id then 1 else 0
  {
    HoldersAfterWrite(tabs, counted, t, fd, id, k);
    assert (t as int, fd as int) !in Holders(tabs, counted, k);
  }

  /** Emptying a slot takes one holder from one object. */
  lemma EmptyCounts(tabs: seq<Table>, counted: seq<nat>, t: nat, fd: nat, k: int)
    requires t < |tabs| == |counted| && fd < |tabs[t].slots| && fd < counted[t]
    requires k != NO_FD
    ensures |Holders(WriteSlot(tabs, t, fd, NO_FD), counted, k)| ==
            |Holders(tabs, counted, k)| - if k == tabs[t].slots[fd] then 1 else 0
  {
    HoldersAfterWrite(tabs, counted, t, fd, NO_FD, k);
    assert (t as int, fd as int) in Holders(tabs, counted, k) <==> k == tabs[t].slots[fd];
  }

  /** Retaining an object together with the slot that will hold it. */
  lemma InstallKeepsRefs(tabs: seq<Table>, counted: seq<nat>, objs: seq<Obj>, t: nat, fd: nat, id: nat)
    requires RefsMatch(tabs, counted, objs) && InUse(objs, id)
    requires t < |tabs| == |counted| && fd < |tabs[t].slots| && fd < counted[t] && tabs[t].slots[fd] == NO_FD
    ensures RefsMatch(WriteSlot(tabs, t, fd, id), counted, objs[id := Retained(objs[id])])
  {
    var tabs', objs' := WriteSlot(tabs, t, fd, id), objs[id := Retained(objs[id])];
    forall k | InUse(objs', k) ensures objs'[k].refcnt == |Holders(tabs', counted, k)| > 0 {
      assert InUse(objs, k);
      FillCounts(tabs, counted, t, fd, id, k);
    }
    forall u, g, k | Holds(tabs', counted, u, g, k) ensures k == NO_FD || InUse(objs', k) {
      assert (u == t && g == fd) || Holds(tabs, counted, u, g, k);
    }
  }

  /** Releasing an object together with the slot that held it. */
  lemma ClearKeepsRefs(tabs: seq<Table>, counted: seq<nat>, objs: seq<Obj>, t: nat, fd: nat, id: nat)
    requires RefsMatch(tabs, counted, objs) && InUse(objs, id)
    requires t < |tabs| == |counted| && fd < |tabs[t].slots| && fd < counted[t] && tabs[t].slots[fd] == id
    ensures objs[id].refcnt > 0
    ensures RefsMatch(WriteSlot(tabs, t, fd, NO_FD), counted, objs[id := Released(objs[id])])
  {
    var tabs', objs' := WriteSlot(tabs, t, fd, NO_FD), objs[id := Released(objs[id])];
    forall k | InUse(objs', k) ensures objs'[k].refcnt == |Holders(tabs', counted, k)| > 0 {
      assert InUse(objs, k);
      EmptyCounts(tabs, counted, t, fd, k);
    }
    forall u, g, k | Holds(tabs', counted, u, g, k) ensures k == NO_FD || InUse(objs', k) {
      if u != t || g != fd {
        assert Holds(tabs, counted, u, g, k);
        if k == id {
          HolderCounts(tabs', counted, u, g, id);
          EmptyCounts(tabs, counted, t, fd, id);
        }
      }
    }
  }

  /** A fresh object with one reference, together with the slot that holds it. */
  lemma CreateKeepsRefs(tabs: seq<Table>, counted: seq<nat>, objs: seq<Obj>, t: nat, fd: nat, id: nat, o: Obj)
    requires RefsMatch(tabs, counted, objs) && id < |objs| && !objs[id].used && o.used && o.refcnt == 1
    requires t < |tabs| == |counted| && fd < |tabs[t].slots| && fd < counted[t] && tabs[t].slots[fd] == NO_FD
    ensures RefsMatch(WriteSlot(tabs, t, fd, id), counted, objs[id := o])
  {
    var tabs', objs' := WriteSlot(tabs, t, fd, id), objs[id := o];
    forall k | InUse(objs', k) ensures objs'[k].refcnt == |Holders(tabs', counted, k)| > 0 {
      FillCounts(tabs, counted, t, fd, id, k);
      if k == id { NoHolders(tabs, counted, objs, id); } else { assert InUse(objs, k); }
    }
    forall u, g, k | Holds(tabs', counted, u, g, k) ensures k == NO_FD || InUse(objs', k) {
      assert (u == t && g == fd) || Holds(tabs, counted, u, g, k);
    }
  }

  lemma NoHolders(tabs: seq<Table>, counted: seq<nat>, objs: seq<Obj>, id: int)
    requires RefsMatch(tabs, counted, objs) && id != NO_FD && !InUse(objs, id)
    ensures Holders(tabs, counted, id) == {}
  {
    forall u, g ensures !Holds(tabs, counted, u, g, id) {
    }
  }

  /** Both ends of a pipe that was not in use. */
  lemma CreateKeepsPipes(objs: seq<Obj>, pipes: seq<Pipe>, p: nat, ro: nat, wo: nat)
    requires PipesMatch(objs, pipes) && p < |pipes| && !pipes[p].used
    requires ro < |objs| && wo < |objs| && ro != wo && !objs[ro].used && !objs[wo].used
    ensures PipesMatch(objs[ro := EndOf(PipeRead, p)][wo := EndOf(PipeWrite, p)], pipes[p := OpenPipe(pipes[p])])
  {
    var objs1 := objs[ro := EndOf(PipeRead, p)];
    var objs', pipes' := objs1[wo := EndOf(PipeWrite, p)], pipes[p := OpenPipe(pipes[p])];
    forall q | 0 <= q < |pipes'| ensures PipeMatches(objs', pipes', q) {
      assert PipeMatches(objs, pipes, q);
      RefsUpdate(objs, ro, EndOf(PipeRead, p), PipeRead, q);
      RefsUpdate(objs, ro, EndOf(PipeRead, p), PipeWrite, q);
      RefsUpdate(objs1, wo, EndOf(PipeWrite, p), PipeRead, q);
      RefsUpdate(objs1, wo, EndOf(PipeWrite, p), PipeWrite, q);
      if q == p {
        RefsZero(objs, PipeRead, p);
        RefsZero(objs, PipeWrite, p);
      }
    }
  }

  function EndOf(kind: Kind, p: int): Obj {
    Obj(true, 1, kind, -1, p)
  }

  function OpenPipe(q: Pipe): Pipe {
    q.(used := true, readPos := 0, writePos := 0, readers := 1, writers := 1)
  }

  const FREE_OBJ := Obj(false, 0, NoKind, -1, -1)

  /** What is not in use looks as nm_fd_init left it. */
  predicate Clean(s: State) {
    && (forall id | 0 <= id < |s.objs| && !s.objs[id].used :: s.objs[id] == FREE_OBJ)
    && (forall p | 0 <= p < |s.pipes| && !s.pipes[p].used ::
          s.pipes[p].readers == s.pipes[p].writers == s.pipes[p].readPos == s.pipes[p].writePos == 0)
  }

  /** The descriptor invariant. */
  ghost predicate Inv(s: State) {
    Exact(s) && Clean(s)
  }

  predicate Attached(s: State, t: int) {
    0 <= t < |s.tabs| && t < |s.counted| && s.counted[t] == MAX_FDS
  }

  datatype Outcome = Outcome(s: State, ret: int)

  function FirstFreeObj(objs: seq<Obj>): (r: nat)
    ensures r <= |objs| && (forall i | 0 <= i < r :: objs[i].used) && (r < |objs| ==> !objs[r].used)
  {
    FirstFrom(objs, (o: Obj) => !o.used, 0)
  }

  /** The slot has the number of an object that is not in use. */
  predicate Stale(s: State, t: nat, fd: int)
    requires Shaped(s) && t < |s.tabs|
  {
    0 <= fd < MAX_FDS && 0 <= s.tabs[t].slots[fd] < |s.objs| && !s.objs[s.tabs[t].slots[fd]].used
  }

  /** adopt_legacy_fs_fd: such a number is taken for a file's, and the slot gets a new object for that file. */
  function Adopted(s: State, t: nat, fd: int): (r: State)
    requires Shaped(s) && t < |s.tabs|
    ensures Shaped(r) && |r.tabs| == |s.tabs|
  {
    if !Stale(s, t, fd) then s
    else
      var id := FirstFreeObj(s.objs);
      s.(tabs := WriteSlot(s.tabs, t, fd, id), objs := s.objs[id := FileOf(s.tabs[t].slots[fd])])
  }

  /** Only the slot and the first free object change, and the object stands for the file of that number. */
  lemma AdoptedIs(s: State, t: nat, fd: int)
    requires Shaped(s) && t < |s.tabs| && Stale(s, t, fd)
    ensures
      var r, n := Adopted(s, t, fd), s.tabs[t].slots[fd];
      exists id: nat :: id < |s.objs| && !s.objs[id].used && (forall i | 0 <= i < id :: s.objs[i].used)
        && r == s.(tabs := s.tabs[t := s.tabs[t].(slots := s.tabs[t].slots[fd := id])],
                   objs := s.objs[id := Obj(true, 1, File, n, -1)])
  {
    assert FirstFreeObj(s.objs) < |s.objs|;
  }

  function FileOf(fsFd: int): Obj {
    Obj(true, 1, File, fsFd, -1)
  }

  /** nm_fd_close. */
  function Close(s: State, t: nat, fd: int): Outcome
    requires Shaped(s) && t < |s.tabs|
  {
    TaskClose(Adopted(s, t, fd), t, fd)
  }

  /** task_close_fd. */
  function TaskClose(s: State, t: nat, fd: int): Outcome
    requires Shaped(s) && t < |s.tabs|
  {
    if fd < 0 || fd >= MAX_FDS then Outcome(s, EINVAL)
    else
      var id := s.tabs[t].slots[fd];
      if id == NO_FD || !InUse(s.objs, id) || s.objs[id].refcnt == 0 then Outcome(s, ENOENT)
      else
        var o := s.objs[id];
        var tab := s.tabs[t];
        Outcome(s.(tabs := s.tabs[t := Table(tab.slots[fd := NO_FD], tab.cloexec - {fd})],
                   objs := s.objs[id := Released(o)],
                   pipes := ReleaseEnd(s.pipes, o.kind, o.pipe)), 0)
  }

  ghost predicate OnlySlot(s: State, s': State, t: nat, fd: int, v: int)
    requires Shaped(s) && t < |s.tabs| && 0 <= fd < MAX_FDS
  {
    && s'.counted == s.counted
    && s'.tabs == s.tabs[t := Table(s.tabs[t].slots[fd := v], s.tabs[t].cloexec - {fd})]
  }

  /** Closing an open slot always succeeds, empties that slot and its mark, and keeps the counts exact. */
  lemma CloseKeeps(s: State, t: nat, fd: int)
    requires Inv(s) && Attached(s, t)
    ensures !Stale(s, t, fd) && Close(s, t, fd) == TaskClose(s, t, fd)
    ensures
      var r := Close(s, t, fd);
      && Inv(r.s)
      && r.ret == (if fd < 0 || fd >= MAX_FDS then EINVAL else if s.tabs[t].slots[fd] == NO_FD then ENOENT else 0)
      && (r.ret != 0 ==> r.s == s)
      && (r.ret == 0 ==> OnlySlot(s, r.s, t, fd, NO_FD))
      && (r.ret == 0 ==> forall id | InUse(s.objs, id) && s.objs[id].refcnt > 1 ::
            InUse(r.s.objs, id) && r.s.objs[id].kind == s.objs[id].kind && r.s.objs[id].pipe == s.objs[id].pipe)
  {
    NeverStale(s, t, fd);
    if 0 <= fd < MAX_FDS && s.tabs[t].slots[fd] != NO_FD {
      var id := s.tabs[t].slots[fd];
      var o := s.objs[id];
      ReleaseKeepsPipes(s.objs, s.pipes, id);
      ClearKeepsRefs(s.tabs, s.counted, s.objs, t, fd, id);
      var tabs1 := WriteSlot(s.tabs, t, fd, NO_FD);
      MarksKeepRefs(tabs1, s.counted, s.objs[id := Released(o)], t, s.tabs[t].cloexec - {fd});
      assert tabs1[t := tabs1[t].(cloexec := s.tabs[t].cloexec - {fd})] == Close(s, t, fd).s.tabs;
    }
  }

  /** The slots of an attached table name objects in use. */
  lemma NeverStale(s: State, t: nat, fd: int)
    requires Inv(s) && Attached(s, t)
    ensures !Stale(s, t, fd)
    ensures 0 <= fd < MAX_FDS && s.tabs[t].slots[fd] != NO_FD ==> InUse(s.objs, s.tabs[t].slots[fd])
  {
    assert 0 <= fd < MAX_FDS ==> Holds(s.tabs, s.counted, t, fd, s.tabs[t].slots[fd]);
  }

  lemma MarksKeepRefs(tabs: seq<Table>, counted: seq<nat>, objs: seq<Obj>, t: nat, marks: set<nat>)
    requires RefsMatch(tabs, counted, objs) && t < |tabs|
    ensures RefsMatch(tabs[t := tabs[t].(cloexec := marks)], counted, objs)
  {
    var tabs' := tabs[t := tabs[t].(cloexec := marks)];
    forall id | InUse(objs, id) ensures objs[id].refcnt == |Holders(tabs', counted, id)| > 0 {
      HoldersIgnoreMarks(tabs, counted, t, marks, id);
    }
    forall u, g, id | Holds(tabs', counted, u, g, id) ensures id == NO_FD || InUse(objs, id) {
      assert Holds(tabs, counted, u, g, id);
    }
  }

  /** nm_fd_dup2. */
  function Dup2(s: State, t: nat, oldfd: int, newfd: int): Outcome
    requires Shaped(s) && t < |s.tabs|
  {
    if oldfd < 0 || newfd < 0 || oldfd >= MAX_FDS || newfd >= MAX_FDS then Outcome(s, EINVAL)
    else
      var id := s.tabs[t].slots[oldfd];
      if id == NO_FD then Outcome(s, ENOENT)
      else if oldfd == newfd then Outcome(s, newfd)
      else
        var c := if s.tabs[t].slots[newfd] != NO_FD then TaskClose(s, t, newfd) else Outcome(s, 0);
        if c.ret != 0 then Outcome(c.s, EFAIL)
        else if !InUse(c.s.objs, id) then Outcome(c.s, EFAIL)
        else
          var o := c.s.objs[id];
          var tab := c.s.tabs[t];
          Outcome(c.s.(tabs := c.s.tabs[t := Table(tab.slots[newfd := id], tab.cloexec - {newfd})],
                       objs := c.s.objs[id := Retained(o)],
                       pipes := AcquireEnd(c.s.pipes, o.kind, o.pipe)), newfd)
  }

  /** Duplicating an open slot always succeeds: closing newfd first never frees the object about to
      be retained, because oldfd still holds it. */
  lemma Dup2Keeps(s: State, t: nat, oldfd: int, newfd: int)
    requires Inv(s) && Attached(s, t)
    ensures
      var r := Dup2(s, t, oldfd, newfd);
      && Inv(r.s)
      && r.ret == (if oldfd < 0 || newfd < 0 || oldfd >= MAX_FDS || newfd >= MAX_FDS then EINVAL
                   else if s.tabs[t].slots[oldfd] == NO_FD then ENOENT else newfd)
      && (r.ret < 0 || oldfd == newfd ==> r.s == s)
      && (r.ret >= 0 && oldfd != newfd ==>
            OnlySlot(s, r.s, t, newfd, s.tabs[t].slots[oldfd]) && InUse(r.s.objs, s.tabs[t].slots[oldfd]))
  {
    if 0 <= oldfd < MAX_FDS && 0 <= newfd < MAX_FDS && s.tabs[t].slots[oldfd] != NO_FD && oldfd != newfd {
      var id := s.tabs[t].slots[oldfd];
      var c := if s.tabs[t].slots[newfd] != NO_FD then TaskClose(s, t, newfd) else Outcome(s, 0);
      CloseKeeps(s, t, newfd);
      assert Attached(c.s, t) && Inv(c.s) && c.ret == 0;
      assert c.s.tabs[t].slots[oldfd] == id && c.s.tabs[t].slots[newfd] == NO_FD;
      assert Holds(c.s.tabs, c.s.counted, t, oldfd, id);
      var marks := c.s.tabs[t].cloexec - {newfd};
      RetainInto(c.s, t, newfd, id, marks);
      assert c.s.tabs[t].slots[newfd := id] == s.tabs[t].slots[newfd := id];
      assert marks == s.tabs[t].cloexec - {newfd};
      assert Dup2(s, t, oldfd, newfd).s.tabs == s.tabs[t := Table(s.tabs[t].slots[newfd := id], marks)];
    }
  }

  /** Retaining an object in use into an empty slot. */
  lemma RetainInto(s: State, t: nat, fd: nat, id: nat, marks: set<nat>)
    requires Inv(s) && Attached(s, t) && fd < MAX_FDS && s.tabs[t].slots[fd] == NO_FD && InUse(s.objs, id)
    ensures Inv(s.(tabs := s.tabs[t := Table(s.tabs[t].slots[fd := id], marks)],
                   objs := s.objs[id := Retained(s.objs[id])],
                   pipes := AcquireEnd(s.pipes, s.objs[id].kind, s.objs[id].pipe)))
  {
    RetainKeepsPipes(s.objs, s.pipes, id);
    InstallKeepsRefs(s.tabs, s.counted, s.objs, t, fd, id);
    var tabs1 := WriteSlot(s.tabs, t, fd, id);
    MarksKeepRefs(tabs1, s.counted, s.objs[id := Retained(s.objs[id])], t, marks);
    assert tabs1[t := tabs1[t].(cloexec := marks)] == s.tabs[t := Table(s.tabs[t].slots[fd := id], marks)];
  }
}
