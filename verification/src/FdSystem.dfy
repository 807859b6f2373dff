/** The descriptor tables, updated in place; each method does what its specification function says. */
module FdSystem {
  import opened Common
  import opened Descriptors
  import opened DescriptorOps
  import opened DescriptorSteps
  import opened DescriptorForks
  import opened HalfForks
  import opened DescriptorRuns
  import opened PipeStreams

  /** alloc_task_fd: the first empty slot. */
  method AllocTaskFd(slots: seq<int>) returns (fd: int)
    ensures fd == if FirstFreeSlot(slots) == |slots| then ENOMEM else FirstFreeSlot(slots)
  {
    var i := 0;
    while i < |slots|
      invariant 0 <= i <= |slots| && forall k | 0 <= k < i :: slots[k] != NO_FD
    {
      if slots[i] == NO_FD { return i; }
      i := i + 1;
    }
    return ENOMEM;
  }

  /** The error of a read or write on a slot that holds no end of the right kind. */
  function NoEnd(s: State, t: nat, fd: int): int
    requires Shaped(s) && t < |s.tabs|
  {
    if SlotInUse(s, t, fd) then EFAIL else ENOENT
  }

  class Tables {
    var tabs: seq<Table>
    var objs: seq<Obj>
    var pipes: seq<Pipe>
    ghost var counted: seq<nat>

    constructor (tabs: seq<Table>, objs: seq<Obj>, pipes: seq<Pipe>, ghost counted: seq<nat>)
      ensures View() == State(tabs, counted, objs, pipes)
    {
      this.tabs := tabs;
      this.objs := objs;
      this.pipes := pipes;
      this.counted := counted;
    }

    ghost function View(): State
      reads this
    {
      State(tabs, counted, objs, pipes)
    }

    /** alloc_fdobj: the first free object becomes o. */
    method AllocObj(o: Obj) returns (id: int)
      modifies this`objs
      ensures FirstFreeObj(old(objs)) == |old(objs)| ==> id == ENOMEM && objs == old(objs)
      ensures FirstFreeObj(old(objs)) < |old(objs)| ==>
                id == FirstFreeObj(old(objs)) && objs == old(objs)[id := o]
    {
      var i := 0;
      while i < |objs|
        invariant 0 <= i <= |objs| && objs == old(objs) && forall k | 0 <= k < i :: objs[k].used
      {
        if !objs[i].used {
          objs := objs[i := o];
          return i;
        }
        i := i + 1;
      }
      return ENOMEM;
    }

    /** create_pipe_endpoint_obj. */
    method CreateEnd(kind: Kind, p: nat) returns (id: int)
      modifies this`objs
      ensures FirstFreeObj(old(objs)) == |old(objs)| ==> id == ENOMEM && objs == old(objs)
      ensures FirstFreeObj(old(objs)) < |old(objs)| ==>
                id == FirstFreeObj(old(objs)) && objs == old(objs)[id := EndOf(kind, p)]
    {
      id := AllocObj(Obj(true, 1, kind, -1, p));
    }

    /** adopt_legacy_fs_fd, with the test of its callers that the number is that of no object in use. */
    method Adopt(t: nat, fd: nat)
      requires Shaped(View()) && t < |tabs| && fd < MAX_FDS
      modifies this`tabs, this`objs
      ensures View() == Adopted(old(View()), t, fd)
    {
      var legacy := tabs[t].slots[fd];
      if legacy < 0 || legacy >= |objs| || objs[legacy].used { return; }
      var id := AllocObj(Obj(true, 1, File, legacy, -1));
      tabs := tabs[t := tabs[t].(slots := tabs[t].slots[fd := id])];
    }

    /** pipe_on_endpoint_release. */
    method ReleaseEndpoint(kind: Kind, p: int)
      modifies this`pipes
      ensures pipes == ReleaseEnd(old(pipes), kind, p)
    {
      if p < 0 || p >= |pipes| || !pipes[p].used { return; }
      var q := pipes[p];
      if kind == PipeRead {
        if q.readers > 0 { q := q.(readers := q.readers - 1); }
      } else if kind == PipeWrite {
        if q.writers > 0 { q := q.(writers := q.writers - 1); }
      }
      if q.readers == 0 && q.writers == 0 {
        q := q.(used := false, readPos := 0, writePos := 0);
      }
      pipes := pipes[p := q];
    }

    /** fdobj_retain. */
    method Retain(id: int) returns (ret: int)
      modifies this`objs, this`pipes
      ensures ret == if InUse(old(objs), id) then 0 else ENOENT
      ensures ret != 0 ==> objs == old(objs) && pipes == old(pipes)
      ensures ret == 0 ==>
        && objs == old(objs)[id := Retained(old(objs)[id])]
        && pipes == AcquireEnd(old(pipes), old(objs)[id].kind, old(objs)[id].pipe)
    {
      if id < 0 || id >= |objs| || !objs[id].used { return ENOENT; }
      var o := objs[id];
      objs := objs[id := o.(refcnt := o.refcnt + 1)];
      if 0 <= o.pipe < |pipes| && pipes[o.pipe].used {
        if o.kind == PipeRead {
          pipes := pipes[o.pipe := pipes[o.pipe].(readers := pipes[o.pipe].readers + 1)];
        } else if o.kind == PipeWrite {
          pipes := pipes[o.pipe := pipes[o.pipe].(writers := pipes[o.pipe].writers + 1)];
        }
      }
      return 0;
    }

    /** fdobj_release. */
    method Release(id: int) returns (ret: int)
      modifies this`objs, this`pipes
      ensures ret == if InUse(old(objs), id) && old(objs)[id].refcnt > 0 then 0 else ENOENT
      ensures ret != 0 ==> objs == old(objs) && pipes == old(pipes)
      ensures ret == 0 ==>
        && objs == old(objs)[id := Released(old(objs)[id])]
        && pipes == ReleaseEnd(old(pipes), old(objs)[id].kind, old(objs)[id].pipe)
    {
      if id < 0 || id >= |objs| || !objs[id].used || objs[id].refcnt == 0 { return ENOENT; }
      var o := objs[id];
      ReleaseEndpoint(o.kind, o.pipe);
      o := o.(refcnt := o.refcnt - 1);
      if o.refcnt == 0 {
        o := o.(used := false, kind := NoKind, fsFd := -1, pipe := -1);
      }
      objs := objs[id := o];
      return 0;
    }

    /** nm_fd_close. */
    method CloseFd(t: nat, fd: int) returns (ret: int)
      requires Shaped(View()) && t < |tabs|
      modifies this`tabs, this`objs, this`pipes
      ensures Outcome(View(), ret) == Close(old(View()), t, fd)
    {
      if fd < 0 || fd >= MAX_FDS { return EINVAL; }
      if tabs[t].slots[fd] == NO_FD { return ENOENT; }
      Adopt(t, fd);
      ret := TaskCloseFd(t, fd);
    }

    /** task_close_fd. */
    method TaskCloseFd(t: nat, fd: int) returns (ret: int)
      requires Shaped(View()) && t < |tabs|
      modifies this`tabs, this`objs, this`pipes
      ensures Outcome(View(), ret) == TaskClose(old(View()), t, fd)
    {
      if fd < 0 || fd >= MAX_FDS { return EINVAL; }
      var id := tabs[t].slots[fd];
      if id == NO_FD { return ENOENT; }
      var r := Release(id);
      if r != 0 { return ENOENT; }
      tabs := tabs[t := Table(tabs[t].slots[fd := NO_FD], tabs[t].cloexec - {fd})];
      return 0;
    }

    /** nm_fd_dup2. */
    method DupTo(t: nat, oldfd: int, newfd: int) returns (ret: int)
      requires Shaped(View()) && t < |tabs|
      modifies this`tabs, this`objs, this`pipes
      ensures Outcome(View(), ret) == Dup2(old(View()), t, oldfd, newfd)
    {
      if oldfd < 0 || newfd < 0 || oldfd >= MAX_FDS || newfd >= MAX_FDS { return EINVAL; }
      var oldObj := tabs[t].slots[oldfd];
      if oldObj == NO_FD { return ENOENT; }
      if oldfd == newfd { return newfd; }
      if tabs[t].slots[newfd] != NO_FD {
        var closed := TaskCloseFd(t, newfd);
        if closed != 0 { return EFAIL; }
      }
      var retained := Retain(oldObj);
      if retained != 0 { return EFAIL; }
      tabs := tabs[t := Table(tabs[t].slots[newfd := oldObj], tabs[t].cloexec - {newfd})];
      return newfd;
    }

    /** nm_fd_pipe. */
    method OpenPipePair(t: nat) returns (ret: int, rd: int, wr: int)
      requires Shaped(View()) && t < |tabs|
      modifies this`tabs, this`objs, this`pipes
      ensures PipeOutcome(View(), ret, rd, wr) == MakePipe(old(View()), t)
    {
      ret, rd, wr := ENOMEM, -1, -1;
      var p := FindFreePipe();
      if p == |pipes| { return; }
      var first := AllocTaskFd(tabs[t].slots);
      if first < 0 { return; }
      tabs := tabs[t := tabs[t].(slots := tabs[t].slots[first := RESERVED])];
      var second := AllocTaskFd(tabs[t].slots);
      if second < 0 {
        tabs := tabs[t := tabs[t].(slots := tabs[t].slots[first := NO_FD])];
        return;
      }
      ret, rd, wr := OpenEnds(t, p, first, second);
      assert tabs[..t] == old(tabs)[..t];
    }

    method FindFreePipe() returns (p: nat)
      ensures p == FirstFreePipe(pipes)
    {
      p := 0;
      while p < |pipes|
        invariant p <= |pipes| && forall k | 0 <= k < p :: pipes[k].used
      {
        if !pipes[p].used { return; }
        p := p + 1;
      }
    }

    /** nm_fd_pipe from marking the pipe used. */
    method OpenEnds(t: nat, p: nat, first: nat, second: nat) returns (ret: int, rd: int, wr: int)
      requires Shaped(View()) && t < |tabs| && p < |pipes| && first < MAX_FDS && second < MAX_FDS
      modifies this`tabs, this`objs, this`pipes
      ensures PipeOutcome(View(), ret, rd, wr) ==
              MakeEnds(old(View()), t, p, first, second, old(tabs[t].slots))
    {
      ret, rd, wr := ENOMEM, -1, -1;
      pipes := pipes[p := pipes[p].(used := true, readPos := 0, writePos := 0, readers := 1, writers := 1)];
      var ro := CreateEnd(PipeRead, p);
      if ro < 0 {
        tabs := tabs[t := tabs[t].(slots := tabs[t].slots[first := NO_FD])];
        pipes := pipes[p := pipes[p].(used := false, readers := 0, writers := 0)];
        return;
      }
      var wo := CreateEnd(PipeWrite, p);
      if wo < 0 {
        tabs := tabs[t := tabs[t].(slots := tabs[t].slots[first := NO_FD])];
        var released := Release(ro);
        pipes := pipes[p := pipes[p].(used := false, readers := 0, writers := 0)];
        return;
      }
      tabs := tabs[t := tabs[t].(slots := tabs[t].slots[first := ro][second := wo])];
      return 0, first, second;
    }

    /** nm_fd_on_fork_child, for a child whose slots are not counted yet. */
    method OnForkChild(c: nat)
      requires Shaped(View()) && c < |tabs| && counted[c] == 0
      modifies this
      ensures View() == RetainAll(old(View()), c)
    {
      var i := 0;
      while i < MAX_FDS
        invariant i <= MAX_FDS && Shaped(View()) && c < |tabs| && counted[c] == i
        invariant RetainAll(View(), c) == RetainAll(old(View()), c)
      {
        RetainSlot(c, i);
        i := i + 1;
      }
    }

    /** One round of that loop. */
    method RetainSlot(c: nat, i: nat)
      requires Shaped(View()) && c < |tabs| && counted[c] == i < MAX_FDS
      modifies this
      ensures View() == RetainNext(old(View()), c)
    {
      var id := tabs[c].slots[i];
      if id != NO_FD {
        var r := Retain(id);
        if r != 0 {
          tabs := tabs[c := tabs[c].(slots := tabs[c].slots[i := NO_FD])];
        }
      }
      counted := counted[c := i + 1];
    }

    /** nm_fd_close_on_exec. */
    method CloseOnExec(t: nat)
      requires Shaped(View()) && t < |tabs|
      modifies this`tabs, this`objs, this`pipes
      ensures View() == CloseMarked(old(View()), t, 0)
    {
      var fd := 0;
      while fd < MAX_FDS
        invariant fd <= MAX_FDS && Shaped(View()) && t < |tabs|
        invariant CloseMarked(View(), t, fd) == CloseMarked(old(View()), t, 0)
      {
        ExecSlot(t, fd);
        fd := fd + 1;
      }
    }

    /** One round of that loop. */
    method ExecSlot(t: nat, fd: nat)
      requires Shaped(View()) && t < |tabs| && fd < MAX_FDS
      modifies this`tabs, this`objs, this`pipes
      ensures View() == ExecOne(old(View()), t, fd)
    {
      if fd in tabs[t].cloexec {
        if tabs[t].slots[fd] == NO_FD {
          tabs := tabs[t := tabs[t].(cloexec := tabs[t].cloexec - {fd})];
        } else {
          var closed := CloseFd(t, fd);
        }
      }
    }

    /** nm_fd_write on a pipe: ENOENT for a slot that names no object, EFAIL for anything but a write end. */
    method WriteBytes(t: nat, fd: int, data: seq<nat>) returns (ret: int)
      requires Inv(View()) && t < |tabs| && OnPipe(View(), t, fd) && !Stale(View(), t, fd)
      modifies this`pipes
      ensures forall p: nat | HoldsEnd(old(View()), t, fd, PipeWrite, p) ::
                ret == Accepted(old(pipes)[p], data) && pipes == old(pipes)[p := PutBytes(old(pipes)[p], data)]
      ensures (forall p: nat :: !HoldsEnd(old(View()), t, fd, PipeWrite, p)) ==>
                ret == NoEnd(old(View()), t, fd) && pipes == old(pipes)
    {
      if fd < 0 || fd >= MAX_FDS { return ENOENT; }
      var id := tabs[t].slots[fd];
      if id < 0 || id >= |objs| { return ENOENT; }
      var o := objs[id];
      if o.kind != PipeWrite { return EFAIL; }
      assert HoldsEnd(View(), t, fd, PipeWrite, o.pipe);
      var after, n := WriteToPipe(pipes[o.pipe], data);
      pipes := pipes[o.pipe := after];
      return n;
    }

    /** nm_fd_read on a pipe. */
    method ReadInto(t: nat, fd: int, len: nat) returns (ret: int, out: seq<nat>)
      requires Inv(View()) && t < |tabs| && OnPipe(View(), t, fd) && !Stale(View(), t, fd)
      modifies this`pipes
      ensures forall p: nat | HoldsEnd(old(View()), t, fd, PipeRead, p) ::
                && out == ReadBytes(old(pipes)[p], len) && ret == |out|
                && pipes == old(pipes)[p := AfterRead(old(pipes)[p], len)]
      ensures (forall p: nat :: !HoldsEnd(old(View()), t, fd, PipeRead, p)) ==>
                ret == NoEnd(old(View()), t, fd) && out == [] && pipes == old(pipes)
    {
      out := [];
      if fd < 0 || fd >= MAX_FDS { return ENOENT, out; }
      var id := tabs[t].slots[fd];
      if id < 0 || id >= |objs| { return ENOENT, out; }
      var o := objs[id];
      if o.kind != PipeRead { return EFAIL, out; }
      assert HoldsEnd(View(), t, fd, PipeRead, o.pipe);
      var after;
      after, out := ReadFromPipe(pipes[o.pipe], len);
      pipes := pipes[o.pipe := after];
      return |out|, out;
    }
  }
}
