/** Whole runs of the file API, on what the file system stands for. */
module FileRuns {
  import opened Common
  import opened Paths
  import opened Vfs

  datatype Op =
    | Open(path: string, create: bool)
    | Read(fd: int, len: nat, data: seq<nat>)
    | Write(fd: int, src: seq<nat>)
    | Seek(fd: int, offset: int, whence: Whence)
    | Close(fd: int)

  /** A call with its return value. */
  datatype Event = Event(op: Op, ret: int)

  ghost predicate Step(v: View, v': View, e: Event) {
    match e.op
    case Open(path, create) => Opens(v, v', path, create, e.ret)
    case Read(fd, len, data) => ReadsVia(v, v', fd, len, e.ret, data)
    case Write(fd, src) => WritesVia(v, v', fd, src, e.ret)
    case Seek(fd, offset, whence) => SeeksVia(v, v', fd, offset, whence, e.ret)
    case Close(fd) => Closes(v, v', fd, e.ret)
  }

  ghost predicate StepAt(run: seq<View>, events: seq<Event>, i: int) {
    0 <= i < |events| && |run| == |events| + 1 ==> Step(run[i], run[i + 1], events[i])
  }

  ghost predicate IsRun(run: seq<View>, events: seq<Event>) {
    |run| == |events| + 1 && forall i :: StepAt(run, events, i)
  }

  /** A successful write through a descriptor open on p. */
  predicate WritesTo(v: View, e: Event, p: Path) {
    e.op.Write? && e.ret >= 0 && IsOpen(v, e.op.fd) && v.handles[e.op.fd].path == p
  }

  predicate Names(e: Event, fd: int) {
    !e.op.Open? && e.op.fd == fd
  }

  /** A file changes only by a write through a descriptor open on its own path, and never goes away. */
  lemma FileChangesOnlyByWrite(v: View, v': View, e: Event, p: Path)
    requires Step(v, v', e) && p in v.files
    ensures p in v'.files
    ensures !WritesTo(v, e, p) ==> v'.files[p] == v.files[p]
  {
    if e.op.Write? && e.ret >= 0 {
      var c' :| Wrote(v, v', e.op.fd, e.op.src, c');
    }
  }

  /** A call moves at most the descriptor it names; opening takes only an unused one. */
  lemma OtherHandlesStay(v: View, v': View, e: Event, fd: int)
    requires Step(v, v', e) && IsOpen(v, fd) && !Names(e, fd)
    ensures |v'.handles| == |v.handles| && v'.handles[fd] == v.handles[fd]
  {
    if e.op.Write? && e.ret >= 0 {
      var c' :| Wrote(v, v', e.op.fd, e.op.src, c');
    }
  }

  /** Over any run without a write to it, a file keeps its bytes, whatever else is opened, created,
      written, read, moved or closed. */
  lemma {:induction false} UntouchedFile(run: seq<View>, events: seq<Event>, m: nat, n: nat, p: Path)
    requires IsRun(run, events) && m <= n <= |events| && p in run[m].files
    requires forall i | m <= i < n :: !WritesTo(run[i], events[i], p)
    ensures p in run[n].files && run[n].files[p] == run[m].files[p]
    decreases n
  {
    if n > m {
      UntouchedFile(run, events, m, n - 1, p);
      assert StepAt(run, events, n - 1);
      FileChangesOnlyByWrite(run[n - 1], run[n], events[n - 1], p);
    }
  }

  /** A descriptor no call names keeps its path and its offset. */
  lemma {:induction false} UntouchedHandle(run: seq<View>, events: seq<Event>, m: nat, n: nat, fd: int)
    requires IsRun(run, events) && m <= n <= |events| && IsOpen(run[m], fd)
    requires forall i | m <= i < n :: !Names(events[i], fd)
    ensures IsOpen(run[n], fd) && run[n].handles[fd] == run[m].handles[fd]
    decreases n
  {
    if n > m {
      UntouchedHandle(run, events, m, n - 1, fd);
      assert StepAt(run, events, n - 1);
      OtherHandlesStay(run[n - 1], run[n], events[n - 1], fd);
    }
  }

  lemma WrittenBytes(v: View, v': View, fd: int, src: seq<nat>, ret: int)
    requires WritesVia(v, v', fd, src, ret) && ret >= 0
    ensures
      && IsOpen(v, fd)
      && var h := v.handles[fd];
         && h.path in v'.files && |v'.files[h.path]| >= h.offset + |src|
         && v'.files[h.path][h.offset..h.offset + |src|] == src
  {
    var c' :| Wrote(v, v', fd, src, c');
    assert v'.files[v.handles[fd].path] == c';
  }

  /** What call m writes, call n reads through any descriptor open since then on the same path at the
      offset written to, if nothing in between names that descriptor or writes to the file. */
  lemma WrittenIsRead(run: seq<View>, events: seq<Event>, m: nat, n: nat, gd: int)
    requires IsRun(run, events) && m < n < |events|
    requires events[m].op.Write? && events[m].ret >= 0 && IsOpen(run[m], events[m].op.fd)
    requires IsOpen(run[m + 1], gd) && run[m + 1].handles[gd] == run[m].handles[events[m].op.fd]
    requires forall i | m < i < n :: !Names(events[i], gd) && !WritesTo(run[i], events[i], run[m + 1].handles[gd].path)
    requires events[n].op.Read? && events[n].op.fd == gd && events[n].op.len == |events[m].op.src|
    ensures events[n].op.data == events[m].op.src && events[n].ret == |events[m].op.src|
  {
    assert StepAt(run, events, m) && StepAt(run, events, n);
    WrittenBytes(run[m], run[m + 1], events[m].op.fd, events[m].op.src, events[m].ret);
    UntouchedFile(run, events, m + 1, n, run[m + 1].handles[gd].path);
    UntouchedHandle(run, events, m + 1, n, gd);
  }

  /** Where a seek must go to land on offset o: from the start, from the current offset or from the end. */
  predicate Aims(v: View, fd: int, o: nat, offset: int, whence: Whence)
    requires IsOpenFile(v, fd)
  {
    match whence
    case SeekSet => offset == o
    case SeekCur => offset == o - v.handles[fd].offset
    case SeekEnd => offset == o - |v.files[v.handles[fd].path]|
    case SeekBad => false
  }

  /** What a descriptor writes it reads back after a seek, by whichever origin, to where it wrote. */
  lemma WriteSeekRead(v: View, v1: View, v2: View, v3: View, fd: int, src: seq<nat>, offset: int, whence: Whence,
      wrote: int, back: int, got: int, data: seq<nat>)
    requires Step(v, v1, Event(Write(fd, src), wrote)) && wrote >= 0 && IsOpenFile(v1, fd)
    requires |v1.files[v1.handles[fd].path]| < TWO63
    requires Step(v1, v2, Event(Seek(fd, offset, whence), back))
    requires IsOpen(v, fd) && Aims(v1, fd, v.handles[fd].offset, offset, whence)
    requires Step(v2, v3, Event(Read(fd, |src|, data), got))
    ensures back == v.handles[fd].offset && data == src && got == |src|
    ensures v3 == v1
  {
    WrittenBytes(v, v1, fd, src, wrote);
  }

  /** An open that makes no file, and a close of the descriptor it gave, leave everything as it was. */
  lemma OpenCloseRestores(v: View, v1: View, v2: View, path: string, create: bool, fd: int, ret: int)
    requires Step(v, v1, Event(Open(path, create), fd)) && fd >= 0 && Step(v1, v2, Event(Close(fd), ret))
    requires Components(path, 0) == [] || Components(path, 0) in v.files
    ensures ret == 0 && v2 == v
  {
    assert v2.handles == v.handles;
  }

  /** Once closed, a descriptor is good for nothing until an open gives it out again. */
  lemma ClosedIsDead(v: View, v1: View, v2: View, fd: int, e: Event)
    requires Step(v, v1, Event(Close(fd), 0)) && Step(v1, v2, e) && Names(e, fd)
    ensures e.ret < 0 && v2 == v1
  {
  }

  /** A file made by an open is empty and stays after the close. */
  lemma MadeFileStays(v: View, v1: View, v2: View, path: string, fd: int, ret: int)
    requires Step(v, v1, Event(Open(path, true), fd)) && fd >= 0 && Step(v1, v2, Event(Close(fd), ret))
    requires Components(path, 0) != [] && Components(path, 0) !in v.files
    ensures v2 == v.(files := v.files[Components(path, 0) := []], room := v.room - 1)
  {
    assert v2.handles == v.handles;
  }

  /** What call m writes at the start of a file, a read after opening the file anew gives back, whatever has been
      closed or moved in between, if nobody wrote to the file. */
  lemma SavedIsRead(run: seq<View>, events: seq<Event>, m: nat, after: nat, n: nat, last: nat, fd: int, p: Path)
    requires IsRun(run, events) && after == m + 1 <= n && last == n + 1 < |events|
    requires events[m].op.Write? && events[m].ret >= 0 && events[m].op.fd == fd
    requires IsOpen(run[m], fd) && run[m].handles[fd] == Handle(p, 0)
    requires forall i | after <= i < n :: !WritesTo(run[i], events[i], p)
    requires events[n].op.Open? && Components(events[n].op.path, 0) == p && events[n].ret >= 0
    requires events[last].op.Read? && events[last].op.fd == events[n].ret && events[last].op.len == |events[m].op.src|
    ensures events[last].op.data == events[m].op.src
  {
    assert StepAt(run, events, m) && StepAt(run, events, n) && StepAt(run, events, last);
    WrittenBytes(run[m], run[after], fd, events[m].op.src, events[m].ret);
    UntouchedFile(run, events, after, n, p);
  }

  /** Every file but those there at the start was opened with the create flag, directly in the root
      directory, and every file made used up one node. */
  lemma {:induction false} FilesAreMade(run: seq<View>, events: seq<Event>, n: nat, p: Path)
    requires IsRun(run, events) && n <= |events|
    ensures run[n].room <= run[0].room
    ensures p in run[n].files && p !in run[0].files ==>
              |p| == 1 && run[n].room < run[0].room && exists i :: MakesAt(events, i, p) && i < n
  {
    if n > 0 {
      FilesAreMade(run, events, n - 1, p);
      var v, v', e := run[n - 1], run[n], events[n - 1];
      assert StepAt(run, events, n - 1);
      if e.op.Write? && e.ret >= 0 {
        var c' :| Wrote(v, v', e.op.fd, e.op.src, c');
      }
      if p in v'.files && p !in v.files { assert MakesAt(events, n - 1, p); }
    }
  }

  predicate MakesAt(events: seq<Event>, i: int, p: Path) {
    0 <= i < |events| && events[i].op.Open? && events[i].op.create && Components(events[i].op.path, 0) == p
  }
}
