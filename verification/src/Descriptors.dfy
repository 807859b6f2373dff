/** Descriptor objects: task slots hold objects, objects hold pipe ends. The state, and the counts it
    must agree with. */
module Descriptors {

  const MAX_FDS: nat := 32
  const NO_FD: int := -1

  datatype Kind = NoKind | File | PipeRead | PipeWrite

  datatype Obj = Obj(used: bool, refcnt: nat, kind: Kind, fsFd: int, pipe: int)

  datatype Pipe = Pipe(used: bool, readPos: nat, writePos: nat, readers: nat, writers: nat, buf: seq<nat>)

  /** A task's descriptor table: an object id or -1 per slot, and the close-on-exec marks. */
  datatype Table = Table(slots: seq<int>, cloexec: set<nat>)

  /** Tables are numbered by task creation and never reused here, so a reaped task's table stays as it
      was. counted[t] is how many leading slots of table t the reference counts include: all of them
      except while a fork has copied a table and not yet retained its objects. */
  datatype State = State(tabs: seq<Table>, counted: seq<nat>, objs: seq<Obj>, pipes: seq<Pipe>)

  predicate Shaped(s: State) {
    && |s.counted| == |s.tabs|
    && forall t | 0 <= t < |s.tabs| :: |s.tabs[t].slots| == MAX_FDS && s.counted[t] <= MAX_FDS
  }

  predicate Holds(tabs: seq<Table>, counted: seq<nat>, t: int, fd: int, id: int) {
    0 <= t < |tabs| && t < |counted| && 0 <= fd < |tabs[t].slots| && fd < counted[t] && tabs[t].slots[fd] == id
  }

  /** The task slots that hold an object. */
  ghost function Holders(tabs: seq<Table>, counted: seq<nat>, id: int): set<(int, int)> {
    set t, fd | 0 <= t < |tabs| && 0 <= fd < |tabs[t].slots| && Holds(tabs, counted, t, fd, id) :: (t, fd)
  }

  predicate InUse(objs: seq<Obj>, id: int) {
    0 <= id < |objs| && objs[id].used
  }

  /** Every counted slot is empty or holds an object in use, and every object in use is held, by as
      many slots as its reference count says. */
  ghost predicate RefsMatch(tabs: seq<Table>, counted: seq<nat>, objs: seq<Obj>) {
    && (forall t, fd, id :: Holds(tabs, counted, t, fd, id) ==> id == NO_FD || InUse(objs, id))
    && (forall id | InUse(objs, id) :: objs[id].refcnt == |Holders(tabs, counted, id)| > 0)
  }

  function Weight(o: Obj, kind: Kind, p: int): nat {
    if o.used && o.kind == kind && o.pipe == p then o.refcnt else 0
  }

  /** The summed reference counts of one kind of end of a pipe. */
  function Refs(objs: seq<Obj>, kind: Kind, p: int): nat {
    if objs == [] then 0 else Refs(objs[..|objs| - 1], kind, p) + Weight(objs[|objs| - 1], kind, p)
  }

  predicate NamesPipe(o: Obj) {
    o.used && (o.kind == PipeRead || o.kind == PipeWrite)
  }

  ghost predicate PipeMatches(objs: seq<Obj>, pipes: seq<Pipe>, p: int)
    requires 0 <= p < |pipes|
  {
    pipes[p].used ==>
      && pipes[p].readers == Refs(objs, PipeRead, p)
      && pipes[p].writers == Refs(objs, PipeWrite, p)
      && pipes[p].readers + pipes[p].writers > 0
  }

  /** Every end names a pipe in use, and every pipe in use has as many readers and writers as its ends
      have references, and at least one. */
  ghost predicate PipesMatch(objs: seq<Obj>, pipes: seq<Pipe>) {
    && (forall id | 0 <= id < |objs| :: objs[id].used ==> objs[id].refcnt > 0)
    && (forall id | 0 <= id < |objs| ::
        NamesPipe(objs[id]) ==> 0 <= objs[id].pipe < |pipes| && pipes[objs[id].pipe].used)
    && (forall p | 0 <= p < |pipes| :: PipeMatches(objs, pipes, p))
  }

  /** The two levels of reference counts are exact. */
  ghost predicate Exact(s: State) {
    Shaped(s) && RefsMatch(s.tabs, s.counted, s.objs) && PipesMatch(s.objs, s.pipes)
  }

  lemma {:induction false} RefsUpdate(objs: seq<Obj>, id: nat, o: Obj, kind: Kind, p: int)
    requires id < |objs|
    ensures Refs(objs[id := o], kind, p) == Refs(objs, kind, p) - Weight(objs[id], kind, p) + Weight(o, kind, p)
    ensures Refs(objs, kind, p) >= Weight(objs[id], kind, p)
  {
    var n := |objs| - 1;
    if id < n {
      RefsUpdate(objs[..n], id, o, kind, p);
      assert objs[id := o][..n] == objs[..n][id := o];
    } else {
      assert objs[id := o][..n] == objs[..n];
    }
  }

  lemma {:induction false} RefsZero(objs: seq<Obj>, kind: Kind, p: int)
    requires forall id | 0 <= id < |objs| :: Weight(objs[id], kind, p) == 0
    ensures Refs(objs, kind, p) == 0
  {
    if objs != [] { RefsZero(objs[..|objs| - 1], kind, p); }
  }

  lemma RefsCover(objs: seq<Obj>, id: nat, kind: Kind, p: int)
    requires id < |objs|
    ensures Refs(objs, kind, p) >= Weight(objs[id], kind, p)
  {
    RefsUpdate(objs, id, objs[id], kind, p);
  }

  /** A pipe is in use exactly when some object in use names it. */
  lemma PipeUsedIffNamed(objs: seq<Obj>, pipes: seq<Pipe>, p: nat)
    requires PipesMatch(objs, pipes) && p < |pipes|
    ensures pipes[p].used <==> exists id :: 0 <= id < |objs| && NamesPipe(objs[id]) && objs[id].pipe == p
  {
    assert PipeMatches(objs, pipes, p);
    if pipes[p].used && forall id | 0 <= id < |objs| :: NamesPipe(objs[id]) ==> objs[id].pipe != p {
      RefsZero(objs, PipeRead, p);
      RefsZero(objs, PipeWrite, p);
      assert false;
    }
  }

  /** How one slot write changes the holders of an object. */
  lemma HoldersAfterWrite(tabs: seq<Table>, counted: seq<nat>, t: nat, fd: nat, v: int, id: int)
    requires t < |tabs| == |counted| && fd < |tabs[t].slots| && fd < counted[t]
    ensures
      var tabs' := tabs[t := tabs[t].(slots := tabs[t].slots[fd := v])];
      Holders(tabs', counted, id) ==
        Holders(tabs, counted, id) - {(t as int, fd as int)} + (if v == id then {(t as int, fd as int)} else {})
  {
    var tabs' := tabs[t := tabs[t].(slots := tabs[t].slots[fd := v])];
    forall u: int, g: int
      ensures Holds(tabs', counted, u, g, id) <==>
                if u == t && g == fd then v == id else Holds(tabs, counted, u, g, id)
    {
    }
  }

  /** Close-on-exec marks do not hold anything. */
  lemma HoldersIgnoreMarks(tabs: seq<Table>, counted: seq<nat>, t: nat, marks: set<nat>, id: int)
    requires t < |tabs|
    ensures Holders(tabs[t := tabs[t].(cloexec := marks)], counted, id) == Holders(tabs, counted, id)
    ensures forall u, g :: Holds(tabs[t := tabs[t].(cloexec := marks)], counted, u, g, id) <==>
        Holds(tabs, counted, u, g, id)
  {
  }
}
