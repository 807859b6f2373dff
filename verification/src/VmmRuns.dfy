/** Whole runs of map, large map and unmap on one address space. */
module VmmRuns {
  import opened PageTables
  import opened TableWrites
  import opened Spaces
  import opened VmmSteps
  import opened Canonical

  /** The plain map from virtual page to leaf that an address space stands for. */
  ghost function Translation(s: Space, root: nat): imap<VPage, Leaf> {
    imap v | Walk(s.mem, root, v).Some? :: Walk(s.mem, root, v).value
  }

  /** The same calls on a plain map. */
  ghost function Apply(t: imap<VPage, Leaf>, call: Call, ok: bool): imap<VPage, Leaf> {
    match call
    case Map(v, e) => if ok then t[v := Leaf(e, 3)] else t
    case MapLarge(v, e) =>
      if ok then
        imap w: VPage | w in t || w.Prefix(3) == v.Prefix(3) ::
          if w.Prefix(3) == v.Prefix(3) then Leaf(e, 2) else t[w]
      else t
    case Unmap(v) => if v in t && t[v].level == 3 then imap w | w in t && w != v :: t[w] else t
  }

  lemma UnmapWithoutTable(m: Memory, root: nat, v: VPage)
    requires TableAt(m, root, v.Prefix(3)) == None
    ensures Walk(m, root, v).Some? ==> Walk(m, root, v).value.level < 3
  {
    if Walk(m, root, v).Some? && Walk(m, root, v).value.level >= 3 {
      assert Reaches(m, root, v.Prefix(0), root);
      WalkHasTables(m, root, v, 3, 0, root);
      assert false;
    }
  }

  lemma UnmapWithTable(m: Memory, root: nat, v: VPage)
    requires TableAt(m, root, v.Prefix(3)).Some?
    ensures Walk(m, root, v).Some? ==> Walk(m, root, v).value.level == 3
  {
    WalkContinues(m, root, v, 3, TableAt(m, root, v.Prefix(3)).value);
  }

  lemma PointUpdate(s: Space, s': Space, root: nat, v: VPage, e: Entry)
    requires Walk(s'.mem, root, v) == Some(Leaf(e, 3))
    requires forall w | w != v :: Walk(s'.mem, root, w) == Walk(s.mem, root, w)
    ensures Translation(s', root) == Translation(s, root)[v := Leaf(e, 3)]
  {
  }

  lemma BlockUpdate(s: Space, s': Space, root: nat, v: VPage, e: Entry)
    requires forall w: VPage | w.Prefix(3) == v.Prefix(3) :: Walk(s'.mem, root, w) == Some(Leaf(e, 2))
    requires forall w: VPage | w.Prefix(3) != v.Prefix(3) :: Walk(s'.mem, root, w) == Walk(s.mem, root, w)
    ensures Translation(s', root) == Apply(Translation(s, root), MapLarge(v, e), true)
  {
    var t, t' := Apply(Translation(s, root), MapLarge(v, e), true), Translation(s', root);
    forall w: VPage ensures (w in t <==> w in t') && (w in t ==> t[w] == t'[w]) {
      assert w.Prefix(3) == v.Prefix(3) || w.Prefix(3) != v.Prefix(3);
    }
  }

  lemma PointRemoval(s: Space, s': Space, root: nat, v: VPage)
    requires Walk(s'.mem, root, v) == None
    requires Walk(s.mem, root, v).Some? ==> Walk(s.mem, root, v).value.level == 3
    requires forall w | w != v :: Walk(s'.mem, root, w) == Walk(s.mem, root, w)
    ensures Translation(s', root) == Apply(Translation(s, root), Unmap(v), true)
  {
  }

  lemma NoUpdate(s: Space, s': Space, root: nat)
    requires SameWalks(s.mem, s'.mem, root)
    ensures Translation(s', root) == Translation(s, root)
  {
  }

  /** Every call acts on the translation as it would on a plain map. */
  lemma StepRefines(s: Space, s': Space, root: nat, limit: nat, call: Call, ok: bool)
    requires root != 0 && Owns(s, root, limit) && Step(s, s', root, call, ok)
    ensures Translation(s', root) == Apply(Translation(s, root), call, ok)
  {
    StepKeepsOwned(s, s', root, limit, call, ok);
    if !ok {
      FailureIsInvisible(s, s', root, limit);
      NoUpdate(s, s', root);
      if call.Unmap? { UnmapWithoutTable(s.mem, root, call.v); }
    } else {
      match call
      case Map(v, e) => PointUpdate(s, s', root, v, e);
      case MapLarge(v, e) => BlockUpdate(s, s', root, v, e);
      case Unmap(v) =>
        UnmapWithTable(s.mem, root, v);
        PointRemoval(s, s', root, v);
    }
  }

  /** Every call moves frames only between the tree and the free set, and nothing is in both. */
  lemma StepConserves(s: Space, s': Space, root: nat, limit: nat, call: Call, ok: bool)
    requires root != 0 && Owns(s, root, limit) && Step(s, s', root, call, ok)
    ensures Tables(s'.mem, root) + s'.free == Tables(s.mem, root) + s.free
    ensures Tables(s'.mem, root) !! s'.free
  {
    StepKeepsOwned(s, s', root, limit, call, ok);
    if !ok { FailureIsInvisible(s, s', root, limit); }
  }

  /** A run: states, and between them calls with their results. */
  ghost predicate IsRun(run: seq<Space>, calls: seq<Call>, oks: seq<bool>, root: nat, limit: nat) {
    && root != 0 && |run| == |calls| + 1 && |oks| == |calls|
    && Owns(run[0], root, limit)
    && forall i: int :: StepAt(run, calls, oks, root, i)
  }

  ghost predicate StepAt(run: seq<Space>, calls: seq<Call>, oks: seq<bool>, root: nat, i: int) {
    0 <= i < |calls| && |run| == |calls| + 1 && |oks| == |calls| ==>
      Step(run[i], run[i + 1], root, calls[i], oks[i])
  }

  /** The first n calls on a plain map. */
  ghost function ApplyAll(t: imap<VPage, Leaf>, calls: seq<Call>, oks: seq<bool>, n: nat): imap<VPage, Leaf>
    requires n <= |calls| == |oks|
  {
    if n == 0 then t else Apply(ApplyAll(t, calls, oks, n - 1), calls[n - 1], oks[n - 1])
  }

  /** Throughout every run from an owned state the four-level tables refine the plain map, the tables in the
      tree and the free frames partition the same set of frames, and the state is owned. */
  lemma {:induction false} RunRefines(run: seq<Space>, calls: seq<Call>, oks: seq<bool>, root: nat, limit: nat, n: nat)
    requires IsRun(run, calls, oks, root, limit) && n <= |calls|
    ensures
      && Owns(run[n], root, limit)
      && Translation(run[n], root) == ApplyAll(Translation(run[0], root), calls, oks, n)
      && Tables(run[n].mem, root) + run[n].free == Tables(run[0].mem, root) + run[0].free
      && Tables(run[n].mem, root) !! run[n].free
  {
    if n > 0 {
      RunRefines(run, calls, oks, root, limit, n - 1);
      assert StepAt(run, calls, oks, root, n - 1);
      StepKeepsOwned(run[n - 1], run[n], root, limit, calls[n - 1], oks[n - 1]);
      StepRefines(run[n - 1], run[n], root, limit, calls[n - 1], oks[n - 1]);
      StepConserves(run[n - 1], run[n], root, limit, calls[n - 1], oks[n - 1]);
    }
  }

  lemma SameTranslationSameWalks(s: Space, s': Space, root: nat)
    requires Translation(s, root) == Translation(s', root)
    ensures forall v :: Walk(s'.mem, root, v) == Walk(s.mem, root, v)
  {
    forall v ensures Walk(s'.mem, root, v) == Walk(s.mem, root, v) {
      assert v in Translation(s, root) <==> v in Translation(s', root);
      if v in Translation(s, root) {
        assert Translation(s, root)[v] == Translation(s', root)[v];
      }
    }
  }

  /** Two owned states with the same translations that share the same frames have equally many free. */
  lemma SameTranslationSameFree(s: Space, s': Space, root: nat, limit: nat)
    requires Owns(s, root, limit) && Owns(s', root, limit) && Translation(s', root) == Translation(s, root)
    requires Tables(s'.mem, root) + s'.free == Tables(s.mem, root) + s.free
    ensures |s'.free| == |s.free|
  {
    SameTranslationSameWalks(s, s', root);
    SameWalksSameSize(s.mem, root, s'.mem, root);
    var a, b := Tables(s.mem, root), Tables(s'.mem, root);
    assert |a + s.free| == |a| + |s.free|;
    assert |b + s'.free| == |b| + |s'.free|;
  }

  /** No run leaks: whenever it ends with the translations it started with, as many frames are free. */
  lemma NoLeak(run: seq<Space>, calls: seq<Call>, oks: seq<bool>, root: nat, limit: nat)
    requires IsRun(run, calls, oks, root, limit)
    requires Translation(run[|calls|], root) == Translation(run[0], root)
    ensures |run[|calls|].free| == |run[0].free|
  {
    RunRefines(run, calls, oks, root, limit, |calls|);
    SameTranslationSameFree(run[0], run[|calls|], root, limit);
  }

  /** After a successful map of a page its unmap finds the tables. */
  lemma UnmapFindsMapped(s0: Space, s1: Space, root: nat, limit: nat, v: VPage, e: Entry)
    requires root != 0 && Owns(s0, root, limit) && Step(s0, s1, root, Map(v, e), true)
    ensures TableAt(s1.mem, root, v.Prefix(3)).Some?
  {
    StepKeepsOwned(s0, s1, root, limit, Map(v, e), true);
    assert Reaches(s1.mem, root, v.Prefix(0), root);
    WalkHasTables(s1.mem, root, v, 3, 0, root);
  }

  /** Mapping a page that was not mapped and unmapping it again: the unmap succeeds, and every translation and
      the number of free frames are as before. */
  lemma MapThenUnmap(s0: Space, s1: Space, s2: Space, root: nat, limit: nat, v: VPage, e: Entry, ok: bool)
    requires root != 0 && Owns(s0, root, limit) && Walk(s0.mem, root, v) == None
    requires Step(s0, s1, root, Map(v, e), true)
    requires Step(s1, s2, root, Unmap(v), ok)
    ensures ok && Translation(s2, root) == Translation(s0, root) && |s2.free| == |s0.free|
  {
    UnmapFindsMapped(s0, s1, root, limit, v, e);
    StepKeepsOwned(s0, s1, root, limit, Map(v, e), true);
    StepKeepsOwned(s1, s2, root, limit, Unmap(v), true);
    StepRefines(s0, s1, root, limit, Map(v, e), true);
    StepRefines(s1, s2, root, limit, Unmap(v), true);
    PutThenRemove(Translation(s0, root), v, e);
    SameTranslationSameFree(s0, s2, root, limit);
  }

  lemma PutThenRemove(t: imap<VPage, Leaf>, v: VPage, e: Entry)
    requires v !in t
    ensures Apply(Apply(t, Map(v, e), true), Unmap(v), true) == t
  {
  }
}
