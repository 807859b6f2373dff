/** Whole runs of interleaved calls: every address space means what the locked sections say, in their order, and
    trees, calls and free set share out the same frames throughout. */
module VmmInterleavings {
  import opened Common
  import opened PageTables
  import opened TableWrites
  import opened Spaces
  import opened VmmRuns
  import opened VmmCalls
  import opened Canonical

  /** What a phase does to the plain map of a root: only a locked section of a call on that root does anything. */
  ghost function After(t: imap<VPage, Leaf>, y: System, p: Phase, r: nat): imap<VPage, Leaf> {
    if p.Lock? && p.i < |y.flights| && y.flights[p.i].root == r then Apply(t, y.flights[p.i].call, p.ok) else t
  }

  lemma SameWalksSameMeaning(m: Memory, m': Memory, root: nat)
    requires SameWalks(m, m', root)
    ensures Meaning(m', root) == Meaning(m, root)
  {
  }

  lemma LockPhase(y: System, y': System, roots: set<nat>, limit: nat, i: nat, ok: bool)
    requires Sound(y, roots, limit) && Advances(y, y', roots, Lock(i, ok))
    ensures Sound(y', roots, limit) && SameFrames(y, y', roots)
    ensures forall r | r in roots && r != y.flights[i].root :: SameWalks(y.mem, y'.mem, r)
    ensures
      var fl := y.flights[i];
      Meaning(y'.mem, fl.root) == Apply(Meaning(y.mem, fl.root), fl.call, ok)
  {
    var fl := y.flights[i];
    var m', pool' :| Locks(y, y', i, ok, m', pool');
    FlightOwns(y, roots, limit, i);
    assert Carries(y.mem, fl, roots, limit);
    SectionWorks(y.mem, fl, roots, limit, ok, m', pool');
    SectionRefines(y.mem, fl, roots, limit, ok, m', pool');
    LockKeeps(y, y', roots, limit, i, m', pool');
  }

  /** Every phase of every call keeps the system sound, loses no frame, and acts on the plain maps as its locked
      section would on one of them alone. */
  lemma PhaseKeeps(y: System, y': System, roots: set<nat>, limit: nat, p: Phase)
    requires Sound(y, roots, limit) && Advances(y, y', roots, p)
    ensures Sound(y', roots, limit) && SameFrames(y, y', roots)
    ensures forall r | r in roots :: Meaning(y'.mem, r) == After(Meaning(y.mem, r), y, p, r)
  {
    if p.Lock? {
      LockPhase(y, y', roots, limit, p.i, p.ok);
      forall r | r in roots ensures Meaning(y'.mem, r) == After(Meaning(y.mem, r), y, p, r) {
        if y.flights[p.i].root != r { SameWalksSameMeaning(y.mem, y'.mem, r); }
      }
    } else {
      OtherPhases(y, y', roots, limit, p);
      forall r | r in roots ensures Meaning(y'.mem, r) == After(Meaning(y.mem, r), y, p, r) {
        SameWalksSameMeaning(y.mem, y'.mem, r);
      }
    }
  }

  lemma OtherPhases(y: System, y': System, roots: set<nat>, limit: nat, p: Phase)
    requires Sound(y, roots, limit) && Advances(y, y', roots, p) && !p.Lock?
    ensures Sound(y', roots, limit) && SameFrames(y, y', roots) && SameTrees(y, y', roots)
  {
    match p
    case Begin(root, call) => BeginKeeps(y, y', roots, limit, root, call);
    case Draw(i, f, tb) => DrawKeeps(y, y', roots, limit, i, f, tb);
    case GiveUp(i) => GiveUpKeeps(y, y', roots, limit, i);
    case Give(i) => GiveKeeps(y, y', roots, limit, i);
  }

  /** The locked sections of the first n phases on one root, on a plain map, in order. */
  ghost function Replay(t: imap<VPage, Leaf>, run: seq<System>, phases: seq<Phase>, r: nat, n: nat): imap<VPage, Leaf>
    requires n <= |phases| < |run|
  {
    if n == 0 then t else After(Replay(t, run, phases, r, n - 1), run[n - 1], phases[n - 1], r)
  }

  /** Throughout every interleaving of calls on any number of address spaces: every root spans its own tree of
      non-empty tables, no frame is in two trees, in a tree and with a call, with two calls or free as well, no
      frame is lost, and every address space is what the locked sections on it make of a plain map, in order. */
  lemma {:induction false} RunsStaySound(run: seq<System>, phases: seq<Phase>, roots: set<nat>, limit: nat, n: nat)
    requires Interleaves(run, phases, roots) && Sound(run[0], roots, limit) && n < |run|
    ensures Sound(run[n], roots, limit) && SameFrames(run[0], run[n], roots)
    ensures forall r | r in roots :: Meaning(run[n].mem, r) == Replay(Meaning(run[0].mem, r), run, phases, r, n)
  {
    if n > 0 {
      RunsStaySound(run, phases, roots, limit, n - 1);
      assert AdvancesAt(run, phases, roots, n - 1);
      PhaseKeeps(run[n - 1], run[n], roots, limit, phases[n - 1]);
    }
  }

  // ---- A call acts once ----

  /** The phase ends the first part of call i: its locked section, or giving up. */
  predicate Decides(p: Phase, i: nat) {
    (p.Lock? || p.GiveUp?) && p.i == i
  }

  lemma FlightsStay(y: System, y': System, roots: set<nat>, p: Phase, i: nat)
    requires Advances(y, y', roots, p) && i < |y.flights|
    ensures i < |y'.flights|
    ensures y'.flights[i].root == y.flights[i].root && y'.flights[i].call == y.flights[i].call
    ensures y.flights[i].locked || Decides(p, i) ==> y'.flights[i].locked
  {
    if p.Lock? { var m', pool' :| Locks(y, y', p.i, p.ok, m', pool'); }
  }

  lemma {:induction false} StaysDecided(run: seq<System>, phases: seq<Phase>, roots: set<nat>, j: nat, n: nat, i: nat)
    requires Interleaves(run, phases, roots) && j < n < |run| && Decides(phases[j], i)
    ensures i < |run[n].flights| && run[n].flights[i].locked
    decreases n
  {
    assert AdvancesAt(run, phases, roots, n - 1);
    if n == j + 1 {
      FlightsStay(run[j], run[n], roots, phases[j], i);
    } else {
      StaysDecided(run, phases, roots, j, n - 1, i);
      FlightsStay(run[n - 1], run[n], roots, phases[n - 1], i);
    }
  }

  /** A call does its locked section at most once, and not after it gave up. */
  lemma CallActsOnce(run: seq<System>, phases: seq<Phase>, roots: set<nat>, j: nat, k: nat, i: nat)
    requires Interleaves(run, phases, roots) && j < |phases| && k < |phases|
    requires Decides(phases[j], i) && Decides(phases[k], i)
    ensures j == k
  {
    if j != k {
      var a, b := Min(j, k), if j < k then k else j;
      assert AdvancesAt(run, phases, roots, b);
      assert !run[b].flights[i].locked;
      StaysDecided(run, phases, roots, a, b, i);
    }
  }

  // ---- No leak ----

  /** No call holds a frame. */
  predicate Quiet(y: System) {
    forall i | 0 <= i < |y.flights| :: y.flights[i].pool == []
  }

  ghost function TreeFrames(m: Memory, roots: set<nat>): set<nat> {
    set r, f | r in roots && f in Tables(m, r) :: f
  }

  lemma SomewhereWhenQuiet(y: System, roots: set<nat>, f: nat)
    requires Quiet(y)
    ensures Somewhere(y, roots, f) <==> f in y.free + TreeFrames(y.mem, roots)
  {
    if p :| At(y, roots, f, p) {
      assert !p.Pool?;
    }
    if f in y.free { assert At(y, roots, f, Unused); }
    if f in TreeFrames(y.mem, roots) {
      var r :| r in roots && f in Tables(y.mem, r);
      assert At(y, roots, f, Tree(r));
    }
  }

  lemma TreesApart(y: System, roots: set<nat>, limit: nat, r: nat, q: nat)
    requires Sound(y, roots, limit) && r in roots && q in roots && r != q
    ensures Tables(y.mem, r) !! Tables(y.mem, q)
  {
    forall f | f in Tables(y.mem, r) ensures f !in Tables(y.mem, q) {
      assert At(y, roots, f, Tree(r));
      assert !At(y, roots, f, Tree(q));
    }
  }

  lemma FramesSplit(m: Memory, some: set<nat>, r: nat)
    requires r in some
    ensures TreeFrames(m, some) == TreeFrames(m, some - {r}) + Tables(m, r)
  {
    forall f ensures f in TreeFrames(m, some) <==> f in TreeFrames(m, some - {r}) + Tables(m, r) {
      if f in TreeFrames(m, some) {
        var q :| q in some && f in Tables(m, q);
        assert q == r || q in some - {r};
      }
    }
  }

  lemma OneTreeMore(y: System, roots: set<nat>, limit: nat, some: set<nat>, r: nat)
    requires Sound(y, roots, limit) && some <= roots && r in some
    ensures |TreeFrames(y.mem, some)| == |TreeFrames(y.mem, some - {r})| + |Tables(y.mem, r)|
  {
    var rest := TreeFrames(y.mem, some - {r});
    forall f | f in rest ensures f !in Tables(y.mem, r) {
      var q :| q in some - {r} && f in Tables(y.mem, q);
      TreesApart(y, roots, limit, r, q);
    }
    FramesSplit(y.mem, some, r);
  }

  lemma SameMeaningSameSize(m: Memory, m': Memory, root: nat, limit: nat)
    requires Rooted(m, root, limit) && Rooted(m', root, limit) && Meaning(m', root) == Meaning(m, root)
    ensures |Tables(m', root)| == |Tables(m, root)|
  {
    SameTranslationSameWalks(Space(m, {}), Space(m', {}), root);
    SameWalksSameSize(m, root, m', root);
  }

  lemma {:induction false} SameForestSize(y: System, y': System, roots: set<nat>, limit: nat, some: set<nat>)
    requires Sound(y, roots, limit) && Sound(y', roots, limit) && some <= roots
    requires forall r | r in roots :: Meaning(y'.mem, r) == Meaning(y.mem, r)
    ensures |TreeFrames(y'.mem, some)| == |TreeFrames(y.mem, some)|
    decreases some
  {
    if some == {} {
      assert TreeFrames(y.mem, some) == TreeFrames(y'.mem, some) == {};
    } else {
      var r :| r in some;
      SameMeaningSameSize(y.mem, y'.mem, r, limit);
      OneTreeMore(y, roots, limit, some, r);
      OneTreeMore(y', roots, limit, some, r);
      SameForestSize(y, y', roots, limit, some - {r});
    }
  }

  lemma FreeApartFromTrees(y: System, roots: set<nat>, limit: nat)
    requires Sound(y, roots, limit)
    ensures y.free !! TreeFrames(y.mem, roots)
    ensures |y.free + TreeFrames(y.mem, roots)| == |y.free| + |TreeFrames(y.mem, roots)|
  {
    forall f | f in TreeFrames(y.mem, roots) ensures f !in y.free {
      var r :| r in roots && f in Tables(y.mem, r);
      assert At(y, roots, f, Tree(r));
      assert !At(y, roots, f, Unused);
    }
  }

  /** No interleaving leaks: whenever no call holds a frame at the start and at the end and every address space
      ends with the translations it began with, as many frames are free. */
  lemma NoInterleavingLeaks(run: seq<System>, phases: seq<Phase>, roots: set<nat>, limit: nat)
    requires Interleaves(run, phases, roots) && Sound(run[0], roots, limit)
    requires Quiet(run[0]) && Quiet(run[|phases|])
    requires forall r | r in roots :: Meaning(run[|phases|].mem, r) == Meaning(run[0].mem, r)
    ensures |run[|phases|].free| == |run[0].free|
  {
    var y, y' := run[0], run[|phases|];
    RunsStaySound(run, phases, roots, limit, |phases|);
    SameForestSize(y, y', roots, limit, roots);
    FreeApartFromTrees(y, roots, limit);
    FreeApartFromTrees(y', roots, limit);
    forall f ensures f in y'.free + TreeFrames(y'.mem, roots) <==> f in y.free + TreeFrames(y.mem, roots) {
      SomewhereWhenQuiet(y, roots, f);
      SomewhereWhenQuiet(y', roots, f);
      assert Somewhere(y', roots, f) <==> Somewhere(y, roots, f);
    }
    assert y'.free + TreeFrames(y'.mem, roots) == y.free + TreeFrames(y.mem, roots);
  }

  // ---- Where runs start ----

  /** Zeroed roots that are not free, with no call in flight, are a sound start. */
  lemma ZeroRootsSound(m: Memory, free: set<nat>, roots: set<nat>, limit: nat)
    requires (forall f: nat | f < limit :: f in m) && (forall f | f in free :: 0 < f < limit)
    requires forall r | r in roots :: r != 0 && r in m && IsEmpty(m[r]) && r !in free
    ensures Sound(System(m, free, []), roots, limit) && Quiet(System(m, free, []))
  {
    var y := System(m, free, []);
    forall r | r in roots ensures Rooted(m, r, limit) && Tables(m, r) == {r} {
      ZeroRootIsOwned(Space(m, free), r, limit);
    }
    forall f, p, q | At(y, roots, f, p) && At(y, roots, f, q) ensures p == q {
    }
  }
}
