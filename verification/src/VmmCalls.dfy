/** Calls in flight: any number of map and unmap calls on any number of address spaces, interleaved at the locks
    the kernel takes. A call draws its tables one by one, does its locked section and gives frames back one by
    one; other calls run in between. */
module VmmCalls {
  import opened Common
  import opened PageTables
  import opened TableWrites
  import opened Descent
  import opened Spaces
  import opened Mapping
  import opened VmmSteps
  import opened VmmRuns

  /** A call: its address space, and the frames it has drawn, or after its locked section has to give back. */
  datatype Flight = Flight(root: nat, call: Call, pool: seq<nat>, locked: bool)

  datatype System = System(mem: Memory, free: set<nat>, flights: seq<Flight>)

  /** Where a frame is: free, in the tree of a root, or with a call. */
  datatype Place = Unused | Tree(root: nat) | Pool(i: nat)

  ghost predicate At(y: System, roots: set<nat>, f: nat, p: Place) {
    match p
    case Unused => f in y.free
    case Tree(r) => r in roots && f in Tables(y.mem, r)
    case Pool(i) => i < |y.flights| && f in y.flights[i].pool
  }

  /** How many tables a call draws. */
  function Need(call: Call): nat {
    match call
    case Map(_, _) => 3
    case MapLarge(_, _) => 2
    case Unmap(_) => 0
  }

  ghost predicate Rooted(m: Memory, root: nat, limit: nat) {
    && root != 0 && TreeShaped(m, root) && NoEmptyTable(m, root, Root)
    && forall t | t in Tables(m, root) && t != root :: 0 < t < limit
  }

  ghost predicate Carries(m: Memory, fl: Flight, roots: set<nat>, limit: nat) {
    && fl.root in roots
    && (forall j, k | 0 <= j < k < |fl.pool| :: fl.pool[j] != fl.pool[k])
    && (forall f | f in fl.pool :: 0 < f < limit)
    && (!fl.locked ==> |fl.pool| <= Need(fl.call) && forall f | f in fl.pool :: f in m && IsEmpty(m[f]))
  }

  /** No frame is in two places. */
  ghost predicate OnePlace(y: System, roots: set<nat>) {
    forall f, p, q :: At(y, roots, f, p) && At(y, roots, f, q) ==> p == q
  }

  ghost predicate Sound(y: System, roots: set<nat>, limit: nat) {
    && (forall f: nat | f < limit :: f in y.mem)
    && (forall f | f in y.free :: 0 < f < limit)
    && (forall r | r in roots :: Rooted(y.mem, r, limit))
    && (forall i | 0 <= i < |y.flights| :: Carries(y.mem, y.flights[i], roots, limit))
    && OnePlace(y, roots)
  }

  /** The frames that are anywhere are the same. */
  ghost predicate SameFrames(y: System, y': System, roots: set<nat>) {
    forall f :: Somewhere(y', roots, f) <==> Somewhere(y, roots, f)
  }

  ghost predicate Somewhere(y: System, roots: set<nat>, f: nat) {
    exists p :: At(y, roots, f, p)
  }

  // ---- The phases ----

  datatype Phase =
    | Begin(root: nat, call: Call)
    | Draw(i: nat, f: nat, tb: Table)
    | GiveUp(i: nat)
    | Lock(i: nat, ok: bool)
    | Give(i: nat)

  /** The locked section of a call: the memory and the frames it leaves with the call. */
  ghost predicate Section(m: Memory, fl: Flight, ok: bool, m': Memory, pool': seq<nat>) {
    && Allowed(Space(m, {}), fl.root, fl.call)
    && match fl.call
       case Map(v, e) => ok && var d := MapLocked(m, fl.root, v, e, fl.pool); m' == d.mem && pool' == d.pool
       case MapLarge(v, e) =>
         ok && var d := MapLargeLocked(m, fl.root, v, e, fl.pool); m' == d.mem && pool' == d.pool
       case Unmap(v) =>
         && (ok <==> TableAt(m, fl.root, v.Prefix(3)).Some?)
         && (if ok then exists c :: Empties(m, fl.root, v, c, m', pool') else m' == m && pool' == [])
  }

  ghost predicate Empties(m: Memory, root: nat, v: VPage, c: Chain, m': Memory, freed: seq<nat>) {
    && Follows(m, root, v, c, 3) && c.In(m)
    && var r := Collapse(Put(m, c.pt, v.i3, ZERO), v, c, 3); m' == r.mem && freed == r.freed
  }

  function SetPool(y: System, i: nat, pool: seq<nat>): System
    requires i < |y.flights|
  {
    y.(flights := y.flights[i := y.flights[i].(pool := pool)])
  }

  function SetLocked(y: System, i: nat): System
    requires i < |y.flights|
  {
    y.(flights := y.flights[i := y.flights[i].(locked := true)])
  }

  /** alloc_table takes any free frame and zeroes it; it fails only when none is free. The locked section runs
      once the pool is full. Frames are given back in order. */
  ghost predicate Advances(y: System, y': System, roots: set<nat>, p: Phase) {
    match p
    case Begin(root, call) => root in roots && y' == y.(flights := y.flights + [Flight(root, call, [], false)])
    case Draw(i, f, tb) =>
      && i < |y.flights| && !y.flights[i].locked && |y.flights[i].pool| < Need(y.flights[i].call)
      && f in y.free && IsEmpty(tb)
      && y' == SetPool(y.(mem := y.mem[f := tb], free := y.free - {f}), i, y.flights[i].pool + [f])
    case GiveUp(i) =>
      && i < |y.flights| && !y.flights[i].locked && |y.flights[i].pool| < Need(y.flights[i].call)
      && y.free == {} && y' == SetLocked(y, i)
    case Lock(i, ok) =>
      && i < |y.flights| && !y.flights[i].locked && |y.flights[i].pool| == Need(y.flights[i].call)
      && exists m', pool' :: Locks(y, y', i, ok, m', pool')
    case Give(i) =>
      && i < |y.flights| && y.flights[i].locked && y.flights[i].pool != []
      && y' == SetPool(y.(free := y.free + {y.flights[i].pool[0]}), i, y.flights[i].pool[1..])
  }

  ghost predicate Locks(y: System, y': System, i: nat, ok: bool, m': Memory, pool': seq<nat>)
    requires i < |y.flights|
  {
    Section(y.mem, y.flights[i], ok, m', pool') && y' == SetLocked(SetPool(y.(mem := m'), i, pool'), i)
  }

  ghost predicate Interleaves(run: seq<System>, phases: seq<Phase>, roots: set<nat>) {
    |run| == |phases| + 1 && forall i: int :: AdvancesAt(run, phases, roots, i)
  }

  ghost predicate AdvancesAt(run: seq<System>, phases: seq<Phase>, roots: set<nat>, i: int) {
    0 <= i < |phases| && |run| == |phases| + 1 ==> Advances(run[i], run[i + 1], roots, phases[i])
  }

  // ---- Frames move between two places ----

  /** Frames move only between two places, and none ends up in both. */
  ghost predicate Shifts(y: System, y': System, roots: set<nat>, a: Place, b: Place) {
    && (forall f, p | p != a && p != b :: At(y', roots, f, p) <==> At(y, roots, f, p))
    && (forall f :: At(y', roots, f, a) || At(y', roots, f, b) <==> At(y, roots, f, a) || At(y, roots, f, b))
    && (forall f :: At(y', roots, f, a) ==> !At(y', roots, f, b))
  }

  lemma ShiftedOnce(y: System, y': System, roots: set<nat>, a: Place, b: Place, f: nat, p: Place, q: Place)
    requires OnePlace(y, roots) && Shifts(y, y', roots, a, b) && At(y', roots, f, p) && At(y', roots, f, q)
    ensures p == q
  {
    assert At(y', roots, f, a) ==> !At(y', roots, f, b);
    if p != a && p != b { assert At(y, roots, f, p); }
    if q != a && q != b { assert At(y, roots, f, q); }
  }

  lemma ShiftKeepsPlaces(y: System, y': System, roots: set<nat>, a: Place, b: Place)
    requires OnePlace(y, roots) && Shifts(y, y', roots, a, b) && a != b
    ensures OnePlace(y', roots) && SameFrames(y, y', roots)
  {
    forall f, p, q | At(y', roots, f, p) && At(y', roots, f, q) ensures p == q {
      ShiftedOnce(y, y', roots, a, b, f, p, q);
    }
    forall f ensures Somewhere(y', roots, f) <==> Somewhere(y, roots, f) {
      if p :| At(y', roots, f, p) && p != a && p != b { assert At(y, roots, f, p); }
      if p :| At(y, roots, f, p) && p != a && p != b { assert At(y', roots, f, p); }
    }
  }

  /** Every tree is as it was. */
  ghost predicate SameTrees(y: System, y': System, roots: set<nat>) {
    forall r | r in roots :: Tables(y'.mem, r) == Tables(y.mem, r) && SameWalks(y.mem, y'.mem, r)
  }

  /** Writes outside a tree leave it as it is. */
  lemma TreeStays(m: Memory, m': Memory, root: nat, limit: nat)
    requires Rooted(m, root, limit) && m'.Keys == m.Keys
    requires forall t | t in Tables(m, root) :: m'[t] == m[t]
    ensures Rooted(m', root, limit) && Tables(m', root) == Tables(m, root) && SameWalks(m, m', root)
  {
    SameOnTables(m, m', root);
  }

  // ---- What each phase keeps ----

  lemma BeginKeeps(y: System, y': System, roots: set<nat>, limit: nat, root: nat, call: Call)
    requires Sound(y, roots, limit) && Advances(y, y', roots, Begin(root, call))
    ensures Sound(y', roots, limit) && SameFrames(y, y', roots) && SameTrees(y, y', roots)
  {
    var n := |y.flights|;
    forall f, p ensures At(y', roots, f, p) <==> At(y, roots, f, p) {
      if p.Pool? && p.i == n { assert y'.flights[n].pool == []; }
    }
  }

  lemma GiveUpKeeps(y: System, y': System, roots: set<nat>, limit: nat, i: nat)
    requires Sound(y, roots, limit) && Advances(y, y', roots, GiveUp(i))
    ensures Sound(y', roots, limit) && SameFrames(y, y', roots) && SameTrees(y, y', roots)
  {
    forall f, p ensures At(y', roots, f, p) <==> At(y, roots, f, p) {
    }
  }

  lemma DrawTrees(y: System, roots: set<nat>, limit: nat, f: nat, tb: Table)
    requires Sound(y, roots, limit) && f in y.free
    ensures f in y.mem
    ensures forall r | r in roots ::
              && Rooted(y.mem[f := tb], r, limit) && Tables(y.mem[f := tb], r) == Tables(y.mem, r)
              && SameWalks(y.mem, y.mem[f := tb], r)
  {
    forall r | r in roots
      ensures Rooted(y.mem[f := tb], r, limit) && Tables(y.mem[f := tb], r) == Tables(y.mem, r)
      ensures SameWalks(y.mem, y.mem[f := tb], r)
    {
      assert At(y, roots, f, Unused);
      assert !At(y, roots, f, Tree(r));
      TreeStays(y.mem, y.mem[f := tb], r, limit);
    }
  }

  lemma DrawKeeps(y: System, y': System, roots: set<nat>, limit: nat, i: nat, f: nat, tb: Table)
    requires Sound(y, roots, limit) && Advances(y, y', roots, Draw(i, f, tb))
    ensures Sound(y', roots, limit) && SameFrames(y, y', roots) && SameTrees(y, y', roots)
  {
    DrawTrees(y, roots, limit, f, tb);
    assert At(y, roots, f, Unused);
    forall g, p ensures At(y', roots, g, p) <==> if g == f then p == Pool(i) else At(y, roots, g, p) {
      if g == f && p != Pool(i) { assert p != Unused ==> !At(y, roots, f, p); }
    }
    assert Shifts(y, y', roots, Unused, Pool(i));
    ShiftKeepsPlaces(y, y', roots, Unused, Pool(i));
    forall k | 0 <= k < |y'.flights| ensures Carries(y'.mem, y'.flights[k], roots, limit) {
      assert Carries(y.mem, y.flights[k], roots, limit);
      assert !At(y, roots, f, Pool(k));
    }
  }

  lemma RestCarried(m: Memory, fl: Flight, roots: set<nat>, limit: nat)
    requires Carries(m, fl, roots, limit) && fl.locked && fl.pool != []
    ensures Carries(m, fl.(pool := fl.pool[1..]), roots, limit) && fl.pool[0] !in fl.pool[1..]
    ensures forall f :: f in fl.pool <==> f == fl.pool[0] || f in fl.pool[1..]
  {
    var rest := fl.pool[1..];
    assert fl.pool == [fl.pool[0]] + rest;
    forall f | f in rest ensures f in fl.pool {
    }
  }

  lemma GiveKeeps(y: System, y': System, roots: set<nat>, limit: nat, i: nat)
    requires Sound(y, roots, limit) && Advances(y, y', roots, Give(i))
    ensures Sound(y', roots, limit) && SameFrames(y, y', roots) && SameTrees(y, y', roots)
  {
    var f := y.flights[i].pool[0];
    RestCarried(y.mem, y.flights[i], roots, limit);
    assert At(y, roots, f, Pool(i));
    forall g, p ensures At(y', roots, g, p) <==> if g == f then p == Unused else At(y, roots, g, p) {
      if g == f && p != Pool(i) { assert !At(y, roots, f, p); }
    }
    assert Shifts(y, y', roots, Unused, Pool(i));
    ShiftKeepsPlaces(y, y', roots, Unused, Pool(i));
  }

  /** The frames a call carries, next to the tree it works on, are an owned address space of their own. */
  ghost function Own(m: Memory, pool: seq<nat>): Space {
    Space(m, Elements(pool))
  }

  ghost predicate Apart(m: Memory, fl: Flight, limit: nat) {
    && Rooted(m, fl.root, limit) && (forall f: nat | f < limit :: f in m)
    && Elements(fl.pool) !! Tables(m, fl.root)
  }

  lemma FlightOwns(y: System, roots: set<nat>, limit: nat, i: nat)
    requires Sound(y, roots, limit) && i < |y.flights|
    ensures Apart(y.mem, y.flights[i], limit) && Owns(Own(y.mem, y.flights[i].pool), y.flights[i].root, limit)
  {
    var fl := y.flights[i];
    assert Carries(y.mem, fl, roots, limit);
    forall f | f in Elements(fl.pool) ensures f !in Tables(y.mem, fl.root) {
      assert At(y, roots, f, Pool(i));
      assert !At(y, roots, f, Tree(fl.root));
    }
  }

  lemma PoolIsDrawn(m: Memory, fl: Flight, roots: set<nat>, limit: nat)
    requires Carries(m, fl, roots, limit) && !fl.locked
    ensures PoolDrawn(Own(m, fl.pool), m, fl.pool) && |Elements(fl.pool)| == |fl.pool|
  {
    ElementsSize(fl.pool);
  }

  predicate Distinct(pool: seq<nat>) {
    forall j, k | 0 <= j < k < |pool| :: pool[j] != pool[k]
  }

  lemma SettledOwn(m: Memory, pool: seq<nat>, d: Descended)
    ensures Settle(Own(m, pool), pool, d) == Own(d.mem, d.pool)
  {
  }

  lemma MapSection(s: Space, m: Memory, root: nat, limit: nat, v: VPage, e: Entry, pool: seq<nat>)
    requires Owns(s, root, limit) && root != 0 && PoolDrawn(s, m, pool) && |pool| == |s.free| == 3
    requires Allowed(s, root, Map(v, e)) && s == Own(m, pool)
    ensures
      var d := MapLocked(m, root, v, e, pool);
      Step(s, Own(d.mem, d.pool), root, Map(v, e), true) && Distinct(d.pool)
  {
    var d := MapLocked(m, root, v, e, pool);
    assert Distinct(d.pool) by { MapIsPointUpdate(s, m, root, limit, v, e, pool); }
    SettledOwn(m, pool, d);
    assert MapsBy(s, Own(d.mem, d.pool), root, v, e, m, pool);
  }

  lemma MapLargeSection(s: Space, m: Memory, root: nat, limit: nat, v: VPage, e: Entry, pool: seq<nat>)
    requires Owns(s, root, limit) && root != 0 && PoolDrawn(s, m, pool) && |pool| == |s.free| == 2
    requires Allowed(s, root, MapLarge(v, e)) && s == Own(m, pool)
    ensures
      var d := MapLargeLocked(m, root, v, e, pool);
      Step(s, Own(d.mem, d.pool), root, MapLarge(v, e), true) && Distinct(d.pool)
  {
    var d := MapLargeLocked(m, root, v, e, pool);
    assert Distinct(d.pool) by { LargeMapIsBlockUpdate(s, m, root, limit, v, e, pool); }
    SettledOwn(m, pool, d);
    assert MapsLargeBy(s, Own(d.mem, d.pool), root, v, e, m, pool);
  }

  lemma UnmapSection(s: Space, root: nat, limit: nat, v: VPage, c: Chain, m': Memory, freed: seq<nat>)
    requires Owns(s, root, limit) && s.free == {} && Empties(s.mem, root, v, c, m', freed)
    ensures Step(s, Own(m', freed), root, Unmap(v), true) && Distinct(freed)
  {
    assert Distinct(freed) by { UnmapRemovesOne(s, root, limit, v, c); }
    assert Own(m', freed) == Space(m', s.free + Elements(freed));
    assert UnmapsBy(s, Own(m', freed), root, v, c);
    assert Reaches(s.mem, root, v.Prefix(3), c.At(3));
  }

  /** A locked section is a step of the call on that address space. */
  lemma SectionSteps(m: Memory, fl: Flight, roots: set<nat>, limit: nat, ok: bool, m': Memory, pool': seq<nat>)
    requires Owns(Own(m, fl.pool), fl.root, limit) && fl.root != 0
    requires Carries(m, fl, roots, limit) && !fl.locked && |fl.pool| == Need(fl.call)
    requires Section(m, fl, ok, m', pool')
    ensures Step(Own(m, fl.pool), Own(m', pool'), fl.root, fl.call, ok) && Distinct(pool')
  {
    var s := Own(m, fl.pool);
    PoolIsDrawn(m, fl, roots, limit);
    match fl.call
    case Map(v, e) => MapSection(s, m, fl.root, limit, v, e, fl.pool);
    case MapLarge(v, e) => MapLargeSection(s, m, fl.root, limit, v, e, fl.pool);
    case Unmap(v) =>
      assert fl.pool == [];
      if ok {
        var c :| Empties(m, fl.root, v, c, m', pool');
        UnmapSection(s, fl.root, limit, v, c, m', pool');
      }
  }

  /** What a locked section does to the frames it may touch. */
  ghost predicate Works(m: Memory, fl: Flight, m': Memory, pool': seq<nat>, limit: nat) {
    && Rooted(m', fl.root, limit) && m'.Keys == m.Keys && Distinct(pool')
    && Tables(m', fl.root) + Elements(pool') == Tables(m, fl.root) + Elements(fl.pool)
    && Tables(m', fl.root) !! Elements(pool')
    && (forall f | f in pool' :: 0 < f < limit)
    && (forall f | f in m && f !in Tables(m, fl.root) + Elements(fl.pool) :: m'[f] == m[f])
  }

  /** A step of a call on an owned space, said of what it owns. */
  ghost predicate WorksOn(s: Space, s': Space, root: nat, limit: nat) {
    && Rooted(s'.mem, root, limit) && s'.mem.Keys == s.mem.Keys
    && Tables(s'.mem, root) + s'.free == Tables(s.mem, root) + s.free
    && Tables(s'.mem, root) !! s'.free
    && (forall f | f in s'.free :: 0 < f < limit)
    && (forall f | f in s.mem && f !in Tables(s.mem, root) + s.free :: s'.mem[f] == s.mem[f])
  }

  lemma StepWorks(s: Space, s': Space, root: nat, limit: nat, call: Call, ok: bool)
    requires root != 0 && Owns(s, root, limit) && Step(s, s', root, call, ok)
    ensures WorksOn(s, s', root, limit)
  {
    assert Owns(s', root, limit) && Effect(s, s', root, call, ok) by { StepKeepsOwned(s, s', root, limit, call, ok); }
    StepConserves(s, s', root, limit, call, ok);
    StepFrames(s, s', root, call, ok);
  }

  lemma SectionWorks(m: Memory, fl: Flight, roots: set<nat>, limit: nat, ok: bool, m': Memory, pool': seq<nat>)
    requires Owns(Own(m, fl.pool), fl.root, limit) && fl.root != 0
    requires Carries(m, fl, roots, limit) && !fl.locked && |fl.pool| == Need(fl.call)
    requires Section(m, fl, ok, m', pool')
    ensures Works(m, fl, m', pool', limit)
  {
    var s, s' := Own(m, fl.pool), Own(m', pool');
    assert WorksOn(s, s', fl.root, limit) && Distinct(pool') by {
      SectionSteps(m, fl, roots, limit, ok, m', pool');
      StepWorks(s, s', fl.root, limit, fl.call, ok);
    }
    forall f | f in pool' ensures 0 < f < limit { assert f in s'.free; }
  }

  /** The plain map an address space stands for. */
  ghost function Meaning(m: Memory, root: nat): imap<VPage, Leaf> {
    Translation(Space(m, {}), root)
  }

  lemma MeaningOf(s: Space, root: nat)
    ensures Translation(s, root) == Meaning(s.mem, root)
  {
  }

  lemma SectionRefines(m: Memory, fl: Flight, roots: set<nat>, limit: nat, ok: bool, m': Memory, pool': seq<nat>)
    requires Owns(Own(m, fl.pool), fl.root, limit) && fl.root != 0
    requires Carries(m, fl, roots, limit) && !fl.locked && |fl.pool| == Need(fl.call)
    requires Section(m, fl, ok, m', pool')
    ensures Meaning(m', fl.root) == Apply(Meaning(m, fl.root), fl.call, ok)
  {
    var s, s' := Own(m, fl.pool), Own(m', pool');
    assert Translation(s', fl.root) == Apply(Translation(s, fl.root), fl.call, ok) by {
      SectionSteps(m, fl, roots, limit, ok, m', pool');
      StepRefines(s, s', fl.root, limit, fl.call, ok);
    }
    MeaningOf(s, fl.root);
    MeaningOf(s', fl.root);
  }

  lemma StepFrames(s: Space, s': Space, root: nat, call: Call, ok: bool)
    requires Effect(s, s', root, call, ok)
    ensures s'.mem.Keys == s.mem.Keys
    ensures forall f | f in s.mem && f !in Tables(s.mem, root) + s.free :: s'.mem[f] == s.mem[f]
  {
  }

  /** A frame in any third place is not one the locked section may touch. */
  lemma Elsewhere(y: System, roots: set<nat>, i: nat, f: nat, p: Place)
    requires OnePlace(y, roots) && i < |y.flights| && y.flights[i].root in roots
    requires At(y, roots, f, p) && p != Tree(y.flights[i].root) && p != Pool(i)
    ensures f !in Tables(y.mem, y.flights[i].root) + Elements(y.flights[i].pool)
  {
    assert !At(y, roots, f, Tree(y.flights[i].root)) && !At(y, roots, f, Pool(i));
  }

  lemma OtherTreeStays(y: System, roots: set<nat>, limit: nat, i: nat, m': Memory, pool': seq<nat>, r: nat)
    requires Sound(y, roots, limit) && i < |y.flights| && Works(y.mem, y.flights[i], m', pool', limit)
    requires r in roots && r != y.flights[i].root
    ensures Rooted(m', r, limit) && Tables(m', r) == Tables(y.mem, r) && SameWalks(y.mem, m', r)
  {
    assert Carries(y.mem, y.flights[i], roots, limit);
    forall t | t in Tables(y.mem, r) ensures m'[t] == y.mem[t] {
      assert At(y, roots, t, Tree(r));
      Elsewhere(y, roots, i, t, Tree(r));
    }
    TreeStays(y.mem, m', r, limit);
  }

  lemma OtherPoolStays(y: System, roots: set<nat>, limit: nat, i: nat, m': Memory, pool': seq<nat>, k: nat)
    requires Sound(y, roots, limit) && i < |y.flights| && Works(y.mem, y.flights[i], m', pool', limit)
    requires k < |y.flights| && k != i
    ensures Carries(m', y.flights[k], roots, limit)
  {
    assert Carries(y.mem, y.flights[i], roots, limit) && Carries(y.mem, y.flights[k], roots, limit);
    forall f | f in y.flights[k].pool && f in y.mem ensures m'[f] == y.mem[f] {
      assert At(y, roots, f, Pool(k));
      Elsewhere(y, roots, i, f, Pool(k));
    }
  }

  /** A locked section moves frames only between its tree and its call. */
  lemma LockShifts(y: System, y': System, roots: set<nat>, limit: nat, i: nat, m': Memory, pool': seq<nat>)
    requires Sound(y, roots, limit) && i < |y.flights| && Works(y.mem, y.flights[i], m', pool', limit)
    requires y' == SetLocked(SetPool(y.(mem := m'), i, pool'), i)
    ensures Shifts(y, y', roots, Tree(y.flights[i].root), Pool(i))
  {
    var fl := y.flights[i];
    assert Carries(y.mem, fl, roots, limit);
    forall f, p | p != Tree(fl.root) && p != Pool(i) ensures At(y', roots, f, p) <==> At(y, roots, f, p) {
      if p.Tree? && p.root in roots { OtherTreeStays(y, roots, limit, i, m', pool', p.root); }
    }
    forall f ensures At(y', roots, f, Tree(fl.root)) <==> f in Tables(m', fl.root) {
    }
    forall f ensures At(y', roots, f, Pool(i)) <==> f in Elements(pool') {
    }
    forall f ensures At(y, roots, f, Pool(i)) <==> f in Elements(fl.pool) {
    }
    forall f ensures f in Tables(m', fl.root) + Elements(pool') <==> f in Tables(y.mem, fl.root) + Elements(fl.pool) {
    }
  }

  lemma LockKeeps(y: System, y': System, roots: set<nat>, limit: nat, i: nat, m': Memory, pool': seq<nat>)
    requires Sound(y, roots, limit) && i < |y.flights| && Works(y.mem, y.flights[i], m', pool', limit)
    requires y' == SetLocked(SetPool(y.(mem := m'), i, pool'), i)
    ensures Sound(y', roots, limit) && SameFrames(y, y', roots)
    ensures forall r | r in roots && r != y.flights[i].root :: SameWalks(y.mem, y'.mem, r)
  {
    var fl := y.flights[i];
    assert Carries(y.mem, fl, roots, limit);
    forall r | r in roots ensures Rooted(m', r, limit) && (r != fl.root ==> SameWalks(y.mem, m', r)) {
      if r != fl.root { OtherTreeStays(y, roots, limit, i, m', pool', r); }
    }
    LockShifts(y, y', roots, limit, i, m', pool');
    ShiftKeepsPlaces(y, y', roots, Tree(fl.root), Pool(i));
    forall k | 0 <= k < |y'.flights| ensures Carries(m', y'.flights[k], roots, limit) {
      if k != i { OtherPoolStays(y, roots, limit, i, m', pool', k); }
    }
  }
}
