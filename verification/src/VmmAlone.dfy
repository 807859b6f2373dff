/** A call that is not interrupted: its phases run one after the other are one step of the sequential runs. */
module VmmAlone {
  import opened Common
  import opened PageTables
  import opened Spaces
  import opened Mapping
  import opened VmmSteps
  import opened VmmCalls

  /** A run of phases of calls on one root, from one state to another. */
  ghost predicate Leads(run: seq<System>, phases: seq<Phase>, root: nat, y: System, y': System) {
    Interleaves(run, phases, {root}) && run[0] == y && run[|phases|] == y'
  }

  lemma OneMore(run: seq<System>, phases: seq<Phase>, root: nat, y: System, z: System, y': System, p: Phase)
    requires Leads(run, phases, root, y, z) && Advances(z, y', {root}, p)
    ensures Leads(run + [y'], phases + [p], root, y, y')
  {
    forall i: int ensures AdvancesAt(run + [y'], phases + [p], {root}, i) {
      assert AdvancesAt(run, phases, {root}, i);
    }
  }

  /** Memory with the first k tables of the pool zeroed as they are in m. */
  ghost function Zeroed(s: Space, m: Memory, pool: seq<nat>, k: nat): Memory
    requires k <= |pool| && m.Keys == s.mem.Keys
  {
    map f | f in s.mem :: if f in pool[..k] then m[f] else s.mem[f]
  }

  /** The state after k draws of the only call. */
  ghost function Drawn(s: Space, m: Memory, root: nat, call: Call, pool: seq<nat>, k: nat): System
    requires k <= |pool| && m.Keys == s.mem.Keys
  {
    System(Zeroed(s, m, pool, k), s.free - Elements(pool[..k]), [Flight(root, call, pool[..k], false)])
  }

  lemma DrawsOne(s: Space, m: Memory, root: nat, call: Call, pool: seq<nat>, k: nat)
    requires PoolDrawn(s, m, pool) && k < |pool| <= Need(call)
    ensures Advances(Drawn(s, m, root, call, pool, k), Drawn(s, m, root, call, pool, k + 1), {root},
                     Draw(0, pool[k], m[pool[k]]))
  {
    var f := pool[k];
    var y, y' := Drawn(s, m, root, call, pool, k), Drawn(s, m, root, call, pool, k + 1);
    assert pool[..k + 1] == pool[..k] + [f];
    assert f in Elements(pool) && f !in pool[..k];
    assert Elements(pool[..k + 1]) == Elements(pool[..k]) + {f};
    assert y'.mem == y.mem[f := m[f]];
    assert y'.free == y.free - {f};
  }

  lemma Begins(s: Space, m: Memory, root: nat, call: Call, pool: seq<nat>)
    requires m.Keys == s.mem.Keys
    ensures Advances(System(s.mem, s.free, []), Drawn(s, m, root, call, pool, 0), {root}, Begin(root, call))
  {
    var y' := Drawn(s, m, root, call, pool, 0);
    assert y'.mem == s.mem && y'.free == s.free;
  }

  lemma {:induction false} DrawsLead(s: Space, m: Memory, root: nat, call: Call, pool: seq<nat>, k: nat)
    returns (run: seq<System>, phases: seq<Phase>)
    requires PoolDrawn(s, m, pool) && k <= |pool| <= Need(call)
    ensures Leads(run, phases, root, System(s.mem, s.free, []), Drawn(s, m, root, call, pool, k))
  {
    var y, y' := System(s.mem, s.free, []), Drawn(s, m, root, call, pool, k);
    if k == 0 {
      Begins(s, m, root, call, pool);
      OneMore([y], [], root, y, y, y', Begin(root, call));
      run, phases := [y] + [y'], [] + [Begin(root, call)];
    } else {
      run, phases := DrawsLead(s, m, root, call, pool, k - 1);
      var p := Draw(0, pool[k - 1], m[pool[k - 1]]);
      DrawsOne(s, m, root, call, pool, k - 1);
      OneMore(run, phases, root, y, Drawn(s, m, root, call, pool, k - 1), y', p);
      run, phases := run + [y'], phases + [p];
    }
  }

  lemma DrawnWhole(s: Space, m: Memory, root: nat, call: Call, pool: seq<nat>)
    requires PoolDrawn(s, m, pool)
    ensures Drawn(s, m, root, call, pool, |pool|) ==
            System(m, s.free - Elements(pool), [Flight(root, call, pool, false)])
  {
    assert pool[..|pool|] == pool;
    forall f | f in s.mem ensures Zeroed(s, m, pool, |pool|)[f] == m[f] {
      assert f in pool <==> f in Elements(pool);
    }
    assert Zeroed(s, m, pool, |pool|) == m;
  }

  ghost function Ended(m: Memory, free: set<nat>, root: nat, call: Call): System {
    System(m, free, [Flight(root, call, [], true)])
  }

  /** The state when the only call has these frames to give back. */
  ghost function Giving(m: Memory, free: set<nat>, root: nat, call: Call, pool: seq<nat>): System {
    System(m, free, [Flight(root, call, pool, true)])
  }

  lemma GivesOne(m: Memory, free: set<nat>, root: nat, call: Call, pool: seq<nat>)
    requires pool != []
    ensures Advances(Giving(m, free, root, call, pool), Giving(m, free + {pool[0]}, root, call, pool[1..]), {root},
                     Give(0))
    ensures Elements(pool) == {pool[0]} + Elements(pool[1..])
  {
    assert pool == [pool[0]] + pool[1..];
  }

  lemma {:induction false} GivesLead(run: seq<System>, phases: seq<Phase>, y: System, m: Memory, free: set<nat>,
                                     root: nat, call: Call, pool: seq<nat>)
    returns (run': seq<System>, phases': seq<Phase>)
    requires Leads(run, phases, root, y, Giving(m, free, root, call, pool))
    ensures Leads(run', phases', root, y, Ended(m, free + Elements(pool), root, call))
    decreases |pool|
  {
    if pool == [] {
      assert free + Elements(pool) == free;
      run', phases' := run, phases;
    } else {
      var rest, free' := pool[1..], free + {pool[0]};
      var z := Giving(m, free', root, call, rest);
      GivesOne(m, free, root, call, pool);
      OneMore(run, phases, root, y, Giving(m, free, root, call, pool), z, Give(0));
      run', phases' := GivesLead(run + [z], phases + [Give(0)], y, m, free', root, call, rest);
      assert free' + Elements(rest) == free + Elements(pool);
    }
  }

  lemma LocksAlone(m: Memory, free: set<nat>, root: nat, call: Call, pool: seq<nat>, m': Memory, pool': seq<nat>)
    requires |pool| == Need(call) && Section(m, Flight(root, call, pool, false), true, m', pool')
    ensures Advances(System(m, free, [Flight(root, call, pool, false)]), Giving(m', free, root, call, pool'), {root},
                     Lock(0, true))
  {
    var y, y' := System(m, free, [Flight(root, call, pool, false)]), Giving(m', free, root, call, pool');
    assert Locks(y, y', 0, true, m', pool');
  }

  /** Draws, one locked section and gives, one after the other. */
  lemma SectionLeads(s: Space, m: Memory, root: nat, call: Call, pool: seq<nat>, m': Memory, pool': seq<nat>)
    returns (run: seq<System>, phases: seq<Phase>)
    requires PoolDrawn(s, m, pool) && |pool| == Need(call)
    requires Section(m, Flight(root, call, pool, false), true, m', pool')
    ensures Leads(run, phases, root, System(s.mem, s.free, []),
                  Ended(m', s.free - Elements(pool) + Elements(pool'), root, call))
  {
    var y, free := System(s.mem, s.free, []), s.free - Elements(pool);
    var z := Giving(m', free, root, call, pool');
    run, phases := DrawsLead(s, m, root, call, pool, |pool|);
    DrawnWhole(s, m, root, call, pool);
    LocksAlone(m, free, root, call, pool, m', pool');
    OneMore(run, phases, root, y, Drawn(s, m, root, call, pool, |pool|), z, Lock(0, true));
    run, phases := GivesLead(run + [z], phases + [Lock(0, true)], y, m', free, root, call, pool');
  }

  lemma StillAllowed(s: Space, m: Memory, root: nat, limit: nat, call: Call, pool: seq<nat>)
    requires Owns(s, root, limit) && PoolDrawn(s, m, pool) && Allowed(s, root, call)
    ensures Allowed(Space(m, {}), root, call)
  {
    DrawnPool(s, m, root, limit, pool);
  }

  lemma MapAlone(s: Space, s': Space, root: nat, limit: nat, v: VPage, e: Entry, m: Memory, pool: seq<nat>)
    returns (run: seq<System>, phases: seq<Phase>)
    requires Owns(s, root, limit) && Allowed(s, root, Map(v, e)) && MapsBy(s, s', root, v, e, m, pool)
    ensures Leads(run, phases, root, System(s.mem, s.free, []), Ended(s'.mem, s'.free, root, Map(v, e)))
  {
    assert Allowed(Space(m, {}), root, Map(v, e)) by { StillAllowed(s, m, root, limit, Map(v, e), pool); }
    var d := MapLocked(m, root, v, e, pool);
    run, phases := SectionLeads(s, m, root, Map(v, e), pool, d.mem, d.pool);
  }

  lemma MapLargeAlone(s: Space, s': Space, root: nat, limit: nat, v: VPage, e: Entry, m: Memory, pool: seq<nat>)
    returns (run: seq<System>, phases: seq<Phase>)
    requires Owns(s, root, limit) && Allowed(s, root, MapLarge(v, e)) && MapsLargeBy(s, s', root, v, e, m, pool)
    ensures Leads(run, phases, root, System(s.mem, s.free, []), Ended(s'.mem, s'.free, root, MapLarge(v, e)))
  {
    assert Allowed(Space(m, {}), root, MapLarge(v, e)) by {
      StillAllowed(s, m, root, limit, MapLarge(v, e), pool);
    }
    var d := MapLargeLocked(m, root, v, e, pool);
    run, phases := SectionLeads(s, m, root, MapLarge(v, e), pool, d.mem, d.pool);
  }

  lemma UnmapAlone(s: Space, s': Space, root: nat, v: VPage, c: Chain)
    returns (run: seq<System>, phases: seq<Phase>)
    requires UnmapsBy(s, s', root, v, c)
    ensures Leads(run, phases, root, System(s.mem, s.free, []), Ended(s'.mem, s'.free, root, Unmap(v)))
  {
    var r := Collapse(Put(s.mem, c.pt, v.i3, ZERO), v, c, 3);
    assert Empties(s.mem, root, v, c, r.mem, r.freed);
    assert Reaches(s.mem, root, v.Prefix(3), c.At(3));
    run, phases := SectionLeads(s, s.mem, root, Unmap(v), [], r.mem, r.freed);
    assert s.free - Elements([]) + Elements(r.freed) == s'.free;
  }

  /** Every successful call of the sequential runs is such a call run alone. */
  lemma AloneIsSequential(s: Space, s': Space, root: nat, limit: nat, call: Call)
    returns (run: seq<System>, phases: seq<Phase>)
    requires Owns(s, root, limit) && Step(s, s', root, call, true)
    ensures Leads(run, phases, root, System(s.mem, s.free, []), Ended(s'.mem, s'.free, root, call))
  {
    match call
    case Map(v, e) =>
      var m, pool :| MapsBy(s, s', root, v, e, m, pool);
      run, phases := MapAlone(s, s', root, limit, v, e, m, pool);
    case MapLarge(v, e) =>
      var m, pool :| MapsLargeBy(s, s', root, v, e, m, pool);
      run, phases := MapLargeAlone(s, s', root, limit, v, e, m, pool);
    case Unmap(v) =>
      var c :| UnmapsBy(s, s', root, v, c);
      run, phases := UnmapAlone(s, s', root, v, c);
  }
}
