/** The locked sections of map and unmap as functions on memory, and what they do to every walk. */
module Mapping {
  import opened Common
  import opened PageTables
  import opened TableWrites
  import opened Descent
  import opened Spaces

  /** The page is translated by a 2 MiB entry. */
  predicate UnderLarge(m: Memory, root: nat, v: VPage) {
    Walk(m, root, v).Some? && Walk(m, root, v).value.level < 3
  }

  /** Descend from level `lo` to level `hi`, creating tables as needed; stops early with next == 0
      when the pool is empty. A frame outside memory cannot be followed. */
  function DescendTo(m: Memory, t: nat, v: VPage, tf: Want, pool: seq<nat>, lo: nat, hi: nat): Descended
    requires lo <= hi < 4
    decreases 4 - lo
  {
    if lo == hi || t !in m then Descended(m, pool, t)
    else
      var d := NextTable(m, t, v.At(lo), tf, pool);
      if d.next == 0 then d else DescendTo(d.mem, d.next, v, tf, d.pool, lo + 1, hi)
  }

  /** The locked section of vmm_map_page_in. */
  function MapLocked(m: Memory, root: nat, v: VPage, e: Entry, pool: seq<nat>): Descended {
    var d := DescendTo(m, root, v, TableFlags(e.flags), pool, 0, 3);
    if d.next == 0 || d.next !in d.mem then d else d.(mem := Put(d.mem, d.next, v.i3, e))
  }

  /** The locked section of vmm_map_2m_in. */
  function MapLargeLocked(m: Memory, root: nat, v: VPage, e: Entry, pool: seq<nat>): Descended {
    var d := DescendTo(m, root, v, TableFlags(e.flags), pool, 0, 2);
    if d.next == 0 || d.next !in d.mem then d else d.(mem := Put(d.mem, d.next, v.i2, e))
  }

  /** Everything the descent to a level keeps. */
  ghost predicate Arrives(m: Memory, pool: seq<nat>, d: Descended, root: nat, v: VPage, tf: Want, level: nat)
    requires level < 4
  {
    && TreeShaped(d.mem, root)
    && d.mem.Keys == m.Keys
    && Reaches(d.mem, root, v.Prefix(level), d.next)
    && PoolReady(d.mem, root, d.pool)
    && Elements(d.pool) <= Elements(pool)
    && Tables(m, root) <= Tables(d.mem, root)
    && Tables(d.mem, root) + Elements(d.pool) == Tables(m, root) + Elements(pool)
    && SameWalks(m, d.mem, root)
    && KeepsPlaces(m, d.mem, root)
    && Grants(d.mem, root, v, tf, level)
    && NoEmptyTable(d.mem, root, v.Prefix(level))
    && (forall f | f in m && f !in Tables(d.mem, root) :: d.mem[f] == m[f])
  }

  /** No entry above `hi` on the way to v is a large page. */
  ghost predicate PathClear(m: Memory, root: nat, v: VPage, hi: nat)
    requires hi < 4
  {
    forall k: nat, t | k < hi && Reaches(m, root, v.Prefix(k), t) && t in m ::
      Present(m[t][v.At(k)]) ==> !Large(m[t][v.At(k)])
  }

  lemma ClearUnlessLarge(m: Memory, root: nat, v: VPage)
    requires TreeShaped(m, root)
    ensures PathClear(m, root, v, 2)
    ensures PathClear(m, root, v, 3) <==> !UnderLarge(m, root, v)
  {
    forall k: nat, t | k < 3 && Reaches(m, root, v.Prefix(k), t) && t in m
      ensures k == 2 ==> (Present(m[t][v.At(k)]) && Large(m[t][v.At(k)]) ==> UnderLarge(m, root, v))
    {
      WalkContinues(m, root, v, k, t);
    }
    if UnderLarge(m, root, v) {
      LargeIsAtDirectory(m, root, v, 0, root);
    }
  }

  lemma {:induction false} LargeIsAtDirectory(m: Memory, root: nat, v: VPage, k: nat, t: nat)
    requires TreeShaped(m, root) && k < 3 && Reaches(m, root, v.Prefix(k), t)
    requires WalkFrom(m, t, v, k).Some? && WalkFrom(m, t, v, k).value.level < 3
    ensures !PathClear(m, root, v, 3) && Walk(m, root, v).value.level == 2
    ensures exists u :: Reaches(m, root, v.Prefix(2), u) && u in m && Present(m[u][v.i2]) && Large(m[u][v.i2])
    decreases 3 - k
  {
    var e := m[t][v.At(k)];
    WalkContinues(m, root, v, k, t);
    if k < 2 {
      assert Reaches(m, root, v.Prefix(k + 1), e.page);
      LargeIsAtDirectory(m, root, v, k + 1, e.page);
    }
  }

  /** The descent keeps the path ahead of it clear. */
  lemma StaysClear(m: Memory, m': Memory, root: nat, v: VPage, hi: nat)
    requires TreeShaped(m, root) && TreeShaped(m', root) && SameWalks(m, m', root)
    requires hi < 4 && PathClear(m, root, v, hi)
    ensures PathClear(m', root, v, hi)
  {
    ClearUnlessLarge(m, root, v);
    ClearUnlessLarge(m', root, v);
  }

  /** With enough tables in the pool the descent always arrives. */
  lemma {:induction false} DescentArrives(m: Memory, root: nat, v: VPage, t: nat, tf: Want, pool: seq<nat>, lo: nat,
      hi: nat)
    requires lo <= hi < 4
    requires TreeShaped(m, root) && Reaches(m, root, v.Prefix(lo), t)
    requires PoolReady(m, root, pool) && |pool| >= hi - lo
    requires PathClear(m, root, v, hi) && Grants(m, root, v, tf, lo) && NoEmptyTable(m, root, v.Prefix(lo))
    requires 0 !in Tables(m, root)
    ensures Arrives(m, pool, DescendTo(m, t, v, tf, pool, lo, hi), root, v, tf, hi)
    ensures DescendTo(m, t, v, tf, pool, lo, hi).next != 0
    decreases 4 - lo
  {
    if lo == hi {
      assert t in Tables(m, root);
    } else {
      Descend(m, root, v, lo, t, tf, pool);
      var d := NextTable(m, t, v.At(lo), tf, pool);
      assert d.next in Tables(d.mem, root);
      assert 0 !in Elements(pool);
      StaysClear(m, d.mem, root, v, hi);
      DescentArrives(d.mem, root, v, d.next, tf, d.pool, lo + 1, hi);
      ArrivesAfterStep(m, pool, d, DescendTo(d.mem, d.next, v, tf, d.pool, lo + 1, hi), root, v, tf, lo, hi);
    }
  }

  lemma ArrivesAfterStep(m: Memory, pool: seq<nat>, d: Descended, r: Descended, root: nat, v: VPage, tf: Want,
      lo: nat, hi: nat)
    requires lo < hi < 4
    requires DescendsTo(m, pool, d, root, v, lo, tf) && Arrives(d.mem, d.pool, r, root, v, tf, hi)
    ensures Arrives(m, pool, r, root, v, tf, hi)
  {
    forall f | f in m && f !in Tables(r.mem, root) ensures r.mem[f] == m[f] {
      assert f !in Tables(d.mem, root);
    }
    forall q, t | Reaches(m, root, q, t) ensures Reaches(r.mem, root, q, t) {
      assert Reaches(d.mem, root, q, t);
    }
  }

  /** An entry that a step down with these bits passes, before and after. */
  predicate Stepped(x: Entry, x': Entry, tf: Want) {
    if Present(x) then x' == Entry(x.page, With(x.flags, tf)) else x'.flags == LinkFlags(tf)
  }

  /** What the descent from level lo to level hi wrote: the entries it passed. */
  ghost predicate Writes(m: Memory, m': Memory, root: nat, v: VPage, tf: Want, lo: nat, hi: nat)
    requires hi < 4
  {
    && (forall k: nat, t | lo <= k < hi && Reaches(m', root, v.Prefix(k), t) && t in m && t in m' ::
          Stepped(m[t][v.At(k)], m'[t][v.At(k)], tf))
    && (forall t, i: Index | t in m && t in m' && m'[t][i] != m[t][i] ::
          exists k: nat :: lo <= k < hi && OnWay(m', root, v, k, t, i))
  }

  lemma StepWrites(m: Memory, t: nat, i: Index, tf: Want, pool: seq<nat>)
    requires t in m && NextTable(m, t, i, tf, pool).next != 0
    ensures
      var d := NextTable(m, t, i, tf, pool);
      && d.mem.Keys == m.Keys && Stepped(m[t][i], d.mem[t][i], tf)
      && (forall f, j: Index | f in m && !(f == t && j == i) :: d.mem[f][j] == m[f][j])
  {
  }

  lemma {:induction false} DescentWrites(m: Memory, root: nat, v: VPage, t: nat, tf: Want, pool: seq<nat>, lo: nat,
      hi: nat)
    requires lo <= hi < 4
    requires TreeShaped(m, root) && Reaches(m, root, v.Prefix(lo), t)
    requires PoolReady(m, root, pool) && |pool| >= hi - lo
    requires PathClear(m, root, v, hi) && Grants(m, root, v, tf, lo) && NoEmptyTable(m, root, v.Prefix(lo))
    requires 0 !in Tables(m, root)
    ensures Writes(m, DescendTo(m, t, v, tf, pool, lo, hi).mem, root, v, tf, lo, hi)
    decreases 4 - lo
  {
    if lo < hi {
      assert t in Tables(m, root);
      Descend(m, root, v, lo, t, tf, pool);
      var d := NextTable(m, t, v.At(lo), tf, pool);
      assert d.next in Tables(d.mem, root);
      assert 0 !in Elements(pool);
      StaysClear(m, d.mem, root, v, hi);
      DescentArrives(d.mem, root, v, d.next, tf, d.pool, lo + 1, hi);
      var r := DescendTo(d.mem, d.next, v, tf, d.pool, lo + 1, hi);
      assert Reaches(d.mem, root, v.Prefix(lo), t) && Reaches(r.mem, root, v.Prefix(lo), t);
      assert Writes(d.mem, r.mem, root, v, tf, lo + 1, hi) by {
        DescentWrites(d.mem, root, v, d.next, tf, d.pool, lo + 1, hi);
      }
      StepWrites(m, t, v.At(lo), tf, pool);
      WritesJoin(m, d.mem, r.mem, root, v, t, tf, lo, hi);
    }
  }

  /** A table is on the way at one level only. */
  lemma OneLevel(m: Memory, root: nat, v: VPage, j: nat, k: nat, t: nat)
    requires TreeShaped(m, root) && j < 4 && k < 4
    requires Reaches(m, root, v.Prefix(j), t) && Reaches(m, root, v.Prefix(k), t)
    ensures j == k
  {
    assert Level(v.Prefix(j)) == j && Level(v.Prefix(k)) == k;
  }

  lemma PassedStays(m1: Memory, m2: Memory, root: nat, v: VPage, t: nat, tf: Want, lo: nat, hi: nat)
    requires lo < hi < 4 && TreeShaped(m2, root) && m1.Keys == m2.Keys && t in m1
    requires Reaches(m2, root, v.Prefix(lo), t) && Writes(m1, m2, root, v, tf, lo + 1, hi)
    ensures m2[t] == m1[t]
  {
    forall n: nat, i: Index | lo + 1 <= n < hi ensures !OnWay(m2, root, v, n, t, i) {
      if Reaches(m2, root, v.Prefix(n), t) { OneLevel(m2, root, v, lo, n, t); }
    }
    assert forall i: Index :: m2[t][i] == m1[t][i];
  }

  lemma WritesJoin(m: Memory, m1: Memory, m2: Memory, root: nat, v: VPage, t: nat, tf: Want, lo: nat, hi: nat)
    requires lo < hi < 4 && TreeShaped(m2, root) && m1.Keys == m.Keys == m2.Keys
    requires Reaches(m2, root, v.Prefix(lo), t) && t in m && Writes(m1, m2, root, v, tf, lo + 1, hi)
    requires Stepped(m[t][v.At(lo)], m1[t][v.At(lo)], tf)
    requires forall f, j: Index | f in m && !(f == t && j == v.At(lo)) :: m1[f][j] == m[f][j]
    ensures Writes(m, m2, root, v, tf, lo, hi)
  {
    PassedStays(m1, m2, root, v, t, tf, lo, hi);
    forall k: nat, u | lo <= k < hi && Reaches(m2, root, v.Prefix(k), u) && u in m
      ensures Stepped(m[u][v.At(k)], m2[u][v.At(k)], tf)
    {
      if u == t { OneLevel(m2, root, v, lo, k, t); }
    }
    forall f, i: Index | f in m && m2[f][i] != m[f][i]
      ensures exists k: nat :: lo <= k < hi && OnWay(m2, root, v, k, f, i)
    {
      if f == t && i == v.At(lo) {
        assert OnWay(m2, root, v, lo, f, i);
      } else {
        var n: nat :| lo + 1 <= n < hi && OnWay(m2, root, v, n, f, i);
      }
    }
  }

  /** The pool was drawn from the free set and zeroed; nothing else was written. */
  ghost predicate PoolDrawn(s: Space, m: Memory, pool: seq<nat>) {
    && m.Keys == s.mem.Keys
    && Elements(pool) <= s.free
    && (forall i | 0 <= i < |pool| :: pool[i] in m && IsEmpty(m[pool[i]]))
    && (forall i, j | 0 <= i < j < |pool| :: pool[i] != pool[j])
    && (forall f | f in s.mem && f !in Elements(pool) :: m[f] == s.mem[f])
  }

  /** The space after the locked section, once the untaken tables are freed again. */
  ghost function Settle(s: Space, pool: seq<nat>, d: Descended): Space {
    Space(d.mem, s.free - Elements(pool) + Elements(d.pool))
  }

  lemma DrawnPool(s: Space, m: Memory, root: nat, limit: nat, pool: seq<nat>)
    requires Owns(s, root, limit) && PoolDrawn(s, m, pool)
    ensures SameTables(s.mem, m, root) && SameWalks(s.mem, m, root) && NoEmptyTable(m, root, Root)
    ensures PoolReady(m, root, pool)
  {
    SameOnTables(s.mem, m, root);
    forall i | 0 <= i < |pool| ensures pool[i] != 0 { assert pool[i] in Elements(pool); }
  }

  lemma TablesNonZero(s: Space, root: nat, limit: nat)
    requires Owns(s, root, limit) && root != 0
    ensures 0 !in Tables(s.mem, root)
  {
  }

  /** The descent starts at the root with everything the levels below need. */
  lemma DescentFromRoot(s: Space, m: Memory, root: nat, limit: nat, v: VPage, tf: Want, pool: seq<nat>, hi: nat)
    requires Owns(s, root, limit) && root != 0 && PoolDrawn(s, m, pool)
    requires hi < 4 && |pool| >= hi && PathClear(s.mem, root, v, hi)
    ensures
      var d := DescendTo(m, root, v, tf, pool, 0, hi);
      d.next != 0 && Arrives(m, pool, d, root, v, tf, hi) && SameWalks(s.mem, d.mem, root)
          && Tables(m, root) == Tables(s.mem, root)
  {
    DrawnPool(s, m, root, limit, pool);
    TablesNonZero(s, root, limit);
    StaysClear(s.mem, m, root, v, hi);
    assert Reaches(m, root, v.Prefix(0), root);
    DescentArrives(m, root, v, root, tf, pool, 0, hi);
  }

  lemma DescentPool(s: Space, m: Memory, root: nat, limit: nat, v: VPage, tf: Want, pool: seq<nat>, hi: nat)
    requires Owns(s, root, limit) && root != 0 && PoolDrawn(s, m, pool)
    requires hi < 4 && |pool| >= hi && (hi == 3 ==> !UnderLarge(s.mem, root, v))
    ensures Elements(DescendTo(m, root, v, tf, pool, 0, hi).pool) <= Elements(pool)
  {
    ClearUnlessLarge(s.mem, root, v);
    DescentFromRoot(s, m, root, limit, v, tf, pool, hi);
  }

  lemma DescentFinds(s: Space, m: Memory, root: nat, limit: nat, v: VPage, tf: Want, pool: seq<nat>, hi: nat)
    requires Owns(s, root, limit) && root != 0 && PoolDrawn(s, m, pool)
    requires hi < 4 && |pool| >= hi && PathClear(s.mem, root, v, hi)
    ensures var d := DescendTo(m, root, v, tf, pool, 0, hi); d.next != 0 && d.next in d.mem
  {
    DescentFromRoot(s, m, root, limit, v, tf, pool, hi);
  }

  /** What the calls in order reach, level by level. */
  lemma DescentLevel(s: Space, m: Memory, root: nat, limit: nat, v: VPage, tf: Want, pool: seq<nat>, hi: nat)
    requires Owns(s, root, limit) && root != 0 && PoolDrawn(s, m, pool)
    requires 0 < hi < 4 && |pool| >= hi && PathClear(s.mem, root, v, hi)
    ensures
      var d := DescendTo(m, root, v, tf, pool, 0, hi - 1);
      && d.next != 0 && d.next in d.mem
      && DescendTo(m, root, v, tf, pool, 0, hi) == NextTable(d.mem, d.next, v.At(hi - 1), tf, d.pool)
      && var r := DescendTo(m, root, v, tf, pool, 0, hi); r.next != 0 && r.next in r.mem
  {
    DescentFinds(s, m, root, limit, v, tf, pool, hi - 1);
    DescentFinds(s, m, root, limit, v, tf, pool, hi);
    DescentExtends(m, root, v, tf, pool, 0, hi);
  }

  lemma SettleConserves(s: Space, m: Memory, root: nat, limit: nat, pool: seq<nat>, d: Descended, m': Memory)
    requires Owns(s, root, limit) && PoolDrawn(s, m, pool)
    requires TreeShaped(m', root) && NoEmptyTable(m', root, Root) && m'.Keys == m.Keys
    requires Elements(d.pool) <= Elements(pool)
    requires Tables(m, root) == Tables(s.mem, root) && Tables(m, root) <= Tables(m', root)
    requires Tables(m', root) + Elements(d.pool) == Tables(m, root) + Elements(pool)
    requires Tables(m', root) !! Elements(d.pool)
    requires forall f | f in m && f !in Tables(m', root) :: m'[f] == m[f]
    ensures
      var s' := Settle(s, pool, d.(mem := m'));
      Owns(s', root, limit) && Conserves(s, s', root) && Tables(s.mem, root) <= Tables(s'.mem, root)
  {
    var s' := Settle(s, pool, d.(mem := m'));
    forall f | f in s.mem && f !in Tables(s.mem, root) + s.free ensures s'.mem[f] == s.mem[f] {
      assert f !in Elements(pool) && f !in Tables(m', root);
    }
  }

  /** What a table holds after the pool was drawn: what it held, or nothing present. */
  lemma DrawnEntry(s: Space, m: Memory, root: nat, limit: nat, pool: seq<nat>, t: nat, i: Index)
    requires Owns(s, root, limit) && PoolDrawn(s, m, pool) && t in m && t in Tables(s.mem, root) + Elements(pool)
    ensures if t in Tables(s.mem, root) then m[t] == s.mem[t] && Was(s, root, t, i) == m[t][i]
            else !Present(m[t][i]) && !Present(Was(s, root, t, i))
  {
    if t in Tables(s.mem, root) {
      assert t !in Elements(pool);
    } else {
      var j: nat :| j < |pool| && pool[j] == t;
      assert IsEmpty(m[pool[j]]);
    }
  }

  /** A finished map: the pool was drawn, the descent made d of it, and the leaf was written at the end of it. */
  ghost predicate Mapped(s: Space, m: Memory, root: nat, limit: nat, v: VPage, e: Entry, pool: seq<nat>, d: Descended,
                         level: nat, m': Memory)
  {
    && level < 4 && Owns(s, root, limit) && PoolDrawn(s, m, pool) && Tables(m, root) == Tables(s.mem, root)
    && d.mem.Keys == m.Keys && d.next in d.mem && TreeShaped(d.mem, root)
    && Reaches(d.mem, root, v.Prefix(level), d.next)
    && Tables(d.mem, root) <= Tables(m, root) + Elements(pool)
    && Writes(m, d.mem, root, v, TableFlags(e.flags), 0, level)
    && m' == Put(d.mem, d.next, v.At(level), e) && SameTables(d.mem, m', root)
  }

  /** The entries passed, said of the leaf's own bits. */
  lemma MapPermits(s: Space, s': Space, m: Memory, root: nat, limit: nat, v: VPage, e: Entry, pool: seq<nat>,
                   d: Descended, level: nat)
    requires Mapped(s, m, root, limit, v, e, pool, d, level, s'.mem)
    ensures Permits(s, s', root, v, e, level)
  {
    forall k: nat, t | k < level && Reaches(s'.mem, root, v.Prefix(k), t) && t in s'.mem
      ensures PathEntry(Was(s, root, t, v.At(k)), s'.mem[t][v.At(k)], e)
    {
      assert Reaches(d.mem, root, v.Prefix(k), t) && t in Tables(d.mem, root);
      DrawnEntry(s, m, root, limit, pool, t, v.At(k));
      if t == d.next { OneLevel(d.mem, root, v, k, level, t); }
    }
  }

  lemma MapWritesOnly(s: Space, s': Space, m: Memory, root: nat, limit: nat, v: VPage, e: Entry, pool: seq<nat>,
                      d: Descended, level: nat)
    requires Mapped(s, m, root, limit, v, e, pool, d, level, s'.mem)
    ensures WritesOnly(s, s', root, v, level)
  {
    forall t, i: Index | t in Tables(s.mem, root) && t in s'.mem && s'.mem[t][i] != s.mem[t][i]
      ensures exists k: nat :: k <= level && OnWay(s'.mem, root, v, k, t, i)
    {
      DrawnEntry(s, m, root, limit, pool, t, i);
      if t == d.next && i == v.At(level) {
        assert OnWay(s'.mem, root, v, level, t, i);
      } else {
        var k: nat :| k < level && OnWay(d.mem, root, v, k, t, i);
        assert OnWay(s'.mem, root, v, k, t, i);
      }
    }
  }

  /** The descent from the root, with what it wrote. */
  lemma RootWrites(s: Space, m: Memory, root: nat, limit: nat, v: VPage, tf: Want, pool: seq<nat>, hi: nat)
    requires Owns(s, root, limit) && root != 0 && PoolDrawn(s, m, pool)
    requires hi < 4 && |pool| >= hi && PathClear(s.mem, root, v, hi)
    ensures Writes(m, DescendTo(m, root, v, tf, pool, 0, hi).mem, root, v, tf, 0, hi)
  {
    DrawnPool(s, m, root, limit, pool);
    TablesNonZero(s, root, limit);
    StaysClear(s.mem, m, root, v, hi);
    assert Reaches(m, root, v.Prefix(0), root);
    DescentWrites(m, root, v, root, tf, pool, 0, hi);
  }

  /** A 4 KiB map on a path without large pages is a point update of the walk. */
  lemma MapIsPointUpdate(s: Space, m: Memory, root: nat, limit: nat, v: VPage, e: Entry, pool: seq<nat>)
    requires Owns(s, root, limit) && root != 0 && PoolDrawn(s, m, pool) && |pool| >= 3
    requires Present(e) && !UnderLarge(s.mem, root, v)
    ensures
      var d := MapLocked(m, root, v, e, pool);
      var s' := Settle(s, pool, d);
      d.next != 0 && PoolReady(d.mem, root, d.pool) && Owns(s', root, limit) && MapsPage(s, s', root, v, e)
  {
    var tf := TableFlags(e.flags);
    ClearUnlessLarge(s.mem, root, v);
    DescentFromRoot(s, m, root, limit, v, tf, pool, 3);
    var d := DescendTo(m, root, v, tf, pool, 0, 3);
    var m' := Put(d.mem, d.next, v.i3, e);
    PutLeaf(d.mem, root, v, d.next, e);
    LeafWriteKeepsRest(d, root, v, 3, tf, e);
    KeepTables(d.mem, root, v.Prefix(3), d.next, v.i3, e);
    SettleConserves(s, m, root, limit, pool, d, m');
    RootWrites(s, m, root, limit, v, tf, pool, 3);
    var s' := Settle(s, pool, d.(mem := m'));
    assert Mapped(s, m, root, limit, v, e, pool, d, 3, m');
    MapPermits(s, s', m, root, limit, v, e, pool, d, 3);
    MapWritesOnly(s, s', m, root, limit, v, e, pool, d, 3);
  }

  /** The final write is to a table of the tree below every entry already granted. */
  lemma LeafWriteKeepsRest(d: Descended, root: nat, v: VPage, level: nat, tf: Want, e: Entry)
    requires level < 4 && TreeShaped(d.mem, root) && Reaches(d.mem, root, v.Prefix(level), d.next)
    requires d.next in d.mem && SameTables(d.mem, Put(d.mem, d.next, v.At(level), e), root)
    requires PoolReady(d.mem, root, d.pool) && Grants(d.mem, root, v, tf, level)
    ensures
      var m' := Put(d.mem, d.next, v.At(level), e);
      && PoolReady(m', root, d.pool) && Grants(m', root, v, tf, level)
      && (forall f | f in d.mem && f !in Tables(m', root) :: m'[f] == d.mem[f])
  {
    var m' := Put(d.mem, d.next, v.At(level), e);
    assert d.next in Tables(d.mem, root);
    forall i | 0 <= i < |d.pool| ensures m'[d.pool[i]] == d.mem[d.pool[i]] {
      assert d.pool[i] in Elements(d.pool);
    }
    forall k: nat, t | k < level && Reaches(m', root, v.Prefix(k), t) && t in m'
      ensures Has(m'[t][v.At(k)].flags, tf)
    {
      assert Reaches(d.mem, root, v.Prefix(k), t);
      assert t != d.next;
    }
  }

  /** The descent hangs no table on the page-directory slot itself. */
  lemma NoLinkStays(m: Memory, m': Memory, root: nat, v: VPage, pd: nat)
    requires TreeShaped(m', root) && SameWalks(m, m', root) && NoEmptyTable(m', root, v.Prefix(2))
    requires TableAt(m, root, v.Prefix(3)) == None
    requires Reaches(m', root, v.Prefix(2), pd) && pd in m'
    ensures !Links(m'[pd][v.i2])
  {
    if Links(m'[pd][v.i2]) {
      var pt := m'[pd][v.i2].page;
      assert Reaches(m', root, v.Prefix(3), pt);
      var i: Index :| Present(m'[pt][i]);
      var w := v.(i3 := i);
      PrefixDetermines(w, v);
      WalkContinues(m', root, w, 3, pt);
      assert Walk(m, root, w) == Some(Leaf(m'[pt][i], 3));
      assert Reaches(m, root, w.Prefix(0), root);
      WalkHasTables(m, root, w, 3, 0, root);
      assert false;
    }
  }

  /** A 2 MiB map into a slot that holds no table sets the 512 pages of that slot and no other. */
  lemma LargeMapIsBlockUpdate(s: Space, m: Memory, root: nat, limit: nat, v: VPage, e: Entry, pool: seq<nat>)
    requires Owns(s, root, limit) && root != 0 && PoolDrawn(s, m, pool) && |pool| >= 2
    requires Present(e) && Large(e) && TableAt(s.mem, root, v.Prefix(3)) == None
    ensures
      var d := MapLargeLocked(m, root, v, e, pool);
      var s' := Settle(s, pool, d);
      d.next != 0 && PoolReady(d.mem, root, d.pool) && Owns(s', root, limit) && MapsLarge(s, s', root, v, e)
  {
    var tf := TableFlags(e.flags);
    ClearUnlessLarge(s.mem, root, v);
    DescentFromRoot(s, m, root, limit, v, tf, pool, 2);
    var d := DescendTo(m, root, v, tf, pool, 0, 2);
    var m' := Put(d.mem, d.next, v.i2, e);
    NoLinkStays(s.mem, d.mem, root, v, d.next);
    PutLarge(d.mem, root, v, d.next, e);
    LeafWriteKeepsRest(d, root, v, 2, tf, e);
    KeepTables(d.mem, root, v.Prefix(2), d.next, v.i2, e);
    SettleConserves(s, m, root, limit, pool, d, m');
    RootWrites(s, m, root, limit, v, tf, pool, 2);
    var s' := Settle(s, pool, d.(mem := m'));
    assert Mapped(s, m, root, limit, v, e, pool, d, 2, m');
    MapPermits(s, s', m, root, limit, v, e, pool, d, 2);
    MapWritesOnly(s, s', m, root, limit, v, e, pool, d, 2);
  }

  /** A 2 MiB map over a slot that holds a page table drops that table without freeing it. */
  lemma LargeMapOverTableLeaks(s: Space, m: Memory, root: nat, limit: nat, v: VPage, e: Entry, pool: seq<nat>, pt: nat)
    requires Owns(s, root, limit) && root != 0 && PoolDrawn(s, m, pool) && |pool| >= 2
    requires Present(e) && Large(e) && Reaches(s.mem, root, v.Prefix(3), pt)
    ensures
      var s' := Settle(s, pool, MapLargeLocked(m, root, v, e, pool));
      pt in Tables(s.mem, root) && pt !in Tables(s'.mem, root) && pt !in s'.free
  {
    var tf := TableFlags(e.flags);
    ClearUnlessLarge(s.mem, root, v);
    DescentFromRoot(s, m, root, limit, v, tf, pool, 2);
    DrawnPool(s, m, root, limit, pool);
    var d := DescendTo(m, root, v, tf, pool, 0, 2);
    assert Reaches(m, root, v.Prefix(3), pt) && Reaches(d.mem, root, v.Prefix(3), pt);
    OverwrittenLinkIsGone(d.mem, root, v.Prefix(2), d.next, v.i2, e, pt);
    assert pt in Tables(s.mem, root);
  }

  lemma OverwrittenLinkIsGone(m: Memory, root: nat, p: Path, t: nat, i: Index, e: Entry, n: nat)
    requires TreeShaped(m, root) && Reaches(m, root, p, t) && t in m && !Links(e)
    requires Reaches(m, root, Down(p, i), n)
    ensures n !in Tables(Put(m, t, i, e), root)
  {
    var m' := Put(m, t, i, e);
    PutKeepsOwnPath(m, root, p, t, i, e);
    forall q ensures !Reaches(m', root, q, n) {
      if Under(q, p, i) {
        NothingBelowSlot(m', root, p, t, i, q);
      } else {
        PutMovesOnlyBelow(m, root, p, t, i, e, q);
        assert Under(Down(p, i), p, i);
        assert !Reaches(m, root, q, n);
      }
    }
  }

  /** A 2 MiB map loses no frame exactly when its slot holds no page table. */
  lemma LargeMapConservesIff(s: Space, m: Memory, root: nat, limit: nat, v: VPage, e: Entry, pool: seq<nat>)
    requires Owns(s, root, limit) && root != 0 && PoolDrawn(s, m, pool) && |pool| >= 2
    requires Present(e) && Large(e)
    ensures Conserves(s, Settle(s, pool, MapLargeLocked(m, root, v, e, pool)), root) <==>
            TableAt(s.mem, root, v.Prefix(3)) == None
  {
    if pt :| Reaches(s.mem, root, v.Prefix(3), pt) {
      LargeMapOverTableLeaks(s, m, root, limit, v, e, pool, pt);
    } else {
      assert TableAt(s.mem, root, v.Prefix(3)).Some? ==>
        Reaches(s.mem, root, v.Prefix(3), TableAt(s.mem, root, v.Prefix(3)).value);
      LargeMapIsBlockUpdate(s, m, root, limit, v, e, pool);
    }
  }

  /** The descent, one level at a time. */
  lemma {:induction false} DescentExtends(m: Memory, t: nat, v: VPage, tf: Want, pool: seq<nat>, lo: nat, hi: nat)
    requires lo < hi < 4
    requires var d := DescendTo(m, t, v, tf, pool, lo, hi - 1); d.next != 0 && d.next in d.mem
    ensures
      var d := DescendTo(m, t, v, tf, pool, lo, hi - 1);
      DescendTo(m, t, v, tf, pool, lo, hi) == NextTable(d.mem, d.next, v.At(hi - 1), tf, d.pool)
    decreases 4 - lo
  {
    if lo < hi - 1 {
      var d := NextTable(m, t, v.At(lo), tf, pool);
      DescentExtends(d.mem, d.next, v, tf, d.pool, lo + 1, hi);
    }
  }

  /** The write of a 4 KiB map under a large page would hit an entry of its own walk: the large page starts at
      a table on the way to v. */
  ghost predicate HitsOwnWalk(m: Memory, root: nat, v: VPage)
    requires UnderLarge(m, root, v)
  {
    exists k: nat :: HitsAt(m, root, v, Walk(m, root, v).value.entry.page, k)
  }

  predicate HitsAt(m: Memory, root: nat, v: VPage, page: nat, k: nat) {
    k < 3 && Reaches(m, root, v.Prefix(k), page) && v.At(k) == v.i3
  }

  /** A write that hits no entry of a page's walk above the page table leaves it under its large page. */
  lemma WriteBesideWalk(m: Memory, root: nat, v: VPage, t: nat, e: Entry)
    requires UnderLarge(m, root, v) && t in m
    requires forall k: nat :: !HitsAt(m, root, v, t, k)
    ensures UnderLarge(Put(m, t, v.i3, e), root, v)
  {
    var m' := Put(m, t, v.i3, e);
    assert !HitsAt(m, root, v, t, 0) && Reaches(m, root, v.Prefix(0), root);
    var e0 := m[root][v.i0];
    assert m'[root][v.i0] == e0;
    if Links(e0) {
      var pdpt := e0.page;
      assert !HitsAt(m, root, v, t, 1) && Reaches(m, root, v.Prefix(1), pdpt);
      var e1 := m[pdpt][v.i1];
      assert m'[pdpt][v.i1] == e1;
      if Links(e1) {
        var pd := e1.page;
        assert !HitsAt(m, root, v, t, 2) && Reaches(m, root, v.Prefix(2), pd);
        assert m'[pd][v.i2] == m[pd][v.i2];
      }
    }
  }

  /** The descent treats a large page as a table: it writes the new entry into the data page and the
      translation stays the large page, so the map reports success without taking effect. */
  lemma MapUnderLargeHasNoEffect(s: Space, m: Memory, root: nat, limit: nat, v: VPage, e: Entry, pool: seq<nat>)
    requires Owns(s, root, limit) && root != 0 && PoolDrawn(s, m, pool) && |pool| >= 3
    requires UnderLarge(s.mem, root, v) && !HitsOwnWalk(s.mem, root, v)
    ensures UnderLarge(MapLocked(m, root, v, e, pool).mem, root, v)
    ensures MapLocked(m, root, v, e, pool).next == Walk(s.mem, root, v).value.entry.page
  {
    var tf := TableFlags(e.flags);
    DescentToLarge(s, m, root, limit, v, tf, pool);
    var d := DescendTo(m, root, v, tf, pool, 0, 2);
    DescentExtends(m, root, v, tf, pool, 0, 3);
    WriteThroughLarge(d.mem, root, v, d.next, tf, d.pool, e);
  }

  /** The descent to the directory finds the large entry. */
  lemma DescentToLarge(s: Space, m: Memory, root: nat, limit: nat, v: VPage, tf: Want, pool: seq<nat>)
    requires Owns(s, root, limit) && root != 0 && PoolDrawn(s, m, pool) && |pool| >= 3
    requires UnderLarge(s.mem, root, v) && !HitsOwnWalk(s.mem, root, v)
    ensures
      var d, x := DescendTo(m, root, v, tf, pool, 0, 2), Walk(s.mem, root, v).value.entry;
      && d.next != 0 && d.next in d.mem && TreeShaped(d.mem, root) && Reaches(d.mem, root, v.Prefix(2), d.next)
      && d.mem[d.next][v.i2] == x && Present(x) && Large(x)
      && forall k: nat :: !HitsAt(d.mem, root, v, x.page, k)
  {
    var x := Walk(s.mem, root, v).value.entry;
    ClearUnlessLarge(s.mem, root, v);
    DescentFromRoot(s, m, root, limit, v, tf, pool, 2);
    DrawnPool(s, m, root, limit, pool);
    var d := DescendTo(m, root, v, tf, pool, 0, 2);
    LargeIsAtDirectory(s.mem, root, v, 0, root);
    WalkContinues(d.mem, root, v, 2, d.next);
    PlacesFromStart(s.mem, m, d.mem, root);
    forall k: nat ensures !HitsAt(d.mem, root, v, x.page, k) {
      assert !HitsAt(s.mem, root, v, x.page, k);
      if k < 3 { SamePlace(s.mem, d.mem, root, v, k); }
    }
  }

  lemma PlacesFromStart(m: Memory, m': Memory, m'': Memory, root: nat)
    requires SameTables(m, m', root) && KeepsPlaces(m', m'', root)
    ensures KeepsPlaces(m, m'', root)
  {
    forall q, t | Reaches(m, root, q, t) ensures Reaches(m'', root, q, t) { assert Reaches(m', root, q, t); }
  }

  /** Above a large page both trees have the same tables on the way. */
  lemma SamePlace(m: Memory, m': Memory, root: nat, v: VPage, k: nat)
    requires k < 3 && KeepsPlaces(m, m', root) && TableAt(m, root, v.Prefix(2)).Some?
    ensures TableAt(m', root, v.Prefix(k)) == TableAt(m, root, v.Prefix(k))
  {
    if TableAt(m, root, v.Prefix(k)) == None {
      AbsentAbove(m, root, v, k, 2);
    } else {
      assert Reaches(m, root, v.Prefix(k), TableAt(m, root, v.Prefix(k)).value);
    }
  }

  /** One step through a large entry, and the write into the page behind it. */
  lemma WriteThroughLarge(m: Memory, root: nat, v: VPage, pd: nat, tf: Want, pool: seq<nat>, e: Entry)
    requires TreeShaped(m, root) && Reaches(m, root, v.Prefix(2), pd) && pd in m
    requires Present(m[pd][v.i2]) && Large(m[pd][v.i2])
    requires forall k: nat :: !HitsAt(m, root, v, m[pd][v.i2].page, k)
    ensures
      var d := NextTable(m, pd, v.i2, tf, pool);
      && d.next == m[pd][v.i2].page
      && UnderLarge(d.mem, root, v)
      && (d.next in d.mem ==> UnderLarge(Put(d.mem, d.next, v.i3, e), root, v))
  {
    var x := m[pd][v.i2];
    var d := NextTable(m, pd, v.i2, tf, pool);
    var x' := if Has(x.flags, tf) then x else Entry(x.page, With(x.flags, tf));
    assert d.mem == Put(m, pd, v.i2, x') by {
      if x' == x { assert m[pd][v.i2 := x] == m[pd]; assert Put(m, pd, v.i2, x) == m; }
    }
    PutLarge(m, root, v, pd, x');
    if d.next in d.mem {
      forall k: nat ensures !HitsAt(d.mem, root, v, d.next, k) { assert !HitsAt(m, root, v, d.next, k); }
      WriteBesideWalk(d.mem, root, v, d.next, e);
    }
  }

  /** A 4 KiB map takes effect exactly when its page is not under a 2 MiB entry, unless that large page starts
      at a table of the page's own walk, at the very entry the walk uses. */
  lemma MapTakesEffectIff(s: Space, m: Memory, root: nat, limit: nat, v: VPage, e: Entry, pool: seq<nat>)
    requires Owns(s, root, limit) && root != 0 && PoolDrawn(s, m, pool) && |pool| >= 3 && Present(e)
    requires UnderLarge(s.mem, root, v) ==> !HitsOwnWalk(s.mem, root, v)
    ensures Walk(MapLocked(m, root, v, e, pool).mem, root, v) == Some(Leaf(e, 3)) <==> !UnderLarge(s.mem, root, v)
  {
    if UnderLarge(s.mem, root, v) {
      MapUnderLargeHasNoEffect(s, m, root, limit, v, e, pool);
    } else {
      MapIsPointUpdate(s, m, root, limit, v, e, pool);
    }
  }

  /** Memory and the frames to give back after the locked section of vmm_unmap_page_in. */
  datatype Collapsed = Collapsed(mem: Memory, freed: seq<nat>)

  /** The frames of the tables on the way to v, one per level. */
  datatype Chain = Chain(pml4: nat, pdpt: nat, pd: nat, pt: nat) {
    function At(level: nat): nat
      requires level < 4
    {
      if level == 0 then pml4 else if level == 1 then pdpt else if level == 2 then pd else pt
    }

    predicate In(m: Memory) {
      pml4 in m && pdpt in m && pd in m && pt in m
    }
  }

  ghost predicate Follows(m: Memory, root: nat, v: VPage, c: Chain, level: nat)
    requires level < 4
  {
    forall k: nat | k <= level :: Reaches(m, root, v.Prefix(k), c.At(k)) && c.At(k) in m
  }

  /** While the table at this level is empty and is not the root, clear the entry that points to it
      and go on with the table above. */
  function Collapse(m: Memory, v: VPage, c: Chain, level: nat): Collapsed
    requires level < 4 && c.In(m)
  {
    if level == 0 || !IsEmpty(m[c.At(level)]) then Collapsed(m, [])
    else
      var rest := Collapse(Put(m, c.At(level - 1), v.At(level - 1), ZERO), v, c, level - 1);
      Collapsed(rest.mem, [c.At(level)] + rest.freed)
  }

  /** Removing empty tables changes no walk and leaves none empty; what is freed is what was unlinked. */
  ghost predicate Collapses(m: Memory, r: Collapsed, root: nat) {
    && TreeShaped(r.mem, root)
    && NoEmptyTable(r.mem, root, Root)
    && r.mem.Keys == m.Keys
    && SameWalks(m, r.mem, root)
    && Elements(r.freed) <= Tables(m, root) - {root}
    && Tables(r.mem, root) == Tables(m, root) - Elements(r.freed)
    && (forall i, j | 0 <= i < j < |r.freed| :: r.freed[i] != r.freed[j])
    && (forall f | f in m && f !in Tables(m, root) :: r.mem[f] == m[f])
  }

  lemma {:induction false} CollapseCorrect(m: Memory, root: nat, v: VPage, c: Chain, level: nat)
    requires level < 4 && TreeShaped(m, root) && Follows(m, root, v, c, level) && c.In(m)
    requires NoEmptyTable(m, root, v.Prefix(level))
    ensures Collapses(m, Collapse(m, v, c, level), root)
  {
    var n := c.At(level);
    assert Reaches(m, root, v.Prefix(level), n);
    if level == 0 || !IsEmpty(m[n]) {
      forall q, x | Reaches(m, root, q, x) && q != Root ensures x in m && !IsEmpty(m[x]) {
        if q == v.Prefix(level) { assert x == n; }
      }
    } else {
      UnlinkOne(m, root, v, c, level);
      var m' := Put(m, c.At(level - 1), v.At(level - 1), ZERO);
      CollapseCorrect(m', root, v, c, level - 1);
      CollapseJoins(m, m', Collapse(m', v, c, level - 1), root, n);
    }
  }

  /** One round: the empty table at this level leaves the tree. */
  lemma UnlinkOne(m: Memory, root: nat, v: VPage, c: Chain, level: nat)
    requires 0 < level < 4 && TreeShaped(m, root) && Follows(m, root, v, c, level)
    requires NoEmptyTable(m, root, v.Prefix(level)) && c.At(level) in m && IsEmpty(m[c.At(level)])
    requires c.At(level - 1) in m
    ensures
      var m' := Put(m, c.At(level - 1), v.At(level - 1), ZERO);
      && TreeShaped(m', root) && Follows(m', root, v, c, level - 1)
      && NoEmptyTable(m', root, v.Prefix(level - 1)) && SameWalks(m, m', root)
      && Tables(m', root) == Tables(m, root) - {c.At(level)}
      && c.At(level) in Tables(m, root) && c.At(level) != root
      && (forall f | f in m && f !in Tables(m, root) :: m'[f] == m[f])
  {
    var p, t, i := v.Prefix(level - 1), c.At(level - 1), v.At(level - 1);
    assert Reaches(m, root, v.Prefix(level), c.At(level));
    assert Reaches(m, root, p, t) && v.Prefix(level) == Down(p, i);
    Unlink(m, root, p, t, i);
    var m' := Put(m, t, i, ZERO);
    forall k: nat | k <= level - 1 ensures Reaches(m', root, v.Prefix(k), c.At(k)) && c.At(k) in m' {
      assert Reaches(m, root, v.Prefix(k), c.At(k));
      assert Level(v.Prefix(k)) != Level(Down(p, i));
    }
    assert c.At(level) != root by { assert Reaches(m, root, Root, root); }
    assert t in Tables(m, root);
  }

  lemma CollapseJoins(m: Memory, m': Memory, rest: Collapsed, root: nat, n: nat)
    requires m'.Keys == m.Keys && SameWalks(m, m', root) && Collapses(m', rest, root)
    requires Tables(m', root) == Tables(m, root) - {n} && n in Tables(m, root) && n != root
    requires forall f | f in m && f !in Tables(m, root) :: m'[f] == m[f]
    ensures Collapses(m, Collapsed(rest.mem, [n] + rest.freed), root)
  {
    var freed := [n] + rest.freed;
    assert Elements(freed) == {n} + Elements(rest.freed);
    forall i, j | 0 <= i < j < |freed| ensures freed[i] != freed[j] {
      assert freed[j] == rest.freed[j - 1] && freed[j] in Elements(rest.freed);
      if i > 0 { assert freed[i] == rest.freed[i - 1]; }
    }
  }

  predicate Passes(v: VPage, c: Chain, k: nat, t: nat, i: Index) {
    k < 4 && c.At(k) == t && v.At(k) == i
  }

  /** What a collapse changes it clears, on the way to v above the level it starts at. */
  lemma {:induction false} CollapseClears(m: Memory, v: VPage, c: Chain, level: nat, t: nat, i: Index)
    requires level < 4 && c.In(m) && t in m
    ensures
      var m' := Collapse(m, v, c, level).mem;
      t in m' && (m'[t][i] != m[t][i] ==> m'[t][i] == ZERO && exists k: nat :: k < level && Passes(v, c, k, t, i))
  {
    if level > 0 && IsEmpty(m[c.At(level)]) {
      CollapseClears(Put(m, c.At(level - 1), v.At(level - 1), ZERO), v, c, level - 1, t, i);
      assert c.At(level - 1) == t && v.At(level - 1) == i ==> Passes(v, c, level - 1, t, i);
    }
  }

  lemma UnmapClears(s: Space, s': Space, root: nat, v: VPage, c: Chain)
    requires TreeShaped(s.mem, root) && Follows(s.mem, root, v, c, 3) && c.In(s.mem)
    requires s'.mem == Collapse(Put(s.mem, c.pt, v.i3, ZERO), v, c, 3).mem
    ensures ClearsOnly(s, s', root, v)
  {
    var m := Put(s.mem, c.pt, v.i3, ZERO);
    forall t, i: Index | t in Tables(s.mem, root) && t in s'.mem && s'.mem[t][i] != s.mem[t][i]
      ensures s'.mem[t][i] == ZERO && exists k: nat :: OnWay(s.mem, root, v, k, t, i)
    {
      CollapseClears(m, v, c, 3, t, i);
      if m[t][i] != s.mem[t][i] {
        assert OnWay(s.mem, root, v, 3, t, i);
      } else {
        var k: nat :| k < 3 && Passes(v, c, k, t, i);
        assert OnWay(s.mem, root, v, k, t, i);
      }
    }
  }

  /** Clearing a page's slot and collapsing: exactly that page is gone, no empty table remains,
      and the frames freed are exactly the tables that left the tree. */
  lemma UnmapRemovesOne(s: Space, root: nat, limit: nat, v: VPage, c: Chain)
    requires Owns(s, root, limit) && Follows(s.mem, root, v, c, 3) && c.In(s.mem)
    ensures
      var r := Collapse(Put(s.mem, c.pt, v.i3, ZERO), v, c, 3);
      var s' := Space(r.mem, s.free + Elements(r.freed));
      && Owns(s', root, limit) && UnmapsPage(s, s', root, v)
      && Collapses(Put(s.mem, c.pt, v.i3, ZERO), r, root)
      && Tables(Put(s.mem, c.pt, v.i3, ZERO), root) == Tables(s.mem, root)
  {
    assert Reaches(s.mem, root, v.Prefix(3), c.At(3));
    var m := Put(s.mem, c.pt, v.i3, ZERO);
    PutLeaf(s.mem, root, v, c.pt, ZERO);
    forall k: nat | k <= 3 ensures Reaches(m, root, v.Prefix(k), c.At(k)) {
      assert Reaches(s.mem, root, v.Prefix(k), c.At(k));
    }
    forall q, x | Reaches(m, root, q, x) && q != Root && q != v.Prefix(3) ensures x in m && !IsEmpty(m[x]) {
      assert Reaches(s.mem, root, q, x);
      assert x != c.pt;
    }
    CollapseCorrect(m, root, v, c, 3);
    assert c.pt in Tables(s.mem, root);
    UnmapClears(s, Space(Collapse(m, v, c, 3).mem, s.free + Elements(Collapse(m, v, c, 3).freed)), root, v, c);
  }

  /** Nothing in the tree points at a frame that was freed. */
  lemma NothingPointsAtFreed(s: Space, root: nat, limit: nat, t: nat, p: Path, i: Index)
    requires Owns(s, root, limit) && Reaches(s.mem, root, p, t) && Level(p) < 3 && Links(s.mem[t][i])
    ensures s.mem[t][i].page !in s.free
  {
    assert Reaches(s.mem, root, Down(p, i), s.mem[t][i].page);
    assert s.mem[t][i].page in Tables(s.mem, root);
  }
}
