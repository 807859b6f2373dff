/** Runs from an empty address space on which a map goes wrong. */
module VmmExamples {
  import opened Common
  import opened PageTables
  import opened Descent
  import opened Spaces
  import opened Mapping
  import opened VmmSteps
  import opened VmmRuns

  const ROOT: nat := 1
  const LIMIT: nat := 16

  /** The first frame of the large page: 2 MiB. */
  const DATA: nat := 512

  const SMALL_ENTRY := Entry(700, Flags(true, true, false, false, 0))
  const LARGE_ENTRY := Entry(DATA, Flags(true, true, false, true, 0))

  function Blank(): (t: Table)
    ensures IsEmpty(t)
  {
    seq(512, _ => ZERO)
  }

  predicate Exists(f: nat) {
    f < 1024
  }

  predicate StartsFree(f: nat) {
    2 <= f <= 10
  }

  /** 1024 zeroed frames, of which 2 to 10 are free; the root is frame 1. */
  ghost function Start(): Space {
    var blank := Blank();
    Space(map f: nat | f < 1024 && Exists(f) :: blank, set f: nat | f < 1024 && StartsFree(f))
  }

  lemma StartIsOwned()
    ensures Owns(Start(), ROOT, LIMIT) && |Start().free| >= 3 && Tables(Start().mem, ROOT) == {ROOT}
    ensures forall f: nat | 2 <= f <= 10 :: f in Start().free
    ensures forall v :: Walk(Start().mem, ROOT, v) == None
  {
    assert Exists(ROOT) && forall f: nat | f < LIMIT :: Exists(f);
    ZeroRootIsOwned(Start(), ROOT, LIMIT);
    forall f: nat | 2 <= f <= 10 ensures f in Start().free { assert StartsFree(f); }
    SubsetSize({2, 3, 4}, Start().free);
  }

  /** Memory with some frames zeroed, as filling a pool leaves it. */
  ghost function Zeroed(m: Memory, pool: seq<nat>): Memory {
    var blank := Blank();
    map f | f in m :: if f in pool then blank else m[f]
  }

  lemma ZeroedPool(s: Space, pool: seq<nat>)
    requires Elements(pool) <= s.free && forall f | f in s.free :: f in s.mem
    requires forall i, j | 0 <= i < j < |pool| :: pool[i] != pool[j]
    ensures PoolDrawn(s, Zeroed(s.mem, pool), pool)
  {
    forall i | 0 <= i < |pool| ensures pool[i] in s.mem && IsEmpty(Zeroed(s.mem, pool)[pool[i]]) {
      assert pool[i] in Elements(pool);
    }
  }

  /** A map call with a drawn pool is a step. */
  lemma MapSteps(s: Space, root: nat, limit: nat, v: VPage, e: Entry, drawn: seq<nat>) returns (s': Space)
    requires root != 0 && Owns(s, root, limit) && Allowed(s, root, Map(v, e)) && |drawn| == 3
    requires |s.free| >= 3 && Elements(drawn) <= s.free
    requires forall i, j | 0 <= i < j < |drawn| :: drawn[i] != drawn[j]
    ensures Step(s, s', root, Map(v, e), true) && s.free - Elements(drawn) <= s'.free
  {
    var m := Zeroed(s.mem, drawn);
    ZeroedPool(s, drawn);
    s' := Settle(s, drawn, MapLocked(m, root, v, e, drawn));
    assert MapsBy(s, s', root, v, e, m, drawn);
  }

  lemma LargeMapSteps(s: Space, root: nat, limit: nat, v: VPage, e: Entry, drawn: seq<nat>) returns (s': Space)
    requires root != 0 && Owns(s, root, limit) && Allowed(s, root, MapLarge(v, e)) && |drawn| == 2
    requires |s.free| >= 2 && Elements(drawn) <= s.free
    requires forall i, j | 0 <= i < j < |drawn| :: drawn[i] != drawn[j]
    ensures Step(s, s', root, MapLarge(v, e), true) && s.free - Elements(drawn) <= s'.free
  {
    var m := Zeroed(s.mem, drawn);
    ZeroedPool(s, drawn);
    s' := Settle(s, drawn, MapLargeLocked(m, root, v, e, drawn));
    assert MapsLargeBy(s, s', root, v, e, m, drawn);
  }

  lemma UnderLargeMapped(s0: Space, s1: Space, root: nat, limit: nat, v: VPage, large: Entry)
    requires root != 0 && Owns(s0, root, limit) && Step(s0, s1, root, MapLarge(v, large), true)
    requires large.page !in Tables(s0.mem, root) + s0.free
    ensures Owns(s1, root, limit) && s1.mem.Keys == s0.mem.Keys
    ensures Walk(s1.mem, root, v) == Some(Leaf(large, 2)) && !HitsOwnWalk(s1.mem, root, v)
  {
    StepKeepsOwned(s0, s1, root, limit, MapLarge(v, large), true);
    LargeEntryBesideWalk(s0, s1, root, limit, v, large);
  }

  lemma LargeEntryBesideWalk(s0: Space, s1: Space, root: nat, limit: nat, v: VPage, large: Entry)
    requires Owns(s1, root, limit) && MapsLarge(s0, s1, root, v, large)
    requires large.page !in Tables(s0.mem, root) + s0.free
    ensures Walk(s1.mem, root, v) == Some(Leaf(large, 2)) && !HitsOwnWalk(s1.mem, root, v)
  {
    assert large.page !in Tables(s1.mem, root);
    NotOnOwnWalk(s1, root, limit, v);
  }

  lemma NotOnOwnWalk(s: Space, root: nat, limit: nat, v: VPage)
    requires Owns(s, root, limit) && UnderLarge(s.mem, root, v)
    requires Walk(s.mem, root, v).value.entry.page !in Tables(s.mem, root)
    ensures !HitsOwnWalk(s.mem, root, v)
  {
    forall k: nat, t | k < 3 && Reaches(s.mem, root, v.Prefix(k), t) ensures t in Tables(s.mem, root) {
    }
  }

  lemma {:induction false} DescentKeys(m: Memory, t: nat, v: VPage, tf: Want, pool: seq<nat>, lo: nat, hi: nat)
    requires lo <= hi < 4
    ensures DescendTo(m, t, v, tf, pool, lo, hi).mem.Keys == m.Keys
    decreases 4 - lo
  {
    if lo < hi && t in m {
      var d := NextTable(m, t, v.At(lo), tf, pool);
      if d.next != 0 { DescentKeys(d.mem, d.next, v, tf, d.pool, lo + 1, hi); }
    }
  }

  lemma StillFree(s0: Space, s1: Space, drawn: seq<nat>, pool: seq<nat>)
    requires s0.free - Elements(drawn) <= s1.free
    requires Elements(pool) <= s0.free && Elements(pool) !! Elements(drawn)
    ensures Elements(pool) <= s1.free
  {
  }

  lemma LargeThenSmall(s0: Space, root: nat, limit: nat, v: VPage, large: Entry, e: Entry,
                       drawn: seq<nat>, pool: seq<nat>)
    returns (s1: Space, m1: Memory)
    requires root != 0 && Owns(s0, root, limit) && Allowed(s0, root, MapLarge(v, large))
    requires large.page != 0 && large.page in s0.mem && large.page !in Tables(s0.mem, root) + s0.free
    requires |s0.free| >= 2 && Elements(drawn) <= s0.free && |drawn| == 2
    requires forall i, j | 0 <= i < j < |drawn| :: drawn[i] != drawn[j]
    requires Elements(pool) <= s0.free && Elements(pool) !! Elements(drawn) && |pool| == 3
    requires forall i, j | 0 <= i < j < |pool| :: pool[i] != pool[j]
    ensures Step(s0, s1, root, MapLarge(v, large), true) && PoolDrawn(s1, m1, pool)
    ensures
      var d := MapLocked(m1, root, v, e, pool);
      d.next != 0 && d.next in d.mem && UnderLarge(d.mem, root, v)
  {
    s1 := LargeMapSteps(s0, root, limit, v, large, drawn);
    UnderLargeMapped(s0, s1, root, limit, v, large);
    StillFree(s0, s1, drawn, pool);
    m1 := SmallUnderLarge(s1, root, limit, v, large, e, pool);
  }

  lemma SmallUnderLarge(s: Space, root: nat, limit: nat, v: VPage, large: Entry, e: Entry, pool: seq<nat>)
    returns (m: Memory)
    requires root != 0 && Owns(s, root, limit) && Walk(s.mem, root, v) == Some(Leaf(large, 2))
    requires !HitsOwnWalk(s.mem, root, v) && large.page != 0 && large.page in s.mem
    requires Elements(pool) <= s.free && |pool| == 3 && forall i, j | 0 <= i < j < |pool| :: pool[i] != pool[j]
    ensures PoolDrawn(s, m, pool)
    ensures
      var d := MapLocked(m, root, v, e, pool);
      d.next != 0 && d.next in d.mem && UnderLarge(d.mem, root, v)
  {
    m := Zeroed(s.mem, pool);
    ZeroedPool(s, pool);
    MapUnderLargeHasNoEffect(s, m, root, limit, v, e, pool);
    DescentKeys(m, root, v, TableFlags(e.flags), pool, 0, 3);
  }

  lemma SmallThenLarge(s0: Space, root: nat, limit: nat, v: VPage, e: Entry, large: Entry,
                       drawn: seq<nat>, pool: seq<nat>)
    returns (s1: Space, m1: Memory, pt: nat)
    requires root != 0 && Owns(s0, root, limit) && Allowed(s0, root, Map(v, e)) && Present(large) && Large(large)
    requires |s0.free| >= 3 && Elements(drawn) <= s0.free && |drawn| == 3
    requires forall i, j | 0 <= i < j < |drawn| :: drawn[i] != drawn[j]
    requires Elements(pool) <= s0.free && Elements(pool) !! Elements(drawn) && |pool| == 2 && pool[0] != pool[1]
    ensures Step(s0, s1, root, Map(v, e), true) && PoolDrawn(s1, m1, pool)
    ensures
      var s2 := Settle(s1, pool, MapLargeLocked(m1, root, v, large, pool));
      pt in Tables(s1.mem, root) && pt !in Tables(s2.mem, root) && pt !in s2.free
  {
    s1 := MapSteps(s0, root, limit, v, e, drawn);
    pt := TableOfMapped(s0, s1, root, limit, v, e);
    StillFree(s0, s1, drawn, pool);
    m1 := LargeOverTable(s1, root, limit, v, large, pool, pt);
  }

  lemma TableOfMapped(s0: Space, s1: Space, root: nat, limit: nat, v: VPage, e: Entry) returns (pt: nat)
    requires root != 0 && Owns(s0, root, limit) && Step(s0, s1, root, Map(v, e), true)
    ensures Owns(s1, root, limit) && Reaches(s1.mem, root, v.Prefix(3), pt)
  {
    StepKeepsOwned(s0, s1, root, limit, Map(v, e), true);
    UnmapFindsMapped(s0, s1, root, limit, v, e);
    pt := TableAt(s1.mem, root, v.Prefix(3)).value;
  }

  lemma LargeOverTable(s: Space, root: nat, limit: nat, v: VPage, large: Entry, pool: seq<nat>, pt: nat)
    returns (m: Memory)
    requires root != 0 && Owns(s, root, limit) && Reaches(s.mem, root, v.Prefix(3), pt)
    requires Present(large) && Large(large) && Elements(pool) <= s.free && |pool| == 2 && pool[0] != pool[1]
    ensures PoolDrawn(s, m, pool)
    ensures
      var s' := Settle(s, pool, MapLargeLocked(m, root, v, large, pool));
      pt in Tables(s.mem, root) && pt !in Tables(s'.mem, root) && pt !in s'.free
  {
    m := Zeroed(s.mem, pool);
    ZeroedPool(s, pool);
    LargeMapOverTableLeaks(s, m, root, limit, v, large, pool, pt);
  }

  /** From an empty address space, for every page: a 2 MiB map of its slot and then a 4 KiB map of the page,
      which reports success and leaves the page under the 2 MiB entry. */
  lemma MapAfterLargeMap(v: VPage, e: Entry) returns (s1: Space, m1: Memory, pool: seq<nat>)
    ensures Step(Start(), s1, ROOT, MapLarge(v, LARGE_ENTRY), true) && PoolDrawn(s1, m1, pool) && |pool| == 3
    ensures
      var d := MapLocked(m1, ROOT, v, e, pool);
      d.next != 0 && d.next in d.mem && UnderLarge(d.mem, ROOT, v)
  {
    StartIsOwned();
    NothingMapped(v);
    pool := [4, 5, 6];
    s1, m1 := LargeThenSmall(Start(), ROOT, LIMIT, v, LARGE_ENTRY, e, [2, 3], pool);
  }

  /** From an empty address space, for every page: a 4 KiB map and then a 2 MiB map of its slot, after which the
      page table of the first is neither in the tree nor free. */
  lemma LargeMapAfterMap(v: VPage) returns (s1: Space, m1: Memory, pool: seq<nat>, pt: nat)
    ensures Step(Start(), s1, ROOT, Map(v, SMALL_ENTRY), true) && PoolDrawn(s1, m1, pool) && |pool| == 2
    ensures
      var s2 := Settle(s1, pool, MapLargeLocked(m1, ROOT, v, LARGE_ENTRY, pool));
      pt in Tables(s1.mem, ROOT) && pt !in Tables(s2.mem, ROOT) && pt !in s2.free
  {
    StartIsOwned();
    NothingMapped(v);
    pool := [5, 6];
    s1, m1, pt := SmallThenLarge(Start(), ROOT, LIMIT, v, SMALL_ENTRY, LARGE_ENTRY, [2, 3, 4], pool);
  }

  lemma NothingMapped(v: VPage)
    ensures Allowed(Start(), ROOT, Map(v, SMALL_ENTRY)) && Allowed(Start(), ROOT, MapLarge(v, LARGE_ENTRY))
    ensures LARGE_ENTRY.page in Start().mem && LARGE_ENTRY.page !in Tables(Start().mem, ROOT) + Start().free
  {
    StartIsOwned();
    assert Exists(ROOT) && Exists(DATA) && !StartsFree(DATA);
    ZeroRootIsAlone(Start().mem, ROOT, v.Prefix(3));
  }
}
