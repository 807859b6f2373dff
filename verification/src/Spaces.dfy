/** Address spaces: a page-table tree next to the free frames it may draw on. */
module Spaces {
  import opened PageTables
  import opened TableWrites

  /** Physical memory and the allocator's free set. */
  datatype Space = Space(mem: Memory, free: set<nat>)

  /** The root spans a tree of non-empty tables, none of them free; tables other than the root are
      allocator frames, and every allocatable frame exists. */
  ghost predicate Owns(s: Space, root: nat, limit: nat) {
    && TreeShaped(s.mem, root)
    && NoEmptyTable(s.mem, root, Root)
    && Tables(s.mem, root) !! s.free
    && (forall t | t in Tables(s.mem, root) && t != root :: 0 < t < limit)
    && (forall f | f in s.free :: 0 < f < limit)
    && (forall f: nat | f < limit :: f in s.mem)
  }

  /** Frames only move between the tree and the free set. */
  ghost predicate Conserves(s: Space, s': Space, root: nat) {
    && s'.mem.Keys == s.mem.Keys
    && Tables(s'.mem, root) + s'.free == Tables(s.mem, root) + s.free
    && forall f | f in s.mem && f !in Tables(s.mem, root) + s.free :: s'.mem[f] == s.mem[f]
  }

  /** An entry on the way to a page, before and after its leaf e is mapped: a link that was there gains the write
      and user bits of the leaf and nothing else, and a new link has exactly those two. */
  predicate PathEntry(x: Entry, x': Entry, e: Entry) {
    if Present(x) then
      && x'.page == x.page
      && x'.flags == Flags(true, x.flags.rw || e.flags.rw, x.flags.us || e.flags.us, x.flags.ps, x.flags.other)
    else x'.flags == Flags(true, e.flags.rw, e.flags.us, false, 0)
  }

  /** The entry of a table, or zero if the table was not in the tree. */
  ghost function Was(s: Space, root: nat, t: nat, i: Index): Entry {
    if t in Tables(s.mem, root) then s.mem[t][i] else ZERO
  }

  /** The first `level` entries on the way to v let through what e lets through, and no more than they did and e
      does. */
  ghost predicate Permits(s: Space, s': Space, root: nat, v: VPage, e: Entry, level: nat)
    requires level < 4
  {
    forall k: nat, t | k < level && Reaches(s'.mem, root, v.Prefix(k), t) && t in s'.mem ::
      PathEntry(Was(s, root, t, v.At(k)), s'.mem[t][v.At(k)], e)
  }

  predicate OnWay(m: Memory, root: nat, v: VPage, k: nat, t: nat, i: Index) {
    k < 4 && Reaches(m, root, v.Prefix(k), t) && v.At(k) == i
  }

  /** No entry of a table that was there changes but those on the way to v. */
  ghost predicate WritesOnly(s: Space, s': Space, root: nat, v: VPage, level: nat) {
    forall t, i: Index | t in Tables(s.mem, root) && t in s'.mem && s'.mem[t][i] != s.mem[t][i] ::
      exists k: nat :: k <= level && OnWay(s'.mem, root, v, k, t, i)
  }

  /** The effect of a successful 4 KiB map of page v to entry e. */
  ghost predicate MapsPage(s: Space, s': Space, root: nat, v: VPage, e: Entry) {
    && Conserves(s, s', root)
    && Tables(s.mem, root) <= Tables(s'.mem, root)
    && Walk(s'.mem, root, v) == Some(Leaf(e, 3))
    && (forall w | w != v :: Walk(s'.mem, root, w) == Walk(s.mem, root, w))
    && Permits(s, s', root, v, e, 3) && WritesOnly(s, s', root, v, 3)
  }

  /** The effect of a successful 2 MiB map: the 512 pages sharing v's page-directory slot. */
  ghost predicate MapsLarge(s: Space, s': Space, root: nat, v: VPage, e: Entry) {
    && Conserves(s, s', root)
    && Tables(s.mem, root) <= Tables(s'.mem, root)
    && (forall w: VPage | w.Prefix(3) == v.Prefix(3) :: Walk(s'.mem, root, w) == Some(Leaf(e, 2)))
    && (forall w: VPage | w.Prefix(3) != v.Prefix(3) :: Walk(s'.mem, root, w) == Walk(s.mem, root, w))
    && Permits(s, s', root, v, e, 2) && WritesOnly(s, s', root, v, 2)
  }

  /** An entry of a table that changes was on the way to v and becomes zero. */
  ghost predicate ClearsOnly(s: Space, s': Space, root: nat, v: VPage) {
    forall t, i: Index | t in Tables(s.mem, root) && t in s'.mem && s'.mem[t][i] != s.mem[t][i] ::
      s'.mem[t][i] == ZERO && exists k: nat :: OnWay(s.mem, root, v, k, t, i)
  }

  /** The effect of a successful unmap: one page gone, tables only handed back. */
  ghost predicate UnmapsPage(s: Space, s': Space, root: nat, v: VPage) {
    && ClearsOnly(s, s', root, v)
    && Conserves(s, s', root)
    && Tables(s'.mem, root) <= Tables(s.mem, root)
    && Walk(s'.mem, root, v) == None
    && (forall w | w != v :: Walk(s'.mem, root, w) == Walk(s.mem, root, w))
  }

  /** The effect of a call that fails: at most scratch writes to free frames. */
  ghost predicate KeepsAll(s: Space, s': Space) {
    && s'.mem.Keys == s.mem.Keys
    && s'.free == s.free
    && forall f | f in s.mem && f !in s.free :: s'.mem[f] == s.mem[f]
  }

  /** Memory that agrees on every table of the tree spans the same tree with the same walks. */
  lemma {:induction false} SameOnTables(m: Memory, m': Memory, root: nat)
    requires TreeShaped(m, root) && m'.Keys == m.Keys
    requires forall t | t in Tables(m, root) :: m'[t] == m[t]
    ensures SameTables(m, m', root) && SameWalks(m, m', root)
    ensures forall but :: NoEmptyTable(m, root, but) ==> NoEmptyTable(m', root, but)
  {
    forall q ensures TableAt(m', root, q) == TableAt(m, root, q) { SameTableAt(m, m', root, q); }
    assert forall q, x :: Reaches(m', root, q, x) <==> Reaches(m, root, q, x);
    forall q, x | Reaches(m, root, q, x) ensures x in m && m'[x] == m[x] { assert x in Tables(m, root); }
    forall v ensures Walk(m', root, v) == Walk(m, root, v) {
      assert Reaches(m, root, v.Prefix(0), root);
      SameWalkFrom(m, m', root, v, 0, root);
    }
  }

  lemma {:induction false} SameTableAt(m: Memory, m': Memory, root: nat, q: Path)
    requires TreeShaped(m, root) && m'.Keys == m.Keys
    requires forall t | t in Tables(m, root) :: m'[t] == m[t]
    ensures TableAt(m', root, q) == TableAt(m, root, q)
  {
    if q.Down? {
      SameTableAt(m, m', root, q.parent);
      if t :| TableAt(m, root, q.parent) == Some(t) {
        assert Reaches(m, root, q.parent, t) && t in Tables(m, root);
      }
    }
  }

  lemma {:induction false} SameWalkFrom(m: Memory, m': Memory, root: nat, v: VPage, level: nat, u: nat)
    requires TreeShaped(m, root) && m'.Keys == m.Keys
    requires forall t | t in Tables(m, root) :: m'[t] == m[t]
    requires level < 4 && Reaches(m, root, v.Prefix(level), u)
    ensures WalkFrom(m', u, v, level) == WalkFrom(m, u, v, level)
    decreases 4 - level
  {
    assert u in Tables(m, root);
    var x := m[u][v.At(level)];
    if level < 3 && Links(x) {
      assert v.Prefix(level + 1) == Down(v.Prefix(level), v.At(level));
      assert Reaches(m, root, v.Prefix(level + 1), x.page);
      SameWalkFrom(m, m', root, v, level + 1, x.page);
    }
  }

  /** A zeroed root reaches no other table. */
  lemma {:induction false} ZeroRootIsAlone(m: Memory, root: nat, p: Path)
    requires root in m && IsEmpty(m[root])
    ensures TableAt(m, root, p) == if p == Root then Some(root) else None
  {
    if p.Down? { ZeroRootIsAlone(m, root, p.parent); }
  }

  /** An address space starts owned: a zeroed root that is not free, with every allocatable frame in memory. */
  lemma ZeroRootIsOwned(s: Space, root: nat, limit: nat)
    requires root in s.mem && IsEmpty(s.mem[root]) && root !in s.free
    requires (forall f | f in s.free :: 0 < f < limit) && (forall f: nat | f < limit :: f in s.mem)
    ensures Owns(s, root, limit) && Tables(s.mem, root) == {root}
    ensures forall v :: Walk(s.mem, root, v) == None
  {
    forall p, t ensures Reaches(s.mem, root, p, t) <==> p == Root && t == root {
      ZeroRootIsAlone(s.mem, root, p);
    }
    assert Reaches(s.mem, root, Root, root);
  }

  /** A call that fails leaves every translation, every table and the free set as they were. */
  lemma FailureIsInvisible(s: Space, s': Space, root: nat, limit: nat)
    requires Owns(s, root, limit) && KeepsAll(s, s')
    ensures Owns(s', root, limit) && SameTables(s.mem, s'.mem, root) && SameWalks(s.mem, s'.mem, root)
  {
    SameOnTables(s.mem, s'.mem, root);
  }

  /** Operations on one root do not touch another address space whose tables are disjoint from it. */
  lemma OtherSpaceUntouched(s: Space, s': Space, root: nat, other: nat)
    requires Conserves(s, s', root) && TreeShaped(s.mem, other)
    requires Tables(s.mem, other) !! Tables(s.mem, root) + s.free
    ensures SameTables(s.mem, s'.mem, other) && SameWalks(s.mem, s'.mem, other)
  {
    forall t | t in Tables(s.mem, other) ensures s'.mem[t] == s.mem[t] {
      assert t !in Tables(s.mem, root) + s.free;
    }
    SameOnTables(s.mem, s'.mem, other);
  }
}
