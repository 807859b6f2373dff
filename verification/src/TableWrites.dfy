/** The entry writes of the VMM, one lemma each: what they do to the tree and to every walk. */
module TableWrites {
  import opened PageTables

  ghost predicate SameTables(m: Memory, m': Memory, root: nat) {
    && TreeShaped(m', root)
    && m'.Keys == m.Keys
    && Tables(m', root) == Tables(m, root)
    && forall q :: TableAt(m', root, q) == TableAt(m, root, q)
  }

  ghost predicate SameWalks(m: Memory, m': Memory, root: nat) {
    forall v :: Walk(m', root, v) == Walk(m, root, v)
  }

  /** Hanging an empty table nobody reaches on an absent entry: one more table, no walk changed. */
  lemma LinkFresh(m: Memory, root: nat, p: Path, t: nat, i: Index, e: Entry)
    requires TreeShaped(m, root) && Reaches(m, root, p, t) && Level(p) < 3
    requires t in m && !Present(m[t][i])
    requires Links(e) && e.page in m && IsEmpty(m[e.page]) && e.page !in Tables(m, root)
    ensures
      var m' := Put(m, t, i, e);
      && TreeShaped(m', root)
      && Reaches(m', root, Down(p, i), e.page)
      && IsEmpty(m'[e.page])
      && Tables(m', root) == Tables(m, root) + {e.page}
      && SameWalks(m, m', root)
      && (forall q | q != Down(p, i) :: TableAt(m', root, q) == TableAt(m, root, q))
      && TableAt(m, root, Down(p, i)) == None
      && (NoEmptyTable(m, root, p) ==> NoEmptyTable(m', root, Down(p, i)))
  {
    var m' := Put(m, t, i, e);
    var n := e.page;
    assert t != n;
    PutKeepsOwnPath(m, root, p, t, i, e);
    forall q ensures TableAt(m', root, q) == if q == Down(p, i) then Some(n) else TableAt(m, root, q) {
      if Under(q, p, i) {
        NothingBelowSlot(m', root, p, t, i, q);
        NothingBelowSlot(m, root, p, t, i, q);
      } else {
        PutMovesOnlyBelow(m, root, p, t, i, e, q);
      }
    }
    forall q, x | Reaches(m', root, q, x)
      ensures (q == Down(p, i) && x == n) || (Reaches(m, root, q, x) && x != n)
    {
      if q != Down(p, i) { assert Reaches(m, root, q, x); }
    }
    LinkFreshTables(m, m', root, p, i, n);
    forall v ensures Walk(m', root, v) == Walk(m, root, v) {
      if Passes(v, p, i) { WalkThrough(m, root, p, t, i, e, v); } else { WalkBeside(m, root, p, t, i, e, v); }
    }
    if NoEmptyTable(m, root, p) {
      assert Present(m'[t][i]);
    }
  }

  lemma LinkFreshTables(m: Memory, m': Memory, root: nat, p: Path, i: Index, n: nat)
    requires m'.Keys == m.Keys && n in m
    requires forall q :: TableAt(m', root, q) == if q == Down(p, i) then Some(n) else TableAt(m, root, q)
    requires TableAt(m, root, Down(p, i)) == None
    ensures Tables(m', root) == Tables(m, root) + {n}
  {
    forall x ensures x in Tables(m', root) <==> x in Tables(m, root) + {n} {
      if x in Tables(m, root) {
        var q :| Reaches(m, root, q, x);
        assert Reaches(m', root, q, x);
      }
      if x in Tables(m', root) {
        var q :| Reaches(m', root, q, x);
        assert q == Down(p, i) || Reaches(m, root, q, x);
      }
      if x == n {
        assert Reaches(m', root, Down(p, i), x);
      }
    }
  }

  /** A write that does not change where the slot points keeps the tree. */
  lemma KeepTables(m: Memory, root: nat, p: Path, t: nat, i: Index, e: Entry)
    requires TreeShaped(m, root) && Reaches(m, root, p, t) && t in m
    requires Level(p) == 3 || LinkOf(e) == LinkOf(m[t][i])
    requires Level(p) < 2 && Present(e) ==> !Large(e)
    ensures SameTables(m, Put(m, t, i, e), root)
    ensures forall but :: NoEmptyTable(m, root, but) && Present(e) ==>
              NoEmptyTable(Put(m, t, i, e), root, if but == p then Root else but)
  {
    var m' := Put(m, t, i, e);
    forall q ensures TableAt(m', root, q) == TableAt(m, root, q) {
      PutSameLink(m, root, p, t, i, e, q);
    }
    assert forall q, x :: Reaches(m', root, q, x) <==> Reaches(m, root, q, x);
    forall but | NoEmptyTable(m, root, but) && Present(e)
      ensures NoEmptyTable(m', root, if but == p then Root else but)
    {
      assert Present(m'[t][i]);
      forall q, x | Reaches(m', root, q, x) && q != Root && q != (if but == p then Root else but)
        ensures x in m' && !IsEmpty(m'[x])
      {
        assert Reaches(m, root, q, x);
        if x != t { assert q != p; }
      }
    }
  }

  /** Rewriting a table entry without redirecting it (adding permission bits) changes no leaf. */
  lemma Widen(m: Memory, root: nat, p: Path, t: nat, i: Index, e: Entry)
    requires TreeShaped(m, root) && Reaches(m, root, p, t) && Level(p) < 3
    requires t in m && Links(m[t][i]) && Links(e) && e.page == m[t][i].page
    ensures
      var m' := Put(m, t, i, e);
      && SameTables(m, m', root)
      && SameWalks(m, m', root)
      && forall but :: NoEmptyTable(m, root, but) ==> NoEmptyTable(m', root, if but == p then Root else but)
  {
    KeepTables(m, root, p, t, i, e);
    var m' := Put(m, t, i, e);
    forall v ensures Walk(m', root, v) == Walk(m, root, v) {
      if Passes(v, p, i) {
        WalkThrough(m, root, p, t, i, e, v);
        assert Reaches(m, root, v.Prefix(Level(p) + 1), e.page);
        WalkAvoids(m, root, p, t, i, e, v, Level(p) + 1, e.page);
      } else {
        WalkBeside(m, root, p, t, i, e, v);
      }
    }
  }

  /** Writing a slot of a page table sets the leaf of exactly one page. */
  lemma PutLeaf(m: Memory, root: nat, v: VPage, t: nat, e: Entry)
    requires TreeShaped(m, root) && Reaches(m, root, v.Prefix(3), t) && t in m
    ensures
      var m' := Put(m, t, v.i3, e);
      && SameTables(m, m', root)
      && Walk(m', root, v) == (if Present(e) then Some(Leaf(e, 3)) else None)
      && (forall w | w != v :: Walk(m', root, w) == Walk(m, root, w))
  {
    var p := v.Prefix(3);
    KeepTables(m, root, p, t, v.i3, e);
    WalkThrough(m, root, p, t, v.i3, e, v);
    forall w | w != v ensures Walk(Put(m, t, v.i3, e), root, w) == Walk(m, root, w) {
      PrefixDetermines(w, v);
      WalkBeside(m, root, p, t, v.i3, e, w);
    }
  }

  lemma PrefixDetermines(w: VPage, v: VPage)
    ensures w.Prefix(3) == v.Prefix(3) <==> w.i0 == v.i0 && w.i1 == v.i1 && w.i2 == v.i2
  {
    assert w.Prefix(1) == Down(Root, w.i0) && v.Prefix(1) == Down(Root, v.i0);
    assert w.Prefix(2) == Down(w.Prefix(1), w.i1) && v.Prefix(2) == Down(v.Prefix(1), v.i1);
  }

  /** Writing a page-directory slot that points to no table sets the leaf of the 512 pages under it. */
  lemma PutLarge(m: Memory, root: nat, v: VPage, t: nat, e: Entry)
    requires TreeShaped(m, root) && Reaches(m, root, v.Prefix(2), t) && t in m
    requires !Links(m[t][v.i2]) && !Links(e)
    ensures
      var m' := Put(m, t, v.i2, e);
      && SameTables(m, m', root)
      && (forall w: VPage | w.Prefix(3) == v.Prefix(3) ::
            Walk(m', root, w) == if Present(e) then Some(Leaf(e, 2)) else None)
      && (forall w: VPage | w.Prefix(3) != v.Prefix(3) :: Walk(m', root, w) == Walk(m, root, w))
  {
    var p := v.Prefix(2);
    KeepTables(m, root, p, t, v.i2, e);
    forall w
      ensures Walk(Put(m, t, v.i2, e), root, w) ==
                if w.Prefix(3) != v.Prefix(3) then Walk(m, root, w)
                else if Present(e) then Some(Leaf(e, 2)) else None
    {
      assert w.Prefix(3) == v.Prefix(3) <==> Passes(w, p, v.i2);
      if Passes(w, p, v.i2) { WalkThrough(m, root, p, t, v.i2, e, w); } else { WalkBeside(m, root, p, t, v.i2, e, w); }
    }
  }

  /** Clearing the entry of an empty table: one table fewer, no walk changed. */
  lemma Unlink(m: Memory, root: nat, p: Path, t: nat, i: Index)
    requires TreeShaped(m, root) && Reaches(m, root, p, t) && Level(p) < 3
    requires t in m && Links(m[t][i]) && m[t][i].page in m && IsEmpty(m[m[t][i].page])
    ensures
      var m', n := Put(m, t, i, ZERO), m[t][i].page;
      && TreeShaped(m', root)
      && Reaches(m', root, p, t)
      && Tables(m', root) == Tables(m, root) - {n}
      && n in Tables(m, root)
      && SameWalks(m, m', root)
      && (NoEmptyTable(m, root, Down(p, i)) ==> NoEmptyTable(m', root, p))
      && (forall q :: TableAt(m', root, q) == if q == Down(p, i) then None else TableAt(m, root, q))
  {
    var m', n := Put(m, t, i, ZERO), m[t][i].page;
    PutKeepsOwnPath(m, root, p, t, i, ZERO);
    assert Reaches(m, root, Down(p, i), n);
    forall q ensures TableAt(m', root, q) == if q == Down(p, i) then None else TableAt(m, root, q) {
      if Under(q, p, i) {
        NothingBelowSlot(m', root, p, t, i, q);
        NothingBelowSlot(m, root, p, t, i, q);
      } else {
        PutMovesOnlyBelow(m, root, p, t, i, ZERO, q);
      }
    }
    forall q, x | Reaches(m', root, q, x) ensures q != Down(p, i) && Reaches(m, root, q, x) && x != n {
      assert Reaches(m, root, q, x);
    }
    UnlinkTables(m, m', root, p, i, n);
    forall v ensures Walk(m', root, v) == Walk(m, root, v) {
      if Passes(v, p, i) { WalkThrough(m, root, p, t, i, ZERO, v); } else { WalkBeside(m, root, p, t, i, ZERO, v); }
    }
    if NoEmptyTable(m, root, Down(p, i)) {
      forall q, x | Reaches(m', root, q, x) && q != Root && q != p ensures x in m' && !IsEmpty(m'[x]) {
        assert Reaches(m, root, q, x);
        assert x != t;
      }
    }
  }

  lemma UnlinkTables(m: Memory, m': Memory, root: nat, p: Path, i: Index, n: nat)
    requires m'.Keys == m.Keys && n in m && Reaches(m, root, Down(p, i), n)
    requires forall q :: TableAt(m', root, q) == if q == Down(p, i) then None else TableAt(m, root, q)
    requires forall q :: Reaches(m, root, q, n) ==> q == Down(p, i)
    ensures Tables(m', root) == Tables(m, root) - {n}
  {
    forall x ensures x in Tables(m', root) <==> x in Tables(m, root) - {n} {
      if x in Tables(m, root) - {n} {
        var q :| Reaches(m, root, q, x);
        assert Reaches(m', root, q, x);
      }
      if x in Tables(m', root) {
        var q :| Reaches(m', root, q, x);
        assert Reaches(m, root, q, x);
      }
    }
  }
}
