/** get_or_create_next, level by level, with the pool of preallocated tables. */
module Descent {
  import opened Common
  import opened PageTables
  import opened TableWrites

  /** The RW and US bits of a request. */
  datatype Want = Want(rw: bool, us: bool)

  /** table_flags_from_leaf. */
  function TableFlags(flags: Flags): Want {
    Want(flags.rw, flags.us)
  }

  /** (entry & want) == want. */
  predicate Has(f: Flags, want: Want) {
    (want.rw ==> f.rw) && (want.us ==> f.us)
  }

  /** entry | want. */
  function With(f: Flags, want: Want): Flags {
    f.(rw := f.rw || want.rw, us := f.us || want.us)
  }

  /** The flags of a new table entry. */
  function LinkFlags(want: Want): Flags {
    Flags(true, want.rw, want.us, false, 0)
  }

  /** Distinct empty tables that no walk reaches. */
  ghost predicate PoolReady(m: Memory, root: nat, pool: seq<nat>) {
    && (forall i | 0 <= i < |pool| :: pool[i] != 0 && pool[i] in m && IsEmpty(m[pool[i]]))
    && (forall i, j | 0 <= i < j < |pool| :: pool[i] != pool[j])
    && Elements(pool) !! Tables(m, root)
  }

  /** Memory, the untaken tables and the next table (0 when the pool was empty). */
  datatype Descended = Descended(mem: Memory, pool: seq<nat>, next: nat)

  function NextTable(m: Memory, t: nat, i: Index, tf: Want, pool: seq<nat>): Descended
    requires t in m
  {
    var e := m[t][i];
    if Present(e) then
      var m' := if !Has(e.flags, tf) then Put(m, t, i, Entry(e.page, With(e.flags, tf))) else m;
      Descended(m', pool, e.page)
    else if pool == [] then Descended(m, pool, 0)
    else Descended(Put(m, t, i, Entry(pool[0], LinkFlags(tf))), pool[1..], pool[0])
  }

  /** The entries of the first `level` tables on the way to v grant the wanted bits. */
  ghost predicate Grants(m: Memory, root: nat, v: VPage, want: Want, level: nat)
    requires level < 4
  {
    forall k: nat, t | k < level && Reaches(m, root, v.Prefix(k), t) && t in m ::
      Has(m[t][v.At(k)].flags, want)
  }

  /** No table has moved or gone. */
  ghost predicate KeepsPlaces(m: Memory, m': Memory, root: nat) {
    forall q, t :: Reaches(m, root, q, t) ==> Reaches(m', root, q, t)
  }

  /** Going one level down: no walk changes, at most one pooled table joins the tree, the entry
      passed grants the wanted bits, and only the table just reached may be empty. */
  ghost predicate DescendsTo(m: Memory, pool: seq<nat>, d: Descended, root: nat, v: VPage, level: nat, tf: Want)
    requires level < 3
  {
    && TreeShaped(d.mem, root)
    && d.mem.Keys == m.Keys
    && Reaches(d.mem, root, v.Prefix(level + 1), d.next)
    && PoolReady(d.mem, root, d.pool)
    && |pool| - 1 <= |d.pool| <= |pool|
    && Elements(d.pool) <= Elements(pool)
    && Tables(m, root) <= Tables(d.mem, root)
    && Tables(d.mem, root) + Elements(d.pool) == Tables(m, root) + Elements(pool)
    && SameWalks(m, d.mem, root)
    && KeepsPlaces(m, d.mem, root)
    && Grants(d.mem, root, v, tf, level + 1)
    && NoEmptyTable(d.mem, root, v.Prefix(level + 1))
    && (forall f | f in m && f !in Tables(d.mem, root) :: d.mem[f] == m[f])
  }

  lemma Descend(m: Memory, root: nat, v: VPage, level: nat, t: nat, tf: Want, pool: seq<nat>)
    requires level < 3 && TreeShaped(m, root) && Reaches(m, root, v.Prefix(level), t) && t in m
    requires PoolReady(m, root, pool) && pool != []
    requires Present(m[t][v.At(level)]) ==> !Large(m[t][v.At(level)])
    requires Grants(m, root, v, tf, level)
    requires NoEmptyTable(m, root, v.Prefix(level))
    ensures DescendsTo(m, pool, NextTable(m, t, v.At(level), tf, pool), root, v, level, tf)
  {
    var p, i := v.Prefix(level), v.At(level);
    var e := m[t][i];
    if Present(e) {
      DescendExisting(m, root, v, level, t, tf, pool);
    } else {
      DescendFresh(m, root, v, level, t, tf, pool);
    }
  }

  lemma DescendExisting(m: Memory, root: nat, v: VPage, level: nat, t: nat, tf: Want, pool: seq<nat>)
    requires level < 3 && TreeShaped(m, root) && Reaches(m, root, v.Prefix(level), t) && t in m
    requires PoolReady(m, root, pool) && pool != []
    requires Links(m[t][v.At(level)])
    requires Grants(m, root, v, tf, level)
    requires NoEmptyTable(m, root, v.Prefix(level))
    ensures DescendsTo(m, pool, NextTable(m, t, v.At(level), tf, pool), root, v, level, tf)
  {
    var p, i := v.Prefix(level), v.At(level);
    var d := NextTable(m, t, i, tf, pool);
    var e := m[t][i];
    var e' := if !Has(e.flags, tf) then Entry(e.page, With(e.flags, tf)) else e;
    assert d.mem == Put(m, t, i, e') by {
      if e' == e { assert m[t][i := e] == m[t]; assert Put(m, t, i, e) == m; }
    }
    assert Has(e'.flags, tf) && Links(e');
    Widen(m, root, p, t, i, e');
    assert t in Tables(m, root);
    PoolStays(m, d.mem, root, pool, t);
    GrantOne(m, root, v, level, t, tf, e');
    forall q, x | Reaches(d.mem, root, q, x) && q != Root && q != v.Prefix(level + 1)
      ensures x in d.mem && !IsEmpty(d.mem[x])
    {
      assert NoEmptyTable(d.mem, root, Root);
    }
  }

  lemma GrantOne(m: Memory, root: nat, v: VPage, level: nat, t: nat, tf: Want, e: Entry)
    requires level < 3 && TreeShaped(m, root) && Reaches(m, root, v.Prefix(level), t) && t in m
    requires Grants(m, root, v, tf, level) && Has(e.flags, tf)
    ensures Grants(Put(m, t, v.At(level), e), root, v, tf, level + 1)
  {
    var m' := Put(m, t, v.At(level), e);
    PutKeepsOwnPath(m, root, v.Prefix(level), t, v.At(level), e);
    forall k: nat, x | k < level + 1 && Reaches(m', root, v.Prefix(k), x) && x in m'
      ensures Has(m'[x][v.At(k)].flags, tf)
    {
      if k < level {
        if Under(v.Prefix(k), v.Prefix(level), v.At(level)) {
          UnderIsDeeper(v.Prefix(k), v.Prefix(level), v.At(level));
          assert false;
        }
        PutMovesOnlyBelow(m, root, v.Prefix(level), t, v.At(level), e, v.Prefix(k));
        assert Reaches(m, root, v.Prefix(k), x);
        assert x != t;
      }
    }
  }

  lemma DescendFresh(m: Memory, root: nat, v: VPage, level: nat, t: nat, tf: Want, pool: seq<nat>)
    requires level < 3 && TreeShaped(m, root) && Reaches(m, root, v.Prefix(level), t) && t in m
    requires PoolReady(m, root, pool) && pool != []
    requires !Present(m[t][v.At(level)])
    requires Grants(m, root, v, tf, level)
    requires NoEmptyTable(m, root, v.Prefix(level))
    ensures DescendsTo(m, pool, NextTable(m, t, v.At(level), tf, pool), root, v, level, tf)
  {
    var p, i := v.Prefix(level), v.At(level);
    var d := NextTable(m, t, i, tf, pool);
    var n := pool[0];
    var e := Entry(n, LinkFlags(tf));
    assert n in Elements(pool);
    LinkFresh(m, root, p, t, i, e);
    assert t in Tables(m, root);
    RestOfPool(m, d.mem, root, pool, t);
    GrantOne(m, root, v, level, t, tf, e);
  }

  /** What is left of the pool once its first table is in the tree. */
  lemma RestOfPool(m: Memory, m': Memory, root: nat, pool: seq<nat>, t: nat)
    requires PoolReady(m, root, pool) && pool != [] && m'.Keys == m.Keys && t in Tables(m, root)
    requires Tables(m', root) == Tables(m, root) + {pool[0]} && forall f | f in m && f != t :: m'[f] == m[f]
    ensures PoolReady(m', root, pool[1..]) && Elements(pool[1..]) <= Elements(pool)
    ensures Tables(m', root) + Elements(pool[1..]) == Tables(m, root) + Elements(pool)
  {
    var n, rest := pool[0], pool[1..];
    assert pool == [n] + rest;
    assert Elements(pool) == {n} + Elements(rest);
    forall k | 0 <= k < |rest| ensures rest[k] != 0 && rest[k] in m' && IsEmpty(m'[rest[k]]) && rest[k] != n {
      assert rest[k] == pool[k + 1] && rest[k] in Elements(pool);
    }
    forall j, k | 0 <= j < k < |rest| ensures rest[j] != rest[k] {
      assert rest[j] == pool[j + 1] && rest[k] == pool[k + 1];
    }
  }

  /** Writes to a table of the tree leave the pool as it was. */
  lemma PoolStays(m: Memory, m': Memory, root: nat, pool: seq<nat>, t: nat)
    requires PoolReady(m, root, pool) && m'.Keys == m.Keys && t in Tables(m, root)
    requires Tables(m', root) == Tables(m, root) && forall f | f in m && f != t :: m'[f] == m[f]
    ensures PoolReady(m', root, pool)
  {
    forall k | 0 <= k < |pool| ensures m'[pool[k]] == m[pool[k]] { assert pool[k] in Elements(pool); }
  }
}
