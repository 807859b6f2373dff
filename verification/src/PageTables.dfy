/** Four-level page tables in physical memory: what the hardware walk sees, and what a single
    entry write does to it. */
module PageTables {

  datatype Option<+T> = None | Some(value: T)

  /** The low 12 bits of an entry: the four the code looks at, and the other eight. */
  datatype Flags = Flags(present: bool, rw: bool, us: bool, ps: bool, other: nat)

  /** A 64-bit entry, split exactly into its low 12 bits and the page number above them. */
  datatype Entry = Entry(page: nat, flags: Flags)

  const NO_FLAGS := Flags(false, false, false, false, 0)
  const ZERO := Entry(0, NO_FLAGS)

  predicate Present(e: Entry) { e.flags.present }

  predicate Large(e: Entry) { e.flags.ps }

  type Table = t: seq<Entry> | |t| == 512 witness seq(512, _ => ZERO)

  type Index = i: nat | i < 512

  /** Physical memory, frame by frame, as page-table entries. */
  type Memory = map<nat, Table>

  /** The indices followed from the root to reach a table: level 0 is the PML4, level 3 a page table. */
  datatype Path = Root | Down(parent: Path, index: Index)

  function Level(p: Path): nat {
    match p
    case Root => 0
    case Down(q, _) => Level(q) + 1
  }

  /** The four indices of a virtual page. */
  datatype VPage = VPage(i0: Index, i1: Index, i2: Index, i3: Index) {
    function At(level: nat): Index
      requires level < 4
    {
      if level == 0 then i0 else if level == 1 then i1 else if level == 2 then i2 else i3
    }

    /** The path of the table that the walk of this page reaches at a level. */
    function Prefix(level: nat): (p: Path)
      requires level < 4
      ensures Level(p) == level
    {
      if level == 0 then Root else Down(Prefix(level - 1), At(level - 1))
    }
  }

  /** (virt_addr >> 39) & 0x1FF and so on. */
  function PageOf(virt: nat): VPage {
    VPage(virt / 0x80_0000_0000 % 512, virt / 0x4000_0000 % 512, virt / 0x20_0000 % 512, virt / 0x1000 % 512)
  }

  /** An entry that points to a table of the next level. */
  predicate Links(e: Entry) {
    Present(e) && !Large(e)
  }

  /** The frame of the table at the end of a path, if every entry on the way links. */
  function TableAt(m: Memory, root: nat, p: Path): Option<nat> {
    match p
    case Root => Some(root)
    case Down(q, i) =>
      match TableAt(m, root, q)
      case None => None
      case Some(t) => if Level(q) < 3 && t in m && Links(m[t][i]) then Some(m[t][i].page) else None
  }

  predicate Reaches(m: Memory, root: nat, p: Path, t: nat) {
    TableAt(m, root, p) == Some(t)
  }

  /** What a virtual page translates to: the leaf entry and the level it was found at. */
  datatype Leaf = Leaf(entry: Entry, level: nat)

  /** The hardware walk, section 4.5 of the Intel SDM, Volume 3A: the page-size bit ends it early
      at the PDPT and PD levels. */
  function WalkFrom(m: Memory, t: nat, v: VPage, level: nat): Option<Leaf>
    requires level < 4
    decreases 4 - level
  {
    if t !in m then None else
    var e := m[t][v.At(level)];
    if !Present(e) then None
    else if level == 3 then Some(Leaf(e, 3))
    else if Large(e) then (if level == 0 then None else Some(Leaf(e, level)))
    else WalkFrom(m, e.page, v, level + 1)
  }

  function Walk(m: Memory, root: nat, v: VPage): Option<Leaf> {
    WalkFrom(m, root, v, 0)
  }

  /** Every table reached lies in memory, no table is reached by two paths, and large pages occur
      only at the PD level. */
  ghost predicate TreeShaped(m: Memory, root: nat) {
    && (forall p, t :: Reaches(m, root, p, t) ==> t in m)
    && (forall p, q, t :: Reaches(m, root, p, t) && Reaches(m, root, q, t) ==> p == q)
    && (forall p, t, i: Index :: Reaches(m, root, p, t) && Level(p) < 2 && Present(m[t][i]) ==> !Large(m[t][i]))
  }

  /** The tables reachable from the root, the root included. */
  ghost function Tables(m: Memory, root: nat): set<nat> {
    set t | t in m && exists p :: Reaches(m, root, p, t)
  }

  predicate IsEmpty(tb: Table) {
    forall i: Index :: !Present(tb[i])
  }

  /** Every reachable table except the root, and possibly the one at `but`, holds a present entry. */
  ghost predicate NoEmptyTable(m: Memory, root: nat, but: Path) {
    forall p, t :: Reaches(m, root, p, t) && p != Root && p != but ==> t in m && !IsEmpty(m[t])
  }

  /** Memory after writing entry e at index i of the table in frame t. */
  function Put(m: Memory, t: nat, i: Index, e: Entry): (r: Memory)
    requires t in m
    ensures r.Keys == m.Keys
  {
    m[t := m[t][i := e]]
  }

  /** The path goes through slot i of the table at p. */
  predicate Under(q: Path, p: Path, i: Index) {
    q.Down? && ((q.parent == p && q.index == i) || Under(q.parent, p, i))
  }

  lemma {:induction false} UnderIsDeeper(q: Path, p: Path, i: Index)
    requires Under(q, p, i)
    ensures Level(q) > Level(p)
  {
    if !(q.parent == p && q.index == i) { UnderIsDeeper(q.parent, p, i); }
  }

  /** A write to one slot of one table of a tree moves no table that is not below that slot. */
  lemma {:induction false} PutMovesOnlyBelow(m: Memory, root: nat, p: Path, t: nat, i: Index, e: Entry, q: Path)
    requires TreeShaped(m, root) && Reaches(m, root, p, t) && !Under(q, p, i)
    ensures t in m && TableAt(Put(m, t, i, e), root, q) == TableAt(m, root, q)
  {
    assert t in m;
    if q.Down? {
      PutMovesOnlyBelow(m, root, p, t, i, e, q.parent);
      if TableAt(m, root, q.parent) == Some(t) {
        assert Reaches(m, root, q.parent, t);
        assert q.parent == p;
      }
    }
  }

  lemma PutKeepsOwnPath(m: Memory, root: nat, p: Path, t: nat, i: Index, e: Entry)
    requires TreeShaped(m, root) && Reaches(m, root, p, t)
    ensures t in m && Reaches(Put(m, t, i, e), root, p, t)
  {
    if Under(p, p, i) { UnderIsDeeper(p, p, i); assert false; }
    PutMovesOnlyBelow(m, root, p, t, i, e, p);
  }

  function LinkOf(e: Entry): Option<nat> {
    if Links(e) then Some(e.page) else None
  }

  /** A write that keeps where the slot points moves no table at all. */
  lemma {:induction false} PutSameLink(m: Memory, root: nat, p: Path, t: nat, i: Index, e: Entry, q: Path)
    requires TreeShaped(m, root) && Reaches(m, root, p, t)
    requires t in m && (Level(p) == 3 || LinkOf(e) == LinkOf(m[t][i]))
    ensures TableAt(Put(m, t, i, e), root, q) == TableAt(m, root, q)
  {
    if q.Down? {
      PutSameLink(m, root, p, t, i, e, q.parent);
      if TableAt(m, root, q.parent) == Some(t) {
        assert Reaches(m, root, q.parent, t);
        assert q.parent == p;
      }
    }
  }

  /** A slot below which a table gives no table: nothing under an empty table is reached. */
  lemma {:induction false} NothingBelowSlot(m: Memory, root: nat, p: Path, t: nat, i: Index, q: Path)
    requires Reaches(m, root, p, t) && t in m && Under(q, p, i)
    requires Links(m[t][i]) ==> m[t][i].page in m && IsEmpty(m[m[t][i].page])
    ensures TableAt(m, root, q) == if q == Down(p, i) && Level(p) < 3 then LinkOf(m[t][i]) else None
  {
    if !(q.parent == p && q.index == i) {
      UnderIsDeeper(q.parent, p, i);
      NothingBelowSlot(m, root, p, t, i, q.parent);
    }
  }

  lemma {:induction false} AbsentAbove(m: Memory, root: nat, v: VPage, k: nat, level: nat)
    requires k <= level < 4 && TableAt(m, root, v.Prefix(k)) == None
    ensures TableAt(m, root, v.Prefix(level)) == None
  {
    if k < level { AbsentAbove(m, root, v, k, level - 1); }
  }

  /** A walk that has reached a table continues from there. */
  lemma {:induction false} WalkContinues(m: Memory, root: nat, v: VPage, level: nat, t: nat)
    requires level < 4 && Reaches(m, root, v.Prefix(level), t)
    ensures Walk(m, root, v) == WalkFrom(m, t, v, level)
  {
    if level > 0 {
      var u := TableAt(m, root, v.Prefix(level - 1)).value;
      WalkContinues(m, root, v, level - 1, u);
    }
  }

  predicate Passes(v: VPage, p: Path, i: Index) {
    Level(p) < 4 && v.Prefix(Level(p)) == p && v.At(Level(p)) == i
  }

  /** Below or beside the written slot a walk goes on as before. */
  lemma {:induction false} WalkAvoids(m: Memory, root: nat, p: Path, t: nat, i: Index, e: Entry,
                                      v: VPage, level: nat, u: nat)
    requires TreeShaped(m, root) && Reaches(m, root, p, t) && t in m
    requires level < 4 && Reaches(m, root, v.Prefix(level), u)
    requires level > Level(p) || !Passes(v, p, i)
    ensures WalkFrom(Put(m, t, i, e), u, v, level) == WalkFrom(m, u, v, level)
    decreases 4 - level
  {
    assert u in m;
    if u == t {
      assert v.Prefix(level) == p;
    }
    var x := m[u][v.At(level)];
    if level < 3 && Links(x) {
      assert v.Prefix(level + 1) == Down(v.Prefix(level), v.At(level));
      assert Reaches(m, root, v.Prefix(level + 1), x.page);
      WalkAvoids(m, root, p, t, i, e, v, level + 1, x.page);
    }
  }

  /** A write changes the walk of no page that does not pass through the written slot. */
  lemma WalkBeside(m: Memory, root: nat, p: Path, t: nat, i: Index, e: Entry, v: VPage)
    requires TreeShaped(m, root) && Reaches(m, root, p, t) && t in m && !Passes(v, p, i)
    ensures Walk(Put(m, t, i, e), root, v) == Walk(m, root, v)
  {
    assert Reaches(m, root, v.Prefix(0), root);
    WalkAvoids(m, root, p, t, i, e, v, 0, root);
  }

  /** The walk of a page through the written slot resumes at the written entry. */
  lemma WalkThrough(m: Memory, root: nat, p: Path, t: nat, i: Index, e: Entry, v: VPage)
    requires TreeShaped(m, root) && Reaches(m, root, p, t) && t in m && Passes(v, p, i)
    ensures Walk(Put(m, t, i, e), root, v) == WalkFrom(Put(m, t, i, e), t, v, Level(p))
    ensures Walk(m, root, v) == WalkFrom(m, t, v, Level(p))
  {
    PutKeepsOwnPath(m, root, p, t, i, e);
    WalkContinues(Put(m, t, i, e), root, v, Level(p), t);
    WalkContinues(m, root, v, Level(p), t);
  }

  /** A translation found at some level passes through a table at each level above. */
  lemma {:induction false} WalkHasTables(m: Memory, root: nat, v: VPage, level: nat, k: nat, t: nat)
    requires k <= level < 4 && Reaches(m, root, v.Prefix(k), t)
    requires WalkFrom(m, t, v, k).Some? && WalkFrom(m, t, v, k).value.level >= level
    ensures TableAt(m, root, v.Prefix(level)).Some?
    decreases level - k
  {
    if k < level {
      var n := m[t][v.At(k)].page;
      assert v.Prefix(k + 1) == Down(v.Prefix(k), v.At(k));
      assert Reaches(m, root, v.Prefix(k + 1), n);
      WalkHasTables(m, root, v, level, k + 1, n);
    }
  }
}
