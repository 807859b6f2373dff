/** The page-table operations, on tables borrowed from the frame allocator. */
module Vmm {
  import opened Common
  import opened Bitmaps
  import opened Pmm
  import opened PageTables
  import opened Descent
  import opened Spaces
  import opened Addresses
  import opened Mapping
  import opened VmmSteps

  /** The slots of a pool array that have not been taken, in order. */
  function Untaken(pool: seq<nat>): seq<nat> {
    if pool == [] then [] else if pool[0] == 0 then Untaken(pool[1..]) else [pool[0]] + Untaken(pool[1..])
  }

  lemma {:induction false} UntakenAll(pool: seq<nat>)
    requires forall i | 0 <= i < |pool| :: pool[i] != 0
    ensures Untaken(pool) == pool
  {
    if pool != [] { UntakenAll(pool[1..]); }
  }

  lemma {:induction false} UntakenAfter(pool: seq<nat>, k: nat)
    requires k <= |pool| && forall i | 0 <= i < k :: pool[i] == 0
    ensures Untaken(pool) == Untaken(pool[k..])
  {
    if k > 0 {
      UntakenAfter(pool[1..], k - 1);
      assert pool[1..][k - 1..] == pool[k..];
    } else {
      assert pool[0..] == pool;
    }
  }

  /** take_prealloc: the first slot that is not 0, which becomes 0. */
  method TakePrealloc(pool: seq<nat>) returns (t: nat, left: seq<nat>)
    ensures Untaken(pool) == [] ==> t == 0 && left == pool
    ensures Untaken(pool) != [] ==> t != 0 && [t] + Untaken(left) == Untaken(pool)
  {
    left := pool;
    var i := 0;
    while i < |pool|
      invariant 0 <= i <= |pool|
      invariant forall k | 0 <= k < i :: pool[k] == 0
    {
      if pool[i] != 0 {
        t := pool[i];
        left := pool[i := 0];
        UntakenAfter(pool, i);
        UntakenAfter(left, i + 1);
        assert left[i + 1..] == pool[i..][1..];
        return;
      }
      i := i + 1;
    }
    UntakenAfter(pool, |pool|);
    return 0, pool;
  }

  /** table_empty. */
  method TableEmpty(tb: Table) returns (empty: bool)
    ensures empty <==> IsEmpty(tb)
  {
    var i: nat := 0;
    while i < 512
      invariant i <= 512
      invariant forall k: Index | k < i :: !Present(tb[k])
    {
      if Present(tb[i]) {
        return false;
      }
      i := i + 1;
    }
    return true;
  }

  class AddressSpaces {
    const pmm: FrameAllocator
    var mem: Memory

    /** Memory that holds every allocatable frame; each zeroed root outside the free set is an address space
        without a mapping. */
    constructor (pmm: FrameAllocator, mem: Memory)
      requires pmm.Valid() && forall f: nat | f < pmm.frameLimit :: f in mem
      ensures this.pmm == pmm && this.mem == mem
      ensures forall root | root in mem && IsEmpty(mem[root]) && root !in pmm.free ::
                Valid(root) && forall v :: Walk(mem, root, v) == None
    {
      this.pmm := pmm;
      this.mem := mem;
      new;
      forall root | root in mem && IsEmpty(mem[root]) && root !in pmm.free
        ensures Valid(root) && forall v :: Walk(mem, root, v) == None
      {
        forall f | f in pmm.free ensures 0 < f < pmm.frameLimit { assert f in Frames(0, pmm.frameLimit); }
        ZeroRootIsOwned(State(), root, pmm.frameLimit);
      }
    }

    ghost function State(): Space
      reads this, pmm
    {
      Space(mem, pmm.free)
    }

    /** The allocator is consistent and the root spans a tree it owns. */
    ghost predicate Valid(root: nat)
      reads this, pmm, pmm.bitmap
    {
      pmm.Valid() && Owns(State(), root, pmm.frameLimit)
    }

    /** alloc_table: a frame from the allocator, all its entries zeroed. */
    method AllocTable() returns (t: nat)
      requires pmm.Valid() && forall f | f in pmm.free :: f in mem
      modifies this`mem, pmm`cursor, pmm`freeFrames, pmm`usedFrames, pmm`free, pmm.bitmap
      ensures pmm.Valid() && mem.Keys == old(mem.Keys)
      ensures t == 0 <==> old(pmm.free) == {}
      ensures t == 0 ==> pmm.free == old(pmm.free) && mem == old(mem)
      ensures t != 0 ==> t in old(pmm.free) && pmm.free == old(pmm.free) - {t} && t in mem && IsEmpty(mem[t])
      ensures forall f | f in mem && f != t :: mem[f] == old(mem)[f]
    {
      var phys := pmm.AllocPages(1);
      SingleRun(old(pmm.free), pmm.frameLimit);
      if phys == 0 {
        return 0;
      }
      t := phys / PAGE_SIZE;
      ZeroTable(t);
    }

    method ZeroTable(t: nat)
      requires t in mem
      modifies this`mem
      ensures mem.Keys == old(mem.Keys) && t in mem && IsEmpty(mem[t])
      ensures forall f | f in mem && f != t :: mem[f] == old(mem)[f]
    {
      var i: nat := 0;
      while i < 512
        invariant i <= 512
        invariant mem.Keys == old(mem.Keys) && t in mem
        invariant forall f | f in mem && f != t :: mem[f] == old(mem)[f]
        invariant forall k: Index | k < i :: mem[t][k] == ZERO
      {
        mem := Put(mem, t, i, ZERO);
        i := i + 1;
      }
    }

    /** One round of alloc_table_pool. */
    method DrawTable(ghost s: Space, ghost drawn: seq<nat>) returns (t: nat)
      requires Drawing(s, drawn)
      modifies this`mem, pmm`cursor, pmm`freeFrames, pmm`usedFrames, pmm`free, pmm.bitmap
      ensures t == 0 <==> |s.free| == |drawn|
      ensures t == 0 ==> Drawing(s, drawn)
      ensures t != 0 ==> Drawing(s, drawn + [t])
    {
      t := AllocTable();
      if t != 0 {
        DrawOne(s, old(mem), mem, drawn, t);
      }
    }

    /** The allocator and memory part-way through filling a pool. */
    ghost predicate Drawing(s: Space, drawn: seq<nat>)
      reads this, pmm, pmm.bitmap
    {
      && pmm.Valid()
      && PoolDrawn(s, mem, drawn)
      && pmm.free == s.free - Elements(drawn)
      && |pmm.free| == |s.free| - |drawn|
      && forall f | f in s.free :: f in s.mem && 0 < f < pmm.frameLimit
    }

    /** alloc_table_pool: fills the pool, or gives everything back. Succeeds exactly when that many
        frames are free. */
    method AllocTablePool(count: nat) returns (ok: bool, pool: seq<nat>)
      requires Drawing(State(), [])
      modifies this`mem, pmm`cursor, pmm`freeFrames, pmm`usedFrames, pmm`free, pmm.bitmap
      ensures ok <==> |old(pmm.free)| >= count
      ensures ok ==> |pool| == count && Drawing(old(State()), pool)
      ensures !ok ==> pmm.Valid() && KeepsAll(old(State()), State())
    {
      ghost var s := State();
      pool := [];
      while |pool| < count
        invariant |pool| <= count
        invariant Drawing(s, pool)
      {
        var t := DrawTable(s, pool);
        if t == 0 {
          UndoDraw(s, pool);
          return false, pool;
        }
        pool := pool + [t];
      }
      return true, pool;
    }

    /** Gives everything drawn back to the allocator. */
    method UndoDraw(ghost s: Space, drawn: seq<nat>)
      requires Drawing(s, drawn)
      modifies pmm`cursor, pmm`freeFrames, pmm`usedFrames, pmm`free, pmm.bitmap
      ensures pmm.Valid() && KeepsAll(s, State())
    {
      forall j | 0 <= j < |drawn| ensures drawn[j] in s.free { assert drawn[j] in Elements(drawn); }
      FreeTables(drawn);
    }

    /** pmm_free_page on each of a list of tables. */
    method FreeTables(list: seq<nat>)
      requires pmm.Valid() && forall j | 0 <= j < |list| :: 0 < list[j] < pmm.frameLimit
      modifies pmm`cursor, pmm`freeFrames, pmm`usedFrames, pmm`free, pmm.bitmap
      ensures pmm.Valid() && pmm.free == old(pmm.free) + Elements(list)
    {
      ghost var given := {};
      assert Elements(list[..0]) == {};
      var j := 0;
      while j < |list|
        invariant 0 <= j <= |list|
        invariant pmm.Valid() && pmm.free == old(pmm.free) + given
        invariant given == Elements(list[..j])
      {
        var t := list[j];
        FreeTable(t);
        assert list[..j + 1] == list[..j] + [t];
        GrowPool(list[..j], t);
        given := given + {t};
        j := j + 1;
      }
      assert list[..j] == list;
    }

    /** get_or_create_next. */
    method GetOrCreateNext(t: nat, i: Index, want: Want, pool: seq<nat>) returns (next: nat, left: seq<nat>)
      requires t in mem
      modifies this`mem
      ensures Descended(mem, Untaken(left), next) == NextTable(old(mem), t, i, want, Untaken(pool))
    {
      var entry := mem[t][i];
      if Present(entry) {
        if !Has(entry.flags, want) {
          mem := Put(mem, t, i, Entry(entry.page, With(entry.flags, want)));
        }
        return entry.page, pool;
      }
      next, left := TakePrealloc(pool);
      if next == 0 {
        return;
      }
      mem := Put(mem, t, i, Entry(next, LinkFlags(want)));
    }

    /** vmm_map_page_in. Succeeds exactly when three frames are free, and then is a point update of
        the walk; once the pool is filled the descent cannot run out of tables. */
    method MapPageIn(root: nat, virt: nat, phys: nat, flags: Flags) returns (ok: bool)
      requires root != 0 ==> Valid(root) && !UnderLarge(mem, root, PageOf(virt))
      modifies this`mem, pmm`cursor, pmm`freeFrames, pmm`usedFrames, pmm`free, pmm.bitmap
      ensures root == 0 ==> !ok && State() == old(State())
      ensures root != 0 ==> Valid(root) && (ok <==> |old(pmm.free)| >= 3)
      ensures ok ==> MapsPage(old(State()), State(), root, PageOf(virt), PageEntry(phys, flags))
      ensures ok ==> MapsAddress(old(mem), mem, root, virt, phys, flags)
      ensures root != 0 && !ok ==> KeepsAll(old(State()), State())
      ensures root != 0 ==> Step(old(State()), State(), root, Map(PageOf(virt), PageEntry(phys, flags)), ok)
    {
      if root == 0 {
        return false;
      }
      ghost var s := State();
      ok := MapPage(root, PageOf(virt), PageEntry(phys, flags));
      if ok { MapTranslates(s, State(), root, virt, phys, flags); }
    }

    /** vmm_map_page_in once the root is known to be there. */
    method MapPage(root: nat, v: VPage, e: Entry) returns (ok: bool)
      requires root != 0 && Valid(root) && !UnderLarge(mem, root, v) && Present(e)
      modifies this`mem, pmm`cursor, pmm`freeFrames, pmm`usedFrames, pmm`free, pmm.bitmap
      ensures Valid(root) && (ok <==> |old(pmm.free)| >= 3)
      ensures ok ==> MapsPage(old(State()), State(), root, v, e)
      ensures !ok ==> KeepsAll(old(State()), State())
      ensures Step(old(State()), State(), root, Map(v, e), ok)
    {
      ghost var s := State();
      var pool;
      ok, pool := PoolFor(root, 3);
      if ok { MapFromPool(s, root, v, e, pool); }
    }

    /** The pool a map call needs, drawn before the lock is taken. */
    method PoolFor(root: nat, count: nat) returns (ok: bool, pool: seq<nat>)
      requires root != 0 && Valid(root)
      modifies this`mem, pmm`cursor, pmm`freeFrames, pmm`usedFrames, pmm`free, pmm.bitmap
      ensures ok <==> |old(pmm.free)| >= count
      ensures ok ==> |pool| == count && Drawing(old(State()), pool)
      ensures !ok ==> Valid(root) && KeepsAll(old(State()), State())
    {
      ghost var s := State();
      StartDrawing(s);
      ok, pool := AllocTablePool(count);
      if !ok { FailureIsInvisible(s, State(), root, pmm.frameLimit); }
    }

    method MapFromPool(ghost s: Space, root: nat, v: VPage, e: Entry, pool: seq<nat>)
      requires root != 0 && Owns(s, root, pmm.frameLimit) && Drawing(s, pool) && |pool| == 3
      requires !UnderLarge(s.mem, root, v) && Present(e)
      modifies this`mem, pmm`cursor, pmm`freeFrames, pmm`usedFrames, pmm`free, pmm.bitmap
      ensures Valid(root) && MapsPage(s, State(), root, v, e)
      ensures MapsBy(s, State(), root, v, e, old(mem), pool)
    {
      ghost var m := mem;
      MapWithPool(s, root, v, e, pool);
      MapIsPointUpdate(s, m, root, pmm.frameLimit, v, e, pool);
    }

    /** vmm_map_page_in once the pool is filled: the locked section, then the leftover tables. */
    method MapWithPool(ghost s: Space, root: nat, v: VPage, e: Entry, pool: seq<nat>)
      requires root != 0 && Owns(s, root, pmm.frameLimit) && Drawing(s, pool) && |pool| == 3
      requires !UnderLarge(s.mem, root, v) && Present(e)
      modifies this`mem, pmm`cursor, pmm`freeFrames, pmm`usedFrames, pmm`free, pmm.bitmap
      ensures pmm.Valid() && State() == Settle(s, pool, MapLocked(old(mem), root, v, e, pool))
    {
      DescentPool(s, mem, root, pmm.frameLimit, v, TableFlags(e.flags), pool, 3);
      var left := MapSection(s, root, v, e, TableFlags(e.flags), pool);
      FreePool(s, pool, left);
    }

    /** The locked section of vmm_map_page_in. */
    method MapSection(ghost s: Space, root: nat, v: VPage, e: Entry, want: Want, pool: seq<nat>)
        returns (left: seq<nat>)
      requires root != 0 && Owns(s, root, pmm.frameLimit) && PoolDrawn(s, mem, pool) && |pool| == 3
      requires !UnderLarge(s.mem, root, v) && want == TableFlags(e.flags)
      modifies this`mem
      ensures MapLocked(old(mem), root, v, e, pool).mem == mem
      ensures MapLocked(old(mem), root, v, e, pool).pool == Untaken(left)
    {
      ghost var m := mem;
      PoolUntaken(s, m, root, pmm.frameLimit, pool);
      ClearUnlessLarge(s.mem, root, v);
      DescentLevel(s, m, root, pmm.frameLimit, v, want, pool, 1);
      DescentLevel(s, m, root, pmm.frameLimit, v, want, pool, 2);
      DescentLevel(s, m, root, pmm.frameLimit, v, want, pool, 3);
      var pdpt, pool1 := GetOrCreateNext(root, v.i0, want, pool);
      var pd, pool2 := GetOrCreateNext(pdpt, v.i1, want, pool1);
      var pt, pool3 := GetOrCreateNext(pd, v.i2, want, pool2);
      mem := Put(mem, pt, v.i3, e);
      left := pool3;
    }

    /** vmm_map_2m_in. Succeeds exactly when two frames are free, and then sets the 512 pages of one
        page-directory slot. */
    method MapLargeIn(root: nat, virt: nat, phys: nat, flags: Flags) returns (ok: bool)
      requires root != 0 ==> Valid(root) && TableAt(mem, root, PageOf(virt).Prefix(3)) == None
      modifies this`mem, pmm`cursor, pmm`freeFrames, pmm`usedFrames, pmm`free, pmm.bitmap
      ensures root == 0 ==> !ok && State() == old(State())
      ensures root != 0 ==> Valid(root) && (ok <==> |old(pmm.free)| >= 2)
      ensures ok ==> MapsLarge(old(State()), State(), root, PageOf(virt), LargeEntry(phys, flags))
      ensures ok ==> MapsBlock(old(mem), mem, root, virt, phys, flags)
      ensures root != 0 && !ok ==> KeepsAll(old(State()), State())
      ensures root != 0 ==> Step(old(State()), State(), root, Call.MapLarge(PageOf(virt), LargeEntry(phys, flags)), ok)
    {
      if root == 0 {
        return false;
      }
      ghost var s := State();
      ok := MapLarge(root, PageOf(virt), LargeEntry(phys, flags));
      if ok { LargeMapTranslates(s, State(), root, virt, phys, flags); }
    }

    method MapLarge(root: nat, v: VPage, e: Entry) returns (ok: bool)
      requires root != 0 && Valid(root) && TableAt(mem, root, v.Prefix(3)) == None && Present(e) && Large(e)
      modifies this`mem, pmm`cursor, pmm`freeFrames, pmm`usedFrames, pmm`free, pmm.bitmap
      ensures Valid(root) && (ok <==> |old(pmm.free)| >= 2)
      ensures ok ==> MapsLarge(old(State()), State(), root, v, e)
      ensures !ok ==> KeepsAll(old(State()), State())
      ensures Step(old(State()), State(), root, Call.MapLarge(v, e), ok)
    {
      ghost var s := State();
      var pool;
      ok, pool := PoolFor(root, 2);
      if ok { MapLargeFromPool(s, root, v, e, pool); }
    }

    method MapLargeFromPool(ghost s: Space, root: nat, v: VPage, e: Entry, pool: seq<nat>)
      requires root != 0 && Owns(s, root, pmm.frameLimit) && Drawing(s, pool) && |pool| == 2
      requires TableAt(s.mem, root, v.Prefix(3)) == None && Present(e) && Large(e)
      modifies this`mem, pmm`cursor, pmm`freeFrames, pmm`usedFrames, pmm`free, pmm.bitmap
      ensures Valid(root) && MapsLarge(s, State(), root, v, e)
      ensures MapsLargeBy(s, State(), root, v, e, old(mem), pool)
    {
      ghost var m := mem;
      MapLargeWithPool(s, root, v, e, pool);
      LargeMapIsBlockUpdate(s, m, root, pmm.frameLimit, v, e, pool);
    }

    method MapLargeWithPool(ghost s: Space, root: nat, v: VPage, e: Entry, pool: seq<nat>)
      requires root != 0 && Owns(s, root, pmm.frameLimit) && Drawing(s, pool) && |pool| == 2
      requires TableAt(s.mem, root, v.Prefix(3)) == None && Present(e) && Large(e)
      modifies this`mem, pmm`cursor, pmm`freeFrames, pmm`usedFrames, pmm`free, pmm.bitmap
      ensures pmm.Valid() && State() == Settle(s, pool, MapLargeLocked(old(mem), root, v, e, pool))
    {
      DescentPool(s, mem, root, pmm.frameLimit, v, TableFlags(e.flags), pool, 2);
      var left := MapLargeSection(s, root, v, e, TableFlags(e.flags), pool);
      FreePool(s, pool, left);
    }

    /** The locked section of vmm_map_2m_in. */
    method MapLargeSection(ghost s: Space, root: nat, v: VPage, e: Entry, want: Want, pool: seq<nat>)
        returns (left: seq<nat>)
      requires root != 0 && Owns(s, root, pmm.frameLimit) && PoolDrawn(s, mem, pool) && |pool| == 2
      requires want == TableFlags(e.flags)
      modifies this`mem
      ensures MapLargeLocked(old(mem), root, v, e, pool).mem == mem
      ensures MapLargeLocked(old(mem), root, v, e, pool).pool == Untaken(left)
    {
      ghost var m := mem;
      PoolUntaken(s, m, root, pmm.frameLimit, pool);
      ClearUnlessLarge(s.mem, root, v);
      DescentLevel(s, m, root, pmm.frameLimit, v, want, pool, 1);
      DescentLevel(s, m, root, pmm.frameLimit, v, want, pool, 2);
      var pdpt, pool1 := GetOrCreateNext(root, v.i0, want, pool);
      var pd, pool2 := GetOrCreateNext(pdpt, v.i1, want, pool1);
      mem := Put(mem, pd, v.i2, e);
      left := pool2;
    }

    /** vmm_unmap_page_in. Succeeds exactly when a page table covers the page; then that page and no
        other is gone, and the tables this empties go back to the allocator. */
    method UnmapPageIn(root: nat, virt: nat) returns (ok: bool)
      requires root != 0 ==> Valid(root)
      modifies this`mem, pmm`cursor, pmm`freeFrames, pmm`usedFrames, pmm`free, pmm.bitmap
      ensures root == 0 ==> !ok
      ensures root != 0 ==> Valid(root) && (ok <==> TableAt(old(mem), root, PageOf(virt).Prefix(3)).Some?)
      ensures ok ==> UnmapsPage(old(State()), State(), root, PageOf(virt))
      ensures ok ==> UnmapsAddress(old(mem), mem, root, virt)
      ensures !ok ==> State() == old(State())
      ensures root != 0 ==> Step(old(State()), State(), root, Unmap(PageOf(virt)), ok)
    {
      if root == 0 {
        return false;
      }
      var c;
      ok, c := FindTables(root, PageOf(virt));
      if !ok {
        return;
      }
      ghost var s := State();
      UnmapAt(root, PageOf(virt), c);
      UnmapTranslates(s, State(), root, virt);
    }

    /** The presence checks of vmm_unmap_page_in. */
    method FindTables(root: nat, v: VPage) returns (ok: bool, c: Chain)
      requires TreeShaped(mem, root)
      ensures ok <==> TableAt(mem, root, v.Prefix(3)).Some?
      ensures ok ==> Follows(mem, root, v, c, 3) && c.In(mem)
    {
      ok, c := false, Chain(root, 0, 0, 0);
      assert Reaches(mem, root, v.Prefix(0), root);
      StepDown(mem, root, v, 0, root);
      var pml4e := mem[root][v.i0];
      if !Present(pml4e) {
        AbsentAbove(mem, root, v, 1, 3);
        return;
      }
      var pdpt := pml4e.page;
      StepDown(mem, root, v, 1, pdpt);
      var pdpte := mem[pdpt][v.i1];
      if !Present(pdpte) {
        AbsentAbove(mem, root, v, 2, 3);
        return;
      }
      var pd := pdpte.page;
      StepDown(mem, root, v, 2, pd);
      var pde := mem[pd][v.i2];
      if !Present(pde) || Large(pde) {
        return;
      }
      var pt := pde.page;
      c := Chain(root, pdpt, pd, pt);
      assert c.At(0) == root && c.At(1) == pdpt && c.At(2) == pd && c.At(3) == pt;
      assert Reaches(mem, root, v.Prefix(3), pt);
      ok := true;
    }

    method UnmapAt(root: nat, v: VPage, c: Chain)
      requires Valid(root) && Follows(mem, root, v, c, 3) && c.In(mem)
      modifies this`mem, pmm`cursor, pmm`freeFrames, pmm`usedFrames, pmm`free, pmm.bitmap
      ensures Valid(root) && UnmapsPage(old(State()), State(), root, v)
      ensures UnmapsBy(old(State()), State(), root, v, c)
    {
      ghost var s := State();
      FreedInRange(s, root, pmm.frameLimit, v, c);
      var freed := ClearAndCollapse(v, c);
      FreeTables(freed);
      UnmapRemovesOne(s, root, pmm.frameLimit, v, c);
    }

    /** The writes of vmm_unmap_page_in, with the frames to free. */
    method ClearAndCollapse(v: VPage, c: Chain) returns (freed: seq<nat>)
      requires c.In(mem)
      modifies this`mem
      ensures Collapsed(mem, freed) == Collapse(Put(old(mem), c.pt, v.i3, ZERO), v, c, 3)
    {
      freed := [];
      mem := Put(mem, c.pt, v.i3, ZERO);
      var empty := TableEmpty(mem[c.pt]);
      if !empty { return; }
      mem := Put(mem, c.pd, v.i2, ZERO);
      freed := freed + [c.pt];
      ghost var m2 := mem;
      empty := TableEmpty(mem[c.pd]);
      if !empty { return; }
      mem := Put(mem, c.pdpt, v.i1, ZERO);
      freed := freed + [c.pd];
      ghost var m1 := mem;
      empty := TableEmpty(mem[c.pdpt]);
      if empty {
        mem := Put(mem, c.pml4, v.i0, ZERO);
        freed := freed + [c.pdpt];
        assert Collapse(m1, v, c, 1) == Collapsed(mem, [c.pdpt]);
      }
      assert Collapse(m2, v, c, 2) == Collapsed(mem, freed[1..]);
    }

    /** free_table_pool: gives back the slots that were not taken. */
    method FreePool(ghost s: Space, ghost drawn: seq<nat>, pool: seq<nat>)
      requires pmm.Valid() && pmm.free == s.free - Elements(drawn)
      requires forall f | f in s.free :: 0 < f < pmm.frameLimit
      requires Elements(Untaken(pool)) <= Elements(drawn) <= s.free
      modifies pmm`cursor, pmm`freeFrames, pmm`usedFrames, pmm`free, pmm.bitmap
      ensures pmm.Valid() && pmm.free == s.free - Elements(drawn) + Elements(Untaken(pool))
    {
      var list := Untaken(pool);
      forall j | 0 <= j < |list| ensures list[j] in s.free { assert list[j] in Elements(list); }
      FreeTables(list);
    }

    method FreeTable(t: nat)
      requires pmm.Valid() && 0 < t < pmm.frameLimit
      modifies pmm`cursor, pmm`freeFrames, pmm`usedFrames, pmm`free, pmm.bitmap
      ensures pmm.Valid() && pmm.free == old(pmm.free) + {t}
    {
      pmm.FreePage(t * PAGE_SIZE);
    }
  }

  /** From a table on the way to v, the next one is where its entry says. */
  lemma StepDown(m: Memory, root: nat, v: VPage, level: nat, t: nat)
    requires TreeShaped(m, root) && level < 3 && Reaches(m, root, v.Prefix(level), t)
    ensures t in m
    ensures level < 2 && Present(m[t][v.At(level)]) ==> Links(m[t][v.At(level)])
    ensures TableAt(m, root, v.Prefix(level + 1)) == LinkOf(m[t][v.At(level)])
    ensures Links(m[t][v.At(level)]) ==>
              Reaches(m, root, v.Prefix(level + 1), m[t][v.At(level)].page) && m[t][v.At(level)].page in m
  {
    if Links(m[t][v.At(level)]) {
      assert Reaches(m, root, v.Prefix(level + 1), m[t][v.At(level)].page);
    }
  }

  lemma FreedInRange(s: Space, root: nat, limit: nat, v: VPage, c: Chain)
    requires Owns(s, root, limit) && Follows(s.mem, root, v, c, 3) && c.In(s.mem)
    ensures
      var freed := Collapse(Put(s.mem, c.pt, v.i3, ZERO), v, c, 3).freed;
      forall j | 0 <= j < |freed| :: 0 < freed[j] < limit
  {
    UnmapRemovesOne(s, root, limit, v, c);
    var freed := Collapse(Put(s.mem, c.pt, v.i3, ZERO), v, c, 3).freed;
    forall j | 0 <= j < |freed| ensures 0 < freed[j] < limit { assert freed[j] in Elements(freed); }
  }

  lemma StartDrawing(s: Space)
    ensures PoolDrawn(s, s.mem, []) && s.free - Elements([]) == s.free
  {
    assert Elements([]) == {};
  }

  lemma PoolUntaken(s: Space, m: Memory, root: nat, limit: nat, pool: seq<nat>)
    requires Owns(s, root, limit) && PoolDrawn(s, m, pool)
    ensures Untaken(pool) == pool
  {
    DrawnPool(s, m, root, limit, pool);
    UntakenAll(pool);
  }

  lemma GrowPool(pool: seq<nat>, t: nat)
    ensures Elements(pool + [t]) == Elements(pool) + {t}
  {
  }

  lemma DrawOne(s: Space, m: Memory, m': Memory, drawn: seq<nat>, t: nat)
    requires PoolDrawn(s, m, drawn) && m'.Keys == m.Keys
    requires t in s.free - Elements(drawn) && t in m' && IsEmpty(m'[t])
    requires forall f | f in m && f != t :: m'[f] == m[f]
    ensures PoolDrawn(s, m', drawn + [t])
    ensures s.free - Elements(drawn + [t]) == s.free - Elements(drawn) - {t}
    ensures |s.free - Elements(drawn) - {t}| == |s.free - Elements(drawn)| - 1
  {
    GrowPool(drawn, t);
    var pool := drawn + [t];
    forall i | 0 <= i < |pool| ensures pool[i] in m' && IsEmpty(m'[pool[i]]) {
      if i < |drawn| { assert pool[i] == drawn[i] && drawn[i] in Elements(drawn); }
    }
    forall i, j | 0 <= i < j < |pool| ensures pool[i] != pool[j] {
      assert pool[i] == drawn[i] && drawn[i] in Elements(drawn);
    }
  }
}
