/** The kernel heap as a tiling of pages by blocks: a 16-byte header and a payload each. */
module HeapLayout {
  import opened Common
  import opened Bitmaps

  const HEADER: nat := 16

  /** The largest request whose size fits the 32-bit field. */
  const MAX_REQUEST: nat := 0xFFFF_FFF0

  /** Payload sizes by header address. */
  type Sizes = map<nat, nat>

  predicate InBlock(sizes: Sizes, a: nat, x: nat) {
    a in sizes && a <= x < a + HEADER + sizes[a]
  }

  ghost predicate Apart(sizes: Sizes, a: nat, b: nat) {
    a in sizes && b in sizes && a != b ==> a + HEADER + sizes[a] <= b || b + HEADER + sizes[b] <= a
  }

  ghost predicate Covered(sizes: Sizes, x: nat) {
    exists a :: InBlock(sizes, a, x)
  }

  /** The blocks are pairwise disjoint and cover exactly the bytes of the pages. */
  ghost predicate Tiles(sizes: Sizes, frames: set<nat>) {
    && (forall a, b :: Apart(sizes, a, b))
    && (forall x: nat {:trigger Covered(sizes, x)} :: Covered(sizes, x) <==> x / PAGE_SIZE in frames)
  }

  /** A heap: its blocks, which of them are handed out, the free list in order, and its pages. */
  datatype Layout = Layout(sizes: Sizes, live: set<nat>, free: seq<nat>, frames: set<nat>)

  /** No address is on the list twice. */
  ghost predicate NoRepeat(list: seq<nat>) {
    forall i: int, j: int :: Differ(list, i, j)
  }

  predicate Differ(list: seq<nat>, i: int, j: int) {
    0 <= i < j < |list| ==> list[i] != list[j]
  }

  /** Every block is either live or on the free list, once; the blocks tile the pages. */
  ghost predicate Sound(h: Layout) {
    && Tiles(h.sizes, h.frames)
    && h.live !! Elements(h.free)
    && h.live + Elements(h.free) == h.sizes.Keys
    && NoRepeat(h.free)
  }

  function Pages(size: nat): nat {
    (HEADER + size + PAGE_SIZE - 1) / PAGE_SIZE
  }

  /** A whole run of fresh pages as one block. */
  lemma {:induction false} AddPages(sizes: Sizes, frames: set<nat>, f: nat, pages: nat)
    requires Tiles(sizes, frames) && pages > 0 && Frames(f, pages) !! frames
    ensures f * PAGE_SIZE !in sizes
    ensures Tiles(sizes[f * PAGE_SIZE := pages * PAGE_SIZE - HEADER], frames + Frames(f, pages))
  {
    var a, n := f * PAGE_SIZE, pages * PAGE_SIZE - HEADER;
    var sizes' := sizes[a := n];
    assert InRun(f, f, pages);
    if a in sizes {
      assert InBlock(sizes, a, a) && Covered(sizes, a);
      assert false;
    }
    forall x: nat ensures Covered(sizes', x) <==> x / PAGE_SIZE in frames + Frames(f, pages) {
      assert InRun(x / PAGE_SIZE, f, pages) <==> a <= x < a + HEADER + n;
      assert Covered(sizes, x) <==> x / PAGE_SIZE in frames;
      if b :| InBlock(sizes, b, x) { assert InBlock(sizes', b, x); }
      if b :| InBlock(sizes', b, x) { assert b == a || InBlock(sizes, b, x); }
      if a <= x < a + HEADER + n { assert InBlock(sizes', a, x); }
    }
    forall b, c ensures Apart(sizes', b, c) {
      assert Apart(sizes, b, c);
      if b == a && c in sizes && c != a { FreshApart(sizes, frames, f, pages, c); }
      if c == a && b in sizes && b != a { FreshApart(sizes, frames, f, pages, b); }
    }
  }

  /** An old block does not reach into fresh pages. */
  lemma FreshApart(sizes: Sizes, frames: set<nat>, f: nat, pages: nat, b: nat)
    requires Tiles(sizes, frames) && pages > 0 && Frames(f, pages) !! frames && b in sizes
    ensures b + HEADER + sizes[b] <= f * PAGE_SIZE || (f + pages) * PAGE_SIZE <= b
  {
    var a := f * PAGE_SIZE;
    if !(b + HEADER + sizes[b] <= a || (f + pages) * PAGE_SIZE <= b) {
      var x := if b >= a then b else a;
      assert InBlock(sizes, b, x) && Covered(sizes, x);
      assert InRun(x / PAGE_SIZE, f, pages);
      assert false;
    }
  }

  /** Splitting a block into two that fill it exactly. */
  lemma SplitBlock(sizes: Sizes, frames: set<nat>, a: nat, s: nat)
    requires Tiles(sizes, frames) && a in sizes && s + HEADER <= sizes[a]
    ensures a + HEADER + s !in sizes
    ensures Tiles(sizes[a := s][a + HEADER + s := sizes[a] - HEADER - s], frames)
  {
    var n := sizes[a];
    var b := a + HEADER + s;
    var sizes' := sizes[a := s][b := n - HEADER - s];
    assert Apart(sizes, a, b);
    forall x: nat ensures Covered(sizes', x) <==> Covered(sizes, x) {
      if c :| InBlock(sizes, c, x) {
        if c == a { assert InBlock(sizes', if x < b then a else b, x); } else { assert InBlock(sizes', c, x); }
      }
      if c :| InBlock(sizes', c, x) {
        assert InBlock(sizes, if c == b then a else c, x);
      }
    }
    forall c, d ensures Apart(sizes', c, d) {
      assert Apart(sizes, c, d) && Apart(sizes, a, c) && Apart(sizes, a, d);
    }
  }

  /** Live payloads never overlap each other or a free block's header. */
  lemma LiveBlocksDisjoint(h: Layout, a: nat, b: nat, x: nat)
    requires Sound(h) && a in h.live && b in h.sizes && a != b && InBlock(h.sizes, a, x)
    ensures !InBlock(h.sizes, b, x)
  {
    assert Apart(h.sizes, a, b);
  }

  predicate TooSmall(h: Layout, size: nat, i: int) {
    0 <= i < |h.free| ==> h.free[i] in h.sizes && h.sizes[h.free[i]] < size
  }

  /** A free block handed out again, as first fit chooses it. */
  ghost predicate Reuses(h: Layout, h': Layout, size: nat, a: nat) {
    exists k: nat :: ReusesAt(h, h', size, a, k)
  }

  ghost predicate ReusesAt(h: Layout, h': Layout, size: nat, a: nat, k: nat) {
    && k < |h.free| && a == h.free[k]
    && a in h.sizes && h.sizes[a] >= size
    && (forall i: int :: i < k ==> TooSmall(h, size, i))
    && h' == h.(live := h.live + {a}, free := h.free[..k] + h.free[k + 1..])
  }

  /** Fresh pages for a request, the rest of the last page put on the free list when it is worth it. */
  ghost predicate Grows(h: Layout, h': Layout, size: nat, a: nat) {
    exists f: nat :: GrowsAt(h, h', size, a, f)
  }

  ghost predicate GrowsAt(h: Layout, h': Layout, size: nat, a: nat, f: nat) {
    && a == f * PAGE_SIZE
    && Frames(f, Pages(size)) !! h.frames
    && h'.frames == h.frames + Frames(f, Pages(size))
    && h'.live == h.live + {a}
    && var n := Pages(size) * PAGE_SIZE - HEADER;
       if n - size > HEADER + 32
       then h'.sizes == h.sizes[a := size][a + HEADER + size := n - HEADER - size]
           && h'.free == [a + HEADER + size] + h.free
       else h'.sizes == h.sizes[a := n] && h'.free == h.free
  }

  /** A live block put at the front of the free list. */
  ghost predicate Frees(h: Layout, h': Layout, a: nat) {
    a in h.live && h' == h.(live := h.live - {a}, free := [a] + h.free)
  }

  lemma ReuseKeeps(h: Layout, h': Layout, size: nat, a: nat)
    requires Sound(h) && Reuses(h, h', size, a)
    ensures Sound(h') && a !in h.live && h'.sizes[a] >= size
  {
    var k: nat :| ReusesAt(h, h', size, a, k);
    RemoveFromList(h.free, k);
  }

  lemma RemoveFromList(free: seq<nat>, k: nat)
    requires k < |free| && NoRepeat(free)
    ensures
      var rest := free[..k] + free[k + 1..];
      && Elements(rest) == Elements(free) - {free[k]}
      && free[k] in Elements(free)
      && NoRepeat(rest)
  {
    var rest := free[..k] + free[k + 1..];
    assert forall i | 0 <= i < |rest| :: rest[i] == free[if i < k then i else i + 1];
    forall x | x in Elements(free) - {free[k]} ensures x in Elements(rest) {
      var i :| 0 <= i < |free| && free[i] == x;
      assert rest[if i < k then i else i - 1] == x;
    }
    forall i: int, j: int ensures Differ(rest, i, j) {
      assert Differ(free, if i < k then i else i + 1, if j < k then j else j + 1);
    }
    forall i | 0 <= i < |rest| ensures rest[i] != free[k] { assert Differ(free, i, k) && Differ(free, k, i + 1); }
  }

  lemma PagesFit(size: nat)
    ensures Pages(size) > 0 && Pages(size) * PAGE_SIZE - HEADER >= size
  {
  }

  lemma GrowKeeps(h: Layout, h': Layout, size: nat, a: nat)
    requires Sound(h) && Grows(h, h', size, a)
    ensures Sound(h') && a !in h.sizes && a in h'.sizes && h'.sizes[a] >= size
  {
    var f: nat :| GrowsAt(h, h', size, a, f);
    PagesFit(size);
    var n := Pages(size) * PAGE_SIZE - HEADER;
    AddPages(h.sizes, h.frames, f, Pages(size));
    if n - size > HEADER + 32 {
      var b := a + HEADER + size;
      var sizes1 := h.sizes[a := n];
      SplitBlock(sizes1, h'.frames, a, size);
      assert sizes1[a := size] == h.sizes[a := size];
      assert Elements(h'.free) == {b} + Elements(h.free);
      assert b !in h.sizes;
      DistinctCons(h.free, b);
    }
  }

  lemma DistinctCons(free: seq<nat>, b: nat)
    requires b !in free && NoRepeat(free)
    ensures NoRepeat([b] + free)
  {
    var l := [b] + free;
    forall i: int, j: int ensures Differ(l, i, j) { assert Differ(free, i - 1, j - 1); }
  }

  lemma FreeKeeps(h: Layout, h': Layout, a: nat)
    requires Sound(h) && Frees(h, h', a)
    ensures Sound(h')
  {
    assert Elements(h'.free) == {a} + Elements(h.free);
    DistinctCons(h.free, a);
  }

  /** One heap operation: kmalloc from the list, kmalloc from fresh pages, or kfree of a live block. */
  ghost predicate Step(h: Layout, h': Layout) {
    || h' == h
    || (exists size: nat, a: nat :: Reuses(h, h', size, a))
    || (exists size: nat, a: nat :: Grows(h, h', size, a))
    || (exists a: nat :: Frees(h, h', a))
  }

  /** Over every run of allocations and frees of live blocks, live and free blocks tile exactly the
      pages taken, and the free list visits each free block once. */
  lemma {:induction false} RunsTile(run: seq<Layout>, n: nat)
    requires n < |run| && Sound(run[0])
    requires forall i | 0 <= i < |run| - 1 :: Step(run[i], run[i + 1])
    ensures Sound(run[n])
  {
    if n > 0 {
      RunsTile(run, n - 1);
      var h, h' := run[n - 1], run[n];
      assert Step(run[n - 1], run[n - 1 + 1]);
      if size: nat, a: nat :| Reuses(h, h', size, a) {
        ReuseKeeps(h, h', size, a);
      } else if size: nat, a: nat :| Grows(h, h', size, a) {
        GrowKeeps(h, h', size, a);
      } else if a: nat :| Frees(h, h', a) {
        FreeKeeps(h, h', a);
      }
    }
  }

  /** How many pages kmalloc asks for, with 64-bit sums. */
  function PagesAsked(size: nat): nat {
    ((HEADER + size) % TWO64 + PAGE_SIZE - 1) % TWO64 / PAGE_SIZE
  }

  /** The size field after growing the heap, with the source's 64-bit sums and 32-bit casts. */
  function RecordedSize(size: nat): nat {
    var whole := (PagesAsked(size) * PAGE_SIZE - HEADER) % TWO32;
    if whole > size && whole - size > HEADER + 32 then size % TWO32 else whole
  }

  /** For requests that fit the size field no sum wraps and no cast loses anything. */
  lemma CastsAreExact(size: nat)
    requires size <= MAX_REQUEST
    ensures PagesAsked(size) == Pages(size)
    ensures size <= Pages(size) * PAGE_SIZE - HEADER < TWO32
    ensures RecordedSize(size) ==
              var whole := Pages(size) * PAGE_SIZE - HEADER;
              if whole - size > HEADER + 32 then size else whole
  {
    assert (HEADER + size) % TWO64 == HEADER + size;
  }

  /** A grown block is at least as large as asked for exactly when the request fits the size field. */
  lemma RequestFitsIff(size: nat)
    requires size < TWO64
    ensures RecordedSize(size) >= size <==> size <= MAX_REQUEST
  {
    if size <= MAX_REQUEST {
      CastsAreExact(size);
    } else if size < TWO32 {
      assert Pages(size) == 0x10_0001;
    }
  }
}
