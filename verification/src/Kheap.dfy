/** kmalloc and kfree: headers in memory, linked into a free list, on pages from the frame allocator. */
module Kheap {
  import opened Common
  import opened Bitmaps
  import opened Pmm
  import opened HeapLayout

  const MAGIC: nat := 0x4D4E_564B

  datatype Header = Header(magic: nat, size: nat, next: nat)

  /** The k-th address of a list, or 0 past its end. */
  function Link(list: seq<nat>, k: nat): nat {
    if k < |list| then list[k] else 0
  }

  /** The headers from `head` on link the addresses of the list, in order, and end with 0. */
  ghost predicate Chained(heads: map<nat, Header>, head: nat, list: seq<nat>) {
    && head == Link(list, 0)
    && forall k: nat :: LinkedAt(heads, list, k)
  }

  predicate LinkedAt(heads: map<nat, Header>, list: seq<nat>, k: nat) {
    k < |list| ==> list[k] in heads && heads[list[k]].next == Link(list, k + 1)
  }

  /** The headers say what the layout says, and a live block is linked to nothing. */
  ghost predicate Describes(heads: map<nat, Header>, head: nat, h: Layout) {
    && heads.Keys == h.sizes.Keys
    && (forall a | a in heads :: heads[a].magic == MAGIC && heads[a].size == h.sizes[a])
    && Chained(heads, head, h.free)
    && (forall a | a in h.live && a in heads :: heads[a].next == 0)
    && 0 !in h.frames && 0 !in heads
  }

  /** cur is the k-th and first block of the list that is large enough, and prev the one before it. */
  ghost predicate FoundAt(heads: map<nat, Header>, list: seq<nat>, size: nat, prev: nat, cur: nat, k: nat) {
    && k < |list| && cur == list[k]
    && prev == Before(list, k)
    && cur in heads && heads[cur].size >= size
    && forall i | 0 <= i < k :: list[i] in heads && heads[list[i]].size < size
  }

  function Before(list: seq<nat>, k: nat): nat
    requires k <= |list|
  {
    if k == 0 then 0 else list[k - 1]
  }

  /** The headers after the link before `a` skips it and its own link is cleared. */
  function Relink(heads: map<nat, Header>, prev: nat, a: nat): map<nat, Header>
    requires a in heads
  {
    var heads1 := if prev in heads then heads[prev := Header(heads[prev].magic, heads[prev].size, heads[a].next)]
        else heads;
    heads1[a := Header(heads[a].magic, heads[a].size, 0)]
  }

  ghost predicate NoneFits(h: Layout, size: nat) {
    forall i: int :: TooSmall(h, size, i)
  }

  ghost predicate NoRun(free: set<nat>, limit: nat, count: nat) {
    forall f: nat :: !RunFree(free, limit, f, count)
  }

  /** No free block is large enough and no run of pages is free. */
  ghost predicate NoMemory(h: Layout, free: set<nat>, limit: nat, size: nat) {
    NoneFits(h, size) && NoRun(free, limit, Pages(size))
  }

  /** Taking the k-th header out of the list through the link that points to it. */
  lemma UnlinkAt(heads: map<nat, Header>, head: nat, list: seq<nat>, k: nat)
    requires Chained(heads, head, list) && k < |list| && 0 !in heads && list[k] in heads
    requires NoRepeat(list)
    ensures Chained(Relink(heads, Before(list, k), list[k]),
                    if k == 0 then heads[list[k]].next else head, list[..k] + list[k + 1..])
  {
    var rest := list[..k] + list[k + 1..];
    var heads' := Relink(heads, Before(list, k), list[k]);
    assert LinkedAt(heads, list, k);
    forall i: nat ensures LinkedAt(heads', rest, i) {
      if i < |rest| {
        var j := if i < k then i else i + 1;
        assert LinkedAt(heads, list, j) && rest[i] == list[j];
        assert Differ(list, j, k) && Differ(list, k, j) && Differ(list, j, k - 1) && Differ(list, k - 1, j);
      }
    }
  }

  /** A block that was not live is now, and is large enough. */
  ghost predicate HandsOut(h: Layout, h': Layout, size: nat, a: nat) {
    exists n: nat :: HandsOutAt(h, h', size, a, n)
  }

  /** The block was the n-th of the free list, or starts fresh pages at frame n. */
  ghost predicate HandsOutAt(h: Layout, h': Layout, size: nat, a: nat, n: nat) {
    && a !in h.live && a in h'.live && a in h'.sizes && h'.sizes[a] >= size
    && (ReusesAt(h, h', size, a, n) || GrowsAt(h, h', size, a, n))
  }

  /** What kmalloc returns: the address behind the header of a block handed out. */
  ghost predicate Returns(h: Layout, h': Layout, size: nat, ptr: nat) {
    ptr >= HEADER && HandsOut(h, h', size, ptr - HEADER)
  }

  /** The layout after the k-th free block is handed out. */
  ghost function Reused(h: Layout, k: nat): Layout
    requires k < |h.free|
  {
    h.(live := h.live + {h.free[k]}, free := h.free[..k] + h.free[k + 1..])
  }

  /** Unlinking the block found keeps headers and layout in step. */
  lemma TakeKeeps(heads: map<nat, Header>, head: nat, h: Layout, size: nat, prev: nat, cur: nat, k: nat)
    requires Sound(h) && Describes(heads, head, h) && FoundAt(heads, h.free, size, prev, cur, k)
    ensures Sound(Reused(h, k)) && HandsOut(h, Reused(h, k), size, cur)
    ensures Describes(Relink(heads, prev, cur), if prev == 0 then heads[cur].next else head, Reused(h, k))
  {
    ReuseHandsOut(h, Reused(h, k), size, cur, k);
    RelinkDescribes(heads, head, h, size, prev, cur, k);
  }

  lemma RelinkDescribes(heads: map<nat, Header>, head: nat, h: Layout, size: nat, prev: nat, cur: nat, k: nat)
    requires Sound(h) && Describes(heads, head, h) && FoundAt(heads, h.free, size, prev, cur, k)
    ensures Describes(Relink(heads, prev, cur), if prev == 0 then heads[cur].next else head, Reused(h, k))
  {
    UnlinkAt(heads, head, h.free, k);
    assert k > 0 ==> LinkedAt(heads, h.free, k - 1) && prev in heads;
  }

  lemma ReuseHandsOut(h: Layout, h': Layout, size: nat, a: nat, k: nat)
    requires Sound(h) && ReusesAt(h, h', size, a, k)
    ensures Sound(h') && HandsOut(h, h', size, a)
  {
    ReuseKeeps(h, h', size, a);
    assert HandsOutAt(h, h', size, a, k);
  }

  lemma FoundFits(heads: map<nat, Header>, head: nat, h: Layout, size: nat, prev: nat, cur: nat, k: nat)
    requires Describes(heads, head, h) && FoundAt(heads, h.free, size, prev, cur, k)
    ensures !NoneFits(h, size)
  {
    assert !TooSmall(h, size, k);
  }

  class KernelHeap {
    const pmm: FrameAllocator
    var heads: map<nat, Header>
    var freeList: nat
    ghost var layout: Layout

    constructor (pmm: FrameAllocator)
      requires pmm.Valid()
      ensures Valid() && this.pmm == pmm && layout == Layout(map[], {}, [], {})
    {
      this.pmm := pmm;
      heads := map[];
      freeList := 0;
      layout := Layout(map[], {}, [], {});
      new;
      assert Elements([]) == {};
      assert forall x: nat :: !Covered(map[], x);
    }

    ghost predicate Valid()
      reads this, pmm, pmm.bitmap
    {
      && pmm.Valid()
      && Sound(layout)
      && Describes(heads, freeList, layout)
      && layout.frames !! pmm.free
    }

    /** kmalloc. Zero bytes give no block. Otherwise the first free block large enough is handed out
        whole; failing that, fresh pages are split; failing that, nothing changes. */
    method Alloc(size: nat) returns (ptr: nat)
      requires Valid() && size <= MAX_REQUEST
      modifies this, pmm`cursor, pmm`freeFrames, pmm`usedFrames, pmm`free, pmm.bitmap
      ensures Valid()
      ensures ptr == 0 ==> layout == old(layout) && pmm.free == old(pmm.free)
      ensures ptr == 0 <==> size == 0 || NoMemory(old(layout), old(pmm.free), pmm.frameLimit, size)
      ensures ptr == 0 || Returns(old(layout), layout, size, ptr)
    {
      if size == 0 {
        return 0;
      }
      var found, prev, cur, k := FirstFit(size);
      if found {
        ptr := Reuse(size, prev, cur, k);
      } else {
        ptr := Grow(size);
      }
    }

    /** kmalloc from the free list, once a block is found. */
    method Reuse(size: nat, prev: nat, cur: nat, ghost k: nat) returns (ptr: nat)
      requires Valid() && FoundAt(heads, layout.free, size, prev, cur, k)
      modifies this`heads, this`freeList, this`layout
      ensures Valid() && !NoneFits(old(layout), size)
      ensures ptr != 0 && Returns(old(layout), layout, size, ptr)
    {
      FoundFits(heads, freeList, layout, size, prev, cur, k);
      TakeFromList(size, prev, cur, k);
      ptr := cur + HEADER;
      assert ptr - HEADER == cur;
    }

    /** The search loop of kmalloc. */
    method FirstFit(size: nat) returns (found: bool, prev: nat, cur: nat, ghost k: nat)
      requires Valid()
      ensures found ==> FoundAt(heads, layout.free, size, prev, cur, k)
      ensures !found ==> NoneFits(layout, size)
    {
      prev, cur, k := 0, freeList, 0;
      while cur != 0
        invariant k <= |layout.free| && cur == Link(layout.free, k)
        invariant prev == Before(layout.free, k)
        invariant forall i | 0 <= i < k :: layout.free[i] in heads && heads[layout.free[i]].size < size
        invariant LinkedAt(heads, layout.free, k)
        decreases |layout.free| - k
      {
        if heads[cur].size >= size {
          assert FoundAt(heads, layout.free, size, prev, cur, k);
          return true, prev, cur, k;
        }
        prev := cur;
        cur := heads[cur].next;
        k := k + 1;
        assert LinkedAt(heads, layout.free, k);
      }
      return false, prev, cur, k;
    }

    /** Unlinks the block found, through the link that points to it. */
    method TakeFromList(size: nat, prev: nat, cur: nat, ghost k: nat)
      requires Valid() && FoundAt(heads, layout.free, size, prev, cur, k)
      modifies this`heads, this`freeList, this`layout
      ensures Valid() && HandsOut(old(layout), layout, size, cur)
    {
      ghost var h := layout;
      TakeKeeps(heads, freeList, h, size, prev, cur, k);
      var found := heads[cur];
      if prev == 0 {
        freeList := found.next;
      } else {
        heads := heads[prev := Header(heads[prev].magic, heads[prev].size, found.next)];
      }
      heads := heads[cur := Header(found.magic, found.size, 0)];
      layout := h.(live := h.live + {cur}, free := h.free[..k] + h.free[k + 1..]);
      assert heads == Relink(old(heads), prev, cur) && layout == Reused(h, k);
    }

    /** kmalloc from fresh pages. */
    method Grow(size: nat) returns (ptr: nat)
      requires Valid() && 0 < size <= MAX_REQUEST
      modifies this, pmm`cursor, pmm`freeFrames, pmm`usedFrames, pmm`free, pmm.bitmap
      ensures Valid()
      ensures ptr == 0 <==> NoRun(old(pmm.free), pmm.frameLimit, Pages(size))
      ensures ptr == 0 ==> layout == old(layout) && pmm.free == old(pmm.free)
      ensures ptr == 0 || Returns(old(layout), layout, size, ptr)
    {
      var first := TakePages(size);
      if first == 0 {
        return 0;
      }
      Install(first, size);
      ptr := first + HEADER;
      assert ptr - HEADER == first;
    }

    /** The headers of fresh pages, and the layout they describe. */
    method Install(first: nat, size: nat)
      requires Sound(layout) && Describes(heads, freeList, layout) && 0 < size <= MAX_REQUEST
      requires first == first / PAGE_SIZE * PAGE_SIZE && Fresh(layout, size, first / PAGE_SIZE)
      modifies this`heads, this`freeList, this`layout
      ensures Sound(layout) && Describes(heads, freeList, layout) && HandsOut(old(layout), layout, size, first)
      ensures layout.frames == old(layout).frames + Frames(first / PAGE_SIZE, Pages(size))
    {
      ghost var f := first / PAGE_SIZE;
      InstalledIsSound(heads, freeList, layout, size, f);
      CastHeadsExact(heads, freeList, size, first);
      InstallPages(first, size);
      layout := Grown(layout, size, f);
    }

    /** The page request of kmalloc. */
    method TakePages(size: nat) returns (first: nat)
      requires pmm.Valid() && layout.frames !! pmm.free && 0 < size <= MAX_REQUEST
      modifies pmm`cursor, pmm`freeFrames, pmm`usedFrames, pmm`free, pmm.bitmap
      ensures pmm.Valid()
      ensures first == 0 <==> NoRun(old(pmm.free), pmm.frameLimit, Pages(size))
      ensures first == 0 ==> pmm.free == old(pmm.free)
      ensures first != 0 ==>
        var f := first / PAGE_SIZE;
        && first == f * PAGE_SIZE && Fresh(layout, size, f)
        && pmm.free == old(pmm.free) - Frames(f, Pages(size))
    {
      PagesFit(size);
      CastsAreExact(size);
      first := pmm.AllocPages(PagesAsked(size));
      if first != 0 {
        FreshPages(layout, size, first / PAGE_SIZE, old(pmm.free), pmm.frameLimit);
      }
    }

    /** Writes the headers of fresh pages for any request; sizes are cast to the 32-bit field. */
    method InstallPages(first: nat, size: nat)
      requires PagesAsked(size) > 0
      modifies this`heads, this`freeList
      ensures heads == CastHeads(old(heads), old(freeList), size, first)
      ensures freeList == CastHead(old(freeList), size, first)
      ensures first in heads && heads[first].size == RecordedSize(size)
    {
      var whole := (PagesAsked(size) * PAGE_SIZE - HEADER) % TWO32;
      if whole > size && whole - size > HEADER + 32 {
        var remain := whole - size;
        var split := first + HEADER + size;
        heads := heads[split := Header(MAGIC, (remain - HEADER) % TWO32, freeList)];
        heads := heads[first := Header(MAGIC, size % TWO32, 0)];
        freeList := split;
      } else {
        heads := heads[first := Header(MAGIC, whole, 0)];
      }
    }

    /** kfree of null or of any block of the heap: the source tests only the magic number, which free blocks
        carry too. A live block becomes the first free one; a block freed before leaves a list without end. */
    method Free(ptr: nat)
      requires Valid() && (ptr == 0 || (ptr >= HEADER && ptr - HEADER in layout.sizes))
      modifies this`heads, this`freeList, this`layout
      ensures ptr == 0 ==> Valid() && layout == old(layout)
      ensures ptr != 0 && ptr - HEADER in old(layout).live ==> Valid() && Frees(old(layout), layout, ptr - HEADER)
      ensures HasList(heads, freeList) <==> ptr == 0 || ptr - HEADER in old(layout).live
    {
      if ptr == 0 {
        assert Chained(heads, freeList, layout.free);
        return;
      }
      var header := ptr - HEADER;
      if heads[header].magic != MAGIC {
        assert false;
      }
      ghost var h := layout;
      FreeEndsIff(heads, freeList, h, header);
      heads := heads[header := Header(heads[header].magic, heads[header].size, freeList)];
      freeList := header;
      if header in h.live {
        layout := Freed(h, header);
        FreeDescribes(old(heads), old(freeList), h, header);
      }
    }
  }

  /** Some list is chained from the head: following the links ends. */
  ghost predicate HasList(heads: map<nat, Header>, head: nat) {
    exists list :: Chained(heads, head, list)
  }

  /** The headers after kfree pushed the block in front of the list. */
  function Pushed(heads: map<nat, Header>, head: nat, a: nat): map<nat, Header>
    requires a in heads
  {
    heads[a := Header(heads[a].magic, heads[a].size, head)]
  }

  ghost function Freed(h: Layout, a: nat): Layout {
    h.(live := h.live - {a}, free := [a] + h.free)
  }

  lemma FreeDescribes(heads: map<nat, Header>, head: nat, h: Layout, a: nat)
    requires Sound(h) && Describes(heads, head, h) && a in h.live && a in heads
    ensures Sound(Freed(h, a)) && Describes(Pushed(heads, head, a), a, Freed(h, a))
  {
    NotOnList(h, a);
    FreeKeeps(h, Freed(h, a), a);
    PushChain(heads, head, h.free, a, Pushed(heads, head, a));
  }

  lemma NotOnList(h: Layout, a: nat)
    requires Sound(h) && a in h.live
    ensures a !in h.free && forall b | b in h.free :: b in h.sizes
  {
    assert forall b | b in h.free :: b in Elements(h.free);
  }

  /** Freeing the k-th free block again makes the links run round its first k + 1 blocks: a list chained from
      it would have an element at every index. */
  lemma {:induction false} CycleGoesOn(heads: map<nat, Header>, head: nat, free: seq<nat>, k: nat, list: seq<nat>,
      i: nat)
    requires Chained(heads, head, free) && 0 !in heads && k < |free| && free[k] in heads
    requires NoRepeat(free)
    requires Chained(Pushed(heads, head, free[k]), free[k], list)
    ensures i < |list| && list[i] in free[..k + 1]
  {
    var heads' := Pushed(heads, head, free[k]);
    assert LinkedAt(heads, free, k) && LinkedAt(heads, free, 0);
    if i == 0 {
      assert free[..k + 1][k] == free[k];
    } else {
      CycleGoesOn(heads, head, free, k, list, i - 1);
      assert LinkedAt(heads', list, i - 1);
      var j :| 0 <= j <= k && free[j] == list[i - 1];
      if j < k {
        assert LinkedAt(heads, free, j) && LinkedAt(heads, free, j + 1) && Differ(free, j, k);
        assert free[..k + 1][j + 1] == free[j + 1];
      } else {
        assert free[..k + 1][0] == free[0];
      }
    }
  }

  /** The links from a block of the heap that kfree was given end exactly when the block was live. */
  lemma FreeEndsIff(heads: map<nat, Header>, head: nat, h: Layout, a: nat)
    requires Sound(h) && Describes(heads, head, h) && a in h.sizes
    ensures a in heads && (HasList(Pushed(heads, head, a), a) <==> a in h.live)
  {
    if a in h.live {
      FreeDescribes(heads, head, h, a);
      assert Chained(Pushed(heads, head, a), a, [a] + h.free);
    } else {
      assert a in Elements(h.free);
      var k: nat :| k < |h.free| && h.free[k] == a;
      forall list ensures !Chained(Pushed(heads, head, a), a, list) {
        if Chained(Pushed(heads, head, a), a, list) { CycleGoesOn(heads, head, h.free, k, list, |list|); }
      }
    }
  }

  /** A header pushed in front of a chain it is not part of. */
  lemma PushChain(heads: map<nat, Header>, head: nat, list: seq<nat>, a: nat, heads': map<nat, Header>)
    requires Chained(heads, head, list) && a !in list && a in heads' && heads'[a].next == head
    requires forall b | b in list :: b in heads && b in heads' && heads'[b] == heads[b]
    ensures Chained(heads', a, [a] + list)
  {
    var l := [a] + list;
    forall k: nat ensures LinkedAt(heads', l, k) {
      if 0 < k < |l| { assert LinkedAt(heads, list, k - 1) && l[k] == list[k - 1] && list[k - 1] in list; }
    }
  }

  /** Pages that are not the heap's, and not frame 0. */
  ghost predicate Fresh(h: Layout, size: nat, f: nat) {
    f > 0 && Frames(f, Pages(size)) !! h.frames
  }

  lemma FreshPages(h: Layout, size: nat, f: nat, free: set<nat>, limit: nat)
    requires RunFree(free, limit, f, Pages(size)) && h.frames !! free && 0 !in free && Pages(size) > 0
    ensures Fresh(h, size, f)
  {
    assert InRun(f, f, Pages(size));
  }

  /** The layout after growing by fresh pages. */
  ghost function Grown(h: Layout, size: nat, f: nat): Layout {
    var a := f * PAGE_SIZE;
    var n := Pages(size) * PAGE_SIZE - HEADER;
    var frames := h.frames + Frames(f, Pages(size));
    if n - size > HEADER + 32
    then Layout(h.sizes[a := size][a + HEADER + size := n - HEADER - size], h.live + {a},
        [a + HEADER + size] + h.free, frames)
    else Layout(h.sizes[a := n], h.live + {a}, h.free, frames)
  }

  /** The headers after growing by fresh pages. */
  ghost function GrownHeads(heads: map<nat, Header>, head: nat, size: nat, f: nat): map<nat, Header> {
    var a := f * PAGE_SIZE;
    var n := Pages(size) * PAGE_SIZE - HEADER;
    if n - size > HEADER + 32
    then heads[a + HEADER + size := Header(MAGIC, n - size - HEADER, head)][a := Header(MAGIC, size, 0)]
    else heads[a := Header(MAGIC, n, 0)]
  }

  ghost function GrownHead(head: nat, size: nat, f: nat): nat {
    if Pages(size) * PAGE_SIZE - HEADER - size > HEADER + 32 then f * PAGE_SIZE + HEADER + size else head
  }

  /** The headers and the list head after kmalloc wrote fresh pages, casts and all. */
  function CastHeads(heads: map<nat, Header>, head: nat, size: nat, first: nat): map<nat, Header> {
    var whole := (PagesAsked(size) * PAGE_SIZE - HEADER) % TWO32;
    if whole > size && whole - size > HEADER + 32 then
      heads[first + HEADER + size := Header(MAGIC, (whole - size - HEADER) % TWO32, head)]
           [first := Header(MAGIC, size % TWO32, 0)]
    else heads[first := Header(MAGIC, whole, 0)]
  }

  function CastHead(head: nat, size: nat, first: nat): nat {
    var whole := (PagesAsked(size) * PAGE_SIZE - HEADER) % TWO32;
    if whole > size && whole - size > HEADER + 32 then first + HEADER + size else head
  }

  /** For requests that fit, the casts change nothing. */
  lemma CastHeadsExact(heads: map<nat, Header>, head: nat, size: nat, first: nat)
    requires size <= MAX_REQUEST && first == first / PAGE_SIZE * PAGE_SIZE
    ensures PagesAsked(size) == Pages(size) > 0
    ensures CastHeads(heads, head, size, first) == GrownHeads(heads, head, size, first / PAGE_SIZE)
    ensures CastHead(head, size, first) == GrownHead(head, size, first / PAGE_SIZE)
  {
    CastsAreExact(size);
    var whole := Pages(size) * PAGE_SIZE - HEADER;
    assert whole % TWO32 == whole && size % TWO32 == size;
    if whole - size > HEADER + 32 { assert (whole - size - HEADER) % TWO32 == whole - size - HEADER; }
  }

  lemma InstalledIsSound(heads: map<nat, Header>, head: nat, h: Layout, size: nat, f: nat)
    requires Sound(h) && Describes(heads, head, h) && 0 < size && Fresh(h, size, f)
    ensures Sound(Grown(h, size, f)) && HandsOut(h, Grown(h, size, f), size, f * PAGE_SIZE)
    ensures Describes(GrownHeads(heads, head, size, f), GrownHead(head, size, f), Grown(h, size, f))
  {
    var a, h' := f * PAGE_SIZE, Grown(h, size, f);
    PagesFit(size);
    assert GrowsAt(h, h', size, a, f);
    GrowKeeps(h, h', size, a);
    assert HandsOutAt(h, h', size, a, f);
    InstalledIsDescribed(heads, head, h, size, f);
  }

  lemma InstalledIsDescribed(heads: map<nat, Header>, head: nat, h: Layout, size: nat, f: nat)
    requires Describes(heads, head, h) && 0 < size && f > 0 && f * PAGE_SIZE !in h.sizes
    requires Sound(Grown(h, size, f)) && Elements(h.free) <= h.sizes.Keys && Pages(size) * PAGE_SIZE - HEADER >= size
    ensures Describes(GrownHeads(heads, head, size, f), GrownHead(head, size, f), Grown(h, size, f))
  {
    var a, h', heads' := f * PAGE_SIZE, Grown(h, size, f), GrownHeads(heads, head, size, f);
    var b := a + HEADER + size;
    assert forall x | x in h.free :: x in Elements(h.free);
    assert !InRun(0, f, Pages(size));
    if Pages(size) * PAGE_SIZE - HEADER - size > HEADER + 32 {
      assert h'.free[0] == b;
      forall i | 0 <= i < |h.free| ensures h.free[i] != b { assert Differ(h'.free, 0, i + 1); }
      PushChain(heads, head, h.free, b, heads');
    } else {
      SameChain(heads, head, h.free, heads');
    }
  }

  lemma SameChain(heads: map<nat, Header>, head: nat, list: seq<nat>, heads': map<nat, Header>)
    requires Chained(heads, head, list)
    requires forall b | b in list :: b in heads && b in heads' && heads'[b] == heads[b]
    ensures Chained(heads', head, list)
  {
    forall k: nat ensures LinkedAt(heads', list, k) {
      if k < |list| { assert LinkedAt(heads, list, k) && list[k] in list; }
    }
  }
}
