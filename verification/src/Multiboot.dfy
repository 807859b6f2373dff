/** pmm_init_from_multiboot2: two passes over the tags of the boot information block. */
module Multiboot {
  import opened Common
  import opened Bitmaps
  import opened Pmm
  import opened BootMap

  type Byte = x: nat | x < 256

  const TAG_END: nat := 0
  const TAG_MODULE: nat := 3
  const TAG_MMAP: nat := 6
  const MEM_AVAILABLE: nat := 1
  const TAG_SIZE: nat := 8
  const MMAP_SIZE: nat := 16
  const ENTRY_SIZE: nat := 24
  const MODULE_SIZE: nat := 16
  const LOW_MEMORY: nat := 0x100000

  /** The bytes from a place up to another, little-endian. */
  function Little(b: seq<Byte>, at: nat, end: nat): nat
    requires at <= end <= |b|
    decreases end - at
  {
    if at == end then 0 else (b[at] as nat) + 0x100 * Little(b, at + 1, end)
  }

  function U32(b: seq<Byte>, at: nat): nat
    requires at + 4 <= |b|
  {
    Little(b, at, at + 4)
  }

  function U64(b: seq<Byte>, at: nat): nat
    requires at + 8 <= |b|
  {
    Little(b, at, at + 8)
  }

  function Pow256(n: nat): nat {
    if n == 0 then 1 else 0x100 * Pow256(n - 1)
  }

  lemma {:induction false} LittleBound(b: seq<Byte>, at: nat, end: nat)
    requires at <= end <= |b|
    ensures Little(b, at, end) < Pow256(end - at)
    decreases end - at
  {
    if at < end { LittleBound(b, at + 1, end); }
  }

  lemma Bound32(b: seq<Byte>, at: nat)
    requires at + 4 <= |b|
    ensures U32(b, at) < 0x1_0000_0000
  {
    LittleBound(b, at, at + 4);
    assert Pow256(4) == 0x1_0000_0000;
  }

  lemma Bound64(b: seq<Byte>, at: nat)
    requires at + 8 <= |b|
    ensures U64(b, at) < TWO64
  {
    LittleBound(b, at, at + 8);
    assert Pow256(8) == TWO64;
  }

  function Aligned(size: nat): (r: nat)
    ensures size <= r < size + 8 && r % 8 == 0
  {
    size + 7 - (size + 7) % 8
  }

  /** Where the walk over the tags ends: no room for a tag, the end tag, or a size that is too small or too large. */
  predicate Stops(b: seq<Byte>, at: nat) {
    || at + TAG_SIZE > |b| || U32(b, at) == TAG_END || U32(b, at + 4) < TAG_SIZE
    || at + Aligned(U32(b, at + 4)) > |b|
  }

  /** The place of the tag after one that does not stop the walk. */
  function NextAt(b: seq<Byte>, at: nat): (n: nat)
    requires !Stops(b, at)
    ensures at < n <= |b|
  {
    at + Aligned(U32(b, at + 4))
  }

  /** The available entries of a memory map tag. */
  function Entries(b: seq<Byte>, p: nat, end: nat, entrySize: nat): seq<Action>
    requires end <= |b| && entrySize >= ENTRY_SIZE
    decreases |b| - p
  {
    if p + ENTRY_SIZE > end then []
    else
      Entry(b, p) + Entries(b, p + entrySize, end, entrySize)
  }

  function Entry(b: seq<Byte>, p: nat): seq<Action>
    requires p + ENTRY_SIZE <= |b|
  {
    if U32(b, p + 16) == MEM_AVAILABLE then [Free(U64(b, p), U64(b, p + 8))] else []
  }

  /** What one tag asks for. */
  function TagActions(b: seq<Byte>, at: nat): seq<Action>
    requires !Stops(b, at)
  {
    if U32(b, at) == TAG_MMAP then MapActions(b, at)
    else if U32(b, at) == TAG_MODULE then ModuleActions(b, at)
    else []
  }

  function MapActions(b: seq<Byte>, at: nat): seq<Action>
    requires !Stops(b, at)
  {
    var size := U32(b, at + 4);
    if size >= MMAP_SIZE && U32(b, at + 8) >= ENTRY_SIZE then Entries(b, at + MMAP_SIZE, at + size, U32(b, at + 8))
    else []
  }

  function ModuleActions(b: seq<Byte>, at: nat): seq<Action>
    requires !Stops(b, at)
  {
    if U32(b, at + 4) >= MODULE_SIZE && U32(b, at + 12) > U32(b, at + 8) then
      [Take(U32(b, at + 8), U32(b, at + 12) - U32(b, at + 8))]
    else []
  }

  /** What the tags from a place on ask for, in order. */
  function Parse(b: seq<Byte>, at: nat): seq<Action>
    decreases |b| - at
  {
    if Stops(b, at) then [] else TagActions(b, at) + Parse(b, NextAt(b, at))
  }

  // ---- First pass ----

  method HighestOfEntry(b: seq<Byte>, p: nat, h: nat) returns (r: nat)
    requires p + ENTRY_SIZE <= |b|
    ensures r == Highest(Entry(b, p), h)
  {
    r := h;
    if U32(b, p + 16) == MEM_AVAILABLE {
      var e := (U64(b, p) + U64(b, p + 8)) % TWO64;
      if e > r { r := e; }
    }
  }

  /** The highest end once the entries from p on are counted in. */
  function HighestFrom(b: seq<Byte>, p: nat, end: nat, entrySize: nat, h: nat): nat
    requires end <= |b| && entrySize >= ENTRY_SIZE
    decreases |b| - p
  {
    if p + ENTRY_SIZE > end then h else HighestFrom(b, p + entrySize, end, entrySize, Highest(Entry(b, p), h))
  }

  lemma {:induction false} HighestFromIs(b: seq<Byte>, p: nat, end: nat, entrySize: nat, h: nat)
    requires end <= |b| && entrySize >= ENTRY_SIZE
    ensures HighestFrom(b, p, end, entrySize, h) == Highest(Entries(b, p, end, entrySize), h)
    decreases |b| - p
  {
    if p + ENTRY_SIZE <= end {
      var here, rest := Entry(b, p), Entries(b, p + entrySize, end, entrySize);
      HighestFromIs(b, p + entrySize, end, entrySize, Highest(here, h));
      HighestConcat(here, rest, h);
      assert Entries(b, p, end, entrySize) == here + rest;
    }
  }

  method HighestEntry(b: seq<Byte>, start: nat, end: nat, entrySize: nat, h: nat) returns (r: nat)
    requires end <= |b| && entrySize >= ENTRY_SIZE
    ensures r == HighestFrom(b, start, end, entrySize, h)
  {
    r := h;
    var p := start;
    while p + ENTRY_SIZE <= end
      invariant HighestFrom(b, p, end, entrySize, r) == HighestFrom(b, start, end, entrySize, h)
      decreases |b| - p
    {
      r := HighestOfEntry(b, p, r);
      p := p + entrySize;
    }
  }

  lemma ModuleEnd(b: seq<Byte>, at: nat)
    requires at + MODULE_SIZE <= |b| && U32(b, at + 12) > U32(b, at + 8)
    ensures EndOf(Take(U32(b, at + 8), U32(b, at + 12) - U32(b, at + 8))) == U32(b, at + 12)
  {
    Bound32(b, at + 12);
  }

  method HighestOfTag(b: seq<Byte>, at: nat, h: nat) returns (r: nat)
    requires !Stops(b, at)
    ensures r == Highest(TagActions(b, at), h)
  {
    r := h;
    var kind := U32(b, at);
    if kind == TAG_MMAP { r := HighestOfMap(b, at, r); }
    if kind == TAG_MODULE { r := HighestOfModule(b, at, r); }
  }

  method HighestOfMap(b: seq<Byte>, at: nat, h: nat) returns (r: nat)
    requires !Stops(b, at)
    ensures r == Highest(MapActions(b, at), h)
  {
    r := h;
    var size := U32(b, at + 4);
    if size >= MMAP_SIZE && U32(b, at + 8) >= ENTRY_SIZE {
      var start, end, entrySize := at + MMAP_SIZE, at + size, U32(b, at + 8);
      MapHighest(b, at, start, end, entrySize, h);
      r := HighestEntry(b, start, end, entrySize, h);
    }
  }

  /** The entries of a memory map tag: where they start and end and how far they are apart. */
  predicate MapHolds(b: seq<Byte>, at: nat, start: nat, end: nat, entrySize: nat) {
    && !Stops(b, at) && start == at + MMAP_SIZE <= end == at + U32(b, at + 4) <= |b|
    && entrySize == U32(b, at + 8) >= ENTRY_SIZE
  }

  lemma MapEntries(b: seq<Byte>, at: nat, start: nat, end: nat, entrySize: nat)
    requires MapHolds(b, at, start, end, entrySize)
    ensures MapActions(b, at) == Entries(b, start, end, entrySize)
  {
  }

  lemma MapHighest(b: seq<Byte>, at: nat, start: nat, end: nat, entrySize: nat, h: nat)
    requires MapHolds(b, at, start, end, entrySize)
    ensures HighestFrom(b, start, end, entrySize, h) == Highest(MapActions(b, at), h)
  {
    MapEntries(b, at, start, end, entrySize);
    HighestFromIs(b, start, end, entrySize, h);
  }

  method HighestOfModule(b: seq<Byte>, at: nat, h: nat) returns (r: nat)
    requires !Stops(b, at)
    ensures r == Highest(ModuleActions(b, at), h)
  {
    r := h;
    if U32(b, at + 4) >= MODULE_SIZE {
      var start, end := U32(b, at + 8), U32(b, at + 12);
      if end > start {
        ModuleEnd(b, at);
        if end > r { r := end; }
      }
    }
  }

  /** The tests at the head of both loops. */
  method NextTag(b: seq<Byte>, at: nat) returns (stop: bool, next: nat)
    ensures stop <==> Stops(b, at)
    ensures !stop ==> at < next == NextAt(b, at) <= |b|
  {
    next := at;
    if at + TAG_SIZE > |b| { return true, next; }
    var kind, size := U32(b, at), U32(b, at + 4);
    if kind == TAG_END { return true, next; }
    if size < TAG_SIZE { return true, next; }
    next := at + Aligned(size);
    stop := next > |b|;
  }

  /** The loop that finds the highest end. */
  method HighestEnd(b: seq<Byte>) returns (r: nat)
    ensures r == Highest(Parse(b, TAG_SIZE), 0)
  {
    r := 0;
    var at := TAG_SIZE;
    ghost var goal := Highest(Parse(b, at), 0);
    while true
      invariant Highest(Parse(b, at), r) == goal
      decreases |b| - at
    {
      var stop, next := NextTag(b, at);
      if stop {
        assert Parse(b, at) == [];
        break;
      }
      ParseStep(b, at, next, r);
      r := HighestOfTag(b, at, r);
      at := next;
    }
  }

  lemma ParseUnfolds(b: seq<Byte>, at: nat, next: nat)
    requires !Stops(b, at) && next == NextAt(b, at)
    ensures Parse(b, at) == TagActions(b, at) + Parse(b, next)
  {
  }

  lemma ParseStep(b: seq<Byte>, at: nat, next: nat, h: nat)
    requires !Stops(b, at) && next == NextAt(b, at)
    ensures Highest(Parse(b, at), h) == Highest(Parse(b, next), Highest(TagActions(b, at), h))
  {
    ParseUnfolds(b, at, next);
    HighestConcat(TagActions(b, at), Parse(b, next), h);
  }

  // ---- Second pass ----

  method ApplyEntry(pmm: FrameAllocator, b: seq<Byte>, p: nat)
    requires pmm.Consistent() && p + ENTRY_SIZE <= |b|
    modifies pmm`freeFrames, pmm`usedFrames, pmm`free, pmm.bitmap
    ensures pmm.Consistent()
    ensures pmm.free == Apply(old(pmm.free), Entry(b, p), pmm.frameLimit)
  {
    if U32(b, p + 16) == MEM_AVAILABLE {
      Bound64(b, p);
      Bound64(b, p + 8);
      pmm.MarkRangeAvailable(U64(b, p), U64(b, p + 8));
    }
  }

  /** The free frames once the entries from p on are applied. */
  ghost function AppliedFrom(b: seq<Byte>, p: nat, end: nat, entrySize: nat, free: set<nat>, limit: nat): set<nat>
    requires end <= |b| && entrySize >= ENTRY_SIZE
    decreases |b| - p
  {
    if p + ENTRY_SIZE > end then free
    else AppliedFrom(b, p + entrySize, end, entrySize, Apply(free, Entry(b, p), limit), limit)
  }

  lemma {:induction false} AppliedFromIs(b: seq<Byte>, p: nat, end: nat, entrySize: nat, free: set<nat>, limit: nat)
    requires end <= |b| && entrySize >= ENTRY_SIZE
    ensures AppliedFrom(b, p, end, entrySize, free, limit) == Apply(free, Entries(b, p, end, entrySize), limit)
    decreases |b| - p
  {
    if p + ENTRY_SIZE <= end {
      var here, rest := Entry(b, p), Entries(b, p + entrySize, end, entrySize);
      AppliedFromIs(b, p + entrySize, end, entrySize, Apply(free, here, limit), limit);
      ApplyConcat(free, here, rest, limit);
      assert Entries(b, p, end, entrySize) == here + rest;
    }
  }

  method ApplyEntries(pmm: FrameAllocator, b: seq<Byte>, start: nat, end: nat, entrySize: nat)
    requires pmm.Consistent() && end <= |b| && entrySize >= ENTRY_SIZE
    modifies pmm`freeFrames, pmm`usedFrames, pmm`free, pmm.bitmap
    ensures pmm.Consistent()
    ensures pmm.free == AppliedFrom(b, start, end, entrySize, old(pmm.free), pmm.frameLimit)
  {
    var p := start;
    ghost var goal := AppliedFrom(b, p, end, entrySize, pmm.free, pmm.frameLimit);
    while p + ENTRY_SIZE <= end
      invariant pmm.Consistent() && AppliedFrom(b, p, end, entrySize, pmm.free, pmm.frameLimit) == goal
      decreases |b| - p
    {
      ApplyEntry(pmm, b, p);
      p := p + entrySize;
    }
  }

  /** mark_range_available and reserve_range, as actions. */
  method ApplyAction(pmm: FrameAllocator, a: Action)
    requires pmm.Consistent() && a.base < TWO64 && a.length < TWO64
    modifies pmm`freeFrames, pmm`usedFrames, pmm`reservedFrames, pmm`free, pmm.bitmap
    ensures pmm.Consistent() && pmm.free == Act(old(pmm.free), a, pmm.frameLimit)
  {
    if a.Free? { pmm.MarkRangeAvailable(a.base, a.length); } else { pmm.ReserveRange(a.base, a.length); }
  }

  lemma ApplyOne(free: set<nat>, a: Action, limit: nat)
    ensures Apply(free, [a], limit) == Act(free, a, limit)
  {
    assert [a][1..] == [];
  }

  method ApplyModule(pmm: FrameAllocator, start: nat, end: nat)
    requires pmm.Consistent() && start < end < TWO64
    modifies pmm`freeFrames, pmm`usedFrames, pmm`reservedFrames, pmm`free, pmm.bitmap
    ensures pmm.Consistent() && pmm.free == Apply(old(pmm.free), [Take(start, end - start)], pmm.frameLimit)
  {
    ApplyOne(pmm.free, Take(start, end - start), pmm.frameLimit);
    ApplyAction(pmm, Take(start, end - start));
  }

  method ApplyTag(pmm: FrameAllocator, b: seq<Byte>, at: nat)
    requires pmm.Consistent() && !Stops(b, at)
    modifies pmm`freeFrames, pmm`usedFrames, pmm`reservedFrames, pmm`free, pmm.bitmap
    ensures pmm.Consistent()
    ensures pmm.free == Apply(old(pmm.free), TagActions(b, at), pmm.frameLimit)
  {
    var kind := U32(b, at);
    if kind == TAG_MMAP { ApplyMapTag(pmm, b, at); }
    if kind == TAG_MODULE { ApplyModuleTag(pmm, b, at); }
  }

  method ApplyMapTag(pmm: FrameAllocator, b: seq<Byte>, at: nat)
    requires pmm.Consistent() && !Stops(b, at)
    modifies pmm`freeFrames, pmm`usedFrames, pmm`free, pmm.bitmap
    ensures pmm.Consistent()
    ensures pmm.free == Apply(old(pmm.free), MapActions(b, at), pmm.frameLimit)
  {
    var size := U32(b, at + 4);
    if size >= MMAP_SIZE && U32(b, at + 8) >= ENTRY_SIZE {
      var start, end, entrySize := at + MMAP_SIZE, at + size, U32(b, at + 8);
      MapEntries(b, at, start, end, entrySize);
      AppliedFromIs(b, start, end, entrySize, pmm.free, pmm.frameLimit);
      ApplyEntries(pmm, b, start, end, entrySize);
    }
  }

  method ApplyModuleTag(pmm: FrameAllocator, b: seq<Byte>, at: nat)
    requires pmm.Consistent() && !Stops(b, at)
    modifies pmm`freeFrames, pmm`usedFrames, pmm`reservedFrames, pmm`free, pmm.bitmap
    ensures pmm.Consistent()
    ensures pmm.free == Apply(old(pmm.free), ModuleActions(b, at), pmm.frameLimit)
  {
    if U32(b, at + 4) >= MODULE_SIZE {
      var start, end := U32(b, at + 8), U32(b, at + 12);
      Bound32(b, at + 12);
      if end > start { ApplyModule(pmm, start, end); }
    }
  }

  /** The loop that applies the ranges. */
  method ApplyTags(pmm: FrameAllocator, b: seq<Byte>)
    requires pmm.Consistent()
    modifies pmm`freeFrames, pmm`usedFrames, pmm`reservedFrames, pmm`free, pmm.bitmap
    ensures pmm.Consistent()
    ensures pmm.free == Apply(old(pmm.free), Parse(b, TAG_SIZE), pmm.frameLimit)
  {
    var at := TAG_SIZE;
    ghost var goal := TagsLeft(b, at, pmm.free, pmm.frameLimit);
    while true
      invariant pmm.Consistent() && TagsLeft(b, at, pmm.free, pmm.frameLimit) == goal
      decreases |b| - at
    {
      var stop, next := ApplyNext(pmm, b, at);
      if stop { break; }
      at := next;
    }
  }

  /** One round of the second loop. */
  method ApplyNext(pmm: FrameAllocator, b: seq<Byte>, at: nat) returns (stop: bool, next: nat)
    requires pmm.Consistent()
    modifies pmm`freeFrames, pmm`usedFrames, pmm`reservedFrames, pmm`free, pmm.bitmap
    ensures pmm.Consistent()
    ensures stop ==> pmm.free == old(pmm.free) == TagsLeft(b, at, old(pmm.free), pmm.frameLimit)
    ensures !stop ==> at < next <= |b|
    ensures !stop ==> TagsLeft(b, next, pmm.free, pmm.frameLimit) == TagsLeft(b, at, old(pmm.free), pmm.frameLimit)
  {
    stop, next := NextTag(b, at);
    if stop { return; }
    TagsStep(b, at, next, pmm.free, pmm.frameLimit);
    ApplyTag(pmm, b, at);
  }

  /** The free frames once the tags from a place on are applied. */
  ghost function TagsLeft(b: seq<Byte>, at: nat, free: set<nat>, limit: nat): set<nat> {
    Apply(free, Parse(b, at), limit)
  }

  lemma TagsStep(b: seq<Byte>, at: nat, next: nat, free: set<nat>, limit: nat)
    requires !Stops(b, at) && next == NextAt(b, at)
    ensures TagsLeft(b, at, free, limit) == TagsLeft(b, next, Apply(free, TagActions(b, at), limit), limit)
  {
    ParseUnfolds(b, at, next);
    ApplyConcat(free, TagActions(b, at), Parse(b, next), limit);
  }

  // ---- Initialisation ----

  datatype Kernel = Kernel(start: nat, end: nat)

  function Max(a: nat, b: nat): nat {
    if a > b then a else b
  }

  /** init_runtime_bitmap: the bitmap starts at the page after the kernel and what else must be kept. */
  function BitmapBase(minBase: nat, k: Kernel): nat {
    (Max(minBase, k.end) + PAGE_SIZE - 1) / PAGE_SIZE * PAGE_SIZE
  }

  function BitmapBytes(limit: nat): nat {
    (limit + WORD_BITS - 1) / WORD_BITS * 8
  }

  lemma LowFrameKept(limit: nat)
    requires limit > 0
    ensures 0 in Reserved(0, LOW_MEMORY, limit)
  {
    assert TakesFrame(0, 0, LOW_MEMORY);
  }

  lemma BitmapFits(minBase: nat, k: Kernel, limit: nat)
    requires minBase < TWO64 - PAGE_SIZE && k.end < TWO64 - PAGE_SIZE && limit <= MAX_FRAMES
    ensures BitmapBase(minBase, k) < TWO64 && BitmapBytes(limit) < TWO64
  {
  }

  /** A byte that setting every bit of the bitmap writes, between the two passes. */
  predicate BitmapByte(minBase: nat, k: Kernel, limit: nat, x: nat) {
    BitmapBase(minBase, k) <= x < BitmapBase(minBase, k) + BitmapBytes(limit)
  }

  /** The second pass reads the block the first pass read: the bitmap is above it, and above the kernel. */
  lemma BitmapSparesBlock(info: nat, size: nat, k: Kernel, limit: nat, x: nat)
    requires x < info + size || x < k.end
    ensures !BitmapByte(info + size, k, limit, x)
  {
  }

  /** A module keeps its bytes exactly when it ends before the bitmap or starts after it, which nothing tests. */
  lemma BitmapSparesModuleIff(minBase: nat, k: Kernel, limit: nat, start: nat, end: nat)
    requires start < end && limit > 0
    ensures (forall x | start <= x < end :: !BitmapByte(minBase, k, limit, x)) <==>
            end <= BitmapBase(minBase, k) || BitmapBase(minBase, k) + BitmapBytes(limit) <= start
  {
    var base := BitmapBase(minBase, k);
    var x := Max(start, base);
    if start < base + BitmapBytes(limit) && base < end { assert BitmapByte(minBase, k, limit, x); }
  }

  /** The ranges taken after the passes. */
  function Kept(k: Kernel, base: nat, bytes: nat, info: nat, total: nat): seq<Action>
    requires k.start < k.end
  {
    [Take(0, LOW_MEMORY), Take(k.start, k.end - k.start), Take(base, bytes), Take(info, total)]
  }

  /** A byte of the frame is below 1 MiB or in the kernel, the bitmap or the block. */
  ghost predicate KeptFrame(f: nat, k: Kernel, base: nat, bytes: nat, info: nat, total: nat) {
    || SomeIn(f, 0, 0x100000) || SomeIn(f, k.start, k.end)
    || SomeIn(f, base, base + bytes) || SomeIn(f, info, info + total)
  }

  lemma KeptClaims(f: nat, k: Kernel, base: nat, bytes: nat, info: nat, total: nat)
    requires k.start < k.end && bytes > 0 && total > 0
    ensures
      var t := Kept(k, base, bytes, info, total);
      && (Claimed(t, f) <==> KeptFrame(f, k, base, bytes, info, total)) && !FreedLast(t, f)
  {
    var t := Kept(k, base, bytes, info, total);
    SomeIff(f, t[0]);
    SomeIff(f, t[1]);
    SomeIff(f, t[2]);
    SomeIff(f, t[3]);
    assert TakesAt(t, f, 0) == Touches(f, t[0]) && TakesAt(t, f, 1) == Touches(f, t[1]);
    assert TakesAt(t, f, 2) == Touches(f, t[2]) && TakesAt(t, f, 3) == Touches(f, t[3]);
  }

  /** No sum over a kept range leaves 64 bits, and none of them is empty. */
  predicate KeptFits(k: Kernel, base: nat, bytes: nat, info: nat, total: nat) {
    && k.start < k.end < TWO64 - 4095 && bytes > 0 && base + bytes < TWO64 - 4095
    && total > 0 && info + total < TWO64 - 4095
  }

  lemma KeptApplied(free: set<nat>, k: Kernel, base: nat, bytes: nat, info: nat, total: nat, limit: nat)
    requires KeptFits(k, base, bytes, info, total) && forall f | f in free :: f < limit
    ensures
      var after := Apply(free, Kept(k, base, bytes, info, total), limit);
      forall f: nat :: f in after <==> f in free && !KeptFrame(f, k, base, bytes, info, total)
  {
    var t := Kept(k, base, bytes, info, total);
    ApplyBelow(free, t, limit);
    forall f: nat ensures f in Apply(free, t, limit) <==> f in free && !KeptFrame(f, k, base, bytes, info, total) {
      if f < limit {
        FreeAfterIff(free, t, limit, f);
        KeptClaims(f, k, base, bytes, info, total);
      }
    }
  }

  function Tail(info: nat, size: nat, k: Kernel, limit: nat): seq<Action>
    requires k.start < k.end
  {
    Kept(k, BitmapBase(info + size, k), BitmapBytes(limit), info, size)
  }

  /** Everything one boot applies, in order. */
  function BootActions(info: nat, b: seq<Byte>, k: Kernel): seq<Action>
    requires k.start < k.end
  {
    var tags := Parse(b, TAG_SIZE);
    tags + Tail(info, |b|, k, LimitOf(Highest(tags, 0)))
  }

  /** The fallback without a usable block: nothing is ever free. */
  method InitWithoutBlock(k: Kernel) returns (pmm: FrameAllocator)
    requires k.start < k.end < TWO64 - PAGE_SIZE
    ensures fresh(pmm) && fresh(pmm.bitmap) && pmm.Valid() && pmm.free == {} && pmm.frameLimit == MAX_FRAMES
  {
    pmm := new FrameAllocator(MAX_FRAMES);
    pmm.ReserveRange(0, LOW_MEMORY);
    pmm.ReserveRange(k.start, k.end - k.start);
    pmm.ReserveRange(BitmapBase(k.end, k), BitmapBytes(pmm.frameLimit));
  }

  /** One reservation, the first of those still to do. */
  method TakeNext(pmm: FrameAllocator, base: nat, length: nat, ghost t: seq<Action>)
    requires pmm.Consistent() && base < TWO64 && length < TWO64 && t != [] && t[0] == Take(base, length)
    modifies pmm`freeFrames, pmm`usedFrames, pmm`reservedFrames, pmm`free, pmm.bitmap
    ensures pmm.Consistent()
    ensures Apply(pmm.free, t[1..], pmm.frameLimit) == Apply(old(pmm.free), t, pmm.frameLimit)
  {
    pmm.ReserveRange(base, length);
  }

  /** The reservations after the passes; the bitmap occupies [base, base + bytes). */
  method ReserveKept(pmm: FrameAllocator, k: Kernel, base: nat, bytes: nat, info: nat, total: nat)
    requires pmm.Consistent() && pmm.frameLimit > 0
    requires k.start < k.end < TWO64 && base < TWO64 && bytes < TWO64 && info < TWO64 && total < TWO64
    modifies pmm`freeFrames, pmm`usedFrames, pmm`reservedFrames, pmm`free, pmm.bitmap
    ensures pmm.Valid()
    ensures pmm.free == Apply(old(pmm.free), Kept(k, base, bytes, info, total), pmm.frameLimit)
    ensures KeptFits(k, base, bytes, info, total) ==>
      forall f: nat :: f in pmm.free <==> f in old(pmm.free) && !KeptFrame(f, k, base, bytes, info, total)
  {
    ghost var before := pmm.free;
    if KeptFits(k, base, bytes, info, total) {
      KeptApplied(before, k, base, bytes, info, total, pmm.frameLimit);
    }
    ghost var t := Kept(k, base, bytes, info, total);
    ZeroKept(pmm.free, t, pmm.frameLimit);
    TakeNext(pmm, 0, LOW_MEMORY, t);
    TakeNext(pmm, k.start, k.end - k.start, t[1..]);
    TakeNext(pmm, base, bytes, t[1..][1..]);
    TakeNext(pmm, info, total, t[1..][1..][1..]);
  }

  /** Frame 0 is below 1 MiB and nothing after gives it back. */
  lemma ZeroKept(free: set<nat>, t: seq<Action>, limit: nat)
    requires limit > 0 && |t| == 4 && t[0] == Take(0, LOW_MEMORY) && t[1].Take? && t[2].Take? && t[3].Take?
    ensures 0 !in Apply(free, t, limit)
  {
    LowFrameKept(limit);
    FourSteps(free, t, limit);
  }

  lemma FourSteps(free: set<nat>, t: seq<Action>, limit: nat)
    requires |t| == 4
    ensures Apply(free, t, limit) == Act(Act(Act(Act(free, t[0], limit), t[1], limit), t[2], limit), t[3], limit)
  {
    assert t[1..][1..] == t[2..] && t[2..][1..] == t[3..] && t[3..][1..] == [];
    var f1 := Act(free, t[0], limit);
    var f2 := Act(f1, t[1], limit);
    var f3 := Act(f2, t[2], limit);
    var f4 := Act(f3, t[3], limit);
    assert Apply(f3, t[3..], limit) == Apply(f4, [], limit) == f4;
    assert Apply(f2, t[2..], limit) == Apply(f3, t[3..], limit);
    assert Apply(f1, t[1..], limit) == Apply(f2, t[2..], limit);
    assert Apply(free, t, limit) == Apply(f1, t[1..], limit);
  }

  /** Both passes over a block and the reservations. */
  method InitFromBlock(info: nat, b: seq<Byte>, k: Kernel) returns (pmm: FrameAllocator, base: nat)
    requires k.start < k.end < TWO64 - PAGE_SIZE && info + |b| < TWO64 - PAGE_SIZE
    ensures fresh(pmm) && fresh(pmm.bitmap) && pmm.Valid() && base == BitmapBase(info + |b|, k)
    ensures pmm.frameLimit == LimitOf(Highest(Parse(b, TAG_SIZE), 0))
    ensures pmm.free == Apply({}, BootActions(info, b, k), pmm.frameLimit)
  {
    var highest := HighestEnd(b);
    pmm := new FrameAllocator(highest / PAGE_SIZE);
    base := BitmapBase(info + |b|, k);
    ApplyTags(pmm, b);
    ApplyConcat({}, Parse(b, TAG_SIZE), Tail(info, |b|, k, pmm.frameLimit), pmm.frameLimit);
    BitmapFits(info + |b|, k, pmm.frameLimit);
    ReserveKept(pmm, k, base, BitmapBytes(pmm.frameLimit), info, |b|);
  }
}
