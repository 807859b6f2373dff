/** What a boot information block says, read off its bytes, and the frames that are free after booting with it. */
module BootTags {
  import opened Common
  import opened Bitmaps
  import opened Pmm
  import opened BootMap
  import opened Multiboot

  function Padded(size: nat): nat {
    (size + 7) / 8 * 8
  }

  /** A tag that is not the end tag starts here and lies inside the block. */
  predicate TagHere(b: seq<Byte>, at: nat) {
    && at + 8 <= |b| && U32(b, at) != 0 && U32(b, at + 4) >= 8
    && at + Padded(U32(b, at + 4)) <= |b|
  }

  /** The nth tag after the one at a place. */
  predicate NthTag(b: seq<Byte>, from: nat, n: nat, at: nat)
    decreases n
  {
    && TagHere(b, from)
    && if n == 0 then at == from else NthTag(b, from + Padded(U32(b, from + 4)), n - 1, at)
  }

  ghost predicate TagFrom(b: seq<Byte>, from: nat, at: nat) {
    exists n: nat :: NthTag(b, from, n, at)
  }

  /** The jth entry of a memory map is available memory of this range. */
  predicate EntryIs(b: seq<Byte>, start: nat, end: nat, size: nat, j: nat, base: nat, length: nat)
    requires end <= |b|
  {
    var p := start + j * size;
    p + 24 <= end && U32(b, p + 16) == 1 && base == U64(b, p) && length == U64(b, p + 8)
  }

  ghost predicate Listed(b: seq<Byte>, start: nat, end: nat, size: nat, base: nat, length: nat)
    requires end <= |b|
  {
    exists j: nat :: EntryIs(b, start, end, size, j, base, length)
  }

  /** A memory map tag has the range as available. */
  ghost predicate Lists(b: seq<Byte>, at: nat, base: nat, length: nat) {
    && TagHere(b, at) && U32(b, at) == 6 && U32(b, at + 4) >= 16 && U32(b, at + 8) >= 24
    && Listed(b, at + 16, at + U32(b, at + 4), U32(b, at + 8), base, length)
  }

  /** A module tag with the bytes its module occupies. */
  predicate Loads(b: seq<Byte>, at: nat, start: nat, end: nat) {
    && TagHere(b, at) && U32(b, at) == 3 && U32(b, at + 4) >= 16
    && start == U32(b, at + 8) && end == U32(b, at + 12) && start < end
  }

  /** A memory map tag has an available range that holds every byte of the frame. */
  ghost predicate Gives(b: seq<Byte>, at: nat, f: nat) {
    exists base: nat, length: nat :: Lists(b, at, base, length) && WholeIn(f, base, base + length)
  }

  /** A module tag's module has a byte of the frame. */
  ghost predicate Occupies(b: seq<Byte>, at: nat, f: nat) {
    exists start: nat, end: nat :: Loads(b, at, start, end) && SomeIn(f, start, end)
  }

  // ---- The walk over the tags ----

  lemma StopsIff(b: seq<Byte>, at: nat)
    ensures Stops(b, at) <==> !TagHere(b, at)
    ensures !Stops(b, at) ==> NextAt(b, at) == at + Padded(U32(b, at + 4))
  {
  }

  lemma TagFromIff(b: seq<Byte>, from: nat, next: nat, at: nat)
    requires TagHere(b, from) && next == from + Padded(U32(b, from + 4))
    ensures TagFrom(b, from, at) <==> at == from || TagFrom(b, next, at)
  {
    if n: nat :| NthTag(b, from, n, at) {
      if n > 0 { assert NthTag(b, next, n - 1, at); }
    }
    if n: nat :| NthTag(b, next, n, at) { assert NthTag(b, from, n + 1, at); }
    assert NthTag(b, from, 0, from);
  }

  lemma {:induction false} NthAhead(b: seq<Byte>, from: nat, n: nat, at: nat)
    requires NthTag(b, from, n, at)
    ensures from <= at
    decreases n
  {
    if n > 0 { NthAhead(b, from + Padded(U32(b, from + 4)), n - 1, at); }
  }

  lemma TagsAhead(b: seq<Byte>, from: nat)
    ensures forall at :: TagFrom(b, from, at) ==> from <= at
  {
    forall at | TagFrom(b, from, at) ensures from <= at {
      var n: nat :| NthTag(b, from, n, at);
      NthAhead(b, from, n, at);
    }
  }

  lemma NoTags(b: seq<Byte>, from: nat, at: nat)
    requires !TagHere(b, from)
    ensures !TagFrom(b, from, at)
  {
  }

  // ---- The ranges of one tag ----

  lemma Shift(start: nat, size: nat, j: nat)
    ensures (start + size) + j * size == start + (j + 1) * size
  {
  }

  lemma ListedIff(b: seq<Byte>, start: nat, next: nat, end: nat, size: nat, base: nat, length: nat)
    requires end <= |b| && start + 24 <= end && next == start + size
    ensures Listed(b, start, end, size, base, length) <==>
      EntryIs(b, start, end, size, 0, base, length) || Listed(b, next, end, size, base, length)
  {
    if j: nat :| EntryIs(b, start, end, size, j, base, length) {
      if j > 0 {
        Shift(start, size, j - 1);
        assert EntryIs(b, next, end, size, j - 1, base, length);
      }
    }
    if j: nat :| EntryIs(b, next, end, size, j, base, length) {
      Shift(start, size, j);
      assert EntryIs(b, start, end, size, j + 1, base, length);
    }
  }

  lemma EntriesUnfold(b: seq<Byte>, p: nat, next: nat, end: nat, entrySize: nat)
    requires p + 24 <= end <= |b| && entrySize >= 24 && next == p + entrySize
    ensures Entries(b, p, end, entrySize) == Entry(b, p) + Entries(b, next, end, entrySize)
  {
  }

  lemma EntryHolds(b: seq<Byte>, p: nat, end: nat, size: nat, a: Action)
    requires p + 24 <= end <= |b|
    ensures a in Entry(b, p) <==> a.Free? && EntryIs(b, p, end, size, 0, a.base, a.length)
  {
  }

  lemma {:induction false} EntriesAre(b: seq<Byte>, start: nat, end: nat, size: nat, a: Action)
    requires end <= |b| && size >= 24
    ensures a in Entries(b, start, end, size) <==> a.Free? && Listed(b, start, end, size, a.base, a.length)
    decreases |b| - start
  {
    if start + 24 > end {
      NothingListed(b, start, end, size, a.base, a.length);
    } else {
      var next := start + size;
      EntriesAre(b, next, end, size, a);
      ListedIff(b, start, next, end, size, a.base, a.length);
      EntriesUnfold(b, start, next, end, size);
      EntryHolds(b, start, end, size, a);
    }
  }

  lemma NothingListed(b: seq<Byte>, start: nat, end: nat, size: nat, base: nat, length: nat)
    requires end <= |b| && start + 24 > end
    ensures !Listed(b, start, end, size, base, length)
  {
    forall j: nat ensures !EntryIs(b, start, end, size, j, base, length) {
      assert j * size >= 0;
    }
  }

  /** The ranges a tag frees are the available ones it lists, and the range it takes is its module's. */
  lemma TagAsks(b: seq<Byte>, at: nat, a: Action)
    requires TagHere(b, at)
    ensures !Stops(b, at)
    ensures a in TagActions(b, at) <==>
      if a.Free? then Lists(b, at, a.base, a.length) else Loads(b, at, a.base, a.base + a.length)
  {
    StopsIff(b, at);
    if U32(b, at) == 6 && U32(b, at + 4) >= 16 && U32(b, at + 8) >= 24 {
      EntriesAre(b, at + 16, at + U32(b, at + 4), U32(b, at + 8), a);
    }
  }

  lemma TagGives(b: seq<Byte>, at: nat, f: nat)
    requires TagHere(b, at) && !Stops(b, at)
    ensures (exists a :: a in TagActions(b, at) && a.Free? && Inside(f, a)) <==> Gives(b, at, f)
  {
    var acts := TagActions(b, at);
    if a :| a in acts && a.Free? && Inside(f, a) {
      TagAsks(b, at, a);
      WholeIff(f, a);
      assert Lists(b, at, a.base, a.length);
    }
    if base: nat, length: nat :| Lists(b, at, base, length) && WholeIn(f, base, base + length) {
      var a := Free(base, length);
      TagAsks(b, at, a);
      WholeIff(f, a);
    }
  }

  lemma TagOccupies(b: seq<Byte>, at: nat, f: nat)
    requires TagHere(b, at) && !Stops(b, at)
    ensures (exists a :: a in TagActions(b, at) && a.Take? && Touches(f, a)) <==> Occupies(b, at, f)
  {
    var acts := TagActions(b, at);
    if a :| a in acts && a.Take? && Touches(f, a) {
      TagAsks(b, at, a);
      SomeIff(f, a);
      assert Loads(b, at, a.base, a.base + a.length);
    }
    if start: nat, end: nat :| Loads(b, at, start, end) && SomeIn(f, start, end) {
      var a := Take(start, end - start);
      TagAsks(b, at, a);
      SomeIff(f, a);
    }
  }

  lemma ActsHold(acts: seq<Action>, f: nat)
    ensures Claimed(acts, f) <==> exists a :: a in acts && a.Take? && Touches(f, a)
    ensures !Claimed(acts, f) ==> (FreedLast(acts, f) <==> exists a :: a in acts && a.Free? && Inside(f, a))
  {
    if a :| a in acts && a.Take? && Touches(f, a) {
      var i :| 0 <= i < |acts| && acts[i] == a;
      assert TakesAt(acts, f, i);
    }
    if a :| a in acts && a.Free? && Inside(f, a) {
      var i :| 0 <= i < |acts| && acts[i] == a;
      assert FreesAt(acts, f, i);
    }
  }

  lemma TagMeans(b: seq<Byte>, at: nat, f: nat)
    requires TagHere(b, at) && !Stops(b, at)
    ensures Claimed(TagActions(b, at), f) <==> Occupies(b, at, f)
    ensures FreedLast(TagActions(b, at), f) <==> Gives(b, at, f)
  {
    TagGives(b, at, f);
    TagOccupies(b, at, f);
    ActsHold(TagActions(b, at), f);
    if i :| FreesAt(TagActions(b, at), f, i) {
      TagAsks(b, at, TagActions(b, at)[i]);
      assert U32(b, at) == 6;
    }
  }

  // ---- The ranges of a block ----

  ghost predicate OccupiedFrom(b: seq<Byte>, from: nat, f: nat) {
    exists at: nat :: TagFrom(b, from, at) && Occupies(b, at, f)
  }

  /** A memory map gives the frame and no module behind that memory map occupies it. */
  ghost predicate GivesLast(b: seq<Byte>, from: nat, at: nat, f: nat) {
    && TagFrom(b, from, at) && Gives(b, at, f)
    && forall m: nat :: TagFrom(b, from, m) && Occupies(b, m, f) ==> m < at
  }

  ghost predicate GivenFrom(b: seq<Byte>, from: nat, f: nat) {
    exists at: nat :: GivesLast(b, from, at, f)
  }

  lemma OccupiedIff(b: seq<Byte>, from: nat, next: nat, f: nat)
    requires TagHere(b, from) && next == from + Padded(U32(b, from + 4))
    ensures OccupiedFrom(b, from, f) <==> Occupies(b, from, f) || OccupiedFrom(b, next, f)
  {
    forall at { TagFromIff(b, from, next, at); }
    assert TagFrom(b, from, from);
  }

  lemma GivenIff(b: seq<Byte>, from: nat, next: nat, f: nat)
    requires TagHere(b, from) && next == from + Padded(U32(b, from + 4))
    ensures GivenFrom(b, from, f) <==> GivenFrom(b, next, f) || (Gives(b, from, f) && !OccupiedFrom(b, next, f))
  {
    forall at { TagFromIff(b, from, next, at); }
    TagsAhead(b, next);
    assert TagFrom(b, from, from);
    if GivenFrom(b, next, f) {
      var at: nat :| GivesLast(b, next, at, f);
      assert GivesLast(b, from, at, f);
    } else if Gives(b, from, f) && !OccupiedFrom(b, next, f) {
      OneKind(b, from, f);
      assert GivesLast(b, from, from, f);
    } else if at: nat :| GivesLast(b, from, at, f) {
      if at != from { assert GivesLast(b, next, at, f); }
    }
  }

  lemma OneKind(b: seq<Byte>, at: nat, f: nat)
    requires Gives(b, at, f)
    ensures !Occupies(b, at, f)
  {
  }

  lemma {:induction false} TagsMean(b: seq<Byte>, from: nat, f: nat)
    ensures Claimed(Parse(b, from), f) <==> OccupiedFrom(b, from, f)
    ensures FreedLast(Parse(b, from), f) <==> GivenFrom(b, from, f)
    decreases |b| - from
  {
    StopsIff(b, from);
    if !TagHere(b, from) {
      forall at { NoTags(b, from, at); }
    } else {
      var next := from + Padded(U32(b, from + 4));
      TagMeans(b, from, f);
      TagsMean(b, next, f);
      ParseUnfolds(b, from, next);
      ConcatActs(TagActions(b, from), Parse(b, next), f);
      OccupiedIff(b, from, next, f);
      GivenIff(b, from, next, f);
    }
  }

  ghost predicate Asks(b: seq<Byte>, at: nat, a: Action) {
    if a.Free? then Lists(b, at, a.base, a.length) else Loads(b, at, a.base, a.base + a.length)
  }

  lemma {:induction false} TagsHold(b: seq<Byte>, from: nat, a: Action)
    ensures a in Parse(b, from) <==> exists at :: TagFrom(b, from, at) && Asks(b, at, a)
    decreases |b| - from
  {
    StopsIff(b, from);
    if !TagHere(b, from) {
      forall at { NoTags(b, from, at); }
    } else {
      var next := from + Padded(U32(b, from + 4));
      TagAsks(b, from, a);
      TagsHold(b, next, a);
      ParseUnfolds(b, from, next);
      forall at { TagFromIff(b, from, next, at); }
      assert TagFrom(b, from, from);
    }
  }

  // ---- The number of frames ----

  /** A range of the tag ends here; an available range's sum wraps at 2^64. */
  ghost predicate TagEnds(b: seq<Byte>, at: nat, end: nat) {
    || (exists base: nat, length: nat :: Lists(b, at, base, length) && end == (base + length) % TWO64)
    || (exists start: nat :: Loads(b, at, start, end))
  }

  ghost predicate EndsAt(b: seq<Byte>, end: nat) {
    exists at: nat :: TagFrom(b, 8, at) && TagEnds(b, at, end)
  }

  ghost predicate IsHighest(b: seq<Byte>, h: nat) {
    (h == 0 || EndsAt(b, h)) && forall end: nat :: EndsAt(b, end) ==> end <= h
  }

  /** The frames up to the highest end, but at least one and at most 2^25. */
  ghost predicate IsLimit(b: seq<Byte>, limit: nat) {
    exists h: nat :: IsHighest(b, h) &&
      limit == if h < 4096 then 1 else if h >= 0x20_0000_0000 then 0x200_0000 else h / 4096
  }

  lemma ModuleEnds(b: seq<Byte>, at: nat, start: nat, end: nat)
    requires Loads(b, at, start, end)
    ensures EndOf(Take(start, end - start)) == end
  {
    Bound32(b, at + 12);
  }

  lemma TagEndAsked(b: seq<Byte>, at: nat, end: nat)
    requires TagEnds(b, at, end)
    ensures exists a :: Asks(b, at, a) && EndOf(a) == end
  {
    if base: nat, length: nat :| Lists(b, at, base, length) && end == (base + length) % TWO64 {
      assert Asks(b, at, Free(base, length));
    } else {
      var start: nat :| Loads(b, at, start, end);
      ModuleEnds(b, at, start, end);
      assert Asks(b, at, Take(start, end - start));
    }
  }

  lemma AskedEnds(b: seq<Byte>, at: nat, a: Action)
    requires Asks(b, at, a)
    ensures TagEnds(b, at, EndOf(a))
  {
    if a.Take? { ModuleEnds(b, at, a.base, a.base + a.length); }
  }

  lemma EndsHold(b: seq<Byte>, end: nat)
    ensures EndsAt(b, end) <==> exists a :: a in Parse(b, 8) && EndOf(a) == end
  {
    if at: nat :| TagFrom(b, 8, at) && TagEnds(b, at, end) {
      TagEndAsked(b, at, end);
      var a :| Asks(b, at, a) && EndOf(a) == end;
      TagsHold(b, 8, a);
    }
    if a :| a in Parse(b, 8) && EndOf(a) == end {
      TagsHold(b, 8, a);
      var at :| TagFrom(b, 8, at) && Asks(b, at, a);
      AskedEnds(b, at, a);
    }
  }

  lemma ClampIs(h: nat)
    ensures LimitOf(h) == if h < 4096 then 1 else if h >= 0x20_0000_0000 then 0x200_0000 else h / 4096
  {
  }

  lemma HighestMeans(b: seq<Byte>)
    ensures IsHighest(b, Highest(Parse(b, 8), 0)) && IsLimit(b, LimitOf(Highest(Parse(b, 8), 0)))
  {
    var tags := Parse(b, 8);
    var h := Highest(tags, 0);
    HighestBounds(tags, 0);
    HighestAttained(tags, 0);
    assert IsHighest(b, h) by { forall end { EndsHold(b, end); } }
    ClampIs(h);
  }

  // ---- The free frames ----

  /** The first page boundary at or above the end of the block and of the kernel. */
  predicate IsBitmapBase(base: nat, info: nat, size: nat, k: Kernel) {
    && base % 4096 == 0 && info + size <= base && k.end <= base
    && (base < info + size + 4096 || base < k.end + 4096)
  }

  /** One bit for every frame, in words of 64. */
  function BitmapSize(limit: nat): nat {
    (limit + 63) / 64 * 8
  }

  /** No sum over an available or a kept range leaves 64 bits. */
  ghost predicate NothingWraps(info: nat, b: seq<Byte>, k: Kernel, base: nat, limit: nat) {
    && KeptFits(k, base, BitmapSize(limit), info, |b|)
    && forall at, from: nat, length: nat :: TagFrom(b, 8, at) && Lists(b, at, from, length) ==>
      from + length < TWO64 - 4095
  }

  /** What is free after boot: an available range has every byte of the frame, no module listed behind that range
      has one, and neither has anything that is kept. */
  ghost predicate BootFrees(info: nat, b: seq<Byte>, k: Kernel, base: nat, limit: nat, f: nat) {
    f < 0x200_0000 && GivenFrom(b, 8, f) && !KeptFrame(f, k, base, BitmapSize(limit), info, |b|)
  }

  /** What the design asks for: no module has a byte of the frame, wherever it is listed. */
  ghost predicate ShouldBeFree(info: nat, b: seq<Byte>, k: Kernel, base: nat, limit: nat, f: nat) {
    && f < 0x200_0000 && (exists at: nat :: TagFrom(b, 8, at) && Gives(b, at, f))
    && !OccupiedFrom(b, 8, f) && !KeptFrame(f, k, base, BitmapSize(limit), info, |b|)
  }

  lemma BaseIs(base: nat, info: nat, size: nat, k: Kernel)
    ensures IsBitmapBase(base, info, size, k) <==> base == BitmapBase(info + size, k)
  {
    var top := Max(info + size, k.end);
    assert top <= BitmapBase(info + size, k) < top + 4096;
    if IsBitmapBase(base, info, size, k) { OneBoundary(base / 4096, BitmapBase(info + size, k) / 4096, top); }
  }

  lemma OneBoundary(i: nat, j: nat, top: nat)
    requires top <= i * 4096 < top + 4096 && top <= j * 4096 < top + 4096
    ensures i == j
  {
  }

  lemma AskedPlain(b: seq<Byte>, at: nat, a: Action)
    requires Asks(b, at, a) && (a.Free? ==> a.base + a.length < TWO64 - 4095)
    ensures Fits(a) && (a.Take? ==> a.length > 0)
  {
    if a.Take? { Bound32(b, at + 12); }
  }

  lemma TagsPlain(info: nat, b: seq<Byte>, k: Kernel, base: nat, limit: nat)
    requires NothingWraps(info, b, k, base, limit)
    ensures Plain(Parse(b, 8))
  {
    var tags := Parse(b, 8);
    forall i | 0 <= i < |tags| ensures Fits(tags[i]) && (tags[i].Take? ==> tags[i].length > 0) {
      var a := tags[i];
      TagsHold(b, 8, a);
      var at :| TagFrom(b, 8, at) && Asks(b, at, a);
      if a.Free? { assert Lists(b, at, a.base, a.length); }
      AskedPlain(b, at, a);
    }
  }

  lemma PlainConcat(x: seq<Action>, y: seq<Action>)
    requires Plain(x) && Plain(y)
    ensures Plain(x + y)
  {
  }

  lemma TailPlain(info: nat, b: seq<Byte>, k: Kernel, base: nat, limit: nat)
    requires NothingWraps(info, b, k, base, limit) && base == BitmapBase(info + |b|, k)
    ensures Plain(Tail(info, |b|, k, limit))
  {
  }

  lemma BootFreeIff(info: nat, b: seq<Byte>, k: Kernel, base: nat, limit: nat, f: nat)
    requires IsBitmapBase(base, info, |b|, k) && limit == LimitOf(Highest(Parse(b, 8), 0))
    requires NothingWraps(info, b, k, base, limit)
    ensures f in Apply({}, BootActions(info, b, k), limit) <==> BootFrees(info, b, k, base, limit, f)
  {
    var tags, tail := Parse(b, 8), Tail(info, |b|, k, limit);
    BaseIs(base, info, |b|, k);
    TagsPlain(info, b, k, base, limit);
    TailPlain(info, b, k, base, limit);
    PlainConcat(tags, tail);
    ApplyBelow({}, tags + tail, limit);
    TagsMean(b, 8, f);
    ConcatActs(tags, tail, f);
    KeptClaims(f, k, base, BitmapSize(limit), info, |b|);
    if f < limit {
      FreeAfterIff({}, tags + tail, limit, f);
    } else if f < 0x200_0000 && FreedLast(tags, f) {
      HighestBounds(tags, 0);
      CoveredBelowLimit(tags, Highest(tags, 0), f);
    }
  }

  predicate KindIs(b: seq<Byte>, at: nat, kind: nat) {
    TagHere(b, at) && U32(b, at) == kind
  }

  /** No memory map tag comes after a module tag. */
  ghost predicate ModulesLast(b: seq<Byte>) {
    forall at, m :: TagFrom(b, 8, at) && TagFrom(b, 8, m) && KindIs(b, at, 6) && KindIs(b, m, 3) ==> at < m
  }

  /** A memory map behind a module gives a frame of that module, and no module behind both has it. */
  ghost predicate Reopened(b: seq<Byte>, f: nat) {
    exists m: nat, at: nat :: m < at && TagFrom(b, 8, m) && Occupies(b, m, f) && GivesLast(b, 8, at, f)
  }

  lemma ReopenedIff(b: seq<Byte>, f: nat)
    ensures Reopened(b, f) <==> GivenFrom(b, 8, f) && OccupiedFrom(b, 8, f)
    ensures !OccupiedFrom(b, 8, f) ==> (GivenFrom(b, 8, f) <==> exists at: nat :: TagFrom(b, 8, at) && Gives(b, at, f))
  {
    if at: nat :| GivesLast(b, 8, at, f) {
      if m: nat :| TagFrom(b, 8, m) && Occupies(b, m, f) { assert m < at; }
    }
    if !OccupiedFrom(b, 8, f) {
      if at: nat :| TagFrom(b, 8, at) && Gives(b, at, f) { assert GivesLast(b, 8, at, f); }
    }
  }

  lemma ReopenedKinds(b: seq<Byte>, f: nat)
    requires Reopened(b, f)
    ensures !ModulesLast(b)
  {
    var m: nat, at: nat :| m < at && TagFrom(b, 8, m) && Occupies(b, m, f) && GivesLast(b, 8, at, f);
    assert KindIs(b, m, 3);
    assert KindIs(b, at, 6);
  }

  /** In any tag order, exactly the reopened frames that nothing else keeps go wrong. */
  lemma BootWrongIff(info: nat, b: seq<Byte>, k: Kernel, base: nat, limit: nat, f: nat)
    ensures (BootFrees(info, b, k, base, limit, f) <==> ShouldBeFree(info, b, k, base, limit, f)) <==>
      !(f < 0x200_0000 && Reopened(b, f) && !KeptFrame(f, k, base, BitmapSize(limit), info, |b|))
  {
    ReopenedIff(b, f);
  }

  /** With every memory map before every module, what is free after boot is what should be. */
  lemma BootIsExact(info: nat, b: seq<Byte>, k: Kernel, base: nat, limit: nat, f: nat)
    requires ModulesLast(b)
    ensures BootFrees(info, b, k, base, limit, f) <==> ShouldBeFree(info, b, k, base, limit, f)
  {
    BootWrongIff(info, b, k, base, limit, f);
    if Reopened(b, f) { ReopenedKinds(b, f); }
  }

  // ---- Initialisation ----

  /** pmm_init_from_multiboot2 on the bytes at a block's address; 0 stands for a null pointer. The bitmap's address
      is returned beside the allocator. */
  method InitFromMultiboot2(info: nat, mem: seq<Byte>, k: Kernel) returns (pmm: FrameAllocator, base: nat)
    requires k.start < k.end < TWO64 - PAGE_SIZE
    requires info != 0 ==> |mem| >= 8 && |mem| >= U32(mem, 0) && info + |mem| < TWO64 - PAGE_SIZE
    ensures fresh(pmm) && fresh(pmm.bitmap) && pmm.Valid()
    ensures info == 0 || U32(mem, 0) < 8 ==> pmm.free == {} && pmm.frameLimit == 0x200_0000
    ensures info == 0 || U32(mem, 0) < 8 ==> IsBitmapBase(base, k.end, 0, k)
    ensures info != 0 && U32(mem, 0) >= 8 ==>
      var b, limit := mem[..U32(mem, 0)], pmm.frameLimit;
      && IsBitmapBase(base, info, |b|, k) && IsLimit(b, limit)
      && pmm.free == Apply({}, BootActions(info, b, k), limit)
      && (NothingWraps(info, b, k, base, limit) ==>
        forall f: nat :: f in pmm.free <==> BootFrees(info, b, k, base, limit, f))
      && (NothingWraps(info, b, k, base, limit) && ModulesLast(b) ==>
        forall f: nat :: f in pmm.free <==> ShouldBeFree(info, b, k, base, limit, f))
  {
    if info == 0 || U32(mem, 0) < 8 {
      pmm := InitWithoutBlock(k);
      base := BitmapBase(k.end, k);
      BaseIs(base, k.end, 0, k);
      return;
    }
    var b := mem[..U32(mem, 0)];
    pmm, base := InitFromBlock(info, b, k);
    HighestMeans(b);
    BaseIs(base, info, |b|, k);
    if NothingWraps(info, b, k, base, pmm.frameLimit) {
      forall f: nat { BootFreeIff(info, b, k, base, pmm.frameLimit, f); }
      if ModulesLast(b) { forall f: nat { BootIsExact(info, b, k, base, pmm.frameLimit, f); } }
    }
  }
}
