/** The physical frame allocator: a bitmap, its statistics and a search cursor, updated in place. */
module Pmm {
  import opened Common
  import opened Words
  import opened Bitmaps

  class FrameAllocator {
    var frameLimit: nat
    var bitmap: array<Word>
    var cursor: nat
    var totalFrames: nat
    var freeFrames: nat
    var usedFrames: nat
    var reservedFrames: nat

    /** The frames whose bit is clear. */
    ghost var free: set<nat>

    /** The bitmap covers the frames below the limit, its padding bits are set, and its clear bits are `free`. */
    ghost predicate Tied()
      reads this`frameLimit, this`bitmap, this`free, bitmap
    {
      Denotes(bitmap[..], frameLimit, free)
    }

    /** The counters agree with the bitmap. */
    ghost predicate Counted()
      reads this`frameLimit, this`free, this`cursor, this`totalFrames, this`freeFrames, this`usedFrames
    {
      && cursor <= (frameLimit + 63) / 64
      && freeFrames == |free|
      && usedFrames + freeFrames == totalFrames == frameLimit
      && free <= Frames(0, frameLimit)
    }

    /** The bookkeeping invariant, from the moment the bitmap is marked all used. */
    ghost predicate Consistent()
      reads this, bitmap
    {
      Tied() && Counted()
    }

    /** After initialisation frame 0 is reserved, so address 0 always means failure. */
    ghost predicate Valid()
      reads this, bitmap
    {
      Consistent() && 0 !in free
    }

    /** init_runtime_bitmap followed by mark_all_used. */
    constructor (frames: nat)
      ensures Consistent() && fresh(bitmap)
      ensures free == {} && cursor == 0 && reservedFrames == 0
      ensures frameLimit == if frames == 0 then 1 else if frames > MAX_FRAMES then MAX_FRAMES else frames
    {
      var limit := if frames == 0 then 1 else if frames > MAX_FRAMES then MAX_FRAMES else frames;
      var words := (limit + WORD_BITS - 1) / WORD_BITS;
      frameLimit := limit;
      bitmap := new Word[words](_ => UINT64_MAX);
      cursor := 0;
      totalFrames, freeFrames, usedFrames, reservedFrames := limit, 0, limit, 0;
      free := {};
      new;
      Pow2Of64();
      forall f: nat ensures Agrees(bitmap[..], frameLimit, {}, f) { OnesTest(64, f % 64); }
    }

    predicate TestFrame(f: nat)
      requires Tied()
      reads this`frameLimit, this`bitmap, this`free, bitmap
      ensures TestFrame(f) <==> f !in free
    {
      assert Agrees(bitmap[..], frameLimit, free, f);
      if f >= frameLimit then true else
        Test(bitmap[f / WORD_BITS], f % WORD_BITS)
    }

    method SetFrame(f: nat)
      requires Tied()
      modifies this`free, bitmap
      ensures Tied() && free == old(free) - {f}
    {
      assert Agrees(bitmap[..], frameLimit, free, f);
      if f >= frameLimit { return; }
      SetFrameBits(bitmap[..], frameLimit, free, f);
      ghost var before := bitmap[..];
      bitmap[f / WORD_BITS] := SetBit(bitmap[f / WORD_BITS], f % WORD_BITS);
      assert bitmap[..] == before[f / 64 := SetBit(before[f / 64], f % 64)];
      free := free - {f};
    }

    method ClearFrame(f: nat)
      requires Tied()
      modifies this`free, bitmap
      ensures Tied() && free == old(free) + if f < frameLimit then {f} else {}
    {
      if f >= frameLimit { return; }
      ClearFrameBits(bitmap[..], frameLimit, free, f);
      ghost var before := bitmap[..];
      bitmap[f / WORD_BITS] := ClearBit(bitmap[f / WORD_BITS], f % WORD_BITS);
      assert bitmap[..] == before[f / 64 := ClearBit(before[f / 64], f % 64)];
      free := free + {f};
    }

    /** A clear bit becomes set, with its statistics. */
    method Take(f: nat)
      requires Consistent() && f in free
      modifies this`freeFrames, this`usedFrames, this`free, bitmap
      ensures Consistent() && free == old(free) - {f}
    {
      SetFrame(f);
      freeFrames := freeFrames - 1;
      usedFrames := usedFrames + 1;
    }

    /** A set bit becomes clear, with its statistics. */
    method Give(f: nat)
      requires Consistent() && f < frameLimit && f !in free
      modifies this`freeFrames, this`usedFrames, this`free, bitmap
      ensures Consistent() && free == old(free) + {f}
    {
      SomeUsed(free, frameLimit, f);
      ClearFrame(f);
      freeFrames := freeFrames + 1;
      usedFrames := usedFrames - 1;
    }

    /** One word of the single-page scan: the lowest free frame of the word, or none. */
    method ScanWord(w: nat) returns (found: bool, f: nat)
      requires Tied() && w < bitmap.Length
      ensures found ==> f in free && f / 64 == w && forall g | g in free && g / 64 == w :: f <= g
      ensures !found ==> forall g | g in free :: g / 64 != w
    {
      WordScan(bitmap[..], frameLimit, free, w);
      var word := bitmap[w];
      if word == UINT64_MAX { return false, 0; }
      var freeMask := Complement(word, 64);
      return true, w * WORD_BITS + Ctz(freeMask);
    }

    /** Scan whole words from the cursor, wrapping once. Fails exactly when no frame is free; otherwise
        takes the lowest free frame of the first word, in cyclic order from the cursor, that has one. */
    method AllocSinglePage() returns (phys: nat)
      requires Valid()
      modifies this`cursor, this`freeFrames, this`usedFrames, this`free, bitmap
      ensures Valid()
      ensures phys == 0 <==> old(free) == {}
      ensures phys == 0 ==> free == old(free) && cursor == old(cursor)
      ensures phys != 0 ==>
        var f := phys / PAGE_SIZE;
        && phys == f * PAGE_SIZE && f in old(free) && free == old(free) - {f}
        && cursor == f / WORD_BITS
        && FirstByWord(old(free), old(cursor), bitmap.Length, f)
    {
      var found, f := FindFree(cursor);
      if !found { return 0; }
      FrameAddress(f);
      Take(f);
      cursor := f / WORD_BITS;
      return f * PAGE_SIZE;
    }

    /** The word scan from `start`, wrapping once. */
    method FindFree(start: nat) returns (found: bool, f: nat)
      requires Tied() && free <= Frames(0, frameLimit) && start <= bitmap.Length
      ensures found <==> free != {}
      ensures found ==> f in free && FirstByWord(free, start, bitmap.Length, f)
    {
      var words := bitmap.Length;
      AllFrom(free, frameLimit, start, words);
      var pass := 0;
      while pass < words
        invariant 0 <= pass <= words && WordsFrom(free, start, words, pass)
      {
        var wordIdx := (start + pass) % words;
        found, f := ScanWord(wordIdx);
        PassWord(free, frameLimit, start, words, pass, wordIdx);
        if found { return; }
        pass := pass + 1;
      }
      NoWordLeft(free, frameLimit, start, words);
      return false, 0;
    }

    /** Fails exactly when there is no run of `count` free frames; otherwise takes the first run in
        cyclic order from the cursor. Nothing but the returned run changes hands. */
    method AllocPages(count: nat) returns (phys: nat)
      requires Valid()
      modifies this`cursor, this`freeFrames, this`usedFrames, this`free, bitmap
      ensures Valid()
      ensures phys == 0 <==> count == 0 || !HasRun(old(free), frameLimit, count)
      ensures phys == 0 ==> free == old(free) && cursor == old(cursor)
      ensures phys != 0 ==>
        var f := phys / PAGE_SIZE;
        && phys == f * PAGE_SIZE && RunFree(old(free), frameLimit, f, count)
        && free == old(free) - Frames(f, count)
        && if count == 1
           then cursor == f / WORD_BITS && FirstByWord(old(free), old(cursor), bitmap.Length, f)
           else cursor == (f + count) / WORD_BITS &&
                FirstRun(old(free), frameLimit, (old(cursor) * WORD_BITS) % frameLimit, f, count)
    {
      if count == 0 || count > frameLimit { return 0; }
      if freeFrames < count {
        forall f: nat | RunFree(free, frameLimit, f, count) ensures false {
          FramesSize(f, count);
          SubsetSize(Frames(f, count), free);
        }
        return 0;
      }
      SingleRun(free, frameLimit);
      if count == 1 {
        phys := AllocSinglePage();
        return;
      }
      phys := AllocRun(count);
    }

    /** The scan for count > 1. */
    method AllocRun(count: nat) returns (phys: nat)
      requires Valid() && count > 1
      modifies this`cursor, this`freeFrames, this`usedFrames, this`free, bitmap
      ensures Valid()
      ensures phys == 0 <==> !HasRun(old(free), frameLimit, count)
      ensures phys == 0 ==> free == old(free) && cursor == old(cursor)
      ensures phys != 0 ==>
        var f := phys / PAGE_SIZE;
        && phys == f * PAGE_SIZE && RunFree(old(free), frameLimit, f, count)
        && free == old(free) - Frames(f, count)
        && cursor == (f + count) / WORD_BITS
        && FirstRun(old(free), frameLimit, (old(cursor) * WORD_BITS) % frameLimit, f, count)
    {
      var start := (cursor * WORD_BITS) % frameLimit;
      var found, f := FindRun(start, count);
      if !found { return 0; }
      RunAddress(free, frameLimit, f, count);
      SetRun(f, count);
      return f * PAGE_SIZE;
    }

    /** The search loop of pmm_alloc_pages: the first run in cyclic order from `start`, if there is one. */
    method FindRun(start: nat, count: nat) returns (found: bool, f: nat)
      requires Tied() && start < frameLimit && count > 0
      ensures found ==> RunFree(free, frameLimit, f, count) && FirstRun(free, frameLimit, start, f, count)
      ensures !found ==> !HasRun(free, frameLimit, count)
    {
      var pass := 0;
      while pass < frameLimit
        invariant 0 <= pass <= frameLimit && RunsFrom(free, frameLimit, start, count, pass)
      {
        f := (start + pass) % frameLimit;
        if f + count <= frameLimit {
          found := TestRun(f, count);
        } else {
          found := false;
        }
        PassStart(free, frameLimit, start, count, pass, f);
        if found { return; }
        pass := pass + 1;
      }
      NoRunLeft(free, frameLimit, start, count);
      return false, 0;
    }

    /** The inner test loop of pmm_alloc_pages. */
    method TestRun(f: nat, count: nat) returns (ok: bool)
      requires Tied() && f + count <= frameLimit
      ensures ok <==> RunFree(free, frameLimit, f, count)
    {
      ok := true;
      var i := 0;
      while i < count
        invariant 0 <= i <= count
        invariant Frames(f, i) <= free
      {
        if TestFrame(f + i) {
          assert InRun(f + i, f, count) && f + i in Frames(f, count);
          return false;
        }
        assert Frames(f, i + 1) == Frames(f, i) + {f + i};
        i := i + 1;
      }
    }

    /** The inner set loop of pmm_alloc_pages. */
    method SetFrames(f: nat, count: nat)
      requires Tied()
      modifies this`free, bitmap
      ensures Tied() && free == old(free) - Frames(f, count)
    {
      var i := 0;
      while i < count
        invariant 0 <= i <= count
        invariant Tied() && free == old(free) - Frames(f, i)
      {
        SetFrame(f + i);
        assert Frames(f, i + 1) == Frames(f, i) + {f + i};
        i := i + 1;
      }
    }

    /** The inner set loop of pmm_alloc_pages, with the statistics and the cursor. */
    method SetRun(f: nat, count: nat)
      requires Valid() && RunFree(free, frameLimit, f, count)
      modifies this`cursor, this`freeFrames, this`usedFrames, this`free, bitmap
      ensures Valid() && free == old(free) - Frames(f, count)
      ensures cursor == (f + count) / WORD_BITS
    {
      RunSize(free, f, count);
      SetFrames(f, count);
      freeFrames := freeFrames - count;
      usedFrames := usedFrames + count;
      cursor := (f + count) / WORD_BITS;
    }

    /** Gives back one page. Address 0, a misaligned address, an invalid frame and a frame that is
        already free are ignored. */
    method FreePage(phys: nat)
      requires Valid()
      modifies this`cursor, this`freeFrames, this`usedFrames, this`free, bitmap
      ensures Valid()
      ensures free == AfterFree(old(free), frameLimit, phys)
      ensures cursor == if free == old(free) then old(cursor) else phys / PAGE_SIZE / WORD_BITS
    {
      if phys == 0 || phys % PAGE_SIZE != 0 { return; }
      var f := phys / PAGE_SIZE;
      if f >= frameLimit || !TestFrame(f) { return; }
      Give(f);
      cursor := f / WORD_BITS;
    }

    method GiveIfUsed(f: nat)
      requires Consistent() && f < frameLimit
      modifies this`freeFrames, this`usedFrames, this`free, bitmap
      ensures Consistent() && free == old(free) + {f}
    {
      if TestFrame(f) {
        Give(f);
      }
    }

    method TakeIfFree(f: nat)
      requires Consistent() && f < frameLimit
      modifies this`freeFrames, this`usedFrames, this`reservedFrames, this`free, bitmap
      ensures Consistent() && free == old(free) - {f}
      ensures reservedFrames == old(reservedFrames) + old(freeFrames) - freeFrames
    {
      if !TestFrame(f) {
        Take(f);
        reservedFrames := reservedFrames + 1;
      }
    }

    /** The loop of mark_range_available. */
    method GiveSpan(start: nat, end: nat)
      requires Consistent() && end <= frameLimit
      modifies this`freeFrames, this`usedFrames, this`free, bitmap
      ensures Consistent()
      ensures free == old(free) + Span(start, end, frameLimit)
    {
      var f := start;
      while f < end
        invariant start <= f
        invariant Consistent()
        invariant free == old(free) + Span(start, f, end)
      {
        var next := f + 1;
        SpanGiven(old(free), start, f, next, end);
        GiveIfUsed(f);
        f := next;
      }
      SpanWhole(start, f, end, frameLimit);
    }

    /** The loop of reserve_range. */
    method TakeSpan(start: nat, end: nat)
      requires Consistent() && end <= frameLimit
      modifies this`freeFrames, this`usedFrames, this`reservedFrames, this`free, bitmap
      ensures Consistent()
      ensures free == old(free) - Span(start, end, frameLimit)
      ensures reservedFrames == old(reservedFrames) + old(freeFrames) - freeFrames
    {
      var f := start;
      while f < end
        invariant start <= f
        invariant Consistent()
        invariant free == old(free) - Span(start, f, end)
        invariant reservedFrames == old(reservedFrames) + old(freeFrames) - freeFrames
      {
        SpanNext(start, f, end);
        TakeIfFree(f);
        f := f + 1;
      }
      SpanWhole(start, f, end, frameLimit);
    }

    /** Frees every frame that lies wholly inside [base, base + length). Sums wrap at 2^64. */
    method MarkRangeAvailable(base: nat, length: nat)
      requires Consistent() && base < TWO64 && length < TWO64
      modifies this`freeFrames, this`usedFrames, this`free, bitmap
      ensures Consistent()
      ensures free == old(free) + Available(base, length, frameLimit)
    {
      var start := FirstWhole(base);
      var end := EndWhole(base, length);
      if end > frameLimit { end := frameLimit; }
      AvailableSpan(base, length, frameLimit);
      GiveSpan(start, end);
    }

    /** Takes every frame that touches [base, base + length). Sums wrap at 2^64. */
    method ReserveRange(base: nat, length: nat)
      requires Consistent() && base < TWO64 && length < TWO64
      modifies this`freeFrames, this`usedFrames, this`reservedFrames, this`free, bitmap
      ensures Consistent()
      ensures free == old(free) - Reserved(base, length, frameLimit)
      ensures reservedFrames == old(reservedFrames) + old(freeFrames) - freeFrames
    {
      var start := FirstTouched(base);
      var end := EndTouched(base, length);
      if end > frameLimit { end := frameLimit; }
      ReservedSpan(base, length, frameLimit);
      TakeSpan(start, end);
    }
  }

  predicate Within(f: nat, lo: nat, hi: nat) {
    lo <= f < hi
  }

  ghost function Span(lo: nat, hi: nat, limit: nat): set<nat> {
    set f: nat | f < limit && Within(f, lo, hi)
  }

  lemma SpanNext(start: nat, f: nat, end: nat)
    requires start <= f < end
    ensures Span(start, f + 1, end) == Span(start, f, end) + {f}
  {
  }

  lemma SpanGiven(free: set<nat>, start: nat, f: nat, next: nat, end: nat)
    requires start <= f < end && next == f + 1
    ensures free + Span(start, f, end) + {f} == free + Span(start, next, end)
  {
    SpanNext(start, f, end);
  }

  lemma SpanWhole(start: nat, f: nat, end: nat, limit: nat)
    requires f >= end && end <= limit
    ensures Span(start, f, end) == Span(start, end, limit)
  {
  }

  function FirstWhole(base: nat): nat {
    (base + PAGE_SIZE - 1) % TWO64 / PAGE_SIZE
  }

  function EndWhole(base: nat, length: nat): nat {
    (base + length) % TWO64 / PAGE_SIZE
  }

  function FirstTouched(base: nat): nat {
    base / PAGE_SIZE
  }

  function EndTouched(base: nat, length: nat): nat {
    (base + length + PAGE_SIZE - 1) % TWO64 / PAGE_SIZE
  }

  predicate GivesFrame(f: nat, base: nat, length: nat) {
    FirstWhole(base) <= f < EndWhole(base, length)
  }

  predicate TakesFrame(f: nat, base: nat, length: nat) {
    FirstTouched(base) <= f < EndTouched(base, length)
  }

  /** The frames mark_range_available frees, with the source's wrapping sums. */
  ghost function Available(base: nat, length: nat, limit: nat): set<nat> {
    set f: nat | f < limit && GivesFrame(f, base, length)
  }

  /** The frames reserve_range takes, with the source's wrapping sums. */
  ghost function Reserved(base: nat, length: nat, limit: nat): set<nat> {
    set f: nat | f < limit && TakesFrame(f, base, length)
  }

  lemma ClippedSpan(lo: nat, hi: nat, limit: nat, f: nat)
    ensures f in Span(lo, if hi > limit then limit else hi, limit) <==> f < limit && lo <= f < hi
  {
    var end := if hi > limit then limit else hi;
    assert f < limit ==> Within(f, lo, end) == (lo <= f < hi);
  }

  lemma AvailableSpan(base: nat, length: nat, limit: nat)
    ensures
      var end := EndWhole(base, length);
      Span(FirstWhole(base), if end > limit then limit else end, limit) == Available(base, length, limit)
  {
    var lo, hi := FirstWhole(base), EndWhole(base, length);
    forall f: nat
        ensures f in Span(lo, if hi > limit then limit else hi, limit) <==> f in Available(base, length, limit) {
      ClippedSpan(lo, hi, limit, f);
      assert GivesFrame(f, base, length) == (lo <= f < hi);
    }
  }

  lemma ReservedSpan(base: nat, length: nat, limit: nat)
    ensures
      var end := EndTouched(base, length);
      Span(FirstTouched(base), if end > limit then limit else end, limit) == Reserved(base, length, limit)
  {
    var lo, hi := FirstTouched(base), EndTouched(base, length);
    forall f: nat
        ensures f in Span(lo, if hi > limit then limit else hi, limit) <==> f in Reserved(base, length, limit) {
      ClippedSpan(lo, hi, limit, f);
      assert TakesFrame(f, base, length) == (lo <= f < hi);
    }
  }

  /** What pmm_free_page does to the free set. */
  ghost function AfterFree(free: set<nat>, limit: nat, phys: nat): set<nat> {
    var f := phys / PAGE_SIZE;
    if phys == 0 || phys % PAGE_SIZE != 0 || f >= limit || f in free then free else free + {f}
  }

  /** Freeing the pages of a run one call at a time. */
  ghost function AfterFreeRun(free: set<nat>, limit: nat, first: nat, count: nat): set<nat> {
    if count == 0 then free
    else AfterFree(AfterFreeRun(free, limit, first, count - 1), limit, (first + count - 1) * PAGE_SIZE)
  }

  /** No run of `count` free frames starts strictly before f in cyclic order from `start`. */
  ghost predicate FirstRun(free: set<nat>, limit: nat, start: nat, f: nat, count: nat) {
    forall g: nat :: RunFree(free, limit, g, count) ==> Distance(start, f, limit) <= Distance(start, g, limit)
  }

  lemma SingleRun(free: set<nat>, limit: nat)
    requires free <= Frames(0, limit)
    ensures free == {} <==> !HasRun(free, limit, 1)
    ensures forall f: nat :: RunFree(free, limit, f, 1) <==> f in free
    ensures forall f: nat :: Frames(f, 1) == {f}
  {
    forall f: nat ensures Frames(f, 1) == {f} && (RunFree(free, limit, f, 1) <==> f in free) {
      assert InRun(f, f, 1);
      assert Frames(f, 1) == {f};
    }
    if free != {} {
      var f :| f in free;
      assert RunFree(free, limit, f, 1);
    }
  }

  lemma RunSize(free: set<nat>, first: nat, count: nat)
    requires Frames(first, count) <= free
    ensures |free - Frames(first, count)| == |free| - count
  {
    FramesSize(first, count);
    assert free == (free - Frames(first, count)) + Frames(first, count);
  }

  lemma SomeUsed(free: set<nat>, limit: nat, f: nat)
    requires free <= Frames(0, limit) && f < limit && f !in free
    ensures |free| < limit
  {
    FramesSize(0, limit);
    assert InRun(f, 0, limit);
    SubsetSize(free + {f}, Frames(0, limit));
  }

  /** Every free frame's word is at least `pass` steps from `start`. */
  ghost predicate WordsFrom(free: set<nat>, start: nat, words: nat, pass: nat) {
    forall g | g in free :: Distance(start, g / 64, words) >= pass
  }

  lemma FreeWord(free: set<nat>, limit: nat, g: nat)
    requires free <= Frames(0, limit) && g in free
    ensures g / 64 < (limit + 63) / 64
  {
    assert InRun(g, 0, limit);
  }

  lemma AllFrom(free: set<nat>, limit: nat, start: nat, words: nat)
    requires free <= Frames(0, limit) && start <= words
    ensures WordsFrom(free, start, words, 0)
  {
  }

  lemma NoWordLeft(free: set<nat>, limit: nat, start: nat, words: nat)
    requires free <= Frames(0, limit) && words == (limit + 63) / 64 && start <= words
        && WordsFrom(free, start, words, words)
    ensures free == {}
  {
    if g :| g in free { FreeWord(free, limit, g); }
  }

  /** One round of the word scan: the word at hand is the next in cyclic order. */
  lemma PassWord(free: set<nat>, limit: nat, start: nat, words: nat, pass: nat, w: nat)
    requires start <= words && pass < words == (limit + 63) / 64 && w == (start + pass) % words
        && free <= Frames(0, limit)
    requires WordsFrom(free, start, words, pass)
    ensures (forall g | g in free :: g / 64 != w) ==> WordsFrom(free, start, words, pass + 1)
    ensures forall f | f in free && f / 64 == w && (forall g | g in free && g / 64 == w :: f <= g) ::
              FirstByWord(free, start, words, f)
  {
    forall g | g in free
        ensures if g / 64 == w then Distance(start, w, words) == pass else Distance(start, g / 64, words) > pass {
      FreeWord(free, limit, g);
      WrapUnique(start, pass, g / 64, words);
    }
  }

  ghost predicate HasRun(free: set<nat>, limit: nat, count: nat) {
    exists f: nat :: RunFree(free, limit, f, count)
  }

  /** Every run of free frames starts at least `pass` steps from `start`. */
  ghost predicate RunsFrom(free: set<nat>, limit: nat, start: nat, count: nat, pass: nat) {
    forall g: nat :: RunFree(free, limit, g, count) ==> g < limit && Distance(start, g, limit) >= pass
  }

  lemma RunAddress(free: set<nat>, limit: nat, f: nat, count: nat)
    requires 0 !in free && count > 0 && RunFree(free, limit, f, count)
    ensures f * PAGE_SIZE != 0 && f * PAGE_SIZE / PAGE_SIZE == f
  {
    assert InRun(f, f, count) && f in free;
    FrameAddress(f);
  }

  lemma FrameAddress(f: nat)
    ensures f * PAGE_SIZE / PAGE_SIZE == f && (f > 0 ==> f * PAGE_SIZE != 0)
  {
  }

  /** A full turn leaves no start. */
  lemma NoRunLeft(free: set<nat>, limit: nat, start: nat, count: nat)
    requires start < limit && RunsFrom(free, limit, start, count, limit)
    ensures !HasRun(free, limit, count)
  {
  }

  /** One round of the run scan. */
  lemma PassStart(free: set<nat>, limit: nat, start: nat, count: nat, pass: nat, f: nat)
    requires start <= limit && pass < limit && f == (start + pass) % limit
    requires RunsFrom(free, limit, start, count, pass)
    ensures !RunFree(free, limit, f, count) ==> RunsFrom(free, limit, start, count, pass + 1)
    ensures RunFree(free, limit, f, count) ==> FirstRun(free, limit, start, f, count)
  {
    forall g: nat | RunFree(free, limit, g, count)
        ensures if g == f then Distance(start, f, limit) == pass else Distance(start, g, limit) > pass {
      WrapUnique(start, pass, g, limit);
    }
  }

  /** f is the lowest free frame of its word, and its word comes first in cyclic order from `start`. */
  ghost predicate FirstByWord(free: set<nat>, start: nat, words: nat, f: nat) {
    forall g | g in free ::
      || Distance(start, f / 64, words) < Distance(start, g / 64, words)
      || (f / 64 == g / 64 && f <= g)
  }
}
