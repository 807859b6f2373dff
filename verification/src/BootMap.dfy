/** The memory map as a list of ranges to free and to take, and what applying it in order leaves free. */
module BootMap {
  import opened Common
  import opened Bitmaps
  import opened Pmm

  datatype Action = Free(base: nat, length: nat) | Take(base: nat, length: nat)

  /** What one range does to the free frames. */
  ghost function Act(free: set<nat>, a: Action, limit: nat): set<nat> {
    if a.Free? then free + Available(a.base, a.length, limit) else free - Reserved(a.base, a.length, limit)
  }

  ghost function Apply(free: set<nat>, acts: seq<Action>, limit: nat): set<nat>
    decreases |acts|
  {
    if acts == [] then free else Apply(Act(free, acts[0], limit), acts[1..], limit)
  }

  lemma {:induction false} ApplyConcat(free: set<nat>, a: seq<Action>, b: seq<Action>, limit: nat)
    ensures Apply(free, a + b, limit) == Apply(Apply(free, a, limit), b, limit)
    decreases |a|
  {
    if a == [] {
      assert a + b == b;
    } else {
      assert (a + b)[1..] == a[1..] + b;
      ApplyConcat(Act(free, a[0], limit), a[1..], b, limit);
    }
  }

  /** The highest end of a range; sums wrap at 2^64. */
  function Highest(acts: seq<Action>, h: nat): nat
    decreases |acts|
  {
    if acts == [] then h
    else
      var e := EndOf(acts[0]);
      Highest(acts[1..], if e > h then e else h)
  }

  lemma {:induction false} HighestBounds(acts: seq<Action>, h: nat)
    ensures Highest(acts, h) >= h
    ensures forall i | 0 <= i < |acts| :: EndOf(acts[i]) <= Highest(acts, h)
    decreases |acts|
  {
    if acts != [] {
      var e := EndOf(acts[0]);
      HighestBounds(acts[1..], if e > h then e else h);
      assert forall i | 0 < i < |acts| :: acts[i] == acts[1..][i - 1];
    }
  }

  lemma {:induction false} HighestAttained(acts: seq<Action>, h: nat)
    ensures Highest(acts, h) == h || exists a :: a in acts && EndOf(a) == Highest(acts, h)
    decreases |acts|
  {
    if acts != [] {
      var e := EndOf(acts[0]);
      HighestAttained(acts[1..], if e > h then e else h);
      assert acts[0] in acts && forall a | a in acts[1..] :: a in acts;
    }
  }

  function EndOf(a: Action): nat {
    (a.base + a.length) % TWO64
  }

  lemma {:induction false} HighestConcat(a: seq<Action>, b: seq<Action>, h: nat)
    ensures Highest(a + b, h) == Highest(b, Highest(a, h))
    decreases |a|
  {
    if a == [] {
      assert a + b == b;
    } else {
      assert (a + b)[1..] == a[1..] + b;
      var e := EndOf(a[0]);
      HighestConcat(a[1..], b, if e > h then e else h);
    }
  }

  // ---- What the ranges mean in bytes ----

  /** No sum over the range leaves 64 bits. */
  predicate Fits(a: Action) {
    a.base + a.length + PAGE_SIZE - 1 < TWO64
  }

  /** Every byte of the frame is in the range. */
  predicate Inside(f: nat, a: Action) {
    a.base <= f * PAGE_SIZE && (f + 1) * PAGE_SIZE <= a.base + a.length
  }

  /** Some byte of the frame is in the range. */
  predicate Touches(f: nat, a: Action) {
    a.base < (f + 1) * PAGE_SIZE && f * PAGE_SIZE < a.base + a.length
  }

  /** The byte at an address belongs to a frame. */
  predicate ByteOf(x: nat, f: nat) {
    x / 4096 == f
  }

  ghost predicate WholeIn(f: nat, start: nat, end: nat) {
    forall x: nat | ByteOf(x, f) :: start <= x < end
  }

  ghost predicate SomeIn(f: nat, start: nat, end: nat) {
    exists x: nat :: ByteOf(x, f) && start <= x < end
  }

  lemma WholeIff(f: nat, a: Action)
    ensures Inside(f, a) <==> WholeIn(f, a.base, a.base + a.length)
  {
    assert ByteOf(f * PAGE_SIZE, f) && ByteOf(f * PAGE_SIZE + 4095, f);
    PageBytes(f);
  }

  lemma PageBytes(f: nat)
    ensures forall x: nat :: ByteOf(x, f) <==> f * PAGE_SIZE <= x < (f + 1) * PAGE_SIZE
  {
  }

  lemma SomeIff(f: nat, a: Action)
    requires a.length > 0
    ensures Touches(f, a) <==> SomeIn(f, a.base, a.base + a.length)
  {
    PageBytes(f);
    var x := if a.base > f * PAGE_SIZE then a.base else f * PAGE_SIZE;
    if Touches(f, a) { assert ByteOf(x, f); }
  }

  lemma PageOfAddress(x: nat, f: nat)
    ensures x / PAGE_SIZE <= f <==> x < (f + 1) * PAGE_SIZE
  {
  }

  lemma GivesIffInside(a: Action, f: nat)
    requires Fits(a)
    ensures GivesFrame(f, a.base, a.length) <==> Inside(f, a)
  {
    PageOfAddress(a.base + PAGE_SIZE - 1, f);
    PageOfAddress(a.base + a.length, f);
  }

  lemma TakesIffTouches(a: Action, f: nat)
    requires Fits(a) && a.length > 0
    ensures TakesFrame(f, a.base, a.length) <==> Touches(f, a)
  {
    PageOfAddress(a.base, f);
    PageOfAddress(a.base + a.length + PAGE_SIZE - 1, f);
  }

  /** Freeing whole frames and taking touched ones is what the wrapping arithmetic does when nothing wraps. */
  lemma ActMeaning(free: set<nat>, a: Action, limit: nat, f: nat)
    requires Fits(a) && (a.Take? ==> a.length > 0) && f < limit
    ensures f in Act(free, a, limit) <==> if a.Free? then f in free || Inside(f, a) else f in free && !Touches(f, a)
  {
    if a.Free? { GivesIffInside(a, f); } else { TakesIffTouches(a, f); }
  }

  ghost predicate Covered(acts: seq<Action>, f: nat) {
    exists i :: FreesAt(acts, f, i)
  }

  ghost predicate Claimed(acts: seq<Action>, f: nat) {
    exists i :: TakesAt(acts, f, i)
  }

  predicate FreesAt(acts: seq<Action>, f: nat, i: int) {
    0 <= i < |acts| && acts[i].Free? && Inside(f, acts[i])
  }

  predicate TakesAt(acts: seq<Action>, f: nat, i: int) {
    0 <= i < |acts| && acts[i].Take? && Touches(f, acts[i])
  }

  /** Some range frees the frame and none after it takes it. */
  ghost predicate FreedLast(acts: seq<Action>, f: nat) {
    exists i :: FreesAt(acts, f, i) && forall j :: TakesAt(acts, f, j) ==> j < i
  }

  ghost predicate Plain(acts: seq<Action>) {
    forall i | 0 <= i < |acts| :: Fits(acts[i]) && (acts[i].Take? ==> acts[i].length > 0)
  }

  lemma {:induction false} FreeAfterIff(free: set<nat>, acts: seq<Action>, limit: nat, f: nat)
    requires Plain(acts) && f < limit
    ensures f in Apply(free, acts, limit) <==> FreedLast(acts, f) || (f in free && !Claimed(acts, f))
    decreases |acts|
  {
    if acts != [] {
      var rest, next := acts[1..], Act(free, acts[0], limit);
      ActMeaning(free, acts[0], limit, f);
      FreeAfterIff(next, rest, limit, f);
      ShiftActs(acts, f);
    }
  }

  lemma ShiftActs(acts: seq<Action>, f: nat)
    requires acts != []
    ensures Claimed(acts, f) <==> TakesAt(acts, f, 0) || Claimed(acts[1..], f)
    ensures FreedLast(acts, f) <==> FreedLast(acts[1..], f) || (FreesAt(acts, f, 0) && !Claimed(acts[1..], f))
  {
    var rest := acts[1..];
    assert forall i :: FreesAt(rest, f, i) ==> FreesAt(acts, f, i + 1);
    assert forall i :: TakesAt(rest, f, i) ==> TakesAt(acts, f, i + 1);
    assert forall i :: i > 0 && FreesAt(acts, f, i) ==> FreesAt(rest, f, i - 1);
    assert forall i :: i > 0 && TakesAt(acts, f, i) ==> TakesAt(rest, f, i - 1);
    if i :| FreesAt(rest, f, i) && forall j :: TakesAt(rest, f, j) ==> j < i {
      assert FreesAt(acts, f, i + 1) && forall j :: TakesAt(acts, f, j) ==> j < i + 1;
    }
    if i :| FreesAt(acts, f, i) && forall j :: TakesAt(acts, f, j) ==> j < i {
      assert i > 0 ==> FreesAt(rest, f, i - 1) && forall j :: TakesAt(rest, f, j) ==> j < i - 1;
    }
  }

  lemma {:induction false} ConcatActs(x: seq<Action>, y: seq<Action>, f: nat)
    ensures Claimed(x + y, f) <==> Claimed(x, f) || Claimed(y, f)
    ensures FreedLast(x + y, f) <==> FreedLast(y, f) || (FreedLast(x, f) && !Claimed(y, f))
    decreases |x|
  {
    if x == [] {
      assert x + y == y;
    } else {
      assert (x + y)[1..] == x[1..] + y;
      ConcatActs(x[1..], y, f);
      ShiftActs(x + y, f);
      ShiftActs(x, f);
    }
  }

  /** The number of frames the bitmap covers. */
  function LimitOf(highest: nat): nat {
    var frames := highest / PAGE_SIZE;
    if frames == 0 then 1 else if frames > MAX_FRAMES then MAX_FRAMES else frames
  }

  /** Every usable frame the bitmap could cover is below the limit. */
  lemma CoveredBelowLimit(acts: seq<Action>, highest: nat, f: nat)
    requires Plain(acts) && Covered(acts, f) && f < MAX_FRAMES && forall i | 0 <= i < |acts| && acts[i].Free? ::
        EndOf(acts[i]) <= highest
    ensures f < LimitOf(highest)
  {
    var i :| FreesAt(acts, f, i);
    assert EndOf(acts[i]) == acts[i].base + acts[i].length;
    assert (f + 1) * PAGE_SIZE <= highest;
    assert f + 1 <= highest / PAGE_SIZE;
  }

  lemma {:induction false} ApplyBelow(free: set<nat>, acts: seq<Action>, limit: nat)
    requires forall f | f in free :: f < limit
    ensures forall f | f in Apply(free, acts, limit) :: f < limit
    decreases |acts|
  {
    if acts != [] { ApplyBelow(Act(free, acts[0], limit), acts[1..], limit); }
  }
}
