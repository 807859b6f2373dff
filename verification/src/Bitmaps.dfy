/** The frame bitmap as a sequence of 64-bit words, and the set of free frames it denotes. */
module Bitmaps {
  import opened Common
  import opened Words

  const PAGE_SIZE: nat := 4096
  const WORD_BITS: nat := 64
  const MAX_FRAMES: nat := 0x200_0000

  /** The words needed for `limit` frames. */
  ghost predicate Shaped(b: seq<Word>, limit: nat) {
    0 < limit <= MAX_FRAMES && |b| == (limit + 63) / 64
  }

  predicate UsedBit(b: seq<Word>, f: nat)
    requires f < 64 * |b|
  {
    Test(b[f / 64], f % 64)
  }

  /** Frame f is free exactly when its bit is clear; every bit past the last frame is set. */
  ghost predicate Agrees(b: seq<Word>, limit: nat, free: set<nat>, f: nat) {
    && (f < 64 * |b| ==> (f in free <==> !UsedBit(b, f)))
    && (f in free ==> f < limit)
  }

  /** The bitmap denotes the free set, and its padding bits are set, so no scan ever finds one clear. */
  ghost predicate Denotes(b: seq<Word>, limit: nat, free: set<nat>) {
    Shaped(b, limit) && forall f: nat :: Agrees(b, limit, free, f)
  }

  predicate InRun(f: nat, first: nat, count: nat) {
    first <= f < first + count
  }

  ghost function Frames(first: nat, count: nat): set<nat> {
    set f: nat | f < first + count && InRun(f, first, count)
  }

  lemma {:induction false} FramesSize(first: nat, count: nat)
    ensures |Frames(first, count)| == count
  {
    if count == 0 {
      assert Frames(first, count) == {};
    } else {
      FramesSize(first, count - 1);
      assert Frames(first, count) == Frames(first, count - 1) + {first + count - 1};
    }
  }

  /** set_frame takes exactly one frame. */
  lemma SetFrameBits(b: seq<Word>, limit: nat, free: set<nat>, f: nat)
    requires Denotes(b, limit, free) && f < limit
    ensures SetBit(b[f / 64], f % 64) <= UINT64_MAX
    ensures Denotes(b[f / 64 := SetBit(b[f / 64], f % 64)], limit, free - {f})
  {
    Pow2Of64();
    BitOpsBound(b[f / 64], f % 64, 64);
    var c: seq<Word> := b[f / 64 := SetBit(b[f / 64], f % 64)];
    forall g: nat ensures Agrees(c, limit, free - {f}, g) {
      assert Agrees(b, limit, free, g);
      if g / 64 == f / 64 { SetBitTests(b[f / 64], f % 64, g % 64); }
    }
  }

  /** clear_frame gives back exactly one frame. */
  lemma ClearFrameBits(b: seq<Word>, limit: nat, free: set<nat>, f: nat)
    requires Denotes(b, limit, free) && f < limit
    ensures ClearBit(b[f / 64], f % 64) <= UINT64_MAX
    ensures Denotes(b[f / 64 := ClearBit(b[f / 64], f % 64)], limit, free + {f})
  {
    Pow2Of64();
    BitOpsBound(b[f / 64], f % 64, 64);
    var c: seq<Word> := b[f / 64 := ClearBit(b[f / 64], f % 64)];
    forall g: nat ensures Agrees(c, limit, free + {f}, g) {
      assert Agrees(b, limit, free, g);
      if g / 64 == f / 64 { ClearBitTests(b[f / 64], f % 64, g % 64); }
    }
  }

  lemma SplitIndex(w: nat, k: nat)
    requires k < 64
    ensures (w * 64 + k) / 64 == w && (w * 64 + k) % 64 == k
  {
  }

  /** A full word has no free frame. */
  lemma FullWordUsed(b: seq<Word>, limit: nat, free: set<nat>, g: nat)
    requires Denotes(b, limit, free) && g in free
    ensures g / 64 < |b| && b[g / 64] != UINT64_MAX
  {
    assert Agrees(b, limit, free, g);
    Pow2Of64();
    OnesTest(64, g % 64);
  }

  /** No free frame of a word comes before the trailing-zero count of the complement. */
  lemma CtzIsLowest(b: seq<Word>, limit: nat, free: set<nat>, g: nat)
    requires Denotes(b, limit, free) && g in free
    ensures Pow2(64) == UINT64_MAX + 1
    ensures
      var w := g / 64;
      w < |b| && Complement(b[w], 64) != 0 && Ctz(Complement(b[w], 64)) <= g % 64
  {
    assert Agrees(b, limit, free, g);
    Pow2Of64();
    FullWordUsed(b, limit, free, g);
    ComplementTests(b[g / 64], 64, g % 64);
  }

  lemma CtzIsFree(b: seq<Word>, limit: nat, free: set<nat>, w: nat)
    requires Denotes(b, limit, free) && w < |b| && b[w] != UINT64_MAX
    ensures Pow2(64) == UINT64_MAX + 1
    ensures
      var m := Complement(b[w], 64);
      m != 0 && Ctz(m) < 64 && w * 64 + Ctz(m) in free
  {
    Pow2Of64();
    var m := Complement(b[w], 64);
    CtzBound(m, 64);
    ComplementTests(b[w], 64, Ctz(m));
    SplitIndex(w, Ctz(m));
    assert Agrees(b, limit, free, w * 64 + Ctz(m));
  }

  /** A word of the bitmap differs from UINT64_MAX exactly when one of its 64 frames is free,
      and the lowest free one is the trailing-zero count of the complement. */
  lemma WordScan(b: seq<Word>, limit: nat, free: set<nat>, w: nat)
    requires Denotes(b, limit, free) && w < |b|
    ensures Pow2(64) == UINT64_MAX + 1
    ensures b[w] == UINT64_MAX ==> forall g | g in free :: g / 64 != w
    ensures b[w] != UINT64_MAX ==>
      var m := Complement(b[w], 64);
      && m != 0
      && Ctz(m) < 64
      && w * 64 + Ctz(m) in free
      && forall g | g in free && g / 64 == w :: w * 64 + Ctz(m) <= g
  {
    Pow2Of64();
    if b[w] == UINT64_MAX {
      forall g | g in free ensures g / 64 != w { FullWordUsed(b, limit, free, g); }
    } else {
      CtzIsFree(b, limit, free, w);
      forall g | g in free && g / 64 == w ensures w * 64 + Ctz(Complement(b[w], 64)) <= g {
        CtzIsLowest(b, limit, free, g);
      }
    }
  }

  lemma {:induction false} SameBitsSameWord(v: nat, w: nat, n: nat)
    requires v < Pow2(n) && w < Pow2(n)
    requires forall k: nat | k < n :: Test(v, k) == Test(w, k)
    ensures v == w
  {
    if n > 0 {
      assert Test(v, 0) == Test(w, 0);
      forall k: nat | k < n - 1 ensures Test(v / 2, k) == Test(w / 2, k) {
        assert Test(v, k + 1) == Test(w, k + 1);
      }
      SameBitsSameWord(v / 2, w / 2, n - 1);
    }
  }

  /** The free set determines the bitmap word for word. */
  lemma FreeSetDetermines(b: seq<Word>, c: seq<Word>, limit: nat, free: set<nat>)
    requires Denotes(b, limit, free) && Denotes(c, limit, free)
    ensures b == c
  {
    Pow2Of64();
    forall w: nat | w < |b| ensures b[w] == c[w] {
      forall k: nat | k < 64 ensures Test(b[w], k) == Test(c[w], k) {
        var f := w * 64 + k;
        assert Agrees(b, limit, free, f) && Agrees(c, limit, free, f);
      }
      SameBitsSameWord(b[w], c[w], 64);
    }
  }

  /** A run of `count` free frames starting at `first`, all below the limit. */
  ghost predicate RunFree(free: set<nat>, limit: nat, first: nat, count: nat) {
    first + count <= limit && Frames(first, count) <= free
  }

  lemma WrapIndex(start: nat, p: nat, n: nat)
    requires start <= n && p < n
    ensures (start + p) % n == if start + p < n then start + p else start + p - n
  {
    if start + p >= n { ModOnce(start + p, n); } else { ModNone(start + p, n); }
  }

  lemma WrapUnique(start: nat, p: nat, g: nat, n: nat)
    requires start <= n && p < n && g < n
    ensures g != (start + p) % n ==> Distance(start, g, n) != p
    ensures g == (start + p) % n ==> Distance(start, g, n) == p
  {
    WrapIndex(start, p, n);
  }

  lemma ModNone(x: nat, n: nat)
    requires x < n
    ensures x % n == x
  {
  }

  lemma ModOnce(x: nat, n: nat)
    requires n <= x < 2 * n
    ensures x % n == x - n
  {
    assert x == n * 1 + (x - n);
    assert x / n == 1;
  }
}
