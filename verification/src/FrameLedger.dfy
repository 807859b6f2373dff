/** Whole runs of allocations and releases by clients that free only what they own. */
module FrameLedger {
  import opened Words
  import opened Bitmaps
  import opened Pmm

  datatype Run = Run(first: nat, count: nat)

  /** The allocator's free set beside the runs its clients hold. */
  datatype Ledger = Ledger(free: set<nat>, live: seq<Run>)

  ghost function Held(r: Run): set<nat> {
    Frames(r.first, r.count)
  }

  ghost function AllHeld(live: seq<Run>): set<nat> {
    if live == [] then {} else AllHeld(live[..|live| - 1]) + Held(live[|live| - 1])
  }

  ghost predicate NoOverlap(live: seq<Run>) {
    forall i, j | 0 <= i < j < |live| :: Held(live[i]) !! Held(live[j])
  }

  /** No two live runs overlap, none is free, frame 0 is neither, and every frame is accounted for. */
  ghost predicate Sound(l: Ledger, all: set<nat>) {
    && NoOverlap(l.live)
    && l.free !! AllHeld(l.live)
    && l.free + AllHeld(l.live) == all
  }

  /** A successful pmm_alloc_pages, as its contract states it. */
  ghost predicate Allocates(l: Ledger, l': Ledger, limit: nat, r: Run) {
    && r.count > 0
    && RunFree(l.free, limit, r.first, r.count)
    && l'.free == l.free - Held(r)
    && l'.live == l.live + [r]
  }

  /** A client frees the run it holds at position k, one pmm_free_page per page. */
  ghost predicate Releases(l: Ledger, l': Ledger, limit: nat, k: nat) {
    && k < |l.live|
    && l'.free == AfterFreeRun(l.free, limit, l.live[k].first, l.live[k].count)
    && l'.live == l.live[..k] + l.live[k + 1..]
  }

  ghost predicate Step(l: Ledger, l': Ledger, limit: nat) {
    || l' == l
    || (exists r :: Allocates(l, l', limit, r))
    || (exists k: nat :: Releases(l, l', limit, k))
  }

  lemma {:induction false} FreeRunIsUnion(free: set<nat>, limit: nat, first: nat, count: nat)
    requires 0 < first && first + count <= limit
    ensures AfterFreeRun(free, limit, first, count) == free + Frames(first, count)
  {
    if count == 0 {
      assert Frames(first, 0) == {};
    } else {
      FreeRunIsUnion(free, limit, first, count - 1);
      assert Frames(first, count) == Frames(first, count - 1) + {first + count - 1};
    }
  }

  /** Allocating a run and freeing it page by page gives back the same bitmap, word for word. */
  lemma FreeingRestoresBitmap(before: seq<Word>, after: seq<Word>, limit: nat, free: set<nat>, r: Run)
    requires Denotes(before, limit, free) && 0 !in free
    requires r.count > 0 && RunFree(free, limit, r.first, r.count)
    requires Denotes(after, limit, AfterFreeRun(free - Held(r), limit, r.first, r.count))
    ensures after == before
  {
    assert InRun(r.first, r.first, r.count);
    FreeRunIsUnion(free - Held(r), limit, r.first, r.count);
    assert free - Held(r) + Held(r) == free;
    FreeSetDetermines(before, after, limit, free);
  }

  lemma {:induction false} HeldMember(live: seq<Run>, k: nat)
    requires k < |live|
    ensures Held(live[k]) <= AllHeld(live)
  {
    if k < |live| - 1 { HeldMember(live[..|live| - 1], k); }
  }

  lemma {:induction false} HeldWitness(live: seq<Run>, f: nat) returns (k: nat)
    requires f in AllHeld(live)
    ensures k < |live| && f in Held(live[k])
  {
    if f in Held(live[|live| - 1]) {
      k := |live| - 1;
    } else {
      k := HeldWitness(live[..|live| - 1], f);
    }
  }

  lemma RemoveRun(live: seq<Run>, k: nat)
    requires k < |live| && NoOverlap(live)
    ensures NoOverlap(live[..k] + live[k + 1..])
    ensures AllHeld(live[..k] + live[k + 1..]) == AllHeld(live) - Held(live[k])
  {
    var rest := live[..k] + live[k + 1..];
    forall i, j | 0 <= i < j < |rest| ensures Held(rest[i]) !! Held(rest[j]) {
      RestAt(live, k, i);
      RestAt(live, k, j);
    }
    forall f: nat ensures f in AllHeld(rest) <==> f in AllHeld(live) - Held(live[k]) {
      if f in AllHeld(rest) { HeldByRest(live, k, f); }
      if f in AllHeld(live) - Held(live[k]) { HeldByOther(live, k, f); }
    }
  }

  function OldIndex(k: nat, i: nat): nat {
    if i < k then i else i + 1
  }

  lemma RestAt(live: seq<Run>, k: nat, i: nat)
    requires k < |live| && i < |live| - 1
    ensures (live[..k] + live[k + 1..])[i] == live[OldIndex(k, i)]
  {
  }

  lemma HeldByRest(live: seq<Run>, k: nat, f: nat)
    requires k < |live| && NoOverlap(live) && f in AllHeld(live[..k] + live[k + 1..])
    ensures f in AllHeld(live) - Held(live[k])
  {
    var i := HeldWitness(live[..k] + live[k + 1..], f);
    RestAt(live, k, i);
    HeldMember(live, OldIndex(k, i));
    assert i < k ==> Held(live[i]) !! Held(live[k]);
    assert i >= k ==> Held(live[k]) !! Held(live[i + 1]);
  }

  lemma HeldByOther(live: seq<Run>, k: nat, f: nat)
    requires k < |live| && f in AllHeld(live) - Held(live[k])
    ensures f in AllHeld(live[..k] + live[k + 1..])
  {
    var i := HeldWitness(live, f);
    var j := if i < k then i else i - 1;
    RestAt(live, k, j);
    HeldMember(live[..k] + live[k + 1..], j);
  }

  lemma StepKeepsSound(l: Ledger, l': Ledger, limit: nat, all: set<nat>)
    requires Sound(l, all) && Step(l, l', limit)
    requires forall f | f in all :: 0 < f < limit
    ensures Sound(l', all)
  {
    if r :| Allocates(l, l', limit, r) {
      AllocKeepsSound(l, l', limit, all, r);
    } else if k: nat :| Releases(l, l', limit, k) {
      ReleaseKeepsSound(l, l', limit, all, k);
    }
  }

  lemma AllocKeepsSound(l: Ledger, l': Ledger, limit: nat, all: set<nat>, r: Run)
    requires Sound(l, all) && Allocates(l, l', limit, r)
    ensures Sound(l', all)
  {
    assert l'.live[..|l'.live| - 1] == l.live;
    forall i | 0 <= i < |l.live| ensures Held(l.live[i]) !! Held(r) { HeldMember(l.live, i); }
  }

  lemma ReleaseKeepsSound(l: Ledger, l': Ledger, limit: nat, all: set<nat>, k: nat)
    requires Sound(l, all) && Releases(l, l', limit, k)
    requires forall f | f in all :: 0 < f < limit
    ensures Sound(l', all)
  {
    var r := l.live[k];
    HeldMember(l.live, k);
    RemoveRun(l.live, k);
    if r.count > 0 {
      assert InRun(r.first, r.first, r.count) && r.first in all;
      assert InRun(r.first + r.count - 1, r.first, r.count) && r.first + r.count - 1 in all;
      FreeRunIsUnion(l.free, limit, r.first, r.count);
    } else {
      assert Held(r) == {};
    }
  }

  /** Over every run of allocations and releases, live runs never overlap each other or the free set,
      frame 0 is never handed out, and no frame is lost or invented. */
  lemma {:induction false} RunsStaySound(run: seq<Ledger>, limit: nat, all: set<nat>)
    requires |run| > 0 && run[0] == Ledger(all, [])
    requires forall f | f in all :: 0 < f < limit
    requires forall i | 0 <= i < |run| - 1 :: Step(run[i], run[i + 1], limit)
    ensures forall i | 0 <= i < |run| :: Sound(run[i], all)
  {
    if |run| > 1 {
      var n := |run| - 1;
      RunsStaySound(run[..n], limit, all);
      assert Sound(run[..n][n - 1], all);
      assert Step(run[n - 1], run[n - 1 + 1], limit);
      StepKeepsSound(run[n - 1], run[n], limit, all);
    }
  }
}
