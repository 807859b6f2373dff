/** The ARP cache: slots replaced oldest first, which is a memory of the most recent addresses. */
module Arp {
  import opened Common
  import opened ArpHistory

  const NEVER: nat := 0xFFFF_FFFF_FFFF_FFFF

  datatype Entry = Entry(used: bool, ip: nat, mac: nat, age: nat)

  ghost predicate Holds(e: Entry, x: Add) {
    e.used && e.ip == x.ip && e.mac == x.mac
  }

  /** order lists the used slots from the youngest to the oldest; they hold the front of the list l. */
  ghost predicate Ranked(cache: seq<Entry>, tick: nat, l: seq<Add>, order: seq<nat>) {
    && |cache| > 0 && Distinct(l)
    && |order| == Min(|l|, |cache|)
    && (forall k: nat :: RankAt(cache, tick, l, order, k))
    && (forall j: nat, k: nat :: Younger(cache, order, j, k))
    && (forall i: nat :: IsRanked(cache, order, i))
  }

  /** The k-th ranked slot holds the k-th entry of the list. */
  ghost predicate RankAt(cache: seq<Entry>, tick: nat, l: seq<Add>, order: seq<nat>, k: nat) {
    k < |order| && k < |l| ==> order[k] < |cache| && Holds(cache[order[k]], l[k]) && cache[order[k]].age <= tick
  }

  ghost predicate Younger(cache: seq<Entry>, order: seq<nat>, j: nat, k: nat) {
    j < k < |order| && order[j] < |cache| && order[k] < |cache| ==> cache[order[j]].age > cache[order[k]].age
  }

  /** A used slot has a rank. */
  ghost predicate IsRanked(cache: seq<Entry>, order: seq<nat>, i: nat) {
    i < |cache| && cache[i].used ==> i in order
  }

  predicate Below(i: nat, n: nat) {
    i < n
  }

  ghost function UpTo(n: nat): set<nat> {
    set i: nat | i < n && Below(i, n)
  }

  lemma {:induction false} UpToSize(n: nat)
    ensures |UpTo(n)| == n
  {
    if n == 0 {
      assert UpTo(0) == {};
    } else {
      UpToSize(n - 1);
      assert UpTo(n) == UpTo(n - 1) + {n - 1};
    }
  }

  /** The cache is full exactly when every slot is ranked. */
  lemma RankedCount(cache: seq<Entry>, tick: nat, l: seq<Add>, order: seq<nat>)
    requires Ranked(cache, tick, l, order)
    ensures |order| == |cache| <==> forall i | 0 <= i < |cache| :: cache[i].used
  {
    var n := |cache|;
    forall j, k | 0 <= j < k < |order| ensures order[j] != order[k] {
      assert RankAt(cache, tick, l, order, j) && RankAt(cache, tick, l, order, k) && Younger(cache, order, j, k);
    }
    ElementsSize(order);
    UpToSize(n);
    forall x | x in Elements(order) ensures x < n && cache[x].used {
      var k: nat :| k < |order| && order[k] == x;
      assert RankAt(cache, tick, l, order, k);
    }
    if forall i | 0 <= i < n :: cache[i].used {
      forall i: nat | i < n ensures i in Elements(order) { assert IsRanked(cache, order, i); }
      SubsetSize(UpTo(n), Elements(order));
    } else {
      var i: nat :| i < n && !cache[i].used;
      assert i !in Elements(order);
      assert Elements(order) <= UpTo(n) - {i};
      SubsetSize(Elements(order), UpTo(n) - {i});
    }
  }

  /** The slot that arp_cache_add writes for a new address: the first unused one, else one of least age. */
  ghost predicate Victim(cache: seq<Entry>, slot: nat) {
    && slot < |cache|
    && if cache[slot].used then forall i | 0 <= i < |cache| :: cache[i].used && cache[slot].age <= cache[i].age
       else forall i | 0 <= i < slot :: cache[i].used
  }

  /** The rank an entry had before it became the m-th behind a new front, when rank k was taken out. */
  function OldRank(m: nat, k: nat): nat
    requires m > 0
  {
    if m <= k then m - 1 else m
  }

  /** Behind the new front, order' and l' keep what order and l had at the old rank. */
  ghost predicate Shifted(order: seq<nat>, order': seq<nat>, l: seq<Add>, l': seq<Add>, slot: nat, k: nat, m: nat) {
    0 < m < |order'| ==>
      && OldRank(m, k) < |order| && OldRank(m, k) < |l| && m < |l'|
      && order'[m] == order[OldRank(m, k)] != slot && l'[m] == l[OldRank(m, k)]
  }

  /** Putting x in front, at a slot that had rank k or none. */
  lemma PushRanked(cache: seq<Entry>, tick: nat, l: seq<Add>, order: seq<nat>, slot: nat, x: Add,
                   l': seq<Add>, order': seq<nat>, k: nat)
    requires Ranked(cache, tick, l, order) && slot < |cache| && Distinct(l')
    requires |order'| == Min(|l'|, |cache|) > 0 && order'[0] == slot && l'[0] == x
    requires forall m: nat :: Shifted(order, order', l, l', slot, k, m)
    requires Elements(order) - {slot} <= Elements(order')
    ensures Ranked(cache[slot := Entry(true, x.ip, x.mac, tick + 1)], tick + 1, l', order')
  {
    var now := tick + 1;
    var cache' := cache[slot := Entry(true, x.ip, x.mac, now)];
    forall m: nat ensures RankAt(cache', now, l', order', m) {
      assert Shifted(order, order', l, l', slot, k, m);
      if 0 < m < |order'| { assert RankAt(cache, tick, l, order, OldRank(m, k)); }
    }
    forall j: nat, m: nat ensures Younger(cache', order', j, m) {
      assert Shifted(order, order', l, l', slot, k, m) && Shifted(order, order', l, l', slot, k, j);
      if j < m < |order'| {
        assert RankAt(cache, tick, l, order, OldRank(m, k));
        if j > 0 {
          assert Younger(cache, order, OldRank(j, k), OldRank(m, k));
          assert RankAt(cache, tick, l, order, OldRank(j, k));
        }
      }
    }
    forall i: nat ensures IsRanked(cache', order', i) {
      assert IsRanked(cache, order, i);
      assert i in Elements(order) && i != slot ==> i in Elements(order');
      assert slot in order';
    }
  }

  function MovedFirst<T>(s: seq<T>, x: T, k: nat): seq<T>
    requires k <= |s|
  {
    [x] + s[..k] + if k < |s| then s[k + 1..] else []
  }

  lemma MovedFirstAt<T>(s: seq<T>, x: T, k: nat, m: nat)
    requires k <= |s| && 0 < m < |MovedFirst(s, x, k)|
    ensures OldRank(m, k) < |s| && MovedFirst(s, x, k)[m] == s[OldRank(m, k)]
  {
  }

  lemma MovedFirstElements(s: seq<nat>, x: nat, k: nat)
    requires k <= |s|
    requires k < |s| ==> s[k] == x
    ensures Elements(s) - {x} <= Elements(MovedFirst(s, x, k))
  {
    forall y | y in Elements(s) - {x} ensures y in Elements(MovedFirst(s, x, k)) {
      var j :| 0 <= j < |s| && s[j] == y;
      assert MovedFirst(s, x, k)[if j < k then j + 1 else j] == y;
    }
  }

  lemma RanksDiffer(cache: seq<Entry>, tick: nat, l: seq<Add>, order: seq<nat>, j: nat, k: nat)
    requires Ranked(cache, tick, l, order) && j < |order| && k < |order| && j != k
    ensures order[j] != order[k]
  {
    assert RankAt(cache, tick, l, order, j) && RankAt(cache, tick, l, order, k);
    assert Younger(cache, order, j, k) && Younger(cache, order, k, j);
  }

  lemma RefreshShifts(cache: seq<Entry>, tick: nat, l: seq<Add>, order: seq<nat>, k: nat, x: Add, m: nat)
    requires Ranked(cache, tick, l, order) && k < |order| <= |l|
    ensures Shifted(order, MovedFirst(order, order[k], k), l, MovedFirst(l, x, k), order[k], k, m)
  {
    if 0 < m < |MovedFirst(order, order[k], k)| {
      MovedFirstAt(order, order[k], k, m);
      MovedFirstAt(l, x, k, m);
      RanksDiffer(cache, tick, l, order, OldRank(m, k), k);
    }
  }

  lemma RefreshCore(cache: seq<Entry>, tick: nat, l: seq<Add>, order: seq<nat>, k: nat, x: Add)
    requires Ranked(cache, tick, l, order) && k < |order| && order[k] < |cache| && Distinct(MovedFirst(l, x, k))
    ensures Ranked(cache[order[k] := Entry(true, x.ip, x.mac, tick + 1)], tick + 1,
                   MovedFirst(l, x, k), MovedFirst(order, order[k], k))
  {
    var l', order' := MovedFirst(l, x, k), MovedFirst(order, order[k], k);
    forall m: nat
        ensures Shifted(order, order', l, l', order[k], k, m) { RefreshShifts(cache, tick, l, order, k, x, m); }
    MovedFirstElements(order, order[k], k);
    PushRanked(cache, tick, l, order, order[k], x, l', order', k);
  }

  lemma FrontIsMoved(l: seq<Add>, x: Add, k: nat)
    requires Distinct(l) && k < |l| && l[k].ip == x.ip
    ensures [x] + Without(l, IndexOf(l, x.ip)) == MovedFirst(l, x, k) && Distinct(MovedFirst(l, x, k))
  {
    DistinctIndex(l, k);
    MoveToFront(l, x);
    FrontIs(l, x, k, IndexOf(l, x.ip));
  }

  lemma FrontIs(l: seq<Add>, x: Add, k: nat, j: nat)
    requires k == j < |l|
    ensures [x] + Without(l, j) == MovedFirst(l, x, k)
  {
    JoinsSame([x], l[..k], l[k + 1..]);
  }

  /** Refreshing the k-th ranked slot moves it to the front. */
  lemma RefreshRanked(cache: seq<Entry>, tick: nat, l: seq<Add>, order: seq<nat>, k: nat, x: Add)
    requires Ranked(cache, tick, l, order) && k < |order| && l[k].ip == x.ip
    ensures order[k] < |cache|
    ensures Ranked(cache[order[k] := Entry(true, x.ip, x.mac, tick + 1)], tick + 1,
                   [x] + Without(l, IndexOf(l, x.ip)), MovedFirst(order, order[k], k))
  {
    FrontIsMoved(l, x, k);
    assert RankAt(cache, tick, l, order, k);
    RefreshCore(cache, tick, l, order, k, x);
  }

  /** Writing a new address to an unused slot ranks it first. */
  lemma InsertFree(cache: seq<Entry>, tick: nat, l: seq<Add>, order: seq<nat>, slot: nat, x: Add)
    requires Ranked(cache, tick, l, order) && slot < |cache| && !cache[slot].used
    requires forall i | 0 <= i < |cache| && cache[i].used :: cache[i].ip != x.ip
    ensures Ranked(cache[slot := Entry(true, x.ip, x.mac, tick + 1)], tick + 1,
                   [x] + Without(l, IndexOf(l, x.ip)), MovedFirst(order, slot, |order|))
  {
    RankedCount(cache, tick, l, order);
    MoveToFront(l, x);
    NotInFront(cache, tick, l, order, x);
    var n := |order|;
    var l', order' := [x] + Without(l, IndexOf(l, x.ip)), MovedFirst(order, slot, n);
    forall m: nat ensures Shifted(order, order', l, l', slot, n, m) {
      if 0 < m < |order'| {
        MovedFirstAt(order, slot, n, m);
        assert RankAt(cache, tick, l, order, m - 1);
      }
    }
    MovedFirstElements(order, slot, n);
    PushRanked(cache, tick, l, order, slot, x, l', order', n);
  }

  /** Writing a new address to a full cache ranks it first and drops the oldest. */
  lemma InsertFull(cache: seq<Entry>, tick: nat, l: seq<Add>, order: seq<nat>, slot: nat, x: Add)
    requires Ranked(cache, tick, l, order) && Victim(cache, slot) && cache[slot].used
    requires forall i | 0 <= i < |cache| && cache[i].used :: cache[i].ip != x.ip
    ensures |order| > 0
    ensures Ranked(cache[slot := Entry(true, x.ip, x.mac, tick + 1)], tick + 1,
                   [x] + Without(l, IndexOf(l, x.ip)), MovedFirst(order, slot, |order| - 1))
  {
    RankedCount(cache, tick, l, order);
    MoveToFront(l, x);
    NotInFront(cache, tick, l, order, x);
    VictimIsLast(cache, tick, l, order, slot);
    var n := |order| - 1;
    var r := IndexOf(l, x.ip);
    var l', order' := [x] + Without(l, r), MovedFirst(order, slot, n);
    forall m: nat ensures Shifted(order, order', l, l', slot, n, m) {
      if 0 < m < |order'| {
        MovedFirstAt(order, slot, n, m);
        RanksDiffer(cache, tick, l, order, m - 1, n);
      }
    }
    MovedFirstElements(order, slot, n);
    PushRanked(cache, tick, l, order, slot, x, l', order', n);
  }

  lemma NotInFront(cache: seq<Entry>, tick: nat, l: seq<Add>, order: seq<nat>, x: Add)
    requires Ranked(cache, tick, l, order)
    requires forall i | 0 <= i < |cache| && cache[i].used :: cache[i].ip != x.ip
    ensures |order| <= IndexOf(l, x.ip)
  {
    assert RankAt(cache, tick, l, order, IndexOf(l, x.ip));
  }

  /** In a full cache the slot of least age is the last in rank. */
  lemma VictimIsLast(cache: seq<Entry>, tick: nat, l: seq<Add>, order: seq<nat>, slot: nat)
    requires Ranked(cache, tick, l, order) && Victim(cache, slot) && cache[slot].used
    ensures |order| > 0 && slot == order[|order| - 1]
  {
    assert IsRanked(cache, order, slot);
    var m: nat :| m < |order| && order[m] == slot;
    var n: nat := |order| - 1;
    assert RankAt(cache, tick, l, order, n) && RankAt(cache, tick, l, order, m) && Younger(cache, order, m, n);
  }

  /** A lookup hits exactly when the address is remembered, and gives the hardware address last added. */
  lemma LookupMeaning(cache: seq<Entry>, tick: nat, h: seq<Add>, order: seq<nat>, i: nat, ip: nat)
    requires Ranked(cache, tick, Recents(h), order) && i <= |cache|
    requires i < |cache| ==> cache[i].used && cache[i].ip == ip
    requires i == |cache| ==> forall j | 0 <= j < |cache| :: !(cache[j].used && cache[j].ip == ip)
    ensures i < |cache| <==> Remembered(h, ip, |cache|)
    ensures i < |cache| ==> Added(h, ip) && cache[i].mac == LastMac(h, ip)
  {
    var l := Recents(h);
    RememberedIffInFront(h, ip, |cache|);
    if i < |cache| {
      SlotHolds(cache, tick, l, order, i);
    } else {
      NoSlotHolds(cache, tick, l, order, ip, IndexOf(l, ip));
    }
  }

  lemma SlotHolds(cache: seq<Entry>, tick: nat, l: seq<Add>, order: seq<nat>, i: nat)
    requires Ranked(cache, tick, l, order) && i < |cache| && cache[i].used
    ensures
      var k := IndexOf(l, cache[i].ip);
      k < |l| && k < |cache| && l[k].mac == cache[i].mac
  {
    assert IsRanked(cache, order, i);
    var m: nat :| m < |order| && order[m] == i;
    assert RankAt(cache, tick, l, order, m);
    DistinctIndex(l, m);
  }

  lemma NoSlotHolds(cache: seq<Entry>, tick: nat, l: seq<Add>, order: seq<nat>, ip: nat, k: nat)
    requires Ranked(cache, tick, l, order) && (k < |l| ==> l[k].ip == ip)
    requires forall j | 0 <= j < |cache| :: !(cache[j].used && cache[j].ip == ip)
    ensures k >= |l| || k >= |cache|
  {
    assert RankAt(cache, tick, l, order, k);
  }

  lemma AgeBound(cache: seq<Entry>, tick: nat, l: seq<Add>, order: seq<nat>, i: nat)
    requires Ranked(cache, tick, l, order) && i < |cache|
    ensures cache[i].used ==> i in order && cache[i].age <= tick
  {
    assert IsRanked(cache, order, i);
    if cache[i].used {
      var k: nat :| k < |order| && order[k] == i;
      assert RankAt(cache, tick, l, order, k);
    }
  }

  /** What Scan found: the slot of the address, or the slot to replace. */
  ghost predicate Found(cache: seq<Entry>, order: seq<nat>, ip: nat, hit: bool, slot: nat) {
    if hit then slot < |cache| && cache[slot].used && cache[slot].ip == ip && slot in order
    else Victim(cache, slot) && forall i | 0 <= i < |cache| && cache[i].used :: cache[i].ip != ip
  }

  /** One add keeps the cache the front of the list of recent addresses. */
  lemma AddStep(cache: seq<Entry>, tick: nat, tick': nat, h: seq<Add>, h': seq<Add>, order: seq<nat>,
                hit: bool, slot: nat, x: Add)
    returns (order': seq<nat>)
    requires Ranked(cache, tick, Recents(h), order) && Found(cache, order, x.ip, hit, slot)
    requires tick' == tick + 1 && h' == h + [x]
    ensures slot < |cache|
    ensures Ranked(cache[slot := Entry(true, x.ip, x.mac, tick')], tick', Recents(h'), order')
  {
    var l := Recents(h);
    RecentsOneMore(h, x);
    if hit {
      var k: nat :| k < |order| && order[k] == slot;
      assert RankAt(cache, tick, l, order, k);
      RefreshRanked(cache, tick, l, order, k, x);
      order' := MovedFirst(order, slot, k);
    } else if cache[slot].used {
      InsertFull(cache, tick, l, order, slot, x);
      order' := MovedFirst(order, slot, |order| - 1);
    } else {
      InsertFree(cache, tick, l, order, slot, x);
      order' := MovedFirst(order, slot, |order|);
    }
  }

  class ArpCache {
    const cache: array<Entry>
    var tick: nat
    ghost var history: seq<Add>
    ghost var order: seq<nat>

    constructor (n: nat)
      requires n > 0
      ensures Valid() && cache.Length == n && history == [] && fresh(cache)
    {
      cache := new Entry[n](_ => Entry(false, 0, 0, 0));
      tick, history, order := 0, [], [];
    }

    ghost predicate Valid()
      reads this, cache
    {
      tick == |history| && Ranked(cache[..], tick, Recents(history), order)
    }

    /** arp_cache_add. Ages are 64-bit, so fewer than 2^64 - 1 addresses may ever be added. */
    method AddAddress(ip: nat, mac: nat)
      requires Valid() && |history| + 1 < NEVER
      modifies this`tick, this`history, this`order, cache
      ensures Valid() && history == old(history) + [Add(ip, mac)]
    {
      var hit, slot := Scan(ip);
      var x, tick' := Add(ip, mac), tick + 1;
      ghost var h' := history + [x];
      ghost var order' := AddStep(cache[..], tick, tick', history, h', order, hit, slot, x);
      Store(slot, x, tick', h', order');
    }

    /** The writes of arp_cache_add. */
    method Store(slot: nat, x: Add, tick': nat, ghost history': seq<Add>, ghost order': seq<nat>)
      requires slot < cache.Length && |history'| == tick' == tick + 1
      requires Ranked(cache[..][slot := Entry(true, x.ip, x.mac, tick')], tick', Recents(history'), order')
      modifies this`tick, this`history, this`order, cache
      ensures Valid() && history == history'
    {
      ghost var was := cache[..];
      tick := tick';
      cache[slot] := Entry(true, x.ip, x.mac, tick);
      assert cache[..] == was[slot := Entry(true, x.ip, x.mac, tick)];
      history, order := history', order';
    }

    /** The loop of arp_cache_add: the slot of the address if it is there, else the slot to replace. */
    method Scan(ip: nat) returns (hit: bool, slot: nat)
      requires Valid() && |history| + 1 < NEVER
      ensures Found(cache[..], order, ip, hit, slot)
    {
      var free: int := -1;
      var oldest: nat := NEVER;
      var oldestIdx: nat := 0;
      var i: nat := 0;
      while i < cache.Length
        invariant i <= cache.Length && -1 <= free < i
        invariant forall j | 0 <= j < i && cache[j].used :: cache[j].ip != ip && oldest <= cache[j].age
        invariant free >= 0 ==> !cache[free].used && forall j | 0 <= j < free :: cache[j].used
        invariant free < 0 ==> forall j | 0 <= j < i :: cache[j].used
        invariant oldest == NEVER || (oldestIdx < i && cache[oldestIdx].used && cache[oldestIdx].age == oldest)
        invariant oldest == NEVER ==> forall j | 0 <= j < i :: !cache[j].used
        invariant free < 0 && i > 0 ==> oldest != NEVER
      {
        AgeBound(cache[..], tick, Recents(history), order, i);
        if cache[i].used && cache[i].ip == ip {
          return true, i;
        }
        if !cache[i].used && free < 0 {
          free := i;
        }
        if cache[i].used && cache[i].age < oldest {
          oldest, oldestIdx := cache[i].age, i;
        }
        i := i + 1;
      }
      return false, if free < 0 then oldestIdx else free;
    }

    /** arp_cache_lookup. */
    method Lookup(ip: nat) returns (found: bool, mac: nat)
      requires Valid()
      ensures found <==> Remembered(history, ip, cache.Length)
      ensures found ==> Added(history, ip) && mac == LastMac(history, ip)
    {
      var i: nat := 0;
      while i < cache.Length
        invariant i <= cache.Length
        invariant forall j | 0 <= j < i :: !(cache[j].used && cache[j].ip == ip)
      {
        if cache[i].used && cache[i].ip == ip {
          LookupMeaning(cache[..], tick, history, order, i, ip);
          return true, cache[i].mac;
        }
        i := i + 1;
      }
      LookupMeaning(cache[..], tick, history, order, i, ip);
      return false, 0;
    }
  }
}
