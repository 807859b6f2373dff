/** tmpfs: a pool of nodes linked into sibling lists, with growable data buffers. */
module Tmpfs {
  import opened Common
  import opened Words

  datatype Kind = File | Dir

  /** A node; parent, children and next are pool indices or -1. data is the whole buffer, of length
      capacity; only its first size bytes belong to the file. */
  datatype Node = Node(kind: Kind, name: string, parent: int, children: int, next: int,
                       data: seq<nat>, size: nat)

  predicate IsChild(nodes: seq<Node>, d: int, i: int) {
    0 < i < |nodes| && nodes[i].parent == d
  }

  /** The latest child of d among the first n nodes, or -1. */
  function LastChild(nodes: seq<Node>, d: int, n: nat): (r: int)
    requires n <= |nodes|
    ensures -1 <= r < n && (r >= 0 ==> IsChild(nodes, d, r))
    ensures forall i | r < i < n :: !IsChild(nodes, d, i)
  {
    if n == 0 then -1 else if IsChild(nodes, d, n - 1) then n - 1 else LastChild(nodes, d, n - 1)
  }

  ghost predicate NodeOk(nodes: seq<Node>, i: int) {
    0 <= i < |nodes| ==>
      && nodes[i].size <= |nodes[i].data|
      && nodes[i].children == LastChild(nodes, i, |nodes|)
      && (i == 0 ==> nodes[i].kind == Dir && nodes[i].parent == -1)
      && (i > 0 ==> 0 <= nodes[i].parent < i && nodes[nodes[i].parent].kind == Dir)
      && (i > 0 ==> nodes[i].next == LastChild(nodes, nodes[i].parent, i))
  }

  ghost predicate NamesDiffer(nodes: seq<Node>, i: int, j: int) {
    0 < i < j < |nodes| && nodes[i].parent == nodes[j].parent ==> nodes[i].name != nodes[j].name
  }

  /** A tree rooted at node 0 with distinct sibling names; sibling lists run from the newest child to
      the oldest. Nodes are never given back, so the used part of the pool is a prefix of it. */
  ghost predicate TreeOk(nodes: seq<Node>) {
    && |nodes| > 0
    && (forall i :: NodeOk(nodes, i))
    && (forall i, j :: NamesDiffer(nodes, i, j))
  }

  /** tmpfs_lookup from a sibling on. */
  function LookupFrom(nodes: seq<Node>, cur: int, name: string): int
    requires -1 <= cur < |nodes|
    decreases cur + 1
  {
    if cur < 0 then -1
    else if nodes[cur].name == name then cur
    else if -1 <= nodes[cur].next < cur then LookupFrom(nodes, nodes[cur].next, name)
    else -1
  }

  /** tmpfs_lookup. */
  function Lookup(nodes: seq<Node>, d: nat, name: string): (r: int)
    requires d < |nodes|
  {
    if nodes[d].kind != Dir || !(-1 <= nodes[d].children < |nodes|) then -1
        else LookupFrom(nodes, nodes[d].children, name)
  }

  ghost predicate IsNamed(nodes: seq<Node>, d: int, name: string, i: int) {
    IsChild(nodes, d, i) && nodes[i].name == name
  }

  lemma {:induction false} LookupFromFinds(nodes: seq<Node>, d: int, n: nat, name: string)
    requires TreeOk(nodes) && n <= |nodes|
    ensures
      var r := LookupFrom(nodes, LastChild(nodes, d, n), name);
      && -1 <= r < n
      && (r >= 0 ==> IsNamed(nodes, d, name, r))
      && (r < 0 ==> forall i | 0 <= i < n :: !IsNamed(nodes, d, name, i))
  {
    var c := LastChild(nodes, d, n);
    if c >= 0 {
      assert NodeOk(nodes, c);
      if nodes[c].name != name { LookupFromFinds(nodes, d, c, name); }
    }
  }

  /** A lookup finds the child of that name, which is the only one, or there is none. */
  lemma LookupFinds(nodes: seq<Node>, d: nat, name: string, i: int)
    requires TreeOk(nodes) && d < |nodes|
    ensures -1 <= Lookup(nodes, d, name) < |nodes|
    ensures i >= 0 ==> (Lookup(nodes, d, name) == i <==> IsNamed(nodes, d, name, i))
  {
    assert NodeOk(nodes, d) && NodeOk(nodes, i);
    LookupFromFinds(nodes, d, |nodes|, name);
    var r := Lookup(nodes, d, name);
    assert NamesDiffer(nodes, r, i) && NamesDiffer(nodes, i, r);
  }

  /** The components that lead from the root to a node. */
  function PathOf(nodes: seq<Node>, i: int): seq<string>
    decreases i
  {
    if 0 < i < |nodes| && 0 <= nodes[i].parent < i then PathOf(nodes, nodes[i].parent) + [nodes[i].name] else []
  }

  /** resolve_path's loop from a node on. */
  function Resolve(nodes: seq<Node>, cur: nat, parts: seq<string>): (r: int)
    requires cur < |nodes|
    ensures -1 <= r
  {
    if parts == [] then cur
    else
      var up := Resolve(nodes, cur, parts[..|parts| - 1]);
      if up < 0 || up >= |nodes| then -1
      else
        var c := Lookup(nodes, up, parts[|parts| - 1]);
        if c < 0 then -1 else c
  }

  /** Resolving finds a node exactly when the components lead to it; paths are unique. */
  lemma {:induction false} ResolveIff(nodes: seq<Node>, parts: seq<string>, i: int)
    requires TreeOk(nodes)
    ensures Resolve(nodes, 0, parts) < |nodes|
    ensures 0 <= i < |nodes| ==> (Resolve(nodes, 0, parts) == i <==> PathOf(nodes, i) == parts)
    decreases |parts|
  {
    assert NodeOk(nodes, i);
    if parts != [] {
      var n := |parts| - 1;
      var front, last := parts[..n], parts[n];
      var up := Resolve(nodes, 0, front);
      ResolveIff(nodes, front, up);
      if up >= 0 {
        LookupFinds(nodes, up, last, i);
      }
      if 0 < i < |nodes| {
        var p := nodes[i].parent;
        ResolveIff(nodes, front, p);
        assert PathOf(nodes, i) == PathOf(nodes, p) + [nodes[i].name];
        if PathOf(nodes, i) == parts {
          assert front == PathOf(nodes, p) && last == nodes[i].name;
        }
        assert front + [last] == parts;
      }
    }
  }

  /** The file's bytes. */
  function Content(n: Node): seq<nat>
    requires n.size <= |n.data|
  {
    n.data[..n.size]
  }

  /** tmpfs_read. */
  function ReadAt(n: Node, offset: nat, len: nat): seq<nat>
    requires n.size <= |n.data|
  {
    if offset >= n.size then [] else n.data[offset..offset + (if len < n.size - offset then len else n.size - offset)]
  }

  /** 64 doubled k times. */
  function Capacity(k: nat): nat {
    64 * Pow2(k)
  }

  /** A buffer's capacity: 0, or 64 doubled at most 57 times. */
  ghost predicate IsCapacity(c: nat) {
    c == 0 || exists k: nat :: k <= 57 && c == Capacity(k)
  }

  lemma LargestCapacity()
    ensures Capacity(57) == TWO63
  {
    assert Pow2(8) == 0x100;
    assert Pow2(16) == 0x1_0000;
    assert Pow2(24) == 0x100_0000;
    assert Pow2(32) == 0x1_0000_0000;
    assert Pow2(40) == 0x100_0000_0000;
    assert Pow2(48) == 0x1_0000_0000_0000;
    assert Pow2(56) == 0x100_0000_0000_0000;
  }

  /** The doubling loop of tmpfs_reserve: it ends for every size up to 2^63, at a capacity that is large
      enough and less than twice what is needed. */
  method GrowCapacity(capacity: nat, need: nat) returns (cap: nat)
    requires IsCapacity(capacity) && capacity < need <= TWO63
    ensures IsCapacity(cap) && need <= cap && (cap == 64 || cap < 2 * need)
  {
    LargestCapacity();
    assert Capacity(0) == 64;
    cap := if capacity != 0 then capacity else 64;
    ghost var k: nat :| k <= 57 && cap == Capacity(k);
    while cap < need
      invariant k <= 57 && cap == Capacity(k)
      invariant cap == 64 || cap < 2 * need
      decreases 57 - k
    {
      cap := cap * 2;
      k := k + 1;
    }
  }

  lemma {:induction false} CapacityGrows(j: nat, k: nat)
    requires j <= k
    ensures Capacity(j) <= Capacity(k)
  {
    if j < k { CapacityGrows(j, k - 1); }
  }

  lemma CapacityBound(c: nat)
    requires IsCapacity(c)
    ensures c <= TWO63
  {
    LargestCapacity();
    if k: nat :| k <= 57 && c == Capacity(k) { CapacityGrows(k, 57); }
  }

  /** The capacity after k rounds of the doubling loop, in 64 bits. */
  function Doubled(cap: nat, k: nat): nat {
    if k == 0 then cap else Doubled(cap, k - 1) * 2 % TWO64
  }

  lemma {:induction false} DoubledIsCapacity(j: nat, k: nat)
    requires j <= 57
    ensures Doubled(Capacity(j), k) == if j + k <= 57 then Capacity(j + k) else 0
  {
    LargestCapacity();
    if k > 0 {
      DoubledIsCapacity(j, k - 1);
      if j + k <= 57 { CapacityGrows(j + k, 57); }
      assert j + k == 58 ==> Capacity(57) * 2 == TWO64;
    }
  }

  /** The doubling loop ends exactly for requests of at most 2^63 bytes; above, the capacity wraps to 0. */
  lemma GrowthEndsIff(j: nat, need: nat)
    requires j <= 57 && 0 < need < TWO64
    ensures (exists k: nat :: Doubled(Capacity(j), k) >= need) <==> need <= TWO63
  {
    LargestCapacity();
    DoubledIsCapacity(j, 57 - j);
    assert Doubled(Capacity(j), 57 - j) == TWO63;
    forall k: nat ensures Doubled(Capacity(j), k) <= TWO63 {
      DoubledIsCapacity(j, k);
      if j + k <= 57 { CapacityGrows(j + k, 57); }
    }
  }

  /** What a write does to a node: the bytes written, the old bytes elsewhere, anything in a hole. */
  ghost predicate Writes(n: Node, n': Node, offset: nat, src: seq<nat>) {
    && n.size <= |n.data| && n'.size <= |n'.data|
    && n' == n.(data := n'.data, size := n'.size)
    && n'.size == (if offset + |src| > n.size then offset + |src| else n.size)
    && (forall i | 0 <= i < |src| :: n'.data[offset + i] == src[i])
    && (forall i | 0 <= i < n.size && !(offset <= i < offset + |src|) :: n'.data[i] == n.data[i])
  }

  /** What the allocator gives for a request: nothing, or that many bytes of anything. */
  type Allocator = f: nat -> seq<nat> | forall n: nat :: f(n) == [] || |f(n)| == n witness _ => []

  ghost predicate NeverFails(alloc: Allocator) {
    forall n: nat :: n > 0 ==> alloc(n) != []
  }

  /** tmpfs_reserve: a failed allocation changes nothing; growth keeps the file's bytes. */
  method Reserve(n: Node, need: nat, alloc: Allocator) returns (ok: bool, n': Node)
    requires n.size <= |n.data| && IsCapacity(|n.data|) && need <= TWO63
    ensures !ok ==> n' == n
    ensures ok ==> n' == n.(data := n'.data) && need <= |n'.data| && IsCapacity(|n'.data|)
    ensures ok ==> n.size <= |n'.data| && Content(n') == Content(n)
    ensures need <= |n.data| ==> ok && n' == n
    ensures NeverFails(alloc) ==> ok
  {
    if need <= |n.data| { return true, n; }
    var cap := GrowCapacity(|n.data|, need);
    var buf := alloc(cap);
    if |buf| == 0 { return false, n; }
    var i: nat := 0;
    while i < n.size
      invariant i <= n.size && |buf| == cap && buf[..i] == n.data[..i]
    {
      buf := buf[i := n.data[i]];
      i := i + 1;
    }
    return true, n.(data := buf);
  }

  /** tmpfs_write on a file. */
  method WriteNode(n: Node, offset: nat, src: seq<nat>, alloc: Allocator) returns (ok: bool, n': Node)
    requires n.size <= |n.data| && IsCapacity(|n.data|) && offset + |src| <= TWO63
    ensures !ok ==> n' == n
    ensures ok ==> Writes(n, n', offset, src) && IsCapacity(|n'.data|)
    ensures offset + |src| <= |n.data| || NeverFails(alloc) ==> ok
  {
    ok, n' := Reserve(n, offset + |src|, alloc);
    if !ok { return; }
    var r := n';
    var buf := r.data;
    var i: nat := 0;
    while i < |src|
      invariant i <= |src| && |buf| == |r.data|
      invariant forall k | 0 <= k < i :: buf[offset + k] == src[k]
      invariant forall k | 0 <= k < |buf| && !(offset <= k < offset + i) :: buf[k] == r.data[k]
    {
      buf := buf[offset + i := src[i]];
      i := i + 1;
    }
    assert forall k | 0 <= k < n.size :: r.data[k] == Content(r)[k] == Content(n)[k] == n.data[k];
    n' := r.(data := buf, size := if offset + |src| > r.size then offset + |src| else r.size);
  }

  /** Reading back what was written gives the same bytes. */
  lemma ReadBack(n: Node, n': Node, offset: nat, src: seq<nat>)
    requires Writes(n, n', offset, src)
    ensures ReadAt(n', offset, |src|) == src
    ensures forall at: nat, len: nat | at + len <= offset && at + len <= n.size ::
        ReadAt(n', at, len) == ReadAt(n, at, len)
  {
  }
}
