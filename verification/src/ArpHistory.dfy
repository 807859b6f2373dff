/** What an address cache of n entries should remember: the n most recently added distinct addresses. */
module ArpHistory {

  datatype Add = Add(ip: nat, mac: nat)

  /** The addresses added after the last time ip was. */
  ghost function Since(h: seq<Add>, ip: nat): set<nat> {
    if h == [] then {}
    else
      var last := h[|h| - 1];
      if last.ip == ip then {} else Since(h[..|h| - 1], ip) + {last.ip}
  }

  predicate Added(h: seq<Add>, ip: nat) {
    exists i :: 0 <= i < |h| && h[i].ip == ip
  }

  /** The hardware address last added for ip. */
  function LastMac(h: seq<Add>, ip: nat): nat
    requires Added(h, ip)
  {
    var last := h[|h| - 1];
    if last.ip == ip then last.mac else LastMac(h[..|h| - 1], ip)
  }

  /** ip is among the n most recently added distinct addresses. */
  ghost predicate Remembered(h: seq<Add>, ip: nat, n: nat) {
    Added(h, ip) && |Since(h, ip)| < n
  }

  /** The index of an address in a list, or the length. */
  function IndexOf(l: seq<Add>, ip: nat): (k: nat)
    ensures k <= |l| && (k < |l| ==> l[k].ip == ip) && forall i | 0 <= i < k :: l[i].ip != ip
  {
    if l == [] || l[0].ip == ip then 0 else 1 + IndexOf(l[1..], ip)
  }

  function Without(l: seq<Add>, k: nat): seq<Add> {
    if k < |l| then l[..k] + l[k + 1..] else l
  }

  /** The distinct addresses added, most recent first, each with its latest hardware address. */
  function Recents(h: seq<Add>): seq<Add> {
    if h == [] then []
    else
      var x, l := h[|h| - 1], Recents(h[..|h| - 1]);
      [x] + Without(l, IndexOf(l, x.ip))
  }

  predicate Distinct(l: seq<Add>) {
    forall i, j | 0 <= i < j < |l| :: l[i].ip != l[j].ip
  }

  ghost function Ips(l: seq<Add>): set<nat> {
    if l == [] then {} else Ips(l[..|l| - 1]) + {l[|l| - 1].ip}
  }

  lemma {:induction false} IpsConcat(a: seq<Add>, b: seq<Add>)
    ensures Ips(a + b) == Ips(a) + Ips(b)
  {
    if b == [] {
      assert a + b == a;
    } else {
      var n := |b| - 1;
      IpsConcat(a, b[..n]);
      assert (a + b)[..|a + b| - 1] == a + b[..n];
    }
  }

  lemma {:induction false} IpsMember(l: seq<Add>, y: nat)
    ensures y in Ips(l) <==> exists i :: 0 <= i < |l| && l[i].ip == y
  {
    if l != [] {
      var n := |l| - 1;
      IpsMember(l[..n], y);
      if i :| 0 <= i < |l| && l[i].ip == y {
        if i < n { assert l[..n][i].ip == y; }
      }
      if i :| 0 <= i < n && l[..n][i].ip == y { assert l[i].ip == y; }
    }
  }

  lemma MoveToFront(l: seq<Add>, x: Add)
    requires Distinct(l)
    ensures Distinct([x] + Without(l, IndexOf(l, x.ip)))
  {
    var k := IndexOf(l, x.ip);
    var r := Without(l, k);
    assert forall i | 0 <= i < |r| :: r[i] == l[if i < k then i else i + 1];
    var l' := [x] + r;
    forall i, j | 0 <= i < j < |l'| ensures l'[i].ip != l'[j].ip {
      assert l'[j] == r[j - 1];
    }
  }

  lemma {:induction false} RecentsDistinct(h: seq<Add>)
    ensures Distinct(Recents(h))
  {
    if h != [] {
      RecentsDistinct(h[..|h| - 1]);
      MoveToFront(Recents(h[..|h| - 1]), h[|h| - 1]);
    }
  }

  lemma IpsOne(x: Add)
    ensures Ips([x]) == {x.ip}
  {
    assert [x][..0] == [];
  }

  /** Moving an entry to the front of a list, or adding it there, changes the addresses by it alone. */
  lemma IpsMoved(x: Add, front: seq<Add>, mid: seq<Add>, back: seq<Add>)
    requires mid == [] || (|mid| == 1 && mid[0].ip == x.ip)
    ensures Ips([x] + front + back) == Ips(front + mid + back) + {x.ip}
  {
    IpsOne(x);
    IpsConcat([x] + front, back);
    IpsConcat([x], front);
    IpsConcat(front + mid, back);
    IpsConcat(front, mid);
    if mid != [] {
      assert mid == [mid[0]];
      IpsOne(mid[0]);
    }
  }

  /** The addresses ahead of ip in the list, before and after one more add. */
  lemma AheadAfterMove(l: seq<Add>, x: Add, ip: nat)
    requires Distinct(l) && x.ip != ip && IndexOf(l, ip) < |l|
    ensures
      var l' := [x] + Without(l, IndexOf(l, x.ip));
      && IndexOf(l', ip) < |l'| && l'[IndexOf(l', ip)] == l[IndexOf(l, ip)]
      && Ips(l'[..IndexOf(l', ip)]) == Ips(l[..IndexOf(l, ip)]) + {x.ip}
  {
    var k, m := IndexOf(l, x.ip), IndexOf(l, ip);
    var l' := [x] + Without(l, k);
    MoveToFront(l, x);
    if k < m {
      MovedPast(l, x, k, m);
      DistinctIndex(l', m);
    } else {
      AddedAhead(l, x, k, m);
      DistinctIndex(l', m + 1);
    }
  }

  lemma MovedPast(l: seq<Add>, x: Add, k: nat, m: nat)
    requires k < m < |l| && l[k].ip == x.ip
    ensures
      var l' := [x] + Without(l, k);
      m < |l'| && l'[m] == l[m] && Ips(l'[..m]) == Ips(l[..m]) + {x.ip}
  {
    var l' := [x] + Without(l, k);
    assert l[..m] == l[..k] + [l[k]] + l[k + 1..m];
    assert l'[..m] == [x] + l[..k] + l[k + 1..m];
    IpsMoved(x, l[..k], [l[k]], l[k + 1..m]);
  }

  lemma AddedAhead(l: seq<Add>, x: Add, k: nat, m: nat)
    requires m < |l| && m < k <= |l|
    ensures
      var l' := [x] + Without(l, k);
      m + 1 < |l'| && l'[m + 1] == l[m] && Ips(l'[..m + 1]) == Ips(l[..m]) + {x.ip}
  {
    var l' := [x] + Without(l, k);
    assert l[..m] == l[..m] + [] + [];
    assert l'[..m + 1] == [x] + l[..m] + [];
    IpsMoved(x, l[..m], [], []);
  }

  lemma {:induction false} DistinctIndex(l: seq<Add>, m: nat)
    requires Distinct(l) && m < |l|
    ensures IndexOf(l, l[m].ip) == m
  {
  }

  lemma {:induction false} DistinctCount(l: seq<Add>)
    requires Distinct(l)
    ensures |Ips(l)| == |l|
  {
    if l != [] {
      var n := |l| - 1;
      DistinctCount(l[..n]);
      IpsMember(l[..n], l[n].ip);
    }
  }

  /** The list says of ip what the history says: whether it was added, its latest hardware address, and how many
      addresses were added since. */
  ghost predicate Means(h: seq<Add>, l: seq<Add>, ip: nat) {
    var k := IndexOf(l, ip);
    && (k < |l| <==> Added(h, ip))
    && (k < |l| && Added(h, ip) ==> l[k].mac == LastMac(h, ip) && Ips(l[..k]) == Since(h, ip))
  }

  /** The history after one more add. */
  lemma OneMoreAdd(h: seq<Add>, x: Add, ip: nat)
    ensures Added(h + [x], ip) <==> x.ip == ip || Added(h, ip)
    ensures Since(h + [x], ip) == if x.ip == ip then {} else Since(h, ip) + {x.ip}
    ensures Added(h + [x], ip) ==> LastMac(h + [x], ip) == if x.ip == ip then x.mac else LastMac(h, ip)
  {
    var h' := h + [x];
    assert h'[..|h|] == h && h'[|h|] == x;
    if i :| 0 <= i < |h| && h[i].ip == ip { assert h'[i].ip == ip; }
    if i :| 0 <= i < |h'| && h'[i].ip == ip { assert i < |h| ==> h[i].ip == ip; }
  }

  lemma MeansOwn(h: seq<Add>, l: seq<Add>, x: Add)
    ensures Means(h + [x], [x] + l, x.ip)
  {
    var l' := [x] + l;
    OneMoreAdd(h, x, x.ip);
    assert IndexOf(l', x.ip) == 0 && l'[..0] == [];
    assert Ips([]) == {};
  }

  lemma MeansOther(h: seq<Add>, l: seq<Add>, x: Add, ip: nat)
    requires Distinct(l) && Means(h, l, ip) && x.ip != ip
    ensures Means(h + [x], [x] + Without(l, IndexOf(l, x.ip)), ip)
  {
    OneMoreAdd(h, x, ip);
    if IndexOf(l, ip) < |l| { AheadAfterMove(l, x, ip); } else { AbsentAfterMove(l, x, ip); }
  }

  lemma RecentsOneMore(h: seq<Add>, x: Add)
    ensures Recents(h + [x]) == [x] + Without(Recents(h), IndexOf(Recents(h), x.ip))
  {
    assert (h + [x])[..|h|] == h;
  }

  /** The list holds the addresses added, and ahead of each exactly those added since. */
  lemma {:induction false} RecentsMeaning(h: seq<Add>, ip: nat)
    ensures Means(h, Recents(h), ip)
  {
    if h != [] {
      var n := |h| - 1;
      var front, x := h[..n], h[n];
      assert h == front + [x];
      RecentsMeaning(front, ip);
      RecentsDistinct(front);
      RecentsOneMore(front, x);
      if x.ip == ip {
        MeansOwn(front, Without(Recents(front), IndexOf(Recents(front), ip)), x);
      } else {
        MeansOther(front, Recents(front), x, ip);
      }
    }
  }

  lemma AbsentAfterMove(l: seq<Add>, x: Add, ip: nat)
    requires x.ip != ip && IndexOf(l, ip) == |l|
    ensures
      var l' := [x] + Without(l, IndexOf(l, x.ip));
      IndexOf(l', ip) == |l'|
  {
    var k := IndexOf(l, x.ip);
    var r := Without(l, k);
    assert forall i | 0 <= i < |r| :: r[i] == l[if i < k then i else i + 1];
    var l' := [x] + r;
    assert forall i | 0 < i < |l'| :: l'[i] == r[i - 1];
  }

  lemma FrontCount(l: seq<Add>, k: nat)
    requires Distinct(l) && k <= |l|
    ensures |Ips(l[..k])| == k
  {
    DistinctCount(l[..k]);
  }

  lemma MeansRemembered(h: seq<Add>, l: seq<Add>, ip: nat, n: nat)
    requires Means(h, l, ip) && Distinct(l)
    ensures Remembered(h, ip, n) <==> IndexOf(l, ip) < n && IndexOf(l, ip) < |l|
    ensures Remembered(h, ip, n) ==> l[IndexOf(l, ip)].mac == LastMac(h, ip)
  {
    FrontCount(l, IndexOf(l, ip));
  }

  /** An address is remembered exactly when it stands among the first n of the list. */
  lemma RememberedIffInFront(h: seq<Add>, ip: nat, n: nat)
    ensures Remembered(h, ip, n) <==> IndexOf(Recents(h), ip) < n && IndexOf(Recents(h), ip) < |Recents(h)|
    ensures Remembered(h, ip, n) ==> Recents(h)[IndexOf(Recents(h), ip)].mac == LastMac(h, ip)
  {
    RecentsMeaning(h, ip);
    RecentsDistinct(h);
    MeansRemembered(h, Recents(h), ip, n);
  }
}
