/** The TCP connection table: ids, pairs of ends and their receive buffers, over every run. */
module Tcp {
  import opened Common

  const BUF_MAX: nat := 2048

  datatype ConnState = Closed | Listen | SynSent | SynRecv | Established

  /** A slot; rx is the unread part of the receive buffer. */
  datatype Conn = Conn(used: bool, id: int, state: ConnState, localIp: nat, localPort: nat,
                       peerIp: nat, peerPort: nat, peerId: int, rx: seq<nat>)

  datatype Event = Sent(dest: int, data: seq<nat>) | Received(dest: int, data: seq<nat>)

  /** The table with the next id. partner, accepted and log record the connects, accepts and data so far. */
  datatype State = State(conns: seq<Conn>, nextId: int, partner: map<int, int>, accepted: seq<int>, log: seq<Event>)

  predicate Live(s: State, i: int) {
    0 <= i < |s.conns| && s.conns[i].used
  }

  /** find_by_id. */
  function FindById(conns: seq<Conn>, id: int): (r: nat)
    ensures r <= |conns| && (r < |conns| ==> conns[r].used && conns[r].id == id)
    ensures forall i | 0 <= i < r :: !(conns[i].used && conns[i].id == id)
  {
    FirstFrom(conns, (c: Conn) => c.used && c.id == id, 0)
  }

  /** find_listener. */
  function FindListener(conns: seq<Conn>, port: nat): (r: nat)
    ensures r <= |conns| && (r < |conns| ==> conns[r].used && conns[r].state == Listen && conns[r].localPort == port)
    ensures forall i | 0 <= i < r :: !(conns[i].used && conns[i].state == Listen && conns[i].localPort == port)
  {
    FirstFrom(conns, (c: Conn) => c.used && c.state == Listen && c.localPort == port, 0)
  }

  function FindPending(conns: seq<Conn>, port: nat): (r: nat)
    ensures r <= |conns| && (r < |conns| ==> conns[r].used && conns[r].state == SynRecv && conns[r].localPort == port)
    ensures forall i | 0 <= i < r :: !(conns[i].used && conns[i].state == SynRecv && conns[i].localPort == port)
  {
    FirstFrom(conns, (c: Conn) => c.used && c.state == SynRecv && c.localPort == port, 0)
  }

  function FindFree(conns: seq<Conn>): (r: nat)
    ensures r <= |conns| && (r < |conns| ==> !conns[r].used)
    ensures forall i | 0 <= i < r :: conns[i].used
  {
    FirstFrom(conns, (c: Conn) => !c.used, 0)
  }

  /** alloc_conn: the first unused slot gets the next id. */
  function Alloc(s: State): State {
    var i := FindFree(s.conns);
    if i == |s.conns| then s
    else s.(conns := s.conns[i := s.conns[i].(used := true, id := s.nextId, state := Closed, peerId := -1, rx := [])],
            nextId := s.nextId + 1)
  }

  datatype Outcome = Outcome(s: State, ret: int)

  function DoListen(s: State, port: nat): Outcome {
    var i := FindFree(s.conns);
    if i == |s.conns| then Outcome(s, EFAIL)
    else
      var s1 := Alloc(s);
      Outcome(s1.(conns := s1.conns[i := s1.conns[i].(state := Listen, localIp := 0, localPort := port)]), s.nextId)
  }

  /** tcp_connect: both ends are allocated before either is checked. */
  function DoConnect(s: State, dstIp: nat, dstPort: nat, srcPort: nat): Outcome {
    if FindListener(s.conns, dstPort) == |s.conns| then Outcome(s, EFAIL)
    else
      var a := FindFree(s.conns);
      var s1 := Alloc(s);
      var b := FindFree(s1.conns);
      var s2 := Alloc(s1);
      if a == |s.conns| then Outcome(s2, EFAIL)
      else if b == |s.conns| then
        Outcome(s2.(conns := s2.conns[a := s2.conns[a].(used := false, state := Closed, peerId := -1, rx := [])]),
            EFAIL)
      else
        var cli, srv := s.nextId, s.nextId + 1;
        var ca := s2.conns[a].(state := Established, localIp := 0, peerIp := dstIp, peerPort := dstPort,
                               localPort := srcPort, peerId := srv);
        var cb := s2.conns[b].(state := SynRecv, localIp := dstIp, localPort := dstPort, peerIp := dstIp,
                               peerPort := srcPort, peerId := cli);
        Outcome(s2.(conns := s2.conns[a := ca][b := cb], partner := s.partner[cli := srv][srv := cli]), cli)
  }

  /** tcp_accept. */
  function DoAccept(s: State, port: nat): Outcome {
    var i := FindPending(s.conns, port);
    if i == |s.conns| then Outcome(s, EFAIL)
    else Outcome(s.(conns := s.conns[i := s.conns[i].(state := Established)],
        accepted := s.accepted + [s.conns[i].id]), s.conns[i].id)
  }

  /** tcp_send. */
  function DoSend(s: State, id: int, data: seq<nat>): Outcome {
    var i := FindById(s.conns, id);
    if i == |s.conns| || s.conns[i].state != Established || data == [] then Outcome(s, EFAIL)
    else
      var j := FindById(s.conns, s.conns[i].peerId);
      if j == |s.conns| || s.conns[j].state != Established then Outcome(s, EFAIL)
      else
        var n := if |data| > BUF_MAX then BUF_MAX else |data|;
        Outcome(s.(conns := s.conns[j := s.conns[j].(rx := data[..n])],
            log := s.log + [Sent(s.conns[j].id, data[..n])]), n)
  }

  datatype Delivery = Delivery(s: State, ret: int, data: seq<nat>)

  /** tcp_recv: whatever does not fit is dropped. */
  function DoRecv(s: State, id: int, cap: nat): Delivery {
    var i := FindById(s.conns, id);
    if i == |s.conns| || s.conns[i].state != Established then Delivery(s, EFAIL, [])
    else if s.conns[i].rx == [] then Delivery(s, 0, [])
    else
      var n := if |s.conns[i].rx| < cap then |s.conns[i].rx| else cap;
      var data := s.conns[i].rx[..n];
      Delivery(s.(conns := s.conns[i := s.conns[i].(rx := [])], log := s.log + [Received(id, data)]), n, data)
  }

  /** tcp_close. */
  function DoClose(s: State, id: int): Outcome {
    var i := FindById(s.conns, id);
    if i == |s.conns| then Outcome(s, EFAIL) else Outcome(s.(conns := s.conns[i := s.conns[i].(used := false)]), 0)
  }

  /** The bytes of the latest send to an end since it last received anything. */
  function Unread(log: seq<Event>, id: int): seq<nat> {
    if log == [] then []
    else
      match log[|log| - 1]
      case Sent(dest, data) => if dest == id then data else Unread(log[..|log| - 1], id)
      case Received(dest, _) => if dest == id then [] else Unread(log[..|log| - 1], id)
  }

  /** What every live slot satisfies: its id is issued and its own, its peer is its partner, its buffer
      holds the latest unread send. */
  ghost predicate SlotOk(s: State, i: int) {
    Live(s, i) ==>
      var c := s.conns[i];
      && 0 < c.id < s.nextId
      && c.peerId == (if c.id in s.partner then s.partner[c.id] else -1)
      && (c.state == SynRecv ==> c.id in s.partner && c.id !in s.accepted)
      && c.rx == Unread(s.log, c.id)
  }

  ghost predicate IdsDiffer(s: State, i: int, j: int) {
    Live(s, i) && Live(s, j) && i != j ==> s.conns[i].id != s.conns[j].id
  }

  ghost predicate PartnersMatch(s: State, a: int) {
    a in s.partner ==>
        0 < a < s.nextId && s.partner[a] != a && s.partner[a] in s.partner && s.partner[s.partner[a]] == a
  }

  /** Ids of live connections are distinct, partners point at each other, accepted ids are distinct. */
  ghost predicate Inv(s: State) {
    && 0 < s.nextId
    && (forall i :: SlotOk(s, i))
    && (forall i, j :: IdsDiffer(s, i, j))
    && (forall a :: PartnersMatch(s, a))
    && (forall k | 0 <= k < |s.log| :: s.log[k].dest < s.nextId)
    && (forall k | 0 <= k < |s.accepted| :: s.accepted[k] < s.nextId)
    && (forall j, k | 0 <= j < k < |s.accepted| :: s.accepted[j] != s.accepted[k])
  }

  lemma {:induction false} NoEventsNothingUnread(log: seq<Event>, id: int)
    requires forall k | 0 <= k < |log| :: log[k].dest != id
    ensures Unread(log, id) == []
  {
    if log != [] { NoEventsNothingUnread(log[..|log| - 1], id); }
  }

  lemma UnreadAfter(log: seq<Event>, e: Event, id: int)
    ensures Unread(log + [e], id) == if e.dest != id then Unread(log, id) else if e.Sent? then e.data else []
  {
    assert (log + [e])[..|log|] == log;
  }

  /** Rewriting one slot: it is enough that the new contents are right and their id is not taken. */
  lemma PutSlot(s: State, s': State, i: nat)
    requires Inv(s) && i < |s.conns| && |s'.conns| == |s.conns|
    requires forall j | 0 <= j < |s.conns| && j != i :: s'.conns[j] == s.conns[j] && (Live(s, j) ==> SlotOk(s', j))
    requires SlotOk(s', i)
    requires s'.conns[i].used && Live(s, i) ==> s'.conns[i].id == s.conns[i].id
    requires s'.conns[i].used && !Live(s, i) ==> s'.conns[i].id >= s.nextId
    ensures (forall j :: SlotOk(s', j)) && (forall j, k :: IdsDiffer(s', j, k))
  {
    forall j ensures SlotOk(s', j) {
      assert SlotOk(s, j);
    }
    forall j, k ensures IdsDiffer(s', j, k) {
      assert IdsDiffer(s, j, k) && SlotOk(s, j) && SlotOk(s, k);
    }
  }

  /** A fresh slot for the next id; the rest as before. */
  lemma AllocKeeps(s: State, c: Conn)
    requires Inv(s) && FindFree(s.conns) < |s.conns|
    requires c.used && c.id == s.nextId && c.peerId == -1 && c.state != SynRecv && c.rx == []
    ensures Inv(s.(conns := s.conns[FindFree(s.conns) := c], nextId := s.nextId + 1))
  {
    var i := FindFree(s.conns);
    var s' := s.(conns := s.conns[i := c], nextId := s.nextId + 1);
    forall a ensures PartnersMatch(s', a) { assert PartnersMatch(s, a); }
    assert PartnersMatch(s, s.nextId);
    NoEventsNothingUnread(s.log, s.nextId);
    forall j | Live(s, j) && j != i ensures SlotOk(s', j) { assert SlotOk(s, j); }
    PutSlot(s, s', i);
  }

  /** Listening takes a free slot, if there is one, and disturbs no other. */
  lemma ListenKeeps(s: State, port: nat)
    requires Inv(s)
    ensures
      var r := DoListen(s, port);
      && Inv(r.s)
      && (r.ret == EFAIL <==> forall i | 0 <= i < |s.conns| :: s.conns[i].used)
      && (r.ret == EFAIL ==> r.s == s)
      && (r.ret != EFAIL ==>
            && FindListener(r.s.conns, port) < |s.conns| && r.ret == s.nextId && r.s.nextId == s.nextId + 1
            && var i := FindById(r.s.conns, r.ret);
               && i < |s.conns| && !s.conns[i].used
               && r.s.conns[i] == Conn(true, r.ret, Listen, 0, port, s.conns[i].peerIp, s.conns[i].peerPort, -1, [])
               && forall j | 0 <= j < |s.conns| && j != i :: r.s.conns[j] == s.conns[j])
  {
    var i := FindFree(s.conns);
    if i < |s.conns| {
      var s' := DoListen(s, port).s;
      AllocKeeps(s, s'.conns[i]);
      assert s'.conns == s.conns[i := s'.conns[i]];
      FindsIt(s', i);
      assert s'.conns[i].state == Listen;
    }
  }

  /** Freeing a slot keeps everything. */
  lemma DropKeeps(s: State, i: nat, c: Conn)
    requires Inv(s) && i < |s.conns| && !c.used
    ensures Inv(s.(conns := s.conns[i := c]))
  {
    var s' := s.(conns := s.conns[i := c]);
    forall a ensures PartnersMatch(s', a) { assert PartnersMatch(s, a); }
    forall j | Live(s, j) && j != i ensures SlotOk(s', j) { assert SlotOk(s, j); }
    PutSlot(s, s', i);
  }

  ghost predicate SameLive(s: State, s': State) {
    |s'.conns| == |s.conns| && forall i | 0 <= i < |s.conns| ::
      s'.conns[i].used == s.conns[i].used && (s.conns[i].used ==> s'.conns[i] == s.conns[i])
  }

  /** A connect that fails leaves no live slot behind; one that succeeds adds two partners. */
  lemma ConnectKeeps(s: State, dstIp: nat, dstPort: nat, srcPort: nat)
    requires Inv(s)
    ensures
      var r := DoConnect(s, dstIp, dstPort, srcPort);
      && Inv(r.s)
      && (r.ret != EFAIL <==> FindListener(s.conns, dstPort) < |s.conns| && HasTwoFree(s))
      && (r.ret == EFAIL ==> SameLive(s, r.s) && r.s.partner == s.partner)
      && (r.ret != EFAIL ==>
            && r.ret == s.nextId && r.s.nextId == s.nextId + 2
            && r.s.partner == s.partner[r.ret := r.ret + 1][r.ret + 1 := r.ret])
  {
    var a := FindFree(s.conns);
    TwoFreeIff(s);
    if FindListener(s.conns, dstPort) < |s.conns| && a < |s.conns| {
      var s1 := Alloc(s);
      AllocKeeps(s, s1.conns[a]);
      if FindFree(s1.conns) < |s.conns| {
        ConnectPairs(s, dstIp, dstPort, srcPort);
      } else {
        DropKeeps(s1, a, s1.conns[a].(used := false, state := Closed, peerId := -1, rx := []));
      }
    }
  }

  ghost predicate HasTwoFree(s: State) {
    exists i, j :: 0 <= i < j < |s.conns| && !s.conns[i].used && !s.conns[j].used
  }

  lemma TwoFreeIff(s: State)
    ensures HasTwoFree(s) <==> FindFree(s.conns) < |s.conns| && FindFree(Alloc(s).conns) < |s.conns|
  {
    var a := FindFree(s.conns);
    var conns' := Alloc(s).conns;
    if a < |s.conns| {
      assert forall i | 0 <= i < |s.conns| :: conns'[i].used <==> s.conns[i].used || i == a;
      var b := FindFree(conns');
      assert b < |s.conns| ==> a < b && !s.conns[b].used;
    }
  }

  lemma ConnectPairs(s: State, dstIp: nat, dstPort: nat, srcPort: nat)
    requires Inv(s) && FindListener(s.conns, dstPort) < |s.conns| && FindFree(s.conns) < |s.conns|
    requires FindFree(Alloc(s).conns) < |s.conns|
    ensures
      var r := DoConnect(s, dstIp, dstPort, srcPort);
      && Inv(r.s) && r.ret == s.nextId && r.s.nextId == s.nextId + 2
      && r.s.partner == s.partner[r.ret := r.ret + 1][r.ret + 1 := r.ret]
  {
    var a, s1 := FindFree(s.conns), Alloc(s);
    AllocKeeps(s, s1.conns[a]);
    var b, s2 := FindFree(s1.conns), Alloc(s1);
    AllocKeeps(s1, s2.conns[b]);
    assert PartnersMatch(s, s.nextId) && PartnersMatch(s, s.nextId + 1);
    JoinKeeps(s2, DoConnect(s, dstIp, dstPort, srcPort).s, a, b, s.nextId, s.nextId + 1);
  }

  /** Some slot listens on the port. */
  ghost predicate Listens(s: State, port: nat) {
    exists i :: Live(s, i) && s.conns[i].state == Listen && s.conns[i].localPort == port
  }

  predicate FirstFree(s: State, a: nat) {
    a < |s.conns| && !s.conns[a].used && forall i | 0 <= i < a :: s.conns[i].used
  }

  predicate SecondFree(s: State, a: nat, b: nat) {
    FirstFree(s, a) && a < b < |s.conns| && !s.conns[b].used && forall i | a < i < b :: s.conns[i].used
  }

  /** The two ends a connect makes: the client's is established, the server's waits to be accepted, and each has the
      other's port as its peer's. */
  function ClientEnd(id: int, dstIp: nat, dstPort: nat, srcPort: nat): Conn {
    Conn(true, id, Established, 0, srcPort, dstIp, dstPort, id + 1, [])
  }

  function ServerEnd(id: int, dstIp: nat, dstPort: nat, srcPort: nat): Conn {
    Conn(true, id, SynRecv, dstIp, dstPort, dstIp, srcPort, id - 1, [])
  }

  /** What a connect does to the slots. */
  ghost predicate Connects(s: State, s': State, ret: int, dstIp: nat, dstPort: nat, srcPort: nat) {
    var n := s.nextId;
    && (ret == EFAIL || ret == n)
    && (!Listens(s, dstPort) ==> ret == EFAIL && s' == s)
    && ((forall i | 0 <= i < |s.conns| :: s.conns[i].used) ==> ret == EFAIL && s' == s)
    && (forall a: nat, b: nat | Listens(s, dstPort) && SecondFree(s, a, b) ::
          && ret == n && s'.nextId == n + 2
          && s'.conns == s.conns[a := ClientEnd(n, dstIp, dstPort, srcPort)]
                                [b := ServerEnd(n + 1, dstIp, dstPort, srcPort)])
    && (forall a: nat | Listens(s, dstPort) && FirstFree(s, a) && (forall b: nat :: !SecondFree(s, a, b)) ::
          && ret == EFAIL && s'.nextId == n + 1
          && s'.conns == s.conns[a := s.conns[a].(used := false, id := n, state := Closed, peerId := -1, rx := [])])
  }

  lemma NextFree(s: State, a: nat)
    requires FirstFree(s, a)
    ensures FindFree(s.conns) == a && |Alloc(s).conns| == |s.conns|
    ensures forall i | 0 <= i < |s.conns| :: Alloc(s).conns[i].used <==> s.conns[i].used || i == a
  {
  }

  lemma ConnectOneFree(s: State, dstIp: nat, dstPort: nat, srcPort: nat, a: nat)
    requires Listens(s, dstPort) && FirstFree(s, a) && forall b: nat :: !SecondFree(s, a, b)
    ensures
      var r := DoConnect(s, dstIp, dstPort, srcPort);
      && r.ret == EFAIL && r.s.nextId == s.nextId + 1
      && r.s.conns == s.conns[a := s.conns[a].(used := false, id := s.nextId, state := Closed, peerId := -1, rx := [])]
  {
    var b := FindFree(Alloc(s).conns);
    NextFree(s, a);
    if b < |s.conns| { assert SecondFree(s, a, b); }
  }

  lemma ConnectTwoFree(s: State, dstIp: nat, dstPort: nat, srcPort: nat, a: nat, b: nat)
    requires Listens(s, dstPort) && SecondFree(s, a, b)
    ensures
      var r, n := DoConnect(s, dstIp, dstPort, srcPort), s.nextId;
      && r.ret == n && r.s.nextId == n + 2
      && r.s.conns == s.conns[a := ClientEnd(n, dstIp, dstPort, srcPort)]
                             [b := ServerEnd(n + 1, dstIp, dstPort, srcPort)]
  {
    NextFree(s, a);
    assert FindFree(Alloc(s).conns) == b;
  }

  /** A connect to a port nobody listens on, or with a full table, changes nothing; one with a single slot left gives
      it back and fails; any other makes the two ends in the first two unused slots. */
  lemma ConnectIs(s: State, dstIp: nat, dstPort: nat, srcPort: nat)
    requires 0 < s.nextId
    ensures
      var r := DoConnect(s, dstIp, dstPort, srcPort);
      Connects(s, r.s, r.ret, dstIp, dstPort, srcPort)
  {
    forall a: nat, b: nat | Listens(s, dstPort) && SecondFree(s, a, b) {
      ConnectTwoFree(s, dstIp, dstPort, srcPort, a, b);
    }
    forall a: nat | Listens(s, dstPort) && FirstFree(s, a) && (forall b: nat :: !SecondFree(s, a, b)) {
      ConnectOneFree(s, dstIp, dstPort, srcPort, a);
    }
  }

  /** Making two fresh ends partners. */
  lemma JoinKeeps(s: State, s': State, a: nat, b: nat, x: int, y: int)
    requires Inv(s) && a < |s.conns| && b < |s.conns| && a != b && 0 < x < s.nextId && 0 < y < s.nextId && x != y
    requires s.conns[a].used && s.conns[b].used && s.conns[a].id == x && s.conns[b].id == y
    requires x !in s.partner && y !in s.partner && x !in s.accepted && y !in s.accepted
    requires s.conns[a].rx == s.conns[b].rx == []
    requires s' == s.(conns := s'.conns, partner := s.partner[x := y][y := x]) && |s'.conns| == |s.conns|
    requires forall i | 0 <= i < |s.conns| && i != a && i != b :: s'.conns[i] == s.conns[i]
    requires s'.conns[a].used && s'.conns[a].id == x && s'.conns[a].peerId == y && s'.conns[a].rx == []
        && s'.conns[a].state == Established
    requires s'.conns[b].used && s'.conns[b].id == y && s'.conns[b].peerId == x && s'.conns[b].rx == []
        && s'.conns[b].state == SynRecv
    ensures Inv(s')
  {
    assert SlotOk(s, a) && SlotOk(s, b);
    forall i ensures SlotOk(s', i) { assert SlotOk(s, i) && IdsDiffer(s, i, a) && IdsDiffer(s, i, b); }
    forall i, j ensures IdsDiffer(s', i, j) { assert IdsDiffer(s, i, j); }
    forall k ensures PartnersMatch(s', k) {
      assert PartnersMatch(s, k);
      if k in s.partner { assert PartnersMatch(s, s.partner[k]); }
    }
  }

  /** Each pending end is accepted at most once: the id returned was never returned before. */
  lemma AcceptKeeps(s: State, port: nat)
    requires Inv(s)
    ensures
      var r := DoAccept(s, port);
      && Inv(r.s)
      && (r.ret == EFAIL <==> forall i | Live(s, i) :: !(s.conns[i].state == SynRecv && s.conns[i].localPort == port))
      && (r.ret == EFAIL ==> r.s == s)
      && (r.ret != EFAIL ==>
            && r.ret in s.partner && r.ret !in s.accepted && r.s.accepted == s.accepted + [r.ret]
            && forall j | Live(s, j) ::
                 r.s.conns[j] == if s.conns[j].id == r.ret then s.conns[j].(state := Established) else s.conns[j])
  {
    var i := FindPending(s.conns, port);
    if i < |s.conns| {
      assert SlotOk(s, i);
      var s' := DoAccept(s, port).s;
      forall a ensures PartnersMatch(s', a) { assert PartnersMatch(s, a); }
      forall j | Live(s, j) && j != i ensures SlotOk(s', j) && s.conns[j].id != s.conns[i].id {
        assert SlotOk(s, j) && IdsDiffer(s, i, j);
      }
      PutSlot(s, s', i);
    }
  }

  /** The slot of a live id. */
  lemma FindsIt(s: State, i: nat)
    requires Inv(s) && Live(s, i)
    ensures FindById(s.conns, s.conns[i].id) == i
  {
    var j := FindById(s.conns, s.conns[i].id);
    assert j < |s.conns|;
    assert IdsDiffer(s, i, j);
  }

  /** Putting an event in the log that concerns the end in slot i. */
  lemma EventKeeps(s: State, i: nat, rx: seq<nat>, e: Event)
    requires Inv(s) && Live(s, i) && e.dest == s.conns[i].id && rx == if e.Sent? then e.data else []
    ensures Inv(s.(conns := s.conns[i := s.conns[i].(rx := rx)], log := s.log + [e]))
  {
    var s' := s.(conns := s.conns[i := s.conns[i].(rx := rx)], log := s.log + [e]);
    assert SlotOk(s, i);
    UnreadAfter(s.log, e, s.conns[i].id);
    forall a ensures PartnersMatch(s', a) { assert PartnersMatch(s, a); }
    forall j | Live(s, j) && j != i ensures SlotOk(s', j) {
      assert SlotOk(s, j) && IdsDiffer(s, i, j);
      UnreadAfter(s.log, e, s.conns[j].id);
    }
    PutSlot(s, s', i);
  }

  predicate IsEstablished(s: State, id: int) {
    var i := FindById(s.conns, id);
    i < |s.conns| && s.conns[i].state == Established
  }

  lemma NoSlotMinusOne(s: State)
    requires Inv(s)
    ensures FindById(s.conns, -1) == |s.conns|
  {
    var i := FindById(s.conns, -1);
    assert SlotOk(s, i);
  }

  /** A send lands in the buffer of the end made by the same connect and in no other, whatever slots
      have been reused since; it replaces what was unread there. */
  lemma SendKeeps(s: State, id: int, data: seq<nat>)
    requires Inv(s)
    ensures
      var r := DoSend(s, id, data);
      && Inv(r.s)
      && (r.ret != EFAIL <==> data != [] && IsEstablished(s, id) && id in s.partner && IsEstablished(s, s.partner[id]))
      && (r.ret == EFAIL ==> r.s == s)
      && (r.ret != EFAIL ==>
            && id in s.partner && 0 < r.ret <= |data| && r.ret <= BUF_MAX && (|data| <= BUF_MAX ==> r.ret == |data|)
            && r.s.log == s.log + [Sent(s.partner[id], data[..r.ret])]
            && forall j | Live(s, j) ::
                 r.s.conns[j] == if s.conns[j].id == s.partner[id] then s.conns[j].(rx := data[..r.ret])
                     else s.conns[j])
  {
    var r := DoSend(s, id, data);
    var i := FindById(s.conns, id);
    if i < |s.conns| { assert SlotOk(s, i); }
    NoSlotMinusOne(s);
    if r.ret != EFAIL {
      var j := FindById(s.conns, s.conns[i].peerId);
      assert SlotOk(s, i) && SlotOk(s, j);
      EventKeeps(s, j, data[..r.ret], Sent(s.conns[j].id, data[..r.ret]));
      forall k | Live(s, k)
        ensures r.s.conns[k] == if s.conns[k].id == s.partner[id] then s.conns[k].(rx := data[..r.ret]) else s.conns[k]
      {
        assert IdsDiffer(s, j, k);
      }
    }
  }

  /** A receive returns a prefix of the latest send that this end has not yet received from. */
  lemma RecvKeeps(s: State, id: int, cap: nat)
    requires Inv(s)
    ensures
      var r := DoRecv(s, id, cap);
      && Inv(r.s)
      && (r.ret == EFAIL <==> !IsEstablished(s, id))
      && (r.ret == EFAIL ==> r.s == s)
      && (r.ret != EFAIL ==>
            && r.data <= Unread(s.log, id) && |r.data| == r.ret
            && r.ret == (if |Unread(s.log, id)| < cap then |Unread(s.log, id)| else cap)
            && Unread(r.s.log, id) == [])
  {
    var i := FindById(s.conns, id);
    if i < |s.conns| {
      assert SlotOk(s, i);
      var r := DoRecv(s, id, cap);
      if r.s != s {
        EventKeeps(s, i, [], Received(id, r.data));
        UnreadAfter(s.log, Received(id, r.data), id);
      }
    }
  }

  lemma CloseKeeps(s: State, id: int)
    requires Inv(s)
    ensures
      var r := DoClose(s, id);
      && Inv(r.s)
      && r.ret == (if FindById(s.conns, id) < |s.conns| then 0 else EFAIL)
      && (r.ret != 0 ==> r.s == s)
      && FindById(r.s.conns, id) == |s.conns|
      && forall j | Live(s, j) && s.conns[j].id != id :: r.s.conns[j] == s.conns[j]
  {
    var i := FindById(s.conns, id);
    if i < |s.conns| {
      DropKeeps(s, i, s.conns[i].(used := false));
      forall j | Live(s, j) && j != i ensures s.conns[j].id != id { assert IdsDiffer(s, i, j); }
    }
  }

  /** The partner of a live end, if live itself, has that end as its partner. */
  lemma PeersPointBack(s: State, i: nat, j: nat)
    requires Inv(s) && Live(s, i) && Live(s, j) && s.conns[i].peerId == s.conns[j].id
    ensures s.conns[j].peerId == s.conns[i].id
  {
    assert SlotOk(s, i) && SlotOk(s, j) && PartnersMatch(s, s.conns[i].id);
  }

  datatype Call =
    | CallListen(port: nat)
    | CallConnect(dstIp: nat, dstPort: nat, srcPort: nat)
    | CallAccept(port: nat)
    | CallSend(id: int, data: seq<nat>)
    | CallRecv(id: int, cap: nat)
    | CallClose(id: int)

  function Apply(s: State, c: Call): State {
    match c
    case CallListen(port) => DoListen(s, port).s
    case CallConnect(ip, dp, sp) => DoConnect(s, ip, dp, sp).s
    case CallAccept(port) => DoAccept(s, port).s
    case CallSend(id, data) => DoSend(s, id, data).s
    case CallRecv(id, cap) => DoRecv(s, id, cap).s
    case CallClose(id) => DoClose(s, id).s
  }

  function Run(s: State, calls: seq<Call>): State {
    if calls == [] then s else Apply(Run(s, calls[..|calls| - 1]), calls[|calls| - 1])
  }

  /** Over every run from an empty table: live ids are distinct, partners point at each other, no id is
      accepted twice, and every buffer holds the latest unread send of its own partner. */
  lemma {:induction false} RunsKeep(s: State, calls: seq<Call>)
    requires Inv(s)
    ensures Inv(Run(s, calls))
  {
    if calls != [] {
      var t := Run(s, calls[..|calls| - 1]);
      RunsKeep(s, calls[..|calls| - 1]);
      match calls[|calls| - 1]
      case CallListen(port) => ListenKeeps(t, port);
      case CallConnect(ip, dp, sp) => ConnectKeeps(t, ip, dp, sp);
      case CallAccept(port) => AcceptKeeps(t, port);
      case CallSend(id, data) => SendKeeps(t, id, data);
      case CallRecv(id, cap) => RecvKeeps(t, id, cap);
      case CallClose(id) => CloseKeeps(t, id);
    }
  }

  lemma EmptyKeeps(conns: seq<Conn>)
    requires forall i | 0 <= i < |conns| :: !conns[i].used
    ensures Inv(State(conns, 1, map[], [], []))
  {
  }

  // ---- Addresses ----

  /** Of two live partners the older is the client: each has the port of the other as its peer's, and the client
      knows the server by the address it connected to. */
  ghost predicate PairOk(s: State, i: int, j: int) {
    Live(s, i) && Live(s, j) && s.conns[i].peerId == s.conns[j].id && s.conns[i].id < s.conns[j].id ==>
      var c, d := s.conns[i], s.conns[j];
      c.localIp == 0 && c.peerIp == d.localIp == d.peerIp && c.peerPort == d.localPort && c.localPort == d.peerPort
  }

  ghost predicate Paired(s: State) {
    forall i, j :: PairOk(s, i, j)
  }

  predicate SameEnd(c: Conn, d: Conn) {
    && c.id == d.id && c.peerId == d.peerId && c.localIp == d.localIp && c.localPort == d.localPort
    && c.peerIp == d.peerIp && c.peerPort == d.peerPort
  }

  lemma SameEndsPaired(s: State, s': State)
    requires Paired(s) && |s'.conns| == |s.conns|
    requires forall i | Live(s', i) :: Live(s, i) && SameEnd(s.conns[i], s'.conns[i])
    ensures Paired(s')
  {
    forall i, j ensures PairOk(s', i, j) { assert PairOk(s, i, j); }
  }

  lemma PeersIssued(s: State, i: int)
    requires Inv(s) && Live(s, i)
    ensures s.conns[i].peerId < s.nextId && s.conns[i].id < s.nextId
  {
    assert SlotOk(s, i) && PartnersMatch(s, s.conns[i].id);
    if s.conns[i].id in s.partner { assert PartnersMatch(s, s.partner[s.conns[i].id]); }
  }

  lemma ListenPairs(s: State, port: nat)
    requires Inv(s) && Paired(s)
    ensures Paired(DoListen(s, port).s)
  {
    var s' := DoListen(s, port).s;
    var a := FindFree(s.conns);
    if a < |s.conns| {
      forall i, j ensures PairOk(s', i, j) {
        assert PairOk(s, i, j);
        if Live(s, i) { PeersIssued(s, i); }
        if Live(s, j) { assert SlotOk(s, j); }
      }
    }
  }

  lemma NewEndsPaired(s: State, s': State, a: nat, b: nat, dstIp: nat, dstPort: nat, srcPort: nat)
    requires Inv(s) && Paired(s) && SecondFree(s, a, b)
    requires s'.conns == s.conns[a := ClientEnd(s.nextId, dstIp, dstPort, srcPort)]
                                [b := ServerEnd(s.nextId + 1, dstIp, dstPort, srcPort)]
    ensures Paired(s')
  {
    forall i, j ensures PairOk(s', i, j) {
      assert PairOk(s, i, j);
      if Live(s, i) { PeersIssued(s, i); }
      if Live(s, j) { PeersIssued(s, j); }
    }
  }

  lemma ConnectEndsPaired(s: State, dstIp: nat, dstPort: nat, srcPort: nat)
    requires Inv(s) && Paired(s)
    ensures Paired(DoConnect(s, dstIp, dstPort, srcPort).s)
  {
    var s' := DoConnect(s, dstIp, dstPort, srcPort).s;
    ConnectIs(s, dstIp, dstPort, srcPort);
    ConnectKeeps(s, dstIp, dstPort, srcPort);
    if Listens(s, dstPort) {
      if a: nat, b: nat :| SecondFree(s, a, b) {
        NewEndsPaired(s, s', a, b, dstIp, dstPort, srcPort);
      } else {
        SameEndsPaired(s, s');
      }
    }
  }

  lemma {:induction false} RunsPair(s: State, calls: seq<Call>)
    requires Inv(s) && Paired(s)
    ensures Paired(Run(s, calls))
  {
    if calls != [] {
      var t := Run(s, calls[..|calls| - 1]);
      RunsKeep(s, calls[..|calls| - 1]);
      RunsPair(s, calls[..|calls| - 1]);
      CallPairs(t, calls[|calls| - 1]);
    }
  }

  lemma CallPairs(s: State, c: Call)
    requires Inv(s) && Paired(s)
    ensures Paired(Apply(s, c))
  {
    match c
    case CallListen(port) => ListenPairs(s, port);
    case CallConnect(ip, dp, sp) => ConnectEndsPaired(s, ip, dp, sp);
    case _ => SameEndsPaired(s, Apply(s, c));
  }
}
