/** The connection table, updated in place; each method is one locked call. */
module TcpTable {
  import opened Common
  import opened Tcp

  /** find_by_id. */
  method SearchId(conns: seq<Conn>, id: int) returns (i: nat)
    ensures i == FindById(conns, id)
  {
    i := 0;
    while i < |conns|
      invariant i <= |conns| && forall k | 0 <= k < i :: !(conns[k].used && conns[k].id == id)
    {
      if conns[i].used && conns[i].id == id { return; }
      i := i + 1;
    }
  }

  /** find_listener. */
  method SearchListener(conns: seq<Conn>, port: nat) returns (i: nat)
    ensures i == FindListener(conns, port)
  {
    i := 0;
    while i < |conns|
      invariant i <= |conns| && forall k | 0 <= k < i ::
          !(conns[k].used && conns[k].state == Listen && conns[k].localPort == port)
    {
      if conns[i].used && conns[i].state == Listen && conns[i].localPort == port { return; }
      i := i + 1;
    }
  }

  /** The first n bytes, copied one by one. */
  method CopyBytes(src: seq<nat>, n: nat) returns (dst: seq<nat>)
    requires n <= |src|
    ensures dst == src[..n]
  {
    dst := [];
    while |dst| < n
      invariant |dst| <= n && dst == src[..|dst|]
    {
      dst := dst + [src[|dst|]];
    }
  }

  class Connections {
    var conns: seq<Conn>
    var nextId: int
    ghost var partner: map<int, int>
    ghost var accepted: seq<int>
    ghost var log: seq<Event>

    constructor (conns: seq<Conn>)
      requires forall i | 0 <= i < |conns| :: !conns[i].used
      ensures View() == State(conns, 1, map[], [], []) && Inv(View())
    {
      this.conns, nextId := conns, 1;
      partner, accepted, log := map[], [], [];
      new;
      EmptyKeeps(conns);
    }

    ghost function View(): State
      reads this
    {
      State(conns, nextId, partner, accepted, log)
    }

    /** alloc_conn. */
    method AllocConn() returns (i: nat)
      modifies this`conns, this`nextId
      ensures View() == Alloc(old(View())) && i == FindFree(old(conns))
    {
      i := 0;
      while i < |conns|
        invariant i <= |conns| && View() == old(View()) && forall k | 0 <= k < i :: conns[k].used
      {
        if !conns[i].used {
          conns := conns[i := conns[i].(used := true, id := nextId, state := Closed, peerId := -1, rx := [])];
          nextId := nextId + 1;
          return;
        }
        i := i + 1;
      }
    }

    /** tcp_listen. */
    method ListenOn(port: nat) returns (ret: int)
      requires Inv(View())
      modifies this`conns, this`nextId
      ensures Outcome(View(), ret) == DoListen(old(View()), port) && Inv(View())
    {
      ListenKeeps(View(), port);
      var i := AllocConn();
      if i == |conns| { return EFAIL; }
      conns := conns[i := conns[i].(state := Listen, localIp := 0, localPort := port)];
      return conns[i].id;
    }

    /** tcp_connect. */
    method Connect(dstIp: nat, dstPort: nat, srcPort: nat) returns (ret: int)
      requires Inv(View())
      modifies this`conns, this`nextId, this`partner
      ensures Outcome(View(), ret) == DoConnect(old(View()), dstIp, dstPort, srcPort) && Inv(View())
      ensures Connects(old(View()), View(), ret, dstIp, dstPort, srcPort)
    {
      ghost var s := View();
      ret := ConnectEnds(dstIp, dstPort, srcPort);
      ConnectKeeps(s, dstIp, dstPort, srcPort);
      ConnectIs(s, dstIp, dstPort, srcPort);
    }

    method ConnectEnds(dstIp: nat, dstPort: nat, srcPort: nat) returns (ret: int)
      modifies this`conns, this`nextId, this`partner
      ensures Outcome(View(), ret) == DoConnect(old(View()), dstIp, dstPort, srcPort)
    {
      var l := SearchListener(conns, dstPort);
      if l == |conns| { return EFAIL; }
      var a := AllocConn();
      var b := AllocConn();
      if a == |conns| || b == |conns| {
        if a < |conns| {
          conns := conns[a := conns[a].(used := false, state := Closed, peerId := -1, rx := [])];
        }
        return EFAIL;
      }
      var cli, srv := conns[a].id, conns[b].id;
      conns := conns[a := conns[a].(state := Established, localIp := 0, peerIp := dstIp, peerPort := dstPort,
                                    localPort := srcPort, peerId := srv)];
      conns := conns[b := conns[b].(state := SynRecv, localIp := dstIp, localPort := dstPort, peerIp := dstIp,
                                    peerPort := srcPort, peerId := cli)];
      partner := partner[cli := srv][srv := cli];
      return cli;
    }

    /** tcp_accept. */
    method AcceptOn(port: nat) returns (ret: int)
      requires Inv(View())
      modifies this`conns, this`accepted
      ensures Outcome(View(), ret) == DoAccept(old(View()), port) && Inv(View())
    {
      AcceptKeeps(View(), port);
      var i: nat := 0;
      while i < |conns|
        invariant i <= |conns| && View() == old(View())
        invariant forall k | 0 <= k < i :: !(conns[k].used && conns[k].state == SynRecv && conns[k].localPort == port)
      {
        if conns[i].used && conns[i].state == SynRecv && conns[i].localPort == port {
          conns := conns[i := conns[i].(state := Established)];
          accepted := accepted + [conns[i].id];
          return conns[i].id;
        }
        i := i + 1;
      }
      return EFAIL;
    }

    /** tcp_send. */
    method Send(id: int, data: seq<nat>) returns (ret: int)
      requires Inv(View())
      modifies this`conns, this`log
      ensures Outcome(View(), ret) == DoSend(old(View()), id, data) && Inv(View())
    {
      SendKeeps(View(), id, data);
      var i := SearchId(conns, id);
      if i == |conns| || conns[i].state != Established || |data| == 0 { return EFAIL; }
      var j := SearchId(conns, conns[i].peerId);
      if j == |conns| || conns[j].state != Established { return EFAIL; }
      var n := if |data| > BUF_MAX then BUF_MAX else |data|;
      var copy := CopyBytes(data, n);
      conns := conns[j := conns[j].(rx := copy)];
      log := log + [Sent(conns[j].id, copy)];
      return n;
    }

    /** tcp_recv. */
    method Recv(id: int, cap: nat) returns (ret: int, data: seq<nat>)
      requires Inv(View())
      modifies this`conns, this`log
      ensures Delivery(View(), ret, data) == DoRecv(old(View()), id, cap) && Inv(View())
    {
      RecvKeeps(View(), id, cap);
      data := [];
      var i := SearchId(conns, id);
      if i == |conns| || conns[i].state != Established { return EFAIL, data; }
      if |conns[i].rx| == 0 { return 0, data; }
      var n := if |conns[i].rx| < cap then |conns[i].rx| else cap;
      data := CopyBytes(conns[i].rx, n);
      conns := conns[i := conns[i].(rx := [])];
      log := log + [Received(id, data)];
      return n, data;
    }

    /** tcp_close. */
    method CloseConn(id: int) returns (ret: int)
      requires Inv(View())
      modifies this`conns
      ensures Outcome(View(), ret) == DoClose(old(View()), id) && Inv(View())
    {
      CloseKeeps(View(), id);
      var i := SearchId(conns, id);
      if i == |conns| { return EFAIL; }
      conns := conns[i := conns[i].(used := false)];
      return 0;
    }
  }
}
