/** Where the relay's tables and its outgoing datagrams come from, over every
    run: peers from REGISTERs, sends from received packets. */
module RelayFanOut {
  import opened Wrappers
  import opened RegisterMessage
  import opened RelayState
  import opened RelayProtocol

  // ------------------------------------------------------------------- peers

  /** `id` named `peer` in a REGISTER, and its entry has lived since. */
  ghost predicate NamedSinceBirth(ss: seq<State>, acts: seq<Action>, id: Id, peer: Id, n: nat)
    requires |ss| == |acts| + 1 && n < |ss|
  {
    exists i :: 0 <= i < n && Names(ss[i], acts[i], id, peer) && Live(ss, id, i + 1, n)
  }

  lemma PeerStep(s: State, a: Action, id: Id, peer: Id)
    requires Enabled(s, a) && id in s.nodes && id in Next(s, a).nodes
    ensures peer in Next(s, a).nodes[id].peerIds <==> peer in s.nodes[id].peerIds || Names(s, a, id, peer)
  {
  }

  /** A live node's peers are exactly those it named since its entry was made. */
  lemma {:induction false} PeersAreThoseNamed(ss: seq<State>, acts: seq<Action>, id: Id, peer: Id, n: nat)
    requires Run(ss, acts) && n < |ss| && id in ss[n].nodes
    ensures peer in ss[n].nodes[id].peerIds <==> NamedSinceBirth(ss, acts, id, peer, n)
  {
    hide Next, Enabled;
    var m := n - 1;
    if id in ss[m].nodes {
      PeersAreThoseNamed(ss, acts, id, peer, m);
      PeerStep(ss[m], acts[m], id, peer);
      if NamedSinceBirth(ss, acts, id, peer, m) {
        var i :| 0 <= i < m && Names(ss[i], acts[i], id, peer) && Live(ss, id, i + 1, m);
        assert Live(ss, id, i + 1, n);
      }
      if NamedSinceBirth(ss, acts, id, peer, n) {
        var i :| 0 <= i < n && Names(ss[i], acts[i], id, peer) && Live(ss, id, i + 1, n);
        assert i < m ==> Live(ss, id, i + 1, m);
      }
      if Names(ss[m], acts[m], id, peer) {
        assert Live(ss, id, m + 1, n);
      }
    } else {
      BirthStep(ss[m], acts[m], id);
      assert Names(ss[m], acts[m], id, peer) <==> peer in ss[n].nodes[id].peerIds;
      assert Live(ss, id, m + 1, n);
    }
  }

  /** What a client prints for two issued ids is handled as the REGISTER of the
      first for the second, and as nothing else. */
  lemma IssuedRegisterIsHandled(s: State, mine: seq<Byte>, peer: seq<Byte>, id: Id, named: Id)
    requires s.loop.Got? && s.loop.msg == Print(NodeId(mine), NodeId(peer)) && !s.reaper.Sweeping?
    requires |mine| == |peer| == 8
    ensures Enabled(s, RegisterNode) && !Enabled(s, Malformed) && forall found :: !Enabled(s, Lookup(found))
    ensures Names(s, RegisterNode, id, named) <==> id == NodeId(mine) && named == NodeId(peer)
  {
    IssuedIdsSurvive(mine, peer, mine, peer);
  }

  // ----------------------------------------------------------------- fan-out

  /** The listed peers that have an endpoint, in the listed order. */
  function Reachable(nodes: Nodes, order: seq<Id>): seq<Id> {
    if order == [] then []
    else
      var rest := Reachable(nodes, order[1..]);
      if order[0] in nodes && nodes[order[0]].wgAddr.Some? then [order[0]] + rest else rest
  }

  /** `sends` carries `payload` to the current endpoint of each of `peers`. */
  ghost predicate OneSendEach(sends: seq<Sent>, payload: string, peers: seq<Id>, nodes: Nodes) {
    && |sends| == |peers|
    && forall k :: 0 <= k < |peers| ==>
        peers[k] in nodes && nodes[peers[k]].wgAddr.Some? && sends[k] == Sent(payload, nodes[peers[k]].wgAddr.value)
  }

  lemma {:induction false} EndpointsOfReachable(nodes: Nodes, order: seq<Id>, payload: string)
    ensures OneSendEach(Datagrams(payload, Endpoints(nodes, order)), payload, Reachable(nodes, order), nodes)
    ensures forall x :: x in Reachable(nodes, order) <==> x in order && x in nodes && nodes[x].wgAddr.Some?
  {
    if order != [] {
      EndpointsOfReachable(nodes, order[1..], payload);
      assert order == [order[0]] + order[1..];
    }
  }

  lemma {:induction false} ReachableHasNoRepeats(nodes: Nodes, order: seq<Id>)
    requires NoRepeats(order)
    ensures NoRepeats(Reachable(nodes, order))
  {
    if order != [] {
      ReachableHasNoRepeats(nodes, order[1..]);
      var rest := Reachable(nodes, order[1..]);
      EndpointsOfReachable(nodes, order[1..], "");
      assert order[0] !in rest;
      assert NoRepeats([order[0]] + rest);
    }
  }

  /** Between `s` and `s'` the packet being handled is sent to each of `peers`,
      and to nobody else. */
  ghost predicate FansOut(s: State, s': State, peers: seq<Id>) {
    && s.loop.Learning? && s.sent <= s'.sent
    && OneSendEach(s'.sent[|s.sent|..], s.loop.payload, peers, s'.nodes)
  }

  lemma FanOutStep(s: State, a: Action, id: Id)
    requires Enabled(s, a) && Accepts(s, a, id)
    ensures Next(s, a).nodes.Keys == s.nodes.Keys
    ensures Next(s, a).nodes[id].peerIds == s.nodes[id].peerIds
    ensures Lists(a.order, s.nodes[id].peerIds)
    ensures FansOut(s, Next(s, a), Reachable(Next(s, a).nodes, a.order))
  {
    var nodes := Next(s, a).nodes;
    EndpointsOfReachable(nodes, a.order, s.loop.payload);
    assert Next(s, a).sent[|s.sent|..] == Datagrams(s.loop.payload, Endpoints(nodes, a.order));
  }

  /** An accepted packet is sent once to each live peer that its sender named,
      at that peer's current endpoint, and to nobody else. */
  lemma AcceptedPacketReachesEachLivePeerOnce(ss: seq<State>, acts: seq<Action>, n: nat, id: Id)
    requires Run(ss, acts) && n < |acts| && Accepts(ss[n], acts[n], id)
    ensures exists peers :: Lists(peers, ss[n].nodes[id].peerIds * ss[n].nodes.Keys) && FansOut(ss[n], ss[n + 1], peers)
  {
    hide Next, Enabled, FansOut, Endpoints;
    InvRun(ss, acts, n + 1);
    FanOutStep(ss[n], acts[n], id);
    var order, nodes := acts[n].order, ss[n + 1].nodes;
    var peers := Reachable(nodes, order);
    EndpointsOfReachable(nodes, order, "");
    ReachableHasNoRepeats(nodes, order);
    assert Lists(peers, ss[n].nodes[id].peerIds * ss[n].nodes.Keys);
  }

  // -------------------------------------------------------------- provenance

  /** Among the first `n` actions is the receipt of a datagram from `addr`. */
  ghost predicate HeardFrom(acts: seq<Action>, n: nat, addr: SocketAddr)
    requires n <= |acts|
  {
    exists i :: 0 <= i < n && acts[i].Receive? && acts[i].from == addr
  }

  predicate IsRegisterFrom(a: Action, addr: SocketAddr) {
    a.Receive? && a.from == addr && IsRegister(a.msg)
  }

  /** Among the first `n` actions is the receipt of a REGISTER from `addr`. */
  ghost predicate RegisteredFrom(acts: seq<Action>, n: nat, addr: SocketAddr)
    requires n <= |acts|
  {
    exists i :: 0 <= i < n && IsRegisterFrom(acts[i], addr)
  }

  /** Among the first `n` actions is the receipt that explains what `d` says:
      a REGISTER that it acknowledges, or the packet that it copies. */
  ghost predicate Explained(acts: seq<Action>, n: nat, d: Sent)
    requires n <= |acts|
  {
    exists i :: 0 <= i < n && acts[i].Receive? &&
      if IsRegister(acts[i].msg) then d == Sent("OK", acts[i].from) else d.payload == acts[i].msg
  }

  ghost predicate Provenance(s: State, acts: seq<Action>, n: nat)
    requires n <= |acts|
  {
    && (forall id :: id in s.nodes && s.nodes[id].wgAddr.Some? ==> HeardFrom(acts, n, s.nodes[id].wgAddr.value))
    && (!s.loop.Idle? ==> HeardFrom(acts, n, s.loop.from))
    && (forall j :: 0 <= j < |s.sent| ==> HeardFrom(acts, n, s.sent[j].to) && Explained(acts, n, s.sent[j]))
    && match s.loop
       case Idle => true
       case Got(msg, from) => ReceivedFrom(acts, n, msg, from)
       case Indexing(_, from) => RegisteredFrom(acts, n, from)
       case Learning(_, payload, from) => !IsRegister(payload) && ReceivedFrom(acts, n, payload, from)
  }

  ghost predicate ReceivedFrom(acts: seq<Action>, n: nat, msg: string, from: SocketAddr)
    requires n <= |acts|
  {
    exists i :: 0 <= i < n && acts[i] == Receive(msg, from)
  }

  lemma ProvenanceGrows(s: State, acts: seq<Action>, n: nat)
    requires n < |acts| && Provenance(s, acts, n)
    ensures Provenance(s, acts, n + 1)
  {
  }

  lemma {:induction false} EndpointsComeFromNodes(nodes: Nodes, order: seq<Id>, addr: SocketAddr)
    requires addr in Endpoints(nodes, order)
    ensures exists id :: id in nodes && nodes[id].wgAddr == Some(addr)
  {
    if addr in Endpoints(nodes, order[1..]) {
      EndpointsComeFromNodes(nodes, order[1..], addr);
    }
  }

  /** The datagrams that a Learn adds are explained by the packet it forwards. */
  lemma ForwardedAreExplained(s: State, a: Action, acts: seq<Action>, n: nat)
    requires n <= |acts| && Enabled(s, a) && a.Learn? && s.loop.id in s.nodes && Provenance(s, acts, n)
    ensures var sent := Next(s, a).sent;
      && s.sent <= sent
      && forall j :: |s.sent| <= j < |sent| ==> HeardFrom(acts, n, sent[j].to) && Explained(acts, n, sent[j])
  {
    var nodes := AfterLearn(s.nodes, s.loop.id, s.loop.from, s.now);
    var addrs := Endpoints(nodes, a.order);
    forall j | 0 <= j < |addrs|
      ensures HeardFrom(acts, n, addrs[j]) && Explained(acts, n, Sent(s.loop.payload, addrs[j]))
    {
      EndpointsComeFromNodes(nodes, a.order, addrs[j]);
      var id :| id in nodes && nodes[id].wgAddr == Some(addrs[j]);
      assert id != s.loop.id ==> s.nodes[id] == nodes[id];
    }
    assert forall j :: |s.sent| <= j < |Next(s, a).sent| ==>
      Next(s, a).sent[j] == Sent(s.loop.payload, addrs[j - |s.sent|]);
  }

  lemma ReceiptExplains(acts: seq<Action>, n: nat, msg: string, from: SocketAddr)
    requires n <= |acts| && ReceivedFrom(acts, n, msg, from)
    ensures HeardFrom(acts, n, from)
    ensures IsRegister(msg) ==> RegisteredFrom(acts, n, from)
  {
  }

  lemma RegisterExplainsAnswer(acts: seq<Action>, n: nat, from: SocketAddr)
    requires n <= |acts| && RegisteredFrom(acts, n, from)
    ensures Explained(acts, n, Sent("OK", from))
  {
  }

  lemma ProvenanceStep(s: State, a: Action, acts: seq<Action>, n: nat)
    requires n <= |acts| && Enabled(s, a) && Provenance(s, acts, n)
    requires a.Receive? ==> ReceivedFrom(acts, n, a.msg, a.from)
    ensures Provenance(Next(s, a), acts, n)
  {
    if a.Receive? {
      ReceiptExplains(acts, n, a.msg, a.from);
    } else if s.loop.Got? {
      ReceiptExplains(acts, n, s.loop.msg, s.loop.from);
      if IsRegister(s.loop.msg) {
        RegisterExplainsAnswer(acts, n, s.loop.from);
      }
    } else if s.loop.Indexing? {
      RegisterExplainsAnswer(acts, n, s.loop.from);
    } else if a.Learn? && s.loop.id in s.nodes {
      ForwardedAreExplained(s, a, acts, n);
    }
    hide HeardFrom, Explained, ReceivedFrom, RegisteredFrom;
  }

  /** The relay sends only to addresses that it has heard from, and says only
      `OK` to a REGISTER's sender or what some received packet said. */
  lemma {:induction false} SendsAreProvoked(ss: seq<State>, acts: seq<Action>, n: nat)
    requires Run(ss, acts) && n < |ss|
    ensures Provenance(ss[n], acts, n)
    ensures forall j :: 0 <= j < |ss[n].sent| ==>
      HeardFrom(acts, n, ss[n].sent[j].to) && Explained(acts, n, ss[n].sent[j])
  {
    if n > 0 {
      SendsAreProvoked(ss, acts, n - 1);
      InvRun(ss, acts, n - 1);
      assert Enabled(ss[n - 1], acts[n - 1]) && ss[n] == Next(ss[n - 1], acts[n - 1]);
      ProvenanceGrows(ss[n - 1], acts, n - 1);
      ProvenanceStep(ss[n - 1], acts[n - 1], acts, n);
    }
  }

  // --------------------------------------------------------- acknowledgements

  /** The number of REGISTERs from `addr` among the first `n` actions. */
  function RegistersFrom(acts: seq<Action>, addr: SocketAddr, n: nat): nat
    requires n <= |acts|
  {
    if n == 0 then 0
    else RegistersFrom(acts, addr, n - 1) + if IsRegisterFrom(acts[n - 1], addr) then 1 else 0
  }

  /** 1 while the loop is handling a REGISTER from `addr`. */
  function Pending(s: State, addr: SocketAddr): nat {
    match s.loop
    case Got(msg, from) => if from == addr && IsRegister(msg) then 1 else 0
    case Indexing(_, from) => if from == addr then 1 else 0
    case _ => 0
  }

  /** How often `OK` has been sent to `addr`. */
  function OksSent(s: State, addr: SocketAddr): nat {
    multiset(s.sent)[Sent("OK", addr)]
  }

  /** How often a step copies to `addr` a packet that itself reads `OK`. */
  ghost function OksCopied(s: State, a: Action, addr: SocketAddr): nat
    requires Enabled(s, a)
  {
    if a.Learn? && s.loop.payload == "OK" then OksSent(Next(s, a), addr) - OksSent(s, addr) else 0
  }

  ghost function AllOksCopied(ss: seq<State>, acts: seq<Action>, addr: SocketAddr, n: nat): nat
    requires Path(ss, acts) && n < |ss|
  {
    if n == 0 then 0 else AllOksCopied(ss, acts, addr, n - 1) + OksCopied(ss[n - 1], acts[n - 1], addr)
  }

  lemma LearnAppends(s: State, a: Action)
    requires Enabled(s, a) && a.Learn?
    ensures exists more :: Next(s, a).sent == s.sent + more && forall d :: d in more ==> d.payload == s.loop.payload
  {
    if s.loop.id in s.nodes {
      var more := Datagrams(s.loop.payload, Endpoints(Next(s, a).nodes, a.order));
      assert Next(s, a).sent == s.sent + more;
    } else {
      assert Next(s, a).sent == s.sent + [];
    }
  }

  lemma OksSentStep(s: State, a: Action, addr: SocketAddr)
    requires Enabled(s, a)
    ensures OksSent(Next(s, a), addr) + Pending(Next(s, a), addr) ==
            OksSent(s, addr) + Pending(s, addr) + OksCopied(s, a, addr) + if IsRegisterFrom(a, addr) then 1 else 0
  {
    if a.Learn? {
      LearnAppends(s, a);
      var more :| Next(s, a).sent == s.sent + more && forall d :: d in more ==> d.payload == s.loop.payload;
      assert multiset(s.sent + more) == multiset(s.sent) + multiset(more);
    }
  }

  /** Every REGISTER is answered, once: the `OK`s sent to an address number the
      REGISTERs received from it, less the one in hand, plus the copies of packets
      that read `OK` themselves; there are none if no such packet was received. */
  lemma {:induction false} RegistersAreAnswered(ss: seq<State>, acts: seq<Action>, n: nat, addr: SocketAddr)
    requires Run(ss, acts) && n < |ss|
    ensures OksSent(ss[n], addr) + Pending(ss[n], addr) ==
            RegistersFrom(acts, addr, n) + AllOksCopied(ss, acts, addr, n)
    ensures (forall m :: 0 <= m < n && acts[m].Receive? ==> acts[m].msg != "OK") ==>
            AllOksCopied(ss, acts, addr, n) == 0
  {
    hide Next, Enabled;
    if n > 0 {
      RegistersAreAnswered(ss, acts, n - 1, addr);
      OksSentStep(ss[n - 1], acts[n - 1], addr);
      if OksCopied(ss[n - 1], acts[n - 1], addr) != 0 {
        CopiesWereReceived(ss, acts, n - 1, addr);
      }
    }
  }

  lemma CopiesWereReceived(ss: seq<State>, acts: seq<Action>, k: nat, addr: SocketAddr)
    requires Run(ss, acts) && k < |acts| && OksCopied(ss[k], acts[k], addr) != 0
    ensures exists m :: 0 <= m < k && acts[m].Receive? && acts[m].msg == "OK"
  {
    SendsAreProvoked(ss, acts, k);
  }
}
