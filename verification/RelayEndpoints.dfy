/** What endpoint learning guarantees over every run of the relay: whose IP an
    endpoint has, which port, and to whom packets are attributed. */
module RelayEndpoints {
  import opened Wrappers
  import opened RegisterMessage
  import opened RelayState
  import opened RelayProtocol

  function EndpointOf(s: State, id: Id): Option<SocketAddr> {
    if id in s.nodes then s.nodes[id].wgAddr else None
  }

  function IpOf(s: State, id: Id): Option<IpAddr> {
    match EndpointOf(s, id)
    case Some(addr) => Some(addr.ip)
    case None => None
  }

  /** The sender of the datagram that the loop is handling. */
  function Source(s: State): Option<SocketAddr> {
    if s.loop.Idle? then None else Some(s.loop.from)
  }

  function SourceIp(s: State): Option<IpAddr> {
    if s.loop.Idle? then None else Some(s.loop.from.ip)
  }

  // ------------------------------------------------ the IP of a live endpoint

  /** The action is a REGISTER of `id` from a loopback address, while its
      endpoint is not on one. */
  predicate MovesToLoopback(s: State, a: Action, id: Id) {
    && Registers(s, a, id)
    && s.loop.from.ip.IsLoopback()
    && IpOf(s, id).Some? && !IpOf(s, id).value.IsLoopback()
  }

  lemma IpStep(s: State, a: Action, id: Id)
    requires Inv(s) && Enabled(s, a) && id in s.nodes && id in Next(s, a).nodes
    ensures IpOf(Next(s, a), id) == if MovesToLoopback(s, a, id) then SourceIp(s) else IpOf(s, id)
  {
  }

  /** From state `i` to state `j` the IP changes only on entering state `k`;
      `k == i` says that it never does. */
  ghost predicate ChangesOnlyAt(ss: seq<State>, acts: seq<Action>, id: Id, i: nat, k: nat, j: nat)
    requires |ss| == |acts| + 1 && j < |ss|
  {
    && i <= k <= j
    && (forall m :: i <= m < k ==> IpOf(ss[m], id) == IpOf(ss[i], id))
    && (forall m :: k <= m <= j ==> IpOf(ss[m], id) == IpOf(ss[j], id))
    && (i < k ==> MovesToLoopback(ss[k - 1], acts[k - 1], id) && IpOf(ss[j], id) == SourceIp(ss[k - 1]))
  }

  /** While an entry lives, its endpoint's IP changes at most once, and only by
      a REGISTER that moves it from a non-loopback to a loopback IP. */
  lemma {:induction false} IpMovesAtMostOnce(ss: seq<State>, acts: seq<Action>, id: Id, i: nat, j: nat)
    requires Run(ss, acts) && i <= j < |ss| && Live(ss, id, i, j)
    ensures exists k: nat :: ChangesOnlyAt(ss, acts, id, i, k, j)
  {
    hide Next, Enabled, Inv, Registers, IpOf;
    if i == j {
      assert ChangesOnlyAt(ss, acts, id, i, i, j);
    } else {
      IpMovesAtMostOnce(ss, acts, id, i, j - 1);
      var k: nat :| ChangesOnlyAt(ss, acts, id, i, k, j - 1);
      InvRun(ss, acts, j - 1);
      assert id in ss[j - 1].nodes && id in ss[j].nodes;
      IpStep(ss[j - 1], acts[j - 1], id);
      var moves := MovesToLoopback(ss[j - 1], acts[j - 1], id);
      assert ChangesOnlyAt(ss, acts, id, i, if moves then j else k, j);
    }
  }

  // ---------------------------------------------- the port of a live endpoint

  /** Step `i` is where state `n`'s endpoint of `id` comes from: the sender of
      the datagram heard then, and nothing heard since came from the same IP. */
  ghost predicate LatestFromItsIp(ss: seq<State>, acts: seq<Action>, id: Id, i: nat, n: nat)
    requires |ss| == |acts| + 1 && i < n < |ss|
  {
    && Speaks(ss[i], acts[i], id)
    && Live(ss, id, i + 1, n)
    && EndpointOf(ss[n], id) == Source(ss[i])
    && forall j :: i < j < n && Speaks(ss[j], acts[j], id) ==> SourceIp(ss[j]) != IpOf(ss[n], id)
  }

  /** Port roaming: a live endpoint is the source address of the most recent
      datagram heard from the node at that IP. */
  lemma {:induction false} EndpointIsLatestFromItsIp(ss: seq<State>, acts: seq<Action>, id: Id, n: nat)
    requires Run(ss, acts) && n < |ss| && id in ss[n].nodes
    ensures exists i: nat :: i < n && LatestFromItsIp(ss, acts, id, i, n)
  {
    hide Next, Enabled, Inv;
    var s, a := ss[n - 1], acts[n - 1];
    InvRun(ss, acts, n - 1);
    if id !in s.nodes {
      BirthStep(s, a, id);
      assert LatestFromItsIp(ss, acts, id, n - 1, n);
    } else {
      EndpointIsLatestFromItsIp(ss, acts, id, n - 1);
      var i: nat :| i < n - 1 && LatestFromItsIp(ss, acts, id, i, n - 1);
      EndpointStep(s, a, id);
      var adopted := Speaks(s, a, id) && SourceIp(s) == IpOf(ss[n], id);
      assert LatestFromItsIp(ss, acts, id, if adopted then n - 1 else i, n);
    }
  }

  lemma EndpointStep(s: State, a: Action, id: Id)
    requires Inv(s) && Enabled(s, a) && id in s.nodes && id in Next(s, a).nodes
    ensures EndpointOf(Next(s, a), id) ==
            if Speaks(s, a, id) && SourceIp(s) == IpOf(Next(s, a), id) then Source(s) else EndpointOf(s, id)
  {
  }

  // ------------------------------------------------------ correct attribution

  /** A REGISTER comes from an IP that belongs to the node it names. */
  predicate Honest(owner: IpAddr -> Id, msg: string, from: SocketAddr) {
    match Parse(msg)
    case Some((id, _)) => owner(from.ip) == id
    case None => true
  }

  ghost predicate HonestRun(owner: IpAddr -> Id, acts: seq<Action>) {
    forall k :: 0 <= k < |acts| && acts[k].Receive? ==> Honest(owner, acts[k].msg, acts[k].from)
  }

  ghost predicate Owned(owner: IpAddr -> Id, s: State) {
    && (forall id :: id in s.nodes ==> s.nodes[id].wgAddr.Some? && owner(s.nodes[id].wgAddr.value.ip) == id)
    && (s.loop.Got? ==> Honest(owner, s.loop.msg, s.loop.from))
    && (s.loop.Learning? ==> owner(s.loop.from.ip) == s.loop.id)
  }

  lemma OwnedStep(owner: IpAddr -> Id, s: State, a: Action)
    requires Owned(owner, s) && Enabled(s, a)
    requires a.Receive? ==> Honest(owner, a.msg, a.from)
    ensures Owned(owner, Next(s, a))
  {
  }

  lemma {:induction false} OwnedRun(owner: IpAddr -> Id, ss: seq<State>, acts: seq<Action>, n: nat)
    requires Run(ss, acts) && HonestRun(owner, acts) && n < |ss|
    ensures Owned(owner, ss[n])
  {
    if n > 0 {
      OwnedRun(owner, ss, acts, n - 1);
      OwnedStep(owner, ss[n - 1], acts[n - 1]);
    }
  }

  /** Whatever the hash order, a data packet is attributed to the owner of its
      source IP if that node is live there, on any port, and to nobody otherwise. */
  lemma PacketsAreAttributedToOwners(owner: IpAddr -> Id, ss: seq<State>, acts: seq<Action>, n: nat, found: Option<Id>)
    requires Run(ss, acts) && HonestRun(owner, acts) && n < |ss| && ss[n].loop.Got?
    ensures var nodes, from := ss[n].nodes, ss[n].loop.from;
      var sender := owner(from.ip);
      var live := sender in nodes && nodes[sender].wgAddr.Some? && nodes[sender].wgAddr.value.ip == from.ip;
      Attributes(nodes, from, found) <==> found == if live then Some(sender) else None
  {
    OwnedRun(owner, ss, acts, n);
    var from := ss[n].loop.from;
    assert ExactMatch(ss[n].nodes, owner(from.ip), from) || !ExactMatch(ss[n].nodes, owner(from.ip), from);
    assert IpMatch(ss[n].nodes, owner(from.ip), from) || !IpMatch(ss[n].nodes, owner(from.ip), from);
    assert forall x :: IpMatch(ss[n].nodes, x, from) ==> x == owner(from.ip);
    assert forall x :: ExactMatch(ss[n].nodes, x, from) ==> IpMatch(ss[n].nodes, x, from);
  }

  /** The endpoint of `id` has IP `ip`, and no other endpoint has. */
  ghost predicate AloneAt(nodes: Nodes, id: Id, ip: IpAddr) {
    && id in nodes && nodes[id].wgAddr.Some? && nodes[id].wgAddr.value.ip == ip
    && forall x :: x in nodes && x != id && nodes[x].wgAddr.Some? ==> nodes[x].wgAddr.value.ip != ip
  }

  /** Port roaming: a packet from the IP of one node is attributed to that node,
      whatever port it comes from. */
  lemma RoamedPacketIsAttributed(s: State, id: Id, found: Option<Id>)
    requires s.loop.Got? && !IsRegister(s.loop.msg) && !s.reaper.Sweeping? && AloneAt(s.nodes, id, s.loop.from.ip)
    ensures Enabled(s, Lookup(found)) <==> found == Some(id)
  {
    var from := s.loop.from;
    assert IpMatch(s.nodes, id, from);
    assert forall x :: IpMatch(s.nodes, x, from) ==> x == id;
    assert forall x :: ExactMatch(s.nodes, x, from) ==> x == id;
  }

  /** A packet from the very address of one node is attributed to that node, even
      if others share the IP. */
  lemma KnownAddressIsAttributed(s: State, id: Id, found: Option<Id>)
    requires s.loop.Got? && !IsRegister(s.loop.msg) && !s.reaper.Sweeping?
    requires id in s.nodes && s.nodes[id].wgAddr == Some(s.loop.from)
    requires forall x :: x in s.nodes && x != id ==> s.nodes[x].wgAddr != Some(s.loop.from)
    ensures Enabled(s, Lookup(found)) <==> found == Some(id)
  {
    assert ExactMatch(s.nodes, id, s.loop.from) && IpMatch(s.nodes, id, s.loop.from);
    assert forall x :: ExactMatch(s.nodes, x, s.loop.from) ==> x == id;
  }

  /** A packet from an IP that no endpoint has is dropped. */
  lemma UnknownIpIsDropped(s: State, found: Option<Id>)
    requires s.loop.Got? && !IsRegister(s.loop.msg) && !s.reaper.Sweeping?
    ensures (forall x :: x in s.nodes && s.nodes[x].wgAddr.Some? ==> s.nodes[x].wgAddr.value.ip != s.loop.from.ip) <==>
            Enabled(s, Lookup(None))
    ensures Enabled(s, Lookup(None)) ==> Next(s, Lookup(None)) == s.(loop := Idle)
    ensures Enabled(s, Lookup(None)) && Enabled(s, Lookup(found)) ==> found == None
  {
    var from := s.loop.from;
    assert forall x :: x in s.nodes && s.nodes[x].wgAddr.Some? && s.nodes[x].wgAddr.value.ip == from.ip ==>
      IpMatch(s.nodes, x, from);
    assert forall x :: ExactMatch(s.nodes, x, from) ==> IpMatch(s.nodes, x, from);
  }

  /** Accepting a packet leaves its sender at the packet's source, active now, with
      the peers it had, and everybody else as they were; the packet is done with. */
  lemma AcceptedPacketIsLearned(s: State, a: Action, id: Id)
    requires Enabled(s, a) && Accepts(s, a, id)
    ensures Next(s, a).nodes == s.nodes[id := NodeEntry(s.nodes[id].peerIds, Some(s.loop.from), s.now)]
    ensures Next(s, a).loop.Idle?
  {
  }

  /** In any state at all, the lookup depends on the hash order exactly when two
      nodes share the sender's address, or none has it and two share its IP. */
  lemma AttributionIsAmbiguousIff(nodes: Nodes, from: SocketAddr)
    ensures (exists f, g :: f != g && Attributes(nodes, from, f) && Attributes(nodes, from, g)) <==>
            (exists x, y :: x != y && ExactMatch(nodes, x, from) && ExactMatch(nodes, y, from)) ||
            ((forall x :: !ExactMatch(nodes, x, from)) &&
             exists x, y :: x != y && IpMatch(nodes, x, from) && IpMatch(nodes, y, from))
  {
    assert forall x :: ExactMatch(nodes, x, from) ==> IpMatch(nodes, x, from);
    if x, y :| x != y && ExactMatch(nodes, x, from) && ExactMatch(nodes, y, from) {
      assert Attributes(nodes, from, Some(x)) && Attributes(nodes, from, Some(y)) && Some(x) != Some(y);
    } else if forall x :: !ExactMatch(nodes, x, from) {
      if x, y :| x != y && IpMatch(nodes, x, from) && IpMatch(nodes, y, from) {
        assert Attributes(nodes, from, Some(x)) && Attributes(nodes, from, Some(y)) && Some(x) != Some(y);
      }
    }
  }

  // ---------------------------------------------------------- registering

  /** An IPv4 address as the number that its octets spell. */
  function Number(ip: IpAddr): nat
    requires ip.V4?
  {
    ((ip.o0 * 256 + ip.o1) * 256 + ip.o2) * 256 + ip.o3
  }

  /** In 127.0.0.0/8, or `::1`. */
  predicate OnLoopback(ip: IpAddr) {
    if ip.V4? then 0x7F00_0000 <= Number(ip) <= 0x7FFF_FFFF else ip == V6(1)
  }

  lemma LoopbackIff(ip: IpAddr)
    ensures ip.IsLoopback() <==> OnLoopback(ip)
  {
  }

  /** The node had no entry, had an endpoint at the same IP, or had one off the
      loopback and now speaks from it. */
  predicate Adopts(nodes: Nodes, id: Id, from: SocketAddr) {
    || id !in nodes || nodes[id].wgAddr.None?
    || nodes[id].wgAddr.value.ip == from.ip
    || (OnLoopback(from.ip) && !OnLoopback(nodes[id].wgAddr.value.ip))
  }

  /** A REGISTER adds the peer to those the node has named, adopts the source or
      keeps the endpoint, notes the time, and touches no other entry. */
  lemma RegisterIsStored(s: State, id: Id, peer: Id)
    requires Enabled(s, RegisterNode) && Parse(s.loop.msg) == Some((id, peer))
    ensures var before, e := s.nodes, Next(s, RegisterNode).nodes[id];
      && Next(s, RegisterNode).nodes == before[id := e]
      && e.peerIds == (if id in before then before[id].peerIds else {}) + {peer}
      && e.wgAddr == (if Adopts(before, id, s.loop.from) then Some(s.loop.from) else before[id].wgAddr)
      && e.lastActivity == s.now
  {
    LoopbackIff(s.loop.from.ip);
    if id in s.nodes && s.nodes[id].wgAddr.Some? {
      LoopbackIff(s.nodes[id].wgAddr.value.ip);
    }
  }

  // -------------------------------------------- the lookup and the hash order

  function FirstIn(order: seq<Id>, p: Id -> bool): (r: Option<Id>)
    ensures match r
            case Some(id) => id in order && p(id)
            case None => forall id :: id in order ==> !p(id)
  {
    if order == [] then None else if p(order[0]) then Some(order[0]) else FirstIn(order[1..], p)
  }

  /** What the two searches of `forward` find when the map is iterated in the
      given order. */
  function Search(nodes: Nodes, from: SocketAddr, order: seq<Id>): Option<Id> {
    match FirstIn(order, id => ExactMatch(nodes, id, from))
    case Some(id) => Some(id)
    case None => FirstIn(order, id => IpMatch(nodes, id, from))
  }

  lemma SearchAttributes(nodes: Nodes, from: SocketAddr, order: seq<Id>)
    requires forall id :: id in order <==> id in nodes
    ensures Attributes(nodes, from, Search(nodes, from, order))
  {
  }

  lemma SearchFindsFirst(nodes: Nodes, from: SocketAddr, order: seq<Id>, found: Option<Id>)
    requires Attributes(nodes, from, found)
    requires found.Some? ==> [found.value] <= order
    ensures Search(nodes, from, order) == found
  {
    if found.Some? {
      assert order[0] == found.value;
    } else {
      assert forall x :: ExactMatch(nodes, x, from) ==> IpMatch(nodes, x, from);
    }
  }

  /** The relation that the protocol uses for the lookup is exact: it allows
      precisely what some iteration order finds. */
  lemma AttributesIffSomeOrder(nodes: Nodes, from: SocketAddr, found: Option<Id>)
    ensures Attributes(nodes, from, found) <==>
            exists order :: Lists(order, nodes.Keys) && Search(nodes, from, order) == found
  {
    if order :| Lists(order, nodes.Keys) && Search(nodes, from, order) == found {
      SearchAttributes(nodes, from, order);
    }
    if Attributes(nodes, from, found) {
      SomeOrder(nodes.Keys, found);
      var order :| Lists(order, nodes.Keys) && (found.Some? ==> [found.value] <= order);
      SearchFindsFirst(nodes, from, order, found);
    }
  }

  // ------------------------------------------------------- distinct endpoints

  ghost predicate Distinct(nodes: Nodes) {
    forall x, y :: x in nodes && y in nodes && x != y ==> nodes[x].wgAddr != nodes[y].wgAddr
  }

  predicate HeldByOther(nodes: Nodes, id: Id, addr: SocketAddr) {
    exists y :: y in nodes && y != id && nodes[y].wgAddr == Some(addr)
  }

  /** The action is a REGISTER that adopts an address another node holds. */
  predicate TakesOver(s: State, a: Action) {
    && a.RegisterNode? && s.loop.Got? && Parse(s.loop.msg).Some?
    && var id := Parse(s.loop.msg).value.0;
       ShouldUpdate(EndpointOf(s, id), s.loop.from) && HeldByOther(s.nodes, id, s.loop.from)
  }

  /** Distinctness, and that nobody else holds the address being learned. */
  ghost predicate DistinctInv(s: State) {
    && Distinct(s.nodes)
    && (s.loop.Learning? ==> !HeldByOther(s.nodes, s.loop.id, s.loop.from))
  }

  lemma RegisterKeepsDistinctIff(nodes: Nodes, myId: Id, peerId: Id, from: SocketAddr, now: nat)
    requires Distinct(nodes) && forall id :: id in nodes ==> nodes[id].wgAddr.Some?
    ensures var current := if myId in nodes then nodes[myId].wgAddr else None;
      Distinct(AfterRegister(nodes, myId, peerId, from, now)) <==>
      !(ShouldUpdate(current, from) && HeldByOther(nodes, myId, from))
  {
    var nodes' := AfterRegister(nodes, myId, peerId, from, now);
    assert forall y :: y in nodes && y != myId ==> y in nodes' && nodes'[y] == nodes[y];
    var adopts := ShouldUpdate(if myId in nodes then nodes[myId].wgAddr else None, from);
    if adopts && HeldByOther(nodes, myId, from) {
      var y :| y in nodes && y != myId && nodes[y].wgAddr == Some(from);
      assert nodes'[y].wgAddr == nodes'[myId].wgAddr;
    } else {
      forall x, y | x in nodes' && y in nodes' && x != y ensures nodes'[x].wgAddr != nodes'[y].wgAddr {
        assert x != myId ==> nodes'[x] == nodes[x];
        assert y != myId ==> nodes'[y] == nodes[y];
      }
    }
  }

  /** Packets and the reaper never make two endpoints equal, because the match
      by IP alone runs only when nobody holds the sender's address; a REGISTER
      does exactly when it takes an address over. */
  lemma DistinctStep(s: State, a: Action)
    requires Inv(s) && DistinctInv(s) && Enabled(s, a)
    ensures Distinct(Next(s, a).nodes) <==> !TakesOver(s, a)
    ensures !TakesOver(s, a) ==> DistinctInv(Next(s, a))
  {
    match a {
      case RegisterNode =>
        var (id, peer) := Parse(s.loop.msg).value;
        RegisterKeepsDistinctIff(s.nodes, id, peer, s.loop.from, s.now);
      case Lookup(found) =>
        assert forall x :: x in s.nodes && s.nodes[x].wgAddr == Some(s.loop.from) ==>
          ExactMatch(s.nodes, x, s.loop.from);
      case _ =>
    }
  }

  ghost predicate AlwaysDistinct(ss: seq<State>, n: nat)
    requires n < |ss|
  {
    forall k :: 0 <= k <= n ==> Distinct(ss[k].nodes)
  }

  ghost predicate NoTakeover(ss: seq<State>, acts: seq<Action>, n: nat)
    requires n <= |acts| < |ss|
  {
    forall k :: 0 <= k < n ==> !TakesOver(ss[k], acts[k])
  }

  /** Up to any point of a run, no two live nodes ever share an endpoint if and
      only if no REGISTER so far adopted an address that another node held. */
  lemma {:induction false} EndpointsStayDistinctIff(ss: seq<State>, acts: seq<Action>, n: nat)
    requires Run(ss, acts) && n < |ss|
    ensures AlwaysDistinct(ss, n) <==> NoTakeover(ss, acts, n)
    ensures NoTakeover(ss, acts, n) ==> DistinctInv(ss[n])
  {
    if n > 0 {
      var m := n - 1;
      EndpointsStayDistinctIff(ss, acts, m);
      InvRun(ss, acts, m);
      assert AlwaysDistinct(ss, n) <==> AlwaysDistinct(ss, m) && Distinct(ss[n].nodes);
      assert NoTakeover(ss, acts, n) <==> NoTakeover(ss, acts, m) && !TakesOver(ss[m], acts[m]);
      if NoTakeover(ss, acts, m) {
        DistinctStep(ss[m], acts[m]);
      }
    }
  }

  /** Two ids that register from one socket, each for the other. */
  function SharedSocketActs(a: Id, b: Id, from: SocketAddr): seq<Action> {
    [Receive(Print(a, b), from), RegisterNode, RegisterIp, Receive(Print(b, a), from), RegisterNode]
  }

  /** The last step of the run is a takeover that leaves two equal endpoints. */
  ghost predicate EndsInTakeover(ss: seq<State>, acts: seq<Action>) {
    && Run(ss, acts) && acts != []
    && TakesOver(ss[|acts| - 1], acts[|acts| - 1]) && !Distinct(ss[|acts|].nodes)
  }

  lemma EqualEndpoints(nodes: Nodes, x: Id, y: Id)
    requires x in nodes && y in nodes && x != y && nodes[x].wgAddr == nodes[y].wgAddr
    ensures !Distinct(nodes)
  {
  }

  /** Takeovers do happen. */
  lemma SharedSocketTakesOver(s: State, a: Id, b: Id, from: SocketAddr)
    requires Init(s) && a != b && ':' !in a && ':' !in b
    ensures exists ss :: ss != [] && ss[0] == s && EndsInTakeover(ss, SharedSocketActs(a, b, from))
  {
    hide Parse, Print, IsRegister, Distinct;
    var acts := SharedSocketActs(a, b, from);
    RoundTripIffColonFree(a, b);
    RoundTripIffColonFree(b, a);
    var s1 := Next(s, acts[0]);
    var s2 := Next(s1, acts[1]);
    var s3 := Next(s2, acts[2]);
    var s4 := Next(s3, acts[3]);
    assert a in s4.nodes && s4.nodes[a].wgAddr == Some(from) && b !in s4.nodes;
    assert TakesOver(s4, acts[4]);
    var s5 := Next(s4, acts[4]);
    EqualEndpoints(s5.nodes, a, b);
    var ss := [s, s1, s2, s3, s4, s5];
    assert Path(ss, acts);
    assert EndsInTakeover(ss, acts);
  }
}
