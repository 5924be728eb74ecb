/** The relay's shared tables, and what each of its critical sections does to
    them. Clock readings are in nanoseconds. */
module RelayState {
  import opened Wrappers

  type Id = string

  /** IPv6 addresses are written as the number their 16 octets spell. */
  datatype IpAddr = V4(o0: Byte, o1: Byte, o2: Byte, o3: Byte) | V6(bits: nat)
  {
    predicate IsLoopback() {
      match this
      case V4(o0, _, _, _) => o0 == 127
      case V6(bits) => bits == 1
    }
  }

  datatype SocketAddr = SocketAddr(ip: IpAddr, port: nat)

  datatype NodeEntry = NodeEntry(peerIds: set<Id>, wgAddr: Option<SocketAddr>, lastActivity: nat)

  type Nodes = map<Id, NodeEntry>

  const NODE_TIMEOUT_SECS := 120

  // ------------------------------------------------------------ registration

  /** A node keeps the endpoint it has unless it has none, moves to a loopback
      address for the first time, or speaks again from the same IP. */
  predicate ShouldUpdate(current: Option<SocketAddr>, from: SocketAddr) {
    match current
    case None => true
    case Some(addr) => (from.ip.IsLoopback() && !addr.ip.IsLoopback()) || from.ip == addr.ip
  }

  /** `handle_register` while it holds `nodes`. */
  function AfterRegister(nodes: Nodes, myId: Id, peerId: Id, from: SocketAddr, now: nat): Nodes {
    var entry := if myId in nodes then nodes[myId] else NodeEntry({}, None, now);
    var addr := if ShouldUpdate(entry.wgAddr, from) then Some(from) else entry.wgAddr;
    nodes[myId := NodeEntry(entry.peerIds + {peerId}, addr, now)]
  }

  // -------------------------------------------------------------- forwarding

  predicate ExactMatch(nodes: Nodes, id: Id, from: SocketAddr) {
    id in nodes && nodes[id].wgAddr == Some(from)
  }

  predicate AtIp(nodes: Nodes, id: Id, ip: IpAddr) {
    id in nodes && nodes[id].wgAddr.Some? && nodes[id].wgAddr.value.ip == ip
  }

  predicate IpMatch(nodes: Nodes, id: Id, from: SocketAddr) {
    AtIp(nodes, id, from.ip)
  }

  /** The nodes that the lookup of `forward` may return, over every order in
      which a hash map may be iterated: any exact match; else any match by IP
      alone; else none. */
  ghost predicate Attributes(nodes: Nodes, from: SocketAddr, found: Option<Id>) {
    match found
    case Some(id) =>
      ExactMatch(nodes, id, from) || (IpMatch(nodes, id, from) && forall x :: !ExactMatch(nodes, x, from))
    case None => forall x :: !IpMatch(nodes, x, from)
  }

  /** `forward` while it holds `nodes` for the second time: the sender's
      endpoint and activity are recorded, if its entry is still there. */
  function AfterLearn(nodes: Nodes, id: Id, from: SocketAddr, now: nat): Nodes {
    if id in nodes then nodes[id := nodes[id].(wgAddr := Some(from), lastActivity := now)] else nodes
  }

  /** The endpoints of the listed peers that have one, in the listed order. */
  function Endpoints(nodes: Nodes, order: seq<Id>): seq<SocketAddr> {
    if order == [] then []
    else
      var rest := Endpoints(nodes, order[1..]);
      if order[0] in nodes && nodes[order[0]].wgAddr.Some? then [nodes[order[0]].wgAddr.value] + rest else rest
  }

  // ------------------------------------------------------------------ reaping

  /** `Instant::duration_since(..).as_secs()`: whole seconds, and zero when the
      entry was touched after the reaper read its clock. */
  function SilentSecs(tick: nat, lastActivity: nat): nat {
    if tick <= lastActivity then 0 else (tick - lastActivity) / SECOND
  }

  predicate Keeps(e: NodeEntry, tick: nat) {
    SilentSecs(tick, e.lastActivity) < NODE_TIMEOUT_SECS
  }

  function Retained(nodes: Nodes, tick: nat): Nodes {
    map id | id in nodes && Keeps(nodes[id], tick) :: nodes[id]
  }

  /** An index that the rebuild may leave, over every iteration order: it holds
      exactly the IPs of known endpoints, each mapped to a node at that IP. */
  ghost predicate Indexes(index: map<IpAddr, Id>, nodes: Nodes) {
    && (forall ip :: ip in index ==> AtIp(nodes, index[ip], ip))
    && (forall id :: id in nodes && nodes[id].wgAddr.Some? ==> nodes[id].wgAddr.value.ip in index)
  }
}
