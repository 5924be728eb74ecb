/** The relay as the program has it: two tables changed in place. There is one
    method for each critical section. */
module RelayServer {
  import opened Wrappers
  import opened RelayState

  class Relay {
    /** Node id to entry. */
    var nodes: Nodes
    /** Source IP to node id. */
    var ipIndex: map<IpAddr, Id>

    constructor ()
      ensures nodes == map[] && ipIndex == map[]
    {
      nodes := map[];
      ipIndex := map[];
    }

    /** The `nodes` section of `handle_register`. */
    method RegisterNode(from: SocketAddr, myId: Id, peerId: Id, now: nat)
      modifies this`nodes
      ensures nodes == AfterRegister(old(nodes), myId, peerId, from, now)
    {
      if myId !in nodes {
        nodes := nodes[myId := NodeEntry({}, None, now)];
      }
      var entry := nodes[myId];
      entry := entry.(peerIds := entry.peerIds + {peerId});
      var shouldUpdate;
      match entry.wgAddr {
        case None => shouldUpdate := true;
        case Some(current) =>
          shouldUpdate := (from.ip.IsLoopback() && !current.ip.IsLoopback()) || from.ip == current.ip;
      }
      if shouldUpdate {
        entry := entry.(wgAddr := Some(from));
      }
      nodes := nodes[myId := entry.(lastActivity := now)];
    }

    /** The `ip_index` section of `handle_register`. */
    method RegisterIp(from: SocketAddr, myId: Id)
      modifies this`ipIndex
      ensures ipIndex == old(ipIndex)[from.ip := myId]
    {
      ipIndex := ipIndex[from.ip := myId];
    }

    /** The first section of `forward`: two searches, each in whatever order the
        hash map gives its entries. */
    method Lookup(from: SocketAddr) returns (found: Option<Id>)
      ensures Attributes(nodes, from, found)
    {
      found := None;
      var rest := nodes.Keys;
      while rest != {} && found.None?
        invariant rest <= nodes.Keys
        invariant found.Some? ==> ExactMatch(nodes, found.value, from)
        invariant found.None? ==> forall x :: x in nodes && x !in rest ==> !ExactMatch(nodes, x, from)
        decreases rest, found.None?
      {
        var id :| id in rest;
        rest := rest - {id};
        if nodes[id].wgAddr == Some(from) {
          found := Some(id);
        }
      }
      if found.None? {
        rest := nodes.Keys;
        while rest != {} && found.None?
          invariant rest <= nodes.Keys
          invariant found.Some? ==> IpMatch(nodes, found.value, from)
          invariant found.None? ==> forall x :: x in nodes && x !in rest ==> !IpMatch(nodes, x, from)
          decreases rest, found.None?
        {
          var id :| id in rest;
          rest := rest - {id};
          match nodes[id].wgAddr {
            case Some(addr) => if addr.ip == from.ip { found := Some(id); }
            case None =>
          }
        }
      }
    }

    /** The second section of `forward`: learn the sender's endpoint and collect
        those of its peers. `None` means that the entry was reaped meanwhile. */
    method Learn(id: Id, from: SocketAddr, now: nat) returns (addrs: Option<seq<SocketAddr>>, ghost order: seq<Id>)
      modifies this`nodes
      ensures nodes == AfterLearn(old(nodes), id, from, now)
      ensures addrs.Some? <==> id in nodes
      ensures id in nodes ==> Lists(order, nodes[id].peerIds) && addrs == Some(Endpoints(nodes, order))
    {
      order := [];
      if id in nodes {
        nodes := nodes[id := nodes[id].(wgAddr := Some(from), lastActivity := now)];
      }
      if id !in nodes {
        return None, order;
      }
      var collected := [];
      var rest := nodes[id].peerIds;
      while rest != {}
        modifies {}
        invariant rest <= nodes[id].peerIds
        invariant Lists(order, nodes[id].peerIds - rest)
        invariant collected == Endpoints(nodes, order)
        decreases rest
      {
        var pid :| pid in rest;
        rest := rest - {pid};
        if pid in nodes {
          match nodes[pid].wgAddr {
            case Some(addr) => collected := collected + [addr];
            case None =>
          }
        }
        EndpointsOfAppend(nodes, order, pid);
        order := order + [pid];
      }
      addrs := Some(collected);
    }

    /** The reaper's `retain`, with the clock reading it took before it locked. */
    method Sweep(tick: nat)
      modifies this`nodes
      ensures nodes == Retained(old(nodes), tick)
    {
      var rest := nodes.Keys;
      while rest != {}
        invariant rest <= old(nodes).Keys
        invariant nodes.Keys == set id | id in old(nodes) && (id in rest || Keeps(old(nodes)[id], tick))
        invariant forall id :: id in nodes ==> nodes[id] == old(nodes)[id]
        decreases rest
      {
        var id :| id in rest;
        rest := rest - {id};
        if SilentSecs(tick, nodes[id].lastActivity) >= NODE_TIMEOUT_SECS {
          nodes := nodes - {id};
        }
      }
      assert nodes.Keys == Retained(old(nodes), tick).Keys;
    }

    /** The reaper's index rebuild: cleared, then filled from the survivors. */
    method RebuildIndex()
      modifies this`ipIndex
      ensures Indexes(ipIndex, nodes)
    {
      ipIndex := map[];
      var rest := nodes.Keys;
      while rest != {}
        invariant rest <= nodes.Keys
        invariant forall ip :: ip in ipIndex ==> AtIp(nodes, ipIndex[ip], ip)
        invariant forall id :: id in nodes && id !in rest && nodes[id].wgAddr.Some? ==>
          nodes[id].wgAddr.value.ip in ipIndex
        decreases rest
      {
        var id :| id in rest;
        rest := rest - {id};
        match nodes[id].wgAddr {
          case Some(addr) => ipIndex := ipIndex[addr.ip := id];
          case None =>
        }
      }
    }
  }

  lemma {:induction false} EndpointsOfAppend(nodes: Nodes, order: seq<Id>, pid: Id)
    ensures Endpoints(nodes, order + [pid]) ==
            Endpoints(nodes, order) + if pid in nodes && nodes[pid].wgAddr.Some? then [nodes[pid].wgAddr.value] else []
  {
    if order == [] {
      assert order + [pid] == [pid];
    } else {
      assert (order + [pid])[1..] == order[1..] + [pid];
      EndpointsOfAppend(nodes, order[1..], pid);
    }
  }
}
