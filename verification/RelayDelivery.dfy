/** From receipt to delivery: what becomes of one data packet, whatever the reaper
    does between the sections that handle it. */
module RelayDelivery {
  import opened Wrappers
  import opened RegisterMessage
  import opened RelayState
  import opened RelayProtocol
  import opened RelayEndpoints
  import opened RelayFanOut

  /** The action is not one of the datagram loop. */
  predicate Elsewhere(a: Action) {
    a.Advance? || a.Tick? || a.Sweep? || a.Rebuild?
  }

  lemma {:induction false} LoopWaits(ss: seq<State>, acts: seq<Action>, i: nat, j: nat)
    requires Path(ss, acts) && i <= j < |ss| && forall k :: i <= k < j ==> Elsewhere(acts[k])
    ensures ss[j].loop == ss[i].loop && ss[j].sent == ss[i].sent
  {
    if i < j {
      LoopWaits(ss, acts, i, j - 1);
      assert Enabled(ss[j - 1], acts[j - 1]);
    }
  }

  /** A data packet is received at step `n`, looked up at step `l` and forwarded at
      step `k`, with only the reaper and the clock acting between. */
  ghost predicate Forwards(ss: seq<State>, acts: seq<Action>, n: nat, l: nat, k: nat)
    requires Path(ss, acts)
  {
    && n < l < k < |acts|
    && acts[n].Receive? && !IsRegister(acts[n].msg) && acts[l].Lookup? && acts[k].Learn?
    && (forall i :: n < i < l ==> Elsewhere(acts[i])) && (forall i :: l < i < k ==> Elsewhere(acts[i]))
  }

  lemma LookedUp(ss: seq<State>, acts: seq<Action>, n: nat, l: nat, k: nat, id: Id)
    requires Path(ss, acts) && Forwards(ss, acts, n, l, k) && AloneAt(ss[l].nodes, id, acts[n].from.ip)
    ensures acts[l] == Lookup(Some(id))
    ensures ss[k].loop == Learning(id, acts[n].msg, acts[n].from) && ss[k].sent == ss[n].sent
  {
    assert Enabled(ss[n], acts[n]) && ss[n + 1] == Next(ss[n], acts[n]);
    LoopWaits(ss, acts, n + 1, l);
    assert Enabled(ss[l], acts[l]) && ss[l + 1] == Next(ss[l], acts[l]);
    RoamedPacketIsAttributed(ss[l], id, acts[l].found);
    LoopWaits(ss, acts, l + 1, k);
  }

  /** A packet from the IP of one node, on whatever port, is delivered once to each
      live peer that the node has named, at that peer's endpoint, and to nobody else;
      and from then on the node's own endpoint is where the packet came from. All
      this if the node still has its entry then; otherwise nothing is sent. */
  lemma RoamedPacketIsDelivered(ss: seq<State>, acts: seq<Action>, n: nat, l: nat, k: nat, id: Id)
    requires Run(ss, acts) && Forwards(ss, acts, n, l, k) && AloneAt(ss[l].nodes, id, acts[n].from.ip)
    ensures id !in ss[k].nodes ==> ss[k + 1].sent == ss[n].sent && ss[k + 1].nodes == ss[k].nodes
    ensures id in ss[k].nodes ==> EndpointOf(ss[k + 1], id) == Some(acts[n].from)
    ensures id in ss[k].nodes ==>
      exists peers ::
        Lists(peers, ss[k].nodes[id].peerIds * ss[k].nodes.Keys)
        && ss[n].sent <= ss[k + 1].sent
        && OneSendEach(ss[k + 1].sent[|ss[n].sent|..], acts[n].msg, peers, ss[k + 1].nodes)
  {
    LookedUp(ss, acts, n, l, k, id);
    assert Enabled(ss[k], acts[k]) && ss[k + 1] == Next(ss[k], acts[k]);
    if id in ss[k].nodes {
      assert Accepts(ss[k], acts[k], id);
      AcceptedPacketIsLearned(ss[k], acts[k], id);
      hide Next, Enabled, Lists, OneSendEach;
      AcceptedPacketReachesEachLivePeerOnce(ss, acts, k, id);
    }
  }

  /** A packet from an IP that no endpoint has when it is looked up is lost. */
  lemma StrangersAreIgnored(ss: seq<State>, acts: seq<Action>, n: nat, l: nat)
    requires Run(ss, acts) && n < l < |acts| && acts[n].Receive? && !IsRegister(acts[n].msg) && acts[l].Lookup?
    requires forall i :: n < i < l ==> Elsewhere(acts[i])
    requires forall x :: x in ss[l].nodes && ss[l].nodes[x].wgAddr.Some? ==>
      ss[l].nodes[x].wgAddr.value.ip != acts[n].from.ip
    ensures ss[l + 1] == ss[l].(loop := Idle) && ss[l + 1].sent == ss[n].sent
  {
    assert Enabled(ss[n], acts[n]) && ss[n + 1] == Next(ss[n], acts[n]);
    LoopWaits(ss, acts, n + 1, l);
    assert Enabled(ss[l], acts[l]) && ss[l + 1] == Next(ss[l], acts[l]);
    UnknownIpIsDropped(ss[l], acts[l].found);
  }
}
