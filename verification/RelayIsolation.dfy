/** Isolation: if every REGISTER comes from an IP that its node owns, packets
    reach only the peers that their sender named. */
module RelayIsolation {
  import opened Wrappers
  import opened RegisterMessage
  import opened RelayState
  import opened RelayProtocol
  import opened RelayEndpoints
  import opened RelayFanOut

  lemma FannedOutTo(s: State, s': State, peers: seq<Id>, j: nat)
    requires FansOut(s, s', peers) && |s.sent| <= j < |s'.sent|
    ensures s'.sent[j].payload == s.loop.payload
    ensures exists id :: id in peers && EndpointOf(s', id) == Some(s'.sent[j].to)
  {
    var k := j - |s.sent|;
    assert s'.sent[|s.sent|..][k] == s'.sent[j];
    assert peers[k] in peers;
  }

  /** What a step sends for an accepted packet goes to the IPs of peers that the
      owner of the packet's source IP has named since its entry was made. */
  lemma AcceptedPacketReachesOnlyNamedPeers(
      owner: IpAddr -> Id, ss: seq<State>, acts: seq<Action>, n: nat, id: Id, j: nat)
    requires Run(ss, acts) && HonestRun(owner, acts) && n < |acts| && Accepts(ss[n], acts[n], id)
    requires |ss[n].sent| <= j < |ss[n + 1].sent|
    ensures id == owner(ss[n].loop.from.ip)
    ensures ss[n + 1].sent[j].payload == ss[n].loop.payload
    ensures NamedSinceBirth(ss, acts, id, owner(ss[n + 1].sent[j].to.ip), n)
  {
    hide Next, Enabled, FansOut;
    OwnedRun(owner, ss, acts, n);
    OwnedRun(owner, ss, acts, n + 1);
    AcceptedPacketReachesEachLivePeerOnce(ss, acts, n, id);
    var peers :| Lists(peers, ss[n].nodes[id].peerIds * ss[n].nodes.Keys) && FansOut(ss[n], ss[n + 1], peers);
    FannedOutTo(ss[n], ss[n + 1], peers, j);
    var peer :| peer in peers && EndpointOf(ss[n + 1], peer) == Some(ss[n + 1].sent[j].to);
    PeersAreThoseNamed(ss, acts, id, peer, n);
  }

  /** `d` is a copy of the data packet received at step `i`, and at step `k` the
      owner of that packet's source IP had, in an entry that still lived, named
      the owner of the IP that `d` is sent to. */
  ghost predicate CopiedFor(owner: IpAddr -> Id, ss: seq<State>, acts: seq<Action>, d: Sent, i: nat, k: nat)
    requires |ss| == |acts| + 1 && i < k < |ss|
  {
    && acts[i].Receive? && acts[i].msg == d.payload && !IsRegister(d.payload)
    && NamedSinceBirth(ss, acts, owner(acts[i].from.ip), owner(d.to.ip), k)
  }

  /** `d` answers a REGISTER, or is a copy sent to a named peer. */
  ghost predicate Warranted(owner: IpAddr -> Id, ss: seq<State>, acts: seq<Action>, d: Sent, n: nat)
    requires |ss| == |acts| + 1 && n < |ss|
  {
    || (d.payload == "OK" && RegisteredFrom(acts, n, d.to))
    || exists i: nat, k: nat :: i < k < n && CopiedFor(owner, ss, acts, d, i, k)
  }

  /** What one step adds to the sent datagrams. */
  lemma SendsStep(s: State, a: Action)
    requires Enabled(s, a)
    ensures var sent, sent' := s.sent, Next(s, a).sent;
      || sent' == sent
      || (sent' == sent + [Sent("OK", s.loop.from)] && (s.loop.Indexing? || (s.loop.Got? && IsRegister(s.loop.msg))))
      || (sent <= sent' && s.loop.Learning? && Accepts(s, a, s.loop.id))
  {
  }

  lemma AnsweredWasReceived(ss: seq<State>, acts: seq<Action>, n: nat)
    requires Run(ss, acts) && n < |acts|
    requires ss[n].loop.Indexing? || (ss[n].loop.Got? && IsRegister(ss[n].loop.msg))
    ensures RegisteredFrom(acts, n, ss[n].loop.from)
  {
    SendsAreProvoked(ss, acts, n);
    if ss[n].loop.Got? {
      ReceiptExplains(acts, n, ss[n].loop.msg, ss[n].loop.from);
    }
  }

  lemma WarrantedLater(owner: IpAddr -> Id, ss: seq<State>, acts: seq<Action>, d: Sent, n: nat)
    requires |ss| == |acts| + 1 && n < |acts| && Warranted(owner, ss, acts, d, n)
    ensures Warranted(owner, ss, acts, d, n + 1)
  {
    hide CopiedFor;
  }

  lemma NewSendsAreWarranted(owner: IpAddr -> Id, ss: seq<State>, acts: seq<Action>, n: nat, j: nat)
    requires Run(ss, acts) && HonestRun(owner, acts) && n < |acts| && |ss[n].sent| <= j < |ss[n + 1].sent|
    ensures Warranted(owner, ss, acts, ss[n + 1].sent[j], n + 1)
  {
    hide Next, Enabled, NamedSinceBirth;
    var s, d := ss[n], ss[n + 1].sent[j];
    SendsStep(s, acts[n]);
    if s.loop.Learning? {
      AcceptedPacketReachesOnlyNamedPeers(owner, ss, acts, n, s.loop.id, j);
      SendsAreProvoked(ss, acts, n);
      var i :| 0 <= i < n && acts[i] == Receive(s.loop.payload, s.loop.from);
      assert CopiedFor(owner, ss, acts, d, i, n);
    } else {
      AnsweredWasReceived(ss, acts, n);
    }
  }

  /** Over a whole run, every datagram sent is the `OK` to the sender of a REGISTER
      or a copy of a data packet, to the IP of a peer that the owner of the packet's
      source IP had named. */
  lemma {:induction false} PacketsReachOnlyNamedPeers(
      owner: IpAddr -> Id, ss: seq<State>, acts: seq<Action>, n: nat, j: nat)
    requires Run(ss, acts) && HonestRun(owner, acts) && n < |ss| && j < |ss[n].sent|
    ensures Warranted(owner, ss, acts, ss[n].sent[j], n)
  {
    hide Next, Enabled, Warranted;
    SendsStep(ss[n - 1], acts[n - 1]);
    if j < |ss[n - 1].sent| {
      PacketsReachOnlyNamedPeers(owner, ss, acts, n - 1, j);
      WarrantedLater(owner, ss, acts, ss[n].sent[j], n - 1);
    } else {
      NewSendsAreWarranted(owner, ss, acts, n - 1, j);
    }
  }
}
