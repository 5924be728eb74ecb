/** The IP index: complete between datagrams, and never read. */
module RelayIndex {
  import opened Wrappers
  import opened RelayState
  import opened RelayProtocol

  /** Every live endpoint's IP is a key of the index, except perhaps that of a
      node whose REGISTER has not reached its second section. */
  ghost predicate Covered(s: State) {
    forall id :: id in s.nodes && s.nodes[id].wgAddr.Some? ==>
      var ip := s.nodes[id].wgAddr.value.ip;
      ip in s.index || (s.loop.Indexing? && s.loop.id == id && s.loop.from.ip == ip)
  }

  lemma CoveredStep(s: State, a: Action)
    requires Inv(s) && Covered(s) && Enabled(s, a)
    ensures Covered(Next(s, a))
  {
  }

  /** Every live node has an endpoint whose IP is a key of the index. */
  predicate Indexed(s: State) {
    forall id :: id in s.nodes ==> s.nodes[id].wgAddr.Some? && s.nodes[id].wgAddr.value.ip in s.index
  }

  /** Between datagrams every live endpoint's IP is a key of the index, wherever
      the reaper is. */
  lemma {:induction false} IndexCoversLiveIps(ss: seq<State>, acts: seq<Action>, n: nat)
    requires Run(ss, acts) && n < |ss|
    ensures Covered(ss[n])
    ensures ss[n].loop.Idle? ==> Indexed(ss[n])
  {
    InvRun(ss, acts, n);
    if n > 0 {
      IndexCoversLiveIps(ss, acts, n - 1);
      InvRun(ss, acts, n - 1);
      assert Enabled(ss[n - 1], acts[n - 1]);
      CoveredStep(ss[n - 1], acts[n - 1]);
    }
  }

  /** The second section of a REGISTER maps the sender's IP to the node, and maps no
      other IP anew. */
  lemma IpIsIndexed(s: State)
    requires Enabled(s, RegisterIp)
    ensures Next(s, RegisterIp).index == s.index[s.loop.from.ip := s.loop.id]
    ensures Next(s, RegisterIp).nodes == s.nodes
  {
  }

  // ------------------------------------------ the rebuild and the hash order

  /** What the rebuild leaves when the map is iterated in the given order. */
  function Filled(nodes: Nodes, order: seq<Id>): map<IpAddr, Id> {
    if order == [] then map[]
    else
      var rest, id := Filled(nodes, order[..|order| - 1]), order[|order| - 1];
      if id in nodes && nodes[id].wgAddr.Some? then rest[nodes[id].wgAddr.value.ip := id] else rest
  }

  /** The index holds the IPs of the listed nodes, each mapped to one of them. */
  ghost predicate Holds(index: map<IpAddr, Id>, nodes: Nodes, order: seq<Id>) {
    && (forall ip :: ip in index ==> index[ip] in order && AtIp(nodes, index[ip], ip))
    && (forall id, ip :: id in order && AtIp(nodes, id, ip) ==> ip in index)
  }

  lemma {:induction false} FilledHolds(nodes: Nodes, order: seq<Id>)
    ensures Holds(Filled(nodes, order), nodes, order)
  {
    if order != [] {
      var first, last := order[..|order| - 1], order[|order| - 1];
      FilledHolds(nodes, first);
      assert order == first + [last];
      assert forall id :: id in order <==> id in first || id == last;
    }
  }

  lemma {:induction false} FilledByParts(nodes: Nodes, a: seq<Id>, b: seq<Id>)
    ensures Filled(nodes, a + b) == Filled(nodes, a) + Filled(nodes, b)
  {
    if b == [] {
      assert a + b == a;
    } else {
      var n := |b| - 1;
      assert (a + b)[..|a + b| - 1] == a + b[..n];
      FilledByParts(nodes, a, b[..n]);
    }
  }

  lemma ListsByParts(a: seq<Id>, b: seq<Id>, ids: set<Id>, last: set<Id>)
    requires last <= ids && Lists(a, ids - last) && Lists(b, last)
    ensures Lists(a + b, ids)
  {
    forall i, j | 0 <= i < j < |a + b| ensures (a + b)[i] != (a + b)[j] {
      assert i < |a| <= j ==> a[i] in ids - last && b[j - |a|] in last;
    }
  }

  lemma LastOnesWin(index: map<IpAddr, Id>, nodes: Nodes, others: seq<Id>, chosen: seq<Id>)
    requires Indexes(index, nodes) && Lists(chosen, index.Values) && forall id :: id in others ==> id in nodes
    ensures Filled(nodes, others + chosen) == index
  {
    FilledByParts(nodes, others, chosen);
    FilledHolds(nodes, others);
    FilledHolds(nodes, chosen);
    forall ip | ip in index ensures ip in Filled(nodes, chosen) && Filled(nodes, chosen)[ip] == index[ip] {
      assert index[ip] in chosen && AtIp(nodes, index[ip], ip);
      var id := Filled(nodes, chosen)[ip];
      assert id in index.Values && AtIp(nodes, id, ip);
    }
    forall ip | ip in Filled(nodes, others + chosen) ensures ip in index {
      assert forall id :: AtIp(nodes, id, ip) ==> ip in index;
    }
  }

  /** The relation that the protocol uses for the rebuild is exact: it allows
      precisely the indexes that some iteration order leaves. */
  lemma IndexesIffSomeOrder(index: map<IpAddr, Id>, nodes: Nodes)
    ensures Indexes(index, nodes) <==> exists order :: Lists(order, nodes.Keys) && Filled(nodes, order) == index
  {
    if order :| Lists(order, nodes.Keys) && Filled(nodes, order) == index {
      FilledHolds(nodes, order);
      assert forall id :: id in nodes && nodes[id].wgAddr.Some? ==> AtIp(nodes, id, nodes[id].wgAddr.value.ip);
    }
    if Indexes(index, nodes) {
      assert index.Values <= nodes.Keys;
      SomeOrder(nodes.Keys - index.Values, None);
      SomeOrder(index.Values, None);
      var others :| Lists(others, nodes.Keys - index.Values);
      var chosen :| Lists(chosen, index.Values);
      ListsByParts(others, chosen, nodes.Keys, index.Values);
      LastOnesWin(index, nodes, others, chosen);
    }
  }

  // ------------------------------------------------------ nothing depends on it

  /** The states agree on everything but the index. */
  predicate SameButIndex(s: State, t: State) {
    t == s.(index := t.index)
  }

  /** `tt` starts in `t`, takes the same actions as `ss` and differs from it in
      the index only; so it sends the same datagrams. */
  ghost predicate Mirrors(tt: seq<State>, t: State, ss: seq<State>, acts: seq<Action>) {
    && Path(tt, acts) && |tt| == |ss| && tt[0] == t
    && forall k :: 0 <= k < |ss| ==> SameButIndex(ss[k], tt[k]) && tt[k].sent == ss[k].sent
  }

  lemma IndexIsNotReadStep(s: State, t: State, a: Action)
    requires SameButIndex(s, t) && Enabled(s, a)
    ensures Enabled(t, a) && SameButIndex(Next(s, a), Next(t, a))
  {
  }

  /** Whatever the index holds, the same datagrams, clock, sweeps and hash
      orders make the relay send the same. */
  lemma {:induction false} IndexIsNeverRead(ss: seq<State>, acts: seq<Action>, t: State)
    requires Path(ss, acts) && SameButIndex(ss[0], t)
    ensures exists tt :: Mirrors(tt, t, ss, acts)
  {
    if acts == [] {
      assert Mirrors([t], t, ss, acts);
    } else {
      var n := |acts| - 1;
      var ss', acts', a := ss[..n + 1], acts[..n], acts[n];
      assert Path(ss', acts');
      IndexIsNeverRead(ss', acts', t);
      var tt' :| Mirrors(tt', t, ss', acts');
      IndexIsNotReadStep(ss'[n], tt'[n], a);
      var tt := tt' + [Next(tt'[n], a)];
      assert Path(tt, acts) by {
        forall k | 0 <= k < |acts| ensures Enabled(tt[k], acts[k]) && tt[k + 1] == Next(tt[k], acts[k]) {
          if k < n {
            assert acts'[k] == acts[k];
          }
        }
      }
      assert Mirrors(tt, t, ss, acts);
    }
  }
}
