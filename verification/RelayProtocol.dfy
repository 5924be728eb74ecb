/** The relay as a protocol of two tasks. The datagram loop handles one packet
    at a time and the reaper interleaves with it wherever neither holds a lock
    that the other needs. One action is one critical section, one receive, or
    the passing of time. */
module RelayProtocol {
  import opened Wrappers
  import opened RegisterMessage
  import opened RelayState

  /** Where the datagram loop is. */
  datatype Loop =
    | Idle
    | Got(msg: string, from: SocketAddr)
    | Indexing(id: Id, from: SocketAddr)
    | Learning(id: Id, payload: string, from: SocketAddr)

  /** Where the reaper is. While `Sweeping` it holds `nodes` and waits for
      `ip_index`. */
  datatype Reaper = Sleeping | Ticked(at: nat) | Sweeping

  datatype Sent = Sent(payload: string, to: SocketAddr)

  /** `sent` (every datagram sent so far) and `swept` (the clock reading of the
      latest sweep) record history; no action reads them. */
  datatype State = State(
    nodes: Nodes, index: map<IpAddr, Id>, loop: Loop, reaper: Reaper, now: nat,
    sent: seq<Sent>, swept: nat)

  datatype Action =
    | Advance(elapsed: nat)
    | Receive(msg: string, from: SocketAddr)
    | RegisterNode
    | RegisterIp
    | Malformed
    | Lookup(found: Option<Id>)
    | Learn(order: seq<Id>)
    | Tick
    | Sweep
    | Rebuild(index: map<IpAddr, Id>)

  predicate Init(s: State) {
    s.nodes == map[] && s.index == map[] && s.loop == Idle && s.reaper == Sleeping && s.sent == [] && s.swept == s.now
  }

  ghost predicate Enabled(s: State, a: Action) {
    match a
    case Advance(_) => true
    case Receive(_, _) => s.loop.Idle?
    case RegisterNode => s.loop.Got? && Parse(s.loop.msg).Some? && !s.reaper.Sweeping?
    case RegisterIp => s.loop.Indexing?
    case Malformed => s.loop.Got? && IsRegister(s.loop.msg) && Parse(s.loop.msg).None?
    case Lookup(found) =>
      s.loop.Got? && !IsRegister(s.loop.msg) && !s.reaper.Sweeping? && Attributes(s.nodes, s.loop.from, found)
    case Learn(order) =>
      && s.loop.Learning? && !s.reaper.Sweeping?
      && (s.loop.id in s.nodes ==> Lists(order, s.nodes[s.loop.id].peerIds))
    case Tick => s.reaper.Sleeping?
    case Sweep => s.reaper.Ticked?
    case Rebuild(index) => s.reaper.Sweeping? && Indexes(index, s.nodes)
  }

  function Datagrams(payload: string, addrs: seq<SocketAddr>): (r: seq<Sent>)
    ensures |r| == |addrs|
    ensures forall k :: 0 <= k < |r| ==> r[k] == Sent(payload, addrs[k])
  {
    seq(|addrs|, k requires 0 <= k < |addrs| => Sent(payload, addrs[k]))
  }

  ghost function Next(s: State, a: Action): State
    requires Enabled(s, a)
  {
    match a
    case Advance(d) => s.(now := s.now + d)
    case Receive(msg, from) => s.(loop := Got(msg, from))
    case RegisterNode =>
      var (id, peer) := Parse(s.loop.msg).value;
      s.(nodes := AfterRegister(s.nodes, id, peer, s.loop.from, s.now), loop := Indexing(id, s.loop.from))
    case RegisterIp =>
      s.(index := s.index[s.loop.from.ip := s.loop.id], loop := Idle, sent := s.sent + [Sent("OK", s.loop.from)])
    case Malformed =>
      s.(loop := Idle, sent := s.sent + [Sent("OK", s.loop.from)])
    case Lookup(found) =>
      s.(loop := if found.None? then Idle else Learning(found.value, s.loop.msg, s.loop.from))
    case Learn(order) =>
      if s.loop.id !in s.nodes then s.(loop := Idle)
      else
        var nodes := AfterLearn(s.nodes, s.loop.id, s.loop.from, s.now);
        s.(nodes := nodes, loop := Idle, sent := s.sent + Datagrams(s.loop.payload, Endpoints(nodes, order)))
    case Tick => s.(reaper := Ticked(s.now))
    case Sweep => s.(nodes := Retained(s.nodes, s.reaper.at), reaper := Sweeping, swept := s.reaper.at)
    case Rebuild(index) => s.(index := index, reaper := Sleeping)
  }

  /** `ss` is the sequence of states that the actions `acts` lead through. */
  ghost predicate Path(ss: seq<State>, acts: seq<Action>) {
    && |ss| == |acts| + 1
    && forall k :: 0 <= k < |acts| ==> Enabled(ss[k], acts[k]) && ss[k + 1] == Next(ss[k], acts[k])
  }

  ghost predicate Run(ss: seq<State>, acts: seq<Action>) {
    Path(ss, acts) && Init(ss[0])
  }

  /** Node `id` has an entry in every state from `i` to `j`. */
  ghost predicate Live(ss: seq<State>, id: Id, i: int, j: int)
    requires 0 <= i && j < |ss|
  {
    forall k :: i <= k <= j ==> id in ss[k].nodes
  }

  /** The action is a REGISTER of `id` for `peer`. */
  predicate Names(s: State, a: Action, id: Id, peer: Id) {
    a.RegisterNode? && s.loop.Got? && Parse(s.loop.msg) == Some((id, peer))
  }

  /** The action is a REGISTER of `id`. */
  predicate Registers(s: State, a: Action, id: Id) {
    a.RegisterNode? && s.loop.Got? && Parse(s.loop.msg).Some? && Parse(s.loop.msg).value.0 == id
  }

  /** The action accepts a data packet as coming from `id`. */
  predicate Accepts(s: State, a: Action, id: Id) {
    a.Learn? && s.loop.Learning? && s.loop.id == id && id in s.nodes
  }

  /** `id` is heard from: a REGISTER, or a packet accepted as its own. */
  predicate Speaks(s: State, a: Action, id: Id) {
    Registers(s, a, id) || Accepts(s, a, id)
  }

  // --------------------------------------------------------- basic invariants

  /** Every entry has an endpoint, and a packet being learned came from the IP
      of the node that it was attributed to. */
  ghost predicate Inv(s: State) {
    && (forall id :: id in s.nodes ==> s.nodes[id].wgAddr.Some? && s.nodes[id].lastActivity <= s.now)
    && (s.loop.Learning? && s.loop.id in s.nodes ==> IpMatch(s.nodes, s.loop.id, s.loop.from))
    && (s.reaper.Ticked? ==> s.reaper.at <= s.now)
    && s.swept <= s.now
  }

  lemma InvStep(s: State, a: Action)
    requires Inv(s) && Enabled(s, a)
    ensures Inv(Next(s, a))
    ensures s.now <= Next(s, a).now
  {
  }

  lemma {:induction false} InvRun(ss: seq<State>, acts: seq<Action>, n: nat)
    requires Run(ss, acts) && n < |ss|
    ensures Inv(ss[n])
  {
    if n > 0 {
      InvRun(ss, acts, n - 1);
      InvStep(ss[n - 1], acts[n - 1]);
    }
  }

  lemma {:induction false} TimeIsMonotone(ss: seq<State>, acts: seq<Action>, i: nat, j: nat)
    requires Path(ss, acts) && i <= j < |ss|
    ensures ss[i].now <= ss[j].now
  {
    if i < j {
      TimeIsMonotone(ss, acts, i, j - 1);
      assert Enabled(ss[j - 1], acts[j - 1]);
    }
  }

  /** What one action does to the entry of a node that has one before and
      after: nothing, unless the node speaks. */
  lemma EntryStep(s: State, a: Action, id: Id)
    requires Inv(s) && Enabled(s, a) && id in s.nodes
    ensures var s' := Next(s, a);
      && (!a.Sweep? ==> id in s'.nodes)
      && (id in s'.nodes && !Speaks(s, a, id) ==> s'.nodes[id] == s.nodes[id])
      && (id in s'.nodes && Speaks(s, a, id) ==> s'.nodes[id].lastActivity == s.now)
  {
  }

  /** Only a REGISTER creates an entry. */
  lemma BirthStep(s: State, a: Action, id: Id)
    requires Enabled(s, a) && id !in s.nodes && id in Next(s, a).nodes
    ensures Registers(s, a, id)
    ensures Next(s, a).nodes[id] == NodeEntry({Parse(s.loop.msg).value.1}, Some(s.loop.from), s.now)
  {
  }
}
