/** The registry over whole runs: registrations, heartbeats, endpoint reports,
    reaps, ACL changes and restarts, with any database write able to fail. */
module RegistryRuns {
  import opened Wrappers
  import opened AddressPool
  import opened RegistryState
  import Acl

  /** `beat` (the wall-clock time of each node's latest registration, heartbeat
      or endpoint report) and `reaped` (that of the latest reap) record history;
      no operation reads them. */
  datatype Sys = Sys(store: Store, clock: Clock, beat: map<Id, nat>, reaped: nat)

  /** A restart brings any new monotonic clock, `down` later on the wall. */
  datatype Op =
    | Advance(elapsed: nat)
    | Register(r: Registration, ok: bool)
    | UpdateEndpoint(id: Id, endpoint: string, ok: bool)
    | Heartbeat(id: Id, ok: bool)
    | Reap(lost: Losses)
    | ChangeAcl(change: Acl.Change, ok: bool)
    | Restart(mono: int, down: nat)

  function Next(s: Sys, op: Op): Sys {
    match op
    case Advance(d) => s.(clock := Clock(s.clock.mono + d, s.clock.wall + d))
    case Register(r, ok) =>
      s.(store := AfterRegister(s.store, r, s.clock, ok),
         beat := if Grant(s.store, r, ok).Some? then s.beat[r.id := s.clock.wall] else s.beat)
    case UpdateEndpoint(id, endpoint, ok) =>
      s.(store := AfterEndpoint(s.store, id, endpoint, s.clock, ok),
         beat := if id in s.store.nodes then s.beat[id := s.clock.wall] else s.beat)
    case Heartbeat(id, ok) =>
      s.(store := AfterHeartbeat(s.store, id, s.clock, ok),
         beat := if id in s.store.nodes then s.beat[id := s.clock.wall] else s.beat)
    case Reap(lost) => s.(store := AfterReap(s.store, s.clock, lost), reaped := s.clock.wall)
    case ChangeAcl(change, ok) => s.(store := AfterChange(s.store, change, ok))
    case Restart(mono, down) =>
      var clock := Clock(mono, s.clock.wall + down);
      s.(store := Load(s.store.db, clock), clock := clock)
  }

  /** An empty database, just opened. */
  predicate Init(s: Sys) {
    s.store.nodes == map[] && s.store.db.rows == map[] && s.beat == map[] && s.reaped == s.clock.wall
  }

  ghost predicate Run(ss: seq<Sys>, ops: seq<Op>) {
    && |ss| == |ops| + 1 && Init(ss[0])
    && forall k :: 0 <= k < |ops| ==> ss[k + 1] == Next(ss[k], ops[k])
  }

  /** Every database write of the operation succeeds. */
  predicate Clean(op: Op) {
    match op
    case Register(_, ok) => ok
    case UpdateEndpoint(_, _, ok) => ok
    case Heartbeat(_, ok) => ok
    case Reap(lost) => lost == Losses({}, {})
    case _ => true
  }

  /** Every delete of the operation succeeds; updates may fail. */
  predicate Deletes(op: Op) {
    op.Reap? ==> op.lost.deletes == {}
  }

  ghost predicate CleanRun(ops: seq<Op>, n: nat)
    requires n <= |ops|
  {
    forall k :: 0 <= k < n ==> Clean(ops[k])
  }

  ghost predicate Unrestarted(ops: seq<Op>, n: nat)
    requires n <= |ops|
  {
    forall k :: 0 <= k < n ==> !ops[k].Restart?
  }

  // --------------------------------------------------- cache/store agreement

  lemma LinkedStep(s: Sys, op: Op)
    requires Linked(s.store)
    ensures Linked(Next(s, op).store)
  {
  }

  /** Whichever writes fail, every entry in memory has a row that agrees on id,
      name, address, key and token. */
  lemma {:induction false} MemoryIsBackedByRows(ss: seq<Sys>, ops: seq<Op>, n: nat)
    requires Run(ss, ops) && n < |ss|
    ensures Linked(ss[n].store)
  {
    if n > 0 {
      MemoryIsBackedByRows(ss, ops, n - 1);
      LinkedStep(ss[n - 1], ops[n - 1]);
    }
  }

  /** So a drawn id that collides with a live node is refused by the primary
      key: no registration ever replaces an entry. */
  lemma RegisterNeverReplaces(ss: seq<Sys>, ops: seq<Op>, n: nat, id: Id)
    requires Run(ss, ops) && n < |ops| && ops[n].Register? && id in ss[n].store.nodes
    ensures id in ss[n + 1].store.nodes && ss[n + 1].store.nodes[id] == ss[n].store.nodes[id]
    ensures id == ops[n].r.id ==> Grant(ss[n].store, ops[n].r, ops[n].ok) == None && ss[n + 1] == ss[n]
  {
    MemoryIsBackedByRows(ss, ops, n);
  }

  /** Memory and rows hold the same nodes with the same data. */
  ghost predicate Agrees(s: Store) {
    && Linked(s)
    && s.nodes.Keys == s.db.rows.Keys
    && forall id :: id in s.nodes ==>
        s.nodes[id].info.endpoint == s.db.rows[id].endpoint && s.nodes[id].info.connected == s.db.rows[id].connected
  }

  lemma AgreesStep(s: Sys, op: Op)
    requires Agrees(s.store) && Clean(op)
    ensures Agrees(Next(s, op).store)
  {
    LinkedStep(s, op);
  }

  /** If all writes succeed, memory and rows agree after every operation, and
      reloading the rows would change nothing but heartbeat readings. */
  lemma {:induction false} CleanRunsAgree(ss: seq<Sys>, ops: seq<Op>, n: nat, clock: Clock)
    requires Run(ss, ops) && n < |ss| && CleanRun(ops, n)
    ensures Agrees(ss[n].store)
    ensures var loaded := Load(ss[n].store.db, clock).nodes;
      && loaded.Keys == ss[n].store.nodes.Keys
      && forall id :: id in loaded ==> loaded[id] == ss[n].store.nodes[id].(lastHeartbeat := loaded[id].lastHeartbeat)
  {
    if n > 0 {
      CleanRunsAgree(ss, ops, n - 1, clock);
      AgreesStep(ss[n - 1], ops[n - 1]);
    }
  }

  /** The operation gives `id` an endpoint: its own report, or none yet. */
  function EndpointGiven(s: Sys, op: Op, id: Id): Option<string> {
    if op.UpdateEndpoint? && op.id == id && id in s.store.nodes then Some(op.endpoint)
    else if Admits(s, op, id) then Some("")
    else None
  }

  /** In memory a report replaces the endpoint and a restart reads it back from the
      row; in the row only a report whose write succeeds replaces it. */
  lemma EndpointStep(s: Sys, op: Op, id: Id)
    requires Linked(s.store)
    ensures var t, given := Next(s, op).store, EndpointGiven(s, op, id);
      && (op.Restart? ==> given.None? && t.nodes.Keys == s.store.db.rows.Keys)
      && (id in t.nodes && given.Some? ==> t.nodes[id].info.endpoint == given.value)
      && (id in t.nodes && given.None? ==>
            if op.Restart? then t.nodes[id].info.endpoint == s.store.db.rows[id].endpoint
            else id in s.store.nodes && t.nodes[id].info.endpoint == s.store.nodes[id].info.endpoint)
  {
  }

  lemma RowEndpointStep(s: Sys, op: Op, id: Id)
    requires Linked(s.store) && id in Next(s, op).store.db.rows
    ensures var rows, rows' := s.store.db.rows, Next(s, op).store.db.rows;
      var given := EndpointGiven(s, op, id);
      if given.Some? && Clean(op) then rows'[id].endpoint == given.value
      else id in rows && rows'[id].endpoint == rows[id].endpoint
  {
  }

  /** What step `j` writes is still known in state `n`: its write succeeded, or
      the server has not restarted since. */
  ghost predicate Remembered(ops: seq<Op>, j: nat, n: nat)
    requires j < n <= |ops|
  {
    Clean(ops[j]) || forall r :: j < r < n ==> !ops[r].Restart?
  }

  /** Step `i` gave `id` the endpoint it has in state `n`, and no later step that
      is still remembered gave it another. */
  ghost predicate GivenLast(ss: seq<Sys>, ops: seq<Op>, id: Id, i: nat, n: nat)
    requires |ss| == |ops| + 1 && n < |ss| && id in ss[n].store.nodes
  {
    && i < n
    && Remembered(ops, i, n)
    && EndpointGiven(ss[i], ops[i], id) == Some(ss[n].store.nodes[id].info.endpoint)
    && forall j :: i < j < n && Remembered(ops, j, n) ==> EndpointGiven(ss[j], ops[j], id).None?
  }

  ghost predicate StoredLast(ss: seq<Sys>, ops: seq<Op>, id: Id, i: nat, n: nat)
    requires |ss| == |ops| + 1 && n < |ss| && id in ss[n].store.db.rows
  {
    && i < n
    && Clean(ops[i])
    && EndpointGiven(ss[i], ops[i], id) == Some(ss[n].store.db.rows[id].endpoint)
    && forall j :: i < j < n && Clean(ops[j]) ==> EndpointGiven(ss[j], ops[j], id).None?
  }

  /** The endpoint that a restart would read is the last one whose write succeeded. */
  lemma {:induction false} StoredEndpointIsLastWritten(ss: seq<Sys>, ops: seq<Op>, id: Id, n: nat)
    requires Run(ss, ops) && n < |ss| && id in ss[n].store.db.rows
    ensures exists i: nat :: StoredLast(ss, ops, id, i, n)
  {
    hide Next, EndpointGiven, Linked, Clean;
    var m := n - 1;
    MemoryIsBackedByRows(ss, ops, m);
    RowEndpointStep(ss[m], ops[m], id);
    if EndpointGiven(ss[m], ops[m], id).Some? && Clean(ops[m]) {
      assert StoredLast(ss, ops, id, m, n);
    } else {
      StoredEndpointIsLastWritten(ss, ops, id, m);
      var i: nat :| StoredLast(ss, ops, id, i, m);
      assert StoredLast(ss, ops, id, i, n);
    }
  }

  /** The endpoint that peers are told is the last remembered one that the node
      has reported since it registered, or empty if there is none: a report is
      forgotten only by a restart, and only if its write was lost. */
  lemma {:induction false} EndpointIsLastReport(ss: seq<Sys>, ops: seq<Op>, id: Id, n: nat)
    requires Run(ss, ops) && n < |ss| && id in ss[n].store.nodes
    ensures exists i: nat :: GivenLast(ss, ops, id, i, n)
  {
    hide Next, EndpointGiven, Linked, Clean;
    var m := n - 1;
    MemoryIsBackedByRows(ss, ops, m);
    EndpointStep(ss[m], ops[m], id);
    if ops[m].Restart? {
      StoredEndpointIsLastWritten(ss, ops, id, m);
      var i: nat :| StoredLast(ss, ops, id, i, m);
      assert GivenLast(ss, ops, id, i, n);
    } else if EndpointGiven(ss[m], ops[m], id).Some? {
      assert GivenLast(ss, ops, id, m, n);
    } else {
      hide Run;
      EndpointIsLastReport(ss, ops, id, m);
      var i: nat :| GivenLast(ss, ops, id, i, m);
      StillGivenLast(ss, ops, id, i, m);
    }
  }

  lemma StillGivenLast(ss: seq<Sys>, ops: seq<Op>, id: Id, i: nat, m: nat)
    requires |ss| == |ops| + 1 && m < |ops| && !ops[m].Restart? && EndpointGiven(ss[m], ops[m], id).None?
    requires id in ss[m].store.nodes && id in ss[m + 1].store.nodes && GivenLast(ss, ops, id, i, m)
    requires ss[m + 1].store.nodes[id].info.endpoint == ss[m].store.nodes[id].info.endpoint
    ensures GivenLast(ss, ops, id, i, m + 1)
  {
    hide Next, EndpointGiven, Clean;
    forall j: nat | j < m ensures Remembered(ops, j, m + 1) <==> Remembered(ops, j, m) {
    }
  }

  // ------------------------------------------------------ address uniqueness

  ghost predicate DistinctIps(nodes: map<Id, NodeEntry>) {
    forall x, y :: x in nodes && y in nodes && x != y ==> nodes[x].info.vpnIp != nodes[y].info.vpnIp
  }

  ghost predicate DistinctRowIps(rows: map<Id, Row>) {
    forall x, y :: x in rows && y in rows && x != y ==> rows[x].vpnIp != rows[y].vpnIp
  }

  /** The operation registers `id`. */
  predicate Admits(s: Sys, op: Op, id: Id) {
    op.Register? && op.r.id == id && Grant(s.store, op.r, op.ok).Some?
  }

  lemma RowAddressStep(s: Sys, op: Op)
    ensures var rows, rows' := s.store.db.rows, Next(s, op).store.db.rows;
      && (!op.Reap? ==> rows.Keys <= rows'.Keys)
      && forall id :: id in rows' ==>
          if Admits(s, op, id) then rows'[id].vpnIp == Grant(s.store, op.r, op.ok).value.vpnIp
          else id in rows && rows'[id].vpnIp == rows[id].vpnIp
  {
  }

  lemma NodeAddressStep(s: Sys, op: Op)
    ensures var rows, nodes, nodes' := s.store.db.rows, s.store.nodes, Next(s, op).store.nodes;
      && (!op.Reap? && !op.Restart? ==> nodes.Keys <= nodes'.Keys)
      && (op.Restart? ==> nodes'.Keys == rows.Keys && Next(s, op).store.db.rows == rows)
      && forall id :: id in nodes' ==>
          if Admits(s, op, id) then nodes'[id].info.vpnIp == Grant(s.store, op.r, op.ok).value.vpnIp
          else if op.Restart? then id in rows && nodes'[id].info.vpnIp == rows[id].vpnIp
          else id in nodes && nodes'[id].info.vpnIp == nodes[id].info.vpnIp
  {
  }

  /** A registration admits a node that neither memory nor the rows had, at an
      address that nobody in memory uses. */
  lemma AdmitStep(s: Sys, r: Registration, ok: bool)
    requires Linked(s.store) && Admits(s, Register(r, ok), r.id)
    ensures r.id !in s.store.db.rows && r.id !in s.store.nodes
    ensures var t := Next(s, Register(r, ok)).store; r.id in t.db.rows && r.id in t.nodes
    ensures Grant(s.store, r, ok).value.vpnIp !in UsedIps(s.store.nodes)
  {
  }

  /** While the server is not restarted, live nodes have pairwise distinct
      addresses, whichever writes fail. */
  lemma {:induction false} DistinctUntilRestart(ss: seq<Sys>, ops: seq<Op>, n: nat)
    requires Run(ss, ops) && n < |ss| && Unrestarted(ops, n)
    ensures DistinctIps(ss[n].store.nodes)
  {
    hide Next, Grant, Linked, UsedIps;
    if n > 0 {
      var s, op := ss[n - 1], ops[n - 1];
      DistinctUntilRestart(ss, ops, n - 1);
      MemoryIsBackedByRows(ss, ops, n - 1);
      NodeAddressStep(s, op);
      UsedIpsHolds(s.store.nodes);
      if op.Register? && Admits(s, op, op.r.id) {
        AdmitStep(s, op.r, op.ok);
      }
    }
  }

  lemma UsedIpsHolds(nodes: map<Id, NodeEntry>)
    ensures forall id :: id in nodes ==> nodes[id].info.vpnIp in UsedIps(nodes)
  {
  }

  /** The operation grants an address that a row still holds, although its node
      has left memory: its delete was lost. */
  ghost predicate ReusesStranded(s: Sys, op: Op) {
    && op.Register?
    && var g := Grant(s.store, op.r, op.ok);
       g.Some? && exists x :: x in s.store.db.rows && x !in s.store.nodes && s.store.db.rows[x].vpnIp == g.value.vpnIp
  }

  lemma DistinctRowsStep(s: Sys, op: Op)
    requires Linked(s.store) && DistinctRowIps(s.store.db.rows)
    ensures DistinctRowIps(Next(s, op).store.db.rows) <==> !ReusesStranded(s, op)
  {
    hide Next, Grant, UsedIps;
    RowAddressStep(s, op);
    UsedIpsHolds(s.store.nodes);
    if op.Register? && Admits(s, op, op.r.id) {
      AdmitStep(s, op.r, op.ok);
    }
    var rows, rows' := s.store.db.rows, Next(s, op).store.db.rows;
    if ReusesStranded(s, op) {
      var x :| x in rows && x !in s.store.nodes && rows[x].vpnIp == Grant(s.store, op.r, op.ok).value.vpnIp;
      assert x in rows' && rows'[x].vpnIp == rows'[op.r.id].vpnIp;
    }
  }

  ghost predicate RowsAlwaysDistinct(ss: seq<Sys>, n: nat)
    requires n < |ss|
  {
    forall k :: 0 <= k <= n ==> DistinctRowIps(ss[k].store.db.rows)
  }

  ghost predicate NeverReusesStranded(ss: seq<Sys>, ops: seq<Op>, n: nat)
    requires n <= |ops| < |ss|
  {
    forall k :: 0 <= k < n ==> !ReusesStranded(ss[k], ops[k])
  }

  /** Addresses survive restarts without a clash, at every point so far, if and
      only if no registration so far was granted the address of a stranded row. */
  lemma {:induction false} RowsStayDistinctIff(ss: seq<Sys>, ops: seq<Op>, n: nat)
    requires Run(ss, ops) && n < |ss|
    ensures RowsAlwaysDistinct(ss, n) <==> NeverReusesStranded(ss, ops, n)
  {
    if n > 0 {
      var m := n - 1;
      RowsStayDistinctIff(ss, ops, m);
      MemoryIsBackedByRows(ss, ops, m);
      assert RowsAlwaysDistinct(ss, n) <==> RowsAlwaysDistinct(ss, m) && DistinctRowIps(ss[n].store.db.rows);
      assert NeverReusesStranded(ss, ops, n) <==> NeverReusesStranded(ss, ops, m) && !ReusesStranded(ss[m], ops[m]);
      if RowsAlwaysDistinct(ss, m) {
        DistinctRowsStep(ss[m], ops[m]);
      }
    }
  }

  lemma RestartIsDistinctIff(s: Sys, mono: int, down: nat)
    ensures DistinctIps(Next(s, Restart(mono, down)).store.nodes) <==> DistinctRowIps(s.store.db.rows)
  {
    var rows, nodes := s.store.db.rows, Next(s, Restart(mono, down)).store.nodes;
    assert nodes.Keys == rows.Keys && forall id :: id in rows ==> nodes[id].info.vpnIp == rows[id].vpnIp;
  }

  lemma SameKeysStep(s: Sys, op: Op)
    requires Linked(s.store) && s.store.nodes.Keys == s.store.db.rows.Keys && Deletes(op)
    ensures Next(s, op).store.nodes.Keys == Next(s, op).store.db.rows.Keys
  {
  }

  /** If every delete succeeds, no row is ever stranded: live nodes have pairwise
      distinct addresses in every state, across any number of restarts. */
  lemma {:induction false} DistinctAcrossRestarts(ss: seq<Sys>, ops: seq<Op>, n: nat)
    requires Run(ss, ops) && n < |ss| && forall k :: 0 <= k < n ==> Deletes(ops[k])
    ensures ss[n].store.nodes.Keys == ss[n].store.db.rows.Keys
    ensures DistinctRowIps(ss[n].store.db.rows) && DistinctIps(ss[n].store.nodes)
  {
    if n > 0 {
      DistinctAcrossRestarts(ss, ops, n - 1);
      MemoryIsBackedByRows(ss, ops, n - 1);
      SameKeysStep(ss[n - 1], ops[n - 1]);
      DistinctRowsStep(ss[n - 1], ops[n - 1]);
      MemoryIsBackedByRows(ss, ops, n);
    }
  }

  /** A registration, a day and a second, a reap whose delete is lost, another
      registration, and a restart. */
  function StrandingOps(a: Registration, b: Registration, mono: int): seq<Op> {
    [Register(a, true), Advance((DELETE_SECS + 1) * SECOND), Reap(Losses({}, {a.id})), Register(b, true),
     Restart(mono, 0)]
  }

  /** Only `id` is in memory, silent for long enough to be deleted; its delete is
      lost, so that its row stays. */
  lemma LostDeleteStrands(s: Sys, id: Id)
    requires s.store.nodes.Keys == {id} && s.store.db.rows.Keys == {id}
      && s.store.nodes[id].lastHeartbeat == s.clock.mono
    ensures var t := Next(Next(s, Advance((DELETE_SECS + 1) * SECOND)), Reap(Losses({}, {id})));
      t.store.nodes == map[] && t.store.db.rows.Keys == {id} && t.store.db.rows[id].vpnIp == s.store.db.rows[id].vpnIp
  {
  }

  ghost predicate SharesAddress(ss: seq<Sys>, ops: seq<Op>) {
    Run(ss, ops) && !DistinctIps(ss[|ops|].store.nodes)
  }

  /** A lost delete does lead to two live nodes with one address: the first node
      expires, its row stays, a second node is given its address, and a restart
      brings the first one back. */
  lemma LostDeleteSharesAddress(s: Sys, a: Registration, b: Registration, mono: int)
    requires Init(s) && a.id != b.id
    ensures exists ss :: ss != [] && ss[0] == s && SharesAddress(ss, StrandingOps(a, b, mono))
  {
    hide Next, DistinctIps;
    var ops := StrandingOps(a, b, mono);
    var s1 := Next(s, ops[0]);
    var s2 := Next(s1, ops[1]);
    var s3 := Next(s2, ops[2]);
    var s4 := Next(s3, ops[3]);
    var s5 := Next(s4, ops[4]);
    FirstNodeGetsFirstAddress(s, a);
    LostDeleteStrands(s1, a.id);
    FirstNodeGetsFirstAddress(s3, b);
    assert s4.store.db.rows[a.id].vpnIp == s4.store.db.rows[b.id].vpnIp;
    assert !DistinctRowIps(s4.store.db.rows);
    RestartIsDistinctIff(s4, mono, 0);
    var ss := [s, s1, s2, s3, s4, s5];
    assert Run(ss, ops);
    assert SharesAddress(ss, ops);
  }

  lemma FirstNodeGetsFirstAddress(s: Sys, r: Registration)
    requires s.store.nodes == map[] && r.id !in s.store.db.rows
    ensures var t := Next(s, Register(r, true)).store;
      && t.nodes.Keys == {r.id} && t.nodes[r.id].lastHeartbeat == s.clock.mono == Next(s, Register(r, true)).clock.mono
      && t.nodes[r.id].info.vpnIp == Address(0)
      && t.db.rows.Keys == s.store.db.rows.Keys + {r.id} && t.db.rows[r.id].vpnIp == Address(0)
      && t.db.rows[r.id].lastHeartbeat == s.clock.Secs()
        && Next(s, Register(r, true)).beat == s.beat[r.id := s.clock.wall]
      && forall id :: id in s.store.db.rows ==> t.db.rows[id] == s.store.db.rows[id]
  {
  }

  /** On an empty registry the first registration gets 10.13.0.1, the second
      10.13.0.2. */
  lemma FirstGrants(s: Sys, a: Registration, b: Registration)
    requires Init(s) && a.id != b.id
    ensures var t := Next(s, Register(a, true));
      && Grant(s.store, a, true) == Some(Granted(a.id, "10.13.0.1", a.token))
      && Grant(t.store, b, true) == Some(Granted(b.id, "10.13.0.2", b.token))
  {
    var t := Next(s, Register(a, true));
    AddressForm(0);
    FirstNodeGetsFirstAddress(s, a);
    FirstFreeIs(UsedIps(s.store.nodes), 0);
    assert UsedIps(t.store.nodes) == {Address(0)};
    FirstFreeIs(UsedIps(t.store.nodes), 1);
  }

  lemma FirstFreeIs(used: set<string>, k: nat)
    requires k < POOL && used == FirstAddresses(k)
    ensures NextIp(used) == Some(Address(k))
  {
    FirstFreeOfPrefix(k);
  }

  // --------------------------------------------------------- first-fit bound

  /** The largest number of simultaneously registered nodes so far. */
  function Peak(ss: seq<Sys>, n: nat): nat
    requires n < |ss|
  {
    var here := |ss[n].store.nodes|;
    if n == 0 then here
    else
      var before := Peak(ss, n - 1);
      if before < here then here else before
  }

  predicate Below(ip: string, bound: nat) {
    exists k: nat :: k < bound && k < POOL && ip == Address(k)
  }

  lemma OneMoreIp(a: map<Id, NodeEntry>, b: map<Id, NodeEntry>, id: Id)
    requires id !in a && b.Keys == a.Keys + {id} && forall x :: x in a ==> b[x].info.vpnIp == a[x].info.vpnIp
    ensures UsedIps(b) == UsedIps(a) + {b[id].info.vpnIp} && |b| == |a| + 1
  {
  }

  lemma {:induction false} UsedIpsCount(nodes: map<Id, NodeEntry>)
    ensures |UsedIps(nodes)| <= |nodes|
    ensures DistinctIps(nodes) ==> |UsedIps(nodes)| == |nodes|
  {
    if nodes == map[] {
      assert UsedIps(nodes) == {};
    } else {
      var id :| id in nodes;
      var fewer := nodes - {id};
      UsedIpsCount(fewer);
      OneMoreIp(fewer, nodes, id);
      assert forall y :: y in fewer ==> y != id && fewer[y] == nodes[y];
    }
  }

  /** A granted address is among the first `n + 1` when `n` nodes are live. */
  lemma GrantIsLow(s: Store, r: Registration, ok: bool)
    requires Grant(s, r, ok).Some?
    ensures Below(Grant(s, r, ok).value.vpnIp, |s.nodes| + 1)
  {
    FirstFreeIsLow(UsedIps(s.nodes), FirstFree(UsedIps(s.nodes)));
    UsedIpsCount(s.nodes);
  }

  lemma BelowStep(s: Sys, op: Op, bound: nat)
    requires Linked(s.store) && |s.store.nodes| <= bound
    requires forall id :: id in s.store.db.rows ==> Below(s.store.db.rows[id].vpnIp, bound)
    ensures var t := Next(s, op).store;
      forall id :: id in t.db.rows ==> Below(t.db.rows[id].vpnIp, if |t.nodes| <= bound then bound else |t.nodes|)
  {
    hide Next, Grant, UsedIps, Linked;
    RowAddressStep(s, op);
    NodeAddressStep(s, op);
    var t := Next(s, op).store;
    if op.Register? && Admits(s, op, op.r.id) {
      AdmitStep(s, op.r, op.ok);
      GrantIsLow(s.store, op.r, op.ok);
      assert s.store.nodes.Keys + {op.r.id} <= t.nodes.Keys;
      SubsetCount(s.store.nodes.Keys + {op.r.id}, t.nodes.Keys);
    }
  }

  /** Every address, in memory or in a row, lies below the peak number of nodes
      in the order of the search: addresses are recycled, whatever fails. */
  lemma {:induction false} AddressesStayBelowPeak(ss: seq<Sys>, ops: seq<Op>, n: nat)
    requires Run(ss, ops) && n < |ss|
    ensures |ss[n].store.nodes| <= Peak(ss, n)
    ensures forall id :: id in ss[n].store.db.rows ==> Below(ss[n].store.db.rows[id].vpnIp, Peak(ss, n))
    ensures forall id :: id in ss[n].store.nodes ==> Below(ss[n].store.nodes[id].info.vpnIp, Peak(ss, n))
  {
    hide Next, Below;
    MemoryIsBackedByRows(ss, ops, n);
    if n > 0 {
      AddressesStayBelowPeak(ss, ops, n - 1);
      MemoryIsBackedByRows(ss, ops, n - 1);
      BelowStep(ss[n - 1], ops[n - 1], Peak(ss, n - 1));
    }
  }

  /** In a run in which no node is deleted, the addresses in use are exactly the
      first ones of the search. */
  lemma {:induction false} UndeletedAddressesAreAPrefix(ss: seq<Sys>, ops: seq<Op>, n: nat)
    requires Run(ss, ops) && n < |ss|
    requires forall k :: 0 <= k < n && ops[k].Reap? ==> ss[k + 1].store.nodes.Keys == ss[k].store.nodes.Keys
    ensures ss[n].store.nodes.Keys == ss[n].store.db.rows.Keys
    ensures |ss[n].store.nodes| <= POOL
    ensures UsedIps(ss[n].store.nodes) == FirstAddresses(|ss[n].store.nodes|)
  {
    if n == 0 {
      assert UsedIps(ss[0].store.nodes) == {} == FirstAddresses(0);
    } else {
      UndeletedAddressesAreAPrefix(ss, ops, n - 1);
      MemoryIsBackedByRows(ss, ops, n - 1);
      MemoryIsBackedByRows(ss, ops, n);
      PrefixStep(ss[n - 1], ops[n - 1]);
    }
  }

  lemma PrefixStep(s: Sys, op: Op)
    requires Linked(s.store) && s.store.nodes.Keys == s.store.db.rows.Keys
    requires |s.store.nodes| <= POOL && UsedIps(s.store.nodes) == FirstAddresses(|s.store.nodes|)
    requires op.Reap? ==> Next(s, op).store.nodes.Keys == s.store.nodes.Keys
    ensures var t := Next(s, op).store;
      t.nodes.Keys == t.db.rows.Keys && |t.nodes| <= POOL && UsedIps(t.nodes) == FirstAddresses(|t.nodes|)
  {
    hide Next, Grant, UsedIps, FirstAddresses, Linked;
    NodeAddressStep(s, op);
    KeysStep(s, op);
    LinkedAddresses(s.store);
    var nodes, nodes' := s.store.nodes, Next(s, op).store.nodes;
    if op.Register? && Admits(s, op, op.r.id) {
      AdmitStep(s, op.r, op.ok);
      GrantedAddress(s.store, op.r, op.ok);
      GrantExtendsPrefix(nodes, nodes', op.r.id);
    } else {
      SameIpsSameUse(nodes, nodes');
    }
  }

  lemma LinkedAddresses(s: Store)
    requires Linked(s)
    ensures forall id :: id in s.nodes ==> id in s.db.rows && s.nodes[id].info.vpnIp == s.db.rows[id].vpnIp
  {
  }

  lemma GrantExtendsPrefix(a: map<Id, NodeEntry>, b: map<Id, NodeEntry>, id: Id)
    requires UsedIps(a) == FirstAddresses(|a|) && |a| <= POOL && FirstFree(UsedIps(a)) < POOL
    requires id !in a && b.Keys == a.Keys + {id} && forall x :: x in a ==> b[x].info.vpnIp == a[x].info.vpnIp
    requires b[id].info.vpnIp == Address(FirstFree(UsedIps(a)))
    ensures UsedIps(b) == FirstAddresses(|b|) && |b| <= POOL
  {
    FirstFreeOfPrefix(|a|);
    FirstAddressesNext(|a|);
    OneMoreIp(a, b, id);
  }

  lemma KeysStep(s: Sys, op: Op)
    requires Linked(s.store) && s.store.nodes.Keys == s.store.db.rows.Keys
    requires op.Reap? ==> Next(s, op).store.nodes.Keys == s.store.nodes.Keys
    ensures var t := Next(s, op).store;
      && t.nodes.Keys == t.db.rows.Keys
      && t.nodes.Keys == s.store.nodes.Keys + if op.Register? && Admits(s, op, op.r.id) then {op.r.id} else {}
  {
    if op.Reap? {
      assert forall id :: id in s.store.nodes ==> !Expired(s.store.nodes[id], s.clock);
    }
  }

  lemma GrantedAddress(s: Store, r: Registration, ok: bool)
    requires Grant(s, r, ok).Some?
    ensures FirstFree(UsedIps(s.nodes)) < POOL && Grant(s, r, ok).value.vpnIp == Address(FirstFree(UsedIps(s.nodes)))
  {
  }

  lemma SameIpsSameUse(a: map<Id, NodeEntry>, b: map<Id, NodeEntry>)
    requires a.Keys == b.Keys && forall id :: id in a ==> a[id].info.vpnIp == b[id].info.vpnIp
    ensures UsedIps(a) == UsedIps(b) && |a| == |b|
  {
  }

  lemma FirstFreeOfPrefix(m: nat)
    requires m <= POOL
    ensures FirstFree(FirstAddresses(m)) == m
  {
    NotAmongFirst(m);
    FirstFreeIsUnique(FirstAddresses(m), m, FirstFree(FirstAddresses(m)));
  }

  // ------------------------------------------------------------ completeness

  /** With addresses that are all from the pool, the search fails exactly when all
      of them are in use. */
  lemma SearchFailsIff(used: set<string>)
    requires used <= FirstAddresses(POOL)
    ensures |used| <= POOL && (NextIp(used) == None <==> |used| == POOL)
  {
    FirstAddressesCount(POOL);
    SubsetCount(used, FirstAddresses(POOL));
    FirstFreeIsLow(used, FirstFree(used));
    if |used| == POOL {
      EqualSizeSubset(used, FirstAddresses(POOL));
      FirstFreeOfPrefix(POOL);
    }
  }

  lemma UsedAreOfPool(ss: seq<Sys>, ops: seq<Op>, n: nat)
    requires Run(ss, ops) && n < |ss|
    ensures UsedIps(ss[n].store.nodes) <= FirstAddresses(POOL)
  {
    hide Next;
    AddressesStayBelowPeak(ss, ops, n);
    forall id | id in ss[n].store.nodes ensures ss[n].store.nodes[id].info.vpnIp in FirstAddresses(POOL) {
      assert Below(ss[n].store.nodes[id].info.vpnIp, Peak(ss, n));
    }
  }

  /** Registration is complete, whichever writes fail and however often the server
      restarts: it is refused only with all 65,280 addresses in use, or because a
      row has the drawn id, or because the write fails. */
  lemma RegistrationFailsIff(ss: seq<Sys>, ops: seq<Op>, n: nat, r: Registration, ok: bool)
    requires Run(ss, ops) && n < |ss|
    ensures var s := ss[n].store;
      && |UsedIps(s.nodes)| <= POOL && |UsedIps(s.nodes)| <= |s.nodes|
      && (Grant(s, r, ok) == None <==> |UsedIps(s.nodes)| == POOL || r.id in s.db.rows || !ok)
  {
    hide Next, UsedIps, FirstFree, NextIp;
    UsedAreOfPool(ss, ops, n);
    SearchFailsIff(UsedIps(ss[n].store.nodes));
    UsedIpsCount(ss[n].store.nodes);
  }

  /** If deletes succeed, the addresses in use number the nodes and only live nodes
      have rows. */
  lemma RegistrationFailsWhenFull(ss: seq<Sys>, ops: seq<Op>, n: nat, r: Registration, ok: bool)
    requires Run(ss, ops) && n < |ss| && forall k :: 0 <= k < n ==> Deletes(ops[k])
    ensures var s := ss[n].store;
      && |s.nodes| <= POOL
      && (Grant(s, r, ok) == None <==> |s.nodes| == POOL || r.id in s.nodes || !ok)
  {
    hide Next, Deletes, UsedIps, Grant;
    var s := ss[n].store;
    DistinctAcrossRestarts(ss, ops, n);
    RegistrationFailsIff(ss, ops, n, r, ok);
    UsedIpsCount(s.nodes);
    assert r.id in s.nodes.Keys <==> r.id in s.db.rows.Keys;
  }

  lemma EqualSizeSubset<T>(a: set<T>, b: set<T>)
    requires a <= b && |a| == |b|
    ensures a == b
  {
    assert b == a + (b - a);
  }
}
