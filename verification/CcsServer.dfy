/** The control server's request streams, interleaved with each other, with the
    reaper and with the dashboard wherever the locks allow it. */
module CcsServer {
  import opened Wrappers
  import opened RegistryState
  import opened PeerLists
  import R = RegistryRuns
  import Acl

  /** The requests that `handle_stream` tells apart. The four ACL requests differ
      only in the change they ask for. */
  datatype Message =
    | Register(name: string, publicKey: string)
    | GetPeers(id: Id, token: string)
    | UpdateEndpoint(id: Id, token: string, endpoint: string)
    | RequestRelay(id: Id, token: string, targetId: Id)
    | Ping(id: Id, token: string)
    | AclChange(id: Id, token: string, change: Acl.Change)
    | AclList(id: Id, token: string)
    | Other

  /** `Failed`: the stream ends with an error and no answer. */
  datatype Response =
    | RegisterOk(granted: Granted)
    | PeerList(peers: set<PeerInfo>)
    | RelayAssigned(relayAddr: string, targetId: Id)
    | AclListing(tables: Acl.Tables)
    | Pong
    | Failed

  /** What a handler draws or meets: a fresh id and token for a registration, and
      whether its database write succeeds. */
  datatype Choice = Choice(id: Id, token: string, ok: bool)

  /** The request takes the registry's lock for writing. */
  predicate Writes(msg: Message) {
    msg.Register? || msg.UpdateEndpoint? || msg.Ping?
  }

  /** The request reads the ACL tables, several times while it holds the
      registry's lock for reading. */
  predicate ReadsAcl(msg: Message) {
    msg.GetPeers? || msg.AclList?
  }

  // --------------------------------------- requests handled under one locking

  /** The registry operation that the request comes to. */
  function Effect(s: Store, msg: Message, c: Choice): R.Op {
    match msg
    case Register(name, key) => R.Register(Registration(c.id, c.token, name, key), c.ok)
    case UpdateEndpoint(id, token, endpoint) =>
      if ValidSession(s, id, token) then R.UpdateEndpoint(id, endpoint, c.ok) else R.Advance(0)
    case Ping(id, token) => if ValidSession(s, id, token) then R.Heartbeat(id, c.ok) else R.Advance(0)
    case _ => R.Advance(0)
  }

  function Answer(s: Store, msg: Message, c: Choice, relayAddr: string): Response {
    match msg
    case Register(name, key) =>
      (match Grant(s, Registration(c.id, c.token, name, key), c.ok)
       case Some(g) => RegisterOk(g)
       case None => Failed)
    case RequestRelay(id, token, target) =>
      if ValidSession(s, id, token) then RelayAssigned(relayAddr, target) else Pong
    case _ => Pong
  }

  // ------------------------------------------------- listings, read by read

  /** What a listing has read so far: of a peer list, nothing, that there are rules,
      the caller's groups, the groups they may see and which of some peers have one
      of them; of the ACL, nothing or its groups. */
  datatype Stage =
    | Starting
    | Ruled
    | Grouped(mine: set<string>)
    | Filtering(visible: set<string>, rest: set<Id>, kept: set<Id>)
    | ListingGroups
    | ListingRules(groups: set<(Id, string)>)

  /** The next read of the tables; `peer` is the one whose groups it reads. */
  function AfterRead(s: Store, id: Id, stage: Stage, peer: Id): Stream {
    match stage
    case Starting =>
      if s.db.acl.rules == {} then Answered(PeerList(Infos(s.nodes, s.nodes.Keys - {id}))) else Listing(id, Ruled)
    case Ruled =>
      var mine := GroupsOf(s.db.acl, id);
      if mine == {} then Answered(PeerList({})) else Listing(id, Grouped(mine))
    case Grouped(mine) =>
      var visible := VisibleFrom(s.db.acl, mine);
      if visible == {} then Answered(PeerList({})) else Filter(s.nodes, id, visible, s.nodes.Keys - {id}, {})
    case Filtering(visible, rest, kept) =>
      Filter(s.nodes, id, visible, rest - {peer},
             if GroupsOf(s.db.acl, peer) * visible != {} then kept + {peer} else kept)
    case ListingGroups => Listing(id, ListingRules(s.db.acl.groups))
    case ListingRules(groups) => Answered(AclListing(Acl.Tables(groups, s.db.acl.rules)))
  }

  function Filter(nodes: map<Id, NodeEntry>, id: Id, visible: set<string>, rest: set<Id>, kept: set<Id>): Stream {
    if rest == {} then Answered(PeerList(Infos(nodes, kept))) else Listing(id, Filtering(visible, rest, kept))
  }

  // ------------------------------------------------------------- the protocol

  /** An ACL change is `Approved` between its two lockings. */
  datatype Stream =
    | Arrived(msg: Message)
    | Approved(msg: Message)
    | Listing(id: Id, stage: Stage)
    | Answered(response: Response)

  datatype Server = Server(sys: R.Sys, streams: map<nat, Stream>, relayAddr: string)

  /** `Dashboard`: an ACL change posted to the web dashboard, which names no session
      and holds the registry's lock for reading only. A restart of the server drops
      its streams. */
  datatype Action =
    | Wait(elapsed: nat)
    | Open(sid: nat, msg: Message)
    | Handle(sid: nat, choice: Choice)
    | Begin(sid: nat)
    | Read(sid: nat, peer: Id)
    | Validate(sid: nat)
    | ApplyAcl(sid: nat, ok: bool)
    | Dashboard(change: Acl.Change, ok: bool)
    | Reap(lost: Losses)
    | Restart(mono: int, down: nat)

  /** No listing holds the registry's lock. */
  predicate Unlocked(s: Server) {
    forall sid :: sid in s.streams ==> !s.streams[sid].Listing?
  }

  predicate HasArrived(s: Server, sid: nat) {
    sid in s.streams && s.streams[sid].Arrived?
  }

  predicate Enabled(s: Server, a: Action) {
    match a
    case Open(sid, _) => sid !in s.streams
    case Handle(sid, _) =>
      && HasArrived(s, sid)
      && var msg := s.streams[sid].msg;
         !msg.AclChange? && !ReadsAcl(msg) && (Writes(msg) ==> Unlocked(s))
    case Begin(sid) => HasArrived(s, sid) && ReadsAcl(s.streams[sid].msg)
    case Read(sid, peer) =>
      && sid in s.streams && s.streams[sid].Listing?
      && (s.streams[sid].stage.Filtering? ==> peer in s.streams[sid].stage.rest)
    case Validate(sid) => HasArrived(s, sid) && s.streams[sid].msg.AclChange?
    case ApplyAcl(sid, _) =>
      sid in s.streams && s.streams[sid].Approved? && s.streams[sid].msg.AclChange? && Unlocked(s)
    case Reap(_) => Unlocked(s)
    case _ => true
  }

  /** What the action does to the registry. */
  function OpOf(s: Server, a: Action): R.Op
    requires Enabled(s, a)
  {
    match a
    case Wait(d) => R.Advance(d)
    case Handle(sid, choice) => Effect(s.sys.store, s.streams[sid].msg, choice)
    case ApplyAcl(sid, ok) => R.ChangeAcl(s.streams[sid].msg.change, ok)
    case Dashboard(change, ok) => R.ChangeAcl(change, ok)
    case Reap(lost) => R.Reap(lost)
    case Restart(mono, down) => R.Restart(mono, down)
    case _ => R.Advance(0)
  }

  ghost function StreamsAfter(s: Server, a: Action): map<nat, Stream>
    requires Enabled(s, a)
  {
    match a
    case Open(sid, msg) => s.streams[sid := Arrived(msg)]
    case Handle(sid, choice) => s.streams[sid := Answered(Answer(s.sys.store, s.streams[sid].msg, choice, s.relayAddr))]
    case Begin(sid) =>
      var msg := s.streams[sid].msg;
      s.streams[sid := if !ValidSession(s.sys.store, msg.id, msg.token) then Answered(Pong)
                       else Listing(msg.id, if msg.GetPeers? then Starting else ListingGroups)]
    case Read(sid, peer) =>
      s.streams[sid := AfterRead(s.sys.store, s.streams[sid].id, s.streams[sid].stage, peer)]
    case Validate(sid) =>
      var msg := s.streams[sid].msg;
      s.streams[sid := if ValidSession(s.sys.store, msg.id, msg.token) then Approved(msg) else Answered(Pong)]
    case ApplyAcl(sid, _) => s.streams[sid := Answered(Pong)]
    case Restart(_, _) => map[]
    case _ => s.streams
  }

  ghost function Next(s: Server, a: Action): Server
    requires Enabled(s, a)
  {
    Server(R.Next(s.sys, OpOf(s, a)), StreamsAfter(s, a), s.relayAddr)
  }

  /** `ss` is the sequence of states that the actions `acts` lead through. */
  ghost predicate Path(ss: seq<Server>, acts: seq<Action>) {
    && |ss| == |acts| + 1
    && forall k :: 0 <= k < |acts| ==> Enabled(ss[k], acts[k]) && ss[k + 1] == Next(ss[k], acts[k])
  }

  ghost predicate Run(ss: seq<Server>, acts: seq<Action>) {
    Path(ss, acts) && R.Init(ss[0].sys) && ss[0].streams == map[]
  }

  // --------------------------------------------- refinement to registry runs

  function Systems(ss: seq<Server>): seq<R.Sys> {
    seq(|ss|, k requires 0 <= k < |ss| => ss[k].sys)
  }

  ghost function Ops(ss: seq<Server>, acts: seq<Action>): seq<R.Op>
    requires |ss| == |acts| + 1 && forall k :: 0 <= k < |acts| ==> Enabled(ss[k], acts[k])
  {
    seq(|acts|, k requires 0 <= k < |acts| => OpOf(ss[k], acts[k]))
  }

  /** Every interleaving of streams, dashboard, reaper and restarts is a run of the
      registry, so all that holds over registry runs holds of the server. */
  lemma ServerRunsAreRegistryRuns(ss: seq<Server>, acts: seq<Action>)
    requires Run(ss, acts)
    ensures R.Run(Systems(ss), Ops(ss, acts))
  {
  }

  lemma LinkedRun(ss: seq<Server>, acts: seq<Action>, n: nat)
    requires Run(ss, acts) && n < |ss|
    ensures Linked(ss[n].sys.store)
  {
    ServerRunsAreRegistryRuns(ss, acts);
    R.MemoryIsBackedByRows(Systems(ss), Ops(ss, acts), n);
  }

  // ---------------------------------------------------------------- sessions

  ghost predicate Live(ss: seq<Server>, id: Id, i: int, j: int)
    requires 0 <= i && j < |ss|
  {
    forall k :: i <= k <= j ==> id in ss[k].sys.store.nodes
  }

  lemma IdentityStep(s: R.Sys, op: R.Op, id: Id)
    requires Linked(s.store) && id in s.store.nodes && id in R.Next(s, op).store.nodes
    ensures var e, e' := s.store.nodes[id], R.Next(s, op).store.nodes[id];
      && e'.sessionToken == e.sessionToken && e'.info.vpnIp == e.info.vpnIp
      && e'.info.name == e.info.name && e'.info.publicKey == e.info.publicKey
  {
  }

  /** While a node exists its token never changes, nor do its name, address and
      key; restarts and colliding draws included. */
  lemma {:induction false} SessionsAreConstant(ss: seq<Server>, acts: seq<Action>, id: Id, i: nat, j: nat)
    requires Run(ss, acts) && i <= j < |ss| && Live(ss, id, i, j)
    ensures var e, e' := ss[i].sys.store.nodes[id], ss[j].sys.store.nodes[id];
      && e'.sessionToken == e.sessionToken && e'.info.vpnIp == e.info.vpnIp
      && e'.info.name == e.info.name && e'.info.publicKey == e.info.publicKey
  {
    hide R.Next, OpOf, StreamsAfter, Linked;
    if i < j {
      SessionsAreConstant(ss, acts, id, i, j - 1);
      LinkedRun(ss, acts, j - 1);
      assert Enabled(ss[j - 1], acts[j - 1]) && ss[j] == Next(ss[j - 1], acts[j - 1]);
      IdentityStep(ss[j - 1].sys, OpOf(ss[j - 1], acts[j - 1]), id);
    }
  }

  /** The token that a registration is answered with opens its node, at the address
      answered, for as long as the node exists; and no other token does. */
  lemma GrantedSessionsLast(ss: seq<Server>, acts: seq<Action>, n: nat, j: nat, g: Granted)
    requires Run(ss, acts) && n < j < |ss| && acts[n].Handle?
    requires acts[n].sid in ss[n + 1].streams && ss[n + 1].streams[acts[n].sid] == Answered(RegisterOk(g))
    requires Live(ss, g.nodeId, n + 1, j)
    ensures forall token :: ValidSession(ss[j].sys.store, g.nodeId, token) <==> token == g.sessionToken
    ensures ss[j].sys.store.nodes[g.nodeId].info.vpnIp == g.vpnIp
  {
    assert Enabled(ss[n], acts[n]) && ss[n + 1] == Next(ss[n], acts[n]);
    GrantStep(ss[n], acts[n], g);
    SessionsAreConstant(ss, acts, g.nodeId, n + 1, j);
  }

  lemma GrantStep(s: Server, a: Action, g: Granted)
    requires Enabled(s, a) && a.Handle? && Next(s, a).streams[a.sid] == Answered(RegisterOk(g))
    ensures var msg, nodes := s.streams[a.sid].msg, Next(s, a).sys.store.nodes;
      && msg.Register? && g.nodeId in nodes && nodes[g.nodeId].sessionToken == g.sessionToken
      && nodes[g.nodeId].info == PeerInfo(g.nodeId, msg.name, g.vpnIp, msg.publicKey, "", true)
  {
  }

  // ------------------------------------------------------------ authorisation

  predicate ValidAt(s: Server, msg: Message)
    requires msg.AclChange?
  {
    ValidSession(s.sys.store, msg.id, msg.token)
  }

  /** The request on stream `sid` was validated at step `m`, in this run of the
      server, and has waited for the write lock since. */
  ghost predicate ApprovedAt(ss: seq<Server>, acts: seq<Action>, sid: nat, msg: Message, m: nat, n: nat)
    requires |ss| == |acts| + 1 && m < n < |ss| && msg.AclChange?
  {
    && acts[m] == Validate(sid) && sid in ss[m].streams && ss[m].streams[sid] == Arrived(msg) && ValidAt(ss[m], msg)
    && forall k :: m < k <= n ==> sid in ss[k].streams && ss[k].streams[sid] == Approved(msg)
  }

  lemma StreamStep(s: Server, a: Action, sid: nat)
    requires Enabled(s, a) && sid in Next(s, a).streams && Next(s, a).streams[sid].Approved?
    ensures var msg := Next(s, a).streams[sid].msg;
      || (sid in s.streams && s.streams[sid] == Approved(msg))
      || (a == Validate(sid) && sid in s.streams && s.streams[sid] == Arrived(msg) && msg.AclChange? && ValidAt(s, msg))
  {
  }

  lemma {:induction false} ApprovalsAreEarned(ss: seq<Server>, acts: seq<Action>, sid: nat, n: nat)
    requires Run(ss, acts) && n < |ss| && sid in ss[n].streams && ss[n].streams[sid].Approved?
    ensures var msg := ss[n].streams[sid].msg;
      msg.AclChange? && exists m: nat :: m < n && ApprovedAt(ss, acts, sid, msg, m, n)
  {
    hide R.Next, StreamsAfter, OpOf;
    var m, msg := n - 1, ss[n].streams[sid].msg;
    assert Enabled(ss[m], acts[m]) && ss[n] == Next(ss[m], acts[m]);
    StreamStep(ss[m], acts[m], sid);
    if sid in ss[m].streams && ss[m].streams[sid] == Approved(msg) {
      ApprovalsAreEarned(ss, acts, sid, m);
      var k: nat :| k < m && ApprovedAt(ss, acts, sid, msg, k, m);
      assert ApprovedAt(ss, acts, sid, msg, k, n);
    } else {
      assert ApprovedAt(ss, acts, sid, msg, m, n);
    }
  }

  /** Between validation at `m` and state `n` the caller's node was reaped. */
  ghost predicate Reaped(ss: seq<Server>, id: Id, m: nat, n: nat)
    requires n < |ss|
  {
    exists k :: m < k <= n && id !in ss[k].sys.store.nodes
  }

  /** Every ACL change that a stream applies was validated earlier on that stream,
      and when it is applied the caller is still valid or was reaped in between. */
  lemma AppliedChangesAreAuthorised(ss: seq<Server>, acts: seq<Action>, n: nat)
    requires Run(ss, acts) && n < |acts| && acts[n].ApplyAcl?
    ensures acts[n].sid in ss[n].streams && ss[n].streams[acts[n].sid].Approved?
      && ss[n].streams[acts[n].sid].msg.AclChange?
    ensures var msg := ss[n].streams[acts[n].sid].msg;
      exists m: nat :: m < n && ApprovedAt(ss, acts, acts[n].sid, msg, m, n) && (ValidAt(ss[n], msg)
        || Reaped(ss, msg.id, m, n))
  {
    hide R.Next, StreamsAfter, OpOf;
    var sid := acts[n].sid;
    assert Enabled(ss[n], acts[n]);
    var msg := ss[n].streams[sid].msg;
    ApprovalsAreEarned(ss, acts, sid, n);
    var m: nat :| m < n && ApprovedAt(ss, acts, sid, msg, m, n);
    if !Reaped(ss, msg.id, m, n) {
      assert Live(ss, msg.id, m, n);
      SessionsAreConstant(ss, acts, msg.id, m, n);
    }
  }

  /** The entry and the row of `id`, where there are any, carry `token`. */
  predicate HoldsToken(s: Server, id: Id, token: string) {
    && (id in s.sys.store.nodes ==> s.sys.store.nodes[id].sessionToken == token)
    && (id in s.sys.store.db.rows ==> s.sys.store.db.rows[id].sessionToken == token)
  }

  lemma RowTokenStep(s: R.Sys, op: R.Op, id: Id)
    requires op.Register? ==> op.r.id != id
    ensures id in R.Next(s, op).store.db.rows ==>
      id in s.store.db.rows && R.Next(s, op).store.db.rows[id].sessionToken == s.store.db.rows[id].sessionToken
  {
  }

  lemma HoldsTokenStep(s: Server, a: Action, id: Id, token: string)
    requires Enabled(s, a) && Linked(s.sys.store) && HoldsToken(s, id, token)
    requires a.Handle? ==> a.choice.id != id
    ensures HoldsToken(Next(s, a), id, token)
  {
    hide R.Next, StreamsAfter;
    var op := OpOf(s, a);
    RowTokenStep(s.sys, op, id);
    R.LinkedStep(s.sys, op);
  }

  /** If no registration draws the id of a valid session again, its token is the
      only one that ever opens that id: at any later time the caller is valid or
      has no node at all, even if a restart brings a reaped node back. */
  lemma {:induction false} FreshIdsLeaveNoImpostor(
      ss: seq<Server>, acts: seq<Action>, id: Id, token: string, m: nat, n: nat)
    requires Run(ss, acts) && m <= n < |ss| && ValidSession(ss[m].sys.store, id, token)
    requires forall k :: m <= k < n && acts[k].Handle? ==> acts[k].choice.id != id
    ensures HoldsToken(ss[n], id, token)
    ensures ValidSession(ss[n].sys.store, id, token) <==> id in ss[n].sys.store.nodes
  {
    hide R.Next, StreamsAfter, OpOf;
    LinkedRun(ss, acts, m);
    if m < n {
      FreshIdsLeaveNoImpostor(ss, acts, id, token, m, n - 1);
      LinkedRun(ss, acts, n - 1);
      assert Enabled(ss[n - 1], acts[n - 1]) && ss[n] == Next(ss[n - 1], acts[n - 1]);
      HoldsTokenStep(ss[n - 1], acts[n - 1], id, token);
    }
  }

  /** A request that names a session, but no node in memory or not its token, when it
      is handled, admitted or validated leaves the registry as it was, and is answered `Pong`. */
  lemma UnauthenticRequestsChangeNothing(s: Server, a: Action)
    requires Enabled(s, a) && (a.Handle? || a.Begin? || a.Validate?)
    requires !s.streams[a.sid].msg.Register? && !s.streams[a.sid].msg.Other?
    requires var msg, nodes := s.streams[a.sid].msg, s.sys.store.nodes;
      msg.id !in nodes || nodes[msg.id].sessionToken != msg.token
    ensures Next(s, a).sys == s.sys
    ensures Next(s, a).streams == s.streams[a.sid := Answered(Pong)]
  {
  }

  // --------------------------------------------------- where the tables come from

  /** The change that the action stores: a stream's, or the dashboard's. */
  function ChangeStored(s: Server, a: Action): Option<Acl.Change>
    requires Enabled(s, a)
  {
    match a
    case ApplyAcl(sid, ok) => if ok then Some(s.streams[sid].msg.change) else None
    case Dashboard(change, ok) => if ok then Some(change) else None
    case _ => None
  }

  lemma AclStep(s: Server, a: Action)
    requires Enabled(s, a)
    ensures Next(s, a).sys.store.db.acl ==
            match ChangeStored(s, a)
            case Some(change) => Acl.Apply(s.sys.store.db.acl, change)
            case None => s.sys.store.db.acl
  {
  }

  /** The changes that were stored before state `n`, in order: those of streams, and
      those of the dashboard if `all` is set. */
  ghost function Stored(ss: seq<Server>, acts: seq<Action>, n: nat, all: bool): seq<Acl.Change>
    requires Run(ss, acts) && n < |ss|
  {
    if n == 0 then []
    else
      var s, a, before := ss[n - 1], acts[n - 1], Stored(ss, acts, n - 1, all);
      assert Enabled(s, a);
      if ChangeStored(s, a).Some? && (all || !a.Dashboard?) then before + [ChangeStored(s, a).value] else before
  }

  /** The ACL tables are those of the start with exactly these changes made. */
  lemma {:induction false} TablesAreTheStoredHistory(ss: seq<Server>, acts: seq<Action>, n: nat)
    requires Run(ss, acts) && n < |ss|
    ensures ss[n].sys.store.db.acl == Acl.ApplyAll(ss[0].sys.store.db.acl, Stored(ss, acts, n, true))
  {
    if n > 0 {
      TablesAreTheStoredHistory(ss, acts, n - 1);
      AclStep(ss[n - 1], acts[n - 1]);
    }
  }

  /** If a step changes the tables, it is the dashboard's, or a stream's whose change
      was validated. */
  lemma TableChangesAreAuthorisedOrPosted(ss: seq<Server>, acts: seq<Action>, n: nat)
    requires Run(ss, acts) && n < |acts| && ss[n + 1].sys.store.db.acl != ss[n].sys.store.db.acl
    ensures acts[n].Dashboard? || acts[n].ApplyAcl?
    ensures acts[n].ApplyAcl? ==> acts[n].sid in ss[n].streams && ss[n].streams[acts[n].sid].Approved?
    ensures acts[n].ApplyAcl? ==>
      var msg := ss[n].streams[acts[n].sid].msg;
      && msg.AclChange?
      && ss[n + 1].sys.store.db.acl == Acl.Apply(ss[n].sys.store.db.acl, msg.change)
      && exists m: nat :: m < n && ApprovedAt(ss, acts, acts[n].sid, msg, m, n)
  {
    hide R.Next, StreamsAfter, OpOf;
    assert Enabled(ss[n], acts[n]);
    AclStep(ss[n], acts[n]);
    if acts[n].ApplyAcl? {
      AppliedChangesAreAuthorised(ss, acts, n);
    }
  }

  /** Up to state `n` the tables are always those that the streams' validated
      changes make. */
  ghost predicate AlwaysAuthorised(ss: seq<Server>, acts: seq<Action>, n: nat)
    requires Run(ss, acts) && n < |ss|
  {
    forall k: nat :: k <= n ==> AuthorisedAt(ss, acts, k)
  }

  ghost predicate AuthorisedAt(ss: seq<Server>, acts: seq<Action>, k: nat)
    requires Run(ss, acts)
  {
    k < |ss| ==> ss[k].sys.store.db.acl == Acl.ApplyAll(ss[0].sys.store.db.acl, Stored(ss, acts, k, false))
  }

  /** Whatever was posted to the dashboard so far had no effect when it came. */
  ghost predicate DashboardIdle(ss: seq<Server>, acts: seq<Action>, n: nat)
    requires n <= |acts| < |ss|
  {
    forall k :: 0 <= k < n && acts[k].Dashboard? && acts[k].ok ==>
      Acl.Apply(ss[k].sys.store.db.acl, acts[k].change) == ss[k].sys.store.db.acl
  }

  lemma AuthorisedStepIff(ss: seq<Server>, acts: seq<Action>, k: nat)
    requires Run(ss, acts) && k < |acts| && AuthorisedAt(ss, acts, k)
    ensures var acl := ss[k].sys.store.db.acl;
      AuthorisedAt(ss, acts, k + 1) <==> (acts[k].Dashboard? && acts[k].ok ==> Acl.Apply(acl, acts[k].change) == acl)
  {
    hide R.Next, StreamsAfter, OpOf;
    assert Enabled(ss[k], acts[k]);
    AclStep(ss[k], acts[k]);
  }

  /** The tables are always those that validated changes make if and only if the
      dashboard never changes them. */
  lemma {:induction false} TablesAreAuthorisedIff(ss: seq<Server>, acts: seq<Action>, n: nat)
    requires Run(ss, acts) && n < |ss|
    ensures AlwaysAuthorised(ss, acts, n) <==> DashboardIdle(ss, acts, n)
  {
    hide AuthorisedAt;
    if n == 0 {
      AuthorisedAtFirst(ss, acts);
    } else {
      var m := n - 1;
      TablesAreAuthorisedIff(ss, acts, m);
      assert AlwaysAuthorised(ss, acts, n) <==> AlwaysAuthorised(ss, acts, m) && AuthorisedAt(ss, acts, n);
      if AlwaysAuthorised(ss, acts, m) {
        AuthorisedStepIff(ss, acts, m);
      }
    }
  }

  lemma AuthorisedAtFirst(ss: seq<Server>, acts: seq<Action>)
    requires Run(ss, acts)
    ensures AuthorisedAt(ss, acts, 0)
  {
  }

  /** One request to the dashboard does change them, while there is no stream at
      all and no node that could have been validated. */
  lemma DashboardNeedsNoSession(s: Server, change: Acl.Change)
    requires R.Init(s.sys) && s.streams == map[] && Acl.Apply(s.sys.store.db.acl, change) != s.sys.store.db.acl
    ensures var ss, acts := [s, Next(s, Dashboard(change, true))], [Dashboard(change, true)];
      && Run(ss, acts) && ss[1].streams == map[] && ss[1].sys.store.nodes == map[]
      && ss[1].sys.store.db.acl == Acl.Apply(s.sys.store.db.acl, change)
      && !AlwaysAuthorised(ss, acts, 1)
  {
    var ss, acts := [s, Next(s, Dashboard(change, true))], [Dashboard(change, true)];
    assert Run(ss, acts);
    TablesAreAuthorisedIff(ss, acts, 1);
    assert acts[0].Dashboard?;
  }
}
