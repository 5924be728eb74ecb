/** What the answers to listings mean when the dashboard writes between the reads
    that they are made of. */
module CcsListings {
  import opened Wrappers
  import opened AddressPool
  import opened RegistryState
  import opened PeerLists
  import opened CcsServer
  import R = RegistryRuns
  import Acl

  function AclAt(ss: seq<Server>, k: nat): Acl.Tables
    requires k < |ss|
  {
    ss[k].sys.store.db.acl
  }

  function NodesAt(ss: seq<Server>, k: nat): map<Id, NodeEntry>
    requires k < |ss|
  {
    ss[k].sys.store.nodes
  }

  predicate IsListing(s: Server, sid: nat, id: Id) {
    sid in s.streams && s.streams[sid].Listing? && s.streams[sid].id == id
  }

  /** Stream `sid` asked for the peers of `id` in a valid session, was admitted at
      step `m`, and has been read for since. */
  ghost predicate Begun(ss: seq<Server>, acts: seq<Action>, sid: nat, id: Id, m: nat, n: nat)
    requires |ss| == |acts| + 1
  {
    && m < n < |ss| && acts[m] == Begin(sid)
    && HasArrived(ss[m], sid) && ss[m].streams[sid].msg.GetPeers? && ss[m].streams[sid].msg.id == id
    && ValidSession(ss[m].sys.store, id, ss[m].streams[sid].msg.token)
    && forall k :: m < k <= n ==> IsListing(ss[k], sid, id)
  }

  /** A listing stream is moved only by its own reads; and while it holds the
      registry's lock the nodes stay as they are. */
  lemma ListingStep(s: Server, a: Action, sid: nat, id: Id)
    requires Enabled(s, a) && IsListing(s, sid, id) && sid in Next(s, a).streams
    ensures Next(s, a).sys.store.nodes == s.sys.store.nodes
    ensures Next(s, a).streams[sid] ==
            if a.Read? && a.sid == sid then AfterRead(s.sys.store, id, s.streams[sid].stage, a.peer)
            else s.streams[sid]
  {
  }

  lemma BeginStep(s: Server, sid: nat)
    requires Enabled(s, Begin(sid)) && s.streams[sid].msg.GetPeers? && Next(s, Begin(sid)).streams[sid].Listing?
    ensures Next(s, Begin(sid)).streams[sid] == Listing(s.streams[sid].msg.id, Starting)
  {
  }

  /** While a peer list holds the lock, only the dashboard changes the tables. */
  lemma OnlyDashboardDisturbs(ss: seq<Server>, acts: seq<Action>, sid: nat, id: Id, m: nat, n: nat, k: nat)
    requires Run(ss, acts) && Begun(ss, acts, sid, id, m, n) && m <= k < n
    requires ss[k + 1].sys.store.db != ss[k].sys.store.db
    ensures acts[k].Dashboard?
    ensures ss[k + 1].sys.store.db == ss[k].sys.store.db.(acl := Acl.Apply(AclAt(ss, k), acts[k].change))
  {
    assert Enabled(ss[k], acts[k]) && ss[k + 1] == Next(ss[k], acts[k]);
    DatabaseStep(ss[k], acts[k], sid);
  }

  lemma DatabaseStep(s: Server, a: Action, sid: nat)
    requires Enabled(s, a) && ((sid in s.streams && s.streams[sid].Listing?) || a.Begin?)
    requires Next(s, a).sys.store.db != s.sys.store.db
    ensures a.Dashboard?
    ensures Next(s, a).sys.store.db == s.sys.store.db.(acl := Acl.Apply(s.sys.store.db.acl, a.change))
  {
  }

  // ------------------------------------------------------ when each read came

  /** The states in which a listing read what it read. */
  datatype Moments = Moments(rules: nat, mine: nat, visible: nat, peers: map<Id, nat>)

  predicate InOrder(w: Moments, m: nat, n: nat) {
    && m < w.rules <= w.mine <= w.visible <= n
    && forall p :: p in w.peers ==> w.visible <= w.peers[p] <= n
  }

  ghost function ReadsAt(ss: seq<Server>, w: Moments, n: nat): Reads
    requires w.rules <= n && w.mine <= n && w.visible <= n < |ss|
  {
    Reads(AclAt(ss, w.rules), AclAt(ss, w.mine), AclAt(ss, w.visible),
          p => AclAt(ss, if p in w.peers && w.peers[p] <= n then w.peers[p] else n))
  }

  /** The members of `peers` that one of the visible groups has, each when read. */
  ghost function KeptAt(ss: seq<Server>, peers: map<Id, nat>, visible: set<string>): set<Id>
    requires forall p :: p in peers ==> peers[p] < |ss|
  {
    set p | p in peers && GroupsOf(AclAt(ss, peers[p]), p) * visible != {}
  }

  lemma KeptAtGrows(ss: seq<Server>, peers: map<Id, nat>, visible: set<string>, peer: Id, k: nat)
    requires (forall p :: p in peers ==> peers[p] < |ss|) && peer !in peers && k < |ss|
    ensures KeptAt(ss, peers[peer := k], visible) ==
            KeptAt(ss, peers, visible) + if GroupsOf(AclAt(ss, k), peer) * visible != {} then {peer} else {}
  {
    assert forall p :: p in peers ==> p != peer && peers[peer := k][p] == peers[p];
  }

  /** The stage holds what the tables said at those moments, all before state `n`. */
  ghost predicate Holds(ss: seq<Server>, id: Id, stage: Stage, m: nat, w: Moments, n: nat)
    requires n < |ss|
  {
    match stage
    case Starting => true
    case Ruled => m < w.rules < n && AclAt(ss, w.rules).rules != {}
    case Grouped(mine) =>
      && m < w.rules < w.mine < n && AclAt(ss, w.rules).rules != {}
      && mine == GroupsOf(AclAt(ss, w.mine), id)
    case Filtering(visible, rest, kept) =>
      && m < w.rules < w.mine < w.visible < n && AclAt(ss, w.rules).rules != {}
      && visible == VisibleFrom(AclAt(ss, w.visible), GroupsOf(AclAt(ss, w.mine), id))
      && (forall p :: p in w.peers ==> w.visible < w.peers[p] < n)
      && {} != rest <= NodesAt(ss, n).Keys - {id} && w.peers.Keys == NodesAt(ss, n).Keys - {id} - rest
      && kept == KeptAt(ss, w.peers, visible)
    case _ => false
  }

  /** The listing has not found out whether there are rules. */
  predicate Undecided(s: Server, sid: nat) {
    sid in s.streams && s.streams[sid].Listing? && s.streams[sid].stage.Starting?
  }

  /** The listing has found what groups its caller may see. */
  predicate Decided(s: Server, sid: nat) {
    sid in s.streams && s.streams[sid].Listing? && s.streams[sid].stage.Filtering?
  }

  ghost predicate Tracked(ss: seq<Server>, sid: nat, id: Id, m: nat, w: Moments, n: nat)
    requires n < |ss|
  {
    && m < n && IsListing(ss[n], sid, id)
    && Holds(ss, id, ss[n].streams[sid].stage, m, w, n)
    && (forall k :: m < k <= n ==> NodesAt(ss, k) == NodesAt(ss, n))
    && (forall k :: m < k <= n ==> (Undecided(ss[k], sid) <==> Undecided(ss[n], sid) || k <= w.rules))
    && (forall k :: m < k <= n ==> (Decided(ss[k], sid) <==> Decided(ss[n], sid) && w.visible < k))
  }

  function AfterMoment(w: Moments, stage: Stage, k: nat, peer: Id): Moments {
    match stage
    case Starting => w.(rules := k)
    case Ruled => w.(mine := k)
    case Grouped(_) => w.(visible := k, peers := map[])
    case _ => w.(peers := w.peers[peer := k])
  }

  lemma HoldsAfterRead(ss: seq<Server>, id: Id, stage: Stage, m: nat, w: Moments, k: nat, peer: Id)
    requires k + 1 < |ss| && m < k && NodesAt(ss, k + 1) == NodesAt(ss, k) && Holds(ss, id, stage, m, w, k)
    requires stage.Filtering? ==> peer in stage.rest
    requires AfterRead(ss[k].sys.store, id, stage, peer).Listing?
    ensures Holds(ss, id, AfterRead(ss[k].sys.store, id, stage, peer).stage, m, AfterMoment(w, stage, k, peer), k + 1)
  {
    hide KeptAt;
    if stage.Filtering? {
      KeptAtGrows(ss, w.peers, stage.visible, peer, k);
    } else if stage.Grouped? {
      NoneKeptAt(ss, VisibleFrom(AclAt(ss, k), stage.mine));
    }
  }

  lemma NoneKeptAt(ss: seq<Server>, visible: set<string>)
    ensures KeptAt(ss, map[], visible) == {}
  {
  }

  lemma HoldsLater(ss: seq<Server>, id: Id, stage: Stage, m: nat, w: Moments, k: nat)
    requires k + 1 < |ss| && NodesAt(ss, k + 1) == NodesAt(ss, k) && Holds(ss, id, stage, m, w, k)
    ensures Holds(ss, id, stage, m, w, k + 1)
  {
  }

  lemma TrackedStep(ss: seq<Server>, a: Action, sid: nat, id: Id, m: nat, w: Moments, n: nat)
    requires 0 < n < |ss| && Enabled(ss[n - 1], a) && ss[n] == Next(ss[n - 1], a)
    requires Tracked(ss, sid, id, m, w, n - 1) && IsListing(ss[n], sid, id)
    ensures exists w' :: Tracked(ss, sid, id, m, w', n)
  {
    hide Next, Holds;
    var k := n - 1;
    var stage := ss[k].streams[sid].stage;
    ListingStep(ss[k], a, sid, id);
    if a.Read? && a.sid == sid {
      HoldsAfterRead(ss, id, stage, m, w, k, a.peer);
      StagesAfterRead(ss, id, stage, m, w, k, a.peer);
      assert Tracked(ss, sid, id, m, AfterMoment(w, stage, k, a.peer), n);
    } else {
      HoldsLater(ss, id, stage, m, w, k);
      assert Tracked(ss, sid, id, m, w, n);
    }
  }

  lemma StagesAfterRead(ss: seq<Server>, id: Id, stage: Stage, m: nat, w: Moments, k: nat, peer: Id)
    requires k < |ss| && Holds(ss, id, stage, m, w, k) && AfterRead(ss[k].sys.store, id, stage, peer).Listing?
    ensures var next := AfterRead(ss[k].sys.store, id, stage, peer).stage;
      && !next.Starting?
      && (next.Filtering? <==> stage.Grouped? || stage.Filtering?)
      && (stage.Filtering? ==> w.visible < k)
      && (!stage.Starting? ==> w.rules < k)
  {
  }

  lemma {:induction false} ListingsAreTracked(
    ss: seq<Server>, acts: seq<Action>, sid: nat, id: Id, m: nat, n: nat)
    requires Run(ss, acts) && Begun(ss, acts, sid, id, m, n)
    ensures exists w :: Tracked(ss, sid, id, m, w, n)
  {
    hide Next;
    assert Enabled(ss[m], acts[m]) && ss[m + 1] == Next(ss[m], acts[m]);
    if n == m + 1 {
      BeginStep(ss[m], sid);
      assert Tracked(ss, sid, id, m, Moments(n, n, n, map[]), n);
    } else {
      ListingsAreTracked(ss, acts, sid, id, m, n - 1);
      var w :| Tracked(ss, sid, id, m, w, n - 1);
      TrackedStep(ss, acts[n - 1], sid, id, m, w, n);
    }
  }

  /** Every peer list in progress was begun. */
  lemma {:induction false} ListingsWereBegun(ss: seq<Server>, acts: seq<Action>, sid: nat, n: nat)
    requires Run(ss, acts) && n < |ss| && sid in ss[n].streams && ss[n].streams[sid].Listing?
    requires !ss[n].streams[sid].stage.ListingGroups? && !ss[n].streams[sid].stage.ListingRules?
    ensures exists m: nat :: Begun(ss, acts, sid, ss[n].streams[sid].id, m, n)
  {
    hide R.Next, OpOf;
    var k, id := n - 1, ss[n].streams[sid].id;
    assert Enabled(ss[k], acts[k]) && ss[n] == Next(ss[k], acts[k]);
    if acts[k] == Begin(sid) {
      assert Begun(ss, acts, sid, id, k, n);
    } else {
      assert IsListing(ss[k], sid, id);
      ListingsWereBegun(ss, acts, sid, k);
      var m: nat :| Begun(ss, acts, sid, id, m, k);
      assert Begun(ss, acts, sid, id, m, n);
    }
  }

  // -------------------------------------------------------- what the answer is

  /** The answer to a peer list, at step `n`. */
  ghost predicate Answers(ss: seq<Server>, acts: seq<Action>, sid: nat, n: nat, peers: set<PeerInfo>)
    requires |ss| == |acts| + 1
  {
    && n < |acts| && acts[n].Read? && acts[n].sid == sid
    && sid in ss[n + 1].streams && ss[n + 1].streams[sid] == Answered(PeerList(peers))
  }

  /** The moments of a whole listing that is answered at step `n`; what it did not
      have to read it might as well have read then. */
  function Completed(w: Moments, stage: Stage, n: nat, peer: Id): Moments {
    match stage
    case Starting => Moments(n, n, n, map[])
    case Ruled => w.(mine := n, visible := n, peers := map[])
    case Grouped(_) => w.(visible := n, peers := map[])
    case _ => w.(peers := w.peers[peer := n])
  }

  /** `peers` are those that the reads at these moments permit. */
  ghost predicate SeenAt(ss: seq<Server>, id: Id, m: nat, w: Moments, n: nat, peers: set<PeerInfo>)
    requires n < |ss|
  {
    InOrder(w, m, n) && peers == Infos(NodesAt(ss, n), Seen(ReadsAt(ss, w, n), NodesAt(ss, n).Keys, id))
  }

  lemma EarlyAnswerIsSeen(
    ss: seq<Server>, id: Id, stage: Stage, m: nat, w: Moments, n: nat, peer: Id, peers: set<PeerInfo>)
    requires m < n < |ss| && Holds(ss, id, stage, m, w, n) && !stage.Filtering?
    requires AfterRead(ss[n].sys.store, id, stage, peer) == Answered(PeerList(peers))
    ensures SeenAt(ss, id, m, Completed(w, stage, n, peer), n, peers)
  {
    var w', ids := Completed(w, stage, n, peer), NodesAt(ss, n).Keys;
    var r := ReadsAt(ss, w', n);
    if stage.Starting? {
      assert Seen(r, ids, id) == ids - {id};
    } else {
      forall p | p in ids - {id} ensures !PermitsAcross(r, id, p) {
        PermitsAcrossIff(r, id, p);
      }
      assert Seen(r, ids, id) == {};
    }
  }

  lemma FilteredAnswerIsSeen(
    ss: seq<Server>, id: Id, stage: Stage, m: nat, w: Moments, n: nat, peer: Id, peers: set<PeerInfo>)
    requires m < n < |ss| && Holds(ss, id, stage, m, w, n) && stage.Filtering? && peer in stage.rest
    requires AfterRead(ss[n].sys.store, id, stage, peer) == Answered(PeerList(peers))
    ensures SeenAt(ss, id, m, Completed(w, stage, n, peer), n, peers)
  {
    hide Seen, KeptAt, ReadsAt;
    var w' := Completed(w, stage, n, peer);
    KeptAtGrows(ss, w.peers, stage.visible, peer, n);
    KeptAtIsSeen(ss, id, w', n, stage.visible);
  }

  lemma KeptAtIsSeen(ss: seq<Server>, id: Id, w: Moments, n: nat, visible: set<string>)
    requires w.rules <= n && w.mine <= n && w.visible <= n < |ss| && forall p :: p in w.peers ==> w.peers[p] <= n
    requires w.peers.Keys == NodesAt(ss, n).Keys - {id} && AclAt(ss, w.rules).rules != {}
    requires visible == VisibleFrom(AclAt(ss, w.visible), GroupsOf(AclAt(ss, w.mine), id))
    ensures Seen(ReadsAt(ss, w, n), NodesAt(ss, n).Keys, id) == KeptAt(ss, w.peers, visible)
  {
    var r, ids := ReadsAt(ss, w, n), NodesAt(ss, n).Keys;
    forall p | p in ids - {id} ensures p in KeptAt(ss, w.peers, visible) <==> PermitsAcross(r, id, p) {
      PermitsAcrossIff(r, id, p);
    }
  }

  /** Between admission at step `m` and the answer at step `n`, stream `sid` was
      undecided up to the first of these moments and decided after the third. */
  ghost predicate ReadWhen(ss: seq<Server>, sid: nat, m: nat, w: Moments, n: nat)
    requires n < |ss|
  {
    && (forall k :: m < k <= n ==> (Undecided(ss[k], sid) <==> k <= w.rules))
    && (forall k :: m < k <= n ==> (Decided(ss[k], sid) <==> w.visible < k))
  }

  /** The peers answered are exactly those that the reads permit, each read in its
      turn between admission and answer, with the entries that they have all the
      time: nodes cannot come, go or change meanwhile. */
  lemma PeerListsAreSeen(
    ss: seq<Server>, acts: seq<Action>, sid: nat, id: Id, m: nat, n: nat, peers: set<PeerInfo>)
    requires Run(ss, acts) && Begun(ss, acts, sid, id, m, n) && Answers(ss, acts, sid, n, peers)
    ensures forall k :: m < k <= n ==> NodesAt(ss, k) == NodesAt(ss, n)
    ensures exists w :: ReadWhen(ss, sid, m, w, n) && SeenAt(ss, id, m, w, n, peers)
  {
    hide Next, Holds, SeenAt;
    ListingsAreTracked(ss, acts, sid, id, m, n);
    var w :| Tracked(ss, sid, id, m, w, n);
    var stage, peer := ss[n].streams[sid].stage, acts[n].peer;
    assert Enabled(ss[n], acts[n]) && ss[n + 1] == Next(ss[n], acts[n]);
    ListingStep(ss[n], acts[n], sid, id);
    if stage.Filtering? {
      FilteredAnswerIsSeen(ss, id, stage, m, w, n, peer, peers);
    } else {
      EarlyAnswerIsSeen(ss, id, stage, m, w, n, peer, peers);
    }
    StagesOfAnswer(ss, id, stage, m, w, n);
    assert ReadWhen(ss, sid, m, Completed(w, stage, n, peer), n);
  }

  lemma StagesOfAnswer(ss: seq<Server>, id: Id, stage: Stage, m: nat, w: Moments, n: nat)
    requires n < |ss| && Holds(ss, id, stage, m, w, n)
    ensures !stage.Starting? ==> w.rules < n
    ensures stage.Filtering? ==> w.visible < n
    ensures !stage.ListingGroups? && !stage.ListingRules?
  {
  }

  /** If the dashboard changes nothing in between, the answer is what the caller may
      see, from admission to answer. */
  lemma UndisturbedPeerList(
    ss: seq<Server>, acts: seq<Action>, sid: nat, id: Id, m: nat, n: nat, peers: set<PeerInfo>)
    requires Run(ss, acts) && Begun(ss, acts, sid, id, m, n) && Answers(ss, acts, sid, n, peers)
    requires forall k :: m < k <= n ==> AclAt(ss, k) == AclAt(ss, n)
    ensures forall k :: m < k <= n ==> peers == PeersOf(ss[k].sys.store, id)
  {
    hide Next, SeenAt, PeersOf;
    PeerListsAreSeen(ss, acts, sid, id, m, n, peers);
    var w :| ReadWhen(ss, sid, m, w, n) && SeenAt(ss, id, m, w, n, peers);
    UndisturbedAnswer(ss, id, m, w, n, peers);
    forall k | m < k <= n ensures PeersOf(ss[k].sys.store, id) == PeersOf(ss[n].sys.store, id) {
      assert NodesAt(ss, k) == NodesAt(ss, n) && AclAt(ss, k) == AclAt(ss, n);
      SamePeers(ss[k].sys.store, ss[n].sys.store, id);
    }
  }

  lemma SamePeers(s: Store, t: Store, id: Id)
    requires s.nodes == t.nodes && s.db.acl == t.db.acl
    ensures PeersOf(s, id) == PeersOf(t, id)
  {
  }

  lemma UndisturbedAnswer(ss: seq<Server>, id: Id, m: nat, w: Moments, n: nat, peers: set<PeerInfo>)
    requires n < |ss| && SeenAt(ss, id, m, w, n, peers)
    requires forall k :: m < k <= n ==> AclAt(ss, k) == AclAt(ss, n)
    ensures peers == PeersOf(ss[n].sys.store, id)
  {
    hide Seen, Acl.Visible, Infos;
    UndisturbedListing(ReadsAt(ss, w, n), AclAt(ss, n), NodesAt(ss, n).Keys, id);
  }

  /** The only change between admission and answer is the dashboard's at step `c`. */
  ghost predicate ChangesOnlyAt(ss: seq<Server>, acts: seq<Action>, m: nat, c: nat, n: nat)
    requires n <= |acts| < |ss|
  {
    && m < c < n && acts[c].Dashboard? && acts[c].ok
    && (forall k :: m < k <= c ==> AclAt(ss, k) == AclAt(ss, c))
    && (forall k :: c < k <= n ==> AclAt(ss, k) == AclAt(ss, c + 1))
  }

  /** It removes the last rule from a listing that has found that there are rules and
      has not yet looked for those of a caller who saw somebody. */
  ghost predicate RemovesRulesMidway(s: Server, s': Server, sid: nat, id: Id) {
    && !Undecided(s, sid) && !Decided(s, sid)
    && s.sys.store.db.acl.rules != {} && s'.sys.store.db.acl.rules == {}
    && PeersOf(s.sys.store, id) != {}
  }

  /** Then the answer is what the caller might see before the change or after it,
      except in that one case. */
  lemma DisturbedPeerListIff(
    ss: seq<Server>, acts: seq<Action>, sid: nat, id: Id, m: nat, c: nat, n: nat, peers: set<PeerInfo>)
    requires Run(ss, acts) && Begun(ss, acts, sid, id, m, n) && Answers(ss, acts, sid, n, peers)
    requires ChangesOnlyAt(ss, acts, m, c, n)
    ensures peers == PeersOf(ss[c].sys.store, id) || peers == PeersOf(ss[c + 1].sys.store, id) <==>
            !RemovesRulesMidway(ss[c], ss[c + 1], sid, id)
  {
    hide Next, SeenAt, Undecided, Decided, RemovesRulesMidway;
    PeerListsAreSeen(ss, acts, sid, id, m, n, peers);
    var w :| ReadWhen(ss, sid, m, w, n) && SeenAt(ss, id, m, w, n, peers);
    ChangeAt(ss, acts, c, sid);
    LinkedRun(ss, acts, n);
    MidwayIff(ss, acts[c].change, sid, id, m, w, c, n, peers);
  }

  lemma MidwayIff(
    ss: seq<Server>, change: Acl.Change, sid: nat, id: Id, m: nat, w: Moments, c: nat, n: nat, peers: set<PeerInfo>)
    requires m < c < n < |ss| && Linked(ss[n].sys.store)
    requires ReadWhen(ss, sid, m, w, n) && SeenAt(ss, id, m, w, n, peers)
    requires forall k :: m < k <= n ==>
      NodesAt(ss, k) == NodesAt(ss, n) && AclAt(ss, k) == AclAt(ss, if k <= c then c else c + 1)
    requires AclAt(ss, c + 1) == Acl.Apply(AclAt(ss, c), change)
    requires Undecided(ss[c], sid) == Undecided(ss[c + 1], sid) && Decided(ss[c], sid) == Decided(ss[c + 1], sid)
    ensures peers == PeersOf(ss[c].sys.store, id) || peers == PeersOf(ss[c + 1].sys.store, id) <==>
            !RemovesRulesMidway(ss[c], ss[c + 1], sid, id)
  {
    hide Seen, Acl.Visible, Infos, Undecided, Decided, Linked;
    var r, s, ids := ReadsAt(ss, w, n), ss[n].sys.store, NodesAt(ss, n).Keys;
    var t, u := AclAt(ss, c), AclAt(ss, c + 1);
    var seen, before, after := Seen(r, ids, id), Acl.Visible(t, ids, id), Acl.Visible(u, ids, id);
    assert NodesAt(ss, c) == s.nodes && NodesAt(ss, c + 1) == s.nodes;
    assert ReadsAcross(r, t, u, ids, id);
    OneChangeIff(r, t, change, ids, id);
    assert RemovesRulesMidway(ss[c], ss[c + 1], sid, id) <==>
      (t.rules != {} && u.rules == {} && w.rules < c <= w.visible && Infos(s.nodes, before) != {});
    SeenAreIds(r, t, ids, id);
    SeenAreIds(r, u, ids, id);
    InfosAreDistinct(s, seen, before);
    InfosAreDistinct(s, seen, after);
    InfosAreDistinct(s, before, {});
    NoInfos(s.nodes);
  }

  lemma NoInfos(nodes: map<Id, NodeEntry>)
    ensures Infos(nodes, {}) == {}
  {
  }

  lemma SeenAreIds(r: Reads, t: Acl.Tables, ids: set<Id>, id: Id)
    ensures Seen(r, ids, id) <= ids && Acl.Visible(t, ids, id) <= ids
  {
  }

  lemma ChangeAt(ss: seq<Server>, acts: seq<Action>, c: nat, sid: nat)
    requires Run(ss, acts) && c < |acts| && acts[c].Dashboard? && acts[c].ok
    ensures AclAt(ss, c + 1) == Acl.Apply(AclAt(ss, c), acts[c].change)
    ensures Undecided(ss[c], sid) == Undecided(ss[c + 1], sid) && Decided(ss[c], sid) == Decided(ss[c + 1], sid)
  {
    assert Enabled(ss[c], acts[c]) && ss[c + 1] == Next(ss[c], acts[c]);
  }

  lemma InfosAreDistinct(s: Store, a: set<Id>, b: set<Id>)
    requires Linked(s) && a <= s.nodes.Keys && b <= s.nodes.Keys
    ensures Infos(s.nodes, a) == Infos(s.nodes, b) <==> a == b
  {
    if Infos(s.nodes, a) == Infos(s.nodes, b) {
      forall x | x in a ensures x in b {
        assert s.nodes[x].info in Infos(s.nodes, b);
      }
      forall x | x in b ensures x in a {
        assert s.nodes[x].info in Infos(s.nodes, a);
      }
    }
  }

  // ------------------------------------------------------ listings get answered

  /** How many more reads a peer list can take at most, among `nodes` nodes. */
  function ReadsLeft(stage: Stage, nodes: nat): nat {
    match stage
    case Starting => nodes + 3
    case Ruled => nodes + 2
    case Grouped(_) => nodes + 1
    case Filtering(_, rest, _) => |rest|
    case _ => 0
  }

  lemma ReadsGetFewer(s: Store, id: Id, stage: Stage, peer: Id)
    requires !stage.ListingGroups? && !stage.ListingRules?
    requires stage.Filtering? ==> peer in stage.rest
    ensures match AfterRead(s, id, stage, peer)
            case Answered(response) => response.PeerList?
            case Listing(x, next) => x == id && ReadsLeft(next, |s.nodes|) < ReadsLeft(stage, |s.nodes|)
            case _ => false
  {
    var others := s.nodes.Keys - {id};
    SubsetCount(others, s.nodes.Keys);
    assert |s.nodes.Keys| == |s.nodes|;
  }

  /** A peer list in progress can always read on, and every read brings it nearer to
      its answer: it takes at most as many reads as there are nodes, and three. */
  lemma ListingsProgress(ss: seq<Server>, acts: seq<Action>, sid: nat, id: Id, m: nat, n: nat)
    requires Run(ss, acts) && Begun(ss, acts, sid, id, m, n)
    ensures exists peer :: Enabled(ss[n], Read(sid, peer))
    ensures ReadsLeft(ss[n].streams[sid].stage, |NodesAt(ss, n)|) <= |NodesAt(ss, n)| + 3
    ensures forall peer :: Enabled(ss[n], Read(sid, peer)) ==>
      match Next(ss[n], Read(sid, peer)).streams[sid]
      case Answered(response) => response.PeerList?
      case Listing(_, next) =>
        ReadsLeft(next, |NodesAt(ss, n)|) < ReadsLeft(ss[n].streams[sid].stage, |NodesAt(ss, n)|)
      case _ => false
  {
    hide R.Next, OpOf, ReadsLeft, AfterRead;
    ListingsAreTracked(ss, acts, sid, id, m, n);
    var w :| Tracked(ss, sid, id, m, w, n);
    var stage := ss[n].streams[sid].stage;
    StageSize(ss, id, stage, m, w, n);
    forall peer | Enabled(ss[n], Read(sid, peer)) {
      ReadsGetFewer(ss[n].sys.store, id, stage, peer);
    }
    if stage.Filtering? {
      var peer :| peer in stage.rest;
      assert Enabled(ss[n], Read(sid, peer));
    } else {
      assert Enabled(ss[n], Read(sid, ""));
    }
  }

  lemma StageSize(ss: seq<Server>, id: Id, stage: Stage, m: nat, w: Moments, n: nat)
    requires n < |ss| && Holds(ss, id, stage, m, w, n)
    ensures !stage.ListingGroups? && !stage.ListingRules? && (stage.Filtering? ==> stage.rest != {})
    ensures ReadsLeft(stage, |NodesAt(ss, n)|) <= |NodesAt(ss, n)| + 3
  {
    if stage.Filtering? {
      SubsetCount(stage.rest, NodesAt(ss, n).Keys);
      assert |NodesAt(ss, n).Keys| == |NodesAt(ss, n)|;
    }
  }

  // ------------------------------------------------- a run with the wrong answer

  lemma AskStep(s: Server, sid: nat, msg: Message)
    requires sid !in s.streams && ReadsAcl(msg) && ValidSession(s.sys.store, msg.id, msg.token)
    ensures Enabled(s, Open(sid, msg))
    ensures var t := Next(s, Open(sid, msg));
      && Enabled(t, Begin(sid)) && t.sys.store == s.sys.store
      && Next(t, Begin(sid)).sys.store == s.sys.store
      && Next(t, Begin(sid)).streams ==
         s.streams[sid := Listing(msg.id, if msg.GetPeers? then Starting else ListingGroups)]
  {
  }

  lemma ReadStep(s: Server, sid: nat, id: Id, stage: Stage)
    requires sid in s.streams && s.streams[sid] == Listing(id, stage) && !stage.Filtering?
    ensures Enabled(s, Read(sid, "")) && Next(s, Read(sid, "")).sys.store == s.sys.store
    ensures Next(s, Read(sid, "")).streams == s.streams[sid := AfterRead(s.sys.store, id, stage, "")]
  {
  }

  lemma DashboardStep(s: Server, change: Acl.Change)
    ensures Enabled(s, Dashboard(change, true))
    ensures var t := Next(s, Dashboard(change, true));
      && t.streams == s.streams && t.sys.store.nodes == s.sys.store.nodes
      && t.sys.store.db.acl == Acl.Apply(s.sys.store.db.acl, change)
  {
  }

  /** The start of a listing: asked for, admitted and read for once. */
  lemma FirstRead(s: Server, sid: nat, msg: Message) returns (ss: seq<Server>)
    requires sid !in s.streams && ReadsAcl(msg) && ValidSession(s.sys.store, msg.id, msg.token)
    ensures Path(ss, [Open(sid, msg), Begin(sid), Read(sid, "")]) && ss[0] == s
    ensures forall k :: 0 <= k <= 3 ==> ss[k].sys.store == s.sys.store
    ensures ss[3].streams ==
            s.streams[sid := AfterRead(s.sys.store, msg.id, if msg.GetPeers? then Starting else ListingGroups, "")]
  {
    hide Next, Enabled, AfterRead;
    AskStep(s, sid, msg);
    var s1 := Next(s, Open(sid, msg));
    var s2 := Next(s1, Begin(sid));
    ReadStep(s2, sid, msg.id, if msg.GetPeers? then Starting else ListingGroups);
    var s3 := Next(s2, Read(sid, ""));
    ss := [s, s1, s2, s3];
  }

  /** A request for peers, and a change of the dashboard that removes the rule of
      `f` and `g` right after the listing found that there are rules. */
  function TearActs(sid: nat, id: Id, token: string, f: string, g: string): seq<Action> {
    [Open(sid, GetPeers(id, token)), Begin(sid), Read(sid, ""), Dashboard(Acl.RemoveRule(f, g), true),
     Read(sid, ""), Read(sid, "")]
  }

  /** The listing is answered with nobody, although at all times `id` sees somebody. */
  ghost predicate AnswersNobody(ss: seq<Server>, sid: nat, id: Id) {
    && ss != []
    && sid in ss[|ss| - 1].streams && ss[|ss| - 1].streams[sid] == Answered(PeerList({}))
    && forall k :: 0 <= k < |ss| ==> PeersOf(ss[k].sys.store, id) != {}
  }

  /** That can happen in any state in which one rule lets a caller see somebody. */
  lemma ListingTears(s: Server, sid: nat, id: Id, token: string, f: string, g: string)
    requires sid !in s.streams && ValidSession(s.sys.store, id, token)
    requires s.sys.store.db.acl.rules == {(f, g)} && PeersOf(s.sys.store, id) != {}
    ensures exists ss ::
      ss != [] && ss[0] == s && Path(ss, TearActs(sid, id, token, f, g)) && AnswersNobody(ss, sid, id)
  {
    hide Next, Enabled, PeersOf;
    var first := FirstRead(s, sid, GetPeers(id, token));
    assert first[3].streams[sid] == Listing(id, Ruled);
    var rest := TearRest(first[3], sid, id, f, g);
    PathsJoin(first, [Open(sid, GetPeers(id, token)), Begin(sid), Read(sid, "")], rest,
              [Dashboard(Acl.RemoveRule(f, g), true), Read(sid, ""), Read(sid, "")]);
    assert AnswersNobody(first[..3] + rest, sid, id);
  }

  lemma TearRest(s: Server, sid: nat, id: Id, f: string, g: string) returns (ss: seq<Server>)
    requires sid in s.streams && s.streams[sid] == Listing(id, Ruled)
    requires s.sys.store.db.acl.rules == {(f, g)} && PeersOf(s.sys.store, id) != {}
    ensures Path(ss, [Dashboard(Acl.RemoveRule(f, g), true), Read(sid, ""), Read(sid, "")]) && ss[0] == s
    ensures AnswersNobody(ss, sid, id)
  {
    hide Next, Enabled, PeersOf;
    DashboardStep(s, Acl.RemoveRule(f, g));
    var s1 := Next(s, Dashboard(Acl.RemoveRule(f, g), true));
    CallerHasGroup(s.sys.store, id);
    OthersAreVisible(s.sys.store, s1.sys.store, id);
    ReadStep(s1, sid, id, Ruled);
    var s2 := Next(s1, Read(sid, ""));
    ReadStep(s2, sid, id, Grouped(GroupsOf(s1.sys.store.db.acl, id)));
    ss := [s, s1, s2, Next(s2, Read(sid, ""))];
  }

  lemma CallerHasGroup(s: Store, id: Id)
    requires PeersOf(s, id) != {} && s.db.acl.rules != {}
    ensures GroupsOf(s.db.acl, id) != {}
  {
    var p :| p in Acl.Visible(s.db.acl, s.nodes.Keys, id);
    var g, h :| (id, g) in s.db.acl.groups && (p, h) in s.db.acl.groups && (g, h) in s.db.acl.rules;
    assert (id, g).1 in GroupsOf(s.db.acl, id);
  }

  lemma OthersAreVisible(s: Store, t: Store, id: Id)
    requires t.nodes == s.nodes && t.db.acl.rules == {} && PeersOf(s, id) != {}
    ensures PeersOf(t, id) != {}
  {
    var p :| p in Acl.Visible(s.db.acl, s.nodes.Keys, id);
    assert s.nodes[p].info in PeersOf(t, id);
  }

  /** Two registrations. */
  function RegisterActs(a: Choice, b: Choice): seq<Action> {
    [Open(0, Register("", "")), Handle(0, a), Open(1, Register("", "")), Handle(1, b)]
  }

  lemma RoomForMore(s: Store, r: Registration)
    requires |s.nodes| < POOL && r.id !in s.db.rows
    ensures Grant(s, r, true).Some?
  {
    FirstFreeIsLow(UsedIps(s.nodes), FirstFree(UsedIps(s.nodes)));
    R.UsedIpsCount(s.nodes);
  }

  predicate BothIn(s: Server, a: Choice, b: Choice, acl: Acl.Tables) {
    && 2 !in s.streams && s.sys.store.db.acl == acl
    && ValidSession(s.sys.store, a.id, a.token) && b.id in s.sys.store.nodes
  }

  lemma TwoRegister(s: Server, a: Choice, b: Choice)
    requires R.Init(s.sys) && s.streams == map[] && a.id != b.id && a.ok && b.ok
    ensures exists ss :: Path(ss, RegisterActs(a, b)) && ss[0] == s && BothIn(ss[4], a, b, s.sys.store.db.acl)
  {
    hide Grant;
    var acts := RegisterActs(a, b);
    var s1 := Next(s, acts[0]);
    RoomForMore(s1.sys.store, Registration(a.id, a.token, "", ""));
    var s2 := Next(s1, acts[1]);
    assert s2.sys.store.nodes.Keys == {a.id} && s2.sys.store.db.rows.Keys == {a.id};
    assert |s2.sys.store.nodes| == |s2.sys.store.nodes.Keys|;
    var s3 := Next(s2, acts[2]);
    RoomForMore(s3.sys.store, Registration(b.id, b.token, "", ""));
    var s4 := Next(s3, acts[3]);
    assert BothIn(s4, a, b, s.sys.store.db.acl);
    var ss := [s, s1, s2, s3, s4];
    hide Next, Enabled, BothIn, AfterRegister;
    assert Path(ss, acts);
  }

  /** It does happen: from an empty registry with one rule between two groups, two
      nodes of those groups register and the first asks for its peers. */
  lemma TornPeerList(s: Server, a: Choice, b: Choice, g: string, h: string)
    requires R.Init(s.sys) && s.streams == map[] && a.id != b.id && a.ok && b.ok
    requires s.sys.store.db.acl == Acl.Tables({(a.id, g), (b.id, h)}, {(g, h)})
    ensures exists ss ::
      Run(ss, RegisterActs(a, b) + TearActs(2, a.id, a.token, g, h)) && ss[0] == s && AnswersNobody(ss[4..], 2, a.id)
  {
    hide Next, Enabled, PeersOf, AnswersNobody;
    TwoRegister(s, a, b);
    var first: seq<Server> :| Path(first, RegisterActs(a, b)) && first[0] == s
      && BothIn(first[4], a, b, s.sys.store.db.acl);
    SeesPeer(first[4].sys.store, a.id, b.id, g, h);
    ListingTears(first[4], 2, a.id, a.token, g, h);
    var rest: seq<Server> :| rest != [] && rest[0] == first[4] && Path(rest, TearActs(2, a.id, a.token, g, h))
      && AnswersNobody(rest, 2, a.id);
    var ss := first[..4] + rest;
    PathsJoin(first, RegisterActs(a, b), rest, TearActs(2, a.id, a.token, g, h));
    assert ss[4..] == rest;
  }

  lemma SeesPeer(s: Store, id: Id, peer: Id, g: string, h: string)
    requires peer in s.nodes && peer != id
    requires (id, g) in s.db.acl.groups && (peer, h) in s.db.acl.groups && (g, h) in s.db.acl.rules
    ensures PeersOf(s, id) != {}
  {
    assert Acl.Permits(s.db.acl, id, peer);
    assert s.nodes[peer].info in PeersOf(s, id);
  }

  lemma PathsJoin(ss: seq<Server>, acts: seq<Action>, tt: seq<Server>, more: seq<Action>)
    requires Path(ss, acts) && Path(tt, more) && tt[0] == ss[|ss| - 1]
    ensures Path(ss[..|acts|] + tt, acts + more)
  {
    hide Next, Enabled;
    var uu, all := ss[..|acts|] + tt, acts + more;
    forall k | 0 <= k < |all| ensures Enabled(uu[k], all[k]) && uu[k + 1] == Next(uu[k], all[k]) {
      if k < |acts| {
        assert uu[k] == ss[k] && uu[k + 1] == ss[k + 1];
      } else {
        assert all[k] == more[k - |acts|];
      }
    }
  }

  // ------------------------------------------------------ listings of the ACL

  /** Stream `sid` asked for the ACL, was admitted at step `m`, and has been read
      for since. */
  ghost predicate BegunAcl(ss: seq<Server>, acts: seq<Action>, sid: nat, id: Id, m: nat, n: nat)
    requires |ss| == |acts| + 1
  {
    && m < n < |ss| && acts[m] == Begin(sid)
    && HasArrived(ss[m], sid) && ss[m].streams[sid].msg.AclList?
    && forall k :: m < k <= n ==> IsListing(ss[k], sid, id)
  }

  /** In state `n` the groups have not been read, or were in state `i`. */
  ghost predicate GroupsRead(ss: seq<Server>, stage: Stage, m: nat, i: nat, n: nat)
    requires n < |ss|
  {
    stage.ListingGroups? || (m < i < n && stage == ListingRules(AclAt(ss, i).groups))
  }

  lemma {:induction false} GroupsAreRead(ss: seq<Server>, acts: seq<Action>, sid: nat, id: Id, m: nat, n: nat)
    requires Run(ss, acts) && BegunAcl(ss, acts, sid, id, m, n)
    ensures exists i: nat :: GroupsRead(ss, ss[n].streams[sid].stage, m, i, n)
  {
    hide R.Next, OpOf;
    assert Enabled(ss[n - 1], acts[n - 1]) && ss[n] == Next(ss[n - 1], acts[n - 1]);
    if n == m + 1 {
      assert GroupsRead(ss, ss[n].streams[sid].stage, m, n, n);
    } else {
      GroupsAreRead(ss, acts, sid, id, m, n - 1);
      var i: nat :| GroupsRead(ss, ss[n - 1].streams[sid].stage, m, i, n - 1);
      ListingStep(ss[n - 1], acts[n - 1], sid, id);
      var unread := ss[n - 1].streams[sid].stage.ListingGroups?;
      assert GroupsRead(ss, ss[n].streams[sid].stage, m, if unread then n - 1 else i, n);
    }
  }

  ghost predicate AnswersAcl(ss: seq<Server>, acts: seq<Action>, sid: nat, n: nat, tables: Acl.Tables)
    requires |ss| == |acts| + 1
  {
    && n < |acts| && acts[n].Read? && acts[n].sid == sid
    && sid in ss[n + 1].streams && ss[n + 1].streams[sid] == Answered(AclListing(tables))
  }

  /** A listing of the ACL has the groups of one state and the rules of a later one. */
  lemma AclListingsAreRead(
    ss: seq<Server>, acts: seq<Action>, sid: nat, id: Id, m: nat, n: nat, tables: Acl.Tables)
    requires Run(ss, acts) && BegunAcl(ss, acts, sid, id, m, n) && AnswersAcl(ss, acts, sid, n, tables)
    ensures exists i :: m < i < n && tables == Acl.Tables(AclAt(ss, i).groups, AclAt(ss, n).rules)
  {
    hide R.Next, OpOf;
    GroupsAreRead(ss, acts, sid, id, m, n);
    assert Enabled(ss[n], acts[n]) && ss[n + 1] == Next(ss[n], acts[n]);
    ListingStep(ss[n], acts[n], sid, id);
    var i: nat :| GroupsRead(ss, ss[n].streams[sid].stage, m, i, n);
    assert m < i < n;
  }

  /** With at most one change in between that is what the tables were before it or
      after it. */
  lemma DisturbedAclListing(
    ss: seq<Server>, acts: seq<Action>, sid: nat, id: Id, m: nat, c: nat, n: nat, tables: Acl.Tables)
    requires Run(ss, acts) && BegunAcl(ss, acts, sid, id, m, n) && AnswersAcl(ss, acts, sid, n, tables)
    requires ChangesOnlyAt(ss, acts, m, c, n)
    ensures tables == AclAt(ss, c) || tables == AclAt(ss, c + 1)
  {
    hide Next;
    AclListingsAreRead(ss, acts, sid, id, m, n, tables);
    var i :| m < i < n && tables == Acl.Tables(AclAt(ss, i).groups, AclAt(ss, n).rules);
    ChangeAt(ss, acts, c, sid);
    assert AclAt(ss, i) == AclAt(ss, c) || AclAt(ss, i) == AclAt(ss, c + 1);
  }

  /** A listing of the ACL, and between its reads two changes of the dashboard. */
  function TearAclActs(sid: nat, id: Id, token: string, x: Id, g: string, f: string, h: string): seq<Action> {
    [Open(sid, AclList(id, token)), Begin(sid), Read(sid, ""), Dashboard(Acl.RemoveGroup(x, g), true),
     Dashboard(Acl.AddRule(f, h), true), Read(sid, "")]
  }

  ghost predicate ListsNoState(ss: seq<Server>, sid: nat) {
    && ss != [] && sid in ss[|ss| - 1].streams
    && var answer := ss[|ss| - 1].streams[sid];
       && answer.Answered? && answer.response.AclListing?
       && forall k :: 0 <= k < |ss| ==> ss[k].sys.store.db.acl != answer.response.tables
  }

  /** With two it can be what they never were. */
  lemma AclListingTears(s: Server, sid: nat, id: Id, token: string, x: Id, g: string, f: string, h: string)
    requires sid !in s.streams && ValidSession(s.sys.store, id, token)
    requires (x, g) in s.sys.store.db.acl.groups && (f, h) !in s.sys.store.db.acl.rules
    ensures exists ss ::
      ss != [] && ss[0] == s && Path(ss, TearAclActs(sid, id, token, x, g, f, h)) && ListsNoState(ss, sid)
  {
    hide Next, Enabled;
    var start := [Open(sid, AclList(id, token)), Begin(sid), Read(sid, "")];
    var first := FirstRead(s, sid, AclList(id, token));
    var rest := TearAclRest(first[3], sid, id, x, g, f, h);
    PathsJoin(first, start, rest,
              [Dashboard(Acl.RemoveGroup(x, g), true), Dashboard(Acl.AddRule(f, h), true), Read(sid, "")]);
    assert ListsNoState(first[..3] + rest, sid);
  }

  lemma TearAclRest(s: Server, sid: nat, id: Id, x: Id, g: string, f: string, h: string) returns (ss: seq<Server>)
    requires sid in s.streams && s.streams[sid] == Listing(id, ListingRules(s.sys.store.db.acl.groups))
    requires (x, g) in s.sys.store.db.acl.groups && (f, h) !in s.sys.store.db.acl.rules
    ensures Path(ss, [Dashboard(Acl.RemoveGroup(x, g), true), Dashboard(Acl.AddRule(f, h), true), Read(sid, "")])
    ensures ss[0] == s && ListsNoState(ss, sid)
  {
    hide Next, Enabled;
    DashboardStep(s, Acl.RemoveGroup(x, g));
    var s1 := Next(s, Dashboard(Acl.RemoveGroup(x, g), true));
    DashboardStep(s1, Acl.AddRule(f, h));
    var s2 := Next(s1, Dashboard(Acl.AddRule(f, h), true));
    ReadStep(s2, sid, id, ListingRules(s.sys.store.db.acl.groups));
    ss := [s, s1, s2, Next(s2, Read(sid, ""))];
  }
}
