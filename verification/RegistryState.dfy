/** The control server's registry: a map in memory that caches a table on disk,
    and what each operation does to both. */
module RegistryState {
  import opened Wrappers
  import opened AddressPool
  import Acl

  type Id = Acl.Id

  datatype PeerInfo = PeerInfo(
    nodeId: Id, name: string, vpnIp: string, publicKey: string, endpoint: string, connected: bool)

  /** `lastHeartbeat` is a reading of the monotonic clock, in nanoseconds. */
  datatype NodeEntry = NodeEntry(info: PeerInfo, sessionToken: string, lastHeartbeat: int)

  /** A row of table `nodes`; `lastHeartbeat` is in whole seconds of wall-clock
      time. */
  datatype Row = Row(
    name: string, vpnIp: string, publicKey: string, endpoint: string, sessionToken: string,
    connected: bool, lastHeartbeat: nat)

  /** The database: `nodes` by primary key, and the two ACL tables. */
  datatype Db = Db(rows: map<Id, Row>, acl: Acl.Tables)

  datatype Store = Store(nodes: map<Id, NodeEntry>, db: Db)

  /** The two clocks, in nanoseconds. */
  datatype Clock = Clock(mono: int, wall: nat)
  {
    /** `now_secs()` */
    function Secs(): nat { wall / SECOND }
  }

  const OFFLINE_SECS := 60
  const DELETE_SECS := 86_400

  /** `now.duration_since(e.last_heartbeat).as_secs()` */
  function Age(e: NodeEntry, c: Clock): nat {
    if c.mono <= e.lastHeartbeat then 0 else (c.mono - e.lastHeartbeat) / SECOND
  }

  function UsedIps(nodes: map<Id, NodeEntry>): set<string> {
    set id | id in nodes :: nodes[id].info.vpnIp
  }

  // -------------------------------------------------------------- operations

  /** A client's registration, with the id and token that were drawn for it. */
  datatype Registration = Registration(id: Id, token: string, name: string, publicKey: string)

  datatype Granted = Granted(nodeId: Id, vpnIp: string, sessionToken: string)

  /** Registration fails when the address space is exhausted, when the insert
      violates the primary key, and when the write fails (`ok` is false). */
  function Grant(s: Store, r: Registration, ok: bool): Option<Granted> {
    match NextIp(UsedIps(s.nodes))
    case None => None
    case Some(ip) => if r.id in s.db.rows || !ok then None else Some(Granted(r.id, ip, r.token))
  }

  function AfterRegister(s: Store, r: Registration, c: Clock, ok: bool): Store {
    match Grant(s, r, ok)
    case None => s
    case Some(g) =>
      Store(
        s.nodes[r.id := NodeEntry(PeerInfo(r.id, r.name, g.vpnIp, r.publicKey, "", true), r.token, c.mono)],
        s.db.(rows := s.db.rows[r.id := Row(r.name, g.vpnIp, r.publicKey, "", r.token, true, c.Secs())]))
  }

  predicate ValidSession(s: Store, id: Id, token: string) {
    id in s.nodes && s.nodes[id].sessionToken == token
  }

  /** An `UPDATE .. WHERE node_id = id` that leaves other columns alone. */
  function UpdateRow(db: Db, id: Id, f: Row -> Row, ok: bool): Db {
    if id in db.rows && ok then db.(rows := db.rows[id := f(db.rows[id])]) else db
  }

  function AfterEndpoint(s: Store, id: Id, endpoint: string, c: Clock, ok: bool): Store {
    if id !in s.nodes then s
    else
      var e := s.nodes[id];
      Store(
        s.nodes[id := e.(info := e.info.(endpoint := endpoint), lastHeartbeat := c.mono)],
        UpdateRow(s.db, id, (r: Row) => r.(endpoint := endpoint, lastHeartbeat := c.Secs()), ok))
  }

  function AfterHeartbeat(s: Store, id: Id, c: Clock, ok: bool): Store {
    if id !in s.nodes then s
    else
      var e := s.nodes[id];
      Store(
        s.nodes[id := e.(info := e.info.(connected := true), lastHeartbeat := c.mono)],
        UpdateRow(s.db, id, (r: Row) => r.(connected := true, lastHeartbeat := c.Secs()), ok))
  }

  predicate Offline(e: NodeEntry, c: Clock) {
    Age(e, c) > OFFLINE_SECS
  }

  predicate Expired(e: NodeEntry, c: Clock) {
    Age(e, c) > DELETE_SECS
  }

  /** The writes of one `reap_stale` that fail: updates and deletes, by id. */
  datatype Losses = Losses(updates: set<Id>, deletes: set<Id>)

  function AfterReap(s: Store, c: Clock, lost: Losses): Store {
    Store(
      map id | id in s.nodes && !Expired(s.nodes[id], c) :: MarkedNode(s.nodes[id], c),
      s.db.(rows :=
        map id | id in s.db.rows && !(id in s.nodes && Expired(s.nodes[id], c) && id !in lost.deletes) ::
          if id in s.nodes then MarkedRow(s.db.rows[id], s.nodes[id], c, id in lost.updates) else s.db.rows[id]))
  }

  function MarkedNode(e: NodeEntry, c: Clock): NodeEntry {
    if Offline(e, c) then e.(info := e.info.(connected := false)) else e
  }

  function MarkedRow(r: Row, e: NodeEntry, c: Clock, lost: bool): Row {
    if Offline(e, c) && !lost then r.(connected := false) else r
  }

  /** An entry made from a row: whole seconds of silence are read off the wall
      clock and taken from the monotonic one. */
  function LoadEntry(id: Id, r: Row, c: Clock): NodeEntry {
    var silent := if c.Secs() < r.lastHeartbeat then 0 else c.Secs() - r.lastHeartbeat;
    NodeEntry(
      PeerInfo(id, r.name, r.vpnIp, r.publicKey, r.endpoint, r.connected), r.sessionToken, c.mono - silent * SECOND)
  }

  /** `Registry::new` on an existing database. */
  function Load(db: Db, c: Clock): Store {
    Store(map id | id in db.rows :: LoadEntry(id, db.rows[id], c), db)
  }

  function AfterChange(s: Store, change: Acl.Change, ok: bool): Store {
    if ok then s.(db := s.db.(acl := Acl.Apply(s.db.acl, change))) else s
  }

  function Infos(nodes: map<Id, NodeEntry>, ids: set<Id>): set<PeerInfo> {
    set id | id in ids && id in nodes :: nodes[id].info
  }

  /** The peers that a caller may see. */
  ghost function PeersOf(s: Store, caller: Id): set<PeerInfo> {
    Infos(s.nodes, Acl.Visible(s.db.acl, s.nodes.Keys, caller))
  }

  /** A caller may see any other node if there are no rules, and otherwise those
      with a group that a rule lets one of the caller's groups see; it is told the
      whole entry. */
  lemma PeersOfIff(s: Store, caller: Id, peer: Id)
    requires Linked(s) && peer in s.nodes
    ensures s.nodes[peer].info in PeersOf(s, caller) <==>
            && peer != caller
            && (s.db.acl.rules == {} ||
                exists g, h ::
                  (caller, g) in s.db.acl.groups && (g, h) in s.db.acl.rules && (peer, h) in s.db.acl.groups)
    ensures forall p :: p in PeersOf(s, caller) ==> p.nodeId in s.nodes && p == s.nodes[p.nodeId].info
  {
    if s.nodes[peer].info in PeersOf(s, caller) {
      var id :| id in Acl.Visible(s.db.acl, s.nodes.Keys, caller) && s.nodes[id].info == s.nodes[peer].info;
      assert id == peer;
    }
  }

  // --------------------------------------------------- the cache/store link

  /** Every entry in memory has a row with the same id, name, address, key and
      token, and knows its own id. */
  ghost predicate Linked(s: Store) {
    forall id :: id in s.nodes ==> id in s.db.rows && SameIdentity(id, s.nodes[id], s.db.rows[id])
  }

  predicate SameIdentity(id: Id, e: NodeEntry, r: Row) {
    && e.info.nodeId == id
    && e.info.name == r.name
    && e.info.vpnIp == r.vpnIp
    && e.info.publicKey == r.publicKey
    && e.sessionToken == r.sessionToken
  }

  /** Marking and deleting keep the link, whichever writes are lost. */
  lemma ReapKeepsLinks(s: Store, c: Clock, lost: Losses)
    requires Linked(s)
    ensures Linked(AfterReap(s, c, lost))
  {
  }
}
