/** The registry as the program has it: an object whose map and database the
    operations change in place. */
module RegistryServer {
  import opened Wrappers
  import opened AddressPool
  import opened RegistryState
  import opened PeerLists
  import Acl

  class Registry {
    var nodes: map<Id, NodeEntry>
    var db: Db

    function View(): Store
      reads this
    {
      Store(nodes, db)
    }

    ghost predicate Valid()
      reads this
    {
      Linked(View())
    }

    /** `Registry::new`: one entry for each row. */
    constructor (existing: Db, clock: Clock)
      ensures Valid()
      ensures View() == Load(existing, clock)
    {
      var loaded: map<Id, NodeEntry> := map[];
      var rest := existing.rows.Keys;
      while rest != {}
        invariant rest <= existing.rows.Keys
        invariant loaded.Keys == existing.rows.Keys - rest
        invariant forall id :: id in loaded ==> loaded[id] == LoadEntry(id, existing.rows[id], clock)
        decreases rest
      {
        var id :| id in rest;
        rest := rest - {id};
        var row := existing.rows[id];
        var silent := if clock.Secs() < row.lastHeartbeat then 0 else clock.Secs() - row.lastHeartbeat;
        var info := PeerInfo(id, row.name, row.vpnIp, row.publicKey, row.endpoint, row.connected);
        loaded := loaded[id := NodeEntry(info, row.sessionToken, clock.mono - silent * SECOND)];
      }
      nodes := loaded;
      db := existing;
    }

    /** `next_ip`: the addresses in use, then the search. */
    method NextFreeIp() returns (ip: Option<string>)
      ensures ip == NextIp(UsedIps(nodes))
    {
      var used := {};
      var rest := nodes.Keys;
      while rest != {}
        invariant rest <= nodes.Keys
        invariant used == set id | id in nodes && id !in rest :: nodes[id].info.vpnIp
        decreases rest
      {
        var id :| id in rest;
        rest := rest - {id};
        used := used + {nodes[id].info.vpnIp};
      }
      assert used == UsedIps(nodes);
      ip := Search(used);
    }

    method Register(r: Registration, clock: Clock, ok: bool) returns (granted: Option<Granted>)
      requires Valid()
      modifies this
      ensures Valid()
      ensures granted == Grant(old(View()), r, ok)
      ensures View() == AfterRegister(old(View()), r, clock, ok)
    {
      var vpnIp := NextFreeIp();
      if vpnIp.None? {
        return None;
      }
      if r.id in db.rows || !ok {
        return None;
      }
      db := db.(rows := db.rows[r.id := Row(r.name, vpnIp.value, r.publicKey, "", r.token, true, clock.Secs())]);
      var peer := PeerInfo(r.id, r.name, vpnIp.value, r.publicKey, "", true);
      nodes := nodes[r.id := NodeEntry(peer, r.token, clock.mono)];
      granted := Some(Granted(r.id, vpnIp.value, r.token));
    }

    method ValidateSession(id: Id, token: string) returns (valid: bool)
      ensures valid == ValidSession(View(), id, token)
    {
      valid := id in nodes && nodes[id].sessionToken == token;
    }

    method UpdateEndpoint(id: Id, endpoint: string, clock: Clock, ok: bool)
      requires Valid()
      modifies this
      ensures Valid()
      ensures View() == AfterEndpoint(old(View()), id, endpoint, clock, ok)
    {
      if id in nodes {
        var entry := nodes[id];
        entry := entry.(info := entry.info.(endpoint := endpoint));
        entry := entry.(lastHeartbeat := clock.mono);
        nodes := nodes[id := entry];
        if ok && id in db.rows {
          db := db.(rows := db.rows[id := db.rows[id].(endpoint := endpoint, lastHeartbeat := clock.Secs())]);
        }
      }
    }

    method Heartbeat(id: Id, clock: Clock, ok: bool)
      requires Valid()
      modifies this
      ensures Valid()
      ensures View() == AfterHeartbeat(old(View()), id, clock, ok)
    {
      if id in nodes {
        var entry := nodes[id].(lastHeartbeat := clock.mono);
        nodes := nodes[id := entry.(info := entry.info.(connected := true))];
        if ok && id in db.rows {
          db := db.(rows := db.rows[id := db.rows[id].(connected := true, lastHeartbeat := clock.Secs())]);
        }
      }
    }

    /** One round of the first pass of `reap_stale`. */
    method MarkOne(id: Id, clock: Clock, lost: Losses) returns (expired: bool)
      requires id in nodes
      modifies this
      ensures expired == Expired(old(nodes)[id], clock)
      ensures nodes == old(nodes)[id := MarkedNode(old(nodes)[id], clock)]
      ensures db.acl == old(db).acl
      ensures db.rows == if id in old(db).rows
                         then old(db).rows[id := MarkedRow(old(db).rows[id], old(nodes)[id], clock, id in lost.updates)]
                         else old(db).rows
    {
      var elapsed := Age(nodes[id], clock);
      if elapsed > OFFLINE_SECS {
        nodes := nodes[id := nodes[id].(info := nodes[id].info.(connected := false))];
        if id in db.rows && id !in lost.updates {
          db := db.(rows := db.rows[id := db.rows[id].(connected := false)]);
        }
      }
      expired := elapsed > DELETE_SECS;
    }

    /** The first pass of `reap_stale`: mark the offline, collect the expired. */
    method MarkStale(clock: Clock, lost: Losses) returns (toDelete: set<Id>)
      modifies this
      ensures toDelete == set id | id in old(nodes) && Expired(old(nodes)[id], clock)
      ensures nodes == map id | id in old(nodes) :: MarkedNode(old(nodes)[id], clock)
      ensures db.acl == old(db).acl
      ensures db.rows ==
              map id | id in old(db).rows ::
                if id in old(nodes) then MarkedRow(old(db).rows[id], old(nodes)[id], clock, id in lost.updates)
                else old(db).rows[id]
    {
      hide MarkedNode, MarkedRow, Expired;
      toDelete := {};
      var rest := nodes.Keys;
      while rest != {}
        invariant rest <= old(nodes).Keys
        invariant nodes == map id | id in old(nodes) ::
          if id in rest then old(nodes)[id] else MarkedNode(old(nodes)[id], clock)
        invariant db.acl == old(db).acl
        invariant db.rows == map id | id in old(db).rows ::
                               if id in old(nodes) && id !in rest
                               then MarkedRow(old(db).rows[id], old(nodes)[id], clock, id in lost.updates)
                               else old(db).rows[id]
        invariant toDelete == set id | id in old(nodes) && id !in rest && Expired(old(nodes)[id], clock)
        decreases rest
      {
        var id :| id in rest;
        rest := rest - {id};
        var expired := MarkOne(id, clock, lost);
        if expired {
          toDelete := toDelete + {id};
        }
      }
    }

    /** The second pass: delete what the first collected. */
    method DeleteAll(expired: set<Id>, lost: Losses)
      modifies this
      ensures nodes == old(nodes) - expired
      ensures db == old(db).(rows := old(db).rows - (expired - lost.deletes))
    {
      var toDelete := expired;
      while toDelete != {}
        invariant toDelete <= expired
        invariant nodes == old(nodes) - (expired - toDelete)
        invariant db == old(db).(rows := old(db).rows - ((expired - toDelete) - lost.deletes))
        decreases toDelete
      {
        var id :| id in toDelete;
        toDelete := toDelete - {id};
        nodes := nodes - {id};
        if id !in lost.deletes {
          db := db.(rows := db.rows - {id});
        }
      }
    }

    /** `reap_stale`: marks, then deletes; each write may be lost. */
    method ReapStale(clock: Clock, lost: Losses)
      requires Valid()
      modifies this
      ensures Valid()
      ensures View() == AfterReap(old(View()), clock, lost)
    {
      var toDelete := MarkStale(clock, lost);
      DeleteAll(toDelete, lost);
      ReapKeepsLinks(old(View()), clock, lost);
      assert nodes == AfterReap(old(View()), clock, lost).nodes;
      assert db.rows == AfterReap(old(View()), clock, lost).db.rows;
    }

    method ChangeAcl(change: Acl.Change, ok: bool)
      modifies this`db
      ensures View() == AfterChange(old(View()), change, ok)
    {
      if ok {
        match change {
          case AddGroup(n, g) => db := db.(acl := db.acl.(groups := db.acl.groups + {(n, g)}));
          case RemoveGroup(n, g) => db := db.(acl := db.acl.(groups := db.acl.groups - {(n, g)}));
          case AddRule(f, g) => db := db.(acl := db.acl.(rules := db.acl.rules + {(f, g)}));
          case RemoveRule(f, g) => db := db.(acl := db.acl.(rules := db.acl.rules - {(f, g)}));
        }
      }
    }

    // ------------------------------------------------------------- peer lists

    /** The groups of a node, in whatever order the table gives them. */
    method NodeGroups(id: Id) returns (groups: seq<string>)
      ensures forall g :: g in groups <==> (id, g) in db.acl.groups
    {
      groups := [];
      var rest := db.acl.groups;
      while rest != {}
        invariant rest <= db.acl.groups
        invariant forall g :: g in groups <==> (id, g) in db.acl.groups && (id, g) !in rest
        decreases rest
      {
        var row :| row in rest;
        rest := rest - {row};
        if row.0 == id {
          groups := groups + [row.1];
        }
      }
    }

    /** The groups that some rule lets the given groups see, without repeats. */
    method VisibleGroups(fromGroups: seq<string>) returns (result: seq<string>)
      ensures forall h :: h in result <==> exists g :: g in fromGroups && (g, h) in db.acl.rules
      ensures forall i, j :: 0 <= i < j < |result| ==> result[i] != result[j]
    {
      result := [];
      for n := 0 to |fromGroups|
        invariant forall h :: h in result <==> exists i :: 0 <= i < n && (fromGroups[i], h) in db.acl.rules
        invariant forall i, j :: 0 <= i < j < |result| ==> result[i] != result[j]
      {
        ghost var before := result;
        var rest := db.acl.rules;
        while rest != {}
          invariant rest <= db.acl.rules
          invariant forall h :: h in result <==> h in before || (fromGroups[n], h) in db.acl.rules - rest
          invariant forall i, j :: 0 <= i < j < |result| ==> result[i] != result[j]
          decreases rest
        {
          var rule :| rule in rest;
          rest := rest - {rule};
          if rule.0 == fromGroups[n] && rule.1 !in result {
            result := result + [rule.1];
          }
        }
      }
    }

    /** `list_groups`, then `list_rules`, under two lockings. */
    method ListAcl(between: seq<Acl.Change>) returns (tables: Acl.Tables)
      modifies this`db
      ensures db == old(db).(acl := Acl.ApplyAll(old(db).acl, between))
      ensures tables == Acl.Tables(old(db).acl.groups, db.acl.rules)
    {
      var groups := db.acl.groups;
      Interleave(between);
      tables := Acl.Tables(groups, db.acl.rules);
    }

    method HasRules() returns (has: bool)
      ensures has <==> db.acl.rules != {}
    {
      has := |db.acl.rules| > 0;
    }

    /** The nodes in the order in which the hash map gives them. */
    method Order() returns (order: seq<Id>)
      ensures Lists(order, nodes.Keys)
    {
      order := [];
      var rest := nodes.Keys;
      while rest != {}
        invariant rest <= nodes.Keys && Lists(order, nodes.Keys - rest)
        decreases rest
      {
        var id :| id in rest;
        rest := rest - {id};
        order := order + [id];
      }
    }

    /** What the handlers of the dashboard write while a listing has the database
        unlocked: like the listing they hold the registry for reading only. */
    method Interleave(changes: seq<Acl.Change>)
      modifies this`db
      ensures db == old(db).(acl := Acl.ApplyAll(old(db).acl, changes))
    {
      for i := 0 to |changes|
        invariant db == old(db).(acl := Acl.ApplyAll(old(db).acl, changes[..i]))
      {
        assert changes[..i + 1][..i] == changes[..i];
        ChangeAcl(changes[i], true);
      }
      assert changes[..|changes|] == changes;
    }

    /** The filter of `get_peers` when there are no rules. */
    method AllBut(exclude: Id, entries: seq<Id>) returns (peers: seq<PeerInfo>)
      requires Valid() && Lists(entries, nodes.Keys)
      ensures ListsInfos(peers, nodes, nodes.Keys - {exclude})
    {
      hide ListsInfos;
      peers := [];
      ghost var kept: set<Id> := {};
      NoPeers(nodes);
      for i := 0 to |entries|
        invariant kept == (set id | id in entries[..i]) - {exclude}
        invariant ListsInfos(peers, nodes, kept)
      {
        var id := entries[i];
        assert entries[..i + 1] == entries[..i] + [id];
        if nodes[id].info.nodeId != exclude {
          OneMorePeer(View(), peers, kept, id);
          peers := peers + [nodes[id].info];
          kept := kept + {id};
        }
      }
      assert kept == nodes.Keys - {exclude};
    }

    /** The filter of `get_peers` when there are rules. */
    method Keeps(peer: PeerInfo, exclude: Id, visible: seq<string>) returns (keep: bool)
      ensures keep <==> peer.nodeId != exclude && exists h :: h in visible && (peer.nodeId, h) in db.acl.groups
    {
      if peer.nodeId == exclude {
        return false;
      }
      var theirs := NodeGroups(peer.nodeId);
      keep := exists g :: g in theirs && g in visible;
    }

    /** Its loop: each peer's groups are read under a locking of their own. */
    method Filtered(
      exclude: Id, visible: seq<string>, entries: seq<Id>, dashboard: nat -> seq<Acl.Change>, ghost start: Acl.Tables)
      returns (peers: seq<PeerInfo>)
      requires Valid() && Lists(entries, nodes.Keys) && db.acl == TablesAt(start, dashboard, 2)
      modifies this`db
      ensures db == old(db).(acl := TablesAt(start, dashboard, 2 + |entries|))
      ensures ListsInfos(peers, nodes, Kept(ReadsOf(start, dashboard, entries), visible, entries, exclude))
    {
      hide ListsInfos, ReadsOf, Kept;
      ghost var found := ReadsOf(start, dashboard, entries);
      peers := [];
      ghost var kept: set<Id> := {};
      NoPeers(nodes);
      NoneKept(found, visible, exclude);
      for i := 0 to |entries|
        invariant Valid() && db == old(db).(acl := TablesAt(start, dashboard, 2 + i))
        invariant kept == Kept(found, visible, entries[..i], exclude) <= set id | id in entries[..i]
        invariant ListsInfos(peers, nodes, kept)
      {
        var id := entries[i];
        assert entries[..i + 1] == entries[..i] + [id];
        Interleave(dashboard(3 + i));
        ReadOfPeer(start, dashboard, entries, i);
        var keep := Keeps(nodes[id].info, exclude, visible);
        KeptStep(found, visible, entries[..i], id, exclude);
        if keep {
          OneMorePeer(View(), peers, kept, id);
          peers := peers + [nodes[id].info];
          kept := kept + {id};
        }
      }
      assert entries[..|entries|] == entries;
    }

    /** `get_peers`: no rules, everybody else; otherwise by group. Each peer that the
        reads permit is returned once, and nobody else is. `dashboard(k)` is what is
        written just before the database is locked for the time numbered `k`; `None`
        stands for the dashboard, which asks as node `""`. */
    method GetPeers(excludeId: Option<Id>, dashboard: nat -> seq<Acl.Change>)
      returns (peers: seq<PeerInfo>, ghost order: seq<Id>)
      requires Valid()
      modifies this`db
      ensures Valid() && db.rows == old(db).rows
      ensures exists k: nat :: k < 3 + |order| && db.acl == TablesAt(old(db).acl, dashboard, k)
      ensures Lists(order, nodes.Keys)
      ensures ListsInfos(peers, nodes, Seen(ReadsOf(old(db).acl, dashboard, order), nodes.Keys, excludeId.GetOr("")))
    {
      var exclude := excludeId.GetOr("");
      var entries := Order();
      order := entries;
      ghost var start := db.acl;
      ghost var found := ReadsOf(start, dashboard, order);
      peers := [];
      Interleave(dashboard(0));
      var ruled := HasRules();
      if !ruled {
        peers := AllBut(exclude, entries);
        return;
      }
      Interleave(dashboard(1));
      var mine := NodeGroups(exclude);
      if mine == [] {
        NobodySeen(found, nodes.Keys, exclude);
        return;
      }
      Interleave(dashboard(2));
      var visible := VisibleGroups(mine);
      if visible == [] {
        forall g, h | (exclude, g) in found.mine.groups && (g, h) in found.visible.rules ensures h in visible {
          assert g in mine;
        }
        NobodySeen(found, nodes.Keys, exclude);
        return;
      }
      peers := Filtered(exclude, visible, entries, dashboard, start);
      KeptIsSeen(found, visible, entries, nodes.Keys, exclude);
    }
  }
  /** `peers` holds the entries of `ids`, each once. */
  ghost predicate ListsInfos(peers: seq<PeerInfo>, nodes: map<Id, NodeEntry>, ids: set<Id>) {
    && (forall i, j :: 0 <= i < j < |peers| ==> peers[i].nodeId != peers[j].nodeId)
    && forall p :: p in peers <==> p in Infos(nodes, ids)
  }

  lemma NoPeers(nodes: map<Id, NodeEntry>)
    ensures ListsInfos([], nodes, {})
  {
  }

  lemma OneMorePeer(s: Store, peers: seq<PeerInfo>, ids: set<Id>, id: Id)
    requires Linked(s) && ListsInfos(peers, s.nodes, ids) && id in s.nodes && id !in ids
    ensures ListsInfos(peers + [s.nodes[id].info], s.nodes, ids + {id})
  {
    var info := s.nodes[id].info;
    assert Infos(s.nodes, ids + {id}) == Infos(s.nodes, ids) + {info};
    forall i | 0 <= i < |peers| ensures peers[i].nodeId != info.nodeId {
      assert peers[i] in Infos(s.nodes, ids);
    }
  }
}
