/** What each request stores and is answered with, when it names a valid session
    and when it does not need one. */
module CcsRequests {
  import opened Wrappers
  import opened AddressPool
  import opened RegistryState
  import opened CcsServer
  import R = RegistryRuns
  import Acl

  /** The request on stream `sid` names a node in memory and its token. */
  predicate Opens(s: Server, sid: nat, id: Id, token: string) {
    sid in s.streams && id in s.sys.store.nodes && s.sys.store.nodes[id].sessionToken == token
  }

  /** `t` differs from `s` in the entry and in the row of `id` at most. */
  predicate SameButNode(s: R.Sys, t: R.Sys, id: Id) {
    && t.clock == s.clock && t.store.db.acl == s.store.db.acl
    && t.store.nodes - {id} == s.store.nodes - {id}
    && t.store.db.rows - {id} == s.store.db.rows - {id}
  }

  /** An authentic report sets the endpoint and the heartbeat, in memory always and
      in the row if the write succeeds. It leaves everything else alone, the mark of
      being connected included. */
  lemma ReportIsStored(s: Server, sid: nat, c: Choice, id: Id, token: string, endpoint: string)
    requires Enabled(s, Handle(sid, c)) && s.streams[sid].msg == UpdateEndpoint(id, token, endpoint)
    requires Opens(s, sid, id, token) && Linked(s.sys.store)
    ensures var t := Next(s, Handle(sid, c));
      && t.streams == s.streams[sid := Answered(Pong)] && SameButNode(s.sys, t.sys, id)
      && id in t.sys.store.nodes && id in t.sys.store.db.rows
      && var e, row, now := s.sys.store.nodes[id], s.sys.store.db.rows[id], s.sys.clock;
         && t.sys.store.nodes[id] == NodeEntry(e.info.(endpoint := endpoint), token, now.mono)
         && t.sys.store.db.rows[id] ==
            if c.ok then row.(endpoint := endpoint, lastHeartbeat := now.wall / SECOND) else row
  {
  }

  /** An authentic ping marks the node connected and sets its heartbeat, likewise. */
  lemma PingIsStored(s: Server, sid: nat, c: Choice, id: Id, token: string)
    requires Enabled(s, Handle(sid, c)) && s.streams[sid].msg == Ping(id, token)
    requires Opens(s, sid, id, token) && Linked(s.sys.store)
    ensures var t := Next(s, Handle(sid, c));
      && t.streams == s.streams[sid := Answered(Pong)] && SameButNode(s.sys, t.sys, id)
      && id in t.sys.store.nodes && id in t.sys.store.db.rows
      && var e, row, now := s.sys.store.nodes[id], s.sys.store.db.rows[id], s.sys.clock;
         && t.sys.store.nodes[id] == NodeEntry(e.info.(connected := true), token, now.mono)
         && t.sys.store.db.rows[id] ==
            if c.ok then row.(connected := true, lastHeartbeat := now.wall / SECOND) else row
  {
  }

  /** An authentic request for the relay is told its address and the target asked
      for. */
  lemma RelayIsAssigned(s: Server, sid: nat, c: Choice, id: Id, token: string, target: Id)
    requires Enabled(s, Handle(sid, c)) && s.streams[sid].msg == RequestRelay(id, token, target)
    requires Opens(s, sid, id, token)
    ensures var t := Next(s, Handle(sid, c));
      t.sys == s.sys && t.streams == s.streams[sid := Answered(RelayAssigned(s.relayAddr, target))]
  {
  }

  lemma {:induction false} RelayAddressIsConstant(ss: seq<Server>, acts: seq<Action>, n: nat)
    requires Run(ss, acts) && n < |ss|
    ensures ss[n].relayAddr == ss[0].relayAddr
  {
    hide R.Next, OpOf, StreamsAfter;
    if n > 0 {
      RelayAddressIsConstant(ss, acts, n - 1);
      assert Enabled(ss[n - 1], acts[n - 1]) && ss[n] == Next(ss[n - 1], acts[n - 1]);
    }
  }

  // ------------------------------------------------------------- registration

  /** The entry and the row of a node that has just registered. */
  predicate JustRegistered(s: R.Sys, t: R.Sys, c: Choice, name: string, key: string) {
    && c.id in t.store.nodes && c.id in t.store.db.rows
    && var ip := t.store.nodes[c.id].info.vpnIp;
       && t.store.nodes[c.id] == NodeEntry(PeerInfo(c.id, name, ip, key, "", true), c.token, s.clock.mono)
       && t.store.db.rows[c.id] == Row(name, ip, key, "", c.token, true, s.clock.wall / SECOND)
       && forall x :: x in s.store.nodes ==> s.store.nodes[x].info.vpnIp != ip
  }

  /** A registration that makes a node answers its id, its address and its token; one
      that does not changes nothing and fails. */
  lemma RegistrationIsAnswered(s: Server, sid: nat, c: Choice, name: string, key: string)
    requires Enabled(s, Handle(sid, c)) && s.streams[sid].msg == Register(name, key) && Linked(s.sys.store)
    ensures var t := Next(s, Handle(sid, c));
      if c.id in t.sys.store.nodes && c.id !in s.sys.store.nodes then
        && SameButNode(s.sys, t.sys, c.id)
        && JustRegistered(s.sys, t.sys, c, name, key)
        && t.streams ==
           s.streams[sid := Answered(RegisterOk(Granted(c.id, t.sys.store.nodes[c.id].info.vpnIp, c.token)))]
      else t.sys == s.sys && t.streams == s.streams[sid := Answered(Failed)]
  {
    var store := s.sys.store;
    if c.id in store.nodes {
      assert c.id in store.db.rows;
    }
    R.UsedIpsHolds(store.nodes);
    FreeIsUnused(UsedIps(store.nodes));
  }

  lemma FreeIsUnused(used: set<string>)
    ensures NextIp(used).Some? ==> NextIp(used).value !in used
  {
  }

  /** Over any run it fails if and only if all 65,280 addresses are in use, a row has
      the drawn id, or the write fails; and otherwise it is answered the first address
      that is free. */
  lemma RegistrationIsAnsweredIff(ss: seq<Server>, acts: seq<Action>, n: nat, name: string, key: string)
    requires Run(ss, acts) && n < |acts| && acts[n].Handle?
    requires acts[n].sid in ss[n].streams && ss[n].streams[acts[n].sid] == Arrived(Register(name, key))
    ensures acts[n].sid in ss[n + 1].streams && ss[n + 1].streams[acts[n].sid].Answered?
    ensures var s, c, answer := ss[n].sys.store, acts[n].choice, ss[n + 1].streams[acts[n].sid].response;
      var used := UsedIps(s.nodes);
      if |used| == 65_280 || c.id in s.db.rows || !c.ok then answer == Failed
      else answer == RegisterOk(Granted(c.id, Address(FirstFree(used)), c.token)) && c.id in ss[n + 1].sys.store.nodes
  {
    var s, c := ss[n].sys.store, acts[n].choice;
    var r := Registration(c.id, c.token, name, key);
    ServerRunsAreRegistryRuns(ss, acts);
    R.RegistrationFailsIff(Systems(ss), Ops(ss, acts), n, r, c.ok);
    HandledRegistration(ss[n], acts[n], name, key);
    assert Enabled(ss[n], acts[n]) && ss[n + 1] == Next(ss[n], acts[n]);
  }

  lemma HandledRegistration(s: Server, a: Action, name: string, key: string)
    requires Enabled(s, a) && a.Handle? && s.streams[a.sid].msg == Register(name, key)
    ensures var r := Registration(a.choice.id, a.choice.token, name, key);
      var grant, t := Grant(s.sys.store, r, a.choice.ok), Next(s, a);
      && a.sid in t.streams
      && t.streams[a.sid] == Answered(if grant.Some? then RegisterOk(grant.value) else Failed)
      && (grant.Some? ==> grant.value == Granted(r.id, Address(FirstFree(UsedIps(s.sys.store.nodes))), r.token))
      && (grant.Some? ==> r.id in t.sys.store.nodes)
  {
  }

  // ----------------------------------------------------------------- listings

  /** An authentic request for a listing is admitted, with nothing read yet. */
  lemma ListingIsAdmitted(s: Server, sid: nat)
    requires Enabled(s, Begin(sid)) && Opens(s, sid, s.streams[sid].msg.id, s.streams[sid].msg.token)
    ensures var t, msg := Next(s, Begin(sid)), s.streams[sid].msg;
      && t.sys == s.sys
      && t.streams == s.streams[sid := Listing(msg.id, if msg.GetPeers? then Starting else ListingGroups)]
  {
  }

  // -------------------------------------------------------------- ACL changes

  /** An authentic ACL request is approved, and one that is applied with a write that
      succeeds makes its change and touches nothing else. */
  lemma AclRequestIsApproved(s: Server, sid: nat)
    requires Enabled(s, Validate(sid)) && Opens(s, sid, s.streams[sid].msg.id, s.streams[sid].msg.token)
    ensures Next(s, Validate(sid)).sys == s.sys
    ensures Next(s, Validate(sid)).streams == s.streams[sid := Approved(s.streams[sid].msg)]
  {
  }

  lemma AclRequestIsApplied(s: Server, sid: nat, ok: bool)
    requires Enabled(s, ApplyAcl(sid, ok))
    ensures var t, change := Next(s, ApplyAcl(sid, ok)), s.streams[sid].msg.change;
      && t.streams == s.streams[sid := Answered(Pong)]
      && t.sys == s.sys.(store := t.sys.store) && t.sys.store == s.sys.store.(db := t.sys.store.db)
      && t.sys.store.db == s.sys.store.db.(acl := t.sys.store.db.acl)
      && t.sys.store.db.acl == if ok then Acl.Apply(s.sys.store.db.acl, change) else s.sys.store.db.acl
  {
  }

  /** In terms of the tables. */
  lemma ChangeIsMade(t: Acl.Tables, x: string, y: string)
    ensures Acl.Apply(t, Acl.AddGroup(x, y)) == Acl.Tables(t.groups + {(x, y)}, t.rules)
    ensures Acl.Apply(t, Acl.RemoveGroup(x, y)) == Acl.Tables(t.groups - {(x, y)}, t.rules)
    ensures Acl.Apply(t, Acl.AddRule(x, y)) == Acl.Tables(t.groups, t.rules + {(x, y)})
    ensures Acl.Apply(t, Acl.RemoveRule(x, y)) == Acl.Tables(t.groups, t.rules - {(x, y)})
  {
  }

  // ------------------------------------------------------------------ streams

  /** A request arrives as it was sent, and changes nothing by arriving; one that the
      server does not know is answered `Pong` and changes nothing at all. */
  lemma RequestArrives(s: Server, sid: nat, msg: Message, c: Choice)
    requires Enabled(s, Open(sid, msg))
    ensures var t := Next(s, Open(sid, msg));
      && t.sys == s.sys && t.streams == s.streams[sid := Arrived(msg)]
      && (msg.Other? ==> Enabled(t, Handle(sid, c)))
      && (msg.Other? ==> Next(t, Handle(sid, c)) == t.(streams := t.streams[sid := Answered(Pong)]))
  {
  }

  /** A step moves no stream but its own, except that a restart drops them all. */
  lemma OtherStreamsStay(s: Server, a: Action, sid: nat)
    requires Enabled(s, a)
    requires match a
             case Open(x, _) => x != sid
             case Handle(x, _) => x != sid
             case Begin(x) => x != sid
             case Read(x, _) => x != sid
             case Validate(x) => x != sid
             case ApplyAcl(x, _) => x != sid
             case _ => true
    ensures a.Restart? ==> Next(s, a).streams == map[]
    ensures !a.Restart? ==> (sid in Next(s, a).streams <==> sid in s.streams)
    ensures !a.Restart? && sid in s.streams ==> Next(s, a).streams[sid] == s.streams[sid]
  {
  }
}
