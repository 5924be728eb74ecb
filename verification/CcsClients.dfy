/** What a client can count on if it keeps sending requests: its connection, its
    session and its endpoint, in every interleaving of the server. */
module CcsClients {
  import opened Wrappers
  import opened RegistryState
  import opened CcsServer
  import R = RegistryRuns
  import Ages = RegistryAges
  import Connection = RegistryConnection

  /** The action handles a ping or an endpoint report that carries the token of
      `id`, or the registration that creates `id`. */
  predicate Speaks(s: Server, a: Action, id: Id)
    requires Enabled(s, a)
  {
    && a.Handle?
    && match s.streams[a.sid].msg
       case Ping(x, token) => x == id && ValidSession(s.sys.store, id, token)
       case UpdateEndpoint(x, token, _) => x == id && ValidSession(s.sys.store, id, token)
       case Register(name, key) =>
         a.choice.id == id && Grant(s.sys.store, Registration(id, a.choice.token, name, key), a.choice.ok).Some?
       case _ => false
  }

  /** Nothing else counts as a heartbeat. */
  lemma SpeaksIffBeats(s: Server, a: Action, id: Id)
    requires Enabled(s, a)
    ensures Speaks(s, a, id) <==> Ages.Beats(s.sys, OpOf(s, a), id)
  {
  }

  /** Every reap from `m` on comes at most 60 seconds after the server handled an
      authentic request of `id`. */
  ghost predicate SpeaksRegularly(ss: seq<Server>, acts: seq<Action>, id: Id, m: nat, n: nat)
    requires Run(ss, acts) && n < |ss|
  {
    forall k :: m <= k < n && acts[k].Reap? ==> SpokeWithinAMinute(ss, acts, id, k)
  }

  ghost predicate SpokeWithinAMinute(ss: seq<Server>, acts: seq<Action>, id: Id, k: nat)
    requires Run(ss, acts) && k < |ss|
  {
    exists j :: 0 <= j < k && Speaks(ss[j], acts[j], id)
      && ss[k].sys.clock.wall - ss[j].sys.clock.wall <= OFFLINE_SECS * SECOND
  }

  lemma SpokenIsHeard(ss: seq<Server>, acts: seq<Action>, id: Id, m: nat, n: nat)
    requires Run(ss, acts) && n < |ss| && SpeaksRegularly(ss, acts, id, m, n)
    ensures Connection.HeardRegularly(Systems(ss), Ops(ss, acts), id, m, n)
  {
    hide Speaks, Ages.Beats;
    var sys, ops := Systems(ss), Ops(ss, acts);
    forall k | m <= k < n && ops[k].Reap? ensures Connection.HeardWithinAMinute(sys, ops, id, k) {
      assert acts[k].Reap?;
      var j :| 0 <= j < k && Speaks(ss[j], acts[j], id)
        && ss[k].sys.clock.wall - ss[j].sys.clock.wall <= OFFLINE_SECS * SECOND;
      SpeaksIffBeats(ss[j], acts[j], id);
      assert Ages.Beats(sys[j], ops[j], id);
    }
  }

  ghost predicate AlwaysConnected(ss: seq<Server>, id: Id, m: nat, n: nat)
    requires n < |ss|
  {
    forall k :: m <= k <= n ==> Connection.Connected(ss[k].sys, id)
  }

  /** A connected client whose authentic requests are handled so often stays
      connected, in any interleaving and whichever writes fail, if and only if every
      restart finds its row connected, and every reap after a restart and before its
      next request comes less than 61 seconds after the time that the restart read
      back. While it is connected its token stays valid. */
  lemma SpeakingClientsStayConnectedIff(ss: seq<Server>, acts: seq<Action>, id: Id, token: string, m: nat, n: nat)
    requires Run(ss, acts) && m <= n < |ss| && SpeaksRegularly(ss, acts, id, m, n)
    requires Connection.Connected(ss[m].sys, id) && ValidSession(ss[m].sys.store, id, token)
    ensures R.Run(Systems(ss), Ops(ss, acts))
    ensures AlwaysConnected(ss, id, m, n) <==>
            Connection.RowsStayConnected(Systems(ss), Ops(ss, acts), id, m, n)
            && Connection.ReloadsLast(Systems(ss), Ops(ss, acts), id, m, n)
    ensures AlwaysConnected(ss, id, m, n) ==> ValidSession(ss[n].sys.store, id, token)
  {
    hide Next, OpOf, Speaks;
    var sys := Systems(ss);
    ServerRunsAreRegistryRuns(ss, acts);
    SpokenIsHeard(ss, acts, id, m, n);
    Connection.HeardNodesStayConnectedIff(sys, Ops(ss, acts), id, m, n);
    assert forall k :: m <= k <= n ==> Connection.Connected(sys[k], id) == Connection.Connected(ss[k].sys, id);
    if AlwaysConnected(ss, id, m, n) {
      assert Live(ss, id, m, n);
      SessionsAreConstant(ss, acts, id, m, n);
    }
  }

  /** So it does if all writes succeed, or if there is no restart. */
  lemma SpeakingClientsStayConnected(ss: seq<Server>, acts: seq<Action>, id: Id, token: string, m: nat, n: nat)
    requires Run(ss, acts) && m <= n < |ss| && SpeaksRegularly(ss, acts, id, m, n)
    requires Connection.Connected(ss[m].sys, id) && ValidSession(ss[m].sys.store, id, token)
    requires R.CleanRun(Ops(ss, acts), n) || R.Unrestarted(Ops(ss, acts), n)
    ensures Connection.Connected(ss[n].sys, id) && ValidSession(ss[n].sys.store, id, token)
  {
    hide Next, OpOf, Speaks;
    var sys := Systems(ss);
    ServerRunsAreRegistryRuns(ss, acts);
    SpokenIsHeard(ss, acts, id, m, n);
    Connection.HeardNodesStayConnected(sys, Ops(ss, acts), id, m, n);
    forall k | m <= k <= n ensures Connection.Connected(ss[k].sys, id) {
      assert Connection.Connected(sys[k], id);
    }
    SessionsAreConstant(ss, acts, id, m, n);
  }

  /** The endpoint that the action reports for `id`, with its token. */
  function Reported(s: Server, a: Action, id: Id): Option<string>
    requires Enabled(s, a)
  {
    if !a.Handle? then None
    else
      match s.streams[a.sid].msg
      case UpdateEndpoint(x, token, endpoint) =>
        if x == id && ValidSession(s.sys.store, id, token) then Some(endpoint) else None
      case _ => None
  }

  /** The action handles the registration that creates `id`. */
  predicate Creates(s: Server, a: Action, id: Id)
    requires Enabled(s, a)
  {
    && a.Handle? && s.streams[a.sid].msg.Register? && a.choice.id == id
    && Answer(s.sys.store, s.streams[a.sid].msg, a.choice, s.relayAddr).RegisterOk?
  }

  lemma GivenIff(s: Server, a: Action, id: Id)
    requires Enabled(s, a)
    ensures R.EndpointGiven(s.sys, OpOf(s, a), id) == if Creates(s, a, id) then Some("") else Reported(s, a, id)
  {
  }

  /** What the action at step `j` wrote is still known in state `n`: the write
      succeeded, or the server has not restarted since. */
  ghost predicate Remembered(acts: seq<Action>, j: nat, n: nat)
    requires j < n <= |acts|
  {
    (acts[j].Handle? && acts[j].choice.ok) || forall k :: j < k < n ==> !acts[k].Restart?
  }

  /** Step `i` is the latest before state `n` that created `id` or reported its
      endpoint and is still remembered; `endpoint` is what it reported, or empty. */
  ghost predicate ReportedLast(ss: seq<Server>, acts: seq<Action>, id: Id, endpoint: string, i: nat, n: nat)
    requires Run(ss, acts)
  {
    && i < n < |ss|
    && (if Creates(ss[i], acts[i], id) then endpoint == "" else Reported(ss[i], acts[i], id) == Some(endpoint))
    && Remembered(acts, i, n)
    && forall j :: i < j < n && Remembered(acts, j, n) ==>
         !Creates(ss[j], acts[j], id) && Reported(ss[j], acts[j], id) == None
  }

  lemma RememberedIff(ss: seq<Server>, acts: seq<Action>, id: Id, j: nat, n: nat)
    requires Run(ss, acts) && j < n < |ss|
    requires Creates(ss[j], acts[j], id) || Reported(ss[j], acts[j], id).Some?
    ensures R.Remembered(Ops(ss, acts), j, n) <==> Remembered(acts, j, n)
  {
    hide Next, Effect;
    var ops := Ops(ss, acts);
    forall k | j <= k < n ensures ops[k].Restart? <==> acts[k].Restart? {
      RestartIff(ss[k], acts[k]);
    }
    CleanIff(ss[j], acts[j], id);
  }

  lemma RestartIff(s: Server, a: Action)
    requires Enabled(s, a)
    ensures OpOf(s, a).Restart? <==> a.Restart?
  {
  }

  lemma CleanIff(s: Server, a: Action, id: Id)
    requires Enabled(s, a) && (Creates(s, a, id) || Reported(s, a, id).Some?)
    ensures R.Clean(OpOf(s, a)) <==> a.choice.ok
  {
  }

  /** The endpoint that peers are told of a node is the latest that the node itself
      reported, with its token, and that is remembered; it is empty if it has reported
      none since it registered. Whatever fails, restarts or interleaves. */
  lemma EndpointsAreReported(ss: seq<Server>, acts: seq<Action>, id: Id, n: nat)
    requires Run(ss, acts) && n < |ss| && id in ss[n].sys.store.nodes
    ensures exists i :: ReportedLast(ss, acts, id, ss[n].sys.store.nodes[id].info.endpoint, i, n)
  {
    hide Next, OpOf, R.EndpointGiven, Creates, Reported, Remembered, R.Remembered;
    var sys, ops, endpoint := Systems(ss), Ops(ss, acts), ss[n].sys.store.nodes[id].info.endpoint;
    ServerRunsAreRegistryRuns(ss, acts);
    R.EndpointIsLastReport(sys, ops, id, n);
    var i: nat :| R.GivenLast(sys, ops, id, i, n);
    GivenIff(ss[i], acts[i], id);
    RememberedIff(ss, acts, id, i, n);
    forall j | i < j < n && Remembered(acts, j, n)
      ensures !Creates(ss[j], acts[j], id) && Reported(ss[j], acts[j], id) == None
    {
      GivenIff(ss[j], acts[j], id);
      if Creates(ss[j], acts[j], id) || Reported(ss[j], acts[j], id).Some? {
        RememberedIff(ss, acts, id, j, n);
      }
    }
    assert ReportedLast(ss, acts, id, endpoint, i, n);
  }
}
