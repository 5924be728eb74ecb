/** When a node counts as connected and when it is deleted, over every run:
    whichever writes fail and however often the server restarts. */
module RegistryConnection {
  import opened Wrappers
  import opened RegistryState
  import opened RegistryRuns
  import opened RegistryAges

  /** Reaching these ages takes a node offline, and deletes it. */
  const MINUTE := 61 * SECOND
  const DAY := 86_401 * SECOND

  lemma AgeIff(e: NodeEntry, c: Clock)
    ensures Offline(e, c) <==> c.mono - e.lastHeartbeat >= MINUTE
    ensures Expired(e, c) <==> c.mono - e.lastHeartbeat >= DAY
  {
  }

  predicate Connected(s: Sys, id: Id) {
    id in s.store.nodes && s.store.nodes[id].info.connected
  }

  /** The row that a restart would read says connected. */
  predicate RowConnected(s: Sys, id: Id) {
    id in s.store.db.rows && s.store.db.rows[id].connected
  }

  ghost predicate AlwaysConnected(ss: seq<Sys>, id: Id, m: nat, n: nat)
    requires n < |ss|
  {
    forall k :: m <= k <= n ==> Connected(ss[k], id)
  }

  // ------------------------------------------------------- staying connected

  /** The operation leaves a connected node connected: no reap finds it offline,
      no restart reads it back as offline. */
  predicate Spares(s: Sys, op: Op, id: Id) {
    && (op.Reap? ==> id in s.store.nodes && !Offline(s.store.nodes[id], s.clock))
    && (op.Restart? ==> RowConnected(s, id))
  }

  lemma ConnectedStepIff(s: Sys, op: Op, id: Id)
    requires Connected(s, id) && Linked(s.store)
    ensures Connected(Next(s, op), id) <==> Spares(s, op, id)
  {
  }

  /** A connected node stays so exactly as long as every operation spares it. */
  lemma {:induction false} StaysConnectedIff(ss: seq<Sys>, ops: seq<Op>, id: Id, m: nat, n: nat)
    requires Run(ss, ops) && m <= n < |ss| && Connected(ss[m], id)
    ensures AlwaysConnected(ss, id, m, n) <==> forall k :: m <= k < n ==> Spares(ss[k], ops[k], id)
  {
    hide Next, Connected, Linked, Spares;
    if m < n {
      var k := n - 1;
      StaysConnectedIff(ss, ops, id, m, k);
      MemoryIsBackedByRows(ss, ops, k);
      assert AlwaysConnected(ss, id, m, n) <==> AlwaysConnected(ss, id, m, k) && Connected(ss[n], id);
      if AlwaysConnected(ss, id, m, k) {
        ConnectedStepIff(ss[k], ops[k], id);
      }
    }
  }

  /** At most 60 seconds before state `k`, `id` was heard. */
  ghost predicate HeardWithinAMinute(ss: seq<Sys>, ops: seq<Op>, id: Id, k: nat)
    requires |ss| == |ops| + 1 && k < |ss|
  {
    exists j :: 0 <= j < k && Beats(ss[j], ops[j], id) && ss[k].clock.wall - ss[j].clock.wall <= OFFLINE_SECS * SECOND
  }

  /** Every reap from `m` on finds the node heard within the last 60 seconds. */
  ghost predicate HeardRegularly(ss: seq<Sys>, ops: seq<Op>, id: Id, m: nat, n: nat)
    requires |ss| == |ops| + 1 && n < |ss|
  {
    forall k :: m <= k < n && ops[k].Reap? ==> HeardWithinAMinute(ss, ops, id, k)
  }

  /** Every restart from `m` on reads the node back as connected. */
  ghost predicate RowsStayConnected(ss: seq<Sys>, ops: seq<Op>, id: Id, m: nat, n: nat)
    requires |ss| == |ops| + 1 && n < |ss|
  {
    forall r :: m <= r < n && ops[r].Restart? ==> RowConnected(ss[r], id)
  }

  /** The node was last set by the restart at step `r`, and the reap at step `k`
      comes less than 61 seconds after the time that the restart read back. */
  ghost predicate ReapedInTime(ss: seq<Sys>, ops: seq<Op>, id: Id, r: nat, k: nat)
    requires |ss| == |ops| + 1 && r < k < |ops|
  {
    id in ss[r].store.db.rows && ss[k].clock.wall < TimeSet(ss, ops, id, r) + MINUTE
  }

  /** Every reap from `m` on that comes after a restart and before the next beat
      comes in time. */
  ghost predicate ReloadsLast(ss: seq<Sys>, ops: seq<Op>, id: Id, m: nat, n: nat)
    requires |ss| == |ops| + 1 && n < |ss|
  {
    forall r: nat, k: nat :: m <= k < n && ops[k].Reap? && LastSet(ss, ops, id, r, k) && ops[r].Restart? ==>
      ReapedInTime(ss, ops, id, r, k)
  }

  /** The apparent age at a reap, by what set it last. */
  lemma AgeAtReap(ss: seq<Sys>, ops: seq<Op>, id: Id, k: nat)
    requires Run(ss, ops) && k < |ops| && HeardWithinAMinute(ss, ops, id, k) && id in ss[k].store.nodes
    ensures !Offline(ss[k].store.nodes[id], ss[k].clock) <==>
            forall r: nat :: LastSet(ss, ops, id, r, k) && ops[r].Restart? ==> ReapedInTime(ss, ops, id, r, k)
  {
    NodesWereSet(ss, ops, id, k);
    var j: nat :| LastSet(ss, ops, id, j, k);
    HeardAtIsTimeSet(ss, ops, id, j, k);
    AgeIff(ss[k].store.nodes[id], ss[k].clock);
    assert forall r: nat :: LastSet(ss, ops, id, r, k) ==> r == j;
    if !ops[j].Restart? {
      var i :| 0 <= i < k && Beats(ss[i], ops[i], id) && ss[k].clock.wall - ss[i].clock.wall <= OFFLINE_SECS * SECOND;
      assert Sets(ss[i], ops[i], id);
      WallIsMonotone(ss, ops, i, j);
    }
  }

  lemma {:induction false} WallIsMonotone(ss: seq<Sys>, ops: seq<Op>, i: nat, j: nat)
    requires Run(ss, ops) && i <= j < |ss|
    ensures ss[i].clock.wall <= ss[j].clock.wall
  {
    if i < j {
      WallIsMonotone(ss, ops, i, j - 1);
    }
  }

  /** A connected node that every reap finds heard within 60 seconds stays
      connected if and only if every restart finds its row connected, and every
      reap after a restart and before the next beat comes less than 61 seconds
      after the time that the restart read back. */
  lemma {:induction false} HeardNodesStayConnectedIff(ss: seq<Sys>, ops: seq<Op>, id: Id, m: nat, n: nat)
    requires Run(ss, ops) && m <= n < |ss| && Connected(ss[m], id) && HeardRegularly(ss, ops, id, m, n)
    ensures AlwaysConnected(ss, id, m, n) <==> RowsStayConnected(ss, ops, id, m, n) && ReloadsLast(ss, ops, id, m, n)
  {
    hide Next, Offline, Linked, RowConnected, LastSet, HeardWithinAMinute, ReapedInTime;
    if m < n {
      var k := n - 1;
      HeardNodesStayConnectedIff(ss, ops, id, m, k);
      MemoryIsBackedByRows(ss, ops, k);
      assert AlwaysConnected(ss, id, m, n) <==> AlwaysConnected(ss, id, m, k) && Connected(ss[n], id);
      if AlwaysConnected(ss, id, m, k) {
        ConnectedStepIff(ss[k], ops[k], id);
        if ops[k].Reap? {
          AgeAtReap(ss, ops, id, k);
        }
      }
    }
  }

  /** So it does if all writes succeed, or if there is no restart. */
  lemma {:induction false} HeardNodesStayConnected(ss: seq<Sys>, ops: seq<Op>, id: Id, m: nat, n: nat)
    requires Run(ss, ops) && m <= n < |ss| && Connected(ss[m], id) && HeardRegularly(ss, ops, id, m, n)
    requires CleanRun(ops, n) || Unrestarted(ops, n)
    ensures AlwaysConnected(ss, id, m, n)
  {
    hide Next, Offline, Linked, HeardAt, Beats, Sets, TimeSet, RowConnected;
    forall r | m <= r < n && ops[r].Restart? ensures RowConnected(ss[r], id) {
      HeardNodesStayConnected(ss, ops, id, m, r);
      CleanRunsAgree(ss, ops, r, ss[r].clock);
      AgreesOnConnected(ss[r], id);
    }
    forall r: nat, k: nat | m <= k < n && ops[k].Reap? && LastSet(ss, ops, id, r, k) && ops[r].Restart?
      ensures ReapedInTime(ss, ops, id, r, k)
    {
      HeardNodesStayConnected(ss, ops, id, m, k);
      ReapAfterCleanReload(ss, ops, id, r, k);
    }
    HeardNodesStayConnectedIff(ss, ops, id, m, n);
  }

  lemma AgreesOnConnected(s: Sys, id: Id)
    requires Agrees(s.store)
    ensures Connected(s, id) <==> RowConnected(s, id)
  {
  }

  lemma ReapAfterCleanReload(ss: seq<Sys>, ops: seq<Op>, id: Id, r: nat, k: nat)
    requires Run(ss, ops) && k < |ops| && (CleanRun(ops, k) || Unrestarted(ops, k))
    requires HeardWithinAMinute(ss, ops, id, k) && id in ss[k].store.nodes
    requires LastSet(ss, ops, id, r, k) && ops[r].Restart?
    ensures ReapedInTime(ss, ops, id, r, k)
  {
    var j :| 0 <= j < k && Beats(ss[j], ops[j], id) && ss[k].clock.wall - ss[j].clock.wall <= OFFLINE_SECS * SECOND;
    LatestBeatIsNotEarlier(ss, ops, id, j, k);
    AgesAreNotOverstated(ss, ops, k, id);
    HeardAtIsTimeSet(ss, ops, id, r, k);
  }

  lemma {:induction false} LatestBeatIsNotEarlier(ss: seq<Sys>, ops: seq<Op>, id: Id, j: nat, k: nat)
    requires Run(ss, ops) && j < k < |ss| && Beats(ss[j], ops[j], id)
    ensures id in ss[k].beat && ss[j].clock.wall <= ss[k].beat[id] <= ss[k].clock.wall
  {
    hide Grant, AfterRegister, AfterReap, AfterEndpoint, AfterHeartbeat, Load, AfterChange;
    if j < k - 1 {
      LatestBeatIsNotEarlier(ss, ops, id, j, k - 1);
    }
  }

  /** A registration, a minute, a heartbeat whose write is lost, a restart, a
      second, and a reap. */
  function LossyOps(r: Registration, mono: int): seq<Op> {
    [Register(r, true), Advance(OFFLINE_SECS * SECOND), Heartbeat(r.id, false), Restart(mono, 0),
     Advance(SECOND), Reap(Losses({}, {}))]
  }

  lemma LossyRestart(s: Sys, r: Registration, mono: int)
    requires Init(s)
    ensures var ops := LossyOps(r, mono);
      var t := Next(Next(Next(Next(s, ops[0]), ops[1]), ops[2]), ops[3]);
      && r.id in t.store.nodes && t.store.nodes[r.id].lastHeartbeat == mono - OFFLINE_SECS * SECOND
      && r.id in t.beat && t.beat[r.id] == t.clock.wall && t.clock.mono == mono
  {
  }

  lemma ReapDisconnects(s: Sys, id: Id)
    requires id in s.store.nodes && s.clock.mono - s.store.nodes[id].lastHeartbeat == OFFLINE_SECS * SECOND
    ensures var t := Next(Next(s, Advance(SECOND)), Reap(Losses({}, {})));
      id in t.store.nodes && !Connected(t, id) && t.beat == s.beat && t.clock.wall == s.clock.wall + SECOND
  {
  }

  /** The run ends with `id` marked offline, one second after it was heard. */
  ghost predicate DisconnectedAfterOneSecond(ss: seq<Sys>, ops: seq<Op>, id: Id) {
    && Run(ss, ops)
    && var t := ss[|ops|];
       id in t.store.nodes && !Connected(t, id) && id in t.beat && TrueAge(t, id) == SECOND
  }

  /** Losses and restarts together do matter: a node whose heartbeat write is lost
      just before a restart is marked offline one second after it was heard. */
  lemma LostHeartbeatDisconnects(s: Sys, r: Registration, mono: int)
    requires Init(s)
    ensures exists ss :: ss != [] && ss[0] == s && DisconnectedAfterOneSecond(ss, LossyOps(r, mono), r.id)
  {
    hide Next;
    var ops := LossyOps(r, mono);
    var s1 := Next(s, ops[0]);
    var s2 := Next(s1, ops[1]);
    var s3 := Next(s2, ops[2]);
    var s4 := Next(s3, ops[3]);
    var s5 := Next(s4, ops[4]);
    var s6 := Next(s5, ops[5]);
    LossyRestart(s, r, mono);
    ReapDisconnects(s4, r.id);
    var ss := [s, s1, s2, s3, s4, s5, s6];
    assert Run(ss, ops);
    assert DisconnectedAfterOneSecond(ss, ops, r.id);
  }

  // ---------------------------------------------------------- staying offline

  /** The operation is a heartbeat of `id`, or a restart that reads it back as
      connected. */
  predicate Revives(s: Sys, op: Op, id: Id) {
    (op.Heartbeat? && op.id == id) || (op.Restart? && RowConnected(s, id))
  }

  lemma OfflineStepIff(s: Sys, op: Op, id: Id)
    requires Linked(s.store) && id in s.store.nodes && !Connected(s, id) && id in Next(s, op).store.nodes
    ensures Connected(Next(s, op), id) <==> Revives(s, op, id)
  {
  }

  ghost predicate AlwaysOffline(ss: seq<Sys>, id: Id, m: nat, n: nat)
    requires n < |ss|
  {
    forall k :: m <= k <= n ==> !Connected(ss[k], id)
  }

  ghost predicate InMemory(ss: seq<Sys>, id: Id, m: nat, n: nat)
    requires n < |ss|
  {
    forall k :: m <= k <= n ==> id in ss[k].store.nodes
  }

  /** While a node marked offline exists it stays so exactly until a heartbeat, or
      a restart that finds its row still connected; endpoint reports refresh its
      age but do not reconnect it. */
  lemma {:induction false} StaysOfflineIff(ss: seq<Sys>, ops: seq<Op>, id: Id, m: nat, n: nat)
    requires Run(ss, ops) && m <= n < |ss| && !Connected(ss[m], id) && InMemory(ss, id, m, n)
    ensures AlwaysOffline(ss, id, m, n) <==> forall k :: m <= k < n ==> !Revives(ss[k], ops[k], id)
  {
    hide Next, Connected, Linked, Revives;
    if m < n {
      var k := n - 1;
      StaysOfflineIff(ss, ops, id, m, k);
      MemoryIsBackedByRows(ss, ops, k);
      assert AlwaysOffline(ss, id, m, n) <==> AlwaysOffline(ss, id, m, k) && !Connected(ss[n], id);
      if AlwaysOffline(ss, id, m, k) {
        OfflineStepIff(ss[k], ops[k], id);
      }
    }
  }

  /** Only a heartbeat ends it if all writes succeed, or if there is no restart. */
  lemma {:induction false} OfflineUntilHeartbeat(ss: seq<Sys>, ops: seq<Op>, id: Id, m: nat, n: nat)
    requires Run(ss, ops) && m <= n < |ss| && !Connected(ss[m], id) && InMemory(ss, id, m, n)
    requires CleanRun(ops, n) || Unrestarted(ops, n)
    requires forall k :: m <= k < n && ops[k].Heartbeat? ==> ops[k].id != id
    ensures !Connected(ss[n], id)
  {
    forall k | m <= k < n ensures !Revives(ss[k], ops[k], id) {
      if ops[k].Restart? {
        OfflineUntilHeartbeat(ss, ops, id, m, k);
        CleanRunsAgree(ss, ops, k, ss[k].clock);
      }
    }
    StaysOfflineIff(ss, ops, id, m, n);
  }

  // ------------------------------------------------- when a row is connected

  /** The operation is a registration or a heartbeat of `id`. */
  predicate Connects(s: Sys, op: Op, id: Id) {
    Admits(s, op, id) || (op.Heartbeat? && op.id == id && id in s.store.nodes)
  }

  /** The operation is a reap that marks `id` offline in its row. */
  predicate StoresMark(s: Sys, op: Op, id: Id) {
    op.Reap? && id !in op.lost.updates && id in s.store.nodes && Offline(s.store.nodes[id], s.clock)
  }

  lemma RowConnectedStep(s: Sys, op: Op, id: Id)
    requires Linked(s.store) && id in Next(s, op).store.db.rows
    ensures RowConnected(Next(s, op), id) <==>
            (Connects(s, op, id) && Clean(op)) || (RowConnected(s, id) && !StoresMark(s, op, id))
    ensures id in s.store.db.rows || (Connects(s, op, id) && Clean(op))
    ensures Connects(s, op, id) ==> !StoresMark(s, op, id)
  {
  }

  /** At step `i` the node connected and that was stored, and no mark has been
      stored since. */
  ghost predicate ConnectedLast(ss: seq<Sys>, ops: seq<Op>, id: Id, i: nat, n: nat)
    requires |ss| == |ops| + 1 && n < |ss|
  {
    && i < n && Connects(ss[i], ops[i], id) && Clean(ops[i])
    && forall j :: i < j < n ==> !StoresMark(ss[j], ops[j], id)
  }

  /** A row says connected exactly when, of the registrations, heartbeats and
      offline marks whose writes succeeded, the latest is not a mark. */
  lemma {:induction false} RowConnectedIff(ss: seq<Sys>, ops: seq<Op>, id: Id, n: nat)
    requires Run(ss, ops) && n < |ss| && id in ss[n].store.db.rows
    ensures RowConnected(ss[n], id) <==> exists i: nat :: ConnectedLast(ss, ops, id, i, n)
  {
    hide Next, Linked, Connects, StoresMark, Clean, RowConnected;
    var k := n - 1;
    MemoryIsBackedByRows(ss, ops, k);
    RowConnectedStep(ss[k], ops[k], id);
    if Connects(ss[k], ops[k], id) && Clean(ops[k]) {
      assert ConnectedLast(ss, ops, id, k, n);
    } else {
      RowConnectedIff(ss, ops, id, k);
      if RowConnected(ss[n], id) {
        var i: nat :| ConnectedLast(ss, ops, id, i, k);
        assert ConnectedLast(ss, ops, id, i, n);
      }
      if i: nat :| ConnectedLast(ss, ops, id, i, n) {
        assert ConnectedLast(ss, ops, id, i, k);
      }
    }
  }

  // -------------------------------------------- how old a connected node can be

  /** Step `k` is a restart that reconnects `id`. */
  predicate Reconnects(ss: seq<Sys>, ops: seq<Op>, id: Id, k: nat)
    requires |ss| == |ops| + 1 && k < |ops|
  {
    ops[k].Restart? && !Connected(ss[k], id) && Connected(ss[k + 1], id)
  }

  /** A restart reconnects exactly the nodes that are not connected in memory and
      are in their row; if all writes succeeded, none. */
  lemma RestartReconnectsIff(ss: seq<Sys>, ops: seq<Op>, id: Id, k: nat)
    requires Run(ss, ops) && k < |ops| && ops[k].Restart?
    ensures Connected(ss[k + 1], id) <==> RowConnected(ss[k], id)
    ensures CleanRun(ops, k) ==> !Reconnects(ss, ops, id, k)
  {
    if CleanRun(ops, k) {
      CleanRunsAgree(ss, ops, k, ss[k].clock);
    }
  }

  lemma ConnectsStep(s: Sys, op: Op, id: Id)
    requires Linked(s.store) && !op.Reap? && !op.Restart?
    ensures Connected(Next(s, op), id) <==> Connected(s, id) || Connects(s, op, id)
  {
  }

  /** Until the next reap, what a restart leaves connected is what the rows had
      connected, and what has registered or sent a heartbeat since. */
  lemma {:induction false} ConnectedAfterRestartIff(ss: seq<Sys>, ops: seq<Op>, id: Id, r: nat, n: nat)
    requires Run(ss, ops) && r < n < |ss| && ops[r].Restart?
    requires forall k :: r < k < n ==> !ops[k].Reap? && !ops[k].Restart?
    ensures Connected(ss[n], id) <==>
            RowConnected(ss[r], id) || exists k :: r < k < n && Connects(ss[k], ops[k], id)
  {
    hide Next, Connected, RowConnected, Linked, Connects;
    if r == n - 1 {
      RestartReconnectsIff(ss, ops, id, r);
    } else {
      var k := n - 1;
      ConnectedAfterRestartIff(ss, ops, id, r, k);
      MemoryIsBackedByRows(ss, ops, k);
      ConnectsStep(ss[k], ops[k], id);
    }
  }

  /** What an operation that leaves `id` connected does to its beat, and to the
      record of the latest reap. */
  lemma RecentStep(s: Sys, op: Op, id: Id)
    requires Linked(s.store) && Connected(Next(s, op), id)
    ensures Beats(s, op, id) || op.Restart? || Connected(s, id)
    ensures op.Reap? ==> Connected(s, id) && !Offline(s.store.nodes[id], s.clock)
    ensures Beats(s, op, id) ==> id in Next(s, op).beat && Next(s, op).beat[id] == s.clock.wall
    ensures !Beats(s, op, id) && id in s.beat ==> id in Next(s, op).beat && Next(s, op).beat[id] == s.beat[id]
    ensures Next(s, op).reaped == if op.Reap? then s.clock.wall else s.reaped
  {
  }

  /** Every restart that reconnected `id` was followed by a reap. */
  ghost predicate ReconnectionsReaped(ss: seq<Sys>, ops: seq<Op>, id: Id, n: nat)
    requires |ss| == |ops| + 1 && n < |ss|
  {
    forall k :: 0 <= k < n && Reconnects(ss, ops, id, k) ==> exists j :: k < j < n && ops[j].Reap?
  }

  /** If the latest reap was at most `gap` ago and no restart since has reconnected
      it, a connected node was heard less than 62 seconds plus `gap` ago, whichever
      writes fail and however often the server restarted; less than 61 if it never
      did. */
  lemma {:induction false} ConnectedMeansRecent(ss: seq<Sys>, ops: seq<Op>, n: nat, id: Id, gap: nat)
    requires Run(ss, ops) && n < |ss| && Connected(ss[n], id) && ReconnectionsReaped(ss, ops, id, n)
    ensures id in ss[n].beat && ss[n].reaped - ss[n].beat[id] < MINUTE + if Unrestarted(ops, n) then 0 else SECOND
    ensures ss[n].clock.wall - ss[n].reaped <= gap ==>
      TrueAge(ss[n], id) < MINUTE + gap + if Unrestarted(ops, n) then 0 else SECOND
  {
    hide Next, Beats, Offline, Linked, Clean, NeverLooksYounger;
    if n > 0 {
      var k := n - 1;
      var s, op := ss[k], ops[k];
      MemoryIsBackedByRows(ss, ops, k);
      ReapedIsPast(ss, ops, k);
      RecentStep(s, op, id);
      if op.Reap? {
        ReapedWasRecent(ss, ops, id, k);
      } else if !Beats(s, op, id) {
        assert !Reconnects(ss, ops, id, k);
        assert Connected(s, id);
        assert ReconnectionsReaped(ss, ops, id, k);
        ConnectedMeansRecent(ss, ops, k, id, gap);
      }
    }
  }

  lemma ReapedWasRecent(ss: seq<Sys>, ops: seq<Op>, id: Id, k: nat)
    requires Run(ss, ops) && k < |ss| && id in ss[k].store.nodes && !Offline(ss[k].store.nodes[id], ss[k].clock)
    ensures id in ss[k].beat && TrueAge(ss[k], id) < MINUTE + if Unrestarted(ops, k) then 0 else SECOND
  {
    AgeIff(ss[k].store.nodes[id], ss[k].clock);
    AgesAreNotUnderstated(ss, ops, k);
    if Unrestarted(ops, k) {
      AgesAreExactUntilRestart(ss, ops, k, id);
    }
  }

  lemma {:induction false} ReapedIsPast(ss: seq<Sys>, ops: seq<Op>, n: nat)
    requires Run(ss, ops) && n < |ss|
    ensures ss[n].reaped <= ss[n].clock.wall
  {
    if n > 0 {
      ReapedIsPast(ss, ops, n - 1);
    }
  }

  /** A registration, any silence from a minute to a day, a reap whose mark is
      lost, and a restart. */
  function LostMarkOps(r: Registration, silence: nat, mono: int): seq<Op> {
    [Register(r, true), Advance(silence), Reap(Losses({r.id}, {})), Restart(mono, 0)]
  }

  ghost predicate ConnectedThoughSilent(ss: seq<Sys>, ops: seq<Op>, id: Id, silence: int) {
    && Run(ss, ops)
    && var t := ss[|ops|];
       Connected(t, id) && id in t.beat && TrueAge(t, id) == silence
  }

  lemma LostMarkKeepsRow(s: Sys, id: Id)
    requires id in s.store.nodes && !Expired(s.store.nodes[id], s.clock) && RowConnected(s, id)
    ensures var t := Next(s, Reap(Losses({id}, {})));
      RowConnected(t, id) && t.beat == s.beat && t.clock == s.clock
  {
  }

  lemma RestartConnects(s: Sys, id: Id, mono: int, down: nat)
    requires RowConnected(s, id)
    ensures var t := Next(s, Restart(mono, down));
      Connected(t, id) && t.beat == s.beat && t.clock == Clock(mono, s.clock.wall + down)
  {
  }

  /** A restart right after a reap whose mark was lost does reconnect a node, as
      silent as anything that is not yet deleted. */
  lemma LostMarkReconnects(s: Sys, r: Registration, silence: nat, mono: int)
    requires Init(s) && MINUTE <= silence < DAY
    ensures exists ss ::
      ss != [] && ss[0] == s && ConnectedThoughSilent(ss, LostMarkOps(r, silence, mono), r.id, silence)
  {
    var ops := LostMarkOps(r, silence, mono);
    FirstNodeGetsFirstAddress(s, r);
    var s1 := Next(s, ops[0]);
    var s2 := Next(s1, ops[1]);
    AgeIff(s2.store.nodes[r.id], s2.clock);
    LostMarkKeepsRow(s2, r.id);
    hide Next;
    var s3 := Next(s2, ops[2]);
    var s4 := Next(s3, ops[3]);
    RestartConnects(s3, r.id, mono, 0);
    var ss := [s, s1, s2, s3, s4];
    assert Run(ss, ops);
    assert ConnectedThoughSilent(ss, ops, r.id, silence);
  }

  // ------------------------------------------------ the bound of 61 seconds

  /** If a reap `wait` from now leaves `id` connected, it was heard less than 61
      seconds before that reap. */
  predicate KeepsBound(s: Sys, id: Id, wait: nat, lost: Losses) {
    var t := Next(Next(s, Advance(wait)), Reap(lost));
    Connected(t, id) && id in t.beat ==> TrueAge(t, id) < MINUTE
  }

  lemma KeepsBoundIff(s: Sys, id: Id)
    requires Connected(s, id) && id in s.beat
    ensures (forall wait, lost :: KeepsBound(s, id, wait, lost)) <==>
            Offline(s.store.nodes[id], s.clock) || HeardAt(s, id) <= s.beat[id]
  {
    forall wait: nat, lost ensures KeepsBound(s, id, wait, lost) <==>
      s.clock.wall + wait - HeardAt(s, id) >= MINUTE || s.clock.wall + wait - s.beat[id] < MINUTE
    {
      ReapAfterWait(s, id, wait, lost);
    }
    AgeIff(s.store.nodes[id], s.clock);
    if !Offline(s.store.nodes[id], s.clock) {
      var wait := MINUTE - 1 - (s.clock.wall - HeardAt(s, id));
      assert KeepsBound(s, id, wait, Losses({}, {})) <==> s.clock.wall + wait - s.beat[id] < MINUTE;
    }
  }

  lemma ReapAfterWait(s: Sys, id: Id, wait: nat, lost: Losses)
    requires Connected(s, id) && id in s.beat
    ensures var t := Next(Next(s, Advance(wait)), Reap(lost));
      && (Connected(t, id) <==> s.clock.wall + wait - HeardAt(s, id) < MINUTE)
      && t.beat == s.beat && t.clock.wall == s.clock.wall + wait
  {
    var u := Next(s, Advance(wait));
    AgeIff(u.store.nodes[id], u.clock);
  }

  /** A reload keeps the bound of 61 seconds for a connected node, whenever the
      next reap comes, if and only if the node is due for that reap already or the
      time read back is not later than its latest beat; if all writes succeeded,
      that is if the reload came no further into its second than the beat. */
  lemma ReloadKeepsBoundIff(ss: seq<Sys>, ops: seq<Op>, n: nat, id: Id)
    requires Run(ss, ops) && 0 < n < |ss| && ops[n - 1].Restart? && Connected(ss[n], id)
    ensures id in ss[n].beat && id in ss[n - 1].store.db.rows
    ensures (forall wait, lost :: KeepsBound(ss[n], id, wait, lost)) <==>
            Offline(ss[n].store.nodes[id], ss[n].clock) || TimeSet(ss, ops, id, n - 1) <= ss[n].beat[id]
    ensures CleanRun(ops, n) ==>
      (TimeSet(ss, ops, id, n - 1) <= ss[n].beat[id] <==> ss[n].clock.wall % SECOND <= ss[n].beat[id] % SECOND)
  {
    hide KeepsBound, Next, Linked, Agrees, Beats, Offline;
    AgesAreNotUnderstated(ss, ops, n);
    InRows(ss[n].store, id);
    RestartKeepsRows(ss[n - 1], ops[n - 1]);
    assert LastSet(ss, ops, id, n - 1, n);
    HeardAtIsTimeSet(ss, ops, id, n - 1, n);
    KeepsBoundIff(ss[n], id);
    if CleanRun(ops, n) {
      RestartsPreserveAges(ss, ops, n);
    }
  }

  /** A registration at a whole second, a restart just before the next, and a reap
      just before the node would be due. */
  function StretchOps(r: Registration, mono: int): seq<Op> {
    [Register(r, true), Restart(mono, SECOND - 1), Advance(MINUTE - 1), Reap(Losses({}, {}))]
  }

  /** So the bound of 61 seconds does fail: with every write successful, a node is
      still connected after a reap nearly 62 seconds after it was heard. */
  lemma ReloadStretchesBound(s: Sys, r: Registration, mono: int)
    requires Init(s) && s.clock.wall % SECOND == 0
    ensures exists ss ::
      ss != [] && ss[0] == s && ConnectedThoughSilent(ss, StretchOps(r, mono), r.id, MINUTE + SECOND - 2)
  {
    var ops := StretchOps(r, mono);
    FirstNodeGetsFirstAddress(s, r);
    var s1 := Next(s, ops[0]);
    var s2 := Next(s1, ops[1]);
    RestartConnects(s1, r.id, mono, SECOND - 1);
    LoadedAges(s1, mono, SECOND - 1);
    assert HeardAt(s2, r.id) == s2.clock.wall;
    ReapAfterWait(s2, r.id, MINUTE - 1, Losses({}, {}));
    hide Next;
    var s3 := Next(s2, ops[2]);
    var s4 := Next(s3, ops[3]);
    var ss := [s, s1, s2, s3, s4];
    assert Run(ss, ops);
    assert ConnectedThoughSilent(ss, ops, r.id, MINUTE + SECOND - 2);
  }

  // ---------------------------------------------------------------- deletion

  /** The entry, marked offline if it has been silent for 61 seconds. */
  function Marked(s: Sys, id: Id): NodeEntry
    requires id in s.store.nodes
  {
    var e := s.store.nodes[id];
    if s.clock.wall - HeardAt(s, id) < MINUTE then e else e.(info := e.info.(connected := false))
  }

  /** A reap keeps exactly the nodes that memory takes to have been heard less than
      86,401 seconds ago, and changes nothing in them but the mark. */
  lemma ReapKeepsIff(s: Sys, lost: Losses, id: Id)
    ensures var t := Next(s, Reap(lost)).store;
      && (id in t.nodes <==> id in s.store.nodes && s.clock.wall - HeardAt(s, id) < DAY)
      && (id in t.nodes ==> t.nodes[id] == Marked(s, id))
  {
    if id in s.store.nodes {
      AgeIff(s.store.nodes[id], s.clock);
    }
  }

  /** The row goes with the node, unless the delete is lost; it is marked with the
      node, unless the update is lost; and a row without a node is left alone. */
  lemma ReapKeepsRowIff(s: Sys, lost: Losses, id: Id)
    requires id in s.store.db.rows
    ensures var rows, t := s.store.db.rows, Next(s, Reap(lost)).store;
      if id !in s.store.nodes then id in t.db.rows && t.db.rows[id] == rows[id]
      else
        var silence := s.clock.wall - HeardAt(s, id);
        var kept := if silence < MINUTE || id in lost.updates then rows[id] else rows[id].(connected := false);
        && (id in t.db.rows <==> silence < DAY || id in lost.deletes)
        && (id in t.db.rows ==> t.db.rows[id] == kept)
  {
    if id in s.store.nodes {
      AgeIff(s.store.nodes[id], s.clock);
    }
  }

  lemma OnlyReapsDelete(s: Sys, op: Op, id: Id)
    requires Linked(s.store) && id in s.store.nodes && !op.Reap?
    ensures id in Next(s, op).store.nodes
  {
  }

  /** Over a run: a reap keeps a node if and only if less than 86,401 seconds have
      passed since its latest beat, or, if a restart came later, since the time that
      the restart read back. */
  lemma ReapKeepsLastSetIff(ss: seq<Sys>, ops: seq<Op>, id: Id, j: nat, k: nat)
    requires Run(ss, ops) && k < |ops| && ops[k].Reap? && id in ss[k].store.nodes && LastSet(ss, ops, id, j, k)
    ensures ops[j].Restart? ==> id in ss[j].store.db.rows
    ensures id in ss[k + 1].store.nodes <==> ss[k].clock.wall < TimeSet(ss, ops, id, j) + DAY
  {
    hide Next, LastSet;
    HeardAtIsTimeSet(ss, ops, id, j, k);
    ReapKeepsIff(ss[k], ops[k].lost, id);
  }

  /** At step `k` a reap finds `id` in memory, heard less than 86,401 seconds ago. */
  ghost predicate SparedAt(ss: seq<Sys>, id: Id, k: nat)
    requires k < |ss|
  {
    id in ss[k].store.nodes && ss[k].clock.wall - HeardAt(ss[k], id) < DAY
  }

  /** A node stays registered exactly as long as every reap spares it: nothing else
      removes it, and every restart brings it back, whichever writes fail. */
  lemma {:induction false} StaysRegisteredIff(ss: seq<Sys>, ops: seq<Op>, id: Id, m: nat, n: nat)
    requires Run(ss, ops) && m <= n < |ss| && id in ss[m].store.nodes
    ensures InMemory(ss, id, m, n) <==> forall k :: m <= k < n && ops[k].Reap? ==> SparedAt(ss, id, k)
  {
    hide Next, Linked, HeardAt;
    if m < n {
      var k := n - 1;
      StaysRegisteredIff(ss, ops, id, m, k);
      MemoryIsBackedByRows(ss, ops, k);
      assert InMemory(ss, id, m, n) <==> InMemory(ss, id, m, k) && id in ss[n].store.nodes;
      if InMemory(ss, id, m, k) {
        if ops[k].Reap? {
          ReapKeepsIff(ss[k], ops[k].lost, id);
        } else {
          OnlyReapsDelete(ss[k], ops[k], id);
        }
      }
    }
  }

  /** So a node that every reap finds heard within 86,400 seconds stays registered,
      if all writes succeed, or if there is no restart. */
  lemma {:induction false} HeardNodesStayRegistered(ss: seq<Sys>, ops: seq<Op>, id: Id, m: nat, n: nat)
    requires Run(ss, ops) && m <= n < |ss| && id in ss[m].store.nodes && (CleanRun(ops, n) || Unrestarted(ops, n))
    requires forall k :: m <= k < n && ops[k].Reap? && id in ss[k].beat ==> TrueAge(ss[k], id) <= 86_400 * SECOND
    ensures InMemory(ss, id, m, n)
  {
    hide Next, HeardAt;
    forall k | m <= k < n && ops[k].Reap? ensures SparedAt(ss, id, k) {
      HeardNodesStayRegistered(ss, ops, id, m, k);
      AgesAreNotOverstated(ss, ops, k, id);
      ApparentIs(ss[k], id);
    }
    StaysRegisteredIff(ss, ops, id, m, n);
  }

  lemma ApparentIs(s: Sys, id: Id)
    requires id in s.store.nodes
    ensures ApparentAge(s, id) == s.clock.wall - HeardAt(s, id)
  {
  }

  /** Right after a reap no node in memory is older than 86,400 whole seconds. */
  lemma ReapLeavesNoOldNodes(ss: seq<Sys>, ops: seq<Op>, n: nat, id: Id)
    requires Run(ss, ops) && 0 < n < |ss| && ops[n - 1].Reap? && id in ss[n].store.nodes
    ensures Age(ss[n].store.nodes[id], ss[n].clock) <= DELETE_SECS
  {
    assert Age(ss[n].store.nodes[id], ss[n].clock) == Age(ss[n - 1].store.nodes[id], ss[n - 1].clock);
  }

  /** The age of a row by its stored epoch. */
  function RowAge(s: Sys, id: Id): int
    requires id in s.store.db.rows
  {
    s.clock.Secs() - s.store.db.rows[id].lastHeartbeat
  }

  /** If all writes succeed, the rows are then those same nodes. By its epoch a row
      is at most 86,400 seconds old exactly when its node is a second short of that
      in memory, or was heard no further into a second than the reap came into its
      own; and it is never more than 86,401. */
  lemma ReapedRowsAreYoungIff(ss: seq<Sys>, ops: seq<Op>, n: nat, id: Id)
    requires Run(ss, ops) && 0 < n < |ss| && ops[n - 1].Reap? && CleanRun(ops, n) && id in ss[n].store.db.rows
    ensures id in ss[n].store.nodes
    ensures RowAge(ss[n], id) <= DELETE_SECS + 1
    ensures RowAge(ss[n], id) <= DELETE_SECS <==>
            || Age(ss[n].store.nodes[id], ss[n].clock) < DELETE_SECS
            || HeardAt(ss[n], id) % SECOND <= ss[n].clock.wall % SECOND
  {
    RestartsPreserveAges(ss, ops, n);
    ReapLeavesNoOldNodes(ss, ops, n, id);
    AgesAreNotUnderstated(ss, ops, n);
    EpochLag(HeardAt(ss[n], id), ss[n].clock.wall);
  }

  /** Cutting two times to whole seconds widens their distance by one exactly when
      the earlier is further into its second. */
  lemma EpochLag(heard: int, now: int)
    requires heard <= now
    ensures now / SECOND - heard / SECOND == (now - heard) / SECOND + if heard % SECOND <= now % SECOND then 0 else 1
  {
  }

  /** A registration in the last nanosecond of a second, a day and a nanosecond,
      and a reap. */
  function DayOps(r: Registration): seq<Op> {
    [Register(r, true), Advance(DELETE_SECS * SECOND + 1), Reap(Losses({}, {}))]
  }

  ghost predicate LeavesRowOfAge(ss: seq<Sys>, ops: seq<Op>, id: Id, age: int) {
    && Run(ss, ops)
    && var t := ss[|ops|];
       id in t.store.db.rows && RowAge(t, id) == age
  }

  /** Rows do reach 86,401 seconds: with every write successful, a reap leaves a
      row that is that old by its epoch. */
  lemma ReapLeavesOlderRow(s: Sys, r: Registration)
    requires Init(s) && s.clock.wall % SECOND == SECOND - 1
    ensures exists ss :: ss != [] && ss[0] == s && LeavesRowOfAge(ss, DayOps(r), r.id, DELETE_SECS + 1)
  {
    var ops := DayOps(r);
    FirstNodeGetsFirstAddress(s, r);
    var s1 := Next(s, ops[0]);
    var s2 := Next(s1, ops[1]);
    AgeIff(s2.store.nodes[r.id], s2.clock);
    var s3 := Next(s2, ops[2]);
    var ss := [s, s1, s2, s3];
    assert Run(ss, ops);
    assert LeavesRowOfAge(ss, ops, r.id, DELETE_SECS + 1);
  }
}
