/** How old a heartbeat looks, across restarts, and what the reaper makes of it. */
module RegistryAges {
  import opened Wrappers
  import opened RegistryState
  import opened RegistryRuns

  /** The wall-clock time at which memory takes a node to have been heard last. */
  function HeardAt(s: Sys, id: Id): int
    requires id in s.store.nodes
  {
    s.clock.wall - (s.clock.mono - s.store.nodes[id].lastHeartbeat)
  }

  /** True and apparent time since the node was last heard. */
  function TrueAge(s: Sys, id: Id): int
    requires id in s.beat
  {
    s.clock.wall - s.beat[id]
  }

  function ApparentAge(s: Sys, id: Id): int
    requires id in s.store.nodes
  {
    s.clock.mono - s.store.nodes[id].lastHeartbeat
  }

  /** The operation is heard from `id`: a registration that is granted, a
      heartbeat, or an endpoint report. */
  predicate Beats(s: Sys, op: Op, id: Id) {
    match op
    case Register(r, ok) => r.id == id && Grant(s.store, r, ok).Some?
    case UpdateEndpoint(x, _, _) => x == id && id in s.store.nodes
    case Heartbeat(x, _) => x == id && id in s.store.nodes
    case _ => false
  }

  /** No stored epoch is later than the beat it stands for, and memory is ahead
      of the latest beat by less than a second. */
  ghost predicate NeverLooksYounger(s: Sys) {
    && Linked(s.store)
    && (forall id :: id in s.store.db.rows ==>
          id in s.beat && s.store.db.rows[id].lastHeartbeat * SECOND <= s.beat[id] <= s.clock.wall)
    && (forall id :: id in s.store.nodes ==> HeardAt(s, id) < s.beat[id] + SECOND && HeardAt(s, id) <= s.clock.wall)
  }

  lemma LoadedAge(id: Id, r: Row, c: Clock)
    requires r.lastHeartbeat * SECOND <= c.wall
    ensures var heard := c.wall - (c.mono - LoadEntry(id, r, c).lastHeartbeat);
      heard == r.lastHeartbeat * SECOND + c.wall % SECOND && heard <= c.wall
  {
  }

  lemma LoadedAges(s: Sys, mono: int, down: nat)
    requires forall id :: id in s.store.db.rows ==> s.store.db.rows[id].lastHeartbeat * SECOND <= s.clock.wall
    ensures var t := Next(s, Restart(mono, down));
      && t.store.nodes.Keys == s.store.db.rows.Keys
      && forall id :: id in t.store.nodes ==>
          var h := s.store.db.rows[id].lastHeartbeat * SECOND;
          HeardAt(t, id) == h + t.clock.wall % SECOND && HeardAt(t, id) <= t.clock.wall
  {
    var t := Next(s, Restart(mono, down));
    forall id | id in t.store.nodes
      ensures var h := s.store.db.rows[id].lastHeartbeat * SECOND;
        HeardAt(t, id) == h + t.clock.wall % SECOND && HeardAt(t, id) <= t.clock.wall
    {
      LoadedAge(id, s.store.db.rows[id], t.clock);
    }
  }

  /** What an operation other than a restart does to one node's heartbeat. */
  lemma BeatStep(s: Sys, op: Op, id: Id)
    requires Linked(s.store) && !op.Restart?
    ensures var t := Next(s, op);
      && (Beats(s, op, id) ==> id in t.store.nodes && id in t.beat && HeardAt(t, id) == t.clock.wall == t.beat[id])
      && (!Beats(s, op, id) && id in t.store.nodes ==> id in s.store.nodes && HeardAt(t, id) == HeardAt(s, id))
      && (!Beats(s, op, id) ==> (id in t.beat <==> id in s.beat) && (id in t.beat ==> t.beat[id] == s.beat[id]))
      && (!Beats(s, op, id) && id in t.store.db.rows ==>
            id in s.store.db.rows && t.store.db.rows[id].lastHeartbeat == s.store.db.rows[id].lastHeartbeat)
      && (Beats(s, op, id) && id in t.store.db.rows ==>
            if Clean(op) then t.store.db.rows[id].lastHeartbeat == t.clock.wall / SECOND
            else id in s.store.db.rows
                 && t.store.db.rows[id].lastHeartbeat == s.store.db.rows[id].lastHeartbeat)
      && s.clock.wall <= t.clock.wall
  {
  }

  lemma RowsAreNotLater(s: Sys, op: Op)
    requires NeverLooksYounger(s) && !op.Restart?
    ensures var t := Next(s, op);
      forall id :: id in t.store.db.rows ==>
        id in t.beat && t.store.db.rows[id].lastHeartbeat * SECOND <= t.beat[id] <= t.clock.wall
  {
    hide Next, Beats, Linked, Clean;
    var t := Next(s, op);
    forall id | id in t.store.db.rows
      ensures id in t.beat && t.store.db.rows[id].lastHeartbeat * SECOND <= t.beat[id] <= t.clock.wall
    {
      BeatStep(s, op, id);
    }
  }

  lemma NodesAreNotAhead(s: Sys, op: Op)
    requires NeverLooksYounger(s) && !op.Restart?
    ensures var t := Next(s, op);
      forall id :: id in t.store.nodes ==>
        id in t.beat && HeardAt(t, id) < t.beat[id] + SECOND && HeardAt(t, id) <= t.clock.wall
  {
    hide Next, Beats, Linked, Clean, HeardAt;
    var t := Next(s, op);
    forall id | id in t.store.nodes
      ensures id in t.beat && HeardAt(t, id) < t.beat[id] + SECOND && HeardAt(t, id) <= t.clock.wall
    {
      BeatStep(s, op, id);
      InRows(s.store, id);
    }
  }

  lemma NeverLooksYoungerStep(s: Sys, op: Op)
    requires NeverLooksYounger(s)
    ensures NeverLooksYounger(Next(s, op))
  {
    LinkedStep(s, op);
    if op.Restart? {
      LoadedAges(s, op.mono, op.down);
    } else {
      hide Next, Linked, HeardAt;
      RowsAreNotLater(s, op);
      NodesAreNotAhead(s, op);
    }
  }

  lemma InRows(s: Store, id: Id)
    requires Linked(s)
    ensures id in s.nodes ==> id in s.db.rows
  {
  }

  /** Whichever writes fail, a node never looks more than a second younger than
      it is. */
  lemma {:induction false} AgesAreNotUnderstated(ss: seq<Sys>, ops: seq<Op>, n: nat)
    requires Run(ss, ops) && n < |ss|
    ensures NeverLooksYounger(ss[n])
    ensures forall id :: id in ss[n].store.nodes ==>
      id in ss[n].beat && TrueAge(ss[n], id) - SECOND < ApparentAge(ss[n], id)
  {
    if n > 0 {
      AgesAreNotUnderstated(ss, ops, n - 1);
      NeverLooksYoungerStep(ss[n - 1], ops[n - 1]);
    }
  }

  // ------------------------------------------------------- bounds on the error

  /** The stored epoch is the whole second of the latest beat, and of the time
      memory takes for it. */
  ghost predicate SameSecond(s: Sys) {
    && Agrees(s.store)
    && forall id :: id in s.store.nodes ==>
        id in s.beat &&
        var h := s.store.db.rows[id].lastHeartbeat * SECOND;
        h <= s.beat[id] < h + SECOND && h <= HeardAt(s, id) < h + SECOND && s.beat[id] <= s.clock.wall
  }

  lemma SameSecondStep(s: Sys, op: Op)
    requires SameSecond(s) && Clean(op)
    ensures SameSecond(Next(s, op))
  {
    var t := Next(s, op);
    AgreesStep(s, op);
    if op.Restart? {
      LoadedAges(s, op.mono, op.down);
    } else {
      hide Next, Beats, Linked, SameIdentity;
      forall id | id in t.store.nodes
        ensures id in t.beat
        ensures var h := t.store.db.rows[id].lastHeartbeat * SECOND;
          h <= t.beat[id] < h + SECOND && h <= HeardAt(t, id) < h + SECOND && t.beat[id] <= t.clock.wall
      {
        BeatStep(s, op, id);
      }
    }
  }

  /** If all writes succeed, then after any number of restarts the apparent age
      of every node is within one second of its true age. */
  lemma {:induction false} RestartsPreserveAges(ss: seq<Sys>, ops: seq<Op>, n: nat)
    requires Run(ss, ops) && n < |ss| && CleanRun(ops, n)
    ensures SameSecond(ss[n])
    ensures forall id :: id in ss[n].store.nodes ==>
      id in ss[n].beat && -SECOND < ApparentAge(ss[n], id) - TrueAge(ss[n], id) < SECOND
  {
    if n > 0 {
      RestartsPreserveAges(ss, ops, n - 1);
      SameSecondStep(ss[n - 1], ops[n - 1]);
    }
  }

  /** Within one process the apparent age is exact, whichever writes fail. */
  lemma {:induction false} AgesAreExactUntilRestart(ss: seq<Sys>, ops: seq<Op>, n: nat, id: Id)
    requires Run(ss, ops) && n < |ss| && Unrestarted(ops, n) && id in ss[n].store.nodes
    ensures id in ss[n].beat && ApparentAge(ss[n], id) == TrueAge(ss[n], id)
  {
    hide Next, Beats, Linked;
    if n > 0 {
      MemoryIsBackedByRows(ss, ops, n - 1);
      BeatStep(ss[n - 1], ops[n - 1], id);
      if id in ss[n - 1].store.nodes {
        AgesAreExactUntilRestart(ss, ops, n - 1, id);
      }
    }
  }

  predicate Accurate(s: Sys, id: Id) {
    id in s.store.nodes && id in s.beat && -SECOND < ApparentAge(s, id) - TrueAge(s, id) < SECOND
  }

  /** Under lost writes, a restart reads a node's age right at whatever moment it
      comes if and only if the row holds the second of the node's latest beat. */
  lemma ReloadsAreAccurateIff(ss: seq<Sys>, ops: seq<Op>, n: nat, id: Id)
    requires Run(ss, ops) && n < |ss| && id in ss[n].store.db.rows
    ensures id in ss[n].beat
    ensures (forall mono, down :: Accurate(Next(ss[n], Restart(mono, down)), id)) <==>
            ss[n].store.db.rows[id].lastHeartbeat == ss[n].beat[id] / SECOND
  {
    var s := ss[n];
    AgesAreNotUnderstated(ss, ops, n);
    var h := s.store.db.rows[id].lastHeartbeat;
    forall mono, down: nat
      ensures Accurate(Next(s, Restart(mono, down)), id) <==>
        s.beat[id] - h * SECOND < SECOND + (s.clock.wall + down) % SECOND
    {
      ReloadError(s, id, mono, down);
    }
    var toFullSecond := (SECOND - s.clock.wall % SECOND) % SECOND;
    assert (s.clock.wall + toFullSecond) % SECOND == 0;
    assert Accurate(Next(s, Restart(0, toFullSecond)), id) <==> s.beat[id] - h * SECOND < SECOND;
  }

  lemma ReloadError(s: Sys, id: Id, mono: int, down: nat)
    requires id in s.store.db.rows && id in s.beat
    requires s.store.db.rows[id].lastHeartbeat * SECOND <= s.beat[id] <= s.clock.wall
    ensures var h, wall := s.store.db.rows[id].lastHeartbeat, s.clock.wall + down;
      Accurate(Next(s, Restart(mono, down)), id) <==> s.beat[id] - h * SECOND < SECOND + wall % SECOND
  {
    var t := Next(s, Restart(mono, down));
    assert ApparentAge(t, id) == (t.clock.Secs() - s.store.db.rows[id].lastHeartbeat) * SECOND;
  }

  /** How much older than it is a node can look. */
  lemma AgesAreNotOverstated(ss: seq<Sys>, ops: seq<Op>, n: nat, id: Id)
    requires Run(ss, ops) && n < |ss| && (CleanRun(ops, n) || Unrestarted(ops, n)) && id in ss[n].store.nodes
    ensures id in ss[n].beat && ApparentAge(ss[n], id) < TrueAge(ss[n], id) + SECOND
  {
    hide Next, SameSecond;
    if Unrestarted(ops, n) {
      AgesAreExactUntilRestart(ss, ops, n, id);
    } else {
      RestartsPreserveAges(ss, ops, n);
    }
  }

  // ---------------------------------------------------------- exact readings

  /** The operation sets the time at which memory takes `id` to have been heard:
      a beat, or a restart, which reads it back from the row. */
  predicate Sets(s: Sys, op: Op, id: Id) {
    Beats(s, op, id) || op.Restart?
  }

  /** The operation is a beat of `id` whose write succeeds. */
  predicate Stores(s: Sys, op: Op, id: Id) {
    Beats(s, op, id) && Clean(op)
  }

  /** Step `j` is the latest before state `n` that satisfies `p`. */
  ghost predicate Latest(ss: seq<Sys>, ops: seq<Op>, p: (Sys, Op) -> bool, j: nat, n: nat)
    requires |ss| == |ops| + 1 && n < |ss|
  {
    j < n && p(ss[j], ops[j]) && forall i :: j < i < n ==> !p(ss[i], ops[i])
  }

  ghost predicate LastSet(ss: seq<Sys>, ops: seq<Op>, id: Id, j: nat, n: nat)
    requires |ss| == |ops| + 1 && n < |ss|
  {
    Latest(ss, ops, (s, op) => Sets(s, op, id), j, n)
  }

  ghost predicate LastBeat(ss: seq<Sys>, ops: seq<Op>, id: Id, j: nat, n: nat)
    requires |ss| == |ops| + 1 && n < |ss|
  {
    Latest(ss, ops, (s, op) => Beats(s, op, id), j, n)
  }

  ghost predicate LastStored(ss: seq<Sys>, ops: seq<Op>, id: Id, j: nat, n: nat)
    requires |ss| == |ops| + 1 && n < |ss|
  {
    Latest(ss, ops, (s, op) => Stores(s, op, id), j, n)
  }

  /** The time that step `j` sets: its own for a beat; for a restart the second
      in the row, and as far into that second as the reload came into its own. */
  function TimeSet(ss: seq<Sys>, ops: seq<Op>, id: Id, j: nat): int
    requires |ss| == |ops| + 1 && j < |ops| && (ops[j].Restart? ==> id in ss[j].store.db.rows)
  {
    if ops[j].Restart? then ss[j].store.db.rows[id].lastHeartbeat * SECOND + ss[j + 1].clock.wall % SECOND
    else ss[j].clock.wall
  }

  /** Whichever writes fail and however often the server restarts, memory takes a
      node to have been heard exactly when the latest beat or restart says. */
  lemma {:induction false} HeardAtIsTimeSet(ss: seq<Sys>, ops: seq<Op>, id: Id, j: nat, n: nat)
    requires Run(ss, ops) && n < |ss| && LastSet(ss, ops, id, j, n) && id in ss[n].store.nodes
    ensures ops[j].Restart? ==> id in ss[j].store.db.rows
    ensures HeardAt(ss[n], id) == TimeSet(ss, ops, id, j)
  {
    hide Next, Beats, Linked, Clean, HeardAt;
    var k := n - 1;
    AgesAreNotUnderstated(ss, ops, k);
    if ops[k].Restart? {
      RowsArePast(ss[k]);
      LoadedAges(ss[k], ops[k].mono, ops[k].down);
    } else {
      MemoryIsBackedByRows(ss, ops, k);
      BeatStep(ss[k], ops[k], id);
      if j < k {
        HeardAtIsTimeSet(ss, ops, id, j, k);
      } else {
        ClockOfBeat(ss[k], ops[k], id);
      }
    }
  }

  lemma RowsArePast(s: Sys)
    requires NeverLooksYounger(s)
    ensures forall id :: id in s.store.db.rows ==> s.store.db.rows[id].lastHeartbeat * SECOND <= s.clock.wall
  {
  }

  lemma ClockOfBeat(s: Sys, op: Op, id: Id)
    requires Beats(s, op, id)
    ensures Next(s, op).clock == s.clock
  {
  }

  /** Every node in memory has a step that set it. */
  lemma {:induction false} NodesWereSet(ss: seq<Sys>, ops: seq<Op>, id: Id, n: nat)
    requires Run(ss, ops) && n < |ss| && id in ss[n].store.nodes
    ensures exists j: nat :: LastSet(ss, ops, id, j, n)
  {
    hide Next, Beats, Linked, Clean, HeardAt;
    var k := n - 1;
    MemoryIsBackedByRows(ss, ops, k);
    if Sets(ss[k], ops[k], id) {
      assert LastSet(ss, ops, id, k, n);
    } else {
      BeatStep(ss[k], ops[k], id);
      NodesWereSet(ss, ops, id, k);
      var j: nat :| LastSet(ss, ops, id, j, k);
      assert LastSet(ss, ops, id, j, n);
    }
  }

  /** The history variable is the time of the latest beat. */
  lemma {:induction false} BeatIsLastBeat(ss: seq<Sys>, ops: seq<Op>, id: Id, j: nat, n: nat)
    requires Run(ss, ops) && n < |ss| && LastBeat(ss, ops, id, j, n)
    ensures id in ss[n].beat && ss[n].beat[id] == ss[j].clock.wall
  {
    hide Grant, AfterRegister, AfterReap, AfterEndpoint, AfterHeartbeat, Load, AfterChange;
    if j < n - 1 {
      BeatIsLastBeat(ss, ops, id, j, n - 1);
    }
  }

  /** A row holds the second of the latest beat whose write succeeded. */
  lemma {:induction false} RowHoldsLastStored(ss: seq<Sys>, ops: seq<Op>, id: Id, i: nat, n: nat)
    requires Run(ss, ops) && n < |ss| && LastStored(ss, ops, id, i, n) && id in ss[n].store.db.rows
    ensures ss[n].store.db.rows[id].lastHeartbeat == ss[i].clock.wall / SECOND
  {
    hide Next, Beats, Linked, Clean, HeardAt;
    var k := n - 1;
    MemoryIsBackedByRows(ss, ops, k);
    if ops[k].Restart? {
      RestartKeepsRows(ss[k], ops[k]);
      StoringIsNoRestart(ss[k], ops[k], id);
    } else {
      BeatStep(ss[k], ops[k], id);
      if i == k {
        ClockOfBeat(ss[k], ops[k], id);
      }
    }
    if i < k {
      RowHoldsLastStored(ss, ops, id, i, k);
    }
  }

  lemma RestartKeepsRows(s: Sys, op: Op)
    requires op.Restart?
    ensures Next(s, op).store.db == s.store.db && Next(s, op).beat == s.beat
  {
  }

  lemma StoringIsNoRestart(s: Sys, op: Op, id: Id)
    requires op.Restart?
    ensures !Stores(s, op, id)
  {
  }

  /** Every row has a beat that was stored, and a latest beat. */
  lemma {:induction false} RowsWereStored(ss: seq<Sys>, ops: seq<Op>, id: Id, n: nat)
    requires Run(ss, ops) && n < |ss| && id in ss[n].store.db.rows
    ensures exists i: nat :: LastStored(ss, ops, id, i, n)
    ensures exists j: nat :: LastBeat(ss, ops, id, j, n)
  {
    hide Next, Beats, Linked, Clean, HeardAt;
    var k := n - 1;
    RowStep(ss, ops, id, k);
    if id in ss[k].store.db.rows {
      RowsWereStored(ss, ops, id, k);
      var i: nat :| LastStored(ss, ops, id, i, k);
      assert LastStored(ss, ops, id, if Stores(ss[k], ops[k], id) then k else i, n);
      var j: nat :| LastBeat(ss, ops, id, j, k);
      assert LastBeat(ss, ops, id, if Beats(ss[k], ops[k], id) then k else j, n);
    } else {
      assert LastStored(ss, ops, id, k, n) && LastBeat(ss, ops, id, k, n);
    }
  }

  lemma RowStep(ss: seq<Sys>, ops: seq<Op>, id: Id, k: nat)
    requires Run(ss, ops) && k < |ops| && id in ss[k + 1].store.db.rows
    ensures id in ss[k].store.db.rows || Stores(ss[k], ops[k], id)
  {
    MemoryIsBackedByRows(ss, ops, k);
  }

  /** Among the beats of `id` before state `n`, the latest, and the latest whose
      write succeeded, are of the same second. */
  ghost predicate LatestWasStored(ss: seq<Sys>, ops: seq<Op>, id: Id, n: nat)
    requires |ss| == |ops| + 1 && n < |ss|
  {
    exists i: nat, j: nat :: LastStored(ss, ops, id, i, n) && LastBeat(ss, ops, id, j, n) &&
      ss[i].clock.wall / SECOND == ss[j].clock.wall / SECOND
  }

  /** In terms of writes: a restart would read a node's age right at every moment
      if and only if its latest beat was stored, or one of the same second was. */
  lemma ReloadsAreAccurateIffStored(ss: seq<Sys>, ops: seq<Op>, n: nat, id: Id)
    requires Run(ss, ops) && n < |ss| && id in ss[n].store.db.rows
    ensures (forall mono, down :: Accurate(Next(ss[n], Restart(mono, down)), id)) <==> LatestWasStored(ss, ops, id, n)
  {
    hide Accurate, Next, LastStored, LastBeat;
    ReloadsAreAccurateIff(ss, ops, n, id);
    RowsWereStored(ss, ops, id, n);
    forall i: nat, j: nat | LastStored(ss, ops, id, i, n) && LastBeat(ss, ops, id, j, n)
      ensures i < n && ss[i].clock.wall / SECOND == ss[n].store.db.rows[id].lastHeartbeat
      ensures j < n && id in ss[n].beat && ss[j].clock.wall == ss[n].beat[id]
    {
      IsBefore(ss, ops, id, i, j, n);
      RowHoldsLastStored(ss, ops, id, i, n);
      BeatIsLastBeat(ss, ops, id, j, n);
    }
  }

  lemma IsBefore(ss: seq<Sys>, ops: seq<Op>, id: Id, i: nat, j: nat, n: nat)
    requires |ss| == |ops| + 1 && n < |ss| && LastStored(ss, ops, id, i, n) && LastBeat(ss, ops, id, j, n)
    ensures i < n && j < n
  {
  }
}
