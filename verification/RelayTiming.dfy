/** How long the relay remembers a node that has gone silent, and that it never
    forgets one that has not. */
module RelayTiming {
  import opened Wrappers
  import opened RelayState
  import opened RelayProtocol

  const TIMEOUT := 120 * SECOND

  ghost predicate NoTickSince(acts: seq<Action>, j: nat, n: nat)
    requires n <= |acts|
  {
    forall k :: j < k < n ==> !acts[k].Tick? && !acts[k].Sweep?
  }

  /** The clock reading by which a sweep goes is that of the latest tick. */
  lemma {:induction false} TickWasRead(ss: seq<State>, acts: seq<Action>, n: nat)
    requires Run(ss, acts) && n < |ss| && ss[n].reaper.Ticked?
    ensures exists j :: 0 <= j < n && acts[j].Tick? && ss[j].now == ss[n].reaper.at && NoTickSince(acts, j, n)
  {
    var m := n - 1;
    assert Enabled(ss[m], acts[m]) && ss[n] == Next(ss[m], acts[m]);
    if !acts[m].Tick? {
      TickWasRead(ss, acts, m);
    }
  }

  /** No entry was already silent for the timeout at the latest sweep. */
  ghost predicate Swept(s: State) {
    forall id :: id in s.nodes ==> s.swept < s.nodes[id].lastActivity + TIMEOUT
  }

  lemma KeepsIff(e: NodeEntry, tick: nat)
    ensures Keeps(e, tick) <==> tick < e.lastActivity + TIMEOUT
  {
  }

  lemma SweptStep(s: State, a: Action)
    requires Inv(s) && Swept(s) && Enabled(s, a)
    ensures Swept(Next(s, a))
  {
  }

  /** If the latest sweep read its clock at most `gap` ago, every entry has been
      silent for less than the timeout plus `gap`. */
  lemma {:induction false} SilenceIsBounded(ss: seq<State>, acts: seq<Action>, n: nat, gap: nat)
    requires Run(ss, acts) && n < |ss|
    ensures Swept(ss[n])
    ensures ss[n].now - ss[n].swept <= gap ==>
      forall id :: id in ss[n].nodes ==> ss[n].now - ss[n].nodes[id].lastActivity < TIMEOUT + gap
  {
    if n > 0 {
      SilenceIsBounded(ss, acts, n - 1, gap);
      InvRun(ss, acts, n - 1);
      SweptStep(ss[n - 1], acts[n - 1]);
    }
  }

  /** A live entry was touched no earlier than any time its node spoke, even in
      a former life. */
  lemma {:induction false} ActivityFollowsSpeech(ss: seq<State>, acts: seq<Action>, id: Id, i: nat, n: nat)
    requires Run(ss, acts) && i < n < |ss| && id in ss[n].nodes && Speaks(ss[i], acts[i], id)
    ensures ss[i].now <= ss[n].nodes[id].lastActivity
  {
    hide Next, Enabled, Inv, Speaks, Registers;
    var m := n - 1;
    InvRun(ss, acts, m);
    TimeIsMonotone(ss, acts, i, m);
    if id !in ss[m].nodes {
      BirthStep(ss[m], acts[m], id);
    } else {
      EntryStep(ss[m], acts[m], id);
      if i < m {
        ActivityFollowsSpeech(ss, acts, id, i, m);
      }
    }
  }

  /** Less than the timeout before state `k`, `id` spoke. */
  ghost predicate HeardRecently(ss: seq<State>, acts: seq<Action>, id: Id, k: nat)
    requires |ss| == |acts| + 1 && k < |ss|
  {
    exists i :: 0 <= i < k && Speaks(ss[i], acts[i], id) && ss[k].now - ss[i].now < TIMEOUT
  }

  /** A node that every sweep finds recently heard is never reaped, and its peer
      set only grows. */
  lemma {:induction false} HeardNodesAreKept(ss: seq<State>, acts: seq<Action>, id: Id, m: nat, n: nat)
    requires Run(ss, acts) && m <= n < |ss| && id in ss[m].nodes
    requires forall k :: m <= k < n && acts[k].Sweep? ==> HeardRecently(ss, acts, id, k)
    ensures Live(ss, id, m, n)
    ensures ss[m].nodes[id].peerIds <= ss[n].nodes[id].peerIds
  {
    hide Speaks, Keeps, Registers;
    if m < n {
      var k := n - 1;
      HeardNodesAreKept(ss, acts, id, m, k);
      var s, a := ss[k], acts[k];
      InvRun(ss, acts, k);
      EntryStep(s, a, id);
      if a.Sweep? {
        var i :| 0 <= i < k && Speaks(ss[i], acts[i], id) && s.now - ss[i].now < TIMEOUT;
        ActivityFollowsSpeech(ss, acts, id, i, k);
        KeepsIff(s.nodes[id], s.reaper.at);
      }
      assert ss[n] == Next(s, a);
    }
  }

  /** A live entry was last touched at a time when its node spoke. */
  lemma {:induction false} ActivityIsSpeech(ss: seq<State>, acts: seq<Action>, id: Id, n: nat)
    requires Run(ss, acts) && n < |ss| && id in ss[n].nodes
    ensures exists i :: 0 <= i < n && Speaks(ss[i], acts[i], id) && ss[i].now == ss[n].nodes[id].lastActivity
  {
    hide Next, Enabled, Inv, Registers;
    var m := n - 1;
    InvRun(ss, acts, m);
    if id !in ss[m].nodes {
      BirthStep(ss[m], acts[m], id);
    } else {
      EntryStep(ss[m], acts[m], id);
      if !Speaks(ss[m], acts[m], id) {
        ActivityIsSpeech(ss, acts, id, m);
      }
    }
  }

  /** A sweep keeps a live node exactly when the node spoke less than the
      timeout before the sweep read its clock. */
  lemma SweepKeepsIff(ss: seq<State>, acts: seq<Action>, id: Id, k: nat, tick: nat)
    requires Run(ss, acts) && k < |acts| && acts[k].Sweep? && ss[k].reaper == Ticked(tick) && id in ss[k].nodes
    ensures id in ss[k + 1].nodes <==>
            exists i :: 0 <= i < k && Speaks(ss[i], acts[i], id) && tick < ss[i].now + TIMEOUT
  {
    hide Speaks, Keeps, Registers;
    assert Enabled(ss[k], acts[k]) && ss[k + 1] == Next(ss[k], acts[k]);
    KeepsIff(ss[k].nodes[id], tick);
    ActivityIsSpeech(ss, acts, id, k);
    if i :| 0 <= i < k && Speaks(ss[i], acts[i], id) && tick < ss[i].now + TIMEOUT {
      ActivityFollowsSpeech(ss, acts, id, i, k);
    }
  }
}
