/** Peer lists read piecemeal. A listing reads the ACL tables several times, and
    the tables may change between its reads. */
module PeerLists {
  import opened Wrappers
  import opened Acl

  /** `node_groups` */
  function GroupsOf(t: Tables, id: Id): set<string> {
    set row | row in t.groups && row.0 == id :: row.1
  }

  /** `visible_groups` */
  function VisibleFrom(t: Tables, mine: set<string>): set<string> {
    set rule | rule in t.rules && rule.0 in mine :: rule.1
  }

  /** The tables that each read of one listing finds: whether there are rules, the
      caller's groups, the groups they may see, and each peer's groups. */
  datatype Reads = Reads(rules: Tables, mine: Tables, visible: Tables, peers: Id -> Tables)

  /** The peers that a listing with these reads returns. */
  ghost function Seen(r: Reads, ids: set<Id>, caller: Id): set<Id> {
    set p | p in ids && p != caller && (r.rules.rules == {} || PermitsAcross(r, caller, p))
  }

  ghost predicate PermitsAcross(r: Reads, caller: Id, peer: Id) {
    exists g, h :: (caller, g) in r.mine.groups && (g, h) in r.visible.rules && (peer, h) in r.peers(peer).groups
  }

  /** What the listing computes from its reads is that relation. */
  lemma PermitsAcrossIff(r: Reads, caller: Id, peer: Id)
    ensures PermitsAcross(r, caller, peer) <==>
            GroupsOf(r.peers(peer), peer) * VisibleFrom(r.visible, GroupsOf(r.mine, caller)) != {}
  {
    var theirs, visible := GroupsOf(r.peers(peer), peer), VisibleFrom(r.visible, GroupsOf(r.mine, caller));
    if g, h :| (caller, g) in r.mine.groups && (g, h) in r.visible.rules && (peer, h) in r.peers(peer).groups {
      assert (peer, h).1 in theirs && (caller, g).1 in GroupsOf(r.mine, caller) && (g, h).1 in visible;
      assert h in theirs * visible;
    }
    if h :| h in theirs * visible {
      var rule :| rule in r.visible.rules && rule.0 in GroupsOf(r.mine, caller) && rule.1 == h;
      assert (caller, rule.0) in r.mine.groups && (rule.0, h) in r.visible.rules && (peer, h) in r.peers(peer).groups;
    }
  }

  /** Every read of a peer other than the caller satisfies `p`. */
  ghost predicate PeerReads(r: Reads, ids: set<Id>, caller: Id, p: Tables -> bool) {
    forall x :: x in ids && x != caller ==> p(r.peers(x))
  }

  /** If nothing changes, the listing is exactly what the tables permit. */
  lemma UndisturbedListing(r: Reads, t: Tables, ids: set<Id>, caller: Id)
    requires r.rules == t && r.mine == t && r.visible == t && PeerReads(r, ids, caller, u => u == t)
    ensures Seen(r, ids, caller) == Visible(t, ids, caller)
  {
    forall p | p in ids && p != caller ensures PermitsAcross(r, caller, p) <==> Permits(t, caller, p) {
      assert r.peers(p) == t;
    }
  }

  /** The early returns of `get_peers` are right: a caller whose groups, as read,
      head none of the rules read after them sees nobody. */
  lemma NobodySeen(r: Reads, ids: set<Id>, caller: Id)
    requires r.rules.rules != {}
    requires forall g, h :: (caller, g) in r.mine.groups ==> (g, h) !in r.visible.rules
    ensures Seen(r, ids, caller) == {}
  {
  }

  /** The members of `ids` other than the caller that one of the visible groups
      has, each by its own read. */
  ghost function Kept(r: Reads, visible: seq<string>, ids: seq<Id>, caller: Id): set<Id> {
    set p | p in ids && p != caller && exists h :: h in visible && (p, h) in r.peers(p).groups
  }

  lemma NoneKept(r: Reads, visible: seq<string>, caller: Id)
    ensures Kept(r, visible, [], caller) == {}
  {
  }

  lemma KeptStep(r: Reads, visible: seq<string>, ids: seq<Id>, id: Id, caller: Id)
    ensures Kept(r, visible, ids + [id], caller) ==
            Kept(r, visible, ids, caller) +
              if id != caller && exists h :: h in visible && (id, h) in r.peers(id).groups then {id} else {}
  {
  }

  lemma KeptIsSeen(r: Reads, visible: seq<string>, order: seq<Id>, ids: set<Id>, caller: Id)
    requires r.rules.rules != {} && Lists(order, ids)
    requires forall h :: h in visible <==> exists g :: (caller, g) in r.mine.groups && (g, h) in r.visible.rules
    ensures Kept(r, visible, order, caller) == Seen(r, ids, caller)
  {
  }

  // ------------------------------------------------------ reads of one listing

  /** The tables after `changes(0)`, .. `changes(k)`: what the listing finds when it
      locks the database for the time numbered `k`. */
  function TablesAt(t: Tables, changes: nat -> seq<Change>, k: nat): Tables {
    ApplyAll(if k == 0 then t else TablesAt(t, changes, k - 1), changes(k))
  }

  /** The reads of a listing that goes through the nodes in the given order. */
  function ReadsOf(t: Tables, changes: nat -> seq<Change>, order: seq<Id>): Reads {
    Reads(TablesAt(t, changes, 0), TablesAt(t, changes, 1), TablesAt(t, changes, 2),
          p => TablesAt(t, changes, 3 + Position(order, p)))
  }

  function Position(order: seq<Id>, id: Id): nat {
    if order == [] || order[0] == id then 0 else 1 + Position(order[1..], id)
  }

  lemma {:induction false} PositionOfMember(order: seq<Id>, i: nat)
    requires i < |order| && NoRepeats(order)
    ensures Position(order, order[i]) == i
  {
    if i > 0 {
      PositionOfMember(order[1..], i - 1);
    }
  }

  /** If what is written between the reads has no effect, the listing is exactly what
      the tables permit. */
  lemma UndisturbedReads(t: Tables, changes: nat -> seq<Change>, order: seq<Id>, ids: set<Id>, caller: Id)
    requires forall k :: ApplyAll(t, changes(k)) == t
    ensures Seen(ReadsOf(t, changes, order), ids, caller) == Visible(t, ids, caller)
  {
    forall k: nat ensures TablesAt(t, changes, k) == t {
      NothingChanges(t, changes, k);
    }
    UndisturbedListing(ReadsOf(t, changes, order), t, ids, caller);
  }

  lemma {:induction false} NothingChanges(t: Tables, changes: nat -> seq<Change>, k: nat)
    requires forall j :: ApplyAll(t, changes(j)) == t
    ensures TablesAt(t, changes, k) == t
  {
    if k > 0 {
      NothingChanges(t, changes, k - 1);
    }
  }

  lemma ReadOfPeer(t: Tables, changes: nat -> seq<Change>, order: seq<Id>, i: nat)
    requires i < |order| && NoRepeats(order)
    ensures ReadsOf(t, changes, order).peers(order[i]) == TablesAt(t, changes, 3 + i)
  {
    PositionOfMember(order, i);
  }

  // -------------------------------------------------------------- one change

  /** Each read finds the tables before the change or, from some point on, those
      after it. */
  ghost predicate ReadsAcross(r: Reads, t: Tables, u: Tables, ids: set<Id>, caller: Id) {
    && (r.rules == t || (r.rules == u && r.mine == u))
    && (r.mine == t || (r.mine == u && r.visible == u))
    && (r.visible == t || (r.visible == u && PeerReads(r, ids, caller, x => x == u)))
    && PeerReads(r, ids, caller, x => x == t || x == u)
  }

  /** The change removes the last rule, after the listing found that there are
      rules and before it looked for those of the caller, who saw somebody. */
  ghost predicate LosesLastRule(r: Reads, t: Tables, u: Tables, ids: set<Id>, caller: Id) {
    && t.rules != {} && u.rules == {}
    && r.rules == t && r.visible == u
    && Visible(t, ids, caller) != {}
  }

  /** A listing disturbed by one change is what the tables permit before it or
      after it, except in that one case. */
  lemma OneChangeIff(r: Reads, t: Tables, c: Change, ids: set<Id>, caller: Id)
    requires ReadsAcross(r, t, Apply(t, c), ids, caller)
    ensures var u, seen := Apply(t, c), Seen(r, ids, caller);
      seen == Visible(t, ids, caller) || seen == Visible(u, ids, caller) <==> !LosesLastRule(r, t, u, ids, caller)
  {
    var u, seen := Apply(t, c), Seen(r, ids, caller);
    if LosesLastRule(r, t, u, ids, caller) {
      NobodySeen(r, ids, caller);
      assert Visible(t, ids, caller) <= Visible(u, ids, caller);
    } else if c.AddRule? || c.RemoveRule? {
      OneRuleChange(r, t, c, ids, caller);
    } else {
      OneGroupChange(r, t, c, ids, caller);
    }
  }

  lemma OneRuleChange(r: Reads, t: Tables, c: Change, ids: set<Id>, caller: Id)
    requires (c.AddRule? || c.RemoveRule?) && ReadsAcross(r, t, Apply(t, c), ids, caller)
    requires !LosesLastRule(r, t, Apply(t, c), ids, caller)
    ensures Seen(r, ids, caller) == Visible(t, ids, caller) || Seen(r, ids, caller) == Visible(Apply(t, c), ids, caller)
  {
    var u := Apply(t, c);
    forall p | p in ids && p != caller ensures PermitsAcross(r, caller, p) <==> Permits(r.visible, caller, p) {
      assert r.peers(p) == t || r.peers(p) == u;
    }
    if r.rules.rules != {} && r.visible.rules == {} {
      NobodySeen(r, ids, caller);
    }
  }

  /** A change of one node's groups matters to one read only. */
  lemma OneGroupChange(r: Reads, t: Tables, c: Change, ids: set<Id>, caller: Id)
    requires (c.AddGroup? || c.RemoveGroup?) && ReadsAcross(r, t, Apply(t, c), ids, caller)
    ensures Seen(r, ids, caller) == Visible(t, ids, caller) || Seen(r, ids, caller) == Visible(Apply(t, c), ids, caller)
  {
    var u := Apply(t, c);
    var found := if c.node == caller then r.mine else if c.node in ids then r.peers(c.node) else t;
    forall p | p in ids && p != caller ensures PermitsAcross(r, caller, p) <==> Permits(found, caller, p) {
      assert r.peers(p) == t || r.peers(p) == u;
      forall h ensures (p, h) in r.peers(p).groups <==> (p, h) in found.groups {
      }
      forall g ensures (caller, g) in r.mine.groups <==> (caller, g) in found.groups {
      }
    }
  }

  // ------------------------------------------------------------ many changes

  /** While the tables only grow, a listing lies between what they permit at its
      first read and what they permit at its end; while they only shrink, the
      other way round, as long as there are rules. */
  lemma GrowingListing(r: Reads, last: Tables, ids: set<Id>, caller: Id)
    requires Within(r.rules, r.mine) && Within(r.mine, r.visible) && Within(r.visible, last)
    requires PeerReads(r, ids, caller, t => Within(r.visible, t) && Within(t, last))
    ensures Visible(r.rules, ids, caller) <= Seen(r, ids, caller)
    ensures r.rules.rules != {} ==> Seen(r, ids, caller) <= Visible(last, ids, caller)
  {
    forall p | p in ids && p != caller
      ensures (Permits(r.rules, caller, p) ==> PermitsAcross(r, caller, p))
        && (PermitsAcross(r, caller, p) ==> Permits(last, caller, p))
    {
      assert Within(r.visible, r.peers(p)) && Within(r.peers(p), last);
    }
  }

  lemma ShrinkingListing(r: Reads, last: Tables, ids: set<Id>, caller: Id)
    requires Within(r.mine, r.rules) && Within(r.visible, r.mine) && Within(last, r.visible) && last.rules != {}
    requires PeerReads(r, ids, caller, t => Within(t, r.visible) && Within(last, t))
    ensures Visible(last, ids, caller) <= Seen(r, ids, caller) <= Visible(r.rules, ids, caller)
  {
    forall p | p in ids && p != caller
      ensures (Permits(last, caller, p) ==> PermitsAcross(r, caller, p))
        && (PermitsAcross(r, caller, p) ==> Permits(r.rules, caller, p))
    {
      assert Within(last, r.peers(p)) && Within(r.peers(p), r.visible);
    }
  }
}
