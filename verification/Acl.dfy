/** The group ACL: which nodes a caller sees, and how that depends on the
    changes made to groups and rules. */
module Acl {
  import opened Wrappers

  type Id = string

  /** The two ACL tables. Both primary keys cover the whole row, so each table
      is a set. */
  datatype Tables = Tables(groups: set<(Id, string)>, rules: set<(string, string)>)

  datatype Change =
    | AddGroup(node: Id, group: string)
    | RemoveGroup(node: Id, group: string)
    | AddRule(from: string, to: string)
    | RemoveRule(from: string, to: string)

  function Apply(t: Tables, c: Change): Tables {
    match c
    case AddGroup(n, g) => t.(groups := t.groups + {(n, g)})
    case RemoveGroup(n, g) => t.(groups := t.groups - {(n, g)})
    case AddRule(f, g) => t.(rules := t.rules + {(f, g)})
    case RemoveRule(f, g) => t.(rules := t.rules - {(f, g)})
  }

  /** Some group of `caller` and some group of `peer` form a rule. */
  ghost predicate Permits(t: Tables, caller: Id, peer: Id) {
    exists g, h :: (caller, g) in t.groups && (peer, h) in t.groups && (g, h) in t.rules
  }

  /** The nodes among `ids` that `caller` sees: with no rules, all others; with
      rules, the others that some rule permits. */
  ghost function Visible(t: Tables, ids: set<Id>, caller: Id): set<Id> {
    set p | p in ids && p != caller && (t.rules == {} || Permits(t, caller, p))
  }

  function ApplyAll(t: Tables, cs: seq<Change>): Tables {
    if cs == [] then t else Apply(ApplyAll(t, cs[..|cs| - 1]), cs[|cs| - 1])
  }

  // ------------------------------------------------------------ monotonicity

  predicate Within(t: Tables, u: Tables) {
    t.groups <= u.groups && t.rules <= u.rules
  }

  lemma {:induction false} HistoriesKeepOrder(t: Tables, u: Tables, cs: seq<Change>)
    requires Within(t, u)
    ensures Within(ApplyAll(t, cs), ApplyAll(u, cs))
    ensures t.rules == u.rules ==> ApplyAll(t, cs).rules == ApplyAll(u, cs).rules
  {
    if cs != [] {
      HistoriesKeepOrder(t, u, cs[..|cs| - 1]);
    }
  }

  lemma MoreIsSeen(t: Tables, u: Tables, ids: set<Id>, caller: Id)
    requires Within(t, u) && (t.rules == {} ==> u.rules == {})
    ensures Visible(t, ids, caller) <= Visible(u, ids, caller)
  {
  }

  /** Whatever happens later, an addition made now never hides a peer, unless it is
      of a rule and there would be no rules in the end without it; and a removal
      never reveals one, unless it is of a rule and there are none in the end. */
  lemma ChangesAreMonotone(t: Tables, c: Change, later: seq<Change>, ids: set<Id>, caller: Id)
    ensures var without, with := ApplyAll(t, later), ApplyAll(Apply(t, c), later);
      && (c.AddGroup? || (c.AddRule? && without.rules != {}) ==>
            Visible(without, ids, caller) <= Visible(with, ids, caller))
      && (c.RemoveGroup? || (c.RemoveRule? && with.rules != {}) ==>
            Visible(with, ids, caller) <= Visible(without, ids, caller))
  {
    var u := Apply(t, c);
    if c.AddGroup? || c.AddRule? {
      HistoriesKeepOrder(t, u, later);
      if c.AddGroup? || ApplyAll(t, later).rules != {} {
        MoreIsSeen(ApplyAll(t, later), ApplyAll(u, later), ids, caller);
      }
    } else {
      HistoriesKeepOrder(u, t, later);
      if c.RemoveGroup? || ApplyAll(u, later).rules != {} {
        MoreIsSeen(ApplyAll(u, later), ApplyAll(t, later), ids, caller);
      }
    }
  }

  /** The boundary: adding the first rule never reveals a peer, and hides `p`
      from `caller` exactly when the rule's ends are not groups of theirs.
      Removing the last rule undoes that. */
  lemma FirstRuleHides(t: Tables, from: string, to: string, ids: set<Id>, caller: Id, p: Id)
    requires t.rules == {} && p in ids && p != caller
    ensures var u := Apply(t, AddRule(from, to));
      && p in Visible(t, ids, caller)
      && (p in Visible(u, ids, caller) <==> (caller, from) in t.groups && (p, to) in t.groups)
      && Apply(u, RemoveRule(from, to)) == t
  {
  }

  // --------------------------------------------------------------- histories

  /** What the change says of a pair of groups table, if it speaks of it. */
  function SaysOfGroup(c: Change, pair: (Id, string)): Option<bool> {
    match c
    case AddGroup(n, g) => if (n, g) == pair then Some(true) else None
    case RemoveGroup(n, g) => if (n, g) == pair then Some(false) else None
    case _ => None
  }

  function SaysOfRule(c: Change, pair: (string, string)): Option<bool> {
    match c
    case AddRule(f, g) => if (f, g) == pair then Some(true) else None
    case RemoveRule(f, g) => if (f, g) == pair then Some(false) else None
    case _ => None
  }

  /** The last word on a pair: that of the latest change speaking of it, or the
      given one when none does. */
  ghost predicate LastWord(cs: seq<Change>, says: Change -> Option<bool>, initially: bool, now: bool) {
    || (now == initially && forall i :: 0 <= i < |cs| ==> says(cs[i]).None?)
    || (exists i :: 0 <= i < |cs| && says(cs[i]) == Some(now) && forall j :: i < j < |cs| ==> says(cs[j]).None?)
  }

  lemma LastWordOfAppend(cs: seq<Change>, c: Change, says: Change -> Option<bool>, initially: bool, now: bool)
    ensures LastWord(cs + [c], says, initially, now) <==>
            match says(c) { case Some(b) => now == b case None => LastWord(cs, says, initially, now) }
  {
    var all := cs + [c];
    assert all[|cs|] == c && forall i :: 0 <= i < |cs| ==> all[i] == cs[i];
    if says(c).Some? {
      assert now == says(c).value ==> says(all[|cs|]) == Some(now);
    } else {
      if i :| 0 <= i < |cs| && says(cs[i]) == Some(now) && forall j :: i < j < |cs| ==> says(cs[j]).None? {
        assert says(all[i]) == Some(now);
      }
      if i :| 0 <= i < |all| && says(all[i]) == Some(now) && forall j :: i < j < |all| ==> says(all[j]).None? {
        assert says(cs[i]) == Some(now);
        assert forall j :: i < j < |cs| ==> says(cs[j]) == says(all[j]);
      }
      if forall i :: 0 <= i < |all| ==> says(all[i]).None? {
        assert forall i :: 0 <= i < |cs| ==> says(cs[i]) == says(all[i]);
      }
    }
  }

  /** The last word of a history that starts from `t` on a pair of groups, and
      on a pair of rules. */
  ghost predicate GroupWord(t: Tables, cs: seq<Change>, pair: (Id, string), now: bool) {
    LastWord(cs, c => SaysOfGroup(c, pair), pair in t.groups, now)
  }

  ghost predicate RuleWord(t: Tables, cs: seq<Change>, pair: (string, string), now: bool) {
    LastWord(cs, c => SaysOfRule(c, pair), pair in t.rules, now)
  }

  /** After any history a pair is in its table exactly when the last change that
      speaks of it added it, or none does and it was there at first. */
  lemma {:induction false} TablesFollowLastWord(t: Tables, cs: seq<Change>, pair: (string, string), now: bool)
    ensures GroupWord(t, cs, pair, now) <==> now == (pair in ApplyAll(t, cs).groups)
    ensures RuleWord(t, cs, pair, now) <==> now == (pair in ApplyAll(t, cs).rules)
  {
    if cs != [] {
      var n := |cs| - 1;
      assert cs == cs[..n] + [cs[n]];
      TablesFollowLastWord(t, cs[..n], pair, now);
      LastWordOfAppend(cs[..n], cs[n], c => SaysOfGroup(c, pair), pair in t.groups, now);
      LastWordOfAppend(cs[..n], cs[n], c => SaysOfRule(c, pair), pair in t.rules, now);
    }
  }

  /** Two histories with the same last words leave the same tables, hence the
      same peer list for every caller. */
  lemma SameLastWordsSameVisibility(t: Tables, cs: seq<Change>, ds: seq<Change>, ids: set<Id>, caller: Id)
    requires forall pair, now :: GroupWord(t, cs, pair, now) <==> GroupWord(t, ds, pair, now)
    requires forall pair, now :: RuleWord(t, cs, pair, now) <==> RuleWord(t, ds, pair, now)
    ensures ApplyAll(t, cs) == ApplyAll(t, ds)
    ensures Visible(ApplyAll(t, cs), ids, caller) == Visible(ApplyAll(t, ds), ids, caller)
  {
    hide GroupWord, RuleWord;
    var a, b := ApplyAll(t, cs), ApplyAll(t, ds);
    forall pair ensures (pair in a.groups <==> pair in b.groups) && (pair in a.rules <==> pair in b.rules) {
      TablesFollowLastWord(t, cs, pair, true);
      TablesFollowLastWord(t, ds, pair, true);
    }
  }

  /** Adding a pair and later removing it, with changes to other pairs between,
      comes to those other changes alone if the pair was absent. */
  lemma {:induction false} AddThenRemoveRestores(t: Tables, add: Change, remove: Change, cs: seq<Change>)
    requires || (add.AddGroup? && remove == RemoveGroup(add.node, add.group) && (add.node, add.group) !in t.groups
                 && forall i :: 0 <= i < |cs| ==> SaysOfGroup(cs[i], (add.node, add.group)).None?)
             || (add.AddRule? && remove == RemoveRule(add.from, add.to) && (add.from, add.to) !in t.rules
                 && forall i :: 0 <= i < |cs| ==> SaysOfRule(cs[i], (add.from, add.to)).None?)
    ensures Apply(ApplyAll(Apply(t, add), cs), remove) == ApplyAll(t, cs)
  {
    if cs != [] {
      var n := |cs| - 1;
      AddThenRemoveRestores(t, add, remove, cs[..n]);
      var u, c := ApplyAll(Apply(t, add), cs[..n]), cs[n];
      assert Apply(Apply(u, c), remove) == Apply(Apply(u, remove), c);
    }
  }
}
