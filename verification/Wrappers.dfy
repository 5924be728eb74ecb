/** Types and constants that the whole project shares. */
module Wrappers {
  datatype Option<+T> = None | Some(value: T)
  {
    function GetOr(default: T): T {
      match this
      case Some(v) => v
      case None => default
    }
  }

  type Byte = n: int | 0 <= n < 256

  /** The number of clock units (nanoseconds) in a second. */
  const SECOND := 1_000_000_000

  /** `order` lists the members of `ids`, each once. */
  ghost predicate Lists<T(!new)>(order: seq<T>, ids: set<T>) {
    NoRepeats(order) && forall id :: id in order <==> id in ids
  }

  ghost predicate NoRepeats<T>(order: seq<T>) {
    forall i, j :: 0 <= i < j < |order| ==> order[i] != order[j]
  }

  /** A finite set can be listed, starting with any member. */
  lemma {:induction false} SomeOrder<T(!new)>(ids: set<T>, first: Option<T>)
    requires first.Some? ==> first.value in ids
    ensures exists order :: Lists(order, ids) && (first.Some? ==> [first.value] <= order)
    decreases ids
  {
    if ids == {} {
      assert Lists([], ids);
    } else {
      var id :| id in ids && (first.Some? ==> id == first.value);
      SomeOrder(ids - {id}, None);
      var rest :| Lists(rest, ids - {id});
      assert Lists([id] + rest, ids) && [id] <= [id] + rest;
    }
  }
}
