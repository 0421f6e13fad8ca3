/** How many of the processes of a system are in a given position. */
module Counting {

  function Count<T>(items: seq<T>, p: T -> bool): nat {
    if items == [] then 0 else Count(items[..|items| - 1], p) + if p(items[|items| - 1]) then 1 else 0
  }

  /** One process moves. */
  lemma {:induction false} CountUpdate<T>(items: seq<T>, i: nat, item: T, p: T -> bool)
    requires i < |items|
    ensures Count(items[i := item], p) == Count(items, p) - (if p(items[i]) then 1 else 0) + if p(item) then 1 else 0
    decreases |items|
  {
    var n := |items| - 1;
    if i == n {
      assert items[i := item][..n] == items[..n];
    } else {
      CountUpdate(items[..n], i, item, p);
      assert items[i := item][..n] == items[..n][i := item];
    }
  }

  /** One process is added. */
  lemma CountAdd<T>(items: seq<T>, item: T, p: T -> bool)
    ensures Count(items + [item], p) == Count(items, p) + if p(item) then 1 else 0
  {
    assert (items + [item])[..|items|] == items;
  }

  lemma {:induction false} CountNone<T>(items: seq<T>, p: T -> bool)
    requires forall i :: 0 <= i < |items| ==> !p(items[i])
    ensures Count(items, p) == 0
    decreases |items|
  {
    if items == [] {
    } else {
      CountNone(items[..|items| - 1], p);
    }
  }

  /** What holds of some process holds of at least one. */
  lemma {:induction false} CountSome<T>(items: seq<T>, i: nat, p: T -> bool)
    requires i < |items| && p(items[i])
    ensures Count(items, p) > 0
    decreases |items|
  {
    if i < |items| - 1 {
      CountSome(items[..|items| - 1], i, p);
    }
  }
}
