/** Sorting by a number that each element carries. Elements with the same number may come in any
    order, as they may with Go's sort functions. */
module Sorting {

  ghost predicate Ascending<T>(l: seq<T>, key: T -> int) {
    forall i, j :: 0 <= i < j < |l| ==> key(l[i]) <= key(l[j])
  }

  function Inserted<T>(sorted: seq<T>, x: T, key: T -> int): (r: seq<T>)
    ensures multiset(r) == multiset(sorted) + multiset{x}
  {
    if sorted == [] then [x] else
      var n := |sorted| - 1;
      assert sorted == sorted[..n] + [sorted[n]];
      if key(sorted[n]) <= key(x) then sorted + [x] else Inserted(sorted[..n], x, key) + [sorted[n]]
  }

  lemma {:induction false} InsertionSorts<T>(sorted: seq<T>, x: T, key: T -> int)
    requires Ascending(sorted, key)
    ensures Ascending(Inserted(sorted, x, key), key)
  {
    if sorted != [] {
      var n := |sorted| - 1;
      var front := Inserted(sorted[..n], x, key);
      InsertionSorts(sorted[..n], x, key);
      forall i | 0 <= i < |front| && key(sorted[n]) > key(x) ensures key(front[i]) <= key(sorted[n]) {
        assert front[i] in multiset(front);
        assert front[i] in sorted[..n] || front[i] == x;
      }
    }
  }

  method Sort<T>(l: seq<T>, key: T -> int) returns (sorted: seq<T>)
    ensures multiset(sorted) == multiset(l) && Ascending(sorted, key)
  {
    sorted := [];
    for i := 0 to |l|
      invariant multiset(sorted) == multiset(l[..i]) && Ascending(sorted, key)
    {
      assert l[..i + 1] == l[..i] + [l[i]];
      InsertionSorts(sorted, l[i], key);
      sorted := Inserted(sorted, l[i], key);
    }
    assert l[..|l|] == l;
  }
}
