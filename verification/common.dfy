/** Shared result shapes and list functions. */
module Common {

  datatype Option<+T> = None | Some(value: T)

  /** Each element once, in order of first appearance. */
  function Distinct<T(==, !new)>(items: seq<T>): (r: seq<T>)
    ensures forall x :: x in r <==> x in items
    ensures forall i, j :: 0 <= i < j < |r| ==> r[i] != r[j]
  {
    if items == [] then []
    else
      var rest := Distinct(items[..|items| - 1]);
      var last := items[|items| - 1];
      if last in rest then rest else rest + [last]
  }

  /** `x` is seen before `y` is. */
  ghost predicate SeenFirst<T(!new)>(items: seq<T>, x: T, y: T) {
    exists k :: 0 <= k < |items| && items[k] == x && y !in items[..k]
  }

  lemma {:induction false} DistinctOrder<T(!new)>(items: seq<T>)
    ensures forall i, j :: 0 <= i < j < |Distinct(items)| ==> SeenFirst(items, Distinct(items)[i], Distinct(items)[j])
  {
    if items != [] {
      var init, last := items[..|items| - 1], items[|items| - 1];
      DistinctOrder(init);
      var r := Distinct(init);
      forall x, y | SeenFirst(init, x, y)
        ensures SeenFirst(items, x, y)
      {
        var k :| 0 <= k < |init| && init[k] == x && y !in init[..k];
        assert items[k] == x && items[..k] == init[..k];
      }
      forall x | x in init && last !in init
        ensures SeenFirst(items, x, last)
      {
        var k :| 0 <= k < |init| && init[k] == x;
        assert items[k] == x && forall m :: 0 <= m < k ==> items[..k][m] == init[m] && init[m] in init;
      }
      assert forall i :: 0 <= i < |r| ==> r[i] in r && r[i] in init;
    }
  }

  function Concat<T>(parts: seq<seq<T>>): seq<T> {
    if parts == [] then [] else Concat(parts[..|parts| - 1]) + parts[|parts| - 1]
  }

  lemma {:induction false} ConcatParts<T(!new)>(a: seq<seq<T>>, b: seq<seq<T>>)
    ensures Concat(a + b) == Concat(a) + Concat(b)
    ensures forall part: seq<T> :: Concat([part]) == part
  {
    assert forall part: seq<T> :: [part][..0] == [] && Concat([part]) == [] + part;
    if b == [] {
      assert a + b == a;
    } else {
      var rest := b[..|b| - 1];
      ConcatParts(a, rest);
      assert (a + b)[..|a + b| - 1] == a + rest;
    }
  }
}
