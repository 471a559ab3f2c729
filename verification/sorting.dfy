/** A stable insertion sort under an arbitrary comparison: the model of SQL `ORDER BY`. */
module Sorting {

  /** `le` is total and transitive, the shape of every `ORDER BY` key list. */
  ghost predicate TotalPreorder<T(!new)>(le: (T, T) -> bool) {
    && (forall a, b :: le(a, b) || le(b, a))
    && (forall a, b, c :: le(a, b) && le(b, c) ==> le(a, c))
  }

  ghost predicate Sorted<T>(xs: seq<T>, le: (T, T) -> bool) {
    forall i, j :: 0 <= i < j < |xs| ==> le(xs[i], xs[j])
  }

  /** Places `x` before the first element it is not ordered after. */
  function Insert<T(!new)>(x: T, xs: seq<T>, le: (T, T) -> bool): (r: seq<T>)
    ensures multiset(r) == multiset(xs) + multiset{x}
    ensures TotalPreorder(le) && Sorted(xs, le) ==> Sorted(r, le)
    decreases |xs|
  {
    if xs == [] then [x]
    else if le(x, xs[0]) then
      assert TotalPreorder(le) && Sorted(xs, le) ==> Sorted([x] + xs, le) by {
        if TotalPreorder(le) && Sorted(xs, le) {
          forall i, j | 0 <= i < j < |[x] + xs|
            ensures le(([x] + xs)[i], ([x] + xs)[j])
          {
            if i == 0 && j > 1 {
              assert le(xs[0], xs[j - 1]);
            }
          }
        }
      }
      [x] + xs
    else
      var rest := Insert(x, xs[1..], le);
      assert xs == [xs[0]] + xs[1..];
      assert TotalPreorder(le) && Sorted(xs, le) ==> Sorted([xs[0]] + rest, le) by {
        if TotalPreorder(le) && Sorted(xs, le) {
          assert Sorted(xs[1..], le);
          forall k | 0 <= k < |rest| ensures le(xs[0], rest[k]) {
            assert rest[k] in multiset(rest);
            if rest[k] != x {
              assert rest[k] in multiset(xs[1..]);
              var m :| 0 <= m < |xs[1..]| && xs[1..][m] == rest[k];
              assert le(xs[0], xs[m + 1]);
            }
          }
          forall i, j | 0 <= i < j < |[xs[0]] + rest|
            ensures le(([xs[0]] + rest)[i], ([xs[0]] + rest)[j])
          {
            if i > 0 {
              assert le(rest[i - 1], rest[j - 1]);
            }
          }
        }
      }
      [xs[0]] + rest
  }

  /** Stable: elements that compare equal keep their input order. */
  function SortBy<T(!new)>(xs: seq<T>, le: (T, T) -> bool): (r: seq<T>)
    ensures multiset(r) == multiset(xs)
    ensures |r| == |xs|
    ensures TotalPreorder(le) ==> Sorted(r, le)
    decreases |xs|
  {
    if xs == [] then []
    else
      assert xs == [xs[0]] + xs[1..];
      Insert(xs[0], SortBy(xs[1..], le), le)
  }

  /** Sorting moves elements but neither adds nor drops any. */
  lemma SortByMembers<T(!new)>(xs: seq<T>, le: (T, T) -> bool, x: T)
    ensures x in SortBy(xs, le) <==> x in xs
  {
    var r := SortBy(xs, le);
    assert x in r <==> x in multiset(r);
    assert x in xs <==> x in multiset(xs);
  }
}
