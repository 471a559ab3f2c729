/** Sequence helpers shared by the store and the Markdown converter. */
module Seqs {
  import opened Wrappers

  /** No element occurs twice. */
  ghost predicate NoDup<T>(xs: seq<T>) {
    forall i, j :: 0 <= i < j < |xs| ==> xs[i] != xs[j]
  }

  /** Every earlier element stands in `rel` to every later one. */
  ghost predicate Pairwise<T>(xs: seq<T>, rel: (T, T) -> bool) {
    forall i, j :: 0 <= i < j < |xs| ==> rel(xs[i], xs[j])
  }

  /** Two duplicate-free sequences with no element in common concatenate to a duplicate-free one. */
  lemma NoDupConcat<T>(a: seq<T>, b: seq<T>)
    requires NoDup(a) && NoDup(b)
    requires forall x :: x in a ==> x !in b
    ensures NoDup(a + b)
  {
    forall i, j | 0 <= i < j < |a + b| ensures (a + b)[i] != (a + b)[j] {
      if i < |a| && |a| <= j {
        assert (a + b)[i] in a && (a + b)[j] == b[j - |a|];
      }
    }
  }

  lemma {:induction false} NoDupCounts<T>(xs: seq<T>)
    requires NoDup(xs)
    ensures forall x :: multiset(xs)[x] <= 1
    decreases |xs|
  {
    if xs != [] {
      var rest := xs[1..];
      assert NoDup(rest) by {
        forall i, j | 0 <= i < j < |rest| ensures rest[i] != rest[j] {
          assert rest[i] == xs[i + 1] && rest[j] == xs[j + 1];
        }
      }
      NoDupCounts(rest);
      assert xs == [xs[0]] + rest;
      assert xs[0] !in rest;
    }
  }

  /** Rearranging a duplicate-free sequence leaves it duplicate-free. */
  lemma NoDupPermutation<T>(a: seq<T>, b: seq<T>)
    requires NoDup(a) && multiset(a) == multiset(b)
    ensures NoDup(b)
  {
    NoDupCounts(a);
    forall i, j | 0 <= i < j < |b| ensures b[i] != b[j] {
      assert b == b[..j] + b[j..];
      assert b[i] in b[..j] && b[j] in b[j..];
      assert multiset(b)[b[j]] == multiset(b[..j])[b[j]] + multiset(b[j..])[b[j]];
      assert b[j] !in b[..j];
    }
  }

  /** The elements of `xs` satisfying `p`, in their original order. */
  function Filter<T(!new)>(xs: seq<T>, p: T -> bool): (r: seq<T>)
    ensures |r| <= |xs|
    ensures forall x :: x in r <==> x in xs && p(x)
    decreases |xs|
  {
    if xs == [] then []
    else (if p(xs[0]) then [xs[0]] else []) + Filter(xs[1..], p)
  }

  lemma {:induction false} FilterConcat<T(!new)>(a: seq<T>, b: seq<T>, p: T -> bool)
    ensures Filter(a + b, p) == Filter(a, p) + Filter(b, p)
    decreases |a|
  {
    if a != [] {
      assert (a + b)[1..] == a[1..] + b;
      FilterConcat(a[1..], b, p);
    } else {
      assert a + b == b;
    }
  }

  /** Filtering a sequence none of whose elements pass leaves nothing. */
  lemma {:induction false} FilterNone<T(!new)>(xs: seq<T>, p: T -> bool)
    requires forall i :: 0 <= i < |xs| ==> !p(xs[i])
    ensures Filter(xs, p) == []
    decreases |xs|
  {
    if xs != [] {
      FilterNone(xs[1..], p);
    }
  }

  /** Filtering a sequence all of whose elements pass changes nothing. */
  lemma {:induction false} FilterAll<T(!new)>(xs: seq<T>, p: T -> bool)
    requires forall i :: 0 <= i < |xs| ==> p(xs[i])
    ensures Filter(xs, p) == xs
    decreases |xs|
  {
    if xs != [] {
      FilterAll(xs[1..], p);
      assert xs == [xs[0]] + xs[1..];
    }
  }

  /** Predicates that agree on every element select the same elements. */
  lemma {:induction false} FilterCongruent<T(!new)>(xs: seq<T>, p: T -> bool, q: T -> bool)
    requires forall i :: 0 <= i < |xs| ==> p(xs[i]) == q(xs[i])
    ensures Filter(xs, p) == Filter(xs, q)
    decreases |xs|
  {
    if xs != [] {
      FilterCongruent(xs[1..], p, q);
    }
  }

  /** Filtering drops something exactly when some element fails the predicate. */
  lemma {:induction false} FilterCount<T(!new)>(xs: seq<T>, p: T -> bool)
    ensures |Filter(xs, p)| < |xs| <==> exists x :: x in xs && !p(x)
    decreases |xs|
  {
    if xs != [] {
      FilterCount(xs[1..], p);
      assert xs == [xs[0]] + xs[1..];
    }
  }

  /** Filtering twice by predicates that agree on the survivors of the first is filtering once. */
  lemma {:induction false} FilterFilter<T(!new)>(xs: seq<T>, p: T -> bool, q: T -> bool)
    requires forall x :: p(x) ==> q(x)
    ensures Filter(Filter(xs, p), q) == Filter(xs, p)
    decreases |xs|
  {
    FilterAll(Filter(xs, p), q);
  }

  /** Filtering by `p` and then by a stronger `q` is filtering by `q`. */
  lemma {:induction false} FilterNarrow<T(!new)>(xs: seq<T>, p: T -> bool, q: T -> bool)
    requires forall x :: q(x) ==> p(x)
    ensures Filter(Filter(xs, p), q) == Filter(xs, q)
    decreases |xs|
  {
    if xs != [] {
      var head := if p(xs[0]) then [xs[0]] else [];
      FilterConcat(head, Filter(xs[1..], p), q);
      FilterNarrow(xs[1..], p, q);
      if p(xs[0]) {
        assert Filter(head, q) == (if q(xs[0]) then [xs[0]] else []) by {
          assert head[1..] == [];
        }
      } else {
        assert Filter(head, q) == [];
      }
    }
  }

  /** A selection keeps every pairwise relation the original satisfied (it is a subsequence). */
  lemma {:induction false} FilterPairwise<T(!new)>(xs: seq<T>, p: T -> bool, rel: (T, T) -> bool)
    requires Pairwise(xs, rel)
    ensures Pairwise(Filter(xs, p), rel)
    decreases |xs|
  {
    if xs != [] {
      var rest := Filter(xs[1..], p);
      assert Pairwise(xs[1..], rel) by {
        forall i, j | 0 <= i < j < |xs[1..]| ensures rel(xs[1..][i], xs[1..][j]) {
          assert xs[1..][i] == xs[i + 1] && xs[1..][j] == xs[j + 1];
        }
      }
      FilterPairwise(xs[1..], p, rel);
      if p(xs[0]) {
        var r := [xs[0]] + rest;
        forall i, j | 0 <= i < j < |r| ensures rel(r[i], r[j]) {
          if i == 0 {
            assert r[j] in xs[1..];
            var k :| 0 <= k < |xs[1..]| && xs[1..][k] == r[j];
            assert xs[k + 1] == r[j];
          } else {
            assert r[i] == rest[i - 1] && r[j] == rest[j - 1];
          }
        }
      }
    }
  }

  /** `a` is `b` with some elements left out: the survivors of a DELETE, in their order. */
  ghost predicate Subsequence<T>(a: seq<T>, b: seq<T>)
    decreases |b|
  {
    a == [] || (b != [] && (Subsequence(a, b[1..]) || (a[0] == b[0] && Subsequence(a[1..], b[1..]))))
  }

  /** A selection keeps the order of what it keeps. */
  lemma {:induction false} FilterSubsequence<T(!new)>(xs: seq<T>, p: T -> bool)
    ensures Subsequence(Filter(xs, p), xs)
    decreases |xs|
  {
    if xs != [] {
      FilterSubsequence(xs[1..], p);
      if p(xs[0]) {
        assert Filter(xs, p) == [xs[0]] + Filter(xs[1..], p);
        assert Filter(xs, p)[1..] == Filter(xs[1..], p);
      } else {
        assert Filter(xs, p) == Filter(xs[1..], p);
      }
    }
  }

  /** The first element satisfying `p`: a point lookup that reads the first matching row. */
  function FindFirst<T(!new)>(xs: seq<T>, p: T -> bool): (r: Option<T>)
    ensures r.Some? <==> exists x :: x in xs && p(x)
    ensures r.Some? ==> r.value in xs && p(r.value)
    decreases |xs|
  {
    if xs == [] then None
    else if p(xs[0]) then Some(xs[0])
    else FindFirst(xs[1..], p)
  }

  /** The first occurrence of every element of `xs`, in order: LINQ `Distinct` and SQL `DISTINCT`. */
  function Distinct<T(==,!new)>(xs: seq<T>): (r: seq<T>)
    ensures NoDup(r)
    ensures forall x :: x in r <==> x in xs
    ensures NoDup(xs) ==> r == xs
    decreases |xs|
  {
    if xs == [] then []
    else
      var init := Distinct(xs[..|xs| - 1]);
      var last := xs[|xs| - 1];
      assert xs == xs[..|xs| - 1] + [last];
      if last in init then init else init + [last]
  }
}
