/** Order-preserving selection on sequences: `Array.prototype.filter` and the
    "ordered sub-list" relation used to state what a filter returns. */
module Seqs {
  import opened Text

  /** `a` is obtained from `b` by deleting elements, keeping the rest in order. */
  ghost predicate IsSubsequence<T>(a: seq<T>, b: seq<T>)
    decreases |b|
  {
    if |a| == 0 then true
    else if |b| == 0 then false
    else if a[0] == b[0] then IsSubsequence(a[1..], b[1..])
    else IsSubsequence(a, b[1..])
  }

  /** `b.filter(keep)`: the elements of `b` that `keep` accepts, in order.
      Every accepted element keeps all its occurrences and every rejected one
      loses all of them. */
  function Filter<T(!new)>(keep: T -> bool, b: seq<T>): (r: seq<T>)
    ensures |r| <= |b|
    ensures IsSubsequence(r, b)
    ensures forall x :: multiset(r)[x] == if keep(x) then multiset(b)[x] else 0
    ensures forall x :: x in r <==> x in b && keep(x)
  {
    if |b| == 0 then []
    else
      assert b == [b[0]] + b[1..];
      if keep(b[0]) then [b[0]] + Filter(keep, b[1..]) else Filter(keep, b[1..])
  }

  /** Two adjacent slices make one. */
  lemma SliceJoin<T>(s: seq<T>, a: nat, b: nat)
    requires a <= b <= |s|
    ensures s[..a] + s[a..b] == s[..b]
  {
  }

  /** Filtering with a test that accepts every element changes nothing. */
  lemma FilterAll<T(!new)>(keep: T -> bool, b: seq<T>)
    requires forall i :: 0 <= i < |b| ==> keep(b[i])
    ensures Filter(keep, b) == b
  {
    if |b| > 0 {
      FilterAll(keep, b[1..]);
    }
  }

  /** No element occurs twice. */
  predicate Distinct<T(==)>(s: seq<T>) {
    forall i, j :: 0 <= i < j < |s| ==> s[i] != s[j]
  }

  /** Filtering a sequence without repeats yields one without repeats. */
  lemma {:induction false} FilterDistinct<T(!new)>(keep: T -> bool, b: seq<T>)
    requires Distinct(b)
    ensures Distinct(Filter(keep, b))
    decreases |b|
  {
    if |b| > 0 {
      var rest := Filter(keep, b[1..]);
      assert Distinct(b[1..]) by {
        forall i, j | 0 <= i < j < |b[1..]| ensures b[1..][i] != b[1..][j] {
          assert b[1..][i] == b[i + 1] && b[1..][j] == b[j + 1];
        }
      }
      FilterDistinct(keep, b[1..]);
      if keep(b[0]) {
        assert b[0] !in b[1..];
        var r := [b[0]] + rest;
        forall i, j | 0 <= i < j < |r| ensures r[i] != r[j] {
          assert r[j] == rest[j - 1];
          if i > 0 {
            assert r[i] == rest[i - 1];
          }
        }
      }
    }
  }

  /** `ys[i]` is what `f` yields for `xs[i]`, for every `i`. */
  predicate MapsTo<A, B(==)>(f: A -> Option<B>, xs: seq<A>, ys: seq<B>) {
    |xs| == |ys| && forall i :: 0 <= i < |xs| ==> f(xs[i]) == Some(ys[i])
  }

  lemma MapsToCons<A, B>(f: A -> Option<B>, x: A, xs: seq<A>, y: B, ys: seq<B>)
    requires f(x) == Some(y) && MapsTo(f, xs, ys)
    ensures MapsTo(f, [x] + xs, [y] + ys)
  {
    var xs', ys' := [x] + xs, [y] + ys;
    forall i | 0 <= i < |xs'| ensures f(xs'[i]) == Some(ys'[i]) {
      if i > 0 {
        assert xs'[i] == xs[i - 1] && ys'[i] == ys[i - 1];
      }
    }
  }
}
