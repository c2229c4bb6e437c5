/** Generic sequence facts: the order-preserving filter behind every
    `Array.prototype.filter` of the pipeline, and reversal. */
module Seqs {

  /** `a` can be obtained from `b` by deleting elements (order is kept). */
  predicate IsSubsequence<T(==)>(a: seq<T>, b: seq<T>)
    decreases |b|
  {
    if a == [] then true
    else if b == [] then false
    else if a[0] == b[0] then IsSubsequence(a[1..], b[1..])
    else IsSubsequence(a, b[1..])
  }

  lemma {:induction false} SubsequenceRefl<T>(s: seq<T>)
    ensures IsSubsequence(s, s)
  {
    if s != [] {
      SubsequenceRefl(s[1..]);
    }
  }

  /** `Array.prototype.filter`: the elements of `s` on which `keep` holds,
      in their original order, duplicates included. */
  function Filter<T(!new)>(keep: T -> bool, s: seq<T>): (r: seq<T>)
    ensures |r| <= |s|
    ensures IsSubsequence(r, s)
    ensures forall x :: x in r <==> x in s && keep(x)
    ensures forall x :: keep(x) ==> multiset(r)[x] == multiset(s)[x]
  {
    if s == [] then []
    else
      var rest := Filter(keep, s[1..]);
      assert s == [s[0]] + s[1..];
      if keep(s[0]) then [s[0]] + rest else rest
  }

  lemma {:induction false} SubsequenceCounts<T>(a: seq<T>, b: seq<T>)
    requires IsSubsequence(a, b)
    ensures multiset(a) <= multiset(b)
    decreases |b|
  {
    if a == [] {
    } else if a[0] == b[0] {
      SubsequenceCounts(a[1..], b[1..]);
      assert a == [a[0]] + a[1..];
      assert b == [b[0]] + b[1..];
    } else {
      SubsequenceCounts(a, b[1..]);
      assert b == [b[0]] + b[1..];
    }
  }

  /** The contract of Filter pins the result down: any in-order selection
      from `s` that keeps every occurrence of every element satisfying `keep`
      and nothing else is `Filter(keep, s)`. */
  lemma {:induction false} FilterUnique<T(!new)>(keep: T -> bool, s: seq<T>, r: seq<T>)
    requires IsSubsequence(r, s)
    requires forall x :: x in r ==> keep(x)
    requires forall x :: keep(x) ==> multiset(r)[x] == multiset(s)[x]
    ensures r == Filter(keep, s)
    decreases |s|
  {
    if s == [] {
    } else {
      assert s == [s[0]] + s[1..];
      if r != [] && r[0] == s[0] {
        assert r == [r[0]] + r[1..];
        forall x | keep(x) ensures multiset(r[1..])[x] == multiset(s[1..])[x] {
        }
        forall x | x in r[1..] ensures keep(x) {
          assert x in r;
        }
        FilterUnique(keep, s[1..], r[1..]);
      } else {
        if r != [] {
          assert IsSubsequence(r, s[1..]);
        }
        SubsequenceCounts(r, s[1..]);
        if keep(s[0]) {
          assert false;
        }
        forall x | keep(x) ensures multiset(r)[x] == multiset(s[1..])[x] {
        }
        FilterUnique(keep, s[1..], r);
      }
    }
  }

  lemma {:induction false} FilterKeepsAll<T(!new)>(keep: T -> bool, s: seq<T>)
    requires forall x :: x in s ==> keep(x)
    ensures Filter(keep, s) == s
  {
    if s != [] {
      FilterKeepsAll(keep, s[1..]);
    }
  }

  lemma {:induction false} FilterDropsAll<T(!new)>(keep: T -> bool, s: seq<T>)
    requires forall x :: x in s ==> !keep(x)
    ensures Filter(keep, s) == []
  {
    if s != [] {
      FilterDropsAll(keep, s[1..]);
    }
  }

  /** Filtering by `q`, then by `p`, keeps what passes `both` tests. */
  lemma {:induction false} FilterFilter<T(!new)>(p: T -> bool, q: T -> bool, both: T -> bool, s: seq<T>)
    requires forall x :: both(x) == (q(x) && p(x))
    ensures Filter(p, Filter(q, s)) == Filter(both, s)
  {
    if s != [] {
      FilterFilter(p, q, both, s[1..]);
    }
  }

  function Reverse<T>(s: seq<T>): (r: seq<T>)
    ensures |r| == |s|
    ensures forall i :: 0 <= i < |s| ==> r[i] == s[|s| - 1 - i]
  {
    if s == [] then [] else Reverse(s[1..]) + [s[0]]
  }

  lemma ReverseAppend<T>(a: seq<T>, b: seq<T>)
    ensures Reverse(a + b) == Reverse(b) + Reverse(a)
  {
    var l, r := Reverse(a + b), Reverse(b) + Reverse(a);
    forall i | 0 <= i < |l| ensures l[i] == r[i] {
      if i < |b| {
        assert l[i] == (a + b)[|a| + |b| - 1 - i] == b[|b| - 1 - i];
      } else {
        assert l[i] == (a + b)[|a| + |b| - 1 - i] == a[|a| - 1 - (i - |b|)];
      }
    }
  }

  /** The concatenation of `f(x)` over the elements `x` of `s`, in order. */
  function FlatMap<T, U>(f: T -> seq<U>, s: seq<T>): seq<U> {
    if s == [] then [] else f(s[0]) + FlatMap(f, s[1..])
  }

  lemma {:induction false} FlatMapAppend<T, U>(f: T -> seq<U>, a: seq<T>, b: seq<T>)
    ensures FlatMap(f, a + b) == FlatMap(f, a) + FlatMap(f, b)
    decreases |a|
  {
    if a == [] {
      assert a + b == b;
    } else {
      assert (a + b)[0] == a[0] && (a + b)[1..] == a[1..] + b;
      FlatMapAppend(f, a[1..], b);
    }
  }

  lemma FlatMapSnoc<T, U>(f: T -> seq<U>, s: seq<T>, x: T)
    ensures FlatMap(f, s + [x]) == FlatMap(f, s) + f(x)
  {
    FlatMapAppend(f, s, [x]);
    assert FlatMap(f, [x]) == f(x) + FlatMap(f, []);
  }

  lemma {:induction false} FlatMapMember<T, U>(f: T -> seq<U>, s: seq<T>, y: U)
    ensures y in FlatMap(f, s) <==> exists x :: x in s && y in f(x)
    decreases |s|
  {
    if s != [] {
      FlatMapMember(f, s[1..], y);
      assert forall x :: x in s <==> x == s[0] || x in s[1..];
    }
  }
}
