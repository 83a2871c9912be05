/** Order-preserving list combinators: the model's counterpart of Python's
    list comprehensions `[f(x) for x in xs if p(x)]`. */
module Seqs {
  import opened Wrappers

  lemma AppendAssoc<T>(a: seq<T>, b: seq<T>, c: seq<T>)
    ensures (a + b) + c == a + (b + c)
  {
  }

  /** `[x for x in s if p(x)]` */
  function Filter<T>(s: seq<T>, p: T -> bool): (r: seq<T>)
    ensures |r| <= |s|
    ensures forall i | 0 <= i < |r| :: r[i] in s && p(r[i])
    ensures forall i | 0 <= i < |s| :: p(s[i]) ==> s[i] in r
  {
    if s == [] then [] else (if p(s[0]) then [s[0]] else []) + Filter(s[1..], p)
  }

  /** Filtering distributes over concatenation: kept elements stay in their relative order. */
  lemma {:induction false} FilterAppend<T>(a: seq<T>, b: seq<T>, p: T -> bool)
    ensures Filter(a + b, p) == Filter(a, p) + Filter(b, p)
  {
    if a == [] {
      assert a + b == b;
    } else {
      assert (a + b)[0] == a[0] && (a + b)[1..] == a[1..] + b;
      FilterAppend(a[1..], b, p);
    }
  }

  /** A sequence whose every element satisfies `p` is its own filter. */
  lemma {:induction false} FilterAll<T>(s: seq<T>, p: T -> bool)
    requires forall i | 0 <= i < |s| :: p(s[i])
    ensures Filter(s, p) == s
  {
    if s != [] {
      FilterAll(s[1..], p);
    }
  }

  /** Nothing is kept when no element satisfies `p`. */
  lemma {:induction false} FilterNone<T>(s: seq<T>, p: T -> bool)
    requires forall i | 0 <= i < |s| :: !p(s[i])
    ensures Filter(s, p) == []
  {
    if s != [] {
      FilterNone(s[1..], p);
    }
  }

  /** Filtering keeps any relation that holds between every earlier and every later element. */
  lemma {:induction false} FilterPairwise<T>(s: seq<T>, p: T -> bool, R: (T, T) -> bool)
    requires forall a, b | 0 <= a < b < |s| :: R(s[a], s[b])
    ensures forall a, b | 0 <= a < b < |Filter(s, p)| :: R(Filter(s, p)[a], Filter(s, p)[b])
  {
    if s != [] {
      var rest := Filter(s[1..], p);
      FilterPairwise(s[1..], p, R);
      forall b | 0 <= b < |rest|
        ensures R(s[0], rest[b])
      {
        var j :| 0 <= j < |s[1..]| && s[1..][j] == rest[b];
        assert s[j + 1] == rest[b];
      }
      if p(s[0]) {
        var r := [s[0]] + rest;
        forall a, b | 0 <= a < b < |r|
          ensures R(r[a], r[b])
        {
          assert r[b] == rest[b - 1];
          if a > 0 {
            assert r[a] == rest[a - 1];
          }
        }
      }
    }
  }

  /** The positions below `n` of the elements satisfying `p`, in increasing order. */
  function FilterIndices<T>(s: seq<T>, p: T -> bool, n: nat): seq<nat>
    requires n <= |s|
  {
    if n == 0 then [] else FilterIndices(s, p, n - 1) + if p(s[n - 1]) then [n - 1] else []
  }

  /** `kept` holds the elements of `s[..n]` satisfying `p`, in their original order: they
      come from the strictly increasing positions `idx`, and those are exactly the
      positions below `n` of the elements satisfying `p`. */
  ghost predicate KeptInOrder<T>(s: seq<T>, p: T -> bool, n: nat, kept: seq<T>, idx: seq<nat>)
    requires n <= |s|
  {
    && |idx| == |kept|
    && (forall a, b | 0 <= a < b < |idx| :: idx[a] < idx[b])
    && (forall k | 0 <= k < |idx| :: idx[k] < n && kept[k] == s[idx[k]])
    && (forall i | 0 <= i < n :: p(s[i]) <==> i in idx)
  }

  /** Filtering keeps the elements satisfying `p` in their original order. */
  lemma {:induction false} FilterIndicesSpec<T>(s: seq<T>, p: T -> bool, n: nat)
    requires n <= |s|
    ensures KeptInOrder(s, p, n, Filter(s[..n], p), FilterIndices(s, p, n))
  {
    if n > 0 {
      FilterIndicesSpec(s, p, n - 1);
      FilterPrefixStep(s, p, n);
      KeptInOrderStep(s, p, n - 1, Filter(s[..n - 1], p), FilterIndices(s, p, n - 1));
    }
  }

  /** Filtering a prefix one element longer adds that element when it satisfies `p`. */
  lemma FilterPrefixStep<T>(s: seq<T>, p: T -> bool, n: nat)
    requires 0 < n <= |s|
    ensures Filter(s[..n], p) == Filter(s[..n - 1], p) + if p(s[n - 1]) then [s[n - 1]] else []
  {
    assert s[..n] == s[..n - 1] + [s[n - 1]];
    FilterAppend(s[..n - 1], [s[n - 1]], p);
    assert Filter([s[n - 1]], p) == (if p(s[n - 1]) then [s[n - 1]] else []) + Filter([], p);
  }

  /** Looking at one more element keeps `KeptInOrder`. */
  lemma KeptInOrderStep<T>(s: seq<T>, p: T -> bool, m: nat, kept: seq<T>, idx: seq<nat>)
    requires m < |s| && KeptInOrder(s, p, m, kept, idx)
    ensures KeptInOrder(s, p, m + 1, kept + if p(s[m]) then [s[m]] else [], idx + if p(s[m]) then [m] else [])
  {
    if !p(s[m]) {
      assert kept + [] == kept && idx + [] == idx;
    }
  }

  /** Filters by two predicates that agree on every element are equal. */
  lemma {:induction false} FilterCongruent<T>(s: seq<T>, p: T -> bool, q: T -> bool)
    requires forall i | 0 <= i < |s| :: p(s[i]) == q(s[i])
    ensures Filter(s, p) == Filter(s, q)
  {
    if s != [] {
      FilterCongruent(s[1..], p, q);
    }
  }

  /** When every element satisfies exactly one of `p`, `q` and `r`, the three filters
      together hold as many elements as `s`. */
  lemma {:induction false} FilterPartition<T>(s: seq<T>, p: T -> bool, q: T -> bool, r: T -> bool)
    requires forall i | 0 <= i < |s| ::
      (p(s[i]) && !q(s[i]) && !r(s[i])) || (!p(s[i]) && q(s[i]) && !r(s[i])) || (!p(s[i]) && !q(s[i]) && r(s[i]))
    ensures |Filter(s, p)| + |Filter(s, q)| + |Filter(s, r)| == |s|
  {
    if s != [] {
      FilterPartition(s[1..], p, q, r);
    }
  }

  /** Filtering with a weaker predicate first changes nothing. */
  lemma {:induction false} FilterFilterWeaker<T>(s: seq<T>, p: T -> bool, q: T -> bool)
    requires forall x :: q(x) ==> p(x)
    ensures Filter(Filter(s, p), q) == Filter(s, q)
  {
    if s != [] {
      var head := if p(s[0]) then [s[0]] else [];
      FilterFilterWeaker(s[1..], p, q);
      FilterAppend(head, Filter(s[1..], p), q);
      if p(s[0]) {
        assert Filter(head, q) == (if q(s[0]) then [s[0]] else []) + Filter([], q);
      }
    }
  }

  /** Some element of `s` satisfies `p`, decided from the back. */
  predicate Any<T>(s: seq<T>, p: T -> bool) {
    s != [] && (Any(s[..|s| - 1], p) || p(s[|s| - 1]))
  }

  lemma {:induction false} AnySpec<T>(s: seq<T>, p: T -> bool)
    ensures Any(s, p) <==> exists i | 0 <= i < |s| :: p(s[i])
  {
    if s != [] {
      var init := s[..|s| - 1];
      AnySpec(init, p);
      if Any(init, p) {
        var i :| 0 <= i < |init| && p(init[i]);
        assert s[i] == init[i];
      }
      if exists i | 0 <= i < |s| :: p(s[i]) {
        var i :| 0 <= i < |s| && p(s[i]);
        if i < |init| {
          assert init[i] == s[i];
        }
      }
    }
  }

  /** `[f(x) for x in s]` */
  function Map<A, B>(s: seq<A>, f: A -> B): (r: seq<B>)
    ensures |r| == |s|
    ensures forall i | 0 <= i < |s| :: r[i] == f(s[i])
  {
    seq(|s|, i requires 0 <= i < |s| => f(s[i]))
  }

  lemma MapAppend<A, B>(s: seq<A>, x: A, f: A -> B)
    ensures Map(s + [x], f) == Map(s, f) + [f(x)]
  {
  }

  /** `[f(x) for x in s if p(x)]`, built element by element from the front. */
  function FilterMap<A, B>(s: seq<A>, p: A -> bool, f: A -> B): seq<B> {
    if s == [] then []
    else FilterMap(s[..|s| - 1], p, f) + if p(s[|s| - 1]) then [f(s[|s| - 1])] else []
  }

  lemma {:induction false} FilterMapSpec<A, B>(s: seq<A>, p: A -> bool, f: A -> B)
    ensures FilterMap(s, p, f) == Map(Filter(s, p), f)
  {
    if s != [] {
      var init := s[..|s| - 1];
      var last := s[|s| - 1];
      FilterMapSpec(init, p, f);
      assert s == init + [last];
      FilterAppend(init, [last], p);
      if p(last) {
        MapAppend(Filter(init, p), last, f);
      }
    }
  }

  /** The values of the `Some` elements, in order: `[x for x in s if x is not None]`. */
  function Somes<T>(s: seq<Option<T>>): (r: seq<T>)
    ensures |r| <= |s|
  {
    if s == [] then []
    else Somes(s[..|s| - 1]) + if s[|s| - 1].Some? then [s[|s| - 1].value] else []
  }

  /** One more element adds its value when it is a `Some`. */
  lemma SomesStep<T>(s: seq<Option<T>>, n: nat)
    requires n < |s|
    ensures Somes(s[..n + 1]) == Somes(s[..n]) + if s[n].Some? then [s[n].value] else []
  {
    assert s[..n + 1][..n] == s[..n];
  }

  /** Positions of the `Some` elements among the first `n`, in order. */
  function SomeIndices<T>(s: seq<Option<T>>, n: nat): seq<nat>
    requires n <= |s|
  {
    if n == 0 then [] else SomeIndices(s, n - 1) + if s[n - 1].Some? then [n - 1] else []
  }

  /** `Somes(s[..n])` holds the values of the `Some` elements at `SomeIndices(s, n)`, and
      those are all the `Some` positions, in increasing order. */
  lemma {:induction false} SomeIndicesSpec<T>(s: seq<Option<T>>, n: nat)
    requires n <= |s|
    ensures |SomeIndices(s, n)| == |Somes(s[..n])|
    ensures forall a, b | 0 <= a < b < |SomeIndices(s, n)| :: SomeIndices(s, n)[a] < SomeIndices(s, n)[b]
    ensures forall k | 0 <= k < |SomeIndices(s, n)| ::
      SomeIndices(s, n)[k] < n && s[SomeIndices(s, n)[k]] == Some(Somes(s[..n])[k])
    ensures forall i | 0 <= i < n :: s[i].Some? <==> i in SomeIndices(s, n)
  {
    if n > 0 {
      SomeIndicesSpec(s, n - 1);
      assert s[..n][..n - 1] == s[..n - 1];
    }
  }

  /** Every value of a `Some` element is kept, and nothing else. */
  lemma SomesMembers<T>(s: seq<Option<T>>)
    ensures forall i | 0 <= i < |s| :: s[i].Some? ==> s[i].value in Somes(s)
    ensures forall k | 0 <= k < |Somes(s)| :: Some(Somes(s)[k]) in s
  {
    SomeIndicesSpec(s, |s|);
    assert s[..|s|] == s;
    forall i | 0 <= i < |s| && s[i].Some?
      ensures s[i].value in Somes(s)
    {
      var idx := SomeIndices(s, |s|);
      var k :| 0 <= k < |idx| && idx[k] == i;
    }
  }

  /** Number of `Some` elements. */
  function CountSome<T>(s: seq<Option<T>>): (n: nat)
    ensures n == |Somes(s)|
  {
    if s == [] then 0 else CountSome(s[..|s| - 1]) + if s[|s| - 1].Some? then 1 else 0
  }
  /** `sum(s)` */
  function Sum(s: seq<nat>): nat {
    if s == [] then 0 else Sum(s[..|s| - 1]) + s[|s| - 1]
  }

  /** `max(s)` of a non-empty list. */
  function MaxOf(s: seq<nat>): (m: nat)
    requires s != []
    ensures m in s && forall i | 0 <= i < |s| :: s[i] <= m
  {
    if |s| == 1 then s[0]
    else
      var m := MaxOf(s[..|s| - 1]);
      if s[|s| - 1] > m then s[|s| - 1] else m
  }

  /** `min(s)` of a non-empty list. */
  function MinOf(s: seq<nat>): (m: nat)
    requires s != []
    ensures m in s && forall i | 0 <= i < |s| :: m <= s[i]
  {
    if |s| == 1 then s[0]
    else
      var m := MinOf(s[..|s| - 1]);
      if s[|s| - 1] < m then s[|s| - 1] else m
  }

  /** A sum of `n` values between `lo` and `hi` lies between `n * lo` and `n * hi`. */
  lemma {:induction false} SumBounds(s: seq<nat>, lo: nat, hi: nat)
    requires forall i | 0 <= i < |s| :: lo <= s[i] <= hi
    ensures |s| * lo <= Sum(s) <= |s| * hi
  {
    if s != [] {
      var init := s[..|s| - 1];
      var last := s[|s| - 1];
      assert Sum(s) == Sum(init) + last;
      assert lo <= last <= hi;
      assert forall i | 0 <= i < |init| :: init[i] == s[i];
      SumBounds(init, lo, hi);
      MulSucc(|init|, lo);
      MulSucc(|init|, hi);
    }
  }

  lemma SplitAt<T>(s: seq<T>, n: nat)
    requires n <= |s|
    ensures s[..n] + s[n..] == s
  {
  }

  /** A slice of `a + b` that lies inside `a`. */
  lemma SliceLeft<T>(a: seq<T>, b: seq<T>, lo: nat, hi: nat)
    requires lo <= hi <= |a|
    ensures (a + b)[lo..hi] == a[lo..hi]
  {
    assert forall k | 0 <= k < hi - lo :: (a + b)[lo..hi][k] == a[lo + k];
  }

  /** A slice of `a + b` that lies inside `b`. */
  lemma SliceRight<T>(a: seq<T>, b: seq<T>, lo: nat, hi: nat)
    requires |a| <= lo <= hi <= |a| + |b|
    ensures (a + b)[lo..hi] == b[lo - |a|..hi - |a|]
  {
    assert forall k | 0 <= k < hi - lo :: (a + b)[lo..hi][k] == b[lo - |a| + k];
  }

  lemma MulSucc(n: nat, x: nat)
    ensures (n + 1) * x == n * x + x
  {
  }

  /** The state after feeding `xs`, one element at a time, to `step`. */
  function FoldL<S, T>(step: (S, T) -> S, init: S, xs: seq<T>): S {
    if xs == [] then init else step(FoldL(step, init, xs[..|xs| - 1]), xs[|xs| - 1])
  }

  /** Feeding `a + b` is feeding `a`, then `b`. */
  lemma {:induction false} FoldLAppend<S, T>(step: (S, T) -> S, init: S, a: seq<T>, b: seq<T>)
    ensures FoldL(step, init, a + b) == FoldL(step, FoldL(step, init, a), b)
  {
    if b == [] {
      assert a + b == a;
    } else {
      var b0 := b[..|b| - 1];
      FoldLAppend(step, init, a, b0);
      assert (a + b)[..|a + b| - 1] == a + b0;
    }
  }

  /** A state every step keeps is kept by the whole fold. */
  lemma {:induction false} FoldLInvariant<S, T>(step: (S, T) -> S, inv: S -> bool, init: S, xs: seq<T>)
    requires inv(init)
    requires forall st, x :: inv(st) ==> inv(step(st, x))
    ensures inv(FoldL(step, init, xs))
  {
    if xs != [] {
      FoldLInvariant(step, inv, init, xs[..|xs| - 1]);
    }
  }

  /** Elements that leave the state unchanged leave the fold unchanged. */
  lemma {:induction false} FoldLIdle<S, T>(step: (S, T) -> S, st: S, xs: seq<T>)
    requires forall k | 0 <= k < |xs| :: step(st, xs[k]) == st
    ensures FoldL(step, st, xs) == st
  {
    if xs != [] {
      FoldLIdle(step, st, xs[..|xs| - 1]);
    }
  }

  /** One more element of a prefix is one more step. */
  lemma FoldLStep<S, T>(step: (S, T) -> S, init: S, xs: seq<T>, i: nat)
    requires i < |xs|
    ensures FoldL(step, init, xs[..i + 1]) == step(FoldL(step, init, xs[..i]), xs[i])
  {
    assert xs[..i + 1][..i] == xs[..i];
  }

  /** Three consecutive slices make up the whole. */
  lemma ThreeSlices<T>(s: seq<T>, n: nat)
    requires 2 * n <= |s|
    ensures s[..n] + s[n..2 * n] + s[2 * n..] == s
  {
  }

  /** The image of one element satisfying `p` is among the mapped survivors. */
  lemma {:induction false} MapFilterMember<A, B>(s: seq<A>, p: A -> bool, f: A -> B, r: seq<B>, j: nat)
    requires r == Map(Filter(s, p), f)
    requires j < |s| && p(s[j])
    ensures f(s[j]) in r
  {
    var kept := Filter(s, p);
    assert s[j] in kept;
    var i :| 0 <= i < |kept| && kept[i] == s[j];
    assert r[i] == f(kept[i]);
  }

  /** Every element satisfying `p` has its image among the mapped survivors. */
  lemma {:induction false} MapFilterComplete<A, B>(s: seq<A>, p: A -> bool, f: A -> B, r: seq<B>)
    requires r == Map(Filter(s, p), f)
    ensures forall j | 0 <= j < |s| && p(s[j]) :: f(s[j]) in r
  {
    forall j | 0 <= j < |s| && p(s[j])
      ensures f(s[j]) in r
    {
      MapFilterMember(s, p, f, r, j);
    }
  }
}
