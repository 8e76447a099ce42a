/** `Array.prototype.filter` over sequences, with the facts the list
    handlers of the components rely on: the result keeps exactly the
    elements passing the test, each as often as it occurs, in their order. */
module Sequences {

  /** `r` can be obtained from `s` by deleting elements, keeping the order. */
  predicate SubsequenceOf<T(==)>(r: seq<T>, s: seq<T>) {
    if |r| == 0 then true
    else if |s| == 0 then false
    else if r[0] == s[0] then SubsequenceOf(r[1..], s[1..])
    else SubsequenceOf(r, s[1..])
  }

  /** `xs.filter(p)` */
  function Filter<T(==,!new)>(xs: seq<T>, p: T -> bool): (r: seq<T>)
    ensures |r| <= |xs|
    ensures forall x :: x in r <==> x in xs && p(x)
    ensures SubsequenceOf(r, xs)
    ensures forall x :: multiset(r)[x] == if p(x) then multiset(xs)[x] else 0
  {
    if |xs| == 0 then []
    else
      var rest := Filter(xs[1..], p);
      assert forall x :: x in xs <==> x == xs[0] || x in xs[1..];
      assert |rest| > 0 ==> rest[0] in rest;
      assert xs == [xs[0]] + xs[1..];
      if p(xs[0]) then
        assert ([xs[0]] + rest)[1..] == rest;
        [xs[0]] + rest
      else rest
  }

  /** A test every element passes keeps the whole sequence. */
  lemma {:induction false} FilterKeepsAll<T(!new)>(xs: seq<T>, p: T -> bool)
    requires forall x :: x in xs ==> p(x)
    ensures Filter(xs, p) == xs
  {
    if |xs| > 0 {
      assert xs[0] in xs;
      FilterKeepsAll(xs[1..], p);
      assert xs == [xs[0]] + xs[1..];
    }
  }

  /** Two tests that agree everywhere filter alike. */
  lemma {:induction false} FilterSame<T(!new)>(xs: seq<T>, p: T -> bool, q: T -> bool)
    requires forall x :: p(x) == q(x)
    ensures Filter(xs, p) == Filter(xs, q)
  {
    if |xs| > 0 {
      FilterSame(xs[1..], p, q);
    }
  }

  /** A test and its negation split the sequence: every element lands in
      exactly one of the two results. */
  lemma FilterPartition<T(!new)>(xs: seq<T>, p: T -> bool, q: T -> bool)
    requires forall x :: q(x) == !p(x)
    ensures multiset(Filter(xs, p)) + multiset(Filter(xs, q)) == multiset(xs)
    ensures |Filter(xs, p)| + |Filter(xs, q)| == |xs|
  {
    var kept, dropped := multiset(Filter(xs, p)), multiset(Filter(xs, q));
    forall x
      ensures (kept + dropped)[x] == multiset(xs)[x]
    {
    }
    assert kept + dropped == multiset(xs);
    assert |kept + dropped| == |kept| + |dropped|;
  }

}
