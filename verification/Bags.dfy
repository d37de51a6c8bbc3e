/** Collecting what the elements of a sequence contribute. */
module Bags {
  function Bag<T, E(==)>(xs: seq<T>, f: T -> multiset<E>): multiset<E> {
    if xs == [] then multiset{} else Bag(xs[..|xs| - 1], f) + f(xs[|xs| - 1])
  }

  lemma BagAppend<T, E>(xs: seq<T>, x: T, f: T -> multiset<E>)
    ensures Bag(xs + [x], f) == Bag(xs, f) + f(x)
  {
    assert (xs + [x])[..|xs|] == xs;
  }

  lemma {:induction false} BagUpdate<T, E>(xs: seq<T>, i: nat, x: T, f: T -> multiset<E>)
    requires i < |xs|
    ensures Bag(xs[i := x], f) + f(xs[i]) == Bag(xs, f) + f(x)
    decreases |xs|
  {
    var n := |xs| - 1;
    if i == n {
      assert xs[i := x][..n] == xs[..n];
    } else {
      BagUpdate(xs[..n], i, x, f);
      assert xs[i := x][..n] == xs[..n][i := x];
      Exchange(Bag(xs[..n][i := x], f), f(xs[i]), Bag(xs[..n], f), f(x), f(xs[n]));
    }
  }

  lemma Exchange<E>(a: multiset<E>, b: multiset<E>, c: multiset<E>, d: multiset<E>, e: multiset<E>)
    requires a + b == c + d
    ensures (a + e) + b == (c + e) + d
  {
    assert (a + e) + b == (a + b) + e;
    assert (c + e) + d == (c + d) + e;
  }

  lemma {:induction false} BagEmpty<T, E>(xs: seq<T>, f: T -> multiset<E>)
    requires forall i :: 0 <= i < |xs| ==> f(xs[i]) == multiset{}
    ensures Bag(xs, f) == multiset{}
    decreases |xs|
  {
    if xs != [] { BagEmpty(xs[..|xs| - 1], f); }
  }

  lemma {:induction false} BagConcat<T, E>(xs: seq<T>, ys: seq<T>, f: T -> multiset<E>)
    ensures Bag(xs + ys, f) == Bag(xs, f) + Bag(ys, f)
  {
    if ys == [] {
      assert xs + ys == xs;
    } else {
      var n := |ys| - 1;
      BagConcat(xs, ys[..n], f);
      assert xs + ys == (xs + ys[..n]) + [ys[n]];
      BagAppend(xs + ys[..n], ys[n], f);
    }
  }

  lemma Balance<E>(pending: multiset<E>, finished: multiset<E>, pending': multiset<E>, ended: multiset<E>,
                   before: multiset<E>, after: multiset<E>, gain: multiset<E>)
    requires pending' + before == pending + after && after + ended == before + gain
    ensures (finished + ended) + pending' == (finished + pending) + gain
  {
    forall e: E ensures ((finished + ended) + pending')[e] == ((finished + pending) + gain)[e] {
      assert (pending' + before)[e] == (pending + after)[e] && (after + ended)[e] == (before + gain)[e];
    }
  }
}
