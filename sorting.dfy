/** The two library calls makeQuiz relies on. Collections.sort is a stable sort, here an
    insertion sort on (key, value) pairs that keeps equal keys in their first order.
    Collections.shuffle walks the list from the back and swaps each position with a randomly
    drawn one at or before it; the random numbers are a parameter. */
module Sorting {

  /** Ascending by key. */
  predicate SortedByKey<T>(xs: seq<(real, T)>) {
    forall i, j :: 0 <= i < j < |xs| ==> xs[i].0 <= xs[j].0
  }

  /** x placed after every entry whose key is not above its own. */
  function InsertByKey<T>(x: (real, T), ys: seq<(real, T)>): (r: seq<(real, T)>)
    ensures |r| == |ys| + 1
  {
    if ys == [] then [x]
    else if x.0 < ys[0].0 then [x] + ys
    else [ys[0]] + InsertByKey(x, ys[1..])
  }

  function SortByKey<T>(xs: seq<(real, T)>): (r: seq<(real, T)>)
    ensures |r| == |xs|
  {
    if xs == [] then [] else InsertByKey(xs[|xs| - 1], SortByKey(xs[..|xs| - 1]))
  }

  /** The entries with key k, in order. */
  function WithKey<T>(xs: seq<(real, T)>, k: real): seq<(real, T)> {
    if xs == [] then [] else WithKey(xs[..|xs| - 1], k) + (if xs[|xs| - 1].0 == k then [xs[|xs| - 1]] else [])
  }

  lemma {:induction false} WithKeyCons<T>(x: (real, T), ys: seq<(real, T)>, k: real)
    ensures WithKey([x] + ys, k) == (if x.0 == k then [x] else []) + WithKey(ys, k)
    decreases |ys|
  {
    if ys == [] {
      assert ([x] + ys)[..0] == [];
    } else {
      var n := |ys| - 1;
      assert ([x] + ys)[..n + 1] == [x] + ys[..n];
      WithKeyCons(x, ys[..n], k);
    }
  }

  lemma {:induction false} WithKeyAppend<T>(xs: seq<(real, T)>, ys: seq<(real, T)>, k: real)
    ensures WithKey(xs + ys, k) == WithKey(xs, k) + WithKey(ys, k)
    decreases |ys|
  {
    if ys == [] {
      assert xs + ys == xs;
    } else {
      var n := |ys| - 1;
      assert (xs + ys)[..|xs| + n] == xs + ys[..n];
      WithKeyAppend(xs, ys[..n], k);
    }
  }

  lemma {:induction false} InsertPermutes<T>(x: (real, T), ys: seq<(real, T)>)
    ensures multiset(InsertByKey(x, ys)) == multiset(ys) + multiset{x}
    decreases |ys|
  {
    if ys != [] && x.0 >= ys[0].0 {
      InsertPermutes(x, ys[1..]);
      assert ys == [ys[0]] + ys[1..];
    }
  }

  lemma InsertFirst<T>(x: (real, T), ys: seq<(real, T)>)
    ensures InsertByKey(x, ys)[0] == x || (|ys| > 0 && InsertByKey(x, ys)[0] == ys[0])
  {
  }

  lemma {:induction false} InsertSorted<T>(x: (real, T), ys: seq<(real, T)>)
    requires SortedByKey(ys)
    ensures SortedByKey(InsertByKey(x, ys))
    decreases |ys|
  {
    if ys != [] && x.0 >= ys[0].0 {
      var t := ys[1..];
      InsertSorted(x, t);
      InsertFirst(x, t);
      var r := InsertByKey(x, t);
      assert ys[0].0 <= r[0].0 by {
        if r[0] != x {
          assert r[0] == ys[1];
        }
      }
      forall i, j | 0 <= i < j < |r| + 1
        ensures ([ys[0]] + r)[i].0 <= ([ys[0]] + r)[j].0
      {
        if i == 0 && j > 1 {
          assert r[0].0 <= r[j - 1].0;
        }
      }
      assert InsertByKey(x, ys) == [ys[0]] + r;
    } else if ys != [] {
      assert InsertByKey(x, ys) == [x] + ys;
    }
  }

  /** Insertion keeps the entries with any other key, and puts x last among those with its key. */
  lemma {:induction false} InsertStable<T>(x: (real, T), ys: seq<(real, T)>, k: real)
    requires SortedByKey(ys)
    ensures WithKey(InsertByKey(x, ys), k) == WithKey(ys, k) + (if x.0 == k then [x] else [])
    decreases |ys|
  {
    var tail := if x.0 == k then [x] else [];
    if ys == [] {
      assert InsertByKey(x, ys) == [x];
      assert [x][..0] == [];
    } else if x.0 < ys[0].0 {
      InsertStableFront(x, ys, k);
    } else {
      var t := ys[1..];
      var head := if ys[0].0 == k then [ys[0]] else [];
      assert ys == [ys[0]] + t;
      InsertStable(x, t, k);
      assert InsertByKey(x, ys) == [ys[0]] + InsertByKey(x, t);
      WithKeyCons(ys[0], InsertByKey(x, t), k);
      WithKeyCons(ys[0], t, k);
      assert WithKey(InsertByKey(x, ys), k) == head + (WithKey(t, k) + tail);
      assert WithKey(ys, k) == head + WithKey(t, k);
    }
  }

  lemma InsertStableFront<T>(x: (real, T), ys: seq<(real, T)>, k: real)
    requires SortedByKey(ys) && ys != [] && x.0 < ys[0].0
    ensures WithKey(InsertByKey(x, ys), k) == WithKey(ys, k) + (if x.0 == k then [x] else [])
  {
    assert InsertByKey(x, ys) == [x] + ys;
    WithKeyCons(x, ys, k);
    if x.0 == k {
      // No entry of ys has key k: they all lie above x's key.
      NoneWithKey(ys, k);
    }
  }

  lemma {:induction false} NoneWithKey<T>(ys: seq<(real, T)>, k: real)
    requires SortedByKey(ys) && ys != [] && k < ys[0].0
    ensures WithKey(ys, k) == []
    decreases |ys|
  {
    var n := |ys| - 1;
    if n > 0 {
      NoneWithKey(ys[..n], k);
    }
    assert ys[n].0 >= ys[0].0;
  }

  /** The sort orders by key, keeps every entry, and keeps entries with equal keys in their
      first order. */
  lemma {:induction false} SortByKeyCorrect<T>(xs: seq<(real, T)>)
    ensures SortedByKey(SortByKey(xs))
    ensures multiset(SortByKey(xs)) == multiset(xs)
    ensures forall k :: WithKey(SortByKey(xs), k) == WithKey(xs, k)
  {
    if xs != [] {
      var n := |xs| - 1;
      SortByKeyCorrect(xs[..n]);
      InsertSorted(xs[n], SortByKey(xs[..n]));
      InsertPermutes(xs[n], SortByKey(xs[..n]));
      assert xs == xs[..n] + [xs[n]];
      forall k
        ensures WithKey(SortByKey(xs), k) == WithKey(xs, k)
      {
        InsertStable(xs[n], SortByKey(xs[..n]), k);
      }
    }
  }

  /** The values of the pairs, keys dropped. */
  function Seconds<T>(ps: seq<(real, T)>): (vs: seq<T>)
    ensures |vs| == |ps|
  {
    seq(|ps|, i requires 0 <= i < |ps| => ps[i].1)
  }

  lemma {:induction false} InsertSeconds<T>(x: (real, T), ys: seq<(real, T)>)
    ensures multiset(Seconds(InsertByKey(x, ys))) == multiset(Seconds(ys)) + multiset{x.1}
    decreases |ys|
  {
    if ys == [] {
      assert Seconds(InsertByKey(x, ys)) == [x.1];
    } else if x.0 < ys[0].0 {
      assert Seconds(InsertByKey(x, ys)) == [x.1] + Seconds(ys);
    } else {
      InsertSeconds(x, ys[1..]);
      assert Seconds(InsertByKey(x, ys)) == [ys[0].1] + Seconds(InsertByKey(x, ys[1..]));
      assert Seconds(ys) == [ys[0].1] + Seconds(ys[1..]);
    }
  }

  /** Sorting the pairs only reorders their values. */
  lemma {:induction false} SortSeconds<T>(xs: seq<(real, T)>)
    ensures multiset(Seconds(SortByKey(xs))) == multiset(Seconds(xs))
  {
    if xs != [] {
      var n := |xs| - 1;
      SortSeconds(xs[..n]);
      InsertSeconds(xs[n], SortByKey(xs[..n]));
      assert Seconds(xs) == Seconds(xs[..n]) + [xs[n].1];
    }
  }

  /** Swap of two positions. */
  function Swap<T>(xs: seq<T>, i: nat, j: nat): (r: seq<T>)
    requires i < |xs| && j < |xs|
    ensures |r| == |xs|
  {
    xs[i := xs[j]][j := xs[i]]
  }

  /** The random draw at step k, below bound: Random.nextInt(bound). With no draw left the
      position is left where it is. */
  function Draw(draws: seq<nat>, k: nat, bound: nat): (d: nat)
    requires bound > 0
    ensures d < bound
  {
    if k < |draws| then draws[k] % bound else bound - 1
  }

  /** Collections.shuffle from position i down to 2. */
  function ShuffleDown<T>(xs: seq<T>, i: nat, draws: seq<nat>): (r: seq<T>)
    requires i <= |xs|
    ensures |r| == |xs|
    decreases i
  {
    if i <= 1 then xs
    else ShuffleDown(Swap(xs, i - 1, Draw(draws, |xs| - i, i)), i - 1, draws)
  }

  function Shuffle<T>(xs: seq<T>, draws: seq<nat>): (r: seq<T>)
    ensures |r| == |xs|
  {
    ShuffleDown(xs, |xs|, draws)
  }

  lemma SwapPermutes<T>(xs: seq<T>, i: nat, j: nat)
    requires i < |xs| && j < |xs|
    ensures multiset(Swap(xs, i, j)) == multiset(xs)
  {
    var y := xs[i := xs[j]];
    assert multiset(y) == multiset(xs) - multiset{xs[i]} + multiset{xs[j]};
    assert y[j] == (if i == j then xs[i] else xs[j]);
  }

  lemma {:induction false} ShuffleDownPermutes<T>(xs: seq<T>, i: nat, draws: seq<nat>)
    requires i <= |xs|
    ensures multiset(ShuffleDown(xs, i, draws)) == multiset(xs)
    decreases i
  {
    if i > 1 {
      SwapPermutes(xs, i - 1, Draw(draws, |xs| - i, i));
      ShuffleDownPermutes(Swap(xs, i - 1, Draw(draws, |xs| - i, i)), i - 1, draws);
    }
  }

  /** Whatever the draws, shuffling only reorders. */
  lemma ShufflePermutes<T>(xs: seq<T>, draws: seq<nat>)
    ensures multiset(Shuffle(xs, draws)) == multiset(xs)
  {
    ShuffleDownPermutes(xs, |xs|, draws);
  }
}
