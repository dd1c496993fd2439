/** Python's stable `sorted(xs, key=key, reverse=True)` (and `list.sort` with
    the same arguments), as an insertion sort, with what the language
    guarantees about it: the output is ordered by key, it is a permutation
    of the input, and entries with equal keys keep their input order. */
module Sorting {

  predicate Descending<T>(xs: seq<T>, key: T -> real) {
    forall i, j :: 0 <= i < j < |xs| ==> key(xs[i]) >= key(xs[j])
  }

  /** Puts `x` in front of the first entry whose key is not strictly
      larger, so that it stays ahead of the entries it came before. */
  function Insert<T>(x: T, xs: seq<T>, key: T -> real): (out: seq<T>)
    ensures |out| == |xs| + 1
    ensures multiset(out) == multiset(xs) + multiset{x}
  {
    if xs == [] || key(xs[0]) <= key(x) then [x] + xs
    else
      var rest := Insert(x, xs[1..], key);
      assert xs == [xs[0]] + xs[1..];
      [xs[0]] + rest
  }

  function SortDescending<T>(xs: seq<T>, key: T -> real): (out: seq<T>)
    ensures |out| == |xs|
    ensures multiset(out) == multiset(xs)
  {
    if xs == [] then []
    else
      assert xs == [xs[0]] + xs[1..];
      Insert(xs[0], SortDescending(xs[1..], key), key)
  }

  lemma {:induction false} InsertDescending<T>(x: T, xs: seq<T>, key: T -> real)
    requires Descending(xs, key)
    ensures Descending(Insert(x, xs, key), key)
  {
    if xs != [] && key(xs[0]) > key(x) {
      InsertDescending(x, xs[1..], key);
      var rest := Insert(x, xs[1..], key);
      forall j | 0 <= j < |rest| ensures key(xs[0]) >= key(rest[j]) {
        var y := rest[j];
        assert y in multiset(rest);
        if y != x {
          assert y in multiset(xs[1..]);
          var k :| 0 <= k < |xs[1..]| && xs[1..][k] == y;
          assert xs[k + 1] == y;
        }
      }
    }
  }

  /** The sorted sequence never goes up in key. */
  lemma {:induction false} SortDescending_Ordered<T>(xs: seq<T>, key: T -> real)
    ensures Descending(SortDescending(xs, key), key)
  {
    if xs != [] {
      SortDescending_Ordered(xs[1..], key);
      InsertDescending(xs[0], SortDescending(xs[1..], key), key);
    }
  }

  /** The entries whose key is `v`, in order. */
  function WithKey<T>(xs: seq<T>, key: T -> real, v: real): (out: seq<T>)
    ensures forall y :: y in out ==> y in xs && key(y) == v
  {
    if xs == [] then []
    else (if key(xs[0]) == v then [xs[0]] else []) + WithKey(xs[1..], key, v)
  }

  lemma {:induction false} InsertStable<T>(x: T, xs: seq<T>, key: T -> real, v: real)
    ensures WithKey(Insert(x, xs, key), key, v) ==
      if key(x) == v then [x] + WithKey(xs, key, v) else WithKey(xs, key, v)
  {
    if xs == [] || key(xs[0]) <= key(x) {
      assert ([x] + xs)[1..] == xs;
    } else {
      InsertStable(x, xs[1..], key, v);
      assert ([xs[0]] + Insert(x, xs[1..], key))[1..] == Insert(x, xs[1..], key);
    }
  }

  /** Stability: entries with equal keys keep their input order. */
  lemma {:induction false} SortDescending_Stable<T>(xs: seq<T>, key: T -> real, v: real)
    ensures WithKey(SortDescending(xs, key), key, v) == WithKey(xs, key, v)
  {
    if xs != [] {
      SortDescending_Stable(xs[1..], key, v);
      InsertStable(xs[0], SortDescending(xs[1..], key), key, v);
    }
  }

  /** Everything `sorted(xs, key=key, reverse=True)` promises, in one place. */
  lemma SortDescending_Spec<T>(xs: seq<T>, key: T -> real, v: real)
    ensures Descending(SortDescending(xs, key), key)
    ensures multiset(SortDescending(xs, key)) == multiset(xs)
    ensures WithKey(SortDescending(xs, key), key, v) == WithKey(xs, key, v)
  {
    SortDescending_Ordered(xs, key);
    SortDescending_Stable(xs, key, v);
  }
}
