/** Python's list comprehension with a condition, `[x for x in xs if f(x)]`,
    and facts about it. */
module Seqs {

  function Filter<T>(xs: seq<T>, f: T -> bool): (ys: seq<T>)
    ensures |ys| <= |xs|
    ensures forall y :: y in ys ==> y in xs && f(y)
  {
    if xs == [] then [] else (if f(xs[0]) then [xs[0]] else []) + Filter(xs[1..], f)
  }

  /** `a` is `b` with some elements left out, order kept. */
  predicate IsSubsequence<T(==)>(a: seq<T>, b: seq<T>)
    decreases |b|
  {
    if a == [] then true
    else if b == [] then false
    else if a[0] == b[0] then IsSubsequence(a[1..], b[1..])
    else IsSubsequence(a, b[1..])
  }

  lemma {:induction false} FilterMembership<T>(xs: seq<T>, f: T -> bool, x: T)
    ensures x in Filter(xs, f) <==> x in xs && f(x)
  {
    if xs != [] {
      FilterMembership(xs[1..], f, x);
      assert xs == [xs[0]] + xs[1..];
    }
  }

  /** What the comprehension keeps comes out in the order of the input. */
  lemma {:induction false} FilterIsSubsequence<T>(xs: seq<T>, f: T -> bool)
    ensures IsSubsequence(Filter(xs, f), xs)
  {
    if xs != [] {
      FilterIsSubsequence(xs[1..], f);
      if f(xs[0]) {
        assert ([xs[0]] + Filter(xs[1..], f))[1..] == Filter(xs[1..], f);
      } else {
        assert Filter(xs, f) == Filter(xs[1..], f);
        SubsequenceOfTail(Filter(xs[1..], f), xs);
      }
    }
  }

  lemma {:induction false} SubsequenceOfTail<T>(a: seq<T>, b: seq<T>)
    requires b != [] && IsSubsequence(a, b[1..])
    ensures IsSubsequence(a, b)
    decreases |b|, 0
  {
    if a != [] && a[0] == b[0] {
      SubsequenceDropHead(a, b[1..]);
    }
  }

  lemma {:induction false} SubsequenceDropHead<T>(a: seq<T>, b: seq<T>)
    requires a != [] && IsSubsequence(a, b)
    ensures IsSubsequence(a[1..], b)
    decreases |b|, 1
  {
    if a[0] == b[0] {
      if a[1..] != [] {
        SubsequenceDropHead(a[1..], b[1..]);
        SubsequenceOfTail(a[1..], b);
      }
    } else {
      SubsequenceDropHead(a, b[1..]);
      if a[1..] != [] {
        SubsequenceOfTail(a[1..], b);
      }
    }
  }

  /** The comprehension keeps every occurrence of a kept element and none of
      the others. */
  lemma {:induction false} FilterCount<T>(xs: seq<T>, f: T -> bool, x: T)
    ensures multiset(Filter(xs, f))[x] == if f(x) then multiset(xs)[x] else 0
  {
    if xs != [] {
      FilterCount(xs[1..], f, x);
      assert xs == [xs[0]] + xs[1..];
      assert multiset(xs) == multiset([xs[0]]) + multiset(xs[1..]);
      assert Filter(xs, f) == (if f(xs[0]) then [xs[0]] else []) + Filter(xs[1..], f);
    }
  }

  lemma {:induction false} FilterAll<T>(xs: seq<T>, f: T -> bool)
    requires forall x :: x in xs ==> f(x)
    ensures Filter(xs, f) == xs
  {
    if xs != [] {
      FilterAll(xs[1..], f);
      assert [xs[0]] + xs[1..] == xs;
    }
  }

  lemma {:induction false} FilterEmptyIff<T>(xs: seq<T>, f: T -> bool)
    ensures Filter(xs, f) == [] <==> forall x :: x in xs ==> !f(x)
  {
    if xs != [] {
      FilterEmptyIff(xs[1..], f);
      assert xs == [xs[0]] + xs[1..];
    }
  }

  lemma {:induction false} FilterAppend<T>(a: seq<T>, b: seq<T>, f: T -> bool)
    ensures Filter(a + b, f) == Filter(a, f) + Filter(b, f)
  {
    if a == [] {
      assert a + b == b;
    } else {
      assert (a + b)[1..] == a[1..] + b;
      FilterAppend(a[1..], b, f);
    }
  }

  /** `set(xs)`. */
  function Elements<T>(xs: seq<T>): set<T> {
    set x | x in xs
  }

  /** A sequence has at least as many entries as distinct elements, and
      exactly as many when no element repeats. */
  lemma {:induction false} ElementsSize<T>(xs: seq<T>)
    ensures |Elements(xs)| <= |xs|
    ensures |Elements(xs)| == |xs| <==> NoDuplicates(xs)
  {
    if xs != [] {
      var t := xs[1..];
      ElementsSize(t);
      assert Elements(xs) == Elements(t) + {xs[0]};
      if xs[0] in t {
        assert Elements(xs) == Elements(t);
        var k :| 0 <= k < |t| && t[k] == xs[0];
        assert xs[0] == xs[k + 1];
      } else {
        assert NoDuplicates(xs) <==> NoDuplicates(t) by {
          if NoDuplicates(t) {
            forall i, j | 0 <= i < j < |xs| ensures xs[i] != xs[j] {
              if i == 0 { assert xs[j] == t[j - 1]; } else { assert xs[i] == t[i - 1]; }
            }
          }
          if NoDuplicates(xs) {
            forall i, j | 0 <= i < j < |t| ensures t[i] != t[j] {
              assert t[i] == xs[i + 1] && t[j] == xs[j + 1];
            }
          }
        }
      }
    }
  }

  predicate NoDuplicates<T(==)>(xs: seq<T>) {
    forall i, j :: 0 <= i < j < |xs| ==> xs[i] != xs[j]
  }
}
