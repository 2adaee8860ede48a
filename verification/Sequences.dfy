/** Sums over sequences, and why they do not depend on the order of the elements. */
module Sequences {

  ghost function Sum<T>(s: seq<T>, m: T -> int): int {
    if s == [] then 0 else m(s[0]) + Sum(s[1..], m)
  }

  lemma {:induction false} SumConcat<T>(a: seq<T>, b: seq<T>, m: T -> int)
    ensures Sum(a + b, m) == Sum(a, m) + Sum(b, m)
  {
    if a == [] {
      assert a + b == b;
    } else {
      SumConcat(a[1..], b, m);
      assert (a + b)[1..] == a[1..] + b;
    }
  }

  lemma SumOfOne<T>(x: T, m: T -> int)
    ensures Sum([x], m) == m(x)
  {
  }

  function Without<T>(s: seq<T>, i: nat): seq<T>
    requires i < |s|
  {
    s[..i] + s[i + 1..]
  }

  lemma WithoutMultiset<T>(s: seq<T>, i: nat)
    requires i < |s|
    ensures multiset(s) == multiset(Without(s, i)) + multiset{s[i]}
  {
    assert s == s[..i] + [s[i]] + s[i + 1..];
  }

  /** Sequences with the same elements still have the same elements without one of them. */
  lemma WithoutSame<T>(a: seq<T>, i: nat, b: seq<T>, j: nat)
    requires i < |a| && j < |b| && a[i] == b[j] && multiset(a) == multiset(b)
    ensures multiset(Without(a, i)) == multiset(Without(b, j))
  {
    WithoutMultiset(a, i);
    WithoutMultiset(b, j);
    var m, n, x := multiset(Without(a, i)), multiset(Without(b, j)), multiset{a[i]};
    assert m == (m + x) - x == (n + x) - x == n;
  }

  lemma {:induction false} SumPermutation<T>(a: seq<T>, b: seq<T>, m: T -> int)
    requires multiset(a) == multiset(b)
    ensures Sum(a, m) == Sum(b, m)
  {
    if a == [] {
      assert |multiset(b)| == 0;
    } else {
      assert a[0] in multiset(b);
      var i :| 0 <= i < |b| && b[i] == a[0];
      WithoutSame(a, 0, b, i);
      assert Without(a, 0) == a[1..];
      SumPermutation(a[1..], Without(b, i), m);
      SumConcat(b[..i], [b[i]] + b[i + 1..], m);
      SumConcat(b[..i], b[i + 1..], m);
      assert b == b[..i] + ([b[i]] + b[i + 1..]);
    }
  }

  lemma Assoc<T>(a: seq<T>, b: seq<T>, c: seq<T>)
    ensures a + (b + c) == a + b + c
  {
  }

  lemma HeadTail<T>(s: seq<T>)
    requires s != []
    ensures s == [s[0]] + s[1..]
  {
  }

  /** The texts of the elements, one after the other. */
  ghost function Flat<T, U>(s: seq<T>, f: T -> seq<U>): seq<U> {
    if s == [] then [] else f(s[0]) + Flat(s[1..], f)
  }

  lemma {:induction false} FlatConcat<T, U>(a: seq<T>, b: seq<T>, f: T -> seq<U>)
    ensures Flat(a + b, f) == Flat(a, f) + Flat(b, f)
  {
    hide Flat;
    FlatStart(a, f);
    FlatStart(a + b, f);
    if a == [] {
      assert a + b == b && [] + Flat(b, f) == Flat(b, f);
    } else {
      FlatConcat(a[1..], b, f);
      assert (a + b)[1..] == a[1..] + b;
      Assoc(f(a[0]), Flat(a[1..], f), Flat(b, f));
    }
  }

  lemma FlatStart<T, U>(s: seq<T>, f: T -> seq<U>)
    ensures Flat(s, f) == if s == [] then [] else f(s[0]) + Flat(s[1..], f)
  {
  }

  lemma FlatOne<T, U>(x: T, f: T -> seq<U>)
    ensures Flat([x], f) == f(x)
  {
  }

  lemma OneMore(x: int, n: int)
    ensures x * (n + 1) == x * n + x && (n + 1) * x == n * x + x
  {
  }
}
