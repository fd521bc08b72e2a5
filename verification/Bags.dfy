/** Optional values and counting over finite bags, shared by every tally in the model. */
module Bags {

  datatype Option<+T> = None | Some(value: T)

  /** How many elements of `m` satisfy `p`, counted with multiplicity. */
  ghost function CountIf<T(!new)>(m: multiset<T>, p: T -> bool): nat
    decreases |m|
  {
    if m == multiset{} then 0
    else
      var x :| x in m;
      (if p(x) then 1 else 0) + CountIf(m - multiset{x}, p)
  }

  lemma {:induction false} CountIfRemove<T(!new)>(m: multiset<T>, p: T -> bool, x: T)
    requires x in m
    ensures CountIf(m, p) == (if p(x) then 1 else 0) + CountIf(m - multiset{x}, p)
    decreases |m|
  {
    var y :| y in m && CountIf(m, p) == (if p(y) then 1 else 0) + CountIf(m - multiset{y}, p);
    if y != x {
      var my, mx := m - multiset{y}, m - multiset{x};
      assert my - multiset{x} == mx - multiset{y};
      CountIfRemove(my, p, x);
      CountIfRemove(mx, p, y);
    }
  }

  lemma {:induction false} CountIfPlus<T(!new)>(a: multiset<T>, b: multiset<T>, p: T -> bool)
    ensures CountIf(a + b, p) == CountIf(a, p) + CountIf(b, p)
    decreases |b|
  {
    if b == multiset{} {
      assert a + b == a;
    } else {
      var x :| x in b;
      var rest := b - multiset{x};
      assert (a + b) - multiset{x} == a + rest;
      CountIfRemove(a + b, p, x);
      CountIfRemove(b, p, x);
      CountIfPlus(a, rest, p);
    }
  }

  /** `n` copies of `x`. */
  function Copies<T(==)>(x: T, n: nat): (m: multiset<T>)
    ensures m[x] == n && |m| == n
    ensures forall y :: y in m ==> y == x
  {
    multiset{}[x := n]
  }

  lemma {:induction false} CountIfCopies<T(!new)>(x: T, n: nat, p: T -> bool)
    ensures CountIf(Copies(x, n), p) == if p(x) then n else 0
  {
    if n == 0 {
      assert Copies(x, n) == multiset{};
    } else {
      assert x in Copies(x, n);
      assert Copies(x, n) - multiset{x} == Copies(x, n - 1);
      CountIfRemove(Copies(x, n), p, x);
      CountIfCopies(x, n - 1, p);
    }
  }

  lemma CopiesOne<T>(x: T)
    ensures Copies(x, 1) == multiset{x}
  {}

  lemma {:induction false} CountIfNone<T(!new)>(m: multiset<T>, p: T -> bool)
    requires forall x :: x in m ==> !p(x)
    ensures CountIf(m, p) == 0
    decreases |m|
  {
    if m != multiset{} {
      var x :| x in m;
      CountIfRemove(m, p, x);
      CountIfNone(m - multiset{x}, p);
    }
  }

  lemma {:induction false} CountIfBound<T(!new)>(m: multiset<T>, p: T -> bool)
    ensures CountIf(m, p) <= |m|
    decreases |m|
  {
    if m != multiset{} {
      var x :| x in m;
      CountIfRemove(m, p, x);
      CountIfBound(m - multiset{x}, p);
    }
  }

  /** Predicates that agree on a bag count it alike. */
  lemma {:induction false} CountIfSame<T(!new)>(m: multiset<T>, p: T -> bool, q: T -> bool)
    requires forall x :: x in m ==> p(x) == q(x)
    ensures CountIf(m, p) == CountIf(m, q)
    decreases |m|
  {
    if m != multiset{} {
      var x :| x in m;
      CountIfRemove(m, p, x);
      CountIfRemove(m, q, x);
      CountIfSame(m - multiset{x}, p, q);
    }
  }

  /** A weaker predicate counts more as soon as one element tells them apart. */
  lemma CountIfLess<T(!new)>(m: multiset<T>, p: T -> bool, q: T -> bool, x: T)
    requires x in m && !p(x) && q(x) && forall y :: y in m && p(y) ==> q(y)
    ensures CountIf(m, p) < CountIf(m, q)
  {
    CountIfRemove(m, p, x);
    CountIfRemove(m, q, x);
    CountIfAtMost(m - multiset{x}, p, q);
  }

  lemma {:induction false} CountIfAtMost<T(!new)>(m: multiset<T>, p: T -> bool, q: T -> bool)
    requires forall y :: y in m && p(y) ==> q(y)
    ensures CountIf(m, p) <= CountIf(m, q)
    decreases |m|
  {
    if m != multiset{} {
      var x :| x in m;
      CountIfRemove(m, p, x);
      CountIfRemove(m, q, x);
      CountIfAtMost(m - multiset{x}, p, q);
    }
  }

  /** The sum of the numbers under these keys. */
  ghost function SumOf<K>(m: map<K, nat>, ks: set<K>): nat
    requires ks <= m.Keys
  {
    if ks == {} then 0 else var k :| k in ks; m[k] + SumOf(m, ks - {k})
  }

  lemma {:induction false} SumOfRemove<K>(m: map<K, nat>, ks: set<K>, k: K)
    requires ks <= m.Keys && k in ks
    ensures SumOf(m, ks) == m[k] + SumOf(m, ks - {k})
    decreases ks
  {
    var y :| y in ks && SumOf(m, ks) == m[y] + SumOf(m, ks - {y});
    if y != k {
      assert ks - {y} - {k} == ks - {k} - {y};
      SumOfRemove(m, ks - {y}, k);
      SumOfRemove(m, ks - {k}, y);
    }
  }

  lemma {:induction false} SumOfSame<K>(m: map<K, nat>, m': map<K, nat>, ks: set<K>)
    requires ks <= m.Keys && ks <= m'.Keys && forall k :: k in ks ==> m[k] == m'[k]
    ensures SumOf(m, ks) == SumOf(m', ks)
    decreases ks
  {
    if ks != {} {
      var k :| k in ks;
      SumOfRemove(m, ks, k);
      SumOfRemove(m', ks, k);
      SumOfSame(m, m', ks - {k});
    }
  }

  ghost function SumAll(ns: seq<nat>): nat
  {
    if ns == [] then 0 else SumAll(ns[..|ns| - 1]) + ns[|ns| - 1]
  }
}
