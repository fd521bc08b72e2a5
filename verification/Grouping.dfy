/**
 Group-by tallies: a `map[string]int` that counts the elements of a bag under an encoding of
 each element. Nothing here depends on what the elements or the encoding are.
 */
module Grouping {
  import opened Bags

  type Tally = map<string, int>

  function At(t: Tally, key: string): int
  {
    if key in t then t[key] else 0
  }

  lemma SameTally(l: Tally, r: Tally)
    requires l.Keys == r.Keys && forall key :: At(l, key) == At(r, key)
    ensures l == r
  {
    forall key | key in l ensures l[key] == r[key] {
      assert At(l, key) == At(r, key);
    }
  }

  /** The elements encoded as `key`. */
  function HasKey<T>(enc: T -> string, key: string): T -> bool
  {
    (x: T) => enc(x) == key
  }

  /** The elements whose key satisfies `p`. */
  function KeySatisfies<T>(enc: T -> string, p: string -> bool): T -> bool
  {
    (x: T) => p(enc(x))
  }

  ghost function KeysOf<T(!new)>(bag: multiset<T>, enc: T -> string): set<string>
  {
    set x | x in bag :: enc(x)
  }

  /** `t` after every element of `bag` has been added under its key. */
  ghost function Credit<T(!new)>(t: Tally, bag: multiset<T>, enc: T -> string): Tally
  {
    map key | key in t.Keys + KeysOf(bag, enc) :: At(t, key) + CountIf(bag, HasKey(enc, key))
  }

  lemma CreditAt<T(!new)>(t: Tally, bag: multiset<T>, enc: T -> string, key: string)
    ensures At(Credit(t, bag, enc), key) == At(t, key) + CountIf(bag, HasKey(enc, key))
  {
    if key !in KeysOf(bag, enc) { CountIfNone(bag, HasKey(enc, key)); }
  }

  lemma CreditNothing<T(!new)>(t: Tally, enc: T -> string)
    ensures Credit(t, multiset{}, enc) == t
  {}

  lemma KeysOfPlus<T(!new)>(a: multiset<T>, b: multiset<T>, enc: T -> string)
    ensures KeysOf(a + b, enc) == KeysOf(a, enc) + KeysOf(b, enc)
  {}

  /** Crediting is additive, so neither grouping nor order of the elements matters. */
  lemma CreditPlus<T(!new)>(t: Tally, a: multiset<T>, b: multiset<T>, enc: T -> string)
    ensures Credit(Credit(t, a, enc), b, enc) == Credit(t, a + b, enc)
  {
    var l, r := Credit(Credit(t, a, enc), b, enc), Credit(t, a + b, enc);
    assert l.Keys == r.Keys by { KeysOfPlus(a, b, enc); }
    forall key ensures At(l, key) == At(r, key) {
      CreditAt(t, a, enc, key);
      CreditAt(Credit(t, a, enc), b, enc, key);
      CreditAt(t, a + b, enc, key);
      CountIfPlus(a, b, HasKey(enc, key));
    }
    SameTally(l, r);
  }

  /** The source's `dst[key] += count` credits `count` copies of an element. */
  lemma CreditCopies<T(!new)>(t: Tally, x: T, count: nat, enc: T -> string)
    requires count > 0
    ensures Credit(t, Copies(x, count), enc) == t[enc(x) := At(t, enc(x)) + count]
  {
    var bag := Copies(x, count);
    assert x in bag;
    assert KeysOf(bag, enc) == {enc(x)};
    forall key { CountIfCopies(x, count, HasKey(enc, key)); }
  }

  /** One more element raises its key by one. */
  lemma CreditOneMore<T(!new)>(t: Tally, t': Tally, bag: multiset<T>, bag': multiset<T>, enc: T -> string, x: T)
    requires t' == Credit(t, bag, enc) && bag' == bag + multiset{x}
    ensures Credit(t, bag', enc) == t'[enc(x) := At(t', enc(x)) + 1]
  {
    CopiesOne(x);
    CreditPlus(t, bag, Copies(x, 1), enc);
    CreditCopies(t', x, 1, enc);
  }

  // ---------- Sums over the keys of a tally ----------

  /** Sum of the counts of the keys in `keys` that satisfy `p`. */
  ghost function SumWhere(t: Tally, keys: set<string>, p: string -> bool): int
    requires keys <= t.Keys
  {
    if keys == {} then 0
    else
      var key :| key in keys;
      (if p(key) then t[key] else 0) + SumWhere(t, keys - {key}, p)
  }

  lemma {:induction false} SumWhereRemove(t: Tally, keys: set<string>, p: string -> bool, key: string)
    requires keys <= t.Keys && key in keys
    ensures SumWhere(t, keys, p) == (if p(key) then t[key] else 0) + SumWhere(t, keys - {key}, p)
    decreases keys
  {
    var y :| y in keys && SumWhere(t, keys, p) == (if p(y) then t[y] else 0) + SumWhere(t, keys - {y}, p);
    if y != key {
      SumWhereRemove(t, keys - {y}, p, key);
      SumWhereRemove(t, keys - {key}, p, y);
      assert keys - {y} - {key} == keys - {key} - {y};
    }
  }

  lemma SumWhereAdd(t: Tally, keys: set<string>, p: string -> bool, key: string)
    requires keys <= t.Keys && key in t && key !in keys
    ensures SumWhere(t, keys + {key}, p) == SumWhere(t, keys, p) + if p(key) then t[key] else 0
  {
    SumWhereRemove(t, keys + {key}, p, key);
    assert keys + {key} - {key} == keys;
  }

  lemma {:induction false} SumWhereSame(t: Tally, t': Tally, keys: set<string>, p: string -> bool)
    requires keys <= t.Keys && keys <= t'.Keys
    requires forall key :: key in keys ==> t[key] == t'[key]
    ensures SumWhere(t, keys, p) == SumWhere(t', keys, p)
    decreases keys
  {
    if keys != {} {
      var key :| key in keys;
      SumWhereRemove(t, keys, p, key);
      SumWhereRemove(t', keys, p, key);
      SumWhereSame(t, t', keys - {key}, p);
    }
  }

  ghost function TotalWhere(t: Tally, p: string -> bool): int
  {
    SumWhere(t, t.Keys, p)
  }

  lemma TotalWhereBump(t: Tally, t': Tally, key: string, p: string -> bool)
    requires t' == t[key := At(t, key) + 1]
    ensures TotalWhere(t', p) == TotalWhere(t, p) + if p(key) then 1 else 0
  {
    SumWhereRemove(t', t'.Keys, p, key);
    assert t'.Keys - {key} == t.Keys - {key};
    SumWhereSame(t', t, t.Keys - {key}, p);
    if key in t {
      SumWhereRemove(t, t.Keys, p, key);
    } else {
      assert t.Keys - {key} == t.Keys;
    }
  }

  /** One more element adds one to the total if its key satisfies `p`. */
  lemma GroupedTotalStep<T(!new)>(bag: multiset<T>, bag': multiset<T>, enc: T -> string, p: string -> bool, x: T)
    requires bag' == bag + multiset{x}
    ensures TotalWhere(Credit(map[], bag', enc), p) == TotalWhere(Credit(map[], bag, enc), p) + if p(enc(x)) then 1 else 0
  {
    var t, t' := Credit(map[], bag, enc), Credit(map[], bag', enc);
    CreditOneMore(map[], t, bag, bag', enc, x);
    TotalWhereBump(t, t', enc(x), p);
  }

  /** Grouping by key and summing the groups that satisfy `p` counts each element once, by its own key. */
  lemma {:induction false} GroupedTotal<T(!new)>(bag: multiset<T>, enc: T -> string, p: string -> bool)
    ensures TotalWhere(Credit(map[], bag, enc), p) == CountIf(bag, KeySatisfies(enc, p))
    decreases |bag|
  {
    if bag == multiset{} {
      CreditNothing<T>(map[], enc);
      assert TotalWhere(map[], p) == 0;
    } else {
      var x :| x in bag;
      var rest := bag - multiset{x};
      CountIfRemove(bag, KeySatisfies(enc, p), x);
      GroupedTotalStep(rest, bag, enc, p, x);
      GroupedTotal(rest, enc, p);
    }
  }
}
