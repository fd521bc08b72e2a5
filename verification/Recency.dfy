/**
 Bounded recency lists. Both the replay guard (internal/webhook/replay.go) and the workflow
 cache (internal/predictor/cache.go) keep a list with the newest entry in front and drop the
 back entry when full; here that list is characterised by the history of insertions alone.
 */
module Recency {

  datatype Entry<+V> = Entry(key: string, value: V)

  ghost function KeySet<V>(s: seq<Entry<V>>): set<string>
  {
    set i | 0 <= i < |s| :: s[i].key
  }

  ghost predicate Distinct<V>(s: seq<Entry<V>>)
  {
    forall i, j :: 0 <= i < j < |s| ==> s[i].key != s[j].key
  }

  /** Remove every entry of a key: list removal of that key's element. */
  function Without<V>(s: seq<Entry<V>>, key: string): seq<Entry<V>>
  {
    if s == [] then []
    else if s[0].key == key then Without(s[1..], key)
    else [s[0]] + Without(s[1..], key)
  }

  function Take<T>(s: seq<T>, n: nat): seq<T>
  {
    if n < |s| then s[..n] else s
  }

  /** The distinct keys of a history, newest first, each with the value it last came with. */
  ghost function Recent<V>(history: seq<Entry<V>>): seq<Entry<V>>
  {
    if history == [] then []
    else
      var last := history[|history| - 1];
      [last] + Without(Recent(history[..|history| - 1]), last.key)
  }

  /** The lookup map that goes with a list. */
  function MapOf<V>(s: seq<Entry<V>>): map<string, V>
  {
    if s == [] then map[] else MapOf(s[1..])[s[0].key := s[0].value]
  }

  // ---------- List facts ----------

  lemma {:induction false} WithoutKeys<V>(s: seq<Entry<V>>, key: string)
    requires Distinct(s)
    ensures Distinct(Without(s, key)) && KeySet(Without(s, key)) == KeySet(s) - {key}
  {
    if s != [] {
      WithoutKeys(s[1..], key);
      KeySetHead(s);
      var w := Without(s[1..], key);
      if s[0].key != key {
        KeySetHead([s[0]] + w);
        forall j | 0 <= j < |w| ensures w[j].key != s[0].key {
          assert w[j].key in KeySet(w);
          assert s[0].key !in KeySet(s[1..]);
        }
      }
    }
  }

  lemma KeySetHead<V>(s: seq<Entry<V>>)
    requires s != []
    ensures KeySet(s) == {s[0].key} + KeySet(s[1..])
  {
    forall k | k in KeySet(s) ensures k in {s[0].key} + KeySet(s[1..]) {
      var i :| 0 <= i < |s| && s[i].key == k;
      if i > 0 { assert s[1..][i - 1].key == k; }
    }
    forall k | k in KeySet(s[1..]) ensures k in KeySet(s) {
      var i :| 0 <= i < |s[1..]| && s[1..][i].key == k;
      assert s[i + 1].key == k;
    }
  }

  lemma HeadNotInTail<V>(s: seq<Entry<V>>)
    requires s != [] && Distinct(s)
    ensures s[0].key !in KeySet(s[1..]) && Distinct(s[1..])
  {}

  lemma {:induction false} WithoutAbsent<V>(s: seq<Entry<V>>, key: string)
    requires key !in KeySet(s)
    ensures Without(s, key) == s
  {
    if s != [] {
      KeySetHead(s);
      WithoutAbsent(s[1..], key);
    }
  }

  lemma {:induction false} RecentDistinct<V>(history: seq<Entry<V>>)
    ensures Distinct(Recent(history)) && KeySet(Recent(history)) == KeySet(history)
  {
    if history != [] {
      var before, last := history[..|history| - 1], history[|history| - 1];
      RecentDistinct(before);
      WithoutKeys(Recent(before), last.key);
      var w := Without(Recent(before), last.key);
      KeySetHead([last] + w);
      KeySetSnoc(before, last);
      assert history == before + [last];
      forall j | 0 <= j < |w| ensures w[j].key != last.key { assert w[j].key in KeySet(w); }
    }
  }

  lemma KeySetSnoc<V>(s: seq<Entry<V>>, e: Entry<V>)
    ensures KeySet(s + [e]) == KeySet(s) + {e.key}
  {
    assert (s + [e])[|s|] == e;
    forall i | 0 <= i < |s| ensures s[i].key in KeySet(s + [e]) { assert (s + [e])[i] == s[i]; }
  }

  // ---------- The bounded list is the front of the recency list ----------

  /**
   Inserting a key into the front `n` of a recency list: a present key moves to the front,
   an absent one is pushed and the back entry beyond `n` is dropped.
   */
  lemma {:induction false} TakeInsert<V>(r: seq<Entry<V>>, e: Entry<V>, n: nat)
    requires Distinct(r) && n >= 1
    ensures Take([e] + Without(r, e.key), n)
         == [e] + if e.key in KeySet(Take(r, n)) then Without(Take(r, n), e.key) else Take(Take(r, n), n - 1)
  {
    var w := Without(r, e.key);
    TakeCons(e, w, n);
    TakeWithout(r, e.key, n);
  }

  /** What removing a key leaves of the first `n - 1` entries, seen from the first `n`. */
  ghost predicate RemovedFromFront<V>(r: seq<Entry<V>>, key: string, n: nat)
    requires n >= 1
  {
    Take(Without(r, key), n - 1)
      == if key in KeySet(Take(r, n)) then Without(Take(r, n), key) else Take(Take(r, n), n - 1)
  }

  /** The key to remove is the first entry's. */
  lemma TakeWithoutHead<V>(r: seq<Entry<V>>, n: nat)
    requires Distinct(r) && n >= 1 && r != []
    ensures RemovedFromFront(r, r[0].key, n)
  {
    HeadNotInTail(r);
    WithoutAbsent(r[1..], r[0].key);
    TakeTail(r, n);
    TakeKeys(r[1..], n - 1);
    WithoutAbsent(Take(r[1..], n - 1), r[0].key);
    KeySetHead(Take(r, n));
  }

  /** The key to remove stands behind the first entry, if anywhere. */
  lemma TakeWithoutTail<V>(r: seq<Entry<V>>, key: string, n: nat)
    requires n >= 2 && r != [] && r[0].key != key && RemovedFromFront(r[1..], key, n - 1)
    ensures RemovedFromFront(r, key, n)
  {
    var head, tail := r[0], Take(r[1..], n - 1);
    TakeTail(r, n);
    assert Take(r, n) == [head] + tail;
    TakeCons(head, Without(r[1..], key), n - 1);
    assert Take(Without(r, key), n - 1) == [head] + Take(Without(r[1..], key), n - 2);
    assert Without([head] + tail, key) == [head] + Without(tail, key) by { assert ([head] + tail)[1..] == tail; }
    TakeCons(head, tail, n - 1);
    KeySetHead([head] + tail);
  }

  lemma TakeWithoutOne<V>(r: seq<Entry<V>>, key: string)
    requires r != [] && r[0].key != key
    ensures RemovedFromFront(r, key, 1)
  {
    assert Take(r, 1) == [r[0]];
  }

  lemma {:induction false} TakeWithout<V>(r: seq<Entry<V>>, key: string, n: nat)
    requires Distinct(r) && n >= 1
    ensures RemovedFromFront(r, key, n)
  {
    if r == [] {
      assert Take(r, n) == [];
    } else if r[0].key == key {
      TakeWithoutHead(r, n);
    } else if n == 1 {
      TakeWithoutOne(r, key);
    } else {
      TakeWithout(r[1..], key, n - 1);
      TakeWithoutTail(r, key, n);
    }
  }

  lemma TakeTail<T>(s: seq<T>, n: nat)
    requires s != [] && n >= 1
    ensures Take(s, n) == [s[0]] + Take(s[1..], n - 1) && Take(s, n)[1..] == Take(s[1..], n - 1)
  {}

  lemma TakeCons<T>(x: T, s: seq<T>, n: nat)
    requires n >= 1
    ensures Take([x] + s, n) == [x] + Take(s, n - 1)
  {}

  lemma TakeKeys<V>(s: seq<Entry<V>>, n: nat)
    ensures KeySet(Take(s, n)) <= KeySet(s)
    ensures Distinct(s) ==> Distinct(Take(s, n))
  {}

  // ---------- The lookup map follows the list ----------

  lemma {:induction false} MapOfKeys<V>(s: seq<Entry<V>>)
    ensures MapOf(s).Keys == KeySet(s)
  {
    if s != [] {
      KeySetHead(s);
      MapOfKeys(s[1..]);
    }
  }

  lemma MapOfCons<V>(e: Entry<V>, s: seq<Entry<V>>)
    ensures MapOf([e] + s) == MapOf(s)[e.key := e.value]
  {
    assert ([e] + s)[1..] == s;
  }

  lemma {:induction false} MapOfWithout<V>(s: seq<Entry<V>>, key: string)
    ensures MapOf(Without(s, key)) == MapOf(s) - {key}
  {
    if s != [] { MapOfWithout(s[1..], key); }
  }

  /** Dropping the back element deletes exactly its key. */
  lemma {:induction false} MapOfDropBack<V>(s: seq<Entry<V>>)
    requires Distinct(s) && s != []
    ensures MapOf(s[..|s| - 1]) == MapOf(s) - {s[|s| - 1].key}
  {
    if |s| > 1 {
      MapOfDropBack(s[1..]);
      assert s[..|s| - 1][1..] == s[1..][..|s| - 2];
      assert s[1..][|s| - 2] == s[|s| - 1];
    }
  }

  // ---------- Position in the list, read from the history ----------

  /** The keys that stand before `key` in a list. */
  ghost function Ahead<V>(s: seq<Entry<V>>, key: string): set<string>
  {
    if s == [] || s[0].key == key then {} else {s[0].key} + Ahead(s[1..], key)
  }

  lemma {:induction false} AheadWithout<V>(s: seq<Entry<V>>, x: string, key: string)
    requires x != key
    ensures Ahead(Without(s, x), key) == Ahead(s, key) - {x}
  {
    if s != [] {
      AheadWithout(s[1..], x, key);
      if s[0].key == x && s[0].key != key && x !in Ahead(s[1..], key) {
        assert Ahead(s, key) - {x} == Ahead(s[1..], key);
      }
    }
  }

  lemma {:induction false} AheadKeys<V>(s: seq<Entry<V>>, key: string)
    ensures Ahead(s, key) <= KeySet(s)
  {
    if s != [] {
      KeySetHead(s);
      AheadKeys(s[1..], key);
    }
  }

  /** Among the first `n` exactly when fewer than `n` keys stand before it. */
  lemma {:induction false} TakeIffAhead<V>(s: seq<Entry<V>>, key: string, n: nat)
    requires Distinct(s) && key in KeySet(s)
    ensures key in KeySet(Take(s, n)) <==> |Ahead(s, key)| < n
  {
    KeySetHead(s);
    if n == 0 {
      assert Take(s, n) == [];
    } else {
      KeySetHead(Take(s, n));
      TakeTail(s, n);
      if s[0].key != key {
        TakeIffAhead(s[1..], key, n - 1);
        AheadKeys(s[1..], key);
        HeadNotInTail(s);
        assert |Ahead(s, key)| == 1 + |Ahead(s[1..], key)|;
      }
    }
  }

  /** The last entry of `key` is at `i`. */
  ghost predicate LastAt<V>(history: seq<Entry<V>>, key: string, i: int)
  {
    0 <= i < |history| && history[i].key == key && forall j :: i < j < |history| ==> history[j].key != key
  }

  lemma {:induction false} RecentAhead<V>(history: seq<Entry<V>>, key: string, i: nat)
    requires LastAt(history, key, i)
    ensures Ahead(Recent(history), key) == KeySet(history[i + 1..])
  {
    var before, last := history[..|history| - 1], history[|history| - 1];
    if i < |history| - 1 {
      assert LastAt(before, key, i);
      RecentAhead(before, key, i);
      AheadWithout(Recent(before), last.key, key);
      assert history[i + 1..] == before[i + 1..] + [last];
      KeySetSnoc(before[i + 1..], last);
    }
  }

  lemma {:induction false} RecentValue<V>(history: seq<Entry<V>>, key: string, i: nat)
    requires LastAt(history, key, i)
    ensures key in MapOf(Recent(history)) && MapOf(Recent(history))[key] == history[i].value
  {
    var before, last := history[..|history| - 1], history[|history| - 1];
    if i < |history| - 1 {
      assert LastAt(before, key, i);
      RecentValue(before, key, i);
      MapOfWithout(Recent(before), last.key);
    }
  }

  lemma {:induction false} MapOfTake<V>(s: seq<Entry<V>>, n: nat, key: string)
    requires key in KeySet(Take(s, n))
    ensures key in MapOf(s) && MapOf(Take(s, n)).Keys == KeySet(Take(s, n)) && MapOf(Take(s, n))[key] == MapOf(s)[key]
  {
    MapOfKeys(Take(s, n));
    KeySetHead(Take(s, n));
    assert n > 0 && Take(s, n)[1..] == Take(s[1..], n - 1);
    if s[0].key != key {
      MapOfTake(s[1..], n - 1, key);
    }
  }

  lemma {:induction false} LastExists<V>(history: seq<Entry<V>>, key: string) returns (i: nat)
    requires key in KeySet(history)
    ensures LastAt(history, key, i)
  {
    var before, last := history[..|history| - 1], history[|history| - 1];
    if last.key == key { return |history| - 1; }
    assert history == before + [last];
    KeySetSnoc(before, last);
    i := LastExists(before, key);
  }

  /**
   Membership in the bounded list, from the history alone: the key was inserted, and fewer
   than `n` distinct other keys were inserted after its last insertion. Its value is then the
   one it was last inserted with.
   */
  lemma BoundedMembership<V>(history: seq<Entry<V>>, key: string, n: nat)
    ensures key in MapOf(Take(Recent(history), n))
       <==> exists i :: LastAt(history, key, i) && |KeySet(history[i + 1..])| < n
    ensures forall i :: LastAt(history, key, i) && |KeySet(history[i + 1..])| < n
              ==> MapOf(Take(Recent(history), n))[key] == history[i].value
  {
    RecentDistinct(history);
    MapOfKeys(Take(Recent(history), n));
    if key in KeySet(history) {
      var i := LastExists(history, key);
      assert forall j :: LastAt(history, key, j) ==> j == i;
      assert key in KeySet(Take(Recent(history), n)) <==> |KeySet(history[i + 1..])| < n by {
        RecentAhead(history, key, i);
        TakeIffAhead(Recent(history), key, n);
      }
      if key in KeySet(Take(Recent(history), n)) {
        RecentValue(history, key, i);
        MapOfTake(Recent(history), n, key);
      }
    } else {
      TakeKeys(Recent(history), n);
      LastIffKey(history, key);
    }
  }

  lemma LastIffKey<V>(history: seq<Entry<V>>, key: string)
    ensures (exists i :: LastAt(history, key, i)) <==> key in KeySet(history)
  {
    if key in KeySet(history) { var i := LastExists(history, key); }
  }
}
