/**
 The workflow fetcher's LRU and ETag cache (internal/predictor/cache.go): the exact contents of
 recency list and map after any run of stores, touches and ETag lookups.
 */
module WorkflowCache {
  import opened Arithmetic
  import opened Bags
  import opened Recency

  datatype Version = Version(etag: string, body: string)

  // ---------- Contents from the operation history ----------

  datatype Op = Store(key: string, version: Version) | Touch(key: string) | Peek(key: string)

  /**
   The uses in a run of operations: every store, and every touch of a key that is among the
   `cap` most recently used. Touching an absent key and reading an ETag are no uses.
   */
  ghost function UsesOf(ops: seq<Op>, cap: nat): seq<Entry<Version>>
  {
    if ops == [] then []
    else
      var uses := UsesOf(ops[..|ops| - 1], cap);
      match ops[|ops| - 1]
      case Store(key, version) => uses + [Entry(key, version)]
      case Touch(key) =>
        var held := MapOf(Take(Recent(uses), cap));
        if key in held then uses + [Entry(key, held[key])] else uses
      case Peek(_) => uses
  }

  /** The version last stored under a key. */
  ghost function LastStored(ops: seq<Op>, key: string): Option<Version>
  {
    if ops == [] then None
    else
      var last := ops[|ops| - 1];
      if last.Store? && last.key == key then Some(last.version) else LastStored(ops[..|ops| - 1], key)
  }

  lemma {:induction false} UsesCarryLastStored(ops: seq<Op>, cap: nat, key: string, i: nat)
    requires LastAt(UsesOf(ops, cap), key, i)
    ensures LastStored(ops, key) == Some(UsesOf(ops, cap)[i].value)
  {
    var before, last := ops[..|ops| - 1], ops[|ops| - 1];
    var uses, full := UsesOf(before, cap), UsesOf(ops, cap);
    assert forall j :: 0 <= j < |uses| ==> full[j] == uses[j];
    if i < |uses| {
      assert last.Store? ==> full[|uses|].key == last.key;
      assert LastAt(uses, key, i);
      UsesCarryLastStored(before, cap, key, i);
    } else if last.Touch? {
      BoundedMembership(uses, key, cap);
      var j :| LastAt(uses, key, j) && |KeySet(uses[j + 1..])| < cap;
      UsesCarryLastStored(before, cap, key, j);
    }
  }

  /** What the cache holds after `ops`, as a map. */
  ghost function Contents(ops: seq<Op>, cap: nat): map<string, Version>
  {
    MapOf(Take(Recent(UsesOf(ops, cap)), cap))
  }

  /**
   A key is cached exactly when it was used and fewer than `cap` distinct other keys were used
   since its last use, and then with the ETag and body last stored for it.
   */
  lemma ContentsMeaning(ops: seq<Op>, cap: nat, key: string)
    ensures key in Contents(ops, cap)
       <==> exists i :: LastAt(UsesOf(ops, cap), key, i) && |KeySet(UsesOf(ops, cap)[i + 1..])| < cap
    ensures key in Contents(ops, cap) ==> LastStored(ops, key) == Some(Contents(ops, cap)[key])
  {
    var uses := UsesOf(ops, cap);
    BoundedMembership(uses, key, cap);
    if key in Contents(ops, cap) {
      var i :| LastAt(uses, key, i) && |KeySet(uses[i + 1..])| < cap;
      UsesCarryLastStored(ops, cap, key, i);
    }
  }

  // ---------- Recency, over the operations themselves ----------

  /** Operation `i` uses its key: a store, or a touch that finds the key cached. */
  ghost predicate Uses(ops: seq<Op>, cap: nat, i: int)
  {
    0 <= i < |ops| && (ops[i].Store? || (ops[i].Touch? && ops[i].key in Contents(ops[..i], cap)))
  }

  /** The keys used after operation `i`. */
  ghost function UsedAfter(ops: seq<Op>, cap: nat, i: int): set<string>
  {
    set j | i < j < |ops| && Uses(ops, cap, j) :: ops[j].key
  }

  lemma UsesSnoc(ops: seq<Op>, cap: nat, j: int)
    requires ops != [] && 0 <= j < |ops| - 1
    ensures Uses(ops, cap, j) <==> Uses(ops[..|ops| - 1], cap, j)
  {
    assert ops[..|ops| - 1][..j] == ops[..j];
  }

  lemma UsedAfterSnoc(ops: seq<Op>, cap: nat, i: int)
    requires ops != [] && i < |ops| - 1
    ensures var n := |ops| - 1;
            UsedAfter(ops, cap, i) == UsedAfter(ops[..n], cap, i) + if Uses(ops, cap, n) then {ops[n].key} else {}
  {
    var n := |ops| - 1;
    forall j | 0 <= j < n ensures Uses(ops, cap, j) <==> Uses(ops[..n], cap, j) { UsesSnoc(ops, cap, j); }
    if i < 0 { assert forall j :: Uses(ops, cap, j) ==> 0 <= j; }
  }

  /** The last operation adds an entry to the uses exactly when it uses its key. */
  lemma UsesOfSnoc(ops: seq<Op>, cap: nat)
    requires ops != []
    ensures var n := |ops| - 1;
            if Uses(ops, cap, n) then |UsesOf(ops, cap)| == |UsesOf(ops[..n], cap)| + 1
              && UsesOf(ops, cap) == UsesOf(ops[..n], cap) + [UsesOf(ops, cap)[|UsesOf(ops[..n], cap)|]]
              && UsesOf(ops, cap)[|UsesOf(ops[..n], cap)|].key == ops[n].key
            else UsesOf(ops, cap) == UsesOf(ops[..n], cap)
  {}

  /** The use at position `p` of the list is operation `i`, and those after it are the later operations'. */
  ghost predicate StemsFrom(uses: seq<Entry<Version>>, p: int, ops: seq<Op>, cap: nat, i: int)
  {
    && 0 <= p < |uses| && 0 <= i < |ops|
    && uses[p].key == ops[i].key && KeySet(uses[p + 1..]) == UsedAfter(ops, cap, i)
  }

  lemma StemsSnoc(ops: seq<Op>, cap: nat, uses: seq<Entry<Version>>, uses': seq<Entry<Version>>, p: int, i: int)
    requires ops != [] && StemsFrom(uses, p, ops[..|ops| - 1], cap, i)
    requires var n := |ops| - 1;
             if Uses(ops, cap, n) then |uses'| == |uses| + 1 && uses' == uses + [uses'[|uses|]] && uses'[|uses|].key == ops[n].key
             else uses' == uses
    ensures StemsFrom(uses', p, ops, cap, i)
  {
    UsedAfterSnoc(ops, cap, i);
    if Uses(ops, cap, |ops| - 1) {
      var e := uses'[|uses|];
      assert (uses + [e])[p + 1..] == uses[p + 1..] + [e];
      KeySetSnoc(uses[p + 1..], e);
    }
  }

  lemma {:induction false} UseAt(ops: seq<Op>, cap: nat, i: nat) returns (p: nat)
    requires Uses(ops, cap, i)
    ensures StemsFrom(UsesOf(ops, cap), p, ops, cap, i)
  {
    var n := |ops| - 1;
    var before := ops[..n];
    UsesOfSnoc(ops, cap);
    if i == n {
      p := |UsesOf(before, cap)|;
      assert UsedAfter(ops, cap, i) == {} && KeySet(UsesOf(ops, cap)[p + 1..]) == {};
    } else {
      UsesSnoc(ops, cap, i);
      p := UseAt(before, cap, i);
      StemsSnoc(ops, cap, UsesOf(before, cap), UsesOf(ops, cap), p, i);
    }
  }

  /** Every listed use stems from an operation. */
  lemma {:induction false} UseFrom(ops: seq<Op>, cap: nat, p: nat) returns (i: nat)
    requires p < |UsesOf(ops, cap)|
    ensures Uses(ops, cap, i) && StemsFrom(UsesOf(ops, cap), p, ops, cap, i)
  {
    var n := |ops| - 1;
    var before := ops[..n];
    UsesOfSnoc(ops, cap);
    if p == |UsesOf(before, cap)| {
      i := n;
      assert UsedAfter(ops, cap, i) == {} && KeySet(UsesOf(ops, cap)[p + 1..]) == {};
    } else {
      i := UseFrom(before, cap, p);
      UsesSnoc(ops, cap, i);
      StemsSnoc(ops, cap, UsesOf(before, cap), UsesOf(ops, cap), p, i);
    }
  }

  /** Operation `i` used the key, and fewer than `cap` distinct other keys have been used since. */
  ghost predicate UsedRecently(ops: seq<Op>, cap: nat, key: string, i: int)
  {
    Uses(ops, cap, i) && ops[i].key == key && |UsedAfter(ops, cap, i) - {key}| < cap
  }

  lemma LastUseRecent(ops: seq<Op>, cap: nat, key: string, uses: seq<Entry<Version>>, p: nat, i: nat)
    requires LastAt(uses, key, p) && |KeySet(uses[p + 1..])| < cap && Uses(ops, cap, i) && StemsFrom(uses, p, ops, cap, i)
    ensures UsedRecently(ops, cap, key, i)
  {
    var after := KeySet(uses[p + 1..]);
    assert after == UsedAfter(ops, cap, i);
    SubsetSize(after - {key}, after);
  }

  lemma CachedWasUsed(ops: seq<Op>, cap: nat, key: string) returns (i: nat)
    requires key in Contents(ops, cap)
    ensures UsedRecently(ops, cap, key, i)
  {
    ContentsMeaning(ops, cap, key);
    var p :| LastAt(UsesOf(ops, cap), key, p) && |KeySet(UsesOf(ops, cap)[p + 1..])| < cap;
    i := UseFrom(ops, cap, p);
    LastUseRecent(ops, cap, key, UsesOf(ops, cap), p, i);
  }

  lemma UsedIsCached(ops: seq<Op>, cap: nat, key: string, i: nat)
    requires UsedRecently(ops, cap, key, i)
    ensures key in Contents(ops, cap)
  {
    var uses := UsesOf(ops, cap);
    var p := UseAt(ops, cap, i);
    var q := LastUseLater(uses, key, p, UsedAfter(ops, cap, i), cap);
    BoundedMembership(uses, key, cap);
  }

  /**
   The least-recently-used rule, said of the operations: a key is cached exactly when some
   operation used it and fewer than `cap` distinct other keys have been used since. A hit is a
   use; a miss and an ETag lookup are not.
   */
  lemma CachedIff(ops: seq<Op>, cap: nat, key: string)
    ensures key in Contents(ops, cap) <==> exists i :: UsedRecently(ops, cap, key, i)
  {
    if key in Contents(ops, cap) { var i := CachedWasUsed(ops, cap, key); }
    if i :| UsedRecently(ops, cap, key, i) { UsedIsCached(ops, cap, key, i); }
  }

  /** From any use of a key on, at most the other keys used since stand before it. */
  lemma LastUseLater(uses: seq<Entry<Version>>, key: string, p: nat, after: set<string>, cap: nat) returns (q: nat)
    requires p < |uses| && uses[p].key == key && KeySet(uses[p + 1..]) == after && |after - {key}| < cap
    ensures LastAt(uses, key, q) && |KeySet(uses[q + 1..])| < cap
  {
    assert key in KeySet(uses);
    q := LastExists(uses, key);
    forall k | k in KeySet(uses[q + 1..]) ensures k in after && k != key {
      var j :| 0 <= j < |uses[q + 1..]| && uses[q + 1..][j].key == k;
      assert uses[p + 1..][q + 1 + j - (p + 1)] == uses[q + 1 + j];
    }
    SubsetSize(KeySet(uses[q + 1..]), after - {key});
  }

  /** The keys that operations store or touch. */
  ghost function KeysIn(ops: seq<Op>): set<string>
  {
    set j | 0 <= j < |ops| && !ops[j].Peek? :: ops[j].key
  }

  ghost function StoredIn(ops: seq<Op>): set<string>
  {
    set j | 0 <= j < |ops| && ops[j].Store? :: ops[j].key
  }

  /** A hit keeps its key: it stays until `cap` distinct other keys have been stored or touched. */
  lemma HitKeeps(before: seq<Op>, key: string, later: seq<Op>, cap: nat)
    requires key in Contents(before, cap) && |KeysIn(later) - {key}| < cap
    ensures key in Contents(before + [Touch(key)] + later, cap)
  {
    var ops, i := before + [Touch(key)] + later, |before|;
    assert ops[i] == Touch(key) && ops[..i] == before;
    assert Uses(ops, cap, i);
    forall k | k in UsedAfter(ops, cap, i) ensures k in KeysIn(later) {
      var j :| i < j < |ops| && Uses(ops, cap, j) && ops[j].key == k;
      assert ops[j] == later[j - i - 1];
    }
    SubsetSize(UsedAfter(ops, cap, i) - {key}, KeysIn(later) - {key});
    UsedIsCached(ops, cap, key, i);
  }

  /** A key that is neither stored nor hit while `cap` distinct other keys are stored is gone. */
  lemma UnusedIsGone(before: seq<Op>, later: seq<Op>, key: string, cap: nat)
    requires |StoredIn(later) - {key}| >= cap
    requires forall j :: |before| <= j < |before + later| && (before + later)[j].key == key ==> !Uses(before + later, cap, j)
    ensures key !in Contents(before + later, cap)
  {
    var ops := before + later;
    if key in Contents(ops, cap) {
      var i := CachedWasUsed(ops, cap, key);
      forall k | k in StoredIn(later) ensures k in UsedAfter(ops, cap, i) {
        var j :| 0 <= j < |later| && later[j].Store? && later[j].key == k;
        assert ops[|before| + j] == later[j] && Uses(ops, cap, |before| + j);
      }
      SubsetSize(StoredIn(later) - {key}, UsedAfter(ops, cap, i) - {key});
    }
  }

  // ---------- The cache ----------

  class Cache {
    const capacity: nat
    var lru: seq<Entry<Version>>      // front = most recently used
    var cache: map<string, Version>
    ghost var ops: seq<Op>

    /** Recency list and map are in bijection and hold what the operation history says. */
    ghost predicate Valid()
      reads this
    {
      && capacity > 0
      && Distinct(lru)
      && cache == MapOf(lru)
      && lru == Take(Recent(UsesOf(ops, capacity)), capacity)
    }

    constructor (capacity: nat)
      requires capacity > 0
      ensures Valid() && ops == [] && this.capacity == capacity
    {
      this.capacity := capacity;
      lru, cache, ops := [], map[], [];
    }

    method CachedETag(key: string) returns (etag: string)
      requires Valid()
      modifies `ops
      ensures Valid() && ops == old(ops) + [Peek(key)]
      ensures etag == if key in cache then cache[key].etag else ""
    {
      ops := ops + [Peek(key)];
      assert ops[..|ops| - 1] == old(ops);
      etag := if key in cache then cache[key].etag else "";
    }

    method TouchAndGet(key: string) returns (body: Option<string>)
      requires Valid()
      modifies this
      ensures Valid() && ops == old(ops) + [Touch(key)]
      ensures cache == old(cache)
      ensures key in old(cache) ==> lru == [Entry(key, old(cache)[key])] + Without(old(lru), key)
      ensures key !in old(cache) ==> lru == old(lru)
      ensures body == if key in old(cache) then Some(old(cache)[key].body) else None
    {
      ops := ops + [Touch(key)];
      assert ops[..|ops| - 1] == old(ops);
      if key !in cache { return None; }
      MoveToFront(key, cache[key], UsesOf(old(ops), capacity));
      return Some(cache[key].body);
    }

    method Store(key: string, version: Version)
      requires Valid()
      modifies this
      ensures Valid() && ops == old(ops) + [Op.Store(key, version)]
      ensures key in cache && cache[key] == version
      ensures forall k :: k in cache && k != key ==> k in old(cache) && cache[k] == old(cache)[k]
      ensures key in old(cache) ==> lru == [Entry(key, version)] + Without(old(lru), key)
      ensures key !in old(cache) ==> lru == Take([Entry(key, version)] + old(lru), capacity)
    {
      ops := ops + [Op.Store(key, version)];
      assert ops[..|ops| - 1] == old(ops);
      if key in cache {
        MoveToFront(key, version, UsesOf(old(ops), capacity));
      } else {
        PushFront(key, version, UsesOf(old(ops), capacity));
      }
    }

    /** A cached key goes to the front, with a possibly new version. */
    method MoveToFront(key: string, version: Version, ghost uses: seq<Entry<Version>>)
      requires capacity > 0 && cache == MapOf(lru) && lru == Take(Recent(uses), capacity) && key in cache
      modifies `lru, `cache
      ensures Distinct(lru) && cache == MapOf(lru) && lru == Take(Recent(uses + [Entry(key, version)]), capacity)
      ensures cache == old(cache)[key := version] && lru == [Entry(key, version)] + Without(old(lru), key)
    {
      var e := Entry(key, version);
      UsePresent(uses, e, capacity, lru);
      lru := [e] + Without(lru, key);
      cache := cache[key := version];
    }

    /** A new key is pushed and the list trimmed. */
    method PushFront(key: string, version: Version, ghost uses: seq<Entry<Version>>)
      requires capacity > 0 && cache == MapOf(lru) && lru == Take(Recent(uses), capacity) && key !in cache
      modifies `lru, `cache
      ensures Distinct(lru) && cache == MapOf(lru) && lru == Take(Recent(uses + [Entry(key, version)]), capacity)
      ensures lru == Take([Entry(key, version)] + old(lru), capacity)
      ensures key in cache && cache[key] == version
      ensures forall k :: k in cache && k != key ==> k in old(cache) && cache[k] == old(cache)[k]
    {
      var e := Entry(key, version);
      UseAbsent(uses, e, capacity, lru);
      StoredMap(lru, e, capacity);
      lru := [e] + lru;
      cache := cache[key := version];
      Evict();
    }

    /** The trimming loop of store. */
    method Evict()
      requires Distinct(lru) && cache == MapOf(lru)
      modifies `lru, `cache
      ensures lru == Take(old(lru), capacity) && cache == MapOf(lru)
    {
      while |lru| > capacity
        invariant Distinct(lru) && cache == MapOf(lru)
        invariant |lru| >= capacity || lru == old(lru)
        invariant |lru| <= |old(lru)| && lru == old(lru)[..|lru|]
      {
        var victim := lru[|lru| - 1];
        MapOfDropBack(lru);
        lru := lru[..|lru| - 1];
        cache := cache - {victim.key};
      }
    }
  }

  /** Pushing and trimming keeps the new entry and changes no other. */
  lemma StoredMap<V>(l: seq<Entry<V>>, e: Entry<V>, cap: nat)
    requires cap >= 1
    ensures var m := MapOf(Take([e] + l, cap));
            && e.key in m && m[e.key] == e.value
            && forall k :: k in m && k != e.key ==> k in MapOf(l) && m[k] == MapOf(l)[k]
  {
    TakeCons(e, l, cap);
    MapOfCons(e, Take(l, cap - 1));
    MapOfSubset(l, cap - 1);
  }

  lemma MapOfSubset<V>(s: seq<Entry<V>>, n: nat)
    ensures forall k :: k in MapOf(Take(s, n)) ==> k in MapOf(s) && MapOf(Take(s, n))[k] == MapOf(s)[k]
  {
    MapOfKeys(Take(s, n));
    forall k | k in MapOf(Take(s, n)) ensures k in MapOf(s) && MapOf(Take(s, n))[k] == MapOf(s)[k] {
      MapOfTake(s, n, k);
    }
  }

  lemma UsePresent(uses: seq<Entry<Version>>, e: Entry<Version>, cap: nat, l: seq<Entry<Version>>)
    requires cap >= 1 && l == Take(Recent(uses), cap) && e.key in MapOf(l)
    ensures Take(Recent(uses + [e]), cap) == [e] + Without(l, e.key)
    ensures Distinct(Take(Recent(uses + [e]), cap))
    ensures MapOf([e] + Without(l, e.key)) == MapOf(l)[e.key := e.value]
  {
    assert (uses + [e])[..|uses|] == uses;
    RecentDistinct(uses);
    RecentDistinct(uses + [e]);
    TakeKeys(Recent(uses + [e]), cap);
    TakeInsert(Recent(uses), e, cap);
    MapOfKeys(l);
    MapOfWithout(l, e.key);
    MapOfCons(e, Without(l, e.key));
  }

  lemma UseAbsent(uses: seq<Entry<Version>>, e: Entry<Version>, cap: nat, l: seq<Entry<Version>>)
    requires cap >= 1 && l == Take(Recent(uses), cap) && e.key !in MapOf(l)
    ensures Take(Recent(uses + [e]), cap) == Take([e] + l, cap)
    ensures Distinct([e] + l) && Distinct(Take([e] + l, cap))
    ensures MapOf([e] + l) == MapOf(l)[e.key := e.value]
  {
    assert (uses + [e])[..|uses|] == uses;
    RecentDistinct(uses);
    TakeKeys(Recent(uses), cap);
    TakeInsert(Recent(uses), e, cap);
    TakeCons(e, l, cap);
    MapOfKeys(l);
    MapOfCons(e, l);
    TakeKeys([e] + l, cap);
  }
}
