/** The replay guard of the webhook receiver (internal/webhook/replay.go). */
module ReplayGuards {
  import opened Arithmetic
  import opened Recency

  /**
   What the guard promises, from the history of acceptances only: the ID's last acceptance is
   at most `ttl` old and fewer than `cap` distinct other IDs were accepted after it. A hit is
   not an acceptance and does not renew anything.
   */
  ghost predicate Remembered(accepted: seq<Entry<int>>, cap: nat, ttl: int, id: string, now: int)
  {
    exists i :: LastAt(accepted, id, i) && now - accepted[i].value <= ttl && |KeySet(accepted[i + 1..])| < cap
  }

  /** The acceptances of a whole sequence of calls, each an ID and the clock reading. */
  ghost function AcceptedOf(cap: nat, ttl: int, calls: seq<Entry<int>>): seq<Entry<int>>
  {
    if calls == [] then []
    else
      var before, last := AcceptedOf(cap, ttl, calls[..|calls| - 1]), calls[|calls| - 1];
      if Remembered(before, cap, ttl, last.key, last.value) then before else before + [last]
  }

  lemma AcceptedOfSnoc(cap: nat, ttl: int, calls: seq<Entry<int>>, e: Entry<int>)
    ensures var before := AcceptedOf(cap, ttl, calls);
            AcceptedOf(cap, ttl, calls + [e]) == if Remembered(before, cap, ttl, e.key, e.value) then before else before + [e]
  {
    assert (calls + [e])[..|calls|] == calls;
  }

  /** A size below one still keeps one entry, since eviction happens before the push. */
  function Capacity(size: int): (n: nat)
    ensures n >= 1
  {
    if size < 1 then 1 else size
  }

  lemma CapacityIsSize(size: int)
    requires size >= 1
    ensures Capacity(size) == size
  {}

  class ReplayGuard {
    const size: int
    const ttl: int
    var lru: seq<Entry<int>>        // front first; each value is the insertion time
    var lookup: map<string, int>
    ghost var accepted: seq<Entry<int>>

    /** List and map hold the same IDs without duplicates: the `Capacity` most recently accepted ones. */
    ghost predicate Valid()
      reads this
    {
      && Distinct(lru)
      && |lru| <= Capacity(size)
      && lookup == MapOf(lru)
      && lru == Take(Recent(accepted), Capacity(size))
    }

    constructor (size: int, ttl: int)
      ensures Valid() && accepted == [] && this.size == size && this.ttl == ttl
    {
      this.size, this.ttl := size, ttl;
      lru, lookup, accepted := [], map[], [];
    }

    method Seen(id: string, now: int) returns (seen: bool)
      requires Valid()
      modifies this
      ensures Valid()
      ensures seen == Remembered(old(accepted), Capacity(size), ttl, id, now)
      ensures accepted == old(accepted) + if seen then [] else [Entry(id, now)]
      ensures seen ==> lru == old(lru) && lookup == old(lookup)
    {
      RememberedIff(accepted, Capacity(size), ttl, id, now);
      if id in lookup && now - lookup[id] <= ttl {
        return true;
      }
      Insert(id, now);
      return false;
    }

    /** The rest of Seen: drop an expired entry of the ID, make room, push to the front. */
    method Insert(id: string, now: int)
      requires Valid()
      modifies this
      ensures Valid() && accepted == old(accepted) + [Entry(id, now)]
    {
      ghost var kept := Without(lru, id);
      AcceptStep(accepted, Entry(id, now), Capacity(size), lru);
      assert lookup - {id} == MapOf(kept) by { MapOfWithout(lru, id); }
      MapOfKeys(lru);
      if id in lookup {
        lru := Without(lru, id);
        lookup := lookup - {id};
      }
      assert lru == kept && lookup == MapOf(kept);
      EvictStep(kept, size);
      if |lru| >= size && lru != [] {
        var oldest := lru[|lru| - 1];
        lru := lru[..|lru| - 1];
        lookup := lookup - {oldest.key};
      }
      ghost var rest := Take(kept, Capacity(size) - 1);
      assert lru == rest && lookup == MapOf(rest);
      MapOfCons(Entry(id, now), rest);
      lru := [Entry(id, now)] + lru;
      lookup := lookup[id := now];
      accepted := accepted + [Entry(id, now)];
    }
  }

  /** The guard's own test, a fresh enough entry in the map, is what the history promises. */
  lemma RememberedIff(accepted: seq<Entry<int>>, cap: nat, ttl: int, id: string, now: int)
    ensures var m := MapOf(Take(Recent(accepted), cap));
            Remembered(accepted, cap, ttl, id, now) <==> id in m && now - m[id] <= ttl
  {
    BoundedMembership(accepted, id, cap);
  }

  /** How one acceptance changes the bounded list. */
  lemma AcceptStep(accepted: seq<Entry<int>>, e: Entry<int>, cap: nat, l: seq<Entry<int>>)
    requires cap >= 1 && l == Take(Recent(accepted), cap)
    ensures Take(Recent(accepted + [e]), cap) == [e] + Take(Without(l, e.key), cap - 1)
    ensures Distinct(Take(Recent(accepted + [e]), cap)) && Distinct(Without(l, e.key))
    ensures e.key !in KeySet(l) ==> Without(l, e.key) == l
    ensures e.key in KeySet(l) ==> |Without(l, e.key)| < cap
    ensures |Without(l, e.key)| <= cap
  {
    assert (accepted + [e])[..|accepted|] == accepted;
    RecentDistinct(accepted);
    RecentDistinct(accepted + [e]);
    TakeInsert(Recent(accepted), e, cap);
    TakeKeys(Recent(accepted), cap);
    TakeKeys(Recent(accepted + [e]), cap);
    WithoutKeys(l, e.key);
    if e.key in KeySet(l) {
      WithoutShrinks(l, e.key);
    } else {
      WithoutAbsent(l, e.key);
    }
  }

  /** The eviction test leaves room for exactly one more entry, in the list and in the map. */
  lemma EvictStep(l: seq<Entry<int>>, size: int)
    requires Distinct(l) && |l| <= Capacity(size)
    ensures Take(l, Capacity(size) - 1) == if |l| >= size && l != [] then l[..|l| - 1] else l
    ensures |l| >= size && l != [] ==> MapOf(l[..|l| - 1]) == MapOf(l) - {l[|l| - 1].key}
  {
    if |l| >= size && l != [] { MapOfDropBack(l); }
  }

  lemma {:induction false} WithoutShrinks<V>(s: seq<Entry<V>>, key: string)
    requires Distinct(s) && key in KeySet(s)
    ensures |Without(s, key)| == |s| - 1
  {
    KeySetHead(s);
    if s[0].key == key {
      assert key !in KeySet(s[1..]);
      WithoutAbsent(s[1..], key);
    } else {
      WithoutShrinks(s[1..], key);
    }
  }

  // ---------- Whole runs ----------

  /** Whether call `i` of a run is a replay. */
  ghost predicate Replay(cap: nat, ttl: int, calls: seq<Entry<int>>, i: nat)
    requires i < |calls|
  {
    Remembered(AcceptedOf(cap, ttl, calls[..i]), cap, ttl, calls[i].key, calls[i].value)
  }

  ghost predicate Answered(answers: seq<bool>, cap: nat, ttl: int, calls: seq<Entry<int>>)
  {
    |answers| <= |calls| && forall k :: 0 <= k < |answers| ==> answers[k] == Replay(cap, ttl, calls, k)
  }

  lemma AnsweredNext(answers: seq<bool>, cap: nat, ttl: int, calls: seq<Entry<int>>)
    requires Answered(answers, cap, ttl, calls) && |answers| < |calls|
    ensures Answered(answers + [Replay(cap, ttl, calls, |answers|)], cap, ttl, calls)
  {}

  lemma AcceptedStep(cap: nat, ttl: int, calls: seq<Entry<int>>, i: nat)
    requires i < |calls|
    ensures AcceptedOf(cap, ttl, calls[..i + 1])
         == AcceptedOf(cap, ttl, calls[..i]) + if Replay(cap, ttl, calls, i) then [] else [calls[i]]
  {
    assert calls[..i + 1][..i] == calls[..i];
  }

  /** A run of calls is answered from the history, call by call. */
  method SeenAll(guard: ReplayGuard, calls: seq<Entry<int>>) returns (answers: seq<bool>)
    requires guard.Valid() && guard.accepted == []
    modifies guard
    ensures guard.Valid() && guard.accepted == AcceptedOf(Capacity(guard.size), guard.ttl, calls)
    ensures |answers| == |calls| && Answered(answers, Capacity(guard.size), guard.ttl, calls)
  {
    answers := [];
    ghost var cap, ttl := Capacity(guard.size), guard.ttl;
    for i := 0 to |calls|
      invariant guard.Valid() && guard.accepted == AcceptedOf(cap, ttl, calls[..i])
      invariant |answers| == i && Answered(answers, cap, ttl, calls)
    {
      AcceptedStep(cap, ttl, calls, i);
      var seen := guard.Seen(calls[i].key, calls[i].value);
      AnsweredNext(answers, cap, ttl, calls);
      answers := answers + [seen];
    }
    assert calls[..|calls|] == calls;
  }

  /** The first call of each ID. */
  ghost function FirstCalls(calls: seq<Entry<int>>): seq<Entry<int>>
  {
    if calls == [] then []
    else
      var before, last := calls[..|calls| - 1], calls[|calls| - 1];
      if last.key in KeySet(before) then FirstCalls(before) else FirstCalls(before) + [last]
  }

  /** No two calls are more than `ttl` apart. */
  ghost predicate Within(calls: seq<Entry<int>>, ttl: int)
  {
    forall i, j :: 0 <= i <= j < |calls| ==> calls[j].value - calls[i].value <= ttl
  }

  lemma {:induction false} FirstCallsKeys(calls: seq<Entry<int>>)
    ensures KeySet(FirstCalls(calls)) == KeySet(calls)
    ensures forall e :: e in FirstCalls(calls) ==> e in calls
  {
    if calls != [] {
      var before, last := calls[..|calls| - 1], calls[|calls| - 1];
      FirstCallsKeys(before);
      assert calls == before + [last];
      KeySetSnoc(before, last);
      KeySetSnoc(FirstCalls(before), last);
    }
  }

  /**
   Within one ttl, and with no more distinct IDs than the guard holds, every ID is accepted
   exactly once: at its first call.
   */
  lemma {:induction false} AcceptedOnce(cap: nat, ttl: int, calls: seq<Entry<int>>)
    requires Within(calls, ttl) && |KeySet(calls)| <= cap
    ensures AcceptedOf(cap, ttl, calls) == FirstCalls(calls)
  {
    if calls != [] {
      var before, last := calls[..|calls| - 1], calls[|calls| - 1];
      assert calls == before + [last];
      KeySetSnoc(before, last);
      assert |KeySet(before)| <= cap by {
        if last.key !in KeySet(before) { StrictSubsetSize(KeySet(before), KeySet(calls), last.key); }
        else { assert KeySet(before) == KeySet(calls); }
      }
      AcceptedOnce(cap, ttl, before);
      FirstCallsKeys(before);
      var acc := FirstCalls(before);
      if last.key in KeySet(before) {
        var i := LastExists(acc, last.key);
        var since := KeySet(acc[i + 1..]);
        forall k | k in since ensures k in KeySet(acc) && k != last.key {
          var j :| 0 <= j < |acc[i + 1..]| && acc[i + 1..][j].key == k;
          assert acc[i + 1 + j].key == k;
        }
        StrictSubsetSize(since, KeySet(calls), last.key);
        assert acc[i] in before;
        var j :| 0 <= j < |before| && before[j] == acc[i];
        assert calls[j] == acc[i];
        assert Remembered(acc, cap, ttl, last.key, last.value);
      } else {
        LastIffKey(acc, last.key);
      }
    }
  }
}
