/**
 Concurrent fetches (internal/predictor/cache.go). The fetcher's lock covers reading an ETag,
 storing and touching, but not the exchange between them, so the steps of different callers
 interleave freely.
 */
module FetchInterleavings {
  import opened Bags
  import opened Fetcher
  import opened WorkflowCache

  /** Where a caller stands; `at` is the instant the origin gave its answer. */
  datatype Caller =
    | Asked(key: string, etag: string)
    | GotBody(key: string, at: nat, version: Version)
    | GotNotModified(key: string, at: nat)
    | Done(key: string, at: nat, result: Option<string>)

  /** `now` is the origin's clock. */
  datatype State = State(cache: map<string, Version>, callers: map<nat, Caller>, now: nat)
  {
    function With(id: nat, caller: Caller): State
    {
      this.(callers := callers[id := caller])
    }
  }

  /** A retried exchange reads the ETag again. */
  datatype Step =
    | Ask(id: nat, key: string) | Retry(id: nat) | AnswerBody(id: nat) | AnswerNotModified(id: nat) | Finish(id: nat) | Tick

  /** The store may evict any other keys. */
  ghost predicate Stored(cache: map<string, Version>, key: string, version: Version, cache': map<string, Version>)
  {
    && key in cache' && cache'[key] == version
    && forall k :: k in cache' && k != key ==> k in cache && cache'[k] == cache[k]
  }

  ghost predicate Next(origin: Origin, s: State, step: Step, s': State)
  {
    match step
    case Ask(id, key) =>
      id !in s.callers && s' == s.With(id, Asked(key, TagHeld(s.cache, key)))
    case Retry(id) =>
      && id in s.callers && s.callers[id].Asked?
      && s' == s.With(id, Asked(s.callers[id].key, TagHeld(s.cache, s.callers[id].key)))
    case AnswerBody(id) =>
      && id in s.callers && s.callers[id].Asked?
      && s' == s.With(id, GotBody(s.callers[id].key, s.now, origin(s.callers[id].key, s.now)))
    case AnswerNotModified(id) =>
      && id in s.callers && s.callers[id].Asked? && s.callers[id].etag != ""
      && origin(s.callers[id].key, s.now).etag == s.callers[id].etag
      && s' == s.With(id, GotNotModified(s.callers[id].key, s.now))
    case Finish(id) =>
      && id in s.callers
      && (match s.callers[id]
          case GotBody(key, at, version) =>
            && Stored(s.cache, key, version, s'.cache)
            && s' == s.With(id, Done(key, at, Some(version.body))).(cache := s'.cache)
          case GotNotModified(key, at) =>
            s' == s.With(id, Done(key, at, BodyHeld(s.cache, key)))
          case _ => false)
    case Tick => s' == s.(now := s.now + 1)
  }

  const EMPTY := State(map[], map[], 0)

  /** `trace` is a run from the empty state. */
  ghost predicate IsRun(origin: Origin, trace: seq<State>, steps: seq<Step>)
  {
    && |trace| == |steps| + 1
    && trace[0] == EMPTY
    && forall i :: 0 <= i < |steps| ==> Next(origin, trace[i], steps[i], trace[i + 1])
  }

  /** Some run ends in this state. */
  ghost predicate Reachable(origin: Origin, s: State)
  {
    exists trace, steps :: IsRun(origin, trace, steps) && trace[|steps|] == s
  }

  lemma ReachEmpty(origin: Origin)
    ensures Reachable(origin, EMPTY)
  {
    assert IsRun(origin, [EMPTY], []);
  }

  lemma ReachNext(origin: Origin, s: State, step: Step, s': State)
    requires Reachable(origin, s) && Next(origin, s, step, s')
    ensures Reachable(origin, s')
  {
    var trace, steps :| IsRun(origin, trace, steps) && trace[|steps|] == s;
    assert IsRun(origin, trace + [s'], steps + [step]);
  }

  lemma {:induction false} ReachLater(origin: Origin, s: State, t: nat)
    requires Reachable(origin, s) && s.now <= t
    ensures Reachable(origin, s.(now := t))
    decreases t
  {
    if s.now < t {
      ReachLater(origin, s, t - 1);
      ReachNext(origin, s.(now := t - 1), Tick, s.(now := t));
    } else {
      assert s.(now := t) == s;
    }
  }

  // ---------- What every reachable state keeps ----------

  /** The version was the origin's at some instant up to `now`. */
  ghost predicate Past(origin: Origin, key: string, version: Version, now: nat)
  {
    exists t: nat :: t <= now && version == origin(key, t)
  }

  ghost predicate PastBody(origin: Origin, key: string, body: string, now: nat)
  {
    exists t: nat :: t <= now && body == origin(key, t).body
  }

  /** A caller holds what the origin said at the instant it answered; a body read back after a 304 is a past one. */
  ghost predicate CallerOk(origin: Origin, caller: Caller, now: nat)
  {
    match caller
    case GotBody(key, at, version) => at <= now && version == origin(key, at)
    case GotNotModified(key, at) => at <= now && origin(key, at).etag != ""
    case Done(key, at, Some(body)) =>
      && at <= now && PastBody(origin, key, body, now)
      && (origin(key, at).etag != "" || body == origin(key, at).body)
    case _ => true
  }

  ghost predicate Inv(origin: Origin, s: State)
  {
    && (forall k :: k in s.cache ==> Past(origin, k, s.cache[k], s.now))
    && (forall id :: id in s.callers ==> CallerOk(origin, s.callers[id], s.now))
  }

  lemma NextKeepsInv(origin: Origin, s: State, step: Step, s': State)
    requires Inv(origin, s) && Next(origin, s, step, s')
    ensures Inv(origin, s')
  {
    match step
    case Finish(id) =>
      assert CallerOk(origin, s.callers[id], s.now);
      match s.callers[id] {
        case GotBody(key, at, version) =>
          assert Past(origin, key, version, s.now) && PastBody(origin, key, version.body, s.now);
        case GotNotModified(key, at) =>
          if key in s.cache { assert Past(origin, key, s.cache[key], s.now); }
        case _ =>
      }
    case Tick =>
      forall k, v | Past(origin, k, v, s.now) ensures Past(origin, k, v, s'.now) {}
      forall k, b | PastBody(origin, k, b, s.now) ensures PastBody(origin, k, b, s'.now) {}
    case _ =>
  }

  lemma {:induction false} RunKeepsInv(origin: Origin, trace: seq<State>, steps: seq<Step>, i: nat)
    requires IsRun(origin, trace, steps) && i < |trace|
    ensures Inv(origin, trace[i])
  {
    if i > 0 {
      RunKeepsInv(origin, trace, steps, i - 1);
      NextKeepsInv(origin, trace[i - 1], steps[i - 1], trace[i]);
    }
  }

  /**
   In every interleaving a returned body is one the origin held for that key at or before the
   return; it can differ from the one held when it answered only if that one was tagged.
   */
  lemma ConcurrentBodies(origin: Origin, s: State, id: nat)
    requires Reachable(origin, s) && id in s.callers && s.callers[id].Done? && s.callers[id].result.Some?
    ensures var c := s.callers[id]; PastBody(origin, c.key, c.result.value, s.now)
    ensures var c := s.callers[id]; origin(c.key, c.at).etag == "" ==> c.result.value == origin(c.key, c.at).body
  {
    var trace, steps :| IsRun(origin, trace, steps) && trace[|steps|] == s;
    RunKeepsInv(origin, trace, steps, |steps|);
    assert CallerOk(origin, s.callers[id], s.now);
  }

  // ---------- When every caller gets the body its answer stood for ----------

  /** Every body returned in any interleaving is the origin's body at the instant it answered. */
  ghost predicate AlwaysCurrent(origin: Origin)
  {
    forall s, id :: Reachable(origin, s) && id in s.callers ==> CurrentFor(origin, s.callers[id])
  }

  ghost predicate CurrentFor(origin: Origin, caller: Caller)
  {
    caller.Done? && caller.result.Some? ==> caller.result.value == origin(caller.key, caller.at).body
  }

  /** A key that is ever served with an entity tag always has the same body. */
  ghost predicate TaggedNeverChanges(origin: Origin)
  {
    forall k, t, u :: origin(k, t).etag != "" ==> origin(k, u).body == origin(k, t).body
  }

  /**
   Fetching from outside the lock is safe exactly for content that never changes once it is
   tagged, such as a file at a fixed commit. The entity-tag law alone is not enough.
   */
  lemma AlwaysCurrentIff(origin: Origin)
    ensures AlwaysCurrent(origin) <==> TaggedNeverChanges(origin)
  {
    if TaggedNeverChanges(origin) {
      forall s, id | Reachable(origin, s) && id in s.callers ensures CurrentFor(origin, s.callers[id]) {
        var c := s.callers[id];
        if c.Done? && c.result.Some? {
          ConcurrentBodies(origin, s, id);
          var u: nat :| u <= s.now && c.result.value == origin(c.key, u).body;
        }
      }
    } else {
      var k, t, u :| origin(k, t).etag != "" && origin(k, u).body != origin(k, t).body;
      var s := StaleReachable(origin, k, t, u);
      assert !CurrentFor(origin, s.callers[0]);
    }
  }

  /**
   Whatever bodies a tagged key has at two instants, some interleaving answers a caller at the
   one and hands it the body of the other: a 304 at `t` is read from a cache in which, meanwhile,
   another caller has stored the version of `u`, be it newer or older.
   */
  lemma StaleReachable(origin: Origin, k: string, t: nat, u: nat) returns (s: State)
    requires origin(k, t).etag != ""
    ensures Reachable(origin, s) && 0 in s.callers && s.callers[0] == Done(k, t, Some(origin(k, u).body))
  {
    ReachEmpty(origin);
    if t <= u {
      s := Revalidating(origin, EMPTY, k, t);
      s := Overtaken(origin, s, k, t, u);
    } else {
      // the caller that will store `u` is already on its way
      var s1 := EMPTY.With(2, Asked(k, ""));
      ReachNext(origin, EMPTY, Ask(2, k), s1);
      ReachLater(origin, s1, u);
      var s2 := s1.(now := u).With(2, GotBody(k, u, origin(k, u)));
      ReachNext(origin, s1.(now := u), AnswerBody(2), s2);
      s := Revalidating(origin, s2, k, t);
      s := FinishBoth(origin, s, 2, k, t, u);
    }
  }

  /** From an empty cache: caller 1 stores the version of `t`, and caller 0 is then answered 304 at `t`. */
  lemma Revalidating(origin: Origin, s0: State, k: string, t: nat) returns (s: State)
    requires Reachable(origin, s0) && s0.cache == map[] && 0 !in s0.callers && 1 !in s0.callers && s0.now <= t && origin(k, t).etag != ""
    ensures Reachable(origin, s) && s.now == t && s.cache == map[k := origin(k, t)]
    ensures s.callers == s0.callers[1 := Done(k, t, Some(origin(k, t).body))][0 := GotNotModified(k, t)]
  {
    ReachLater(origin, s0, t);
    var v := origin(k, t);
    var s1 := s0.(now := t);
    var s2 := s1.With(1, Asked(k, ""));
    ReachNext(origin, s1, Ask(1, k), s2);
    var s3 := s2.With(1, GotBody(k, t, v));
    ReachNext(origin, s2, AnswerBody(1), s3);
    var s4 := s3.With(1, Done(k, t, Some(v.body))).(cache := map[k := v]);
    ReachNext(origin, s3, Finish(1), s4);
    var s5 := s4.With(0, Asked(k, v.etag));
    ReachNext(origin, s4, Ask(0, k), s5);
    s := s5.With(0, GotNotModified(k, t));
    ReachNext(origin, s5, AnswerNotModified(0), s);
  }

  /** Caller 3 asks now, is answered at `u` and stores before caller 0 reads. */
  lemma Overtaken(origin: Origin, s0: State, k: string, t: nat, u: nat) returns (s: State)
    requires Reachable(origin, s0) && s0.now == t <= u && s0.cache == map[k := origin(k, t)]
    requires 0 in s0.callers && s0.callers[0] == GotNotModified(k, t) && 3 !in s0.callers
    ensures Reachable(origin, s) && 0 in s.callers && s.callers[0] == Done(k, t, Some(origin(k, u).body))
  {
    ReachLater(origin, s0, u);
    var s1 := s0.(now := u);
    var s2 := s1.With(3, Asked(k, origin(k, t).etag));
    ReachNext(origin, s1, Ask(3, k), s2);
    var s3 := s2.With(3, GotBody(k, u, origin(k, u)));
    ReachNext(origin, s2, AnswerBody(3), s3);
    s := FinishBoth(origin, s3, 3, k, t, u);
  }

  /** Caller `id` stores the version of `u`, then caller 0 reads it. */
  lemma FinishBoth(origin: Origin, s0: State, id: nat, k: string, t: nat, u: nat) returns (s: State)
    requires Reachable(origin, s0) && s0.cache == map[k := origin(k, t)] && id != 0
    requires 0 in s0.callers && s0.callers[0] == GotNotModified(k, t)
    requires id in s0.callers && s0.callers[id] == GotBody(k, u, origin(k, u))
    ensures Reachable(origin, s) && 0 in s.callers && s.callers[0] == Done(k, t, Some(origin(k, u).body))
  {
    var s1 := s0.With(id, Done(k, u, Some(origin(k, u).body))).(cache := map[k := origin(k, u)]);
    ReachNext(origin, s0, Finish(id), s1);
    s := s1.With(0, Done(k, t, Some(origin(k, u).body)));
    ReachNext(origin, s1, Finish(0), s);
  }

  /**
   An instance: content that is replaced after its first instant, under an origin that obeys the
   entity-tag law. A run from the empty state hands a caller answered at instant 0 the later body.
   */
  lemma RaceReturnsLaterBody() returns (trace: seq<State>, steps: seq<Step>)
    ensures TagLaw(Replaced) && IsRun(Replaced, trace, steps)
    ensures var s := trace[|steps|]; 0 in s.callers && s.callers[0] == Done("k", 0, Some("new"))
    ensures Replaced("k", 0).body == "old"
  {
    var s := StaleReachable(Replaced, "k", 0, 1);
    trace, steps :| IsRun(Replaced, trace, steps) && trace[|steps|] == s;
  }

  function Replaced(key: string, t: nat): Version
  {
    if t == 0 then Version("a", "old") else Version("b", "new")
  }
}
