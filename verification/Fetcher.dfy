/**
 Conditional requests against an origin whose content may change: the retry loops of Fetch
 (internal/predictor/cache.go) and of the demand poller (internal/demand/github_poller.go), the
 single request of cachedGet (internal/predictor/workflow_needs_graph.go), and which body a
 caller gets. An origin gives, for each key and instant, the current entity tag and body; it is
 assumed to obey the entity-tag law of sections 8.8.3 and 13.1.2 of RFC 9110.
 */
module Fetcher {
  import opened Bags
  import opened WorkflowCache

  type Origin = (string, nat) -> Version

  /** Equal nonempty entity tags of one key stand for equal bodies. */
  ghost predicate TagLaw(origin: Origin)
  {
    forall k, t, u :: origin(k, t).etag == origin(k, u).etag && origin(k, t).etag != ""
      ==> origin(k, t).body == origin(k, u).body
  }

  /**
   One exchange. `wait` is the delay asked for by Retry-After, or for the demand poller also by
   the rate-limit headers; `decodes` tells whether the body is the JSON the poller wants;
   `cancelled` whether the caller's context ends before the wait that follows.
   */
  datatype Reply =
    | NoResponse(cancelled: bool)
    | Response(status: int, version: Version, readable: bool, decodes: bool, wait: Option<nat>, cancelled: bool)

  /** The three users of conditional requests. */
  datatype Client = WorkflowFetcher | RunLister | DemandPoller

  /** The other end: given the key, the instant and the If-None-Match value ("" when absent). */
  type Server = (string, nat, string) -> Reply

  /** 200 carries the current version; 304 is sent only for the current entity tag (section 15.4.5 of RFC 9110). */
  ghost predicate Honest(server: Server, origin: Origin)
  {
    forall k, t, e ::
      var r := server(k, t, e);
      r.Response? ==>
        && (r.status == 200 ==> r.version == origin(k, t))
        && (r.status == 304 ==> e != "" && origin(k, t).etag == e)
  }

  /** Every cached version of a key was the origin's at some instant. */
  ghost predicate Coherent(cache: map<string, Version>, origin: Origin)
  {
    forall k :: k in cache ==> exists t :: cache[k] == origin(k, t)
  }

  datatype FetchResult = Body(body: string) | NotFound | Failed

  const MAX_RETRIES: nat := 3

  predicate Retryable(client: Client, r: Reply)
    requires r.Response?
  {
    r.wait.Some? || (client.WorkflowFetcher? && r.status == 429)
  }

  /**
   A reply after which no further request is made. Rate limiting that is not retryable is not
   among them: the `break` that was meant to give up only leaves the switch.
   */
  predicate Final(client: Client, r: Reply)
  {
    if client.RunLister? then true
    else if r.NoResponse? then r.cancelled
    else if r.status == 429 || r.status == 403 then r.cancelled && Retryable(client, r)
    else if r.status >= 500 then r.cancelled
    else true
  }

  /** How many requests a fetch makes when `left` retries remain. */
  function Requests(client: Client, server: Server, key: string, t: nat, etag: string, left: nat): (n: nat)
    ensures 1 <= n <= left + 1
    decreases left
  {
    if left == 0 || Final(client, server(key, t, etag)) then 1 else 1 + Requests(client, server, key, t + 1, etag, left - 1)
  }

  /** An authorization failure is requested again until the retries run out, although it is documented as terminal. */
  lemma {:induction false} ForbiddenIsRetried(client: Client, server: Server, key: string, t: nat, etag: string, left: nat)
    requires !client.RunLister?
    requires forall u :: server(key, u, etag).Response? && server(key, u, etag).status == 403 && server(key, u, etag).wait.None?
    ensures Requests(client, server, key, t, etag, left) == left + 1
    decreases left
  {
    if left > 0 { ForbiddenIsRetried(client, server, key, t + 1, etag, left - 1); }
  }

  /**
   A failure that may pass: no answer, a server error, or a refusal for rate limiting or
   authorization. Only a caller that gives up while it waits ends the fetch, and after a refusal
   it waits only if the server named a delay or, for the fetcher, on any 429.
   */
  predicate MayPass(client: Client, r: Reply)
  {
    match r
    case NoResponse(cancelled) => !cancelled
    case Response(status, _, _, _, wait, cancelled) =>
      || (status >= 500 && !cancelled)
      || (status in {403, 429} && !(cancelled && (wait != None || (status == 429 && client == WorkflowFetcher))))
  }

  /** Every reply but the last is a failure that may pass, and so is the last only if no retry is left. */
  lemma {:induction false} RequestsMeaning(client: Client, server: Server, key: string, t: nat, etag: string, left: nat)
    requires !client.RunLister?
    ensures var n := Requests(client, server, key, t, etag, left);
            && (forall u :: t <= u < t + n - 1 ==> MayPass(client, server(key, u, etag)))
            && (n == left + 1 || !MayPass(client, server(key, t + n - 1, etag)))
    decreases left
  {
    if left > 0 && !Final(client, server(key, t, etag)) {
      RequestsMeaning(client, server, key, t + 1, etag, left - 1);
    }
  }

  /** So a good answer is reached through any failures that may pass, as long as retries are left, and its body returned. */
  lemma GoodAnswerReached(client: Client, server: Server, key: string, t: nat, etag: string, left: nat, m: nat, held: Option<string>)
    requires !client.RunLister? && m <= left && forall u :: t <= u < t + m ==> MayPass(client, server(key, u, etag))
    requires var r := server(key, t + m, etag); r.Response? && r.status == 200 && r.readable && r.decodes
    ensures Requests(client, server, key, t, etag, left) == m + 1
    ensures Settle(client, server(key, t + m, etag), held) == Body(server(key, t + m, etag).version.body)
  {
    RequestsMeaning(client, server, key, t, etag, left);
    var n := Requests(client, server, key, t, etag, left);
    var last: nat := t + n - 1;
    assert last < t + m ==> MayPass(client, server(key, last, etag));
  }

  /** The result of the last exchange, from its reply and the body held for the key. */
  function Settle(client: Client, r: Reply, held: Option<string>): FetchResult
  {
    if r.NoResponse? then Failed
    else if r.status == 200 then
      if r.readable && (client.DemandPoller? ==> r.decodes) then Body(r.version.body) else Failed
    else if r.status == 304 then
      if held.Some? && (client.DemandPoller? ==> r.readable) then Body(held.value) else Failed
    else if r.status == 404 && client.WorkflowFetcher? then NotFound
    else Failed
  }

  /** What each last reply is settled as. */
  lemma SettleMeaning(client: Client, r: Reply, held: Option<string>)
    ensures r.Response? && r.status == 200 && Settle(client, r, held).Body? ==> Settle(client, r, held).body == r.version.body
    ensures r.Response? && r.status == 304 && Settle(client, r, held).Body? ==> held == Some(Settle(client, r, held).body)
    ensures Settle(client, r, held).NotFound? <==> client.WorkflowFetcher? && r.Response? && r.status == 404
    ensures Settle(client, r, held).Body? <==>
      && r.Response? && r.status in {200, 304}
      && (r.status == 200 || client.DemandPoller? ==> r.readable)
      && (r.status == 200 && client.DemandPoller? ==> r.decodes)
      && (r.status == 304 ==> held.Some?)
  {}

  function TagHeld(cache: map<string, Version>, key: string): string
  {
    if key in cache then cache[key].etag else ""
  }

  function BodyHeld(cache: map<string, Version>, key: string): Option<string>
  {
    if key in cache then Some(cache[key].body) else None
  }

  /** The outcome of an exchange at instant `t` that starts with this cache. */
  function Outcome(client: Client, server: Server, cache: map<string, Version>, key: string, t: nat): FetchResult
  {
    Settle(client, server(key, t, TagHeld(cache, key)), BodyHeld(cache, key))
  }

  /** The reply replaces what is held for its key; the poller keeps an older entry when the new one has no tag. */
  predicate Refreshes(client: Client, r: Reply)
  {
    r.Response? && r.status == 200 && r.readable && (client.DemandPoller? ==> r.decodes && r.version.etag != "")
  }

  /** A settled body is the one the origin holds at that instant. */
  lemma SettleIsCurrent(client: Client, server: Server, origin: Origin, cache: map<string, Version>, key: string, t: nat)
    requires Honest(server, origin) && TagLaw(origin) && Coherent(cache, origin)
    ensures var r := Outcome(client, server, cache, key, t); r.Body? ==> r.body == origin(key, t).body
  {
    var e := TagHeld(cache, key);
    var reply := server(key, t, e);
    if reply.Response? && reply.status == 304 {
      assert e != "";
      var u :| cache[key] == origin(key, u);
      assert origin(key, u).etag == origin(key, t).etag;
    }
  }

  /**
   A readable 200 puts its version under the key, evicting others at most; any other reply
   leaves the cache as it was.
   */
  ghost predicate CacheAfter(cache: map<string, Version>, cache': map<string, Version>, server: Server, key: string, t: nat)
  {
    var reply := server(key, t, TagHeld(cache, key));
    if Refreshes(WorkflowFetcher, reply) then
      && key in cache' && cache'[key] == reply.version
      && forall k :: k in cache' && k != key ==> k in cache && cache'[k] == cache[k]
    else cache' == cache
  }

  /** One pass of the loop in Fetch; `stop` when it returns. On the last pass no wait is attempted. */
  method Attempt(c: Cache, server: Server, key: string, t: nat, isLast: bool) returns (r: FetchResult, stop: bool)
    requires c.Valid()
    modifies c
    ensures c.Valid()
    ensures var reply := server(key, t, TagHeld(old(c.cache), key));
            if stop then Final(WorkflowFetcher, reply) else isLast || !Final(WorkflowFetcher, reply)
    ensures !stop ==> r == Failed && c.cache == old(c.cache)
    ensures r == Outcome(WorkflowFetcher, server, old(c.cache), key, t)
    ensures CacheAfter(old(c.cache), c.cache, server, key, t)
  {
    var etag := c.CachedETag(key);
    var reply := server(key, t, etag);
    if reply.NoResponse? {
      return Failed, !isLast && reply.cancelled;
    }
    var status := reply.status;
    if status == 200 {
      if !reply.readable { return Failed, true; }
      c.Store(key, reply.version);
      return Body(reply.version.body), true;
    } else if status == 304 {
      var body := c.TouchAndGet(key);
      return (if body.Some? then Body(body.value) else Failed), true;
    } else if status == 404 {
      return NotFound, true;
    } else if status == 429 || status == 403 {
      var retryable := reply.wait.Some? || status == 429;
      if !retryable || isLast { return Failed, false; }   // `break` leaves only the switch
      return Failed, reply.cancelled;
    } else if status >= 500 {
      return Failed, !isLast && reply.cancelled;
    }
    return Failed, true;
  }

  /**
   Fetch: the requests made are exactly those up to the first final reply, at most one more than
   the retries; result and cache are settled by the last of them alone.
   */
  method Fetch(c: Cache, server: Server, key: string, t: nat, retries: nat := MAX_RETRIES) returns (r: FetchResult, n: nat, last: nat)
    requires c.Valid()
    modifies c
    ensures c.Valid()
    ensures n == Requests(WorkflowFetcher, server, key, t, TagHeld(old(c.cache), key), retries)
    ensures last == t + n - 1
    ensures r == Outcome(WorkflowFetcher, server, old(c.cache), key, last)
    ensures CacheAfter(old(c.cache), c.cache, server, key, last)
  {
    ghost var before, e := c.cache, TagHeld(c.cache, key);
    n := 0;
    while true
      invariant n <= retries && Asking(WorkflowFetcher, server, key, t, e, n, retries)
      invariant c.Valid() && c.cache == before
      decreases retries - n
    {
      var stop;
      AskAgain(WorkflowFetcher, server, key, t, e, n, retries);
      last := t + n;
      r, stop := Attempt(c, server, key, last, n == retries);
      n := n + 1;
      if stop || n > retries { return; }
    }
  }

  /** After `n` requests the loop has yet to make those of a fetch that starts at the next instant. */
  ghost predicate Asking(client: Client, server: Server, key: string, t: nat, etag: string, n: nat, retries: nat)
  {
    Requests(client, server, key, t, etag, retries)
      == n + if n <= retries then Requests(client, server, key, t + n, etag, retries - n) else 0
  }

  lemma AskAgain(client: Client, server: Server, key: string, t: nat, etag: string, n: nat, retries: nat)
    requires n <= retries && Asking(client, server, key, t, etag, n, retries)
    ensures Final(client, server(key, t + n, etag)) ==> Requests(client, server, key, t, etag, retries) == n + 1
    ensures n == retries || !Final(client, server(key, t + n, etag)) ==> Asking(client, server, key, t, etag, n + 1, retries)
  {}

  /** What a readable 200 brought is what the next 304 for its key gives back, under the tag it came with. */
  lemma StoredIsGivenBack(cache: map<string, Version>, cache': map<string, Version>, server: Server, key: string, t: nat, later: Reply)
    requires CacheAfter(cache, cache', server, key, t) && later.Response? && later.status == 304
    requires var r := server(key, t, TagHeld(cache, key)); r.Response? && r.status == 200 && r.readable
    ensures var r := server(key, t, TagHeld(cache, key));
            && TagHeld(cache', key) == r.version.etag
            && Settle(WorkflowFetcher, later, BodyHeld(cache', key)) == Body(r.version.body)
  {}

  /** Whatever an exchange with an honest server leaves in the cache was the origin's at some instant. */
  lemma CacheStaysCoherent(cache: map<string, Version>, cache': map<string, Version>, server: Server, origin: Origin, key: string, t: nat)
    requires Honest(server, origin) && Coherent(cache, origin) && CacheAfter(cache, cache', server, key, t)
    ensures Coherent(cache', origin)
  {
    if Refreshes(WorkflowFetcher, server(key, t, TagHeld(cache, key))) {
      StoreCoherent(cache, cache', origin, key, t);
    }
  }

  lemma StoreCoherent(cache: map<string, Version>, cache': map<string, Version>, origin: Origin, key: string, t: nat)
    requires Coherent(cache, origin)
    requires key in cache' && cache'[key] == origin(key, t)
    requires forall k :: k in cache' && k != key ==> k in cache && cache'[k] == cache[k]
    ensures Coherent(cache', origin)
  {}

  /** Any sequential run of fetches: each body is the origin's at the instant of its last reply. */
  method FetchRun(c: Cache, server: Server, keys: seq<string>, ghost origin: Origin) returns (rs: seq<FetchResult>, at: seq<nat>)
    requires c.Valid() && c.cache == map[] && Honest(server, origin) && TagLaw(origin)
    modifies c
    ensures |rs| == |keys| && AllCurrent(rs, at, keys, origin)
    ensures forall i, j :: 0 <= i < j < |at| ==> at[i] < at[j]
  {
    rs, at := [], [];
    var now := 0;
    for i := 0 to |keys|
      invariant c.Valid() && Coherent(c.cache, origin)
      invariant |rs| == |at| == i && AllCurrent(rs, at, keys, origin)
      invariant Ascending(at, now)
    {
      ghost var before := c.cache;
      var r, n, last := Fetch(c, server, keys[i], now);
      SettleIsCurrent(WorkflowFetcher, server, origin, before, keys[i], last);
      CacheStaysCoherent(before, c.cache, server, origin, keys[i], last);
      RunGrows(rs, at, keys, origin, now, r, last);
      rs, at := rs + [r], at + [last];
      now := now + n;
    }
  }

  lemma RunGrows(rs: seq<FetchResult>, at: seq<nat>, keys: seq<string>, origin: Origin, now: nat, r: FetchResult, last: nat)
    requires AllCurrent(rs, at, keys, origin) && Ascending(at, now) && |rs| < |keys| && now <= last
    requires r.Body? ==> r.body == origin(keys[|rs|], last).body
    ensures AllCurrent(rs + [r], at + [last], keys, origin) && Ascending(at + [last], last + 1)
  {}

  ghost predicate AllCurrent(rs: seq<FetchResult>, at: seq<nat>, keys: seq<string>, origin: Origin)
  {
    |rs| == |at| <= |keys| && forall i :: 0 <= i < |rs| && rs[i].Body? ==> rs[i].body == origin(keys[i], at[i]).body
  }

  ghost predicate Ascending(at: seq<nat>, bound: nat)
  {
    (forall i :: 0 <= i < |at| ==> at[i] < bound) && forall i, j :: 0 <= i < j < |at| ==> at[i] < at[j]
  }

  // ---------- The unbounded tables of the listing cache and the demand poller ----------

  /** A refreshing reply replaces the entry of its key and nothing else changes. */
  ghost predicate TableAfter(client: Client, table: map<string, Version>, table': map<string, Version>, server: Server, key: string, t: nat)
  {
    var reply := server(key, t, TagHeld(table, key));
    table' == if Refreshes(client, reply) then table[key := reply.version] else table
  }

  /** The same for the tables; an untagged reply to the poller is not kept, and the older entry stays. */
  lemma TableGivesBack(client: Client, table: map<string, Version>, table': map<string, Version>, server: Server, key: string, t: nat)
    requires TableAfter(client, table, table', server, key, t)
    requires var r := server(key, t, TagHeld(table, key)); r.Response? && r.status == 200 && r.readable && r.decodes
    ensures var r := server(key, t, TagHeld(table, key));
            if client.DemandPoller? && r.version.etag == "" then table' == table
            else TagHeld(table', key) == r.version.etag && BodyHeld(table', key) == Some(r.version.body)
  {}

  /** cachedGet in the predictor: one request, and every readable 200 is stored. */
  method CachedGet(table: map<string, Version>, server: Server, key: string, t: nat, ghost origin: Origin)
      returns (r: FetchResult, table': map<string, Version>)
    requires Honest(server, origin) && TagLaw(origin) && Coherent(table, origin)
    ensures Coherent(table', origin) && TableAfter(RunLister, table, table', server, key, t)
    ensures r == Outcome(RunLister, server, table, key, t) && (r.Body? ==> r.body == origin(key, t).body)
  {
    SettleIsCurrent(RunLister, server, origin, table, key, t);
    var reply := server(key, t, TagHeld(table, key));
    r, table' := Failed, table;
    if reply.NoResponse? { return; }
    if reply.status == 200 {
      if !reply.readable { return; }
      table' := table[key := reply.version];
      StoreCoherent(table, table', origin, key, t);
      r := Body(reply.version.body);
    } else if reply.status == 304 {
      if key in table { r := Body(table[key].body); }
    }
  }

  /** The reply, if it is a 200 or 304 whose body can be read. */
  function Usable(r: Reply): Option<Reply>
  {
    if r.Response? && (r.status == 200 || r.status == 304) && r.readable then Some(r) else None
  }

  /** One pass of the loop in doWithRetry; `stop` when it returns. */
  method PollOnce(reply: Reply, isLast: bool) returns (got: Option<Reply>, stop: bool)
    ensures got == Usable(reply) && (got.Some? ==> stop)
    ensures if stop then Final(DemandPoller, reply) else isLast || !Final(DemandPoller, reply)
  {
    if reply.NoResponse? {
      return None, !isLast && reply.cancelled;
    }
    var status := reply.status;
    if status == 200 || status == 304 {
      return (if reply.readable then Some(reply) else None), true;
    } else if status >= 500 {
      return None, !isLast && reply.cancelled;
    } else if status == 429 || status == 403 {
      if reply.wait.None? || isLast { return None, false; }   // `break` leaves only the switch
      return None, reply.cancelled;
    }
    return None, true;
  }

  method DoWithRetry(server: Server, key: string, t: nat, etag: string, retries: nat := MAX_RETRIES) returns (got: Option<Reply>, n: nat)
    ensures n == Requests(DemandPoller, server, key, t, etag, retries)
    ensures got == Usable(server(key, t + n - 1, etag))
  {
    n, got := 0, None;
    while n <= retries
      invariant 0 <= n <= retries + 1 && got == None && Asking(DemandPoller, server, key, t, etag, n, retries)
      invariant n == retries + 1 ==> got == Usable(server(key, t + n - 1, etag))
    {
      AskAgain(DemandPoller, server, key, t, etag, n, retries);
      var stop;
      got, stop := PollOnce(server(key, t + n, etag), n == retries);
      n := n + 1;
      if stop { return; }
    }
  }

  /**
   The poller's get: as many requests as its retry loop makes; a value is the origin's at the
   last reply; only decoded and tagged replies are stored.
   */
  method PollerGet(table: map<string, Version>, server: Server, key: string, t: nat, ghost origin: Origin)
      returns (r: FetchResult, table': map<string, Version>, n: nat)
    requires Honest(server, origin) && TagLaw(origin) && Coherent(table, origin)
    ensures n == Requests(DemandPoller, server, key, t, TagHeld(table, key), MAX_RETRIES)
    ensures Coherent(table', origin) && TableAfter(DemandPoller, table, table', server, key, t + n - 1)
    ensures r == Outcome(DemandPoller, server, table, key, t + n - 1)
    ensures r.Body? ==> r.body == origin(key, t + n - 1).body
  {
    var got;
    got, n := DoWithRetry(server, key, t, TagHeld(table, key));
    SettleIsCurrent(DemandPoller, server, origin, table, key, t + n - 1);
    r, table' := Failed, table;
    if got.None? { return; }
    if got.value.status == 304 {
      if key in table { r := Body(table[key].body); }
      return;
    }
    if !got.value.decodes { return; }
    if got.value.version.etag != "" {
      table' := table[key := got.value.version];
      StoreCoherent(table, table', origin, key, t + n - 1);
    }
    r := Body(got.value.version.body);
  }
}
