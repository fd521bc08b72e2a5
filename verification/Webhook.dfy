/**
 The webhook pipeline: receiver (internal/webhook/receiver.go), replay guard, dispatcher
 (internal/webhook/dispatcher.go) and event feed (internal/activity/event_feed.go), against the
 history of everything that arrived. Header and body decoding, the installation lookup and the
 signature check enter as facts about each arrival.
 */
module Webhook {
  import opened Arithmetic
  import opened Bags
  import opened Grouping
  import opened Labels
  import opened Recency
  import opened ReplayGuards
  import opened Tallies

  datatype Push = Push(repo: string, after: string)

  datatype JobEvent = JobEvent(action: string, repo: string, labels: Option<seq<string>>)

  /** One delivery; `asPush` and `asJob` are what its body decodes to, if it does. */
  datatype Delivery = Delivery(
    event: string, id: string, target: string, targetKnown: bool,
    asPush: Option<Push>, asJob: Option<JobEvent>, at: int)

  datatype BodyRead = Read | TooLarge | Unreadable

  datatype Arrival =
    | Http(isPost: bool, body: BodyRead, signature: string, signatureOk: bool, delivery: Delivery)
    | Tunnel(delivery: Delivery)

  // ---------- What the pipeline is for, from the history ----------

  /** The arrival passes every check before the replay guard. Tunnelled frames carry no usable signature. */
  predicate Reaches(a: Arrival)
  {
    var d := a.delivery;
    && d.event != "" && d.id != "" && d.target != "" && d.targetKnown
    && (a.Http? ==> a.isPost && a.body == Read && a.signature != "" && a.signatureOk)
  }

  /** The labels of the job a delivery announces for `repo`, if it is a queued one with labels. */
  function JobFor(d: Delivery, repo: string): Option<seq<string>>
  {
    if d.event == "workflow_job" && d.asJob.Some? && d.asJob.value.action == "queued" && d.asJob.value.repo == repo != ""
    then d.asJob.value.labels else None
  }

  /** The delivery leaves a trace in the feed under `repo`. */
  predicate Recorded(d: Delivery, repo: string)
  {
    JobFor(d, repo).Some? || (d.event == "push" && d.asPush.Some? && d.asPush.value.repo == repo != "")
  }

  /** The body is what its event type calls for, if the dispatcher looks at it at all. */
  predicate Decodes(d: Delivery)
  {
    !(d.event == "push" && d.asPush.None?) && !(d.event == "workflow_job" && d.asJob.None?)
  }

  function EntryOf(d: Delivery): Entry<int>
  {
    Entry(d.id, d.at)
  }

  function Entries(ds: seq<Delivery>): seq<Entry<int>>
  {
    if ds == [] then [] else Entries(ds[..|ds| - 1]) + [EntryOf(ds[|ds| - 1])]
  }

  /** The guard calls made by a history. */
  ghost function Calls(history: seq<Arrival>): seq<Entry<int>>
  {
    if history == [] then []
    else
      var last := history[|history| - 1];
      Calls(history[..|history| - 1]) + if Reaches(last) then [EntryOf(last.delivery)] else []
  }

  lemma CallsSnoc(history: seq<Arrival>, a: Arrival)
    ensures Calls(history + [a]) == if Reaches(a) then Calls(history) + [EntryOf(a.delivery)] else Calls(history)
  {
    assert (history + [a])[..|history|] == history;
  }

  /** The deliveries the guard lets through. */
  ghost function Accepted(history: seq<Arrival>, cap: nat, ttl: int): seq<Delivery>
  {
    if history == [] then []
    else
      var before, last := Accepted(history[..|history| - 1], cap, ttl), history[|history| - 1];
      if Reaches(last) && !Remembered(Entries(before), cap, ttl, last.delivery.id, last.delivery.at)
      then before + [last.delivery] else before
  }

  ghost function JobsIn(d: Delivery, repo: string): multiset<seq<string>>
  {
    if JobFor(d, repo).Some? then multiset{JobFor(d, repo).value} else multiset{}
  }

  /** The jobs announced for a repository, by label list. */
  ghost function JobsFor(ds: seq<Delivery>, repo: string): multiset<seq<string>>
  {
    if ds == [] then multiset{} else JobsFor(ds[..|ds| - 1], repo) + JobsIn(ds[|ds| - 1], repo)
  }

  /** When the last recorded event of a repository came. */
  ghost function LastEvent(ds: seq<Delivery>, repo: string): Option<int>
  {
    if ds == [] then None
    else if Recorded(ds[|ds| - 1], repo) then Some(ds[|ds| - 1].at)
    else LastEvent(ds[..|ds| - 1], repo)
  }

  lemma Snoc(ds: seq<Delivery>, d: Delivery, repo: string)
    ensures JobsFor(ds + [d], repo) == JobsFor(ds, repo) + JobsIn(d, repo)
    ensures LastEvent(ds + [d], repo) == if Recorded(d, repo) then Some(d.at) else LastEvent(ds, repo)
  {
    assert (ds + [d])[..|ds|] == ds;
  }

  // ---------- The event feed ----------

  datatype RepoState = RepoState(perLabelSet: Tally, lastEvent: int, lastHeadSha: string)

  function TallyAt(repos: map<string, RepoState>, repo: string): Tally
  {
    if repo in repos then repos[repo].perLabelSet else map[]
  }

  function EventAt(repos: map<string, RepoState>, repo: string): Option<int>
  {
    if repo in repos then Some(repos[repo].lastEvent) else None
  }

  function HeadAt(repos: map<string, RepoState>, repo: string): string
  {
    if repo in repos then repos[repo].lastHeadSha else ""
  }

  ghost predicate AgreesOn(repos: map<string, RepoState>, ds: seq<Delivery>, repo: string)
  {
    && TallyAt(repos, repo) == Credit(map[], JobsFor(ds, repo), KeyOf)
    && EventAt(repos, repo) == LastEvent(ds, repo)
  }

  /** The feed state is what these deliveries, and nothing else, leave behind. */
  ghost predicate Agrees(repos: map<string, RepoState>, ds: seq<Delivery>)
  {
    forall repo :: AgreesOn(repos, ds, repo)
  }

  /** The delivery announces a queued job of this repository, with labels that have this key. */
  predicate AddsJob(d: Delivery, repo: string, key: string)
  {
    && d.event == "workflow_job" && repo != "" && d.asJob.Some?
    && d.asJob.value.action == "queued" && d.asJob.value.repo == repo
    && d.asJob.value.labels.Some? && KeyOf(d.asJob.value.labels.value) == key
  }

  lemma CreditJobs(t: Tally, d: Delivery, repo: string, key: string)
    ensures At(Credit(t, JobsIn(d, repo), KeyOf), key) == At(t, key) + if AddsJob(d, repo, key) then 1 else 0
  {
    CreditAt(t, JobsIn(d, repo), KeyOf, key);
    var job := JobFor(d, repo);
    if job.Some? {
      CopiesOne(job.value);
      CountIfCopies(job.value, 1, HasKey(KeyOf, key));
    }
  }

  class Feed {
    var repos: map<string, RepoState>

    constructor ()
      ensures repos == map[]
    {
      repos := map[];
    }

    /** No count of any repository changes; the event time and head of this one do. */
    method RecordPush(repo: string, headSha: string, now: int)
      modifies this
      ensures forall r :: TallyAt(repos, r) == TallyAt(old(repos), r)
      ensures forall r :: EventAt(repos, r) == if r == repo != "" then Some(now) else EventAt(old(repos), r)
      ensures forall r :: HeadAt(repos, r) == if r == repo != "" then headSha else HeadAt(old(repos), r)
    {
      if repo == "" { return; }
      repos := repos[repo := RepoState(TallyAt(repos, repo), now, headSha)];
    }

    /** One job is credited to this repository under the key of its labels, and nothing to any other. */
    method RecordJob(repo: string, labels: Option<seq<string>>, now: int)
      modifies this
      ensures var one := if labels.Some? then multiset{labels.value} else multiset{};
              forall r :: TallyAt(repos, r) == if r == repo != "" then Credit(TallyAt(old(repos), r), one, KeyOf) else TallyAt(old(repos), r)
      ensures forall r :: EventAt(repos, r) == if r == repo != "" && labels.Some? then Some(now) else EventAt(old(repos), r)
      ensures forall r :: HeadAt(repos, r) == HeadAt(old(repos), r)
    {
      if repo == "" || labels.None? {
        CreditNothing<seq<string>>(TallyAt(repos, repo), KeyOf);
        return;
      }
      var after := CountJobs(TallyAt(repos, repo), labels.value, 1);
      CopiesOne(labels.value);
      repos := repos[repo := RepoState(after, now, HeadAt(repos, repo))];
    }

    /** A copy of the counts and the time of the last event, or nothing for an unknown repository. */
    method Snapshot(repo: string) returns (perLabelSet: Tally, lastEvent: Option<int>)
      ensures perLabelSet == TallyAt(repos, repo) && lastEvent == EventAt(repos, repo)
    {
      if repo !in repos { return map[], None; }
      perLabelSet := map[];
      var todo := repos[repo].perLabelSet.Keys;
      while todo != {}
        invariant todo <= repos[repo].perLabelSet.Keys
        invariant perLabelSet == repos[repo].perLabelSet - todo
        decreases todo
      {
        var k :| k in todo;
        perLabelSet := perLabelSet[k := repos[repo].perLabelSet[k]];
        todo := todo - {k};
      }
      lastEvent := Some(repos[repo].lastEvent);
    }

    /** Dispatcher.Handle: an error exactly when the body of a push or workflow_job does not decode. */
    method Dispatch(d: Delivery, ghost ds: seq<Delivery>) returns (ok: bool)
      requires Agrees(repos, ds)
      modifies this
      ensures Agrees(repos, ds + [d])
      ensures ok <==> Decodes(d)
      ensures d.event == "push" ==> (ok <==> d.asPush.Some?)
      ensures d.event == "workflow_job" ==> (ok <==> d.asJob.Some?)
      ensures d.event != "push" && d.event != "workflow_job" ==> ok
      ensures forall r, key :: At(TallyAt(repos, r), key) == At(TallyAt(old(repos), r), key) + if AddsJob(d, r, key) then 1 else 0
      ensures forall r ::
                var pushed := d.event == "push" && d.asPush.Some? && d.asPush.value.repo == r;
                var queued := d.event == "workflow_job" && d.asJob.Some? && d.asJob.value.repo == r
                              && d.asJob.value.action == "queued" && d.asJob.value.labels.Some?;
                EventAt(repos, r) == if r != "" && (pushed || queued) then Some(d.at) else EventAt(old(repos), r)
    {
      ghost var before := repos;
      ok := true;
      if d.event == "push" {
        if d.asPush.None? {
          ok := false;
        } else {
          RecordPush(d.asPush.value.repo, d.asPush.value.after, d.at);
        }
      } else if d.event == "workflow_job" {
        if d.asJob.None? {
          ok := false;
        } else if d.asJob.value.action == "queued" {
          RecordJob(d.asJob.value.repo, d.asJob.value.labels, d.at);
        }
      }
      forall repo ensures AgreesOn(repos, ds + [d], repo) {
        CreditNothing<seq<string>>(TallyAt(before, repo), KeyOf);
        DispatchOn(before, repos, ds, d, repo);
      }
      forall r, key ensures At(TallyAt(repos, r), key) == At(TallyAt(before, r), key) + if AddsJob(d, r, key) then 1 else 0 {
        CreditNothing<seq<string>>(TallyAt(before, r), KeyOf);
        CreditJobs(TallyAt(before, r), d, r, key);
      }
    }
  }

  /** What dispatching one delivery changes for one repository. */
  lemma DispatchOn(before: map<string, RepoState>, after: map<string, RepoState>, ds: seq<Delivery>, d: Delivery, repo: string)
    requires AgreesOn(before, ds, repo)
    requires TallyAt(after, repo) == Credit(TallyAt(before, repo), JobsIn(d, repo), KeyOf)
    requires EventAt(after, repo) == if Recorded(d, repo) then Some(d.at) else EventAt(before, repo)
    ensures AgreesOn(after, ds + [d], repo)
  {
    Snoc(ds, d, repo);
    CreditPlus(map[], JobsFor(ds, repo), JobsIn(d, repo), KeyOf);
  }

  // ---------- The receiver ----------

  /** Whether the guard treats the next arrival as a replay. */
  ghost predicate IsReplay(history: seq<Arrival>, cap: nat, ttl: int, a: Arrival)
  {
    Remembered(Entries(Accepted(history, cap, ttl)), cap, ttl, a.delivery.id, a.delivery.at)
  }

  /** All four headers are there. */
  predicate Headers(a: Arrival)
    requires a.Http?
  {
    a.delivery.event != "" && a.delivery.id != "" && a.delivery.target != "" && a.signature != ""
  }

  /** Why an HTTP delivery is turned away before the guard, first cause first. */
  function RefusalStatus(a: Arrival): (status: int)
    requires a.Http?
    ensures 400 <= status < 500
  {
    var d := a.delivery;
    if !a.isPost then 405
    else if a.body == TooLarge then 413
    else if a.body == Unreadable || d.event == "" || d.id == "" || d.target == "" || a.signature == "" then 400
    else if !d.targetKnown then 404
    else 401
  }

  /** The checks of an HTTP delivery before the guard, in the source's order. */
  method CheckRequest(a: Arrival) returns (refusal: Option<int>)
    requires a.Http?
    ensures refusal == if Reaches(a) then None else Some(RefusalStatus(a))
  {
    var d := a.delivery;
    if !a.isPost { return Some(405); }
    if a.body == TooLarge { return Some(413); }
    if a.body == Unreadable { return Some(400); }
    if d.event == "" || d.id == "" || a.signature == "" || d.target == "" { return Some(400); }
    if !d.targetKnown { return Some(404); }
    if !a.signatureOk { return Some(401); }
    return None;
  }

  class Receiver {
    const guard: ReplayGuard
    const feed: Feed
    ghost var history: seq<Arrival>

    ghost predicate Valid()
      reads this, guard, feed
    {
      && guard.Valid()
      && guard.accepted == Entries(Accepted(history, Capacity(guard.size), guard.ttl))
      && Agrees(feed.repos, Accepted(history, Capacity(guard.size), guard.ttl))
    }

    constructor (guard: ReplayGuard, feed: Feed)
      requires guard.Valid() && guard.accepted == [] && feed.repos == map[]
      ensures Valid() && history == [] && this.guard == guard && this.feed == feed
    {
      this.guard, this.feed, history := guard, feed, [];
    }

    /** The part shared by both paths, after every earlier check has passed. */
    method GuardAndDispatch(a: Arrival) returns (replay: bool, ok: bool)
      requires Valid() && Reaches(a)
      modifies this, guard, feed
      ensures Valid() && history == old(history) + [a]
      ensures replay == IsReplay(old(history), Capacity(guard.size), guard.ttl, a)
      ensures ok == (replay || Decodes(a.delivery))
    {
      ghost var ds := Accepted(history, Capacity(guard.size), guard.ttl);
      AcceptedSnoc(history, a, Capacity(guard.size), guard.ttl);
      history := history + [a];
      replay := guard.Seen(a.delivery.id, a.delivery.at);
      if replay {
        return true, true;
      }
      ok := feed.Dispatch(a.delivery, ds);
    }

    method Reject(a: Arrival)
      requires Valid() && !Reaches(a)
      modifies `history
      ensures Valid() && history == old(history) + [a]
    {
      AcceptedSnoc(history, a, Capacity(guard.size), guard.ttl);
      history := history + [a];
    }

    /** ServeHTTP with handle: the status tells exactly what became of the delivery. */
    method ServeHttp(a: Arrival) returns (status: int)
      requires Valid() && a.Http?
      modifies this, guard, feed
      ensures Valid() && history == old(history) + [a]
      ensures status == 200 <==> Reaches(a) && (IsReplay(old(history), Capacity(guard.size), guard.ttl, a) || Decodes(a.delivery))
      ensures status == 500 <==> Reaches(a) && !IsReplay(old(history), Capacity(guard.size), guard.ttl, a) && !Decodes(a.delivery)
      ensures status == 405 <==> !a.isPost
      ensures status == 413 <==> a.isPost && a.body == TooLarge
      ensures status == 400 <==> a.isPost && (a.body == Unreadable || (a.body == Read && !Headers(a)))
      ensures status == 404 <==> a.isPost && a.body == Read && Headers(a) && !a.delivery.targetKnown
      ensures status == 401 <==> a.isPost && a.body == Read && Headers(a) && a.delivery.targetKnown && !a.signatureOk
      ensures status in {200, 500} <==> a.isPost && a.body == Read && Headers(a) && a.delivery.targetKnown && a.signatureOk
      ensures status !in {200, 500} ==> guard.accepted == old(guard.accepted) && feed.repos == old(feed.repos)
    {
      var refusal := CheckRequest(a);
      if refusal.Some? {
        Reject(a);
        return refusal.value;
      }
      var replay, ok := GuardAndDispatch(a);
      status := if ok then 200 else 500;
    }

    method HandleFrame(a: Arrival) returns (ok: bool)
      requires Valid() && a.Tunnel?
      modifies this, guard, feed
      ensures Valid() && history == old(history) + [a]
      ensures ok <==> Reaches(a) && (IsReplay(old(history), Capacity(guard.size), guard.ttl, a) || Decodes(a.delivery))
      ensures var d := a.delivery;
              d.event == "" || d.id == "" || d.target == "" || !d.targetKnown ==>
                !ok && guard.accepted == old(guard.accepted) && feed.repos == old(feed.repos)
      ensures var d := a.delivery;
              d.event != "" && d.id != "" && d.target != "" && d.targetKnown && !ok ==>
                !IsReplay(old(history), Capacity(guard.size), guard.ttl, a)
    {
      var d := a.delivery;
      if d.event == "" || d.id == "" || d.target == "" { Reject(a); return false; }
      if !d.targetKnown { Reject(a); return false; }
      var replay;
      replay, ok := GuardAndDispatch(a);
    }
  }

  lemma AcceptedSnoc(history: seq<Arrival>, a: Arrival, cap: nat, ttl: int)
    ensures Accepted(history + [a], cap, ttl)
         == Accepted(history, cap, ttl) + if Reaches(a) && !IsReplay(history, cap, ttl, a) then [a.delivery] else []
    ensures var ds := Accepted(history, cap, ttl); Entries(ds + [a.delivery]) == Entries(ds) + [EntryOf(a.delivery)]
  {
    assert (history + [a])[..|history|] == history;
    var ds := Accepted(history, cap, ttl);
    assert (ds + [a.delivery])[..|ds|] == ds;
  }

  /** Only genuine deliveries are ever accepted: tunnelled ones, and posts whose signature was verified. */
  lemma {:induction false} AcceptedGenuine(history: seq<Arrival>, cap: nat, ttl: int, d: Delivery)
    requires d in Accepted(history, cap, ttl)
    ensures d.event != "" && d.id != "" && d.target != "" && d.targetKnown
    ensures exists a :: a in history && a.delivery == d && (a.Tunnel? || (a.isPost && a.body == Read && a.signatureOk))
  {
    var before, last := history[..|history| - 1], history[|history| - 1];
    if d in Accepted(before, cap, ttl) {
      AcceptedGenuine(before, cap, ttl, d);
      assert forall a :: a in before ==> a in history;
    } else {
      assert last in history && last.delivery == d;
    }
  }

  // ---------- Exactly-once counting ----------

  lemma AcceptedEntriesStep(before: seq<Arrival>, last: Arrival, cap: nat, ttl: int)
    requires Entries(Accepted(before, cap, ttl)) == AcceptedOf(cap, ttl, Calls(before))
    ensures Entries(Accepted(before + [last], cap, ttl)) == AcceptedOf(cap, ttl, Calls(before + [last]))
  {
    AcceptedSnoc(before, last, cap, ttl);
    CallsSnoc(before, last);
    AcceptedOfSnoc(cap, ttl, Calls(before), EntryOf(last.delivery));
  }

  lemma {:induction false} AcceptedEntries(history: seq<Arrival>, cap: nat, ttl: int)
    ensures Entries(Accepted(history, cap, ttl)) == AcceptedOf(cap, ttl, Calls(history))
  {
    if history != [] {
      var before, last := history[..|history| - 1], history[|history| - 1];
      assert history == before + [last];
      AcceptedEntries(before, cap, ttl);
      AcceptedEntriesStep(before, last, cap, ttl);
    }
  }

  /** The `i`-th arrival is the first with its ID to reach the guard. */
  ghost predicate FirstReach(history: seq<Arrival>, i: int)
  {
    && 0 <= i < |history| && Reaches(history[i])
    && forall j :: 0 <= j < i && Reaches(history[j]) ==> history[j].delivery.id != history[i].delivery.id
  }

  /** The IDs whose first delivery to reach the guard announces a job for `repo` under `key`. */
  ghost function CountedIds(history: seq<Arrival>, repo: string, key: string): set<string>
  {
    set i | 0 <= i < |history| && FirstReach(history, i) && AddsJob(history[i].delivery, repo, key) :: history[i].delivery.id
  }

  ghost predicate CalledAt(history: seq<Arrival>, id: string, j: int)
  {
    0 <= j < |history| && Reaches(history[j]) && history[j].delivery.id == id
  }

  lemma CalledSnoc(before: seq<Arrival>, last: Arrival, id: string)
    ensures (exists j :: CalledAt(before + [last], id, j))
       <==> (exists j :: CalledAt(before, id, j)) || (Reaches(last) && last.delivery.id == id)
  {
    var history := before + [last];
    assert forall j :: 0 <= j < |before| ==> history[j] == before[j];
    if j :| CalledAt(before, id, j) { assert CalledAt(history, id, j); }
    if j :| CalledAt(history, id, j) { assert j < |before| ==> CalledAt(before, id, j); }
    if Reaches(last) && last.delivery.id == id { assert CalledAt(history, id, |before|); }
  }

  lemma {:induction false} CallsKeys(history: seq<Arrival>, id: string)
    ensures id in KeySet(Calls(history)) <==> exists j :: CalledAt(history, id, j)
  {
    if history != [] {
      var before, last := history[..|history| - 1], history[|history| - 1];
      assert history == before + [last];
      CallsKeys(before, id);
      CallsSnoc(before, last);
      KeySetSnoc(Calls(before), EntryOf(last.delivery));
      CalledSnoc(before, last, id);
    }
  }

  lemma FirstReachSnoc(before: seq<Arrival>, last: Arrival)
    ensures forall i :: 0 <= i < |before| ==> (FirstReach(before + [last], i) <==> FirstReach(before, i))
    ensures FirstReach(before + [last], |before|) <==> Reaches(last) && last.delivery.id !in KeySet(Calls(before))
  {
    var history, id := before + [last], last.delivery.id;
    CallsKeys(before, id);
    assert forall j :: 0 <= j < |before| ==> history[j] == before[j];
    if j :| CalledAt(before, id, j) {
      assert Reaches(history[j]) && history[j].delivery.id == id;
    } else {
      forall j | 0 <= j < |before| && Reaches(history[j]) ensures history[j].delivery.id != id {
        assert !CalledAt(before, id, j);
      }
    }
  }

  lemma CountedSnoc(before: seq<Arrival>, last: Arrival, repo: string, key: string)
    ensures var isNew := Reaches(last) && last.delivery.id !in KeySet(Calls(before)) && AddsJob(last.delivery, repo, key);
            && CountedIds(before + [last], repo, key) == CountedIds(before, repo, key) + (if isNew then {last.delivery.id} else {})
            && (isNew ==> last.delivery.id !in CountedIds(before, repo, key))
  {
    var history, id := before + [last], last.delivery.id;
    FirstReachSnoc(before, last);
    CallsKeys(before, id);
    forall i | 0 <= i < |before| && FirstReach(before, i) && AddsJob(before[i].delivery, repo, key)
      ensures before[i].delivery.id in CountedIds(history, repo, key)
    {
      assert history[i] == before[i];
    }
    forall i | 0 <= i < |history| && FirstReach(history, i) && AddsJob(history[i].delivery, repo, key)
      ensures history[i].delivery.id in CountedIds(before, repo, key) || (i == |before| && history[i] == last)
    {
      if i < |before| { assert history[i] == before[i]; }
    }
    forall i | FirstReach(before, i) && before[i].delivery.id == id ensures id in KeySet(Calls(before)) {
      assert CalledAt(before, id, i);
    }
    assert history[|before|] == last;
  }

  /**
   In any mix of HTTP and tunnelled arrivals whose guard calls span at most one ttl and at most
   `cap` distinct IDs, the count under (repo, key) is the number of distinct IDs whose first
   delivery to reach the guard announces such a job.
   */
  lemma {:induction false} ExactlyOnce(history: seq<Arrival>, cap: nat, ttl: int, repo: string, key: string)
    requires Within(Calls(history), ttl) && |KeySet(Calls(history))| <= cap
    ensures CountIf(JobsFor(Accepted(history, cap, ttl), repo), HasKey(KeyOf, key)) == |CountedIds(history, repo, key)|
  {
    if history != [] {
      var before, last := history[..|history| - 1], history[|history| - 1];
      assert history == before + [last];
      CallsPrefix(before, last, cap, ttl);
      ExactlyOnce(before, cap, ttl, repo, key);
      AcceptedSnoc(before, last, cap, ttl);
      ReplayIffCalled(before, last, cap, ttl);
      CountedSnoc(before, last, repo, key);
      if Reaches(last) && last.delivery.id !in KeySet(Calls(before)) {
        CountOneMore(Accepted(before, cap, ttl), last.delivery, repo, key);
      }
    }
  }

  lemma CountOneMore(ds: seq<Delivery>, d: Delivery, repo: string, key: string)
    ensures CountIf(JobsFor(ds + [d], repo), HasKey(KeyOf, key))
         == CountIf(JobsFor(ds, repo), HasKey(KeyOf, key)) + if AddsJob(d, repo, key) then 1 else 0
  {
    Snoc(ds, d, repo);
    CountIfPlus(JobsFor(ds, repo), JobsIn(d, repo), HasKey(KeyOf, key));
    var job := JobFor(d, repo);
    if job.Some? {
      CopiesOne(job.value);
      CountIfCopies(job.value, 1, HasKey(KeyOf, key));
    }
  }

  /** Read from the feed itself: under those bounds its counter is the number of such IDs. */
  lemma FeedCountsOnce(r: Receiver, repo: string, key: string)
    requires r.Valid()
    requires Within(Calls(r.history), r.guard.ttl) && |KeySet(Calls(r.history))| <= Capacity(r.guard.size)
    ensures At(TallyAt(r.feed.repos, repo), key) == |CountedIds(r.history, repo, key)|
  {
    var cap, ttl := Capacity(r.guard.size), r.guard.ttl;
    var ds := Accepted(r.history, cap, ttl);
    assert AgreesOn(r.feed.repos, ds, repo);
    CreditAt(map[], JobsFor(ds, repo), KeyOf, key);
    ExactlyOnce(r.history, cap, ttl, repo, key);
  }

  ghost function AcceptedCount(history: seq<Arrival>, cap: nat, ttl: int, repo: string, key: string): nat
  {
    CountIf(JobsFor(Accepted(history, cap, ttl), repo), HasKey(KeyOf, key))
  }

  lemma CountNeverFalls(history: seq<Arrival>, a: Arrival, cap: nat, ttl: int, repo: string, key: string)
    ensures AcceptedCount(history, cap, ttl, repo, key) <= AcceptedCount(history + [a], cap, ttl, repo, key)
  {
    AcceptedSnoc(history, a, cap, ttl);
    CountOneMore(Accepted(history, cap, ttl), a.delivery, repo, key);
  }

  /** Counters only grow: whatever arrives later, no count falls. */
  lemma {:induction false} CountsNeverFall(history: seq<Arrival>, later: seq<Arrival>, cap: nat, ttl: int, repo: string, key: string)
    ensures AcceptedCount(history, cap, ttl, repo, key) <= AcceptedCount(history + later, cap, ttl, repo, key)
    decreases |later|
  {
    if later == [] {
      assert history + later == history;
    } else {
      var more := history + [later[0]];
      CountNeverFalls(history, later[0], cap, ttl, repo, key);
      CountsNeverFall(more, later[1..], cap, ttl, repo, key);
      assert more + later[1..] == history + later;
    }
  }

  lemma CallsPrefix(before: seq<Arrival>, last: Arrival, cap: nat, ttl: int)
    requires Within(Calls(before + [last]), ttl) && |KeySet(Calls(before + [last]))| <= cap
    ensures Within(Calls(before), ttl) && |KeySet(Calls(before))| <= cap
  {
    var calls, all := Calls(before), Calls(before + [last]);
    CallsSnoc(before, last);
    assert forall i :: 0 <= i < |calls| ==> all[i] == calls[i];
    if Reaches(last) {
      KeySetSnoc(calls, EntryOf(last.delivery));
      if last.delivery.id in KeySet(calls) {
        assert KeySet(all) == KeySet(calls);
      } else {
        StrictSubsetSize(KeySet(calls), KeySet(all), last.delivery.id);
      }
    }
  }

  /** Within the bounds, an arrival that reaches the guard is a replay exactly when its ID was seen before. */
  lemma ReplayIffCalled(before: seq<Arrival>, last: Arrival, cap: nat, ttl: int)
    requires Within(Calls(before + [last]), ttl) && |KeySet(Calls(before + [last]))| <= cap
    ensures Reaches(last) ==> (IsReplay(before, cap, ttl, last) <==> last.delivery.id in KeySet(Calls(before)))
  {
    if Reaches(last) {
      var calls, all, e := Calls(before), Calls(before + [last]), EntryOf(last.delivery);
      CallsSnoc(before, last);
      AcceptedOfSnoc(cap, ttl, calls, e);
      assert all[..|calls|] == calls;
      CallsPrefix(before, last, cap, ttl);
      AcceptedOnce(cap, ttl, calls);
      AcceptedOnce(cap, ttl, all);
      AcceptedEntries(before, cap, ttl);
    }
  }

  // ---------- The signal a reconcile reads from the feed ----------

  const DEFAULT_ACTIVE_WINDOW: int := 600_000_000_000

  datatype Signal = Signal(contrib: int, activeUntil: int)

  /**
   computeActivityFromFeed: nothing exactly when no recorded event of the repository is at most
   one window old; otherwise the accepted jobs of the whole history and the end of the window.
   */
  method FeedContribution(r: Receiver, repo: string, windowSeconds: Option<int>, now: int, want: seq<string>)
      returns (signal: Option<Signal>)
    requires r.Valid()
    ensures var ds := Accepted(r.history, Capacity(r.guard.size), r.guard.ttl);
            var seconds := if windowSeconds.Some? && windowSeconds.value > 0 then windowSeconds.value else 600;
            var last, window := LastEvent(ds, repo), seconds * 1_000_000_000;
            && (signal.Some? <==> last.Some? && now - last.value <= window)
            && (signal.Some? ==> signal.value.activeUntil == last.value + window)
            && (signal.Some? ==> ReadsAs(signal.value.contrib, JobsFor(ds, repo), want))
  {
    ghost var ds := Accepted(r.history, Capacity(r.guard.size), r.guard.ttl);
    assert AgreesOn(r.feed.repos, ds, repo);
    var perLabelSet, lastEvent := r.feed.Snapshot(repo);
    if lastEvent.None? { return None; }
    var window := DEFAULT_ACTIVE_WINDOW;
    if windowSeconds.Some? && windowSeconds.value > 0 {
      window := windowSeconds.value * 1_000_000_000;
    }
    if now - lastEvent.value > window { return None; }
    var contrib := PolicyContribution(perLabelSet, JobsFor(ds, repo), want);
    return Some(Signal(contrib, lastEvent.value + window));
  }
}
