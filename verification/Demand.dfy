/**
 The paginated demand count (listRunIDs, countRunJobs and CurrentDemand in
 internal/demand/github_poller.go) against a fixed server snapshot.
 */
module Demand {
  import opened Arithmetic
  import opened Bags
  import opened Labels

  const PER_PAGE: nat := 100

  /** A listing as the server holds it, and the pages whose request fails. */
  datatype Listing<+T> = Listing(items: seq<T>, broken: set<nat>)
  {
    /** The pages a complete listing takes: all full ones and the short one that ends it. */
    function PageCount(): nat
    {
      |items| / PER_PAGE + 1
    }

    ghost predicate Fails()
    {
      exists p :: 1 <= p <= PageCount() && p in broken
    }

    /** The 1-based page `p`; empty past the end. */
    function Page(p: nat): seq<T>
      requires p >= 1
    {
      var from := (p - 1) * PER_PAGE;
      if from >= |items| then []
      else if from + PER_PAGE <= |items| then items[from..from + PER_PAGE]
      else items[from..]
    }

    /** Whether a page is short tells whether it is the last. */
    lemma PageEnds(p: nat)
      requires 1 <= p <= PageCount()
      ensures (p - 1) * PER_PAGE <= |items|
      ensures |Page(p)| < PER_PAGE <==> p == PageCount()
      ensures p < PageCount() ==> items[..(p - 1) * PER_PAGE] + Page(p) == items[..p * PER_PAGE]
      ensures p == PageCount() ==> items[..(p - 1) * PER_PAGE] + Page(p) == items
    {}
  }

  /** All run IDs in order, after exactly the pages needed; an error exactly when one of them fails. */
  method ListRunIds(runs: Listing<int>) returns (ids: Option<seq<int>>, pages: nat)
    ensures ids.None? <==> runs.Fails()
    ensures ids.Some? ==> ids.value == runs.items && pages == |runs.items| / PER_PAGE + 1
    ensures pages <= |runs.items| / PER_PAGE + 1
  {
    var got: seq<int> := [];
    pages := 1;
    while true
      invariant 1 <= pages <= runs.PageCount()
      invariant (pages - 1) * PER_PAGE <= |runs.items| && got == runs.items[..(pages - 1) * PER_PAGE]
      invariant forall p :: 1 <= p < pages ==> p !in runs.broken
      decreases runs.PageCount() - pages
    {
      if pages in runs.broken { return None, pages; }
      var body := runs.Page(pages);
      runs.PageEnds(pages);
      for k := 0 to |body|
        invariant got == runs.items[..(pages - 1) * PER_PAGE] + body[..k]
      {
        got := got + [body[k]];
      }
      assert body[..|body|] == body;
      if |body| < PER_PAGE { break; }
      pages := pages + 1;
    }
    ids := Some(got);
  }

  datatype Job = Job(status: string, labels: seq<string>)

  /** A job in this status whose labels include every wanted one. */
  function Wanted(status: string, want: seq<string>): Job -> bool
  {
    (j: Job) => j.status == status && Includes(j.labels, want)
  }

  ghost function Matching(jobs: seq<Job>, status: string, want: seq<string>): nat
  {
    CountIf(multiset(jobs), Wanted(status, want))
  }

  lemma MatchingAppend(jobs: seq<Job>, j: Job, status: string, want: seq<string>)
    ensures Matching(jobs + [j], status, want)
         == Matching(jobs, status, want) + if j.status == status && Includes(j.labels, want) then 1 else 0
  {
    assert multiset(jobs + [j]) == multiset(jobs) + multiset{j};
    CountIfRemove(multiset(jobs + [j]), Wanted(status, want), j);
    assert multiset(jobs + [j]) - multiset{j} == multiset(jobs);
  }

  /** int32 addition: exact up to truncation of the running total. */
  method Add32(x: int, y: int, ghost n: int, ghost m: int) returns (z: int)
    requires x == ToInt32(n) && y == ToInt32(m)
    ensures z == ToInt32(n + m)
  {
    ToInt32Add(n, m);
    z := ToInt32(x + y);
  }

  /** The two 32-bit counters stand for the matching jobs of `jobs`. */
  ghost predicate Counts(queued: int, running: int, jobs: seq<Job>, want: seq<string>)
  {
    queued == ToInt32(Matching(jobs, "queued", want)) && running == ToInt32(Matching(jobs, "in_progress", want))
  }

  method CountJob(j: Job, want: seq<string>, q0: int, r0: int, ghost before: seq<Job>) returns (queued: int, running: int)
    requires Counts(q0, r0, before, want)
    ensures Counts(queued, running, before + [j], want)
  {
    queued, running := q0, r0;
    MatchingAppend(before, j, "queued", want);
    MatchingAppend(before, j, "in_progress", want);
    var ok := LabelsSuperset(j.labels, want);
    if ok {
      if j.status == "queued" {
        queued := Add32(queued, 1, Matching(before, "queued", want), 1);
      } else if j.status == "in_progress" {
        running := Add32(running, 1, Matching(before, "in_progress", want), 1);
      }
    }
  }

  /** The job loop over one page. */
  method TallyPage(body: seq<Job>, want: seq<string>, q0: int, r0: int, ghost before: seq<Job>) returns (queued: int, running: int)
    requires Counts(q0, r0, before, want)
    ensures Counts(queued, running, before + body, want)
  {
    queued, running := q0, r0;
    assert before + body[..0] == before;
    for k := 0 to |body|
      invariant Counts(queued, running, before + body[..k], want)
    {
      PrefixNext(before, body, k);
      queued, running := CountJob(body[k], want, queued, running, before + body[..k]);
    }
    assert body[..|body|] == body;
  }

  method CountRunJobs(jobs: Listing<Job>, want: seq<string>) returns (counts: Option<(int, int)>)
    ensures counts.None? <==> jobs.Fails()
    ensures counts.Some? ==> counts.value == (ToInt32(Matching(jobs.items, "queued", want)), ToInt32(Matching(jobs.items, "in_progress", want)))
  {
    var queued, running := 0, 0;
    var page := 1;
    ghost var read: seq<Job> := [];
    while true
      invariant 1 <= page <= jobs.PageCount() && (page - 1) * PER_PAGE <= |jobs.items|
      invariant read == jobs.items[..(page - 1) * PER_PAGE]
      invariant Counts(queued, running, read, want)
      invariant forall p :: 1 <= p < page ==> p !in jobs.broken
      decreases jobs.PageCount() - page
    {
      if page in jobs.broken { return None; }
      var body := jobs.Page(page);
      jobs.PageEnds(page);
      queued, running := TallyPage(body, want, queued, running, read);
      read := read + body;
      if |body| < PER_PAGE { break; }
      page := page + 1;
    }
    return Some((queued, running));
  }

  // ---------- The whole snapshot ----------

  /** The two run listings and the jobs of every run. */
  datatype Snapshot = Snapshot(queuedRuns: Listing<int>, runningRuns: Listing<int>, jobs: map<int, Listing<Job>>)
  {
    function JobsOf(id: int): Listing<Job>
    {
      if id in jobs then jobs[id] else Listing([], {})
    }
  }

  /** Matching jobs of the given runs; a run listed twice counts twice. */
  ghost function Total(s: Snapshot, ids: seq<int>, status: string, want: seq<string>): nat
  {
    if ids == [] then 0
    else Total(s, ids[..|ids| - 1], status, want) + Matching(s.JobsOf(ids[|ids| - 1]).items, status, want)
  }

  ghost predicate AnyFails(s: Snapshot, ids: seq<int>)
  {
    exists i :: 0 <= i < |ids| && s.JobsOf(ids[i]).Fails()
  }

  lemma TotalAppend(s: Snapshot, ids: seq<int>, id: int, status: string, want: seq<string>)
    ensures Total(s, ids + [id], status, want) == Total(s, ids, status, want) + Matching(s.JobsOf(id).items, status, want)
  {
    assert (ids + [id])[..|ids|] == ids;
  }

  /** Adding the counts of one run to the running totals `q` and `r`, which stand for `n` and `m`. */
  method AddRun(jobs: Listing<Job>, want: seq<string>, q: int, r: int, ghost n: int, ghost m: int)
      returns (sum: Option<(int, int)>, ghost n': int, ghost m': int)
    requires q == ToInt32(n) && r == ToInt32(m)
    ensures sum.None? <==> jobs.Fails()
    ensures sum.Some? ==> sum.value == (ToInt32(n'), ToInt32(m'))
    ensures n' == n + Matching(jobs.items, "queued", want) && m' == m + Matching(jobs.items, "in_progress", want)
  {
    n', m' := n + Matching(jobs.items, "queued", want), m + Matching(jobs.items, "in_progress", want);
    var counts := CountRunJobs(jobs, want);
    if counts.None? { sum := None; return; }
    var q' := Add32(q, counts.value.0, n, Matching(jobs.items, "queued", want));
    var r' := Add32(r, counts.value.1, m, Matching(jobs.items, "in_progress", want));
    sum := Some((q', r'));
  }

  /** Adding the counts of one list of runs to running 32-bit totals, which stand for `n` and `m`. */
  method AddRuns(s: Snapshot, ids: seq<int>, want: seq<string>, q0: int, r0: int, ghost n: int, ghost m: int) returns (sum: Option<(int, int)>)
    requires q0 == ToInt32(n) && r0 == ToInt32(m)
    ensures sum.None? <==> AnyFails(s, ids)
    ensures sum.Some? ==> sum.value == (ToInt32(n + Total(s, ids, "queued", want)), ToInt32(m + Total(s, ids, "in_progress", want)))
  {
    var q, r := q0, r0;
    ghost var read: seq<int>, tq, tr := [], n, m;   // the exact totals q and r stand for
    for i := 0 to |ids|
      invariant read == ids[..i] && !AnyFails(s, read)
      invariant q == ToInt32(tq) && tq == n + Total(s, read, "queued", want)
      invariant r == ToInt32(tr) && tr == m + Total(s, read, "in_progress", want)
    {
      ghost var id := ids[i];
      PrefixNext([], ids, i);
      FailsAppend(s, read, id, ids[i + 1..]);
      assert read + [id] + ids[i + 1..] == ids;
      TotalAppend(s, read, id, "queued", want);
      TotalAppend(s, read, id, "in_progress", want);
      var sums;
      sums, tq, tr := AddRun(s.JobsOf(ids[i]), want, q, r, tq, tr);
      if sums.None? { return None; }
      q, r, read := sums.value.0, sums.value.1, read + [id];
    }
    assert ids[..|ids|] == ids;
    return Some((q, r));
  }

  lemma FailsAppend(s: Snapshot, ids: seq<int>, id: int, more: seq<int>)
    ensures AnyFails(s, ids + [id]) <==> AnyFails(s, ids) || s.JobsOf(id).Fails()
    ensures s.JobsOf(id).Fails() ==> AnyFails(s, ids + [id] + more)
  {
    assert (ids + [id])[|ids|] == id && (ids + [id] + more)[|ids|] == id;
    assert forall i :: 0 <= i < |ids| ==> (ids + [id])[i] == ids[i];
  }

  /** The number of jobs in `status`, over the runs of both listings, whose labels include `want`. */
  ghost function DemandIn(s: Snapshot, status: string, want: seq<string>): nat
  {
    Total(s, s.queuedRuns.items, status, want) + Total(s, s.runningRuns.items, status, want)
  }

  /** Job `j` of the `i`-th listed run is in this status and its labels include all wanted ones. */
  ghost predicate InDemand(s: Snapshot, ids: seq<int>, status: string, want: seq<string>, i: int, j: int)
  {
    && 0 <= i < |ids| && ids[i] in s.jobs && 0 <= j < |s.jobs[ids[i]].items|
    && s.jobs[ids[i]].items[j].status == status
    && forall w :: w in want ==> w in s.jobs[ids[i]].items[j].labels
  }

  /** The positions of matching jobs in one list. */
  ghost function Hits(jobs: seq<Job>, status: string, want: seq<string>): set<int>
  {
    set j | 0 <= j < |jobs| && jobs[j].status == status && forall w :: w in want ==> w in jobs[j].labels
  }

  lemma HitsSnoc(jobs: seq<Job>, j: Job, status: string, want: seq<string>)
    ensures |Hits(jobs + [j], status, want)|
         == |Hits(jobs, status, want)| + if j.status == status && (forall w :: w in want ==> w in j.labels) then 1 else 0
  {
    var all, was, now, n := jobs + [j], Hits(jobs, status, want), Hits(jobs + [j], status, want), |jobs|;
    assert all[n] == j && forall i :: 0 <= i < n ==> all[i] == jobs[i];
    if n in now {
      assert now == was + {n};
    } else {
      assert now == was;
    }
  }

  lemma {:induction false} MatchingIsHits(jobs: seq<Job>, status: string, want: seq<string>)
    ensures Matching(jobs, status, want) == |Hits(jobs, status, want)|
  {
    if jobs == [] {
      assert Hits(jobs, status, want) == {};
    } else {
      var before, last := jobs[..|jobs| - 1], jobs[|jobs| - 1];
      assert jobs == before + [last];
      MatchingIsHits(before, status, want);
      MatchingAppend(before, last, status, want);
      HitsSnoc(before, last, status, want);
    }
  }

  /** All pairs of a listed run and a job of it that is in demand. */
  ghost function DemandPairs(s: Snapshot, ids: seq<int>, status: string, want: seq<string>): set<(int, int)>
  {
    set i, j | 0 <= i < |ids| && j in Hits(s.JobsOf(ids[i]).items, status, want) :: (i, j)
  }

  lemma PairsMeaning(s: Snapshot, ids: seq<int>, status: string, want: seq<string>, i: int, j: int)
    ensures (i, j) in DemandPairs(s, ids, status, want) <==> InDemand(s, ids, status, want, i, j)
  {}

  ghost function PairsWith<T(!new)>(i: int, hits: set<T>): set<(int, T)>
  {
    set j | j in hits :: (i, j)
  }

  lemma {:induction false} PairsWithSize<T(!new)>(i: int, hits: set<T>)
    ensures |PairsWith(i, hits)| == |hits|
    decreases hits
  {
    if hits == {} {
      assert PairsWith(i, hits) == {};
    } else {
      var j :| j in hits;
      PairsWithSize(i, hits - {j});
      assert PairsWith(i, hits) == PairsWith(i, hits - {j}) + {(i, j)};
    }
  }

  lemma PairsSnoc(s: Snapshot, ids: seq<int>, id: int, status: string, want: seq<string>)
    ensures var before, here := DemandPairs(s, ids, status, want), PairsWith(|ids|, Hits(s.JobsOf(id).items, status, want));
            DemandPairs(s, ids + [id], status, want) == before + here && before !! here
  {
    var all := ids + [id];
    assert all[|ids|] == id && forall i :: 0 <= i < |ids| ==> all[i] == ids[i];
  }

  /** The total over a list of runs is the number of jobs in demand, a run listed twice counting twice. */
  lemma {:induction false} TotalIsDemand(s: Snapshot, ids: seq<int>, status: string, want: seq<string>)
    ensures Total(s, ids, status, want) == |DemandPairs(s, ids, status, want)|
  {
    if ids == [] {
      assert DemandPairs(s, ids, status, want) == {};
    } else {
      var before, id := ids[..|ids| - 1], ids[|ids| - 1];
      assert ids == before + [id];
      TotalIsDemand(s, before, status, want);
      MatchingIsHits(s.JobsOf(id).items, status, want);
      PairsSnoc(s, before, id, status, want);
      PairsWithSize(|before|, Hits(s.JobsOf(id).items, status, want));
    }
  }

  /** The demand is the number of jobs, over the runs of both listings, that are in demand. */
  lemma DemandMeaning(s: Snapshot, status: string, want: seq<string>)
    ensures DemandIn(s, status, want)
         == |DemandPairs(s, s.queuedRuns.items, status, want)| + |DemandPairs(s, s.runningRuns.items, status, want)|
    ensures forall ids, i, j :: (i, j) in DemandPairs(s, ids, status, want) <==> InDemand(s, ids, status, want, i, j)
  {
    TotalIsDemand(s, s.queuedRuns.items, status, want);
    TotalIsDemand(s, s.runningRuns.items, status, want);
  }

  /** Both counts, as 32-bit integers; an error exactly when a page that is needed fails. */
  method CurrentDemand(s: Snapshot, want: seq<string>) returns (demand: Option<(int, int)>)
    ensures demand.None? <==> (ListingFails(s, s.queuedRuns) || ListingFails(s, s.runningRuns))
    ensures demand.Some? ==> demand.value == (ToInt32(DemandIn(s, "queued", want)), ToInt32(DemandIn(s, "in_progress", want)))
  {
    ghost var q, r := Total(s, s.queuedRuns.items, "queued", want), Total(s, s.queuedRuns.items, "in_progress", want);
    var first := AddListing(s, s.queuedRuns, want, 0, 0, 0, 0);
    if first.None? { return None; }
    demand := AddListing(s, s.runningRuns, want, first.value.0, first.value.1, q, r);
  }

  ghost predicate ListingFails(s: Snapshot, runs: Listing<int>)
  {
    runs.Fails() || AnyFails(s, runs.items)
  }

  /** One of the two listings, added to running totals which stand for `n` and `m`. */
  method AddListing(s: Snapshot, runs: Listing<int>, want: seq<string>, q0: int, r0: int, ghost n: int, ghost m: int)
      returns (sum: Option<(int, int)>)
    requires q0 == ToInt32(n) && r0 == ToInt32(m)
    ensures sum.None? <==> ListingFails(s, runs)
    ensures sum.Some? ==> sum.value == (ToInt32(n + Total(s, runs.items, "queued", want)), ToInt32(m + Total(s, runs.items, "in_progress", want)))
  {
    var ids, pages := ListRunIds(runs);
    if ids.None? { return None; }
    sum := AddRuns(s, ids.value, want, q0, r0, n, m);
  }
}
