/**
 Progress of the imminent frontier (internal/predictor/workflow_needs_graph.go, the test in
 walkWorkflow and allMaterialized): when repeatedly materializing the imminent jobs reaches
 every job of a workflow, for every `needs` graph.
 */
module Frontier {
  import opened Arithmetic
  import opened Workflows

  ghost predicate NeedsExist(wf: Workflow)
  {
    forall id, n :: id in wf.jobs && n in wf.jobs[id].needs ==> n in wf.jobs
  }

  /** Each job of `c` needs the next one, and the last needs the first. */
  ghost predicate IsCycle(wf: Workflow, c: seq<string>)
  {
    && c != []
    && (forall i :: 0 <= i < |c| ==> c[i] in wf.jobs)
    && (forall i :: 0 <= i < |c| - 1 ==> c[i + 1] in wf.jobs[c[i]].needs)
    && c[0] in wf.jobs[c[|c| - 1]].needs
  }

  ghost predicate Acyclic(wf: Workflow)
  {
    forall c :: !IsCycle(wf, c)
  }

  /** `next` picks for a job a need that is again in `next`. */
  ghost predicate Blocks(wf: Workflow, next: map<string, string>, id: string)
  {
    id in next ==> id in wf.jobs && next[id] in next && next[id] in wf.jobs[id].needs
  }

  ghost predicate Deadlock(wf: Workflow, next: map<string, string>)
  {
    next.Keys != {} && forall id :: Blocks(wf, next, id)
  }

  /** A walk of `n + 1` jobs that follows `next`. */
  ghost function Chase(wf: Workflow, next: map<string, string>, n: nat): (path: seq<string>)
    requires Deadlock(wf, next)
    ensures |path| == n + 1
    ensures forall i :: 0 <= i <= n ==> path[i] in next
    ensures forall i :: 0 <= i < n ==> path[i + 1] == next[path[i]]
  {
    if n == 0 then var id :| id in next; [id]
    else
      var path := Chase(wf, next, n - 1);
      assert Blocks(wf, next, path[n - 1]);
      path + [next[path[n - 1]]]
  }

  /** Pigeonhole: a sequence longer than the set it is drawn from repeats a member. */
  lemma {:induction false} Repeats(path: seq<string>, s: set<string>) returns (i: nat, j: nat)
    requires |path| > |s| && forall k :: 0 <= k < |path| ==> path[k] in s
    ensures i < j < |path| && path[i] == path[j]
  {
    var last := path[|path| - 1];
    if k :| 0 <= k < |path| - 1 && path[k] == last {
      return k, |path| - 1;
    }
    i, j := Repeats(path[..|path| - 1], s - {last});
  }

  lemma DeadlockHasCycle(wf: Workflow, next: map<string, string>)
    requires Deadlock(wf, next)
    ensures !Acyclic(wf)
  {
    var path := Chase(wf, next, |next.Keys|);
    var i, j := Repeats(path, next.Keys);
    var c := path[i..j];
    forall k | 0 <= k < |c|
      ensures c[k] in wf.jobs && path[i + k + 1] in wf.jobs[c[k]].needs
    {
      assert Blocks(wf, next, c[k]);
    }
    assert IsCycle(wf, c);
  }

  /** Some job is imminent as long as any job is unmaterialized, whatever has run so far. */
  ghost predicate AlwaysProgresses(wf: Workflow)
  {
    forall done :: done <= wf.jobs.Keys && done != wf.jobs.Keys ==> ImminentJobs(wf, done) != {}
  }

  /** Some need of a job that is not in `done`, if there is one. */
  ghost function Blocker(job: Job, done: set<string>): string
  {
    if exists n :: n in job.needs && n !in done then var n :| n in job.needs && n !in done; n else ""
  }

  lemma Missing(a: set<string>, b: set<string>) returns (x: string)
    requires a <= b && a != b
    ensures x in b && x !in a
  {
    assert !(b <= a);
    x :| x in b && x !in a;
  }

  lemma NoDeadlock(wf: Workflow, done: set<string>)
    requires Acyclic(wf) && NeedsExist(wf)
    requires done <= wf.jobs.Keys && done != wf.jobs.Keys
    ensures ImminentJobs(wf, done) != {}
  {
    if ImminentJobs(wf, done) == {} {
      var next := map id | id in wf.jobs && id !in done :: Blocker(wf.jobs[id], done);
      forall id ensures Blocks(wf, next, id) {
        if id in next {
          assert id !in ImminentJobs(wf, done);
          assert !Imminent(id, wf.jobs[id], done);
        }
      }
      assert next.Keys != {} by {
        var x := Missing(done, wf.jobs.Keys);
        assert x in next;
      }
      DeadlockHasCycle(wf, next);
    }
  }

  /** The walk never runs dry early exactly when `needs` is acyclic and names only existing jobs. */
  lemma ProgressIff(wf: Workflow)
    ensures AlwaysProgresses(wf) <==> Acyclic(wf) && NeedsExist(wf)
  {
    if Acyclic(wf) && NeedsExist(wf) {
      forall done | done <= wf.jobs.Keys && done != wf.jobs.Keys ensures ImminentJobs(wf, done) != {} {
        NoDeadlock(wf, done);
      }
    }
    if !NeedsExist(wf) {
      var id, n :| id in wf.jobs && n in wf.jobs[id].needs && n !in wf.jobs;
      var done := wf.jobs.Keys - {id};
      assert id !in done && id in wf.jobs.Keys;
      assert ImminentJobs(wf, done) == {};
    }
    if !Acyclic(wf) {
      var c :| IsCycle(wf, c);
      var done := set id | id in wf.jobs && id !in c;
      assert c[0] !in done && c[0] in wf.jobs.Keys;
      forall id | id in wf.jobs ensures id !in ImminentJobs(wf, done) {
        if id in c {
          var i :| 0 <= i < |c| && c[i] == id;
          var n := if i < |c| - 1 then c[i + 1] else c[0];
          assert n in wf.jobs[id].needs && n in c;
        }
      }
      assert ImminentJobs(wf, done) == {};
    }
  }

  /** The jobs materialized after `n` rounds of running every imminent job. */
  ghost function Rounds(wf: Workflow, done: set<string>, n: nat): set<string>
  {
    if n == 0 then done else var m := Rounds(wf, done, n - 1); m + ImminentJobs(wf, m)
  }

  lemma {:induction false} RoundsGrow(wf: Workflow, n: nat)
    requires AlwaysProgresses(wf)
    ensures Rounds(wf, {}, n) <= wf.jobs.Keys
    ensures Rounds(wf, {}, n) == wf.jobs.Keys || |Rounds(wf, {}, n)| >= n
  {
    if n > 0 {
      RoundsGrow(wf, n - 1);
      RoundGrows(wf, Rounds(wf, {}, n - 1));
    }
  }

  lemma RoundGrows(wf: Workflow, m: set<string>)
    requires AlwaysProgresses(wf) && m <= wf.jobs.Keys
    ensures m + ImminentJobs(wf, m) <= wf.jobs.Keys
    ensures m == wf.jobs.Keys || |m + ImminentJobs(wf, m)| > |m|
  {
    if m != wf.jobs.Keys {
      var id :| id in ImminentJobs(wf, m);
      assert id !in m;
      StrictSubsetSize(m, m + ImminentJobs(wf, m), id);
    }
  }

  /**
   On an acyclic workflow whose needs exist, materializing each frontier in turn covers every
   job within as many rounds as there are jobs, and no job is in two frontiers.
   */
  lemma FrontiersCoverAll(wf: Workflow)
    requires Acyclic(wf) && NeedsExist(wf)
    ensures Rounds(wf, {}, |wf.jobs|) == wf.jobs.Keys
    ensures forall a, b :: 0 <= a < b ==> ImminentJobs(wf, Rounds(wf, {}, a)) !! ImminentJobs(wf, Rounds(wf, {}, b))
  {
    ProgressIff(wf);
    RoundsFinish(wf);
    forall a, b | 0 <= a < b ensures ImminentJobs(wf, Rounds(wf, {}, a)) !! ImminentJobs(wf, Rounds(wf, {}, b)) {
      RoundsMonotone(wf, a + 1, b);
      ReadyOnce(wf, Rounds(wf, {}, a), Rounds(wf, {}, b));
    }
  }

  lemma RoundsFinish(wf: Workflow)
    requires AlwaysProgresses(wf)
    ensures Rounds(wf, {}, |wf.jobs|) == wf.jobs.Keys
  {
    var m := Rounds(wf, {}, |wf.jobs|);
    RoundsGrow(wf, |wf.jobs|);
    if m != wf.jobs.Keys {
      var id := Missing(m, wf.jobs.Keys);
      StrictSubsetSize(m, wf.jobs.Keys, id);
    }
  }

  lemma ReadyOnce(wf: Workflow, m: set<string>, later: set<string>)
    requires m + ImminentJobs(wf, m) <= later
    ensures ImminentJobs(wf, m) !! ImminentJobs(wf, later)
  {}

  lemma {:induction false} RoundsMonotone(wf: Workflow, a: nat, b: nat)
    requires a <= b
    ensures Rounds(wf, {}, a) <= Rounds(wf, {}, b)
  {
    if a < b { RoundsMonotone(wf, a, b - 1); }
  }
}
