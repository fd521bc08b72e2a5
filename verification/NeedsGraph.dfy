/**
 The needs-graph predictor (internal/predictor/workflow_needs_graph.go): a denotation of the
 walk over reusable workflows, and the imperative walk with its shared `visited` set and
 accumulating tally, which refines it for every order in which Go visits a job map.
 */
module NeedsGraph {
  import opened Arithmetic
  import opened Bags
  import opened Grouping
  import opened Labels
  import opened Tallies
  import opened Workflows
  import opened RunListing

  const MAX_REUSABLE_DEPTH: nat := 10

  datatype Reason = RunsOnExpr | MatrixExpr | RemoteUses | DepthExceeded | Cycle

  /** Calls of the observation hooks; the last two are the activity sampler's filters. */
  datatype Hook = Skipped(reason: Reason) | YamlFetched | YamlError | BotFiltered(why: string) | EventFiltered(event: string)

  /** Jobs about to start, by resolved label list, and hook calls; both without order. */
  datatype Meaning = Meaning(starts: multiset<seq<string>>, hooks: multiset<Hook>)
  {
    ghost function Plus(other: Meaning): Meaning
    {
      Meaning(starts + other.starts, hooks + other.hooks)
    }
  }

  lemma PlusSwap(a: Meaning, b: Meaning, c: Meaning)
    ensures a.Plus(b.Plus(c)) == b.Plus(a.Plus(c))
  {}

  /** A hook call followed by `m`. */
  lemma ToldPlus(h: Hook, m: Meaning)
    ensures Told(h).Plus(m).starts == m.starts
    ensures Told(h).Plus(m).hooks == multiset{h} + m.hooks
  {}

  const NOTHING := Meaning(multiset{}, multiset{})

  function Told(h: Hook): Meaning
  {
    Meaning(multiset{}, multiset{h})
  }

  /** The sum of the parts named in `ids`. */
  ghost function Total<K>(parts: map<K, Meaning>, ids: set<K>): Meaning
    requires ids <= parts.Keys
  {
    if ids == {} then NOTHING
    else
      var id :| id in ids;
      parts[id].Plus(Total(parts, ids - {id}))
  }

  /** The sum may be taken in any order. */
  lemma {:induction false} TotalRemove<K>(parts: map<K, Meaning>, ids: set<K>, id: K)
    requires ids <= parts.Keys && id in ids
    ensures Total(parts, ids) == parts[id].Plus(Total(parts, ids - {id}))
    decreases ids
  {
    var y :| y in ids && Total(parts, ids) == parts[y].Plus(Total(parts, ids - {y}));
    if y != id {
      TotalRemove(parts, ids - {y}, id);
      TotalRemove(parts, ids - {id}, y);
      PlusSwap(parts[y], parts[id], Total(parts, ids - {y} - {id}));
      assert ids - {y} - {id} == ids - {id} - {y};
    }
  }

  /** Adding one more part, seen from the tally and from the hooks. */
  lemma TotalStep(t: Tally, parts: map<string, Meaning>, done: set<string>, id: string)
    requires done <= parts.Keys && id in parts && id !in done
    ensures Credit(Credit(t, Total(parts, done).starts, KeyOf), parts[id].starts, KeyOf)
         == Credit(t, Total(parts, done + {id}).starts, KeyOf)
    ensures Total(parts, done).hooks + parts[id].hooks == Total(parts, done + {id}).hooks
  {
    TotalRemove(parts, done + {id}, id);
    assert done + {id} - {id} == done;
    CreditPlus(t, Total(parts, done).starts, parts[id].starts, KeyOf);
    assert Total(parts, done + {id}).starts == Total(parts, done).starts + parts[id].starts;
  }

  lemma DoneStep(all: set<string>, todo: set<string>, id: string)
    requires id in todo
    ensures all - (todo - {id}) == if id in all then (all - todo) + {id} else all - todo
  {}

  // ---------- Denotation ----------

  /** What is fixed while one run is walked: the repository at its commit and its materialized jobs. */
  datatype Scope = Scope(files: Files, materialized: set<string>)

  /**
   What a workflow contributes when reached through the calls in `stack`. There is no depth
   counter and no shared set: the stack of callers is a value, and its size is the depth.
   */
  ghost function WorkflowMeaning(scope: Scope, wf: Workflow, stack: set<string>): Meaning
    requires |stack| <= MAX_REUSABLE_DEPTH
    decreases MAX_REUSABLE_DEPTH - |stack|, 3
  {
    var parts := Parts(scope, wf, stack);
    Total(parts, parts.Keys)
  }

  /** The contribution of each imminent job. */
  ghost function Parts(scope: Scope, wf: Workflow, stack: set<string>): (parts: map<string, Meaning>)
    requires |stack| <= MAX_REUSABLE_DEPTH
    ensures parts.Keys == ImminentJobs(wf, scope.materialized)
    decreases MAX_REUSABLE_DEPTH - |stack|, 2
  {
    map id | id in ImminentJobs(wf, scope.materialized) :: JobMeaning(scope, wf.jobs[id], stack)
  }

  ghost function JobMeaning(scope: Scope, job: Job, stack: set<string>): Meaning
    requires |stack| <= MAX_REUSABLE_DEPTH
    decreases MAX_REUSABLE_DEPTH - |stack|, 1
  {
    if job.usesRemote then Told(Skipped(RemoteUses))
    else if job.usesLocal != "" then CallMeaning(scope, LocalPath(job.usesLocal), stack)
    else if job.runsOn.isDynamic then Told(Skipped(RunsOnExpr))
    else if job.matrix.isDynamic then Told(Skipped(MatrixExpr))
    else Meaning(Copies(ResolveLabels(job.runsOn), StartCount(job)), multiset{})
  }

  ghost function CallMeaning(scope: Scope, path: string, stack: set<string>): Meaning
    requires |stack| <= MAX_REUSABLE_DEPTH
    decreases MAX_REUSABLE_DEPTH - |stack|, 0
  {
    if |stack| == MAX_REUSABLE_DEPTH then Told(Skipped(DepthExceeded))
    else if path in stack then Told(Skipped(Cycle))
    else if path !in scope.files then Told(YamlError)
    else match scope.files[path]
      case Unparsable => Told(YamlFetched)
      case Parsed(wf) => Told(YamlFetched).Plus(WorkflowMeaning(scope, wf, stack + {path}))
  }

  // ---------- Starts, counted from the fields of the jobs ----------

  lemma {:induction false} TotalStarts<K>(parts: map<K, Meaning>, counts: map<K, nat>, ids: set<K>, labels: seq<string>)
    requires ids <= parts.Keys && ids <= counts.Keys
    requires forall id :: id in ids ==> parts[id].starts[labels] == counts[id]
    ensures Total(parts, ids).starts[labels] == SumOf(counts, ids)
    decreases ids
  {
    if ids != {} {
      var id :| id in ids;
      TotalRemove(parts, ids, id);
      SumOfRemove(counts, ids, id);
      TotalStarts(parts, counts, ids - {id}, labels);
    }
  }

  lemma {:induction false} TotalHooks<K>(parts: map<K, Meaning>, counts: map<K, nat>, ids: set<K>, h: Hook)
    requires ids <= parts.Keys && ids <= counts.Keys
    requires forall id :: id in ids ==> parts[id].hooks[h] == counts[id]
    ensures Total(parts, ids).hooks[h] == SumOf(counts, ids)
    decreases ids
  {
    if ids != {} {
      var id :| id in ids;
      TotalRemove(parts, ids, id);
      SumOfRemove(counts, ids, id);
      TotalHooks(parts, counts, ids - {id}, h);
    }
  }

  /** A job that calls no local workflow starts what it asks for. */
  lemma JobStarts(scope: Scope, job: Job, stack: set<string>, labels: seq<string>)
    requires |stack| <= MAX_REUSABLE_DEPTH && (job.usesRemote || job.usesLocal == "")
    ensures JobMeaning(scope, job, stack).starts[labels] == AsksFor(job, labels)
  {
    assert [] + job.runsOn.labels == job.runsOn.labels;
    if labels != ResolveLabels(job.runsOn) {
      assert Copies(ResolveLabels(job.runsOn), StartCount(job))[labels] == 0;
    }
  }

  /**
   For a workflow that calls no other: under each label list, the sum, over the jobs that are not
   materialized and whose needs all are, of what each asks for.
   */
  lemma FlatStarts(scope: Scope, wf: Workflow, stack: set<string>, labels: seq<string>)
    requires |stack| <= MAX_REUSABLE_DEPTH
    requires forall id :: id in wf.jobs ==> wf.jobs[id].usesRemote || wf.jobs[id].usesLocal == ""
    ensures var ready := set id | id in wf.jobs && id !in scope.materialized
                                  && forall n :: n in wf.jobs[id].needs ==> n in scope.materialized;
            var asked: map<string, nat> := map id | id in ready :: AsksFor(wf.jobs[id], labels);
            WorkflowMeaning(scope, wf, stack).starts[labels] == SumOf(asked, ready)
  {
    var ready := set id | id in wf.jobs && id !in scope.materialized
                          && forall n :: n in wf.jobs[id].needs ==> n in scope.materialized;
    var asked: map<string, nat> := map id | id in ready :: AsksFor(wf.jobs[id], labels);
    var parts := Parts(scope, wf, stack);
    assert parts.Keys == ready;
    forall id | id in ready ensures parts[id].starts[labels] == asked[id] {
      JobStarts(scope, wf.jobs[id], stack, labels);
    }
    TotalStarts(parts, asked, ready, labels);
  }

  // ---------- Size of the recursion ----------

  function Pow(b: nat, n: nat): nat
  {
    if n == 0 then 1 else b * Pow(b, n - 1)
  }

  /** b + b^2 + ... + b^n */
  function PowerSum(b: nat, n: nat): nat
  {
    if n == 0 then 0 else PowerSum(b, n - 1) + Pow(b, n)
  }

  lemma {:induction false} PowerSumNested(b: nat, n: nat)
    ensures PowerSum(b, n + 1) == b * (1 + PowerSum(b, n))
  {
    if n == 0 {
      assert Pow(b, 1) == b * Pow(b, 0);
    } else {
      PowerSumNested(b, n - 1);
      MulDistributes(b, 1 + PowerSum(b, n - 1), Pow(b, n));
    }
  }

  /** At most `b` calls, each with one fetch and whatever the callee does with `n` levels left. */
  lemma CallsTimes(calls: nat, b: nat, n: nat)
    requires calls <= b
    ensures calls * (1 + PowerSum(b, n)) <= PowerSum(b, n + 1)
  {
    PowerSumNested(b, n);
    MulMonotone(calls, b, 1 + PowerSum(b, n));
  }

  ghost function Fetches(m: Meaning): nat
  {
    m.hooks[YamlFetched] + m.hooks[YamlError]
  }

  /** The jobs of `ids` that call a local reusable workflow. */
  ghost function LocalCalls(wf: Workflow, ids: set<string>): set<string>
  {
    set id | id in ids && id in wf.jobs && CallsLocal(wf.jobs[id])
  }

  /** Every workflow in the repository makes at most `b` local calls. */
  ghost predicate CallsBounded(files: Files, b: nat)
  {
    forall path :: path in files && files[path].Parsed?
      ==> |LocalCalls(files[path].workflow, files[path].workflow.jobs.Keys)| <= b
  }

  ghost predicate CallsLocal(job: Job)
  {
    job.usesLocal != "" && !job.usesRemote
  }

  /** On any call graph, cyclic or not, there are at most b + b^2 + ... + b^(10 - depth) fetches. */
  lemma {:induction false} FetchBound(scope: Scope, wf: Workflow, stack: set<string>, b: nat)
    requires |stack| <= MAX_REUSABLE_DEPTH
    requires CallsBounded(scope.files, b) && |LocalCalls(wf, wf.jobs.Keys)| <= b
    ensures Fetches(WorkflowMeaning(scope, wf, stack)) <= PowerSum(b, MAX_REUSABLE_DEPTH - |stack|)
    decreases MAX_REUSABLE_DEPTH - |stack|, 2
  {
    var parts := Parts(scope, wf, stack);
    var c := PerCall(b, |stack|);
    forall id | id in parts ensures Fetches(parts[id]) <= if CallsLocal(wf.jobs[id]) then c else 0 {
      JobFetchBound(scope, wf.jobs[id], stack, b);
    }
    TotalFetches(wf, parts, parts.Keys, c);
    SubsetSize(LocalCalls(wf, parts.Keys), LocalCalls(wf, wf.jobs.Keys));
    if |stack| < MAX_REUSABLE_DEPTH {
      CallsTimes(|LocalCalls(wf, parts.Keys)|, b, MAX_REUSABLE_DEPTH - |stack| - 1);
    }
  }

  /** The most fetches one local call made at this depth can cause. */
  ghost function PerCall(b: nat, depth: nat): nat
    requires depth <= MAX_REUSABLE_DEPTH
  {
    if depth == MAX_REUSABLE_DEPTH then 0 else 1 + PowerSum(b, MAX_REUSABLE_DEPTH - depth - 1)
  }

  lemma {:induction false} TotalFetches(wf: Workflow, parts: map<string, Meaning>, ids: set<string>, c: nat)
    requires ids <= parts.Keys <= wf.jobs.Keys
    requires forall id :: id in ids ==> Fetches(parts[id]) <= if CallsLocal(wf.jobs[id]) then c else 0
    ensures Fetches(Total(parts, ids)) <= |LocalCalls(wf, ids)| * c
    decreases ids
  {
    if ids != {} {
      var id :| id in ids;
      TotalRemove(parts, ids, id);
      TotalFetches(wf, parts, ids - {id}, c);
      LocalCallsRemove(wf, ids, id);
      MulNext(|LocalCalls(wf, ids - {id})|, c);
    }
  }

  lemma LocalCallsRemove(wf: Workflow, ids: set<string>, id: string)
    requires id in ids && ids <= wf.jobs.Keys
    ensures |LocalCalls(wf, ids)| == |LocalCalls(wf, ids - {id})| + if CallsLocal(wf.jobs[id]) then 1 else 0
  {
    var rest := LocalCalls(wf, ids - {id});
    if CallsLocal(wf.jobs[id]) {
      assert LocalCalls(wf, ids) == rest + {id};
    } else {
      assert LocalCalls(wf, ids) == rest;
    }
  }

  lemma {:induction false} JobFetchBound(scope: Scope, job: Job, stack: set<string>, b: nat)
    requires |stack| <= MAX_REUSABLE_DEPTH && CallsBounded(scope.files, b)
    ensures Fetches(JobMeaning(scope, job, stack)) <= if CallsLocal(job) then PerCall(b, |stack|) else 0
    decreases MAX_REUSABLE_DEPTH - |stack|, 0
  {
    if CallsLocal(job) {
      var path := LocalPath(job.usesLocal);
      assert JobMeaning(scope, job, stack) == CallMeaning(scope, path, stack);
      if |stack| < MAX_REUSABLE_DEPTH && path !in stack && path in scope.files && scope.files[path].Parsed? {
        FetchBound(scope, scope.files[path].workflow, stack + {path}, b);
      }
    }
  }

  // ---------- One run and one poll ----------

  /** One active run: its jobs listing (if it succeeded), its workflow path and the repository at its head commit. */
  datatype Run = Run(jobs: Option<set<string>>, path: string, files: Files)

  ghost function RunMeaning(run: Run): Meaning
  {
    if run.jobs.None? then NOTHING
    else if run.path !in run.files then Told(YamlError)
    else match run.files[run.path]
      case Unparsable => Told(YamlFetched)
      case Parsed(wf) => Told(YamlFetched).Plus(WorkflowMeaning(Scope(run.files, run.jobs.value), wf, {}))
  }

  ghost function PollMeaning(runs: seq<Listed<Run>>): Meaning
  {
    if runs == [] then NOTHING else PollMeaning(runs[..|runs| - 1]).Plus(RunMeaning(runs[|runs| - 1].run))
  }

  lemma PollStep(t: Tally, runs: seq<Listed<Run>>, i: nat)
    requires i < |runs|
    ensures Credit(Credit(t, PollMeaning(runs[..i]).starts, KeyOf), RunMeaning(runs[i].run).starts, KeyOf)
         == Credit(t, PollMeaning(runs[..i + 1]).starts, KeyOf)
    ensures PollMeaning(runs[..i]).hooks + RunMeaning(runs[i].run).hooks == PollMeaning(runs[..i + 1]).hooks
  {
    assert runs[..i + 1][..i] == runs[..i];
    CreditPlus(t, PollMeaning(runs[..i]).starts, RunMeaning(runs[i].run).starts, KeyOf);
  }

  /** A poll starts what its runs start, each run once. */
  lemma {:induction false} PollStarts(runs: seq<Listed<Run>>, labels: seq<string>, each: seq<nat>)
    requires |each| == |runs| && forall i :: 0 <= i < |runs| ==> each[i] == RunMeaning(runs[i].run).starts[labels]
    ensures PollMeaning(runs).starts[labels] == SumAll(each)
  {
    if runs != [] { PollStarts(runs[..|runs| - 1], labels, each[..|runs| - 1]); }
  }

  // ---------- The imperative walk ----------

  /** The cycle-detection key of a path; owner, repository and commit are fixed during a walk. */
  datatype Context = Context(owner: string, repo: string, sha: string)
  {
    function VisitKey(path: string): string
    {
      owner + "/" + repo + "/" + path + "@" + sha
    }

    ghost function VisitKeys(paths: set<string>): set<string>
    {
      set p | p in paths :: VisitKey(p)
    }

    lemma VisitKeyInjective(p: string, q: string)
      requires VisitKey(p) == VisitKey(q)
      ensures p == q
    {
      var pre := owner + "/" + repo + "/";
      assert VisitKey(p) == pre + p + "@" + sha && VisitKey(q) == pre + q + "@" + sha;
      assert |p| == |q|;
      assert p == VisitKey(p)[|pre|..|pre| + |p|];
      assert q == VisitKey(q)[|pre|..|pre| + |q|];
    }

    lemma VisitKeyIn(p: string, paths: set<string>)
      ensures VisitKey(p) in VisitKeys(paths) <==> p in paths
    {
      if VisitKey(p) in VisitKeys(paths) {
        var q :| q in paths && VisitKey(q) == VisitKey(p);
        VisitKeyInjective(p, q);
      }
    }

    lemma VisitKeysAdd(p: string, paths: set<string>)
      ensures VisitKeys(paths + {p}) == VisitKeys(paths) + {VisitKey(p)}
    {}
  }

  class Walker {
    const ctx: Context
    var dst: Tally
    var visited: set<string>
    var hooks: multiset<Hook>

    constructor (ctx: Context)
      ensures dst == map[] && visited == {} && hooks == multiset{} && this.ctx == ctx
    {
      this.ctx := ctx;
      dst, visited, hooks := map[], {}, multiset{};
    }

    method Emit(h: Hook)
      modifies `hooks
      ensures hooks == old(hooks) + multiset{h}
    {
      hooks := hooks + multiset{h};
    }

    /**
     Whatever order the loop below takes the jobs in, `dst` and the hooks gain exactly the
     denotation and `visited` is left as found. `stack` lists the callers; the requires on it,
     established at every call, say that `visited` holds their keys and its size is the depth.
     */
    method WalkWorkflow(scope: Scope, wf: Workflow, depth: nat, ghost stack: set<string>)
      requires depth == |stack| == |visited| <= MAX_REUSABLE_DEPTH && visited == ctx.VisitKeys(stack)
      modifies this
      ensures visited == old(visited)
      ensures dst == Credit(old(dst), WorkflowMeaning(scope, wf, stack).starts, KeyOf)
      ensures hooks == old(hooks) + WorkflowMeaning(scope, wf, stack).hooks
      decreases MAX_REUSABLE_DEPTH - depth, 4
    {
      WalkJobs(scope, wf, depth, stack, Parts(scope, wf, stack));
    }

    /** The loop of WalkWorkflow, against the contribution of each imminent job. */
    method WalkJobs(scope: Scope, wf: Workflow, depth: nat, ghost stack: set<string>, ghost parts: map<string, Meaning>)
      requires depth == |stack| == |visited| <= MAX_REUSABLE_DEPTH && visited == ctx.VisitKeys(stack)
      requires parts.Keys == ImminentJobs(wf, scope.materialized)
      requires forall id :: id in parts ==> parts[id] == JobMeaning(scope, wf.jobs[id], stack)
      modifies this
      ensures visited == old(visited)
      ensures dst == Credit(old(dst), Total(parts, parts.Keys).starts, KeyOf)
      ensures hooks == old(hooks) + Total(parts, parts.Keys).hooks
      decreases MAX_REUSABLE_DEPTH - depth, 3
    {
      var todo := wf.jobs.Keys;
      ghost var done: set<string> := {};
      CreditNothing<seq<string>>(dst, KeyOf);
      while todo != {}
        invariant todo <= wf.jobs.Keys && visited == old(visited)
        invariant done == parts.Keys - todo
        invariant dst == Credit(old(dst), Total(parts, done).starts, KeyOf)
        invariant hooks == old(hooks) + Total(parts, done).hooks
        decreases todo
      {
        var id :| id in todo;   // Go visits map keys in an unspecified order
        var job := wf.jobs[id];
        DoneStep(parts.Keys, todo, id);
        todo := todo - {id};
        var ready := id !in scope.materialized;
        if ready {
          ready := AllMaterialized(job.needs, scope.materialized);
        }
        assert id in parts <==> ready;
        if ready {
          TotalStep(old(dst), parts, done, id);
          done := done + {id};
          WalkJob(scope, job, depth, stack);
        }
      }
      assert done == parts.Keys;
    }

    /** The body of the source's loop for one imminent job. */
    method WalkJob(scope: Scope, job: Job, depth: nat, ghost stack: set<string>)
      requires depth == |stack| == |visited| <= MAX_REUSABLE_DEPTH && visited == ctx.VisitKeys(stack)
      modifies this
      ensures visited == old(visited)
      ensures dst == Credit(old(dst), JobMeaning(scope, job, stack).starts, KeyOf)
      ensures hooks == old(hooks) + JobMeaning(scope, job, stack).hooks
      ensures !job.usesRemote && job.usesLocal == "" && !job.runsOn.isDynamic && !job.matrix.isDynamic ==>
                var key := KeyOf((if job.runsOn.group != "" then ["group:" + job.runsOn.group] else []) + job.runsOn.labels);
                var count := if job.matrix.combos == [] then 1 else |job.matrix.combos|;
                dst == old(dst)[key := At(old(dst), key) + count] && hooks == old(hooks)
      decreases MAX_REUSABLE_DEPTH - depth, 2
    {
      CreditNothing<seq<string>>(dst, KeyOf);
      if job.usesRemote {
        Emit(Skipped(RemoteUses));
      } else if job.usesLocal != "" {
        RecurseLocal(scope, job.usesLocal, depth, stack);
      } else if job.runsOn.isDynamic {
        Emit(Skipped(RunsOnExpr));
      } else if job.matrix.isDynamic {
        Emit(Skipped(MatrixExpr));
      } else {
        CountStarts(job);
      }
    }

    /** One start per matrix combination, or one, under the key of the job's labels and group. */
    method CountStarts(job: Job)
      modifies `dst
      ensures dst == Credit(old(dst), Copies(ResolveLabels(job.runsOn), StartCount(job)), KeyOf)
      ensures var key := KeyOf((if job.runsOn.group != "" then ["group:" + job.runsOn.group] else []) + job.runsOn.labels);
              dst == old(dst)[key := At(old(dst), key) + if job.matrix.combos == [] then 1 else |job.matrix.combos|]
    {
      var labels := ResolveLabels(job.runsOn);
      var count := 1;
      if |job.matrix.combos| > 0 {
        count := |job.matrix.combos|;
      }
      assert [] + job.runsOn.labels == job.runsOn.labels;
      CreditCopies(dst, labels, count, KeyOf);
      dst := CountJobs(dst, labels, count);
    }

    method RecurseLocal(scope: Scope, usesPath: string, depth: nat, ghost stack: set<string>)
      requires depth == |stack| == |visited| <= MAX_REUSABLE_DEPTH && visited == ctx.VisitKeys(stack)
      modifies this
      ensures visited == old(visited)
      ensures dst == Credit(old(dst), CallMeaning(scope, LocalPath(usesPath), stack).starts, KeyOf)
      ensures hooks == old(hooks) + CallMeaning(scope, LocalPath(usesPath), stack).hooks
      decreases MAX_REUSABLE_DEPTH - depth, 1
    {
      CreditNothing<seq<string>>(dst, KeyOf);
      if depth + 1 > MAX_REUSABLE_DEPTH {
        Emit(Skipped(DepthExceeded));
        return;
      }
      var path := LocalPath(usesPath);
      var visitKey := ctx.VisitKey(path);
      ctx.VisitKeyIn(path, stack);
      if visitKey in visited {
        Emit(Skipped(Cycle));
        return;
      }
      visited := visited + {visitKey};
      ctx.VisitKeysAdd(path, stack);
      LoadAndWalk(scope, path, depth, stack);
      visited := visited - {visitKey};
    }

    /** Fetching, parsing and walking the callee, between entering and leaving its visit key. */
    method LoadAndWalk(scope: Scope, path: string, depth: nat, ghost stack: set<string>)
      requires depth == |stack| < MAX_REUSABLE_DEPTH && path !in stack
      requires |visited| == depth + 1 && visited == ctx.VisitKeys(stack + {path})
      modifies this
      ensures visited == old(visited)
      ensures dst == Credit(old(dst), CallMeaning(scope, path, stack).starts, KeyOf)
      ensures hooks == old(hooks) + CallMeaning(scope, path, stack).hooks
      decreases MAX_REUSABLE_DEPTH - depth, 0
    {
      CreditNothing<seq<string>>(dst, KeyOf);
      if path !in scope.files {
        Emit(YamlError);
        return;
      }
      Emit(YamlFetched);
      if scope.files[path].Unparsable? { return; }
      var wf := scope.files[path].workflow;
      ToldPlus(YamlFetched, WorkflowMeaning(scope, wf, stack + {path}));
      WalkWorkflow(scope, wf, depth + 1, stack + {path});
    }

    /** One run of the poll; every per-run failure drops only that run. */
    method ContributeRun(run: Run)
      modifies this
      ensures dst == Credit(old(dst), RunMeaning(run).starts, KeyOf)
      ensures hooks == old(hooks) + RunMeaning(run).hooks
      ensures run.jobs.None? || run.path !in run.files || run.files[run.path].Unparsable? ==> dst == old(dst)
      ensures run.jobs.Some? && run.path in run.files && run.files[run.path].Parsed? ==>
                var m := WorkflowMeaning(Scope(run.files, run.jobs.value), run.files[run.path].workflow, {});
                dst == Credit(old(dst), m.starts, KeyOf) && hooks == old(hooks) + multiset{YamlFetched} + m.hooks
    {
      CreditNothing<seq<string>>(dst, KeyOf);
      if run.jobs.None? { return; }
      if run.path !in run.files {
        Emit(YamlError);
        return;
      }
      Emit(YamlFetched);
      if run.files[run.path].Unparsable? { return; }
      visited := {};
      var scope, wf := Scope(run.files, run.jobs.value), run.files[run.path].workflow;
      assert visited == ctx.VisitKeys({});
      ToldPlus(YamlFetched, WorkflowMeaning(scope, wf, {}));
      WalkWorkflow(scope, wf, 0, {});
    }

    method ContributeRuns(runs: seq<Listed<Run>>)
      modifies this
      ensures dst == Credit(old(dst), PollMeaning(runs).starts, KeyOf)
      ensures hooks == old(hooks) + PollMeaning(runs).hooks
    {
      CreditNothing<seq<string>>(dst, KeyOf);
      for i := 0 to |runs|
        invariant dst == Credit(old(dst), PollMeaning(runs[..i]).starts, KeyOf)
        invariant hooks == old(hooks) + PollMeaning(runs[..i]).hooks
      {
        ContributeRun(runs[i].run);
        PollStep(old(dst), runs, i);
      }
      assert runs[..|runs|] == runs;
    }
  }

  method AllMaterialized(needs: seq<string>, materialized: set<string>) returns (ok: bool)
    ensures ok <==> forall n :: n in needs ==> n in materialized
  {
    for i := 0 to |needs|
      invariant forall j :: 0 <= j < i ==> needs[j] in materialized
    {
      if needs[i] !in materialized { return false; }
    }
    return true;
  }

  /** A whole poll: the tally is the denotation of the capped, de-duplicated runs. */
  method Predict(ctx: Context, listings: seq<Option<seq<Listed<Run>>>>, cap: nat) returns (perLabelSet: Option<Tally>)
    requires cap > 0
    ensures perLabelSet == match ActiveRuns(listings, cap)
                           case None => None
                           case Some(runs) => Some(Credit(map[], PollMeaning(runs).starts, KeyOf))
  {
    var runs := ListActiveRuns(listings, cap);
    if runs.None? { return None; }
    var walker := new Walker(ctx);
    walker.ContributeRuns(runs.value);
    return Some(walker.dst);
  }

  /**
   A successful prediction read by a policy: truncated to int32, it is the number of jobs about
   to start whose key matches, and for plain labels and fewer than 2^31 jobs it is the number
   of jobs whose resolved labels include every wanted one.
   */
  method PredictFor(ctx: Context, listings: seq<Option<seq<Listed<Run>>>>, cap: nat, want: seq<string>) returns (contrib: Option<int>)
    requires cap > 0
    ensures contrib.None? <==> ActiveRuns(listings, cap).None?
    ensures contrib.Some? ==> ReadsAs(contrib.value, PollMeaning(ActiveRuns(listings, cap).value).starts, want)
  {
    var t := Predict(ctx, listings, cap);
    if t.None? { return None; }
    var c := PolicyContribution(t.value, PollMeaning(ActiveRuns(listings, cap).value).starts, want);
    return Some(c);
  }
}
