/**
 A second reading of the predictor's denotation, with no accumulation in it: everything a walk
 contributes is the sum, over all chains of reusable-workflow calls, of what stands at the end
 of each chain. A chain names one imminent job per level; no called path occurs twice in it and
 it makes at most ten calls.
 */
module CallChains {
  import opened Bags
  import opened NeedsGraph
  import opened Workflows

  type Chain = seq<string>

  /** The workflow a job's local call enters, when the call is neither too deep, cyclic nor unreadable. */
  ghost function Callee(scope: Scope, job: Job, stack: set<string>): Option<Workflow>
  {
    var path := LocalPath(job.usesLocal);
    if CallsLocal(job) && |stack| < MAX_REUSABLE_DEPTH && path !in stack && path in scope.files && scope.files[path].Parsed?
    then Some(scope.files[path].workflow) else None
  }

  ghost function Below(job: Job, stack: set<string>): set<string>
  {
    stack + {LocalPath(job.usesLocal)}
  }

  /** What a job contributes itself, without the workflow it may enter. */
  ghost function Own(scope: Scope, job: Job, stack: set<string>): Meaning
    requires |stack| <= MAX_REUSABLE_DEPTH
  {
    if Callee(scope, job, stack).Some? then Told(YamlFetched) else JobMeaning(scope, job, stack)
  }

  /** All chains that start in `wf`. */
  ghost function Chains(scope: Scope, wf: Workflow, stack: set<string>): set<Chain>
    requires |stack| <= MAX_REUSABLE_DEPTH
    decreases MAX_REUSABLE_DEPTH - |stack|, 1
  {
    set id, c | id in ImminentJobs(wf, scope.materialized) && c in ChainsFrom(scope, wf, stack, id) :: c
  }

  ghost function ChainsFrom(scope: Scope, wf: Workflow, stack: set<string>, id: string): set<Chain>
    requires |stack| <= MAX_REUSABLE_DEPTH && id in wf.jobs
    decreases MAX_REUSABLE_DEPTH - |stack|, 0
  {
    var callee := Callee(scope, wf.jobs[id], stack);
    {[id]} + if callee.Some? then Prefixed(id, Chains(scope, callee.value, Below(wf.jobs[id], stack))) else {}
  }

  ghost function Prefixed(id: string, cs: set<Chain>): set<Chain>
  {
    set c | c in cs :: [id] + c
  }

  /** What stands at the end of a chain: found by following it, looking at nothing else. */
  ghost function EndOf(scope: Scope, wf: Workflow, stack: set<string>, c: Chain): Meaning
    requires |stack| <= MAX_REUSABLE_DEPTH
    decreases |c|
  {
    if c == [] || c[0] !in wf.jobs then NOTHING
    else
      var job := wf.jobs[c[0]];
      var callee := Callee(scope, job, stack);
      if |c| == 1 then Own(scope, job, stack)
      else if callee.Some? then EndOf(scope, callee.value, Below(job, stack), c[1..])
      else NOTHING
  }

  ghost function Ends(scope: Scope, wf: Workflow, stack: set<string>): map<Chain, Meaning>
    requires |stack| <= MAX_REUSABLE_DEPTH
  {
    map c | c in Chains(scope, wf, stack) :: EndOf(scope, wf, stack, c)
  }

  // ---------- Sums ----------

  lemma {:induction false} TotalUnion<K>(parts: map<K, Meaning>, a: set<K>, b: set<K>)
    requires a + b <= parts.Keys && a !! b
    ensures Total(parts, a + b) == Total(parts, a).Plus(Total(parts, b))
    decreases b
  {
    if b == {} {
      assert a + b == a;
      assert Total(parts, a).Plus(NOTHING) == Total(parts, a);
    } else {
      var k :| k in b;
      var rest := b - {k};
      assert Total(parts, a + b) == parts[k].Plus(Total(parts, a + rest)) by {
        TotalRemove(parts, a + b, k);
        assert (a + b) - {k} == a + rest;
      }
      assert Total(parts, b) == parts[k].Plus(Total(parts, rest)) by { TotalRemove(parts, b, k); }
      TotalUnion(parts, a, rest);
      PlusSwap(parts[k], Total(parts, a), Total(parts, rest));
    }
  }

  lemma TotalSingle<K>(parts: map<K, Meaning>, k: K)
    requires k in parts
    ensures Total(parts, {k}) == parts[k]
  {
    TotalRemove(parts, {k}, k);
    assert {k} - {k} == {};
    assert parts[k].Plus(NOTHING) == parts[k];
  }

  /** Renaming the chains of a set by a common first job does not change their sum. */
  lemma {:induction false} TotalPrefixed(parts: map<Chain, Meaning>, sub: map<Chain, Meaning>, id: string, cs: set<Chain>)
    requires cs <= sub.Keys && Prefixed(id, cs) <= parts.Keys
    requires forall c :: c in cs ==> [id] + c in parts && parts[[id] + c] == sub[c]
    ensures Total(parts, Prefixed(id, cs)) == Total(sub, cs)
    decreases cs
  {
    if cs == {} {
      assert Prefixed(id, cs) == {};
    } else {
      var c :| c in cs;
      PrefixedRemove(id, cs, c);
      TotalRemove(parts, Prefixed(id, cs), [id] + c);
      TotalRemove(sub, cs, c);
      TotalPrefixed(parts, sub, id, cs - {c});
    }
  }

  lemma PrefixedRemove(id: string, cs: set<Chain>, c: Chain)
    requires c in cs
    ensures [id] + c in Prefixed(id, cs) && Prefixed(id, cs) - {[id] + c} == Prefixed(id, cs - {c})
  {
    forall d | d in cs && d != c ensures [id] + d != [id] + c {
      assert ([id] + d)[1..] == d && ([id] + c)[1..] == c;
    }
  }

  // ---------- The theorem ----------

  lemma JobSplits(scope: Scope, job: Job, stack: set<string>)
    requires |stack| < MAX_REUSABLE_DEPTH && Callee(scope, job, stack).Some?
    ensures |Below(job, stack)| == |stack| + 1
    ensures JobMeaning(scope, job, stack)
         == Told(YamlFetched).Plus(WorkflowMeaning(scope, Callee(scope, job, stack).value, Below(job, stack)))
  {}

  lemma {:induction false} FromMeaning(scope: Scope, wf: Workflow, stack: set<string>, id: string, ends: map<Chain, Meaning>)
    requires |stack| <= MAX_REUSABLE_DEPTH && id in wf.jobs
    requires ChainsFrom(scope, wf, stack, id) <= ends.Keys
    requires forall c :: c in ChainsFrom(scope, wf, stack, id) ==> ends[c] == EndOf(scope, wf, stack, c)
    ensures Total(ends, ChainsFrom(scope, wf, stack, id)) == JobMeaning(scope, wf.jobs[id], stack)
    decreases MAX_REUSABLE_DEPTH - |stack|, 0
  {
    var job := wf.jobs[id];
    var callee := Callee(scope, job, stack);
    TotalSingle(ends, [id]);
    if callee.Some? {
      JobSplits(scope, job, stack);
      var below := Below(job, stack);
      var cs, sub := Chains(scope, callee.value, below), Ends(scope, callee.value, below);
      forall c | c in cs ensures [id] + c in ends && ends[[id] + c] == sub[c] && c != [] {
        assert [id] + c in Prefixed(id, cs);
        ChainStep(scope, callee.value, below, c);
        assert ([id] + c)[1..] == c;
      }
      TotalUnion(ends, {[id]}, Prefixed(id, cs));
      TotalPrefixed(ends, sub, id, cs);
      ChainsMeaning(scope, callee.value, below);
    } else {
      assert {[id]} + {} == {[id]};
    }
  }

  ghost function ChainsOver(scope: Scope, wf: Workflow, stack: set<string>, ids: set<string>): set<Chain>
    requires |stack| <= MAX_REUSABLE_DEPTH && ids <= wf.jobs.Keys
  {
    set id, c | id in ids && c in ChainsFrom(scope, wf, stack, id) :: c
  }

  lemma StartsWith(scope: Scope, wf: Workflow, stack: set<string>, id: string, c: Chain)
    requires |stack| <= MAX_REUSABLE_DEPTH && id in wf.jobs && c in ChainsFrom(scope, wf, stack, id)
    ensures c != [] && c[0] == id
  {}

  lemma ChainsOverRemove(scope: Scope, wf: Workflow, stack: set<string>, ids: set<string>, id: string)
    requires |stack| <= MAX_REUSABLE_DEPTH && ids <= wf.jobs.Keys && id in ids
    ensures ChainsOver(scope, wf, stack, ids) == ChainsOver(scope, wf, stack, ids - {id}) + ChainsFrom(scope, wf, stack, id)
    ensures ChainsOver(scope, wf, stack, ids - {id}) !! ChainsFrom(scope, wf, stack, id)
  {
    forall c | c in ChainsOver(scope, wf, stack, ids - {id}) ensures c !in ChainsFrom(scope, wf, stack, id) {
      var k :| k in ids - {id} && c in ChainsFrom(scope, wf, stack, k);
      StartsWith(scope, wf, stack, k, c);
      if c in ChainsFrom(scope, wf, stack, id) { StartsWith(scope, wf, stack, id, c); }
    }
  }

  lemma {:induction false} OverMeaning(scope: Scope, wf: Workflow, stack: set<string>, ids: set<string>, ends: map<Chain, Meaning>)
    requires |stack| <= MAX_REUSABLE_DEPTH && ids <= ImminentJobs(wf, scope.materialized)
    requires ChainsOver(scope, wf, stack, ids) <= ends.Keys
    requires forall c :: c in ChainsOver(scope, wf, stack, ids) ==> ends[c] == EndOf(scope, wf, stack, c)
    ensures Total(ends, ChainsOver(scope, wf, stack, ids)) == Total(Parts(scope, wf, stack), ids)
    decreases MAX_REUSABLE_DEPTH - |stack|, 1, |ids|
  {
    if ids == {} {
      assert ChainsOver(scope, wf, stack, ids) == {};
    } else {
      var id :| id in ids;
      ChainsOverRemove(scope, wf, stack, ids, id);
      var rest, here := ChainsOver(scope, wf, stack, ids - {id}), ChainsFrom(scope, wf, stack, id);
      OverMeaning(scope, wf, stack, ids - {id}, ends);
      FromMeaning(scope, wf, stack, id, ends);
      TotalUnion(ends, rest, here);
      TotalRemove(Parts(scope, wf, stack), ids, id);
      PlusCommutes(Total(ends, rest), Total(ends, here));
    }
  }

  lemma PlusCommutes(a: Meaning, b: Meaning)
    ensures a.Plus(b) == b.Plus(a)
  {}

  /** The denotation is the sum over all call chains of what stands at their ends. */
  lemma {:induction false} ChainsMeaning(scope: Scope, wf: Workflow, stack: set<string>)
    requires |stack| <= MAX_REUSABLE_DEPTH
    ensures WorkflowMeaning(scope, wf, stack) == Total(Ends(scope, wf, stack), Chains(scope, wf, stack))
    decreases MAX_REUSABLE_DEPTH - |stack|, 2
  {
    var ids := ImminentJobs(wf, scope.materialized);
    assert ChainsOver(scope, wf, stack, ids) == Chains(scope, wf, stack);
    OverMeaning(scope, wf, stack, ids, Ends(scope, wf, stack));
  }

  // ---------- The shape of a chain ----------

  /** The paths called along a chain. */
  ghost function Called(scope: Scope, wf: Workflow, stack: set<string>, c: Chain): seq<string>
    decreases |c|
  {
    if |c| <= 1 || c[0] !in wf.jobs then []
    else
      var job := wf.jobs[c[0]];
      var callee := Callee(scope, job, stack);
      if callee.Some? then [LocalPath(job.usesLocal)] + Called(scope, callee.value, Below(job, stack), c[1..]) else []
  }

  /** The rest of a longer chain is a chain of the workflow its first job enters. */
  lemma ChainStep(scope: Scope, wf: Workflow, stack: set<string>, c: Chain)
    requires |stack| <= MAX_REUSABLE_DEPTH && c in Chains(scope, wf, stack)
    ensures c != [] && c[0] in wf.jobs
    ensures |c| > 1 ==> var job := wf.jobs[c[0]];
      Callee(scope, job, stack).Some? && |Below(job, stack)| == |stack| + 1
      && c[1..] in Chains(scope, Callee(scope, job, stack).value, Below(job, stack))
  {
    var id :| id in ImminentJobs(wf, scope.materialized) && c in ChainsFrom(scope, wf, stack, id);
    var job := wf.jobs[id];
    if c != [id] {
      JobSplits(scope, job, stack);
      var rest :| rest in Chains(scope, Callee(scope, job, stack).value, Below(job, stack)) && c == [id] + rest;
      assert c[1..] == rest;
    }
  }

  /** Pairwise different paths, none of them in `stack`. */
  ghost predicate AllNew(called: seq<string>, stack: set<string>)
  {
    && (forall i :: 0 <= i < |called| ==> called[i] !in stack)
    && (forall i, j :: 0 <= i < j < |called| ==> called[i] != called[j])
  }

  lemma AllNewCons(p: string, called: seq<string>, stack: set<string>)
    requires p !in stack && AllNew(called, stack + {p})
    ensures AllNew([p] + called, stack)
  {}

  /** A chain makes one call per step, at most ten in all, and never calls a path twice. */
  lemma {:induction false} ChainShape(scope: Scope, wf: Workflow, stack: set<string>, c: Chain)
    requires |stack| <= MAX_REUSABLE_DEPTH && c in Chains(scope, wf, stack)
    ensures c != [] && |Called(scope, wf, stack, c)| == |c| - 1 <= MAX_REUSABLE_DEPTH - |stack|
    ensures AllNew(Called(scope, wf, stack, c), stack)
    decreases |c|
  {
    ChainStep(scope, wf, stack, c);
    if |c| > 1 {
      var job := wf.jobs[c[0]];
      var sub, below := Callee(scope, job, stack).value, Below(job, stack);
      ChainShape(scope, sub, below, c[1..]);
      AllNewCons(LocalPath(job.usesLocal), Called(scope, sub, below, c[1..]), stack);
    }
  }

  // ---------- Chains and what they start, from the fields of the jobs ----------

  /** A job that is not materialized and whose needs all are. */
  ghost predicate Ready(scope: Scope, wf: Workflow, id: string)
  {
    id in wf.jobs && id !in scope.materialized && forall n :: n in wf.jobs[id].needs ==> n in scope.materialized
  }

  /** The job calls the local workflow file at `path`, which is there and parses as `callee`. */
  ghost predicate Enters(scope: Scope, job: Job, path: string, callee: Workflow)
  {
    && !job.usesRemote && job.usesLocal != ""
    && (if "./" <= job.usesLocal then job.usesLocal == "./" + path else job.usesLocal == path)
    && path in scope.files && scope.files[path] == Parsed(callee)
  }

  /** A way down through the call graph: a ready job in each workflow, each but the last entering the next. */
  ghost predicate Route(scope: Scope, ids: seq<string>, wfs: seq<Workflow>, paths: seq<string>)
  {
    && |ids| == |wfs| == |paths| + 1
    && (forall i :: 0 <= i < |ids| ==> Ready(scope, wfs[i], ids[i]))
    && (forall i :: 0 <= i < |paths| ==> Enters(scope, wfs[i].jobs[ids[i]], paths[i], wfs[i + 1]))
  }

  /** A route from `wf` that calls no path twice, none of `stack`, and makes at most ten calls in all. */
  ghost predicate RouteFrom(scope: Scope, wf: Workflow, stack: set<string>, ids: seq<string>, wfs: seq<Workflow>, paths: seq<string>)
  {
    Route(scope, ids, wfs, paths) && wfs[0] == wf && AllNew(paths, stack) && |stack| + |paths| <= 10
  }

  /** The job a chain ends in. */
  ghost function LastJob(scope: Scope, wf: Workflow, stack: set<string>, c: Chain): Option<Job>
    decreases |c|
  {
    if c == [] || c[0] !in wf.jobs then None
    else if |c| == 1 then Some(wf.jobs[c[0]])
    else
      var callee := Callee(scope, wf.jobs[c[0]], stack);
      if callee.Some? then LastJob(scope, callee.value, Below(wf.jobs[c[0]], stack), c[1..]) else None
  }

  /** What `Callee` finds is what the fields say. */
  lemma CalleeEnters(scope: Scope, job: Job, stack: set<string>, callee: Workflow)
    ensures Callee(scope, job, stack) == Some(callee)
       <==> Enters(scope, job, LocalPath(job.usesLocal), callee) && LocalPath(job.usesLocal) !in stack && |stack| < 10
  {
    var path := LocalPath(job.usesLocal);
    if "./" <= job.usesLocal { assert job.usesLocal == "./" + path; }
  }

  lemma EntersPath(scope: Scope, job: Job, path: string, callee: Workflow)
    requires Enters(scope, job, path, callee)
    ensures path == LocalPath(job.usesLocal)
  {
    if "./" <= job.usesLocal { assert ("./" + path)[2..] == path; }
  }

  lemma {:induction false} ChainRoute(scope: Scope, wf: Workflow, stack: set<string>, c: Chain) returns (wfs: seq<Workflow>, paths: seq<string>)
    requires |stack| <= MAX_REUSABLE_DEPTH && c in Chains(scope, wf, stack)
    ensures RouteFrom(scope, wf, stack, c, wfs, paths)
    decreases |c|
  {
    ChainStep(scope, wf, stack, c);
    ChainReady(scope, wf, stack, c);
    if |c| == 1 {
      wfs, paths := [wf], [];
    } else {
      var job := wf.jobs[c[0]];
      var callee, path := Callee(scope, job, stack).value, LocalPath(job.usesLocal);
      var wfs', paths' := ChainRoute(scope, callee, Below(job, stack), c[1..]);
      CalleeEnters(scope, job, stack, callee);
      RouteCons(scope, wf, stack, c, wfs', paths', path);
      wfs, paths := [wf] + wfs', [path] + paths';
    }
  }

  lemma ChainReady(scope: Scope, wf: Workflow, stack: set<string>, c: Chain)
    requires |stack| <= MAX_REUSABLE_DEPTH && c in Chains(scope, wf, stack)
    ensures c != [] && Ready(scope, wf, c[0])
  {
    var id :| id in ImminentJobs(wf, scope.materialized) && c in ChainsFrom(scope, wf, stack, id);
    StartsWith(scope, wf, stack, id, c);
  }

  lemma RouteCons(scope: Scope, wf: Workflow, stack: set<string>, c: Chain, wfs: seq<Workflow>, paths: seq<string>, path: string)
    requires |c| > 1 && Ready(scope, wf, c[0]) && path !in stack && wfs != []
    requires RouteFrom(scope, wfs[0], stack + {path}, c[1..], wfs, paths) && Enters(scope, wf.jobs[c[0]], path, wfs[0])
    ensures RouteFrom(scope, wf, stack, c, [wf] + wfs, [path] + paths)
  {
    var wfs', paths' := [wf] + wfs, [path] + paths;
    forall i | 0 <= i < |c| ensures Ready(scope, wfs'[i], c[i]) {
      if i > 0 { assert wfs'[i] == wfs[i - 1] && c[i] == c[1..][i - 1]; }
    }
    forall i | 0 <= i < |paths'| ensures Enters(scope, wfs'[i].jobs[c[i]], paths'[i], wfs'[i + 1]) {
      if i > 0 { assert Enters(scope, wfs[i - 1].jobs[c[1..][i - 1]], paths[i - 1], wfs[i]); }
    }
    AllNewCons(path, paths, stack);
  }

  lemma RouteTail(scope: Scope, wf: Workflow, stack: set<string>, c: Chain, wfs: seq<Workflow>, paths: seq<string>)
    requires RouteFrom(scope, wf, stack, c, wfs, paths) && |c| > 1
    ensures RouteFrom(scope, wfs[1], stack + {paths[0]}, c[1..], wfs[1..], paths[1..])
    ensures Enters(scope, wf.jobs[c[0]], paths[0], wfs[1]) && paths[0] !in stack
  {
    forall i | 0 <= i < |c| - 1 ensures Ready(scope, wfs[1..][i], c[1..][i]) { assert Ready(scope, wfs[i + 1], c[i + 1]); }
    forall i | 0 <= i < |paths| - 1 ensures Enters(scope, wfs[1..][i].jobs[c[1..][i]], paths[1..][i], wfs[1..][i + 1]) {
      assert Enters(scope, wfs[i + 1].jobs[c[i + 1]], paths[i + 1], wfs[i + 2]);
    }
  }

  lemma ChainCons(scope: Scope, wf: Workflow, stack: set<string>, id: string, rest: Chain, callee: Workflow)
    requires |stack| < MAX_REUSABLE_DEPTH && Ready(scope, wf, id) && Callee(scope, wf.jobs[id], stack) == Some(callee)
    requires |Below(wf.jobs[id], stack)| <= MAX_REUSABLE_DEPTH && rest in Chains(scope, callee, Below(wf.jobs[id], stack))
    ensures [id] + rest in Chains(scope, wf, stack)
  {
    assert id in ImminentJobs(wf, scope.materialized);
    assert [id] + rest in Prefixed(id, Chains(scope, callee, Below(wf.jobs[id], stack)));
    assert [id] + rest in ChainsFrom(scope, wf, stack, id);
  }

  lemma ChainSingle(scope: Scope, wf: Workflow, stack: set<string>, id: string)
    requires |stack| <= MAX_REUSABLE_DEPTH && Ready(scope, wf, id)
    ensures [id] in Chains(scope, wf, stack)
  {
    assert id in ImminentJobs(wf, scope.materialized);
    assert [id] in ChainsFrom(scope, wf, stack, id);
  }

  lemma {:induction false} RouteChain(scope: Scope, wf: Workflow, stack: set<string>, c: Chain, wfs: seq<Workflow>, paths: seq<string>)
    requires RouteFrom(scope, wf, stack, c, wfs, paths)
    ensures c in Chains(scope, wf, stack) && Called(scope, wf, stack, c) == paths
    ensures LastJob(scope, wf, stack, c) == Some(wfs[|c| - 1].jobs[c[|c| - 1]])
    decreases |c|
  {
    var id := c[0];
    assert Ready(scope, wf, id);
    if |c| == 1 {
      assert c == [id] && paths == [];
      ChainSingle(scope, wf, stack, id);
    } else {
      var rest, callee, path := c[1..], wfs[1], paths[0];
      assert c == [id] + rest && paths == [path] + paths[1..];
      RouteTail(scope, wf, stack, c, wfs, paths);
      EntersPath(scope, wf.jobs[id], path, callee);
      CalleeEnters(scope, wf.jobs[id], stack, callee);
      RouteChain(scope, callee, stack + {path}, rest, wfs[1..], paths[1..]);
      ChainCons(scope, wf, stack, id, rest, callee);
    }
  }

  /** The chains of a workflow are exactly the routes from it, and each has only one. */
  lemma ChainIffRoute(scope: Scope, wf: Workflow, stack: set<string>, c: Chain)
    requires |stack| <= MAX_REUSABLE_DEPTH
    ensures c in Chains(scope, wf, stack) <==> exists wfs, paths :: RouteFrom(scope, wf, stack, c, wfs, paths)
    ensures forall wfs: seq<Workflow>, paths :: RouteFrom(scope, wf, stack, c, wfs, paths) ==>
              LastJob(scope, wf, stack, c) == Some(wfs[|c| - 1].jobs[c[|c| - 1]]) && Called(scope, wf, stack, c) == paths
  {
    if c in Chains(scope, wf, stack) {
      var wfs, paths := ChainRoute(scope, wf, stack, c);
    }
    forall wfs: seq<Workflow>, paths | RouteFrom(scope, wf, stack, c, wfs, paths)
      ensures c in Chains(scope, wf, stack) && Called(scope, wf, stack, c) == paths
      ensures LastJob(scope, wf, stack, c) == Some(wfs[|c| - 1].jobs[c[|c| - 1]])
    {
      RouteChain(scope, wf, stack, c, wfs, paths);
    }
  }

  /** What the last job of a chain asks for. */
  ghost function AskedAtEnd(scope: Scope, wf: Workflow, stack: set<string>, c: Chain, labels: seq<string>): nat
  {
    var job := LastJob(scope, wf, stack, c);
    if job.Some? then AsksFor(job.value, labels) else 0
  }

  /** A local call that enters no workflow only makes a hook call. */
  lemma CallStopped(scope: Scope, job: Job, stack: set<string>)
    requires |stack| <= MAX_REUSABLE_DEPTH && CallsLocal(job) && Callee(scope, job, stack).None?
    ensures var path := LocalPath(job.usesLocal);
            JobMeaning(scope, job, stack)
              == Told(if |stack| == MAX_REUSABLE_DEPTH then Skipped(DepthExceeded)
                      else if path in stack then Skipped(Cycle)
                      else if path in scope.files then YamlFetched else YamlError)
  {
    assert JobMeaning(scope, job, stack) == CallMeaning(scope, LocalPath(job.usesLocal), stack);
  }

  lemma OwnStarts(scope: Scope, job: Job, stack: set<string>, labels: seq<string>)
    requires |stack| <= MAX_REUSABLE_DEPTH
    ensures Own(scope, job, stack).starts[labels] == AsksFor(job, labels)
  {
    if !CallsLocal(job) {
      JobStarts(scope, job, stack, labels);
    } else if Callee(scope, job, stack).None? {
      CallStopped(scope, job, stack);
    }
  }

  lemma {:induction false} EndStarts(scope: Scope, wf: Workflow, stack: set<string>, c: Chain, labels: seq<string>)
    requires |stack| <= MAX_REUSABLE_DEPTH
    ensures EndOf(scope, wf, stack, c).starts[labels] == AskedAtEnd(scope, wf, stack, c, labels)
    decreases |c|
  {
    if c != [] && c[0] in wf.jobs {
      var job := wf.jobs[c[0]];
      OwnStarts(scope, job, stack, labels);
      var callee := Callee(scope, job, stack);
      if |c| > 1 && callee.Some? { EndStarts(scope, callee.value, Below(job, stack), c[1..], labels); }
    }
  }

  ghost function AskedAtEnds(scope: Scope, wf: Workflow, stack: set<string>, labels: seq<string>): map<Chain, nat>
    requires |stack| <= MAX_REUSABLE_DEPTH
  {
    map c | c in Chains(scope, wf, stack) :: AskedAtEnd(scope, wf, stack, c, labels)
  }

  /**
   What a walk starts, under each label list and on any call graph: the sum, over all chains, of
   what the last job of the chain asks for.
   */
  lemma StartsOverChains(scope: Scope, wf: Workflow, stack: set<string>, labels: seq<string>)
    requires |stack| <= MAX_REUSABLE_DEPTH
    ensures WorkflowMeaning(scope, wf, stack).starts[labels]
         == SumOf(AskedAtEnds(scope, wf, stack, labels), Chains(scope, wf, stack))
  {
    var chains, ends, asked := Chains(scope, wf, stack), Ends(scope, wf, stack), AskedAtEnds(scope, wf, stack, labels);
    ChainsMeaning(scope, wf, stack);
    forall c | c in chains ensures ends[c].starts[labels] == asked[c] { EndStarts(scope, wf, stack, c, labels); }
    TotalStarts(ends, asked, chains, labels);
  }

  /**
   What a run starts: the sum over the chains of its workflow, seen against its own materialized
   jobs; nothing if its jobs could not be listed or its file not fetched or parsed.
   */
  lemma RunStarts(run: Run, labels: seq<string>)
    ensures run.jobs.Some? && run.path in run.files && run.files[run.path].Parsed? ==>
              var scope, wf := Scope(run.files, run.jobs.value), run.files[run.path].workflow;
              RunMeaning(run).starts[labels] == SumOf(AskedAtEnds(scope, wf, {}, labels), Chains(scope, wf, {}))
    ensures run.jobs.None? || run.path !in run.files || run.files[run.path].Unparsable? ==> RunMeaning(run).starts == multiset{}
  {
    if run.jobs.Some? && run.path in run.files && run.files[run.path].Parsed? {
      var scope, wf := Scope(run.files, run.jobs.value), run.files[run.path].workflow;
      StartsOverChains(scope, wf, {}, labels);
      ToldPlus(YamlFetched, WorkflowMeaning(scope, wf, {}));
    }
  }

  /** The hook call a job makes when reached through the calls in `stack`; a job that asks for starts makes none. */
  ghost function HookAt(scope: Scope, job: Job, stack: set<string>): Option<Hook>
  {
    if job.usesRemote then Some(Skipped(RemoteUses))
    else if job.usesLocal != "" then
      var path := if "./" <= job.usesLocal then job.usesLocal[2..] else job.usesLocal;
      Some(if |stack| >= 10 then Skipped(DepthExceeded)
           else if path in stack then Skipped(Cycle)
           else if path in scope.files then YamlFetched else YamlError)
    else if job.runsOn.isDynamic then Some(Skipped(RunsOnExpr))
    else if job.matrix.isDynamic then Some(Skipped(MatrixExpr))
    else None
  }

  ghost function PathSet(paths: seq<string>): set<string>
  {
    set p | p in paths
  }

  /** The hook call at the end of a chain. */
  ghost function HookAtEnd(scope: Scope, wf: Workflow, stack: set<string>, c: Chain): Option<Hook>
  {
    var job := LastJob(scope, wf, stack, c);
    if job.Some? then HookAt(scope, job.value, stack + PathSet(Called(scope, wf, stack, c))) else None
  }

  ghost function Once(made: Option<Hook>, h: Hook): nat
  {
    if made == Some(h) then 1 else 0
  }

  lemma OwnHooks(scope: Scope, job: Job, stack: set<string>, h: Hook)
    requires |stack| <= MAX_REUSABLE_DEPTH
    ensures Own(scope, job, stack).hooks[h] == Once(HookAt(scope, job, stack), h)
  {
    if CallsLocal(job) && Callee(scope, job, stack).None? { CallStopped(scope, job, stack); }
  }

  lemma {:induction false} EndHooks(scope: Scope, wf: Workflow, stack: set<string>, c: Chain, h: Hook)
    requires |stack| <= MAX_REUSABLE_DEPTH
    ensures EndOf(scope, wf, stack, c).hooks[h] == Once(HookAtEnd(scope, wf, stack, c), h)
    decreases |c|
  {
    if c != [] && c[0] in wf.jobs {
      var job := wf.jobs[c[0]];
      var callee := Callee(scope, job, stack);
      if |c| == 1 {
        OwnHooks(scope, job, stack, h);
        assert stack + PathSet([]) == stack;
      } else if callee.Some? {
        var path, rest := LocalPath(job.usesLocal), Called(scope, callee.value, Below(job, stack), c[1..]);
        EndHooks(scope, callee.value, Below(job, stack), c[1..], h);
        assert stack + PathSet([path] + rest) == (stack + {path}) + PathSet(rest);
      }
    }
  }

  ghost function MadeAtEnds(scope: Scope, wf: Workflow, stack: set<string>, h: Hook): map<Chain, nat>
    requires |stack| <= MAX_REUSABLE_DEPTH
  {
    map c | c in Chains(scope, wf, stack) :: Once(HookAtEnd(scope, wf, stack, c), h)
  }

  /** The hook calls of a walk: one for each chain whose last job makes it. */
  lemma HooksOverChains(scope: Scope, wf: Workflow, stack: set<string>, h: Hook)
    requires |stack| <= MAX_REUSABLE_DEPTH
    ensures WorkflowMeaning(scope, wf, stack).hooks[h] == SumOf(MadeAtEnds(scope, wf, stack, h), Chains(scope, wf, stack))
  {
    var chains, ends, made := Chains(scope, wf, stack), Ends(scope, wf, stack), MadeAtEnds(scope, wf, stack, h);
    ChainsMeaning(scope, wf, stack);
    forall c | c in chains ensures ends[c].hooks[h] == made[c] { EndHooks(scope, wf, stack, c, h); }
    TotalHooks(ends, made, chains, h);
  }
}
