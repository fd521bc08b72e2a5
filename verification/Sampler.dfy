/**
 The activity sampler (Sample and contributeRun in internal/activity/workflow_runs_sampler.go):
 the fan-out of the workflows behind recent human-triggered runs. Unlike the predictor it looks
 at every job of the triggered workflow and does not follow reusable workflows.
 */
module Sampler {
  import opened Bags
  import opened Grouping
  import opened Labels
  import opened NeedsGraph
  import opened Tallies
  import opened Workflows

  /** One listed run: why it is a bot's, if it is, its event, and its repository at the head commit. */
  datatype Sampled = Sampled(bot: Option<string>, event: string, path: string, files: Files)

  const ALLOWED_EVENTS := {
    "push", "pull_request", "pull_request_target", "pull_request_review_comment",
    "workflow_dispatch", "repository_dispatch"
  }

  /** Local and remote reusable calls are skipped alike. */
  function FanOut(job: Job): Meaning
  {
    if job.usesRemote || job.usesLocal != "" then Told(Skipped(RemoteUses))
    else if job.runsOn.isDynamic then Told(Skipped(RunsOnExpr))
    else if job.matrix.isDynamic then Told(Skipped(MatrixExpr))
    else Meaning(Copies(ResolveLabels(job.runsOn), StartCount(job)), multiset{})
  }

  ghost function FanOuts(wf: Workflow): map<string, Meaning>
  {
    map id | id in wf.jobs :: FanOut(wf.jobs[id])
  }

  ghost function SampledMeaning(run: Sampled): Meaning
  {
    if run.bot.Some? then Told(BotFiltered(run.bot.value))
    else if run.event !in ALLOWED_EVENTS then Told(EventFiltered(run.event))
    else if run.path !in run.files then Told(YamlError)
    else match run.files[run.path]
      case Unparsable => Told(YamlFetched)
      case Parsed(wf) => Told(YamlFetched).Plus(Total(FanOuts(wf), wf.jobs.Keys))
  }

  ghost function SampleMeaning(runs: seq<Sampled>): Meaning
  {
    if runs == [] then NOTHING
    else SampleMeaning(runs[..|runs| - 1]).Plus(SampledMeaning(runs[|runs| - 1]))
  }

  /** Filtered runs use up the cap too, so only the first `cap` listed runs matter. */
  function Scanned(runs: seq<Sampled>, cap: nat): seq<Sampled>
  {
    if |runs| <= cap then runs else runs[..cap]
  }

  lemma SampleStep(t: Tally, runs: seq<Sampled>, i: nat)
    requires i < |runs|
    ensures Credit(Credit(t, SampleMeaning(runs[..i]).starts, KeyOf), SampledMeaning(runs[i]).starts, KeyOf)
         == Credit(t, SampleMeaning(runs[..i + 1]).starts, KeyOf)
    ensures SampleMeaning(runs[..i]).hooks + SampledMeaning(runs[i]).hooks == SampleMeaning(runs[..i + 1]).hooks
  {
    assert runs[..i + 1][..i] == runs[..i];
    CreditPlus(t, SampleMeaning(runs[..i]).starts, SampledMeaning(runs[i]).starts, KeyOf);
  }

  lemma FanOutStarts(job: Job, labels: seq<string>)
    ensures FanOut(job).starts[labels] == AsksFor(job, labels)
  {
    assert [] + job.runsOn.labels == job.runsOn.labels;
    if labels != ResolveLabels(job.runsOn) {
      assert Copies(ResolveLabels(job.runsOn), StartCount(job))[labels] == 0;
    }
  }

  /** Each skipped job is reported once, and a local call as if it were remote. */
  lemma FanOutHooks(job: Job)
    ensures FanOut(job).hooks[Skipped(RemoteUses)] == if job.usesRemote || job.usesLocal != "" then 1 else 0
    ensures FanOut(job).hooks[Skipped(RunsOnExpr)] == if !job.usesRemote && job.usesLocal == "" && job.runsOn.isDynamic then 1 else 0
    ensures |FanOut(job).hooks| == if job.usesRemote || job.usesLocal != "" || job.runsOn.isDynamic || job.matrix.isDynamic then 1 else 0
  {}

  ghost function AskedBy(wf: Workflow, labels: seq<string>): map<string, nat>
  {
    map id | id in wf.jobs :: AsksFor(wf.jobs[id], labels)
  }

  /** Triggered by a person, through one of the six events that stand for activity. */
  ghost predicate Counts(run: Sampled)
  {
    && run.bot.None?
    && (|| run.event == "push" || run.event == "pull_request" || run.event == "pull_request_target"
        || run.event == "pull_request_review_comment" || run.event == "workflow_dispatch" || run.event == "repository_dispatch")
  }

  /**
   What a sampled run starts, under each label list: what all the jobs of its workflow ask for,
   whatever they need, if the run counts and its file parses; otherwise nothing.
   */
  lemma SampledStarts(run: Sampled, labels: seq<string>)
    ensures Counts(run) && run.path in run.files && run.files[run.path].Parsed? ==>
              var wf := run.files[run.path].workflow;
              SampledMeaning(run).starts[labels] == SumOf(AskedBy(wf, labels), wf.jobs.Keys)
    ensures !Counts(run) || run.path !in run.files || run.files[run.path].Unparsable? ==> SampledMeaning(run).starts == multiset{}
  {
    if Counts(run) && run.path in run.files && run.files[run.path].Parsed? {
      var wf := run.files[run.path].workflow;
      var parts := FanOuts(wf);
      forall id | id in wf.jobs ensures parts[id].starts[labels] == AskedBy(wf, labels)[id] { FanOutStarts(wf.jobs[id], labels); }
      TotalStarts(parts, AskedBy(wf, labels), wf.jobs.Keys, labels);
      ToldPlus(YamlFetched, Total(parts, wf.jobs.Keys));
    }
  }

  /** A sample starts what its first `cap` runs start, counted or not, and nothing of any later one. */
  lemma SampleStarts(runs: seq<Sampled>, cap: nat, labels: seq<string>, each: seq<nat>)
    requires |each| == if |runs| < cap then |runs| else cap
    requires forall i :: 0 <= i < |each| ==> each[i] == SampledMeaning(runs[i]).starts[labels]
    ensures SampleMeaning(Scanned(runs, cap)).starts[labels] == SumAll(each)
  {
    AllSampledStarts(Scanned(runs, cap), labels, each);
  }

  lemma {:induction false} AllSampledStarts(runs: seq<Sampled>, labels: seq<string>, each: seq<nat>)
    requires |each| == |runs| && forall i :: 0 <= i < |runs| ==> each[i] == SampledMeaning(runs[i]).starts[labels]
    ensures SampleMeaning(runs).starts[labels] == SumAll(each)
  {
    if runs != [] { AllSampledStarts(runs[..|runs| - 1], labels, each[..|runs| - 1]); }
  }

  class ActivitySampler {
    var dst: Tally
    var hooks: multiset<Hook>

    constructor ()
      ensures dst == map[] && hooks == multiset{}
    {
      dst, hooks := map[], multiset{};
    }

    method ContributeJob(job: Job)
      modifies this
      ensures dst == Credit(old(dst), FanOut(job).starts, KeyOf)
      ensures hooks == old(hooks) + FanOut(job).hooks
    {
      CreditNothing<seq<string>>(dst, KeyOf);
      if job.usesRemote {
        hooks := hooks + multiset{Skipped(RemoteUses)};
      } else if job.usesLocal != "" {
        hooks := hooks + multiset{Skipped(RemoteUses)};
      } else if job.runsOn.isDynamic {
        hooks := hooks + multiset{Skipped(RunsOnExpr)};
      } else if job.matrix.isDynamic {
        hooks := hooks + multiset{Skipped(MatrixExpr)};
      } else {
        var labels := ResolveLabels(job.runsOn);
        var count := 1;
        if |job.matrix.combos| > 0 {
          count := |job.matrix.combos|;
        }
        dst := CountJobs(dst, labels, count);
      }
    }

    method ContributeRun(run: Sampled)
      modifies this
      ensures dst == Credit(old(dst), SampledMeaning(run).starts, KeyOf)
      ensures hooks == old(hooks) + SampledMeaning(run).hooks
      ensures run.bot.Some? ==> dst == old(dst) && hooks == old(hooks) + multiset{BotFiltered(run.bot.value)}
      ensures run.bot.None? && !Counts(run) ==> dst == old(dst) && hooks == old(hooks) + multiset{EventFiltered(run.event)}
    {
      CreditNothing<seq<string>>(dst, KeyOf);
      if run.bot.Some? {
        hooks := hooks + multiset{BotFiltered(run.bot.value)};
        return;
      }
      if run.event !in ALLOWED_EVENTS {
        hooks := hooks + multiset{EventFiltered(run.event)};
        return;
      }
      if run.path !in run.files {
        hooks := hooks + multiset{YamlError};
        return;
      }
      hooks := hooks + multiset{YamlFetched};
      if run.files[run.path].Parsed? {
        ContributeJobs(run.files[run.path].workflow);
        ToldPlus(YamlFetched, Total(FanOuts(run.files[run.path].workflow), run.files[run.path].workflow.jobs.Keys));
      }
    }

    method ContributeJobs(wf: Workflow)
      modifies this
      ensures dst == Credit(old(dst), Total(FanOuts(wf), wf.jobs.Keys).starts, KeyOf)
      ensures hooks == old(hooks) + Total(FanOuts(wf), wf.jobs.Keys).hooks
    {
      ghost var parts := FanOuts(wf);
      var todo := wf.jobs.Keys;
      ghost var done: set<string> := {};
      CreditNothing<seq<string>>(dst, KeyOf);
      while todo != {}
        invariant todo <= wf.jobs.Keys && done == parts.Keys - todo
        invariant dst == Credit(old(dst), Total(parts, done).starts, KeyOf)
        invariant hooks == old(hooks) + Total(parts, done).hooks
        decreases todo
      {
        var id :| id in todo;   // Go visits map keys in an unspecified order
        DoneStep(parts.Keys, todo, id);
        TotalStep(old(dst), parts, done, id);
        todo, done := todo - {id}, done + {id};
        ContributeJob(wf.jobs[id]);
      }
      assert done == wf.jobs.Keys;
    }

    /** A failed listing fails the sample, with no hook called. */
    method Sample(listing: Option<seq<Sampled>>, cap: nat) returns (ok: bool)
      modifies this
      ensures ok <==> listing.Some?
      ensures !ok ==> dst == old(dst) && hooks == old(hooks)
      ensures ok ==> dst == Credit(old(dst), SampleMeaning(Scanned(listing.value, cap)).starts, KeyOf)
      ensures ok ==> hooks == old(hooks) + SampleMeaning(Scanned(listing.value, cap)).hooks
    {
      if listing.None? { return false; }
      var runs := listing.value;
      CreditNothing<seq<string>>(dst, KeyOf);
      var scanned := 0;
      while scanned < |runs|
        invariant 0 <= scanned <= |runs| && scanned <= cap
        invariant dst == Credit(old(dst), SampleMeaning(runs[..scanned]).starts, KeyOf)
        invariant hooks == old(hooks) + SampleMeaning(runs[..scanned]).hooks
      {
        if scanned >= cap { break; }
        ContributeRun(runs[scanned]);
        SampleStep(old(dst), runs, scanned);
        scanned := scanned + 1;
      }
      assert runs[..scanned] == Scanned(runs, cap);
      return true;
    }
  }

  /** The activity signal of a policy is the count of the sampled jobs, read as any other tally; an error if the listing fails. */
  method SampleFor(listing: Option<seq<Sampled>>, cap: nat, want: seq<string>) returns (contrib: Option<int>)
    ensures contrib.Some? <==> listing.Some?
    ensures contrib.Some? ==> ReadsAs(contrib.value, SampleMeaning(Scanned(listing.value, cap)).starts, want)
  {
    var sampler := new ActivitySampler();
    var ok := sampler.Sample(listing, cap);
    if !ok { return None; }
    var count := PolicyContribution(sampler.dst, SampleMeaning(Scanned(listing.value, cap)).starts, want);
    return Some(count);
  }
}
