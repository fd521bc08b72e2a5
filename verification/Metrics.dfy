/**
 The per-label-set gauges and the active-window counter (the three emit methods in
 internal/controller/warmrunnerpolicy_controller.go), against the history of reports.
 */
module Metrics {
  import opened Bags
  import opened Grouping

  // ---------- Per-label-set gauges ----------

  datatype Report = Report(policy: string, perLabelSet: Tally)

  /** The map last reported for a policy, or the empty one. */
  ghost function LastReport(reports: seq<Report>, policy: string): Tally
  {
    if reports == [] then map[]
    else if reports[|reports| - 1].policy == policy then reports[|reports| - 1].perLabelSet
    else LastReport(reports[..|reports| - 1], policy)
  }

  /** It is the map of the last report that names the policy, and of no other. */
  lemma {:induction false} LastReportIs(reports: seq<Report>, policy: string)
    ensures forall i :: 0 <= i < |reports| && reports[i].policy == policy && (forall j :: i < j < |reports| ==> reports[j].policy != policy)
              ==> LastReport(reports, policy) == reports[i].perLabelSet
    ensures (forall i :: 0 <= i < |reports| ==> reports[i].policy != policy) ==> LastReport(reports, policy) == map[]
  {
    if reports != [] {
      var n := |reports| - 1;
      LastReportIs(reports[..n], policy);
      assert forall i :: 0 <= i < n ==> reports[..n][i] == reports[i];
    }
  }

  function SamplesOf(gauge: map<string, Tally>, policy: string): Tally
  {
    if policy in gauge then gauge[policy] else map[]
  }

  function PrevKeys(prev: map<string, set<string>>, policy: string): set<string>
  {
    if policy in prev then prev[policy] else {}
  }

  ghost predicate InStep(gauge: map<string, Tally>, prev: map<string, set<string>>, reports: seq<Report>, policy: string)
  {
    && SamplesOf(gauge, policy) == LastReport(reports, policy)
    && PrevKeys(prev, policy) == LastReport(reports, policy).Keys
  }

  lemma LastReportAppend(reports: seq<Report>, r: Report, policy: string)
    ensures LastReport(reports + [r], policy) == if r.policy == policy then r.perLabelSet else LastReport(reports, policy)
  {
    assert (reports + [r])[..|reports|] == reports;
  }

  /** Setting the new samples and deleting the stale ones leaves exactly the new ones. */
  lemma PruneExact(samples: Tally, perLabelSet: Tally)
    ensures (samples + perLabelSet) - (samples.Keys - perLabelSet.Keys) == perLabelSet
  {}

  class LabelSetGauge {
    var gauge: map<string, Tally>          // live samples: policy, then label-set key
    var prev: map<string, set<string>>
    ghost var reports: seq<Report>

    /** For every policy the live samples are exactly its last report, and `prev` knows their keys. */
    ghost predicate Valid()
      reads this
    {
      forall policy :: InStep(gauge, prev, reports, policy)
    }

    constructor ()
      ensures Valid() && reports == []
    {
      gauge, prev, reports := map[], map[], [];
    }

    method Emit(policy: string, perLabelSet: Tally)
      requires Valid()
      modifies this
      ensures Valid() && reports == old(reports) + [Report(policy, perLabelSet)]
    {
      assert InStep(gauge, prev, reports, policy);
      PruneExact(SamplesOf(gauge, policy), perLabelSet);
      var samples, curr := SetSamples(SamplesOf(gauge, policy), perLabelSet);
      samples := PruneStale(samples, PrevKeys(prev, policy), curr);
      gauge := gauge[policy := samples];
      prev := prev[policy := curr];
      reports := reports + [Report(policy, perLabelSet)];
      forall p ensures InStep(gauge, prev, reports, p) {
        assert InStep(old(gauge), old(prev), old(reports), p);
        LastReportAppend(old(reports), Report(policy, perLabelSet), p);
      }
    }
  }

  method SetSamples(samples: Tally, perLabelSet: Tally) returns (out: Tally, curr: set<string>)
    ensures out == samples + perLabelSet && curr == perLabelSet.Keys
  {
    out, curr := samples, {};
    var todo := perLabelSet.Keys;
    while todo != {}
      invariant todo <= perLabelSet.Keys && curr == perLabelSet.Keys - todo
      invariant out == samples + (perLabelSet - todo)
      decreases todo
    {
      var key :| key in todo;
      out := out[key := perLabelSet[key]];
      curr := curr + {key};
      todo := todo - {key};
    }
  }

  method PruneStale(samples: Tally, before: set<string>, curr: set<string>) returns (out: Tally)
    ensures out == samples - (before - curr)
  {
    out := samples;
    var todo := before;
    while todo != {}
      invariant todo <= before
      invariant out == samples - (before - todo - curr)
      decreases todo
    {
      var key :| key in todo;
      if key !in curr {
        out := out - {key};
      }
      todo := todo - {key};
    }
    assert before - todo - curr == before - curr;
  }

  // ---------- Active-window expiries ----------

  datatype Observation = Observation(name: string, repo: string, activeUntil: Option<int>, now: int)

  predicate IsActive(o: Observation)
  {
    o.activeUntil.Some? && o.activeUntil.value > o.now
  }

  /** Whether the last observation of a policy name found it active. */
  ghost predicate WasActive(seen: seq<Observation>, name: string)
  {
    seen != [] &&
    var last := seen[|seen| - 1];
    if last.name == name then IsActive(last) else WasActive(seen[..|seen| - 1], name)
  }

  /** Observation `i` finds a policy inactive that its previous observation found active. */
  ghost predicate Expires(seen: seq<Observation>, i: int)
  {
    0 <= i < |seen| && !IsActive(seen[i]) && WasActive(seen[..i], seen[i].name)
  }

  ghost function Expiries(seen: seq<Observation>, repo: string): set<int>
  {
    set i | 0 <= i < |seen| && Expires(seen, i) && seen[i].repo == repo
  }

  ghost predicate EndsWindow(seen: seq<Observation>, o: Observation)
  {
    !IsActive(o) && WasActive(seen, o.name)
  }

  /** Observation `j` is the last of this name before `i`. */
  ghost predicate Previous(seen: seq<Observation>, i: int, name: string, j: int)
  {
    0 <= j < i <= |seen| && seen[j].name == name && forall k :: j < k < i ==> seen[k].name != name
  }

  lemma {:induction false} WasActiveIff(seen: seq<Observation>, name: string)
    ensures WasActive(seen, name) <==> exists j :: Previous(seen, |seen|, name, j) && IsActive(seen[j])
  {
    if seen != [] {
      var n := |seen| - 1;
      if seen[n].name == name {
        assert Previous(seen, |seen|, name, n);
        assert forall j :: Previous(seen, |seen|, name, j) ==> j == n;
      } else {
        WasActiveIff(seen[..n], name);
        assert forall j :: Previous(seen, |seen|, name, j) <==> Previous(seen[..n], n, name, j);
        assert forall j :: 0 <= j < n ==> seen[..n][j] == seen[j];
      }
    }
  }

  /**
   A window expires, in the instants themselves: observation `i` finds no end of activity in its
   future, and the one before it of the same name did.
   */
  lemma ExpiresIff(seen: seq<Observation>, i: nat)
    requires i < |seen|
    ensures Expires(seen, i) <==>
      && (seen[i].activeUntil.Some? ==> seen[i].activeUntil.value <= seen[i].now)
      && exists j :: Previous(seen, i, seen[i].name, j) && seen[j].activeUntil.Some? && seen[j].activeUntil.value > seen[j].now
  {
    var name := seen[i].name;
    WasActiveIff(seen[..i], name);
    assert forall j :: 0 <= j < i ==> seen[..i][j] == seen[j];
    assert forall j :: Previous(seen, i, name, j) <==> Previous(seen[..i], i, name, j);
  }

  lemma ExpiriesAppend(seen: seq<Observation>, o: Observation, repo: string)
    ensures |Expiries(seen + [o], repo)| == |Expiries(seen, repo)| + if EndsWindow(seen, o) && o.repo == repo then 1 else 0
  {
    var all, was, now := seen + [o], Expiries(seen, repo), Expiries(seen + [o], repo);
    assert all[..|seen|] == seen && all[|seen|] == o;
    forall i | 0 <= i < |seen| ensures i in now <==> i in was {
      assert all[..i] == seen[..i] && all[i] == seen[i];
    }
    assert |seen| in now <==> EndsWindow(seen, o) && o.repo == repo;
    if EndsWindow(seen, o) && o.repo == repo {
      assert now == was + {|seen|};
    } else {
      assert now == was;
    }
  }

  lemma WasActiveAppend(seen: seq<Observation>, o: Observation, name: string)
    ensures WasActive(seen + [o], name) <==> if o.name == name then IsActive(o) else WasActive(seen, name)
  {
    assert (seen + [o])[..|seen|] == seen;
  }

  function CounterOf(expiries: map<string, nat>, repo: string): nat
  {
    if repo in expiries then expiries[repo] else 0
  }

  ghost predicate Remembers(prev: map<string, Option<int>>, seen: seq<Observation>, name: string)
  {
    WasActive(seen, name) <==> name in prev && prev[name].Some?
  }

  ghost predicate Counts(expiries: map<string, nat>, seen: seq<Observation>, repo: string)
  {
    CounterOf(expiries, repo) == |Expiries(seen, repo)|
  }

  class WindowMonitor {
    var prevActiveUntil: map<string, Option<int>>
    var expiries: map<string, nat>
    ghost var seen: seq<Observation>

    /** Each repository's counter is the number of active-to-inactive transitions seen for it. */
    ghost predicate Valid()
      reads this
    {
      && (forall name :: Remembers(prevActiveUntil, seen, name))
      && (forall repo :: Counts(expiries, seen, repo))
    }

    constructor ()
      ensures Valid() && seen == []
    {
      prevActiveUntil, expiries, seen := map[], map[], [];
    }

    method Observe(o: Observation)
      requires Valid()
      modifies this
      ensures Valid() && seen == old(seen) + [o]
    {
      assert Remembers(prevActiveUntil, seen, o.name);
      var prev := if o.name in prevActiveUntil then prevActiveUntil[o.name] else None;
      if o.activeUntil.Some? && o.activeUntil.value > o.now {
        prevActiveUntil := prevActiveUntil[o.name := o.activeUntil];
      } else {
        if prev.Some? {
          expiries := expiries[o.repo := CounterOf(expiries, o.repo) + 1];
        }
        prevActiveUntil := prevActiveUntil[o.name := None];
      }
      seen := seen + [o];
      forall name ensures Remembers(prevActiveUntil, seen, name) {
        assert Remembers(old(prevActiveUntil), old(seen), name);
        WasActiveAppend(old(seen), o, name);
      }
      forall repo ensures Counts(expiries, seen, repo) {
        assert Counts(old(expiries), old(seen), repo);
        ExpiriesAppend(old(seen), o, repo);
      }
    }
  }
}
