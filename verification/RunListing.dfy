/**
 The union of the per-status run listings (listActiveRuns in
 internal/predictor/workflow_needs_graph.go): distinct run IDs, capped, in listing order.
 */
module RunListing {
  import opened Arithmetic
  import opened Bags

  datatype Listed<+T> = Listed(id: int, run: T)

  ghost function Ids<T>(runs: seq<Listed<T>>): set<int>
  {
    set r | r in runs :: r.id
  }

  /** The first run of each ID, in order. */
  ghost function FirstById<T>(runs: seq<Listed<T>>): seq<Listed<T>>
  {
    if runs == [] then []
    else
      var before, last := runs[..|runs| - 1], runs[|runs| - 1];
      FirstById(before) + if last.id in Ids(before) then [] else [last]
  }

  lemma {:induction false} FirstByIdDistinct<T>(runs: seq<Listed<T>>)
    ensures Ids(FirstById(runs)) == Ids(runs)
    ensures forall i, j :: 0 <= i < j < |FirstById(runs)| ==> FirstById(runs)[i].id != FirstById(runs)[j].id
  {
    if runs != [] {
      var before, last := runs[..|runs| - 1], runs[|runs| - 1];
      FirstByIdDistinct(before);
      assert runs == before + [last];
      FirstByIdAppend(before, last);
      var f := FirstById(before);
      if last.id !in Ids(before) {
        assert Ids(f + [last]) == Ids(f) + {last.id};
        forall i | 0 <= i < |f| ensures f[i].id != last.id {
          assert f[i] in f && f[i].id in Ids(f);
        }
      }
    }
  }

  lemma {:induction false} FirstByIdGrows<T>(a: seq<Listed<T>>, b: seq<Listed<T>>)
    ensures FirstById(a) <= FirstById(a + b)
  {
    if b == [] {
      assert a + b == a;
    } else {
      assert (a + b)[..|a + b| - 1] == a + b[..|b| - 1];
      FirstByIdGrows(a, b[..|b| - 1]);
    }
  }

  /** `at` lists, in order, the positions of the runs whose ID has not come before. */
  ghost predicate FirstsAt<T>(runs: seq<Listed<T>>, at: seq<nat>)
  {
    && (forall i, j :: 0 <= i < j < |at| ==> at[i] < at[j])
    && (forall i :: 0 <= i < |at| ==> at[i] < |runs|)
    && (forall j :: 0 <= j < |runs| ==> (j in at <==> IsNew(runs, j)))
  }

  ghost predicate IsNew<T>(runs: seq<Listed<T>>, j: nat)
    requires j < |runs|
  {
    forall i :: 0 <= i < j ==> runs[i].id != runs[j].id
  }

  lemma IsNewSnoc<T>(runs: seq<Listed<T>>, run: Listed<T>)
    ensures forall j :: 0 <= j < |runs| ==> (IsNew(runs + [run], j) <==> IsNew(runs, j))
    ensures IsNew(runs + [run], |runs|) <==> run.id !in Ids(runs)
  {
    var all := runs + [run];
    assert all[|runs|] == run && forall i :: 0 <= i < |runs| ==> all[i] == runs[i];
    if i :| 0 <= i < |runs| && runs[i].id == run.id {
      assert runs[i] in runs && all[i].id == run.id;
    } else {
      assert forall r :: r in runs ==> r.id != run.id;
    }
  }

  ghost predicate Picks<T>(runs: seq<T>, at: seq<nat>, picked: seq<T>)
  {
    |picked| == |at| && forall i :: 0 <= i < |at| ==> at[i] < |runs| && picked[i] == runs[at[i]]
  }

  lemma FirstsSnoc<T>(runs: seq<Listed<T>>, at: seq<nat>, run: Listed<T>)
    requires FirstsAt(runs, at)
    ensures FirstsAt(runs + [run], if run.id in Ids(runs) then at else at + [|runs|])
  {
    IsNewSnoc(runs, run);
    assert |runs| !in at;
  }

  lemma PicksSnoc<T>(runs: seq<T>, at: seq<nat>, picked: seq<T>, run: T)
    requires Picks(runs, at, picked)
    ensures Picks(runs + [run], at, picked) && Picks(runs + [run], at + [|runs|], picked + [run])
  {}

  /** Entry `i` is the `i`-th run whose ID has not come before. */
  lemma {:induction false} FirstByIdPositions<T>(runs: seq<Listed<T>>) returns (at: seq<nat>)
    ensures FirstsAt(runs, at) && Picks(runs, at, FirstById(runs))
  {
    at := [];
    if runs != [] {
      var before, last := runs[..|runs| - 1], runs[|runs| - 1];
      at := FirstByIdPositions(before);
      assert runs == before + [last];
      FirstsSnoc(before, at, last);
      PicksSnoc(before, at, FirstById(before), last);
      if last.id in Ids(before) {
        assert FirstById(runs) == FirstById(before);
      } else {
        at := at + [|before|];
      }
    }
  }

  /** All runs of the listings before the first failed one. */
  ghost function UntilFailure<T>(listings: seq<Option<seq<Listed<T>>>>): seq<Listed<T>>
  {
    if listings == [] || listings[0].None? then [] else listings[0].value + UntilFailure(listings[1..])
  }

  /** A failed listing fails the poll unless the cap was already reached before it. */
  ghost function ActiveRuns<T>(listings: seq<Option<seq<Listed<T>>>>, cap: nat): Option<seq<Listed<T>>>
  {
    var found := FirstById(UntilFailure(listings));
    if |found| >= cap then Some(found[..cap])
    else if None in listings then None
    else Some(found)
  }

  /** Listing `f` is the first that fails. */
  ghost predicate FailsFirst<T>(listings: seq<Option<seq<Listed<T>>>>, f: int)
  {
    0 <= f < |listings| && listings[f].None? && forall j :: 0 <= j < f ==> listings[j].Some?
  }

  /** The IDs in the first `f` listings. */
  ghost function IdsIn<T>(listings: seq<Option<seq<Listed<T>>>>, f: nat): set<int>
    requires f <= |listings|
  {
    if f == 0 then {} else IdsIn(listings, f - 1) + if listings[f - 1].Some? then Ids(listings[f - 1].value) else {}
  }

  lemma {:induction false} DistinctSize<T>(runs: seq<Listed<T>>)
    ensures |FirstById(runs)| == |Ids(runs)|
  {
    if runs != [] {
      var before, last := runs[..|runs| - 1], runs[|runs| - 1];
      DistinctSize(before);
      assert runs == before + [last];
      assert Ids(runs) == Ids(before) + {last.id};
      if last.id in Ids(before) {
        assert FirstById(runs) == FirstById(before) && Ids(runs) == Ids(before);
      }
    }
  }

  lemma IdsConcat<T>(a: seq<Listed<T>>, b: seq<Listed<T>>)
    ensures Ids(a + b) == Ids(a) + Ids(b)
  {}

  lemma {:induction false} UntilFailureIds<T>(listings: seq<Option<seq<Listed<T>>>>, i: nat, f: nat)
    requires i <= f <= |listings| && (forall j :: 0 <= j < f ==> listings[j].Some?) && (f == |listings| || listings[f].None?)
    ensures IdsIn(listings, i) + Ids(UntilFailure(listings[i..])) == IdsIn(listings, f)
    decreases f - i
  {
    if i < f {
      assert listings[i..][1..] == listings[i + 1..];
      UntilFailureIds(listings, i + 1, f);
      IdsConcat(listings[i].value, UntilFailure(listings[i + 1..]));
    }
  }

  /** A poll fails exactly when a listing fails before which fewer than `cap` distinct runs were found. */
  lemma PollFailsIff<T>(listings: seq<Option<seq<Listed<T>>>>, cap: nat)
    ensures ActiveRuns(listings, cap).None? <==> exists f :: FailsFirst(listings, f) && |IdsIn(listings, f)| < cap
  {
    var runs := UntilFailure(listings);
    DistinctSize(runs);
    assert listings[0..] == listings;
    if None in listings {
      var f := FirstFailure(listings);
      UntilFailureIds(listings, 0, f);
      assert forall g :: FailsFirst(listings, g) ==> g == f;
      assert Ids(runs) == IdsIn(listings, f);
    } else {
      assert forall g :: 0 <= g < |listings| ==> listings[g] in listings;
    }
  }

  lemma {:induction false} FirstFailure<T>(listings: seq<Option<seq<Listed<T>>>>) returns (f: nat)
    requires None in listings
    ensures FailsFirst(listings, f)
  {
    if listings[0].None? { return 0; }
    var rest := FirstFailure(listings[1..]);
    f := rest + 1;
    forall j | 0 <= j < f ensures listings[j].Some? { if j > 0 { assert listings[1..][j - 1].Some?; } }
  }

  /** A poll that succeeds has as many runs as there are IDs before the first failure, up to the cap, and no ID twice. */
  lemma PollSize<T>(listings: seq<Option<seq<Listed<T>>>>, cap: nat, f: nat)
    requires ActiveRuns(listings, cap).Some? && (FailsFirst(listings, f) || (f == |listings| && None !in listings))
    ensures var runs, found := ActiveRuns(listings, cap).value, IdsIn(listings, f);
            |runs| == (if |found| < cap then |found| else cap) && Ids(runs) <= found && |Ids(runs)| == |runs|
  {
    var all := UntilFailure(listings);
    ReadIds(listings, f);
    DistinctSize(all);
    var n := if |FirstById(all)| < cap then |FirstById(all)| else cap;
    FrontOfFirsts(all, n);
    assert ActiveRuns(listings, cap).value == FirstById(all)[..n];
  }

  lemma ReadIds<T>(listings: seq<Option<seq<Listed<T>>>>, f: nat)
    requires FailsFirst(listings, f) || (f == |listings| && None !in listings)
    ensures Ids(UntilFailure(listings)) == IdsIn(listings, f)
  {
    assert listings[0..] == listings;
    if f == |listings| { assert forall j :: 0 <= j < f ==> listings[j] in listings; }
    UntilFailureIds(listings, 0, f);
  }

  lemma FrontOfFirsts<T>(all: seq<Listed<T>>, n: nat)
    requires n <= |FirstById(all)|
    ensures Ids(FirstById(all)[..n]) <= Ids(all) && |Ids(FirstById(all)[..n])| == n
  {
    var firsts := FirstById(all);
    FirstByIdDistinct(all);
    DistinctIds(firsts[..n]);
    assert forall r :: r in firsts[..n] ==> r in firsts;
  }

  lemma {:induction false} DistinctIds<T>(runs: seq<Listed<T>>)
    requires forall i, j :: 0 <= i < j < |runs| ==> runs[i].id != runs[j].id
    ensures |Ids(runs)| == |runs|
  {
    if runs != [] {
      var before, last := runs[..|runs| - 1], runs[|runs| - 1];
      DistinctIds(before);
      assert runs == before + [last];
      assert Ids(runs) == Ids(before) + {last.id};
      assert last.id !in Ids(before);
    }
  }

  lemma FirstByIdAppend<T>(runs: seq<Listed<T>>, run: Listed<T>)
    ensures FirstById(runs + [run]) == FirstById(runs) + if run.id in Ids(runs) then [] else [run]
    ensures Ids(runs + [run]) == Ids(runs) + {run.id}
  {
    assert (runs + [run])[..|runs|] == runs;
  }

  lemma PageSplit<T>(read: seq<T>, page: seq<T>, k: nat)
    requires k <= |page|
    ensures (read + page[..k]) + page[k..] == read + page
  {}

  /** The inner loop over one listing; `full` when the cap was reached. */
  method CollectPage<T>(page: seq<Listed<T>>, cap: nat, seen0: set<int>, out0: seq<Listed<T>>, ghost read: seq<Listed<T>>)
      returns (seen: set<int>, out: seq<Listed<T>>, full: bool)
    requires seen0 == Ids(read) && out0 == FirstById(read) && |out0| < cap
    ensures !full ==> seen == Ids(read + page) && out == FirstById(read + page) && |out| < cap
    ensures full ==> |out| == cap && out <= FirstById(read + page)
  {
    seen, out, full := seen0, out0, false;
    ghost var all := read;
    for k := 0 to |page|
      invariant all == read + page[..k]
      invariant seen == Ids(all) && out == FirstById(all) && |out| < cap
    {
      var run := page[k];
      FirstByIdAppend(all, run);
      PrefixNext(read, page, k);
      all := all + [run];
      if run.id !in seen {
        seen := seen + {run.id};
        out := out + [run];
        if |out| >= cap {
          FirstByIdGrows(all, page[k + 1..]);
          PageSplit(read, page, k + 1);
          return seen, out, true;
        }
      }
    }
    assert page[..|page|] == page;
  }

  /** The runs of the first `i` listings, none of which failed. */
  ghost predicate ReadUpTo<T>(listings: seq<Option<seq<Listed<T>>>>, i: nat, read: seq<Listed<T>>)
  {
    && i <= |listings| && (forall j :: 0 <= j < i ==> listings[j].Some?)
    && UntilFailure(listings) == read + UntilFailure(listings[i..])
  }

  lemma ReadNext<T>(listings: seq<Option<seq<Listed<T>>>>, i: nat, read: seq<Listed<T>>)
    requires i < |listings| && ReadUpTo(listings, i, read)
    ensures listings[i].None? ==> UntilFailure(listings) == read && None in listings
    ensures listings[i].Some? ==> ReadUpTo(listings, i + 1, read + listings[i].value)
  {
    var rest := listings[i..];
    assert rest[0] == listings[i] && rest[1..] == listings[i + 1..];
    if listings[i].None? {
      assert listings[i] in listings && UntilFailure(rest) == [];
    } else {
      var v, more := listings[i].value, UntilFailure(listings[i + 1..]);
      assert UntilFailure(rest) == v + more;
      assert read + (v + more) == (read + v) + more;
    }
  }

  /** What the loop returns when it stops, early or at the end. */
  lemma ReadEnds<T>(listings: seq<Option<seq<Listed<T>>>>, i: nat, read: seq<Listed<T>>, cap: nat, out: seq<Listed<T>>)
    requires ReadUpTo(listings, i, read) && cap > 0
    ensures |out| == cap && out <= FirstById(read) ==> ActiveRuns(listings, cap) == Some(out)
    ensures i == |listings| && out == FirstById(read) && |out| < cap ==> ActiveRuns(listings, cap) == Some(out)
  {
    FirstByIdGrows(read, UntilFailure(listings[i..]));
    var found := FirstById(UntilFailure(listings));
    if |out| == cap && out <= FirstById(read) {
      assert out <= found && found[..cap] == out;
    }
    if i == |listings| {
      assert forall x :: x in listings ==> x.Some?;
      assert UntilFailure(listings) == read;
    }
  }

  method ListActiveRuns<T>(listings: seq<Option<seq<Listed<T>>>>, cap: nat) returns (r: Option<seq<Listed<T>>>)
    requires cap > 0
    ensures r == ActiveRuns(listings, cap)
  {
    var seen: set<int>, out: seq<Listed<T>> := {}, [];
    ghost var read: seq<Listed<T>> := [];
    assert listings[0..] == listings;
    for i := 0 to |listings|
      invariant ReadUpTo(listings, i, read)
      invariant seen == Ids(read) && out == FirstById(read) && |out| < cap
    {
      ReadNext(listings, i, read);
      if listings[i].None? { return None; }
      var full;
      seen, out, full := CollectPage(listings[i].value, cap, seen, out, read);
      read := read + listings[i].value;
      if full {
        ReadEnds(listings, i + 1, read, cap, out);
        return Some(out);
      }
    }
    ReadEnds(listings, |listings|, read, cap, out);
    return Some(out);
  }
}
