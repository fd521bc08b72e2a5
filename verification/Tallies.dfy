/**
 Attribution of a tally keyed by label set to a policy (computePredicted, computeActivity and
 computeActivityFromFeed in internal/controller/warmrunnerpolicy_controller.go): when the
 string-keyed arithmetic agrees with counting the jobs directly.
 */
module Tallies {
  import opened Arithmetic
  import opened Bags
  import opened Grouping
  import opened Labels

  /** The controller's test on one key. */
  function Matches(want: seq<string>): string -> bool
  {
    (key: string) => Includes(SplitLabelSetKey(key), want)
  }

  /** Jobs, by label list, whose key passes that test. */
  function KeyMatches(want: seq<string>): seq<string> -> bool
  {
    KeySatisfies(KeyOf, Matches(want))
  }

  /** Jobs whose own labels include the wanted ones. */
  function LabelsInclude(want: seq<string>): seq<string> -> bool
  {
    (labels: seq<string>) => Includes(labels, want)
  }

  /**
   Exactly which jobs the key test counts, for every label list: those among whose
   comma-separated pieces all wanted labels occur, where lists of empty labels have none.
   */
  lemma KeyMatchesMeaning(labels: seq<string>, want: seq<string>)
    ensures KeyMatches(want)(labels)
       <==> forall w :: w in want ==> w in (if Elements(labels) <= {""} then {} else Pieces(labels))
  {
    SplitKeyMeaning(labels);
    var back := SplitLabelSetKey(KeyOf(labels));
    assert forall w :: w in back <==> w in Elements(back);
  }

  /** The label lists a key reads back as they are: no commas, and not just the empty label. */
  ghost predicate Plain(labels: seq<string>)
  {
    CommaFree(labels) && Elements(labels) != {""}
  }

  lemma KeyMatchesPlain(labels: seq<string>, want: seq<string>)
    requires Plain(labels)
    ensures KeyMatches(want)(labels) == LabelsInclude(want)(labels)
  {
    KeyRoundTripIff(labels);
    var back := SplitLabelSetKey(KeyOf(labels));
    assert forall w :: w in back <==> w in Elements(back);
    assert forall w :: w in labels <==> w in Elements(labels);
  }

  /** On plain labels the string-keyed total is the direct count of jobs that include `want`. */
  lemma AttributionIsDirectCount(bag: multiset<seq<string>>, want: seq<string>)
    requires forall labels :: labels in bag ==> Plain(labels)
    ensures TotalWhere(Credit(map[], bag, KeyOf), Matches(want)) == CountIf(bag, LabelsInclude(want))
  {
    GroupedTotal(bag, KeyOf, Matches(want));
    forall labels | labels in bag ensures KeyMatches(want)(labels) == LabelsInclude(want)(labels) {
      KeyMatchesPlain(labels, want);
    }
    CountIfSame(bag, KeyMatches(want), LabelsInclude(want));
  }

  /** For every policy, the string-keyed total of these jobs is the direct count. */
  ghost predicate CountsDirectly(bag: multiset<seq<string>>)
  {
    forall want :: TotalWhere(Credit(map[], bag, KeyOf), Matches(want)) == CountIf(bag, LabelsInclude(want))
  }

  /** The string-keyed arithmetic is right for every policy exactly on plain labels; no errors cancel out. */
  lemma CountsDirectlyIff(bag: multiset<seq<string>>)
    ensures CountsDirectly(bag) <==> forall labels :: labels in bag ==> Plain(labels)
  {
    if labels :| labels in bag && !CommaFree(labels) {
      var l :| l in labels && ',' in l;
      forall other | other in bag ensures !KeyMatches([l])(other) { CommaNeverMatches(other, l); }
      Undercounted(bag, labels, [l]);
    } else if labels :| labels in bag && Elements(labels) == {""} {
      assert "" in Elements(labels);
      forall other | other in bag && KeyMatches([""])(other) ensures LabelsInclude([""])(other) {
        KeyMatchesMeaning(other, [""]);
        PiecesCommaFree(other);
        assert "" in [""];
      }
      KeyMatchesMeaning(labels, [""]);
      assert "" in [""];
      Undercounted(bag, labels, [""]);
    } else {
      forall want { AttributionIsDirectCount(bag, want); }
    }
  }

  /** A label with a comma is never read back from a key. */
  lemma CommaNeverMatches(labels: seq<string>, l: string)
    requires ',' in l
    ensures !KeyMatches([l])(labels)
  {
    KeyMatchesMeaning(labels, [l]);
    assert l in [l] && l !in Pieces(labels);
  }

  /** A policy that the key test denies jobs it should have, and grants none it should not. */
  lemma Undercounted(bag: multiset<seq<string>>, labels: seq<string>, want: seq<string>)
    requires labels in bag && LabelsInclude(want)(labels) && !KeyMatches(want)(labels)
    requires forall other :: other in bag && KeyMatches(want)(other) ==> LabelsInclude(want)(other)
    ensures !CountsDirectly(bag)
  {
    GroupedTotal(bag, KeyOf, Matches(want));
    CountIfLess(bag, KeyMatches(want), LabelsInclude(want), labels);
  }

  /** `contrib` is the 32-bit sum of the counts of the matching keys outside `todo`. */
  ghost predicate SumsUp(contrib: int, t: Tally, todo: set<string>, p: string -> bool)
  {
    todo <= t.Keys && contrib == ToInt32(SumWhere(t, t.Keys - todo, p))
  }

  lemma SumsUpStep(contrib: int, t: Tally, todo: set<string>, p: string -> bool, key: string)
    requires SumsUp(contrib, t, todo, p) && key in todo
    ensures SumsUp(if p(key) then ToInt32(contrib + ToInt32(t[key])) else contrib, t, todo - {key}, p)
  {
    var done := t.Keys - todo;
    SumWhereAdd(t, done, p, key);
    ToInt32Add(SumWhere(t, done, p), t[key]);
    assert t.Keys - (todo - {key}) == done + {key};
  }

  lemma SumsUpEnds(contrib: int, t: Tally, p: string -> bool)
    ensures SumsUp(0, t, t.Keys, p)
    ensures SumsUp(contrib, t, {}, p) ==> contrib == ToInt32(TotalWhere(t, p))
  {
    assert t.Keys - t.Keys == {} && t.Keys - {} == t.Keys;
  }

  /** The summing loop shared by the three signal computations. */
  method Contribution(perLabelSet: Tally, want: seq<string>) returns (contrib: int)
    ensures contrib == ToInt32(TotalWhere(perLabelSet, Matches(want)))
  {
    contrib := 0;
    var todo := perLabelSet.Keys;
    ghost var p := Matches(want);
    SumsUpEnds(contrib, perLabelSet, p);
    while todo != {}
      invariant todo <= perLabelSet.Keys && SumsUp(contrib, perLabelSet, todo, p)
      decreases todo
    {
      var key :| key in todo;   // Go visits map keys in an unspecified order
      SumsUpStep(contrib, perLabelSet, todo, p, key);
      todo := todo - {key};
      var labels := SplitLabelSetKey(key);
      var ok := LabelsSuperset(labels, want);
      if ok {
        contrib := ToInt32(contrib + ToInt32(perLabelSet[key]));
      }
    }
    SumsUpEnds(contrib, perLabelSet, p);
  }

  /** Counting `count` jobs with these labels, as both walks do: `dst[LabelSetKey(labels)] += count`. */
  method CountJobs(dst: Tally, labels: seq<string>, count: nat) returns (dst': Tally)
    requires count > 0
    ensures dst' == Credit(dst, Copies(labels, count), KeyOf)
  {
    var key := ComputeLabelSetKey(labels);
    CreditCopies(dst, labels, count, KeyOf);
    dst' := dst[key := At(dst, key) + count];
  }

  /** What a contribution says about the jobs behind the tally it was read from. */
  ghost predicate ReadsAs(contrib: int, jobs: multiset<seq<string>>, want: seq<string>)
  {
    && contrib == ToInt32(CountIf(jobs, KeyMatches(want)))
    && ((forall labels :: labels in jobs ==> Plain(labels)) && |jobs| < 0x8000_0000
        ==> contrib == CountIf(jobs, LabelsInclude(want)))
  }

  /**
   End to end: truncated to int32 the contribution is the number of jobs whose key matches, and
   on fewer than 2^31 plain-labelled jobs it is the number whose labels include every wanted one.
   */
  method PolicyContribution(perLabelSet: Tally, ghost jobs: multiset<seq<string>>, want: seq<string>)
      returns (contrib: int)
    requires perLabelSet == Credit(map[], jobs, KeyOf)
    ensures ReadsAs(contrib, jobs, want)
  {
    contrib := Contribution(perLabelSet, want);
    GroupedTotal(jobs, KeyOf, Matches(want));
    if forall labels :: labels in jobs ==> Plain(labels) {
      AttributionIsDirectCount(jobs, want);
      CountIfBound(jobs, LabelsInclude(want));
    }
  }
}
