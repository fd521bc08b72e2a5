/**
 Label-set keys: the sorted, unique, comma-joined encoding of a runs-on label list
 (internal/predictor/predictor.go), its inverse in the controller, and the exact
 relation between the two for every label list.
 */
module Labels {

  // ---------- Go's byte-wise string order ----------

  predicate Less(a: string, b: string)
  {
    if b == "" then false
    else if a == "" then true
    else if a[0] != b[0] then a[0] < b[0]
    else Less(a[1..], b[1..])
  }

  lemma {:induction false} LessTotal(a: string, b: string)
    ensures Less(a, b) || Less(b, a) || a == b
    ensures !(Less(a, b) && Less(b, a)) && !Less(a, a)
  {
    if a != "" && b != "" {
      LessTotal(a[1..], b[1..]);
      if a[0] == b[0] && a[1..] == b[1..] {
        assert a == [a[0]] + a[1..] == b;
      }
    }
    if a != "" {
      LessTotal(a[1..], a[1..]);
    }
  }

  lemma {:induction false} LessTransitive(a: string, b: string, c: string)
    requires Less(a, b) && Less(b, c)
    ensures Less(a, c)
  {
    if a != "" && a[0] == b[0] == c[0] {
      LessTransitive(a[1..], b[1..], c[1..]);
    }
  }

  // ---------- Sorted, duplicate-free lists ----------

  ghost predicate Increasing(u: seq<string>)
  {
    forall i, j :: 0 <= i < j < |u| ==> Less(u[i], u[j])
  }

  ghost function Elements<T>(u: seq<T>): set<T>
  {
    set l | l in u
  }

  lemma ElementsConcat<T>(a: seq<T>, b: seq<T>)
    ensures Elements(a + b) == Elements(a) + Elements(b)
  {}

  lemma ElementsEmpty<T>(a: seq<T>)
    ensures Elements(a) == {} <==> a == []
  {
    if a != [] { assert a[0] in Elements(a); }
  }

  /** Insert into an increasing list, dropping a duplicate. */
  function Insert(l: string, u: seq<string>): seq<string>
  {
    if u == [] then [l]
    else if Less(l, u[0]) then [l] + u
    else if l == u[0] then u
    else [u[0]] + Insert(l, u[1..])
  }

  lemma {:induction false} InsertElements(l: string, u: seq<string>)
    ensures Elements(Insert(l, u)) == Elements(u) + {l}
  {
    if u != [] {
      ElementsConcat([u[0]], u[1..]);
      assert u == [u[0]] + u[1..];
      InsertElements(l, u[1..]);
      ElementsConcat([u[0]], Insert(l, u[1..]));
      ElementsConcat([l], u);
    }
  }

  lemma {:induction false} InsertIncreasing(l: string, u: seq<string>)
    requires Increasing(u)
    ensures Increasing(Insert(l, u))
  {
    if u != [] {
      LessTotal(l, u[0]);
      if Less(l, u[0]) {
        forall j | 0 < j < |u| ensures Less(l, u[j]) { LessTransitive(l, u[0], u[j]); }
      } else if l != u[0] {
        var rest := Insert(l, u[1..]);
        InsertIncreasing(l, u[1..]);
        InsertElements(l, u[1..]);
        forall j | 0 <= j < |rest| ensures Less(u[0], rest[j]) {
          assert rest[j] in Elements(rest);
          assert rest[j] in u[1..] || rest[j] == l;
        }
      }
    }
  }

  /** The increasing list of the distinct members of `labels`. */
  function Canonical(labels: seq<string>): (r: seq<string>)
    ensures Increasing(r)
    ensures Elements(r) == Elements(labels)
  {
    if labels == [] then []
    else
      assert Elements(labels) == Elements(labels[1..]) + {labels[0]} by {
        assert labels == [labels[0]] + labels[1..];
      }
      InsertElements(labels[0], Canonical(labels[1..]));
      InsertIncreasing(labels[0], Canonical(labels[1..]));
      Insert(labels[0], Canonical(labels[1..]))
  }

  /** An increasing list is determined by its set of members. */
  lemma {:induction false} IncreasingUnique(u: seq<string>, v: seq<string>)
    requires Increasing(u) && Increasing(v) && Elements(u) == Elements(v)
    ensures u == v
  {
    if u == [] {
      ElementsEmpty(v);
    } else {
      assert u[0] in Elements(v);
      assert v != [];
      assert v[0] in Elements(u);
      var i :| 0 <= i < |v| && v[i] == u[0];
      var j :| 0 <= j < |u| && u[j] == v[0];
      LessTotal(u[0], v[0]);
      assert u[0] == v[0];
      forall x ensures x in Elements(u[1..]) <==> x in Elements(v[1..])
      {
        LessTotal(u[0], u[0]);
        assert x in u[1..] <==> x in Elements(u) && x != u[0];
        assert x in v[1..] <==> x in Elements(v) && x != v[0];
      }
      IncreasingUnique(u[1..], v[1..]);
      assert u == [u[0]] + u[1..] && v == [v[0]] + v[1..];
    }
  }

  // ---------- strings.Join and strings.Split on "," ----------

  function Join(u: seq<string>): string
  {
    if u == [] then ""
    else if |u| == 1 then u[0]
    else u[0] + "," + Join(u[1..])
  }

  function Split(s: string): (r: seq<string>)
    ensures |r| >= 1
    ensures forall p :: p in r ==> ',' !in p
  {
    if s == "" then [""]
    else
      var rest := Split(s[1..]);
      if s[0] == ',' then [""] + rest
      else [[s[0]] + rest[0]] + rest[1..]
  }

  lemma {:induction false} SplitAtComma(a: string, b: string)
    ensures Split(a + "," + b) == Split(a) + Split(b)
  {
    if a == "" {
      assert (a + "," + b)[1..] == b;
    } else {
      assert (a + "," + b)[1..] == a[1..] + "," + b;
      SplitAtComma(a[1..], b);
    }
  }

  lemma {:induction false} SplitCommaFree(s: string)
    requires ',' !in s
    ensures Split(s) == [s]
  {
    if s != "" {
      SplitCommaFree(s[1..]);
      assert s == [s[0]] + s[1..];
    }
  }

  /** The comma-separated pieces of all members of a label list. */
  ghost function Pieces(u: seq<string>): set<string>
  {
    set l, p | l in u && p in Split(l) :: p
  }

  /** The pieces of each member in turn. */
  ghost function AllSplit(u: seq<string>): seq<string>
  {
    if u == [] then [] else Split(u[0]) + AllSplit(u[1..])
  }

  lemma {:induction false} SplitJoin(u: seq<string>)
    requires u != []
    ensures Split(Join(u)) == AllSplit(u)
  {
    if |u| > 1 {
      SplitAtComma(u[0], Join(u[1..]));
      SplitJoin(u[1..]);
    } else {
      assert AllSplit(u) == Split(u[0]) + AllSplit([]);
    }
  }

  lemma {:induction false} AllSplitPieces(u: seq<string>)
    ensures Elements(AllSplit(u)) == Pieces(u)
  {
    if u != [] {
      AllSplitPieces(u[1..]);
      assert u == [u[0]] + u[1..];
      assert Pieces(u) == Elements(Split(u[0])) + Pieces(u[1..]);
      ElementsConcat(Split(u[0]), AllSplit(u[1..]));
    }
  }

  /** Splitting loses nothing. */
  lemma {:induction false} JoinSplit(s: string)
    ensures Join(Split(s)) == s
  {
    if s != "" {
      var rest := Split(s[1..]);
      JoinSplit(s[1..]);
      assert s == [s[0]] + s[1..];
      if s[0] == ',' {
        assert ([""] + rest)[1..] == rest;
      } else {
        assert ([[s[0]] + rest[0]] + rest[1..])[1..] == rest[1..];
      }
    }
  }

  // ---------- The key and its inverse ----------

  /** LabelSetKey as a function of the list; `ComputeLabelSetKey` below is the loop that computes it. */
  function KeyOf(labels: seq<string>): string
  {
    Join(Canonical(labels))
  }

  function SplitLabelSetKey(key: string): seq<string>
  {
    if key == "" then [] else Split(key)
  }

  predicate Includes(have: seq<string>, want: seq<string>)
  {
    forall w :: w in want ==> w in have
  }

  /** Only the empty list and lists of empty labels are encoded as the empty key. */
  lemma EmptyKey(labels: seq<string>)
    ensures KeyOf(labels) == "" <==> Elements(labels) <= {""}
  {
    var u := Canonical(labels);
    if u == [] {
      assert Elements(labels) == {};
    } else if |u| == 1 {
      assert u[0] in Elements(u);
      assert Elements(u) == {u[0]};
    } else {
      assert Less(u[0], u[1]);
      assert u[1] in Elements(u);
      assert u[1] != "";
    }
  }

  /**
   What the controller reads back from a key, for every label list whatsoever: the
   comma-separated pieces of the labels, or nothing when all labels are empty.
   */
  lemma SplitKeyMeaning(labels: seq<string>)
    ensures Elements(SplitLabelSetKey(KeyOf(labels)))
         == if Elements(labels) <= {""} then {} else Pieces(labels)
  {
    EmptyKey(labels);
    var u := Canonical(labels);
    if KeyOf(labels) != "" {
      SplitJoin(u);
      AllSplitPieces(u);
      forall l ensures l in u <==> l in labels
      {
        assert l in Elements(u) <==> l in Elements(labels);
      }
      assert Pieces(u) == Pieces(labels);
    }
  }

  ghost predicate CommaFree(labels: seq<string>)
  {
    forall l :: l in labels ==> ',' !in l
  }

  lemma PiecesCommaFree(labels: seq<string>)
    requires CommaFree(labels)
    ensures Pieces(labels) == Elements(labels)
  {
    forall l | l in labels ensures Split(l) == [l] { SplitCommaFree(l); }
    forall l | l in labels ensures l in Pieces(labels) { assert l in Split(l); }
  }

  /**
   Decoding inverts encoding exactly on the lists with no comma in any label that are not
   just the empty label; every other list is read back as a different set.
   */
  lemma KeyRoundTripIff(labels: seq<string>)
    ensures Elements(SplitLabelSetKey(KeyOf(labels))) == Elements(labels)
       <==> CommaFree(labels) && Elements(labels) != {""}
  {
    SplitKeyMeaning(labels);
    if CommaFree(labels) {
      PiecesCommaFree(labels);
    } else {
      var l :| l in labels && ',' in l;
      assert l in Elements(labels);
      assert l !in Pieces(labels);
    }
  }

  /**
   Any two lists share a key exactly when their sorted members, taken apart at the commas and
   strung together, are the same pieces in the same order, or when both are encoded as empty.
   */
  lemma SameKeyIff(a: seq<string>, b: seq<string>)
    ensures KeyOf(a) == KeyOf(b)
       <==> AllSplit(Canonical(a)) == AllSplit(Canonical(b)) || (Elements(a) <= {""} && Elements(b) <= {""})
  {
    EmptyKey(a);
    EmptyKey(b);
    KeyFromPieces(a);
    KeyFromPieces(b);
  }

  lemma KeyFromPieces(a: seq<string>)
    ensures Join(AllSplit(Canonical(a))) == KeyOf(a)
    ensures KeyOf(a) != "" ==> AllSplit(Canonical(a)) == Split(KeyOf(a))
  {
    var u := Canonical(a);
    if u != [] {
      SplitJoin(u);
      JoinSplit(Join(u));
    }
  }

  /** Comma-free lists share a key iff they are equal as sets, except that [] and [""] collide. */
  lemma SameKeyCommaFree(a: seq<string>, b: seq<string>)
    requires CommaFree(a) && CommaFree(b)
    ensures KeyOf(a) == KeyOf(b)
       <==> Elements(a) == Elements(b) || (Elements(a) <= {""} && Elements(b) <= {""})
  {
    EmptyKey(a);
    EmptyKey(b);
    if Elements(a) == Elements(b) {
      IncreasingUnique(Canonical(a), Canonical(b));
    } else if KeyOf(a) == KeyOf(b) && KeyOf(a) != "" {
      KeyRoundTripIff(a);
      KeyRoundTripIff(b);
    }
  }

  /** With a comma inside a label, different label sets do share a key. */
  lemma CommaCollision()
    ensures KeyOf(["a,b"]) == KeyOf(["a", "b"]) && Elements(["a,b"]) != Elements(["a", "b"])
  {
    assert Canonical(["a,b"]) == Insert("a,b", Canonical([])) == ["a,b"];
    assert Less("a", "b") && !Less("b", "a");
    assert ["a", "b"][1..] == ["b"] && ["b"][1..] == [];
    assert Canonical(["b"]) == Insert("b", []) == ["b"];
    assert Canonical(["a", "b"]) == Insert("a", ["b"]) == ["a", "b"];
    assert Join(["a", "b"]) == "a" + "," + Join(["b"]) == "a,b";
    assert "a" in Elements(["a", "b"]);
  }

  // ---------- The loops of the source ----------

  /** sort.Strings on a duplicate-free slice, by insertion; specified by the sorted order alone. */
  method SortStrings(xs: seq<string>) returns (r: seq<string>)
    ensures Increasing(r) && Elements(r) == Elements(xs)
  {
    r := [];
    for i := 0 to |xs|
      invariant Increasing(r) && Elements(r) == Elements(xs[..i])
    {
      assert xs[..i + 1] == xs[..i] + [xs[i]];
      InsertElements(xs[i], r);
      InsertIncreasing(xs[i], r);
      r := Insert(xs[i], r);
    }
    assert xs[..|xs|] == xs;
  }

  method JoinComma(u: seq<string>) returns (r: string)
    ensures r == Join(u)
  {
    if u == [] { return ""; }
    var i := |u| - 1;
    r := u[i];
    while i > 0
      invariant 0 <= i < |u| && r == Join(u[i..])
    {
      i := i - 1;
      assert u[i..][1..] == u[i + 1..];
      r := u[i] + "," + r;
    }
    assert u[0..] == u;
  }

  method ComputeLabelSetKey(labels: seq<string>) returns (key: string)
    ensures key == KeyOf(labels)
  {
    if |labels| == 0 { return ""; }
    var seen: set<string>, uniq: seq<string> := {}, [];
    for i := 0 to |labels|
      invariant seen == Elements(labels[..i]) == Elements(uniq)
    {
      assert labels[..i + 1] == labels[..i] + [labels[i]];
      if labels[i] !in seen {
        seen := seen + {labels[i]};
        uniq := uniq + [labels[i]];
      }
    }
    assert labels[..|labels|] == labels;
    uniq := SortStrings(uniq);
    IncreasingUnique(uniq, Canonical(labels));
    key := JoinComma(uniq);
  }

  method LabelsSuperset(have: seq<string>, want: seq<string>) returns (ok: bool)
    ensures ok <==> Includes(have, want)
    ensures ok <==> forall w :: w in want ==> w in have
  {
    if |want| == 0 { return true; }
    var index: set<string> := {};
    for i := 0 to |have|
      invariant index == Elements(have[..i])
    {
      assert have[..i + 1] == have[..i] + [have[i]];
      index := index + {have[i]};
    }
    assert have[..|have|] == have;
    for i := 0 to |want|
      invariant forall j :: 0 <= j < i ==> want[j] in have
    {
      if want[i] !in index { return false; }
    }
    return true;
  }
}
