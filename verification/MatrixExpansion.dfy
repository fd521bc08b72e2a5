/**
 Expansion of a literal job matrix (mapMatrix, applyExclude and applyInclude in
 internal/predictor/workflow/parse.go). The input is the decoded syntax tree; every loop over a
 Go map takes its keys in an arbitrary order.
 */
module MatrixExpansion {
  import opened Arithmetic
  import opened Bags
  import opened Labels
  import Workflows

  type Combo = map<string, string>

  datatype Row = NilRow | ExprRow | Values(values: seq<string>)

  /** An include or exclude entry; an assignment may be nil. */
  datatype Combination = NilEntry | ExprEntry | Assigns(assigns: map<string, Option<string>>)

  datatype Combinations = Combinations(hasExpression: bool, entries: seq<Combination>)

  datatype Syntax = Syntax(isExpression: bool, rows: map<string, Row>, excludes: Option<Combinations>, includes: Option<Combinations>)

  datatype Axis = Axis(name: string, values: seq<string>)

  // ---------- Cross product ----------

  function Spread(base: Combo, name: string, values: seq<string>): (r: seq<Combo>)
    ensures |r| == |values|
    ensures forall j :: 0 <= j < |values| ==> r[j] == base[name := values[j]]
  {
    if values == [] then [] else Spread(base, name, values[..|values| - 1]) + [base[name := values[|values| - 1]]]
  }

  function Extend(combos: seq<Combo>, axis: Axis): seq<Combo>
  {
    if combos == [] then []
    else Extend(combos[..|combos| - 1], axis) + Spread(combos[|combos| - 1], axis.name, axis.values)
  }

  function Cross(axes: seq<Axis>): seq<Combo>
  {
    if axes == [] then [map[]] else Extend(Cross(axes[..|axes| - 1]), axes[|axes| - 1])
  }

  // ---------- Mixed-radix numbering of the choices ----------

  function Product(axes: seq<Axis>): nat
  {
    if axes == [] then 1 else Product(axes[..|axes| - 1]) * |axes[|axes| - 1].values|
  }

  /** One value index per axis. */
  ghost predicate IsChoice(axes: seq<Axis>, digits: seq<nat>)
  {
    |digits| == |axes| && forall j :: 0 <= j < |axes| ==> digits[j] < |axes[j].values|
  }

  /** The digits of `i` in the mixed radix of the axis lengths, the last axis varying fastest. */
  function Digits(axes: seq<Axis>, i: nat): seq<nat>
  {
    if axes == [] then []
    else
      var n := |axes[|axes| - 1].values|;
      if n == 0 then Digits(axes[..|axes| - 1], 0) + [0] else Digits(axes[..|axes| - 1], i / n) + [i % n]
  }

  function Number(axes: seq<Axis>, digits: seq<nat>): nat
    requires |digits| == |axes|
  {
    if axes == [] then 0
    else Number(axes[..|axes| - 1], digits[..|axes| - 1]) * |axes[|axes| - 1].values| + digits[|axes| - 1]
  }

  /** The combination that takes the chosen value of each axis. */
  function Chosen(axes: seq<Axis>, digits: seq<nat>): Combo
    requires |digits| == |axes| && forall j :: 0 <= j < |axes| ==> digits[j] < |axes[j].values|
  {
    if axes == [] then map[]
    else
      var k := |axes| - 1;
      Chosen(axes[..k], digits[..k])[axes[k].name := axes[k].values[digits[k]]]
  }

  /** Position `q * n + r` holds the `q`-th base with the `r`-th of the `n` values. */
  lemma {:induction false} ExtendAt(combos: seq<Combo>, axis: Axis, q: nat, r: nat)
    requires q < |combos| && r < |axis.values|
    ensures q * |axis.values| + r < |Extend(combos, axis)|
    ensures Extend(combos, axis)[q * |axis.values| + r] == combos[q][axis.name := axis.values[r]]
  {
    var m := |combos| - 1;
    ExtendLength(combos[..m], axis);
    if q < m {
      ExtendAt(combos[..m], axis, q, r);
    }
  }

  lemma {:induction false} ExtendLength(combos: seq<Combo>, axis: Axis)
    ensures |Extend(combos, axis)| == |combos| * |axis.values|
  {
    if combos != [] {
      var q := |combos| - 1;
      ExtendLength(combos[..q], axis);
      MulNext(q, |axis.values|);
    }
  }

  lemma NumberSnoc(axes: seq<Axis>, ds: seq<nat>, r: nat)
    requires axes != [] && IsChoice(axes[..|axes| - 1], ds) && r < |axes[|axes| - 1].values|
    ensures IsChoice(axes, ds + [r])
    ensures Number(axes, ds + [r]) == Number(axes[..|axes| - 1], ds) * |axes[|axes| - 1].values| + r
  {
    assert (ds + [r])[..|axes| - 1] == ds;
    assert forall j :: 0 <= j < |ds| ==> axes[..|axes| - 1][j] == axes[j];
  }

  /** Numbering and digits are inverse, so every choice has exactly one position below the product. */
  lemma {:induction false} DigitsNumber(axes: seq<Axis>, i: nat)
    requires i < Product(axes)
    ensures IsChoice(axes, Digits(axes, i)) && Number(axes, Digits(axes, i)) == i
  {
    if axes != [] {
      var k := |axes| - 1;
      var n := |axes[k].values|;
      var q, r := Divide(i, n, Product(axes[..k]));
      DigitsNumber(axes[..k], q);
      var ds := Digits(axes[..k], q);
      assert Digits(axes, i) == ds + [r];
      NumberSnoc(axes, ds, r);
    }
  }

  lemma {:induction false} NumberDigits(axes: seq<Axis>, digits: seq<nat>)
    requires IsChoice(axes, digits)
    ensures Number(axes, digits) < Product(axes) && Digits(axes, Number(axes, digits)) == digits
  {
    if axes != [] {
      var k := |axes| - 1;
      var n := |axes[k].values|;
      assert forall j :: 0 <= j < k ==> axes[..k][j] == axes[j];
      NumberDigits(axes[..k], digits[..k]);
      var q := Number(axes[..k], digits[..k]);
      MulBound(q, Product(axes[..k]), n);
      DivMod(Number(axes, digits), n, q);
      assert digits == digits[..k] + [digits[k]];
    }
  }

  lemma {:induction false} CrossAt(axes: seq<Axis>, digits: seq<nat>)
    requires IsChoice(axes, digits)
    ensures Number(axes, digits) < |Cross(axes)|
    ensures Cross(axes)[Number(axes, digits)] == Chosen(axes, digits)
  {
    if axes != [] {
      var k := |axes| - 1;
      assert IsChoice(axes[..k], digits[..k]);
      CrossAt(axes[..k], digits[..k]);
      ExtendAt(Cross(axes[..k]), axes[k], Number(axes[..k], digits[..k]), digits[k]);
    }
  }

  /** The cross product lists, at position `i`, the choice whose mixed-radix number is `i`. */
  lemma CrossIsNumbered(axes: seq<Axis>, i: nat)
    requires i < Product(axes)
    ensures |Cross(axes)| == Product(axes) && IsChoice(axes, Digits(axes, i))
    ensures Cross(axes)[i] == Chosen(axes, Digits(axes, i))
  {
    CrossLength(axes);
    DigitsNumber(axes, i);
    CrossAt(axes, Digits(axes, i));
  }

  lemma {:induction false} CrossLength(axes: seq<Axis>)
    ensures |Cross(axes)| == Product(axes)
  {
    if axes != [] {
      var k := |axes| - 1;
      CrossLength(axes[..k]);
      ExtendLength(Cross(axes[..k]), axes[k]);
    }
  }

  ghost function Names(axes: seq<Axis>): set<string>
  {
    set a | a in axes :: a.name
  }

  ghost predicate DistinctNames(axes: seq<Axis>)
  {
    forall i, j :: 0 <= i < j < |axes| ==> axes[i].name != axes[j].name
  }

  /** A chosen combination has exactly the axis names as keys and the chosen value under each. */
  lemma ChosenValues(axes: seq<Axis>, digits: seq<nat>)
    requires IsChoice(axes, digits) && DistinctNames(axes)
    ensures Chosen(axes, digits).Keys == Names(axes)
    ensures forall j :: 0 <= j < |axes| ==> Chosen(axes, digits)[axes[j].name] == axes[j].values[digits[j]]
  {
    ChosenKeys(axes, digits);
    forall j | 0 <= j < |axes| ensures axes[j].name in Chosen(axes, digits) && Chosen(axes, digits)[axes[j].name] == axes[j].values[digits[j]] {
      ChosenAt(axes, digits, j);
    }
  }

  lemma NamesLast(axes: seq<Axis>)
    requires axes != []
    ensures Names(axes) == Names(axes[..|axes| - 1]) + {axes[|axes| - 1].name}
  {
    assert axes == axes[..|axes| - 1] + [axes[|axes| - 1]];
  }

  lemma {:induction false} ChosenKeys(axes: seq<Axis>, digits: seq<nat>)
    requires IsChoice(axes, digits)
    ensures Chosen(axes, digits).Keys == Names(axes)
  {
    if axes != [] {
      ChosenKeys(axes[..|axes| - 1], digits[..|axes| - 1]);
      NamesLast(axes);
    }
  }

  lemma {:induction false} ChosenAt(axes: seq<Axis>, digits: seq<nat>, j: nat)
    requires IsChoice(axes, digits) && DistinctNames(axes) && j < |axes|
    ensures axes[j].name in Chosen(axes, digits) && Chosen(axes, digits)[axes[j].name] == axes[j].values[digits[j]]
  {
    var k := |axes| - 1;
    if j < k {
      ChosenAt(axes[..k], digits[..k], j);
    }
  }

  // ---------- Exclude ----------

  /** The assignments an entry gives, nil ones left out. */
  function Given(assigns: map<string, Option<string>>): Combo
  {
    map k | k in assigns && assigns[k].Some? :: assigns[k].value
  }

  predicate Fits(c: Combo, want: Combo)
  {
    forall k :: k in want ==> k in c && c[k] == want[k]
  }

  predicate FitsAny(c: Combo, entries: seq<Combination>)
  {
    exists e :: e in entries && e.Assigns? && Fits(c, Given(e.assigns))
  }

  /** The combinations no entry fits, in order. */
  function Kept(combos: seq<Combo>, entries: seq<Combination>): seq<Combo>
  {
    if combos == [] then []
    else Kept(combos[..|combos| - 1], entries) + if FitsAny(combos[|combos| - 1], entries) then [] else [combos[|combos| - 1]]
  }

  /** Nothing else is lost and nothing is added: each combination keeps its multiplicity or goes altogether. */
  lemma {:induction false} KeptCounts(combos: seq<Combo>, entries: seq<Combination>, c: Combo)
    ensures multiset(Kept(combos, entries))[c] == if FitsAny(c, entries) then 0 else multiset(combos)[c]
  {
    if combos != [] {
      var init, last := combos[..|combos| - 1], combos[|combos| - 1];
      KeptCounts(init, entries, c);
      assert combos == init + [last];
    }
  }

  /** Every literal entry assigns some value, not nil, that the combination does not have. */
  ghost predicate Survives(c: Combo, entries: seq<Combination>)
  {
    forall e :: e in entries && e.Assigns? ==>
      exists k :: k in e.assigns && e.assigns[k].Some? && (k !in c || c[k] != e.assigns[k].value)
  }

  lemma SurvivesIff(c: Combo, entries: seq<Combination>)
    ensures Survives(c, entries) <==> !FitsAny(c, entries)
  {
    forall e | e in entries && e.Assigns?
      ensures Fits(c, Given(e.assigns))
         <==> !exists k :: k in e.assigns && e.assigns[k].Some? && (k !in c || c[k] != e.assigns[k].value)
    {
      var given := Given(e.assigns);
      assert forall k :: k in given <==> k in e.assigns && e.assigns[k].Some?;
    }
  }

  /** Exclude keeps exactly the combinations of the input that survive every entry. */
  lemma KeptIff(combos: seq<Combo>, entries: seq<Combination>, c: Combo)
    ensures c in Kept(combos, entries) <==> c in combos && Survives(c, entries)
  {
    SurvivesIff(c, entries);
    KeptCounts(combos, entries, c);
    assert c in Kept(combos, entries) <==> multiset(Kept(combos, entries))[c] > 0;
    assert c in combos <==> multiset(combos)[c] > 0;
  }

  /** `at` lists, in order, the positions of the combinations that survive. */
  ghost predicate SurvivorsAt(combos: seq<Combo>, entries: seq<Combination>, at: seq<nat>)
  {
    && (forall i, j :: 0 <= i < j < |at| ==> at[i] < at[j])
    && (forall j :: 0 <= j < |combos| ==> (j in at <==> Survives(combos[j], entries)))
    && (forall i :: 0 <= i < |at| ==> at[i] < |combos|)
  }

  ghost predicate Picks(combos: seq<Combo>, at: seq<nat>, kept: seq<Combo>)
  {
    |kept| == |at| && forall i :: 0 <= i < |at| ==> at[i] < |combos| && kept[i] == combos[at[i]]
  }

  lemma SurvivorsSnoc(combos: seq<Combo>, entries: seq<Combination>, at: seq<nat>, c: Combo)
    requires SurvivorsAt(combos, entries, at)
    ensures SurvivorsAt(combos + [c], entries, if Survives(c, entries) then at + [|combos|] else at)
  {
    var all := combos + [c];
    assert all[|combos|] == c && |combos| !in at;
    forall j | 0 <= j < |combos| ensures j in at <==> Survives(all[j], entries) { assert all[j] == combos[j]; }
  }

  lemma PicksSnoc(combos: seq<Combo>, at: seq<nat>, kept: seq<Combo>, c: Combo)
    requires Picks(combos, at, kept)
    ensures Picks(combos + [c], at, kept) && Picks(combos + [c], at + [|combos|], kept + [c])
  {}

  /** Entry `i` of what is kept is the `i`-th combination that survives. */
  lemma {:induction false} KeptPositions(combos: seq<Combo>, entries: seq<Combination>) returns (at: seq<nat>)
    ensures SurvivorsAt(combos, entries, at) && Picks(combos, at, Kept(combos, entries))
  {
    at := [];
    if combos != [] {
      var before, last := combos[..|combos| - 1], combos[|combos| - 1];
      at := KeptPositions(before, entries);
      assert combos == before + [last];
      SurvivesIff(last, entries);
      SurvivorsSnoc(before, entries, at, last);
      PicksSnoc(before, at, Kept(before, entries), last);
      if FitsAny(last, entries) {
        assert Kept(combos, entries) == Kept(before, entries);
      } else {
        at := at + [|before|];
      }
    }
  }

  // ---------- Include ----------

  /** Agreement on the matrix axes; other assignments are extra dimensions. */
  predicate FitsOnAxes(c: Combo, want: Combo, axes: set<string>)
  {
    forall k :: k in want && k in axes ==> k in c && c[k] == want[k]
  }

  function Merged(c: Combo, want: Combo, axes: set<string>): Combo
  {
    if FitsOnAxes(c, want, axes) then c + want else c
  }

  function MergedAll(combos: seq<Combo>, want: Combo, axes: set<string>): (r: seq<Combo>)
    ensures |r| == |combos| && forall i :: 0 <= i < |combos| ==> r[i] == Merged(combos[i], want, axes)
  {
    if combos == [] then [] else MergedAll(combos[..|combos| - 1], want, axes) + [Merged(combos[|combos| - 1], want, axes)]
  }

  /** An entry is merged into every combination it fits, or else becomes one of its own. */
  function IncludeOne(combos: seq<Combo>, entry: Combination, axes: set<string>): seq<Combo>
  {
    if !entry.Assigns? then combos
    else
      var want := Given(entry.assigns);
      if exists c :: c in combos && FitsOnAxes(c, want, axes) then MergedAll(combos, want, axes) else combos + [want]
  }

  function IncludeAll(combos: seq<Combo>, entries: seq<Combination>, axes: set<string>): seq<Combo>
  {
    if entries == [] then combos
    else IncludeOne(IncludeAll(combos, entries[..|entries| - 1], axes), entries[|entries| - 1], axes)
  }

  /** The axis part of a combination. */
  function AxisPart(c: Combo, axes: set<string>): Combo
  {
    map k | k in c && k in axes :: c[k]
  }

  /** A combination with every entry that fits its own axis values laid over it, in order. */
  function Overlaid(c: Combo, entries: seq<Combination>, axes: set<string>): Combo
  {
    if entries == [] then c
    else
      var before, e := Overlaid(c, entries[..|entries| - 1], axes), entries[|entries| - 1];
      if e.Assigns? && FitsOnAxes(c, Given(e.assigns), axes) then before + Given(e.assigns) else before
  }

  lemma MergedAxisPart(c: Combo, want: Combo, axes: set<string>)
    ensures AxisPart(Merged(c, want, axes), axes) == AxisPart(c, axes)
  {}

  lemma FitsByAxisPart(c: Combo, c': Combo, want: Combo, axes: set<string>)
    requires AxisPart(c, axes) == AxisPart(c', axes)
    ensures FitsOnAxes(c, want, axes) <==> FitsOnAxes(c', want, axes)
  {
    var p, p' := AxisPart(c, axes), AxisPart(c', axes);
    assert forall k :: k in axes ==> ((k in c <==> k in p) && (k in c ==> c[k] == p[k]));
    assert forall k :: k in axes ==> ((k in c' <==> k in p') && (k in c' ==> c'[k] == p'[k]));
  }

  /**
   What includes do to each combination that was there before them: its axis values never
   change, and it ends with exactly the entries that fit those values laid over it, whatever
   happens to the other combinations.
   */
  lemma {:induction false} IncludeEffect(combos: seq<Combo>, entries: seq<Combination>, axes: set<string>, i: nat)
    requires i < |combos|
    ensures |combos| <= |IncludeAll(combos, entries, axes)| <= |combos| + |entries|
    ensures IncludeAll(combos, entries, axes)[i] == Overlaid(combos[i], entries, axes)
    ensures AxisPart(Overlaid(combos[i], entries, axes), axes) == AxisPart(combos[i], axes)
  {
    if entries != [] {
      var before, e := entries[..|entries| - 1], entries[|entries| - 1];
      IncludeEffect(combos, before, axes, i);
      if e.Assigns? {
        var mid, want := IncludeAll(combos, before, axes), Given(e.assigns);
        FitsByAxisPart(mid[i], combos[i], want, axes);
        MergedAxisPart(mid[i], want, axes);
        if forall c :: c in mid ==> !FitsOnAxes(c, want, axes) {
          assert mid[i] in mid;
        }
      }
    }
  }

  /** Include entry `j` is literal, agrees with the combination on every axis it assigns, and assigns `k`. */
  ghost predicate Gives(c: Combo, entries: seq<Combination>, axes: set<string>, j: int, k: string)
  {
    && 0 <= j < |entries| && entries[j].Assigns? && k in entries[j].assigns && entries[j].assigns[k].Some?
    && forall x :: x in entries[j].assigns && x in axes && entries[j].assigns[x].Some? ==>
         x in c && c[x] == entries[j].assigns[x].value
  }

  /** The last entry that gives `k`, or none. */
  ghost function LastGiver(c: Combo, entries: seq<Combination>, axes: set<string>, k: string): (r: Option<nat>)
    ensures r.Some? ==> Gives(c, entries, axes, r.value, k) && forall l :: r.value < l ==> !Gives(c, entries, axes, l, k)
    ensures r.None? ==> forall l :: !Gives(c, entries, axes, l, k)
  {
    if entries == [] then None
    else
      var n := |entries| - 1;
      var r := LastGiver(c, entries[..n], axes, k);
      assert forall j :: 0 <= j < n ==> (Gives(c, entries, axes, j, k) <==> Gives(c, entries[..n], axes, j, k));
      if Gives(c, entries, axes, n, k) then Some(n) else r
  }

  /** Key by key, the last fitting entry that assigns a key decides it, and otherwise the combination itself. */
  lemma {:induction false} OverlaidAt(c: Combo, entries: seq<Combination>, axes: set<string>, k: string)
    ensures var last := LastGiver(c, entries, axes, k);
            && (k in Overlaid(c, entries, axes) <==> k in c || last.Some?)
            && (k in Overlaid(c, entries, axes) ==>
                  Overlaid(c, entries, axes)[k] == if last.Some? then entries[last.value].assigns[k].value else c[k])
  {
    if entries != [] {
      var n := |entries| - 1;
      OverlaidAt(c, entries[..n], axes, k);
      if entries[n].Assigns? { GivesIff(c, entries, axes, n, k); }
    }
  }

  lemma GivesIff(c: Combo, entries: seq<Combination>, axes: set<string>, j: nat, k: string)
    requires j < |entries| && entries[j].Assigns?
    ensures var want := Given(entries[j].assigns);
            Gives(c, entries, axes, j, k) <==> FitsOnAxes(c, want, axes) && k in want
  {
    var assigns, want := entries[j].assigns, Given(entries[j].assigns);
    assert forall x :: x in want <==> x in assigns && assigns[x].Some?;
  }

  lemma {:induction false} IncludeLength(combos: seq<Combo>, entries: seq<Combination>, axes: set<string>)
    ensures |IncludeAll(combos, entries, axes)| >= |combos|
  {
    if entries != [] { IncludeLength(combos, entries[..|entries| - 1], axes); }
  }

  lemma {:induction false} IncludeInTwo(combos: seq<Combo>, a: seq<Combination>, b: seq<Combination>, axes: set<string>)
    ensures IncludeAll(combos, a + b, axes) == IncludeAll(IncludeAll(combos, a, axes), b, axes)
  {
    if b == [] {
      assert a + b == a;
    } else {
      assert (a + b)[..|a + b| - 1] == a + b[..|b| - 1];
      IncludeInTwo(combos, a, b[..|b| - 1], axes);
    }
  }

  /** From the moment a combination is there, appended ones included, no later entry changes its axis values. */
  lemma AxisValuesFixed(combos: seq<Combo>, a: seq<Combination>, b: seq<Combination>, axes: set<string>, i: nat)
    requires i < |IncludeAll(combos, a, axes)|
    ensures i < |IncludeAll(combos, a + b, axes)|
    ensures AxisPart(IncludeAll(combos, a + b, axes)[i], axes) == AxisPart(IncludeAll(combos, a, axes)[i], axes)
  {
    IncludeInTwo(combos, a, b, axes);
    IncludeEffect(IncludeAll(combos, a, axes), b, axes, i);
  }

  /** Where an entry of the result comes from: a combination, and the first include entry that could be laid over it. */
  datatype Site = Site(combo: Combo, from: nat)

  /**
   The combinations there are, and those appended, decided on axis values alone: an entry is
   appended exactly when it fits, on the axes, neither an earlier combination nor an entry
   appended before it. What was merged meanwhile plays no part.
   */
  ghost function Sites(combos: seq<Combo>, entries: seq<Combination>, axes: set<string>): (r: seq<Site>)
    ensures forall i :: 0 <= i < |r| ==> r[i].from <= |entries|
  {
    if entries == [] then FromStart(combos)
    else
      var before, e := Sites(combos, entries[..|entries| - 1], axes), entries[|entries| - 1];
      if !e.Assigns? || exists s :: s in before && FitsOnAxes(s.combo, Given(e.assigns), axes) then before
      else before + [Site(Given(e.assigns), |entries|)]
  }

  ghost function FromStart(combos: seq<Combo>): (r: seq<Site>)
    ensures |r| == |combos| && forall i :: 0 <= i < |combos| ==> r[i] == Site(combos[i], 0)
  {
    if combos == [] then [] else FromStart(combos[..|combos| - 1]) + [Site(combos[|combos| - 1], 0)]
  }

  ghost predicate GrownFrom(c: Combo, site: Site, entries: seq<Combination>, axes: set<string>)
  {
    && site.from <= |entries| && c == Overlaid(site.combo, entries[site.from..], axes)
    && AxisPart(c, axes) == AxisPart(site.combo, axes)
  }

  /** One more entry, laid over a combination that it fits. */
  lemma GrowStep(c: Combo, site: Site, before: seq<Combination>, e: Combination, axes: set<string>)
    requires GrownFrom(c, site, before, axes)
    ensures e.Assigns? ==> (FitsOnAxes(c, Given(e.assigns), axes) <==> FitsOnAxes(site.combo, Given(e.assigns), axes))
    ensures GrownFrom(if e.Assigns? then Merged(c, Given(e.assigns), axes) else c, site, before + [e], axes)
  {
    var over, all := before[site.from..], (before + [e])[site.from..];
    assert all == over + [e] && all[..|over|] == over;
    if e.Assigns? {
      FitsByAxisPart(c, site.combo, Given(e.assigns), axes);
      MergedAxisPart(c, Given(e.assigns), axes);
    }
  }

  ghost predicate AllGrown(cs: seq<Combo>, sites: seq<Site>, entries: seq<Combination>, axes: set<string>)
  {
    |cs| == |sites| && forall i :: 0 <= i < |cs| ==> GrownFrom(cs[i], sites[i], entries, axes)
  }

  /** The whole result of the include fold: every site, with the later entries that fit its axis values laid over it. */
  lemma {:induction false} IncludeMeaning(combos: seq<Combo>, entries: seq<Combination>, axes: set<string>)
    ensures AllGrown(IncludeAll(combos, entries, axes), Sites(combos, entries, axes), entries, axes)
  {
    if entries != [] {
      var before, e := entries[..|entries| - 1], entries[|entries| - 1];
      IncludeMeaning(combos, before, axes);
      assert entries == before + [e];
      IncludeMeaningStep(IncludeAll(combos, before, axes), Sites(combos, before, axes), before, e, axes);
    }
  }

  lemma IncludeMeaningStep(cs: seq<Combo>, sites: seq<Site>, before: seq<Combination>, e: Combination, axes: set<string>)
    requires AllGrown(cs, sites, before, axes)
    ensures var appends := e.Assigns? && forall s :: s in sites ==> !FitsOnAxes(s.combo, Given(e.assigns), axes);
            var sites' := if appends then sites + [Site(Given(e.assigns), |before| + 1)] else sites;
            AllGrown(IncludeOne(cs, e, axes), sites', before + [e], axes)
  {
    forall i | 0 <= i < |cs|
      ensures e.Assigns? ==> (FitsOnAxes(cs[i], Given(e.assigns), axes) <==> FitsOnAxes(sites[i].combo, Given(e.assigns), axes))
      ensures GrownFrom(if e.Assigns? then Merged(cs[i], Given(e.assigns), axes) else cs[i], sites[i], before + [e], axes)
    {
      GrowStep(cs[i], sites[i], before, e, axes);
    }
    if e.Assigns? {
      var want := Given(e.assigns);
      if i :| 0 <= i < |cs| && FitsOnAxes(cs[i], want, axes) {
        assert cs[i] in cs && sites[i] in sites;
      } else {
        assert forall i :: 0 <= i < |cs| ==> Merged(cs[i], want, axes) == cs[i];
        assert (before + [e])[|before| + 1..] == [];
        assert GrownFrom(want, Site(want, |before| + 1), before + [e], axes);
      }
    }
  }

  /**
   With no axes every entry fits the single empty combination, so a matrix of includes alone is
   one job, with all entries laid over one another.
   */
  lemma {:induction false} IncludeOnlyIsOneCombination(entries: seq<Combination>)
    ensures IncludeAll([map[]], entries, {}) == [Overlaid(map[], entries, {})]
  {
    if entries != [] {
      var before, e := entries[..|entries| - 1], entries[|entries| - 1];
      IncludeOnlyIsOneCombination(before);
      var mid := IncludeAll([map[]], before, {});
      if e.Assigns? {
        assert mid[0] in mid && FitsOnAxes(mid[0], Given(e.assigns), {});
      }
    }
  }

  // ---------- The whole expansion ----------

  /** The names of the literal rows, sorted. */
  ghost function LiteralNames(rows: map<string, Row>): set<string>
  {
    set name | name in rows && rows[name].Values?
  }

  ghost function Sorted(names: set<string>): (r: seq<string>)
    ensures Increasing(r) && Elements(r) == names
  {
    if names == {} then []
    else
      var name :| name in names;
      var rest := Sorted(names - {name});
      InsertElements(name, rest);
      InsertIncreasing(name, rest);
      Insert(name, rest)
  }

  function AxesNamed(names: seq<string>, rows: map<string, Row>): (r: seq<Axis>)
    requires forall name :: name in names ==> name in rows && rows[name].Values?
    ensures |r| == |names| && forall i :: 0 <= i < |names| ==> r[i] == Axis(names[i], rows[names[i]].values)
  {
    if names == [] then []
    else
      var k := |names| - 1;
      AxesNamed(names[..k], rows) + [Axis(names[k], rows[names[k]].values)]
  }

  ghost function AxesOf(rows: map<string, Row>): seq<Axis>
  {
    var names := Sorted(LiteralNames(rows));
    assert forall name :: name in names ==> name in Elements(names);
    AxesNamed(names, rows)
  }

  /** The entries of a section; none when it is absent. */
  function Entries(c: Option<Combinations>): seq<Combination>
  {
    if c.Some? then c.value.entries else []
  }

  ghost predicate IsDynamic(m: Syntax)
  {
    || m.isExpression
    || (exists name :: name in m.rows && m.rows[name].ExprRow?)
    || (m.excludes.Some? && m.excludes.value.hasExpression)
    || (m.includes.Some? && m.includes.value.hasExpression)
  }

  /** The expansion as a function of the syntax, with no iteration order in it. */
  ghost function Expansion(m: Syntax): Workflows.Matrix
  {
    if IsDynamic(m) then Workflows.Matrix([], true)
    else
      var axes := AxesOf(m.rows);
      Workflows.Matrix(IncludeAll(Kept(Cross(axes), Entries(m.excludes)), Entries(m.includes), Names(axes)), false)
  }

  method MatchesCombination(c: Combo, assigns: map<string, Option<string>>) returns (ok: bool)
    ensures ok <==> Fits(c, Given(assigns))
    ensures ok <==> forall k :: k in assigns && assigns[k].Some? ==> k in c && c[k] == assigns[k].value
  {
    var todo := assigns.Keys;
    while todo != {}
      invariant forall k :: k in assigns && k !in todo && assigns[k].Some? ==> k in c && c[k] == assigns[k].value
      decreases todo
    {
      var k :| k in todo;
      todo := todo - {k};
      if assigns[k].None? { continue; }
      if k !in c || c[k] != assigns[k].value {
        assert k in Given(assigns);
        return false;
      }
    }
    return true;
  }

  method MatchesAnyCombination(c: Combo, entries: seq<Combination>) returns (ok: bool)
    ensures ok <==> FitsAny(c, entries)
  {
    for i := 0 to |entries|
      invariant forall j :: 0 <= j < i && entries[j].Assigns? ==> !Fits(c, Given(entries[j].assigns))
    {
      if !entries[i].Assigns? { continue; }
      var fits := MatchesCombination(c, entries[i].assigns);
      if fits { return true; }
    }
    return false;
  }

  method ApplyExclude(combos: seq<Combo>, entries: seq<Combination>) returns (out: seq<Combo>)
    ensures out == Kept(combos, entries)
  {
    out := [];
    for i := 0 to |combos|
      invariant out == Kept(combos[..i], entries)
    {
      assert combos[..i + 1][..i] == combos[..i];
      var drop := MatchesAnyCombination(combos[i], entries);
      if drop { continue; }
      out := out + [combos[i]];
    }
    assert combos[..|combos|] == combos;
  }

  method CombinationMatchesOnAxes(c: Combo, assigns: map<string, Option<string>>, axes: set<string>) returns (ok: bool)
    ensures ok <==> FitsOnAxes(c, Given(assigns), axes)
    ensures ok <==> forall k :: k in assigns && k in axes && assigns[k].Some? ==> k in c && c[k] == assigns[k].value
  {
    var todo := assigns.Keys;
    while todo != {}
      invariant forall k :: k in assigns && k !in todo && k in axes && assigns[k].Some? ==> k in c && c[k] == assigns[k].value
      decreases todo
    {
      var k :| k in todo;
      todo := todo - {k};
      if k !in axes || assigns[k].None? { continue; }
      if k !in c || c[k] != assigns[k].value {
        assert k in Given(assigns);
        return false;
      }
    }
    return true;
  }

  /** Copying the assignments of an entry over a combination, key by key in any order. */
  method AssignAll(c: Combo, assigns: map<string, Option<string>>) returns (cp: Combo)
    ensures cp == c + Given(assigns)
    ensures forall k :: k in cp <==> k in c || (k in assigns && assigns[k].Some?)
    ensures forall k :: k in cp ==> cp[k] == if k in assigns && assigns[k].Some? then assigns[k].value else c[k]
  {
    cp := c;
    var todo := assigns.Keys;
    ghost var want := Given(assigns);
    while todo != {}
      invariant todo <= assigns.Keys
      invariant cp == c + (want - todo)
      decreases todo
    {
      var k :| k in todo;
      if assigns[k].Some? {
        cp := cp[k := assigns[k].value];
      }
      todo := todo - {k};
    }
  }

  /** One entry of applyInclude: combinations it fits are rewritten in place, else it is appended. */
  method IncludeEntry(combos: seq<Combo>, assigns: map<string, Option<string>>, axes: set<string>) returns (out: seq<Combo>)
    ensures out == IncludeOne(combos, Assigns(assigns), axes)
  {
    var merged := false;
    out := combos;
    ghost var want := Given(assigns);
    for i := 0 to |combos|
      invariant |out| == |combos|
      invariant forall j :: 0 <= j < i ==> out[j] == Merged(combos[j], want, axes)
      invariant forall j :: i <= j < |combos| ==> out[j] == combos[j]
      invariant merged <==> exists j :: 0 <= j < i && FitsOnAxes(combos[j], want, axes)
    {
      var fits := CombinationMatchesOnAxes(out[i], assigns, axes);
      if fits {
        var cp := AssignAll(out[i], assigns);
        out := out[i := cp];
        merged := true;
      }
    }
    if merged {
      assert out == MergedAll(combos, want, axes);
    } else {
      assert out == combos;
      var added := AssignAll(map[], assigns);
      assert map[] + want == want;
      out := out + [added];
    }
  }

  method ApplyInclude(combos: seq<Combo>, axes: set<string>, entries: seq<Combination>) returns (out: seq<Combo>)
    ensures out == IncludeAll(combos, entries, axes)
  {
    out := combos;
    for i := 0 to |entries|
      invariant out == IncludeAll(combos, entries[..i], axes)
    {
      assert entries[..i + 1][..i] == entries[..i];
      if !entries[i].Assigns? { continue; }
      out := IncludeEntry(out, entries[i].assigns, axes);
      assert entries[i] == Assigns(entries[i].assigns);
    }
    assert entries[..|entries|] == entries;
  }

  method CrossProduct(axes: seq<Axis>) returns (combos: seq<Combo>)
    ensures combos == Cross(axes)
  {
    combos := [map[]];
    for r := 0 to |axes|
      invariant combos == Cross(axes[..r])
    {
      var next: seq<Combo> := [];
      for b := 0 to |combos|
        invariant next == Extend(combos[..b], axes[r])
      {
        ghost var done := next;
        for v := 0 to |axes[r].values|
          invariant next == done + Spread(combos[b], axes[r].name, axes[r].values[..v])
        {
          assert axes[r].values[..v + 1][..v] == axes[r].values[..v];
          next := next + [combos[b][axes[r].name := axes[r].values[v]]];
        }
        assert axes[r].values[..|axes[r].values|] == axes[r].values;
        assert combos[..b + 1][..b] == combos[..b];
      }
      assert combos[..|combos|] == combos;
      assert axes[..r + 1][..r] == axes[..r];
      combos := next;
    }
    assert axes[..|axes|] == axes;
  }

  /** Collecting the literal rows in any order and sorting them by name; None at an expression row. */
  method CollectAxes(rows: map<string, Row>) returns (axes: Option<seq<Axis>>)
    ensures axes.None? <==> exists name :: name in rows && rows[name].ExprRow?
    ensures axes.Some? ==> axes.value == AxesOf(rows)
  {
    var todo := rows.Keys;
    var names: seq<string> := [];
    while todo != {}
      invariant todo <= rows.Keys
      invariant Elements(names) == LiteralNames(rows) - todo
      invariant forall name :: name in rows && name !in todo ==> !rows[name].ExprRow?
      decreases todo
    {
      var name :| name in todo;
      todo := todo - {name};
      if rows[name].ExprRow? { return None; }
      if rows[name].Values? {
        ElementsConcat(names, [name]);
        names := names + [name];
      }
    }
    names := SortStrings(names);
    IncreasingUnique(names, Sorted(LiteralNames(rows)));
    assert forall name :: name in names ==> name in Elements(names);
    return Some(AxesNamed(names, rows));
  }

  /** mapMatrix computes the expansion whatever order Go's maps are visited in. */
  method MapMatrix(m: Syntax) returns (r: Workflows.Matrix)
    ensures r == Expansion(m)
    ensures r.isDynamic <==>
      || m.isExpression
      || (exists name :: name in m.rows && m.rows[name].ExprRow?)
      || (m.excludes.Some? && m.excludes.value.hasExpression)
      || (m.includes.Some? && m.includes.value.hasExpression)
    ensures r.isDynamic ==> r.combos == []
  {
    if m.isExpression { return Workflows.Matrix([], true); }
    var axes := CollectAxes(m.rows);
    if axes.None? { return Workflows.Matrix([], true); }
    var combos := CrossProduct(axes.value);
    NothingExcluded(combos);
    if m.excludes.Some? {
      if m.excludes.value.hasExpression { return Workflows.Matrix([], true); }
      combos := ApplyExclude(combos, m.excludes.value.entries);
    }
    if m.includes.Some? {
      if m.includes.value.hasExpression { return Workflows.Matrix([], true); }
      var keys := set a | a in axes.value :: a.name;
      combos := ApplyInclude(combos, keys, m.includes.value.entries);
    }
    return Workflows.Matrix(combos, false);
  }

  /** The axes the expansion uses have distinct names, so the numbering results apply to them. */
  lemma AxesOfDistinct(rows: map<string, Row>)
    ensures DistinctNames(AxesOf(rows)) && Names(AxesOf(rows)) == LiteralNames(rows)
  {
    var names := Sorted(LiteralNames(rows));
    forall i, j | 0 <= i < j < |names| ensures names[i] != names[j] {
      LessTotal(names[i], names[i]);
    }
    var axes := AxesOf(rows);
    forall n ensures n in Names(axes) <==> n in Elements(names) {
      if n in Elements(names) {
        var i :| 0 <= i < |names| && names[i] == n;
        assert axes[i] in axes;
      }
    }
  }

  /** The axes are the literal rows, each with its own values, in increasing order of their names. */
  lemma AxesMeaning(rows: map<string, Row>)
    ensures forall name :: name in rows && rows[name].Values? ==> Axis(name, rows[name].values) in AxesOf(rows)
    ensures forall a :: a in AxesOf(rows) ==> a.name in rows && rows[a.name] == Values(a.values)
    ensures forall i, j :: 0 <= i < j < |AxesOf(rows)| ==> Less(AxesOf(rows)[i].name, AxesOf(rows)[j].name)
  {
    var names, axes := Sorted(LiteralNames(rows)), AxesOf(rows);
    forall name | name in rows && rows[name].Values? ensures Axis(name, rows[name].values) in axes {
      assert name in Elements(names);
      var i :| 0 <= i < |names| && names[i] == name;
      assert axes[i] in axes;
    }
    forall a | a in axes ensures a.name in rows && rows[a.name] == Values(a.values) {
      var i :| 0 <= i < |axes| && axes[i] == a;
      assert names[i] in Elements(names);
    }
  }

  lemma AxisPartWhole(c: Combo, axes: set<string>)
    requires c.Keys == axes
    ensures AxisPart(c, axes) == c
  {}

  lemma {:induction false} NothingExcluded(combos: seq<Combo>)
    ensures Kept(combos, []) == combos
  {
    if combos != [] { NothingExcluded(combos[..|combos| - 1]); }
  }

  /** The combination is the choice numbered `j` with the fitting includes laid over it. */
  ghost predicate HoldsChoice(m: Syntax, c: Combo, j: nat)
  {
    var axes := AxesOf(m.rows);
    && IsChoice(axes, Digits(axes, j))
    && c == Overlaid(Chosen(axes, Digits(axes, j)), Entries(m.includes), LiteralNames(m.rows))
    && AxisPart(c, LiteralNames(m.rows)) == Chosen(axes, Digits(axes, j))
  }

  lemma ChoiceAt(m: Syntax, c: Combo, j: nat)
    requires j < |Cross(AxesOf(m.rows))|
    requires var base, names := Cross(AxesOf(m.rows))[j], Names(AxesOf(m.rows));
             c == Overlaid(base, Entries(m.includes), names) && AxisPart(c, names) == AxisPart(base, names)
    ensures HoldsChoice(m, c, j)
  {
    var axes := AxesOf(m.rows);
    AxesOfDistinct(m.rows);
    CrossLength(axes);
    CrossIsNumbered(axes, j);
    ChosenKeys(axes, Digits(axes, j));
    AxisPartWhole(Chosen(axes, Digits(axes, j)), Names(axes));
  }

  /**
   The first entries of the expansion are, in order, the choices that no exclude fits: on the
   axes each is that very choice, and around it lie exactly the includes that fit it. Any entries
   after these were appended by includes.
   */
  lemma ExpansionEntry(m: Syntax) returns (at: seq<nat>)
    requires !IsDynamic(m)
    ensures SurvivorsAt(Cross(AxesOf(m.rows)), Entries(m.excludes), at) && |at| <= |Expansion(m).combos|
    ensures forall i :: 0 <= i < |at| ==> HoldsChoice(m, Expansion(m).combos[i], at[i])
  {
    var axes := AxesOf(m.rows);
    var all, names, cs := Cross(axes), Names(axes), Expansion(m).combos;
    at := KeptPositions(all, Entries(m.excludes));
    var kept := Kept(all, Entries(m.excludes));
    IncludeLength(kept, Entries(m.includes), names);
    forall i | 0 <= i < |at| ensures HoldsChoice(m, cs[i], at[i]) {
      IncludeEffect(kept, Entries(m.includes), names, i);
      assert kept[i] == all[at[i]];
      ChoiceAt(m, cs[i], at[i]);
    }
  }
}
