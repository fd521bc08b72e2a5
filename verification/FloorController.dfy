/**
 The floor controller: Decide (internal/scheduler/heuristic.go) and the folding, clamping and
 patching in Reconcile (internal/controller/warmrunnerpolicy_controller.go), as a step over the
 backend's floor register and the stored status.
 */
module FloorController {
  import opened Bags

  /** Go durations are 64-bit nanosecond counts, and time subtraction saturates. */
  const MAX_DURATION: int := 0x7fff_ffff_ffff_ffff
  const MIN_DURATION: int := -0x8000_0000_0000_0000

  function Sub(a: int, b: int): int
  {
    if a - b > MAX_DURATION then MAX_DURATION else if a - b < MIN_DURATION then MIN_DURATION else a - b
  }

  function Max(a: int, b: int): int { if a < b then b else a }

  function Min(a: int, b: int): int { if a < b then a else b }

  datatype Policy = Policy(min: int, max: int, cooldown: int, dryRun: bool)

  /** The stored part of the policy's status; the zero time is 0. */
  datatype Status = Status(lastDecrease: Option<int>, desired: int, applied: int)

  /** Everything one reconcile reads from outside. */
  datatype Inputs = Inputs(
    now: int,                  // the instant Decide is given
    stamp: int,                // the instant read after the decision
    sourceOk: bool,            // a demand source could be built
    demandOk: bool,            // it answered
    base: int,                 // schedule signal
    predicted: Option<int>,    // predictor signal, None on error
    activity: Option<int>,     // activity signal, None on error
    readOk: bool,              // GetFloor succeeded; its error is dropped and 0 used
    knownMax: Option<int>,     // GetMax succeeded with a value
    setOk: bool,               // SetFloor, if called, lands
    statusOk: bool)            // the status update is stored

  // ---------- What a reconcile is for, in closed form ----------

  function SignalOf(s: Option<int>): int
  {
    if s.Some? then s.value else 0
  }

  /** The strongest signal. */
  function Strongest(p: Policy, i: Inputs): int
  {
    Max(Max(i.base, p.min), Max(SignalOf(i.predicted), SignalOf(i.activity)))
  }

  /** The tighter of floor.max and the backend's own cap, when that is known. */
  function Cap(p: Policy, i: Inputs): int
  {
    if i.knownMax.Some? then Min(p.max, i.knownMax.value) else p.max
  }

  predicate InCooldown(p: Policy, now: int, lastDecrease: Option<int>)
  {
    Sub(now, if lastDecrease.Some? then lastDecrease.value else 0) < p.cooldown
  }

  /** The floor a reconcile that reads `current` aims for. */
  function Goal(p: Policy, i: Inputs, current: int, lastDecrease: Option<int>): int
  {
    Min(Cap(p, i), if InCooldown(p, i.now, lastDecrease) then Max(current, Strongest(p, i)) else Strongest(p, i))
  }

  /**
   What signals and caps call for, said of a number and not computed: it respects both caps; it
   is one of them or covers every signal, and the current floor during the cooldown; and it is
   never more than one of these asks for, a missing signal asking for 0.
   */
  predicate InBounds(f: int, p: Policy, i: Inputs, current: int, lastDecrease: Option<int>)
  {
    var held := InCooldown(p, i.now, lastDecrease);
    && f <= p.max && (i.knownMax.Some? ==> f <= i.knownMax.value)
    && (|| f == p.max
        || (i.knownMax.Some? && f == i.knownMax.value)
        || (&& i.base <= f && p.min <= f && (held ==> current <= f)
            && (if i.predicted.Some? then i.predicted.value else 0) <= f
            && (if i.activity.Some? then i.activity.value else 0) <= f))
    && (|| f <= i.base || f <= p.min || (held && f <= current)
        || f <= (if i.predicted.Some? then i.predicted.value else 0)
        || f <= (if i.activity.Some? then i.activity.value else 0))
  }

  /** Serialised times keep only multiples of `grain`. */
  function Stored(grain: int, t: int): (r: int)
    requires grain >= 1
    ensures r <= t < r + grain && r == grain * (t / grain)
  {
    t - t % grain
  }

  datatype State = State(floor: int, status: Status)

  function ReadFloor(i: Inputs, s: State): int
  {
    if i.readOk then s.floor else 0
  }

  function GoalIn(p: Policy, s: State, i: Inputs): int
  {
    Goal(p, i, ReadFloor(i, s), s.status.lastDecrease)
  }

  /** A patch, if one is due, reaches the backend. */
  predicate Lands(p: Policy, i: Inputs)
  {
    i.sourceOk && i.demandOk && !p.dryRun && i.setOk
  }

  /** The backend's floor is changed by this reconcile. */
  predicate Patches(p: Policy, s: State, i: Inputs)
  {
    Lands(p, i) && GoalIn(p, s, i) != ReadFloor(i, s)
  }

  /** A new time of last decrease is stored. */
  predicate Stamps(p: Policy, s: State, i: Inputs)
  {
    i.statusOk && Patches(p, s, i) && GoalIn(p, s, i) < ReadFloor(i, s)
  }

  function Step(p: Policy, grain: int, s: State, i: Inputs): State
    requires grain >= 1
  {
    if !i.sourceOk then s
    else
      var current, goal := ReadFloor(i, s), GoalIn(p, s, i);
      var lowered := Patches(p, s, i) && goal < current;
      State(
        if Patches(p, s, i) then goal else s.floor,
        if !i.statusOk then s.status
        else Status(
          if lowered then Some(Stored(grain, i.stamp)) else s.status.lastDecrease,
          goal,
          if Patches(p, s, i) || (i.demandOk && goal == current) then goal else current))
  }

  // ---------- The source's own sequence of assignments ----------

  method Decide(p: Policy, now: int, base: int, current: int, lastDecrease: Option<int>) returns (desired: int)
    ensures desired == var clamped := Min(p.max, Max(base, p.min));
                       if InCooldown(p, now, lastDecrease) then Max(current, clamped) else clamped
  {
    desired := base;
    if desired < p.min {
      desired := p.min;
    }
    if desired > p.max {
      desired := p.max;
    }
    if desired < current {
      if Sub(now, if lastDecrease.Some? then lastDecrease.value else 0) < p.cooldown {
        desired := current;
      }
    }
  }

  /** Folding the predictor and activity signals into the decision and clamping it. */
  method Fold(p: Policy, i: Inputs, current: int, lastDecrease: Option<int>) returns (desired: int)
    ensures desired == Goal(p, i, current, lastDecrease)
    ensures InBounds(desired, p, i, current, lastDecrease)
  {
    desired := Decide(p, i.now, i.base, current, lastDecrease);
    var predicted := if i.predicted.Some? then i.predicted.value else 0;
    if predicted > desired {
      desired := predicted;
    }
    var activity := if i.activity.Some? then i.activity.value else 0;
    if activity > desired {
      desired := activity;
    }
    if desired > p.max {
      desired := p.max;
    }
    if i.knownMax.Some? && desired > i.knownMax.value {
      desired := i.knownMax.value;
    }
  }

  class Controller {
    const grain: int
    var floor: int
    var status: Status

    ghost function Now(): State
      reads this
    {
      State(floor, status)
    }

    constructor (grain: int, s: State)
      requires grain >= 1
      ensures this.grain == grain && Now() == s
    {
      this.grain, floor, status := grain, s.floor, s.status;
    }

    /** Every reconcile is exactly the closed-form step. */
    method Reconcile(p: Policy, i: Inputs)
      requires grain >= 1
      modifies this
      ensures Now() == Step(p, grain, old(Now()), i)
    {
      if !i.sourceOk { return; }
      var current := if i.readOk then floor else 0;
      var lastDec := status.lastDecrease;
      var desired := Fold(p, i, current, lastDec);
      var setFailed, skippedByDryRun := false, false;
      if i.demandOk && desired != current {
        if p.dryRun {
          skippedByDryRun := true;
        } else {
          if i.setOk {
            floor := desired;
            if desired < current {
              lastDec := Some(Stored(grain, i.stamp));
            }
          } else {
            setFailed := true;
          }
        }
      }
      var applied := desired;
      if !i.demandOk || setFailed || skippedByDryRun {
        applied := current;
      }
      if i.statusOk {
        status := Status(lastDec, desired, applied);
      }
    }
  }

  // ---------- One step ----------

  /** The cooldown test on 64-bit durations is a plain comparison of instants; only the least duration is never in force. */
  lemma CooldownTest(p: Policy, now: int, lastDecrease: Option<int>)
    requires MIN_DURATION <= p.cooldown <= MAX_DURATION
    ensures var since := now - if lastDecrease.Some? then lastDecrease.value else 0;
            InCooldown(p, now, lastDecrease) <==> since < p.cooldown && p.cooldown > MIN_DURATION
  {}

  /** When a patch lands after a successful read, the floor is exactly what signals and caps call for. */
  lemma LandedFloor(p: Policy, grain: int, s: State, i: Inputs)
    requires grain >= 1 && i.sourceOk && i.demandOk && i.readOk && i.setOk && !p.dryRun
    ensures InBounds(Step(p, grain, s, i).floor, p, i, s.floor, s.status.lastDecrease)
  {}

  /** Without a demand source, a demand reading or a landing patch, or in a dry run, the floor stays. */
  lemma FloorUntouched(p: Policy, grain: int, s: State, i: Inputs)
    requires grain >= 1 && (!i.sourceOk || !i.demandOk || p.dryRun || !i.setOk)
    ensures Step(p, grain, s, i).floor == s.floor
    ensures !i.sourceOk || !i.statusOk ==> Step(p, grain, s, i).status == s.status
  {}

  /** What is reported as desired is what signals and caps call for, whether or not it could be applied. */
  lemma DesiredReported(p: Policy, grain: int, s: State, i: Inputs)
    requires grain >= 1 && i.sourceOk && i.statusOk
    ensures InBounds(Step(p, grain, s, i).status.desired, p, i, if i.readOk then s.floor else 0, s.status.lastDecrease)
  {}

  /** At most one number is within these bounds. */
  lemma BoundsUnique(f: int, g: int, p: Policy, i: Inputs, current: int, lastDecrease: Option<int>)
    requires InBounds(f, p, i, current, lastDecrease) && InBounds(g, p, i, current, lastDecrease)
    ensures f == g
  {}

  /** More of any signal, a higher floor or a looser cap never lowers the goal. */
  lemma GoalMonotone(p: Policy, i: Inputs, current: int, p': Policy, i': Inputs, current': int, last: Option<int>)
    requires p.min <= p'.min && p.max <= p'.max && p.cooldown == p'.cooldown
    requires i.base <= i'.base && SignalOf(i.predicted) <= SignalOf(i'.predicted) && SignalOf(i.activity) <= SignalOf(i'.activity)
    requires i'.knownMax.Some? ==> i.knownMax.Some? && i.knownMax.value <= i'.knownMax.value
    requires i.now == i'.now && current <= current'
    ensures Goal(p, i, current, last) <= Goal(p', i', current', last)
  {}

  /**
   Inside the cooldown the floor is lowered exactly when a patch lands and either the floor was
   read and stands above the cap, or it could not be read, was taken as zero, and the goal so
   found is another value below the real floor.
   */
  lemma LoweredInCooldownIff(p: Policy, grain: int, s: State, i: Inputs)
    requires grain >= 1 && InCooldown(p, i.now, s.status.lastDecrease)
    ensures Step(p, grain, s, i).floor < s.floor
       <==> Lands(p, i) && if i.readOk then s.floor > Cap(p, i)
                           else var goal := Min(Cap(p, i), Max(0, Strongest(p, i))); goal != 0 && goal < s.floor
  {}

  /** A landed decrease is stamped exactly when the status is stored and the floor was read or the goal is negative. */
  lemma StampedIff(p: Policy, grain: int, s: State, i: Inputs)
    requires grain >= 1 && Step(p, grain, s, i).floor < s.floor
    ensures Stamps(p, s, i) <==> i.statusOk && (i.readOk || GoalIn(p, s, i) < 0)
  {}

  /**
   The reported AppliedFloor is the backend's floor after every outcome, except when the floor
   could not be read, was not zero and no patch landed.
   */
  lemma AppliedIsRealIff(p: Policy, grain: int, s: State, i: Inputs)
    requires grain >= 1 && i.sourceOk && i.statusOk
    ensures Step(p, grain, s, i).status.applied == Step(p, grain, s, i).floor
       <==> i.readOk || s.floor == 0 || Patches(p, s, i)
  {}

  /** So a failed read can lower the floor inside the cooldown, unstamped. */
  lemma FailedReadBreaksCooldown()
    ensures var p := Policy(0, 10, 100, false);
            var s := State(5, Status(Some(1000), 5, 5));
            var i := Inputs(1001, 1001, true, true, 2, None, None, false, None, true, true);
            && InCooldown(p, i.now, s.status.lastDecrease) && s.floor <= Cap(p, i)
            && Step(p, 1, s, i).floor < s.floor && !Stamps(p, s, i)
  {
    var p, s := Policy(0, 10, 100, false), State(5, Status(Some(1000), 5, 5));
    var i := Inputs(1001, 1001, true, true, 2, None, None, false, None, true, true);
    LoweredInCooldownIff(p, 1, s, i);
    StampedIff(p, 1, s, i);
  }

  // ---------- Whole runs ----------

  /** A run of any length; the policy may be edited between reconciles. */
  ghost predicate IsRun(ps: seq<Policy>, grain: int, states: seq<State>, ins: seq<Inputs>)
  {
    && grain >= 1 && |ps| == |ins| && |states| == |ins| + 1
    && forall k :: 0 <= k < |ins| ==> states[k + 1] == Step(ps[k], grain, states[k], ins[k])
  }

  ghost predicate Lowers(states: seq<State>, k: int)
  {
    0 <= k < |states| - 1 && states[k + 1].floor < states[k].floor
  }

  ghost predicate StampsAt(ps: seq<Policy>, states: seq<State>, ins: seq<Inputs>, k: int)
  {
    0 <= k < |ins| && |ps| == |ins| < |states| && Stamps(ps[k], states[k], ins[k])
  }

  /** The time of last decrease held after reconcile `a`, and until another one stamps. */
  ghost function HeldAfter(ps: seq<Policy>, grain: int, states: seq<State>, ins: seq<Inputs>, a: nat): Option<int>
    requires grain >= 1 && a < |ins| < |states|
  {
    if StampsAt(ps, states, ins, a) then Some(Stored(grain, ins[a].stamp)) else states[a].status.lastDecrease
  }

  lemma {:induction false} StampKept(ps: seq<Policy>, grain: int, states: seq<State>, ins: seq<Inputs>, a: nat, n: nat)
    requires IsRun(ps, grain, states, ins)
    requires a < n < |states| && forall k :: a < k < n ==> !StampsAt(ps, states, ins, k)
    ensures states[n].status.lastDecrease == HeldAfter(ps, grain, states, ins, a)
  {
    assert states[n] == Step(ps[n - 1], grain, states[n - 1], ins[n - 1]);
    if n - 1 > a {
      StampKept(ps, grain, states, ins, a, n - 1);
      assert !StampsAt(ps, states, ins, n - 1);
    }
  }

  /**
   When a second decrease lands within the cooldown of the first, over any run, whatever reads,
   patches and writes fail in it: given that nothing between `a` and `b` stamps and that `b` is
   decided inside the cooldown counted from `a`, reconcile `b` lowers the floor exactly when its
   patch lands and
   - its read succeeds and the floor is above the cap, or
   - its read succeeds, the stamp of `a` was lost, the older one it left has run out, and the
     signals are below the floor, or
   - its read fails and the goal found from zero is another value below the real floor.
   */
  lemma LoweredAgainIff(ps: seq<Policy>, grain: int, states: seq<State>, ins: seq<Inputs>, a: nat, b: nat)
    requires IsRun(ps, grain, states, ins) && a < b < |ins|
    requires forall k :: a < k < b ==> !StampsAt(ps, states, ins, k)
    requires InCooldown(ps[b], ins[b].now, Some(Stored(grain, ins[a].stamp)))
    ensures var p, i, floor := ps[b], ins[b], states[b].floor;
            var lost := !StampsAt(ps, states, ins, a) && !InCooldown(p, i.now, states[a].status.lastDecrease);
            Lowers(states, b) <==>
              && Lands(p, i)
              && (i.readOk ==> floor > Cap(p, i) || (lost && Strongest(p, i) < floor))
              && (!i.readOk ==>
                    var goal := Min(Cap(p, i), if lost then Strongest(p, i) else Max(0, Strongest(p, i)));
                    goal != 0 && goal < floor)
  {
    StampKept(ps, grain, states, ins, a, b);
    assert states[b + 1] == Step(ps[b], grain, states[b], ins[b]);
  }

  /** Every floor read from `a` to `b` succeeds. */
  ghost predicate ReadsOk(ins: seq<Inputs>, a: int, b: int)
  {
    forall k :: a <= k <= b && 0 <= k < |ins| ==> ins[k].readOk
  }

  /** With successful reads only decreases stamp, and one stamps exactly when its status is stored. */
  lemma StampsAreDecreases(ps: seq<Policy>, grain: int, states: seq<State>, ins: seq<Inputs>, k: nat)
    requires IsRun(ps, grain, states, ins) && k < |ins| && ins[k].readOk
    ensures StampsAt(ps, states, ins, k) <==> Lowers(states, k) && ins[k].statusOk
  {
    assert states[k + 1] == Step(ps[k], grain, states[k], ins[k]);
  }

  /** `b` is the next landed decrease after `a`. */
  ghost predicate NextDecrease(states: seq<State>, a: int, b: int)
  {
    a < b && Lowers(states, a) && Lowers(states, b) && forall k :: a < k < b ==> !Lowers(states, k)
  }

  /**
   Cooldown safety over a whole run, with policies and caps that may change and failures anywhere
   but in the reads from `a` to `b`: a landed decrease is decided at least one cooldown, less the
   precision of stored times, after the stamp of the decrease before it; or else the floor stood
   above the cap of that moment; or the earlier status was lost and the stamp before it had run
   out. With exact stored times (`grain` 1) that is one whole cooldown. The bound on the cooldown
   leaves out only the least 64-bit duration.
   */
  lemma CooldownSafety(ps: seq<Policy>, grain: int, states: seq<State>, ins: seq<Inputs>, a: nat, b: nat)
    requires IsRun(ps, grain, states, ins) && NextDecrease(states, a, b) && ReadsOk(ins, a, b)
    requires ps[b].cooldown > MIN_DURATION
    ensures || ins[b].now - ins[a].stamp > ps[b].cooldown - grain
            || states[b].floor > Cap(ps[b], ins[b])
            || (!ins[a].statusOk && !InCooldown(ps[b], ins[b].now, states[a].status.lastDecrease))
  {
    forall k | a <= k < b ensures StampsAt(ps, states, ins, k) <==> k == a && ins[a].statusOk {
      StampsAreDecreases(ps, grain, states, ins, k);
      assert a < k ==> !Lowers(states, k);
    }
    if InCooldown(ps[b], ins[b].now, Some(Stored(grain, ins[a].stamp))) {
      LoweredAgainIff(ps, grain, states, ins, a, b);
    }
  }

  ghost predicate FixedCap(ps: seq<Policy>, ins: seq<Inputs>, cap: int)
  {
    |ps| == |ins| && forall k :: 0 <= k < |ins| ==> Cap(ps[k], ins[k]) == cap
  }

  lemma {:induction false} NeverAboveCap(ps: seq<Policy>, grain: int, states: seq<State>, ins: seq<Inputs>, cap: int, n: nat)
    requires IsRun(ps, grain, states, ins) && FixedCap(ps, ins, cap)
    requires states[0].floor <= cap && n < |states|
    ensures states[n].floor <= cap
  {
    if n > 0 {
      NeverAboveCap(ps, grain, states, ins, cap, n - 1);
      assert states[n] == Step(ps[n - 1], grain, states[n - 1], ins[n - 1]);
    }
  }

  /** Under a fixed cap and a start at or below it, no two landed decreases come within a cooldown. */
  lemma FixedCapSafety(ps: seq<Policy>, grain: int, states: seq<State>, ins: seq<Inputs>, cap: int, a: nat, b: nat)
    requires IsRun(ps, grain, states, ins) && FixedCap(ps, ins, cap) && states[0].floor <= cap
    requires NextDecrease(states, a, b) && ReadsOk(ins, a, b) && ins[a].statusOk
    requires ps[b].cooldown > MIN_DURATION
    ensures ins[b].now - ins[a].stamp > ps[b].cooldown - grain
    ensures grain == 1 ==> ins[b].now - ins[a].stamp >= ps[b].cooldown
  {
    CooldownSafety(ps, grain, states, ins, a, b);
    NeverAboveCap(ps, grain, states, ins, cap, b);
  }

  /** A lost status write does let two decreases land within one cooldown. */
  lemma LostStampBreaksCooldown() returns (ps: seq<Policy>, states: seq<State>, ins: seq<Inputs>)
    ensures IsRun(ps, 1, states, ins) && NextDecrease(states, 0, 1) && ReadsOk(ins, 0, 1)
    ensures |ins| == 2 && !ins[0].statusOk && FixedCap(ps, ins, 10) && states[0].floor <= 10
    ensures ins[1].now - ins[0].stamp < ps[1].cooldown
  {
    var p := Policy(0, 10, 100, false);
    var i0 := Inputs(1000, 1000, true, true, 5, None, None, true, None, true, false);
    var i1 := Inputs(1001, 1001, true, true, 2, None, None, true, None, true, true);
    var s0 := State(9, Status(None, 9, 9));
    var s1, s2 := State(5, s0.status), State(2, Status(Some(1001), 2, 2));
    assert Step(p, 1, s0, i0) == s1 && Step(p, 1, s1, i1) == s2;
    ps, ins, states := [p, p], [i0, i1], [s0, s1, s2];
  }

  // ---------- Convergence ----------

  /** Nothing fails or is a dry run, and the strongest signal and the cap do not change. */
  ghost predicate Constant(ps: seq<Policy>, ins: seq<Inputs>, strongest: int, cap: int)
  {
    |ps| == |ins| && forall k :: 0 <= k < |ins| ==>
      && ins[k].sourceOk && ins[k].demandOk && ins[k].readOk && ins[k].setOk && ins[k].statusOk && !ps[k].dryRun
      && Strongest(ps[k], ins[k]) == strongest && Cap(ps[k], ins[k]) == cap
  }

  /** From the first reconcile outside the cooldown on, the floor is at its target and nothing is patched again. */
  lemma {:induction false} Converges(ps: seq<Policy>, grain: int, states: seq<State>, ins: seq<Inputs>, strongest: int, cap: int, k: nat, n: nat)
    requires IsRun(ps, grain, states, ins) && Constant(ps, ins, strongest, cap)
    requires k < n < |states| && !InCooldown(ps[k], ins[k].now, states[k].status.lastDecrease)
    ensures states[n].floor == Min(cap, strongest)
    ensures n < |ins| ==> !Patches(ps[n], states[n], ins[n])
  {
    assert states[n] == Step(ps[n - 1], grain, states[n - 1], ins[n - 1]);
    if n - 1 > k {
      Converges(ps, grain, states, ins, strongest, cap, k, n - 1);
    }
  }

  /** Until then a floor between target and cap is simply held. */
  lemma {:induction false} HeldInCooldown(ps: seq<Policy>, grain: int, states: seq<State>, ins: seq<Inputs>, strongest: int, cap: int, n: nat)
    requires IsRun(ps, grain, states, ins) && Constant(ps, ins, strongest, cap)
    requires n < |states| && Min(cap, strongest) <= states[0].floor <= cap
    requires forall k :: 0 <= k < n ==> InCooldown(ps[k], ins[k].now, states[k].status.lastDecrease)
    ensures states[n].floor == states[0].floor
  {
    if n > 0 {
      HeldInCooldown(ps, grain, states, ins, strongest, cap, n - 1);
      assert states[n] == Step(ps[n - 1], grain, states[n - 1], ins[n - 1]);
    }
  }
}
