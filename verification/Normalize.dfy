// In-place normalization of a service's points to a target per second.  Points
// and rates are exact reals.
module Normalize {
  import opened Durations
  import opened Wrappers
  import opened Settings

  const TARGET_POINTS_PER_SECOND: real := 1000.0

  // ---- Normalizing plain numbers ----

  function Dot(values: seq<real>, weights: seq<real>): real
    requires |values| == |weights|
  {
    if values == [] then 0.0
    else
      var n := |values| - 1;
      Dot(values[..n], weights[..n]) + Times(values[n], weights[n])
  }

  function Coefficient(sum: real, target: real): real {
    if sum != 0.0 then target / sum else 0.0
  }

  function Times(a: real, b: real): real { a * b }

  function ScaleBy(values: seq<real>, k: real): (r: seq<real>)
    ensures |r| == |values| && forall i | 0 <= i < |r| :: r[i] == Times(values[i], k)
  {
    seq(|values|, i requires 0 <= i < |values| => Times(values[i], k))
  }

  // One normalization: everything times the coefficient, rated or not.
  function Normalized(values: seq<real>, weights: seq<real>, target: real): (r: seq<real>)
    requires |values| == |weights|
    ensures |r| == |values|
  {
    ScaleBy(values, Coefficient(Dot(values, weights), target))
  }

  lemma Associate(v: real, k: real, w: real)
    ensures Times(Times(v, k), w) == Times(Times(v, w), k)
  {
  }

  lemma Commute(a: real, b: real)
    ensures Times(a, b) == Times(b, a)
  {
  }

  lemma Distribute(a: real, b: real, k: real)
    ensures Times(a + b, k) == Times(a, k) + Times(b, k)
  {
  }

  lemma {:induction false} DotScales(values: seq<real>, weights: seq<real>, k: real)
    requires |values| == |weights|
    ensures Dot(ScaleBy(values, k), weights) == Times(Dot(values, weights), k)
  {
    if values != [] {
      var n := |values| - 1;
      var scaled := ScaleBy(values, k);
      DotScales(values[..n], weights[..n], k);
      SameScale(values, k, n);
      Associate(values[n], k, weights[n]);
      Distribute(Dot(values[..n], weights[..n]), Times(values[n], weights[n]), k);
    }
  }

  lemma SameScale(values: seq<real>, k: real, n: nat)
    requires n <= |values|
    ensures ScaleBy(values, k)[..n] == ScaleBy(values[..n], k)
  {
    var a, b := ScaleBy(values, k)[..n], ScaleBy(values[..n], k);
    forall i | 0 <= i < n ensures a[i] == b[i] {
      assert values[..n][i] == values[i];
    }
  }

  lemma CoefficientCancels(sum: real, target: real)
    ensures Times(sum, Coefficient(sum, target)) == if sum != 0.0 then target else 0.0
  {
  }

  // A nonzero rated sum becomes the target.
  lemma SumBecomesTarget(values: seq<real>, weights: seq<real>, target: real)
    requires |values| == |weights|
    ensures Dot(Normalized(values, weights, target), weights) ==
            if Dot(values, weights) != 0.0 then target else 0.0
  {
    var sum := Dot(values, weights);
    DotScales(values, weights, Coefficient(sum, target));
    CoefficientCancels(sum, target);
  }

  // The ratio between any two checkers is kept.
  lemma RatiosKept(values: seq<real>, weights: seq<real>, target: real, i: nat, j: nat)
    requires |values| == |weights| && i < |values| && j < |values|
    ensures var after := Normalized(values, weights, target);
            Times(after[i], values[j]) == Times(after[j], values[i])
  {
    var k := Coefficient(Dot(values, weights), target);
    Associate(values[i], k, values[j]);
    Associate(values[j], k, values[i]);
    Commute(values[i], values[j]);
  }

  // What a coefficient does to a value that was scaled already.
  lemma SecondCoefficient(v: real, sum: real, target: real)
    ensures var k := Coefficient(sum, target);
            Times(Times(v, k), Coefficient(if sum != 0.0 then target else 0.0, target)) == Times(v, k)
  {
    var k := Coefficient(sum, target);
    if sum != 0.0 && target != 0.0 {
      assert target / target == 1.0;
    } else {
      assert k == 0.0;
    }
  }

  // Normalizing again changes nothing.
  lemma NormalizeTwice(values: seq<real>, weights: seq<real>, target: real)
    requires |values| == |weights|
    ensures var once := Normalized(values, weights, target);
            Normalized(once, weights, target) == once
  {
    var once := Normalized(values, weights, target);
    SumBecomesTarget(values, weights, target);
    var twice := Normalized(once, weights, target);
    forall i | 0 <= i < |once| ensures twice[i] == once[i] {
      SecondCoefficient(values[i], Dot(values, weights), target);
    }
  }

  function NormalizedTimes(values: seq<real>, weights: seq<real>, target: real, n: nat): (r: seq<real>)
    requires |values| == |weights|
    ensures |r| == |values|
  {
    if n == 0 then values else Normalized(NormalizedTimes(values, weights, target, n - 1), weights, target)
  }

  // Any number of syncs of one cached message leaves the scores of the first.
  lemma {:induction false} ManySyncsAreOne(values: seq<real>, weights: seq<real>, target: real, n: nat)
    requires |values| == |weights| && n > 0
    ensures NormalizedTimes(values, weights, target, n) == Normalized(values, weights, target)
  {
    if n > 1 {
      ManySyncsAreOne(values, weights, target, n - 1);
      NormalizeTwice(values, weights, target);
    } else {
      assert NormalizedTimes(values, weights, target, 0) == values;
    }
  }

  // The comment promises that a zero sum leaves the points alone.  It does so
  // exactly when all of them are zero already.
  lemma ZeroSumLeavesAloneIff(values: seq<real>, weights: seq<real>, target: real)
    requires |values| == |weights| && Dot(values, weights) == 0.0
    ensures Normalized(values, weights, target) == values <==> forall i | 0 <= i < |values| :: values[i] == 0.0
  {
    var after := Normalized(values, weights, target);
    assert forall i | 0 <= i < |values| :: after[i] == 0.0;
    if after == values {
      forall i | 0 <= i < |values| ensures values[i] == 0.0 { assert after[i] == values[i]; }
    }
  }

  // A paused checker alone in its service loses its points, as long as the same
  // message is synced.
  lemma PausedCheckerLosesPoints()
    ensures Dot([5.0], [0.0]) == 0.0 && Normalized([5.0], [0.0], TARGET_POINTS_PER_SECOND) == [0.0]
  {
    assert [5.0][..0] == [] && [0.0][..0] == [];
    assert Dot([5.0], [0.0]) == Dot([5.0][..0], [0.0][..0]) + Times(5.0, 0.0);
  }

  // ---- The settings objects ----

  predicate Rated(c: Option<CheckerSettings>) {
    && c.Some? && c.value.runOptions.Some? && c.value.runOptions.value.rate.Some?
    && c.value.runOptions.value.rate.value.per.Some?
  }

  // Runs per second; an entry without a full rate weighs nothing.
  function Weight(c: Option<CheckerSettings>): real {
    if Rated(c) && HasRate(c.value) then
      var rate := c.value.runOptions.value.rate.value;
      rate.times as real / (rate.per.value as real / SECOND as real)
    else 0.0
  }

  // No stored period is zero, so the division is defined.
  ghost predicate Divisible(checkers: seq<Option<CheckerSettings>>) {
    forall j | 0 <= j < |checkers| && Rated(checkers[j]) :: HasRate(checkers[j].value)
  }

  ghost predicate NoneTwice(checkers: seq<Option<CheckerSettings>>) {
    forall i, j | 0 <= i < j < |checkers| && checkers[i].Some? && checkers[j].Some? ::
      checkers[i].value != checkers[j].value
  }

  ghost function Weights(checkers: seq<Option<CheckerSettings>>): (r: seq<real>)
    ensures |r| == |checkers| && forall j | 0 <= j < |r| :: r[j] == Weight(checkers[j])
  {
    seq(|checkers|, j requires 0 <= j < |checkers| => Weight(checkers[j]))
  }

  ghost function Objects(checkers: seq<Option<CheckerSettings>>): set<CheckerSettings> {
    set j | 0 <= j < |checkers| && checkers[j].Some? :: checkers[j].value
  }

  ghost function PointsOf(c: Option<CheckerSettings>): real
    reads if c.Some? then {c.value} else {}
  {
    if c.Some? then c.value.successPoints else 0.0
  }

  ghost function PenaltyOf(c: Option<CheckerSettings>): real
    reads if c.Some? then {c.value} else {}
  {
    if c.Some? then c.value.failPenalty else 0.0
  }

  ghost function Points(checkers: seq<Option<CheckerSettings>>): (r: seq<real>)
    reads Objects(checkers)
    ensures |r| == |checkers| && forall j | 0 <= j < |r| :: r[j] == PointsOf(checkers[j])
  {
    if checkers == [] then []
    else
      var n := |checkers| - 1;
      assert Objects(checkers[..n]) <= Objects(checkers);
      Points(checkers[..n]) + [PointsOf(checkers[n])]
  }

  ghost function Penalties(checkers: seq<Option<CheckerSettings>>): (r: seq<real>)
    reads Objects(checkers)
    ensures |r| == |checkers| && forall j | 0 <= j < |r| :: r[j] == PenaltyOf(checkers[j])
  {
    if checkers == [] then []
    else
      var n := |checkers| - 1;
      assert Objects(checkers[..n]) <= Objects(checkers);
      Penalties(checkers[..n]) + [PenaltyOf(checkers[n])]
  }

  lemma EmptyDot(points: seq<real>, penalties: seq<real>, weights: seq<real>)
    ensures Dot(points[..0], weights[..0]) == 0.0 == Dot(penalties[..0], weights[..0])
  {
  }

  lemma DotLast(values: seq<real>, weights: seq<real>, j: nat)
    requires j < |values| == |weights|
    ensures Dot(values[..j + 1], weights[..j + 1]) == Dot(values[..j], weights[..j]) + Times(values[j], weights[j])
  {
    assert values[..j + 1][..j] == values[..j] && weights[..j + 1][..j] == weights[..j];
  }

  lemma TimesZero(v: real)
    ensures Times(v, 0.0) == 0.0 == Times(0.0, v)
  {
  }

  // What an entry adds to the sums: one without a full rate adds nothing.
  lemma EntryWorth(c: Option<CheckerSettings>)
    requires Rated(c) ==> HasRate(c.value)
    ensures Times(PointsOf(c), Weight(c)) == if Rated(c) then Times(c.value.successPoints, Weight(c)) else 0.0
    ensures Times(PenaltyOf(c), Weight(c)) == if Rated(c) then Times(c.value.failPenalty, Weight(c)) else 0.0
  {
    hide Times;
    TimesZero(PointsOf(c));
    TimesZero(PenaltyOf(c));
  }

  // The same values and weights as the checkers hold, up to entry j and one more.
  lemma SumsLast(points: seq<real>, penalties: seq<real>, weights: seq<real>, c: Option<CheckerSettings>, j: nat)
    requires j < |points| == |penalties| == |weights|
    requires points[j] == PointsOf(c) && penalties[j] == PenaltyOf(c) && weights[j] == Weight(c)
    requires Rated(c) ==> HasRate(c.value)
    ensures Dot(points[..j + 1], weights[..j + 1]) ==
            Dot(points[..j], weights[..j]) + if Rated(c) then Times(c.value.successPoints, Weight(c)) else 0.0
    ensures Dot(penalties[..j + 1], weights[..j + 1]) ==
            Dot(penalties[..j], weights[..j]) + if Rated(c) then Times(c.value.failPenalty, Weight(c)) else 0.0
  {
    hide Times, Weight, PointsOf, PenaltyOf;
    EntryWorth(c);
    DotLast(points, weights, j);
    DotLast(penalties, weights, j);
  }

  method SumEntries(checkers: seq<Option<CheckerSettings>>, ghost points: seq<real>, ghost penalties: seq<real>,
                    ghost weights: seq<real>)
    returns (pointsSum: real, penaltySum: real)
    requires Divisible(checkers) && |points| == |penalties| == |weights| == |checkers|
    requires forall j | 0 <= j < |checkers| ::
               points[j] == PointsOf(checkers[j]) && penalties[j] == PenaltyOf(checkers[j])
               && weights[j] == Weight(checkers[j])
    ensures pointsSum == Dot(points, weights) && penaltySum == Dot(penalties, weights)
  {
    hide Times, Weight, PointsOf, PenaltyOf, HasRate;
    EmptyDot(points, penalties, weights);
    pointsSum, penaltySum := 0.0, 0.0;
    for j := 0 to |checkers|
      invariant pointsSum == Dot(points[..j], weights[..j])
      invariant penaltySum == Dot(penalties[..j], weights[..j])
    {
      SumsLast(points, penalties, weights, checkers[j], j);
      if Rated(checkers[j]) {
        var perSecond := Weight(checkers[j]);
        pointsSum := pointsSum + Times(checkers[j].value.successPoints, perSecond);
        penaltySum := penaltySum + Times(checkers[j].value.failPenalty, perSecond);
      }
    }
    assert points[..|checkers|] == points && penalties[..|checkers|] == penalties;
    assert weights[..|checkers|] == weights;
  }

  method Sums(checkers: seq<Option<CheckerSettings>>) returns (pointsSum: real, penaltySum: real)
    requires Divisible(checkers)
    ensures pointsSum == Dot(Points(checkers), Weights(checkers))
    ensures penaltySum == Dot(Penalties(checkers), Weights(checkers))
  {
    hide Times, Weight, HasRate;
    ghost var points, penalties, weights := Points(checkers), Penalties(checkers), Weights(checkers);
    pointsSum, penaltySum := SumEntries(checkers, points, penalties, weights);
    assert points == Points(checkers) && penalties == Penalties(checkers) && weights == Weights(checkers);
  }

  method Multiply(checkers: seq<Option<CheckerSettings>>, pointsCoefficient: real, penaltyCoefficient: real)
    requires NoneTwice(checkers)
    modifies Objects(checkers)
    ensures Points(checkers) == ScaleBy(old(Points(checkers)), pointsCoefficient)
    ensures Penalties(checkers) == ScaleBy(old(Penalties(checkers)), penaltyCoefficient)
  {
    hide Times;
    TimesZero(pointsCoefficient);
    TimesZero(penaltyCoefficient);
    ghost var points, penalties := Points(checkers), Penalties(checkers);
    for j := 0 to |checkers|
      invariant forall k | 0 <= k < j :: PointsOf(checkers[k]) == Times(points[k], pointsCoefficient)
      invariant forall k | 0 <= k < j :: PenaltyOf(checkers[k]) == Times(penalties[k], penaltyCoefficient)
      invariant forall k | j <= k < |checkers| :: PointsOf(checkers[k]) == points[k]
      invariant forall k | j <= k < |checkers| :: PenaltyOf(checkers[k]) == penalties[k]
    {
      if checkers[j].Some? {
        var c := checkers[j].value;
        assert PointsOf(checkers[j]) == points[j] && PenaltyOf(checkers[j]) == penalties[j];
        c.successPoints := Times(c.successPoints, pointsCoefficient);
        c.failPenalty := Times(c.failPenalty, penaltyCoefficient);
      }
    }
  }

  method NormalizePointsInService(svc: Option<ServiceSettings>, targetSum: real)
    requires svc.Some? ==> Divisible(svc.value.checkers) && NoneTwice(svc.value.checkers)
    modifies if svc.Some? then Objects(svc.value.checkers) else {}
    ensures svc.Some? ==>
              var checkers := svc.value.checkers;
              && Points(checkers) == Normalized(old(Points(checkers)), Weights(checkers), targetSum)
              && Penalties(checkers) == Normalized(old(Penalties(checkers)), Weights(checkers), targetSum)
  {
    if svc.None? { return; }
    var pointsSum, penaltySum := Sums(svc.value.checkers);
    var pointsCoefficient := 0.0;
    if pointsSum != 0.0 { pointsCoefficient := targetSum / pointsSum; }
    var penaltyCoefficient := 0.0;
    if penaltySum != 0.0 { penaltyCoefficient := targetSum / penaltySum; }
    Multiply(svc.value.checkers, pointsCoefficient, penaltyCoefficient);
  }

  // ---- All services ----

  // Validation rules out the division by zero and the repeated entry.
  lemma WellFormedIsDivisible(checkers: seq<Option<CheckerSettings>>)
    requires CheckersWellFormed(checkers)
    ensures Divisible(checkers) && NoneTwice(checkers)
  {
    forall i, j | 0 <= i < j < |checkers| ensures checkers[i].value != checkers[j].value {
      assert CheckerName(checkers[i].value) != CheckerName(checkers[j].value);
    }
  }

  // No checker object sits in two services, as in any decoded message.
  ghost predicate Separate(services: seq<Option<ServiceSettings>>) {
    forall i, j | 0 <= i < j < |services| && services[i].Some? && services[j].Some? ::
      Objects(services[i].value.checkers) !! Objects(services[j].value.checkers)
  }

  ghost function AllObjects(services: seq<Option<ServiceSettings>>): set<CheckerSettings> {
    set i, o | 0 <= i < |services| && services[i].Some? && o in Objects(services[i].value.checkers) :: o
  }

  // The points and penalties a list of checkers holds.
  datatype Held = Held(points: seq<real>, penalties: seq<real>) {
    ghost function Normal(weights: seq<real>): Held {
      if |points| == |weights| == |penalties| then
        Held(Normalized(points, weights, TARGET_POINTS_PER_SECOND),
             Normalized(penalties, weights, TARGET_POINTS_PER_SECOND))
      else this
    }
  }

  ghost function HeldBy(svc: ServiceSettings): Held
    reads Objects(svc.checkers)
  {
    Held(Points(svc.checkers), Penalties(svc.checkers))
  }

  // A second sync of the same message changes nothing.
  lemma NormalIsIdempotent(h: Held, weights: seq<real>)
    requires |h.points| == |weights| == |h.penalties|
    ensures h.Normal(weights).Normal(weights) == h.Normal(weights)
  {
    NormalizeTwice(h.points, weights, TARGET_POINTS_PER_SECOND);
    NormalizeTwice(h.penalties, weights, TARGET_POINTS_PER_SECOND);
  }

  // The service's checkers hold the normalized values of what they held.
  twostate predicate NormalizedSince(svc: ServiceSettings)
    reads Objects(svc.checkers)
  {
    HeldBy(svc) == old(HeldBy(svc)).Normal(Weights(svc.checkers))
  }

  // The runs per second an entry asks for, from its own fields.
  ghost function RunsPerSecond(c: CheckerSettings): real {
    if c.runOptions.Some? && c.runOptions.value.rate.Some? && c.runOptions.value.rate.value.per.Some?
       && c.runOptions.value.rate.value.per.value != 0 then
      c.runOptions.value.rate.value.times as real * 1_000_000_000.0 / c.runOptions.value.rate.value.per.value as real
    else 0.0
  }

  // What an entry is worth every second at this amount a run.
  ghost function EverySecond(amount: real, c: CheckerSettings): real {
    amount * RunsPerSecond(c)
  }

  // The points and the penalties a list of checkers is worth every second.
  ghost function PointsPerSecond(checkers: seq<Option<CheckerSettings>>): real
    reads Objects(checkers)
  {
    if checkers == [] then 0.0
    else
      var front, last := checkers[..|checkers| - 1], checkers[|checkers| - 1];
      assert Objects(front) <= Objects(checkers);
      PointsPerSecond(front) + if last.Some? then EverySecond(last.value.successPoints, last.value) else 0.0
  }

  ghost function PenaltyPerSecond(checkers: seq<Option<CheckerSettings>>): real
    reads Objects(checkers)
  {
    if checkers == [] then 0.0
    else
      var front, last := checkers[..|checkers| - 1], checkers[|checkers| - 1];
      assert Objects(front) <= Objects(checkers);
      PenaltyPerSecond(front) + if last.Some? then EverySecond(last.value.failPenalty, last.value) else 0.0
  }

  lemma EntryPerSecond(amount: real, c: Option<CheckerSettings>)
    requires c.None? ==> amount == 0.0
    ensures Times(amount, Weight(c)) == if c.Some? then EverySecond(amount, c.value) else 0.0
  {
  }

  // The weighted sum of amounts, entry by entry.
  lemma DotEntry(amounts: seq<real>, checkers: seq<Option<CheckerSettings>>)
    requires |amounts| == |checkers| > 0
    requires var n := |checkers| - 1; checkers[n].None? ==> amounts[n] == 0.0
    ensures var n := |checkers| - 1;
            Dot(amounts, Weights(checkers)) ==
            Dot(amounts[..n], Weights(checkers[..n])) +
              if checkers[n].Some? then EverySecond(amounts[n], checkers[n].value) else 0.0
  {
    hide Times, Weight, EverySecond;
    var n := |checkers| - 1;
    EntryPerSecond(amounts[n], checkers[n]);
    assert Weights(checkers)[..n] == Weights(checkers[..n]);
  }

  lemma {:induction false} PerSecondIsDot(checkers: seq<Option<CheckerSettings>>)
    ensures PointsPerSecond(checkers) == Dot(Points(checkers), Weights(checkers))
    ensures PenaltyPerSecond(checkers) == Dot(Penalties(checkers), Weights(checkers))
  {
    hide Times, Weight, EverySecond;
    if checkers != [] {
      var n := |checkers| - 1;
      PerSecondIsDot(checkers[..n]);
      DotEntry(Points(checkers), checkers);
      DotEntry(Penalties(checkers), checkers);
      assert Points(checkers)[..n] == Points(checkers[..n]) && Penalties(checkers)[..n] == Penalties(checkers[..n]);
    }
  }

  // The same of the state before.
  twostate lemma {:induction false} WasPerSecond(checkers: seq<Option<CheckerSettings>>)
    ensures old(PointsPerSecond(checkers)) == Dot(old(Points(checkers)), Weights(checkers))
    ensures old(PenaltyPerSecond(checkers)) == Dot(old(Penalties(checkers)), Weights(checkers))
  {
    hide Times, Weight, EverySecond;
    if checkers != [] {
      var n := |checkers| - 1;
      WasPerSecond(checkers[..n]);
      DotEntry(old(Points(checkers)), checkers);
      DotEntry(old(Penalties(checkers)), checkers);
      assert old(Points(checkers))[..n] == old(Points(checkers[..n]));
      assert old(Penalties(checkers))[..n] == old(Penalties(checkers[..n]));
    }
  }

  // A service worth anything every second is worth a thousand afterwards.
  twostate predicate AtTarget(svc: ServiceSettings)
    reads Objects(svc.checkers)
  {
    && PointsPerSecond(svc.checkers) == (if old(PointsPerSecond(svc.checkers)) != 0.0 then 1000.0 else 0.0)
    && PenaltyPerSecond(svc.checkers) == (if old(PenaltyPerSecond(svc.checkers)) != 0.0 then 1000.0 else 0.0)
  }

  twostate lemma NormalizedIsAtTarget(svc: ServiceSettings)
    requires NormalizedSince(svc)
    ensures AtTarget(svc)
  {
    PerSecondIsDot(svc.checkers);
    WasPerSecond(svc.checkers);
    SumBecomesTarget(old(Points(svc.checkers)), Weights(svc.checkers), TARGET_POINTS_PER_SECOND);
    SumBecomesTarget(old(Penalties(svc.checkers)), Weights(svc.checkers), TARGET_POINTS_PER_SECOND);
  }

  twostate predicate AllAtTarget(services: seq<Option<ServiceSettings>>)
    reads AllObjects(services)
  {
    forall i | 0 <= i < |services| && services[i].Some? :: AtTarget(services[i].value)
  }

  twostate lemma AllNormalizedIsAtTarget(services: seq<Option<ServiceSettings>>)
    requires AllNormalized(services)
    ensures AllAtTarget(services)
  {
    forall i | 0 <= i < |services| && services[i].Some? ensures AtTarget(services[i].value) {
      NormalizedIsAtTarget(services[i].value);
    }
  }

  twostate predicate AllNormalized(services: seq<Option<ServiceSettings>>)
    reads AllObjects(services)
  {
    forall i | 0 <= i < |services| && services[i].Some? :: NormalizedSince(services[i].value)
  }

  ghost predicate TableSeparate(m: map<string, ServiceSettings>) {
    forall a, b | a in m && b in m && a != b :: Objects(m[a].checkers) !! Objects(m[b].checkers)
  }

  lemma TableIsSeparate(services: seq<Option<ServiceSettings>>, m: map<string, ServiceSettings>)
    requires WellFormed(services) && Separate(services) && m == ByName(services, ServiceName)
    ensures TableSeparate(m)
    ensures forall a | a in m :: CheckersWellFormed(m[a].checkers) && Objects(m[a].checkers) <= AllObjects(services)
    ensures forall i | 0 <= i < |services| ::
              services[i].value.name in m && m[services[i].value.name] == services[i].value
  {
    ByNameIsInverse(services, ServiceName);
    forall a, b | a in m && b in m && a != b ensures Objects(m[a].checkers) !! Objects(m[b].checkers) {
      ByNameFinds(services, ServiceName, a);
      ByNameFinds(services, ServiceName, b);
      var i :| 0 <= i < |services| && services[i] == Some(m[a]);
      var j :| 0 <= j < |services| && services[j] == Some(m[b]);
      assert i != j;
    }
    forall a | a in m ensures CheckersWellFormed(m[a].checkers) && Objects(m[a].checkers) <= AllObjects(services) {
      ByNameFinds(services, ServiceName, a);
    }
    forall i | 0 <= i < |services|
      ensures services[i].value.name in m && m[services[i].value.name] == services[i].value
    {
      assert ServiceName(services[i].value) in m;
    }
  }

  // Every service of a validated message is normalized exactly once, in whatever
  // order the table is walked.
  method NormalizePoints(settings: Option<Settings>)
    requires WellFormed(GetServices(settings)) && Separate(GetServices(settings))
    modifies AllObjects(GetServices(settings))
    ensures AllNormalized(GetServices(settings)) && AllAtTarget(GetServices(settings))
  {
    hide AtTarget, Weights, HeldBy, Held.Normal, CheckersWellFormed, Separate, ProperlyNamed, TableSeparate, ByName;
    if settings.None? { return; }
    var services := GetServices(settings);
    var table := ServiceMap(settings);
    TableIsSeparate(services, table);
    NormalizeTable(table);
    forall i | 0 <= i < |services| ensures NormalizedSince(services[i].value) {
      assert services[i].value.name in table;
    }
    AllNormalizedIsAtTarget(services);
  }

  ghost function TableObjects(m: map<string, ServiceSettings>): set<CheckerSettings> {
    set a, o | a in m && o in Objects(m[a].checkers) :: o
  }

  method NormalizeTable(table: map<string, ServiceSettings>)
    requires TableSeparate(table) && forall a | a in table :: CheckersWellFormed(table[a].checkers)
    modifies TableObjects(table)
    ensures forall a | a in table :: NormalizedSince(table[a])
  {
    ghost var start := map a | a in table :: HeldBy(table[a]);
    ghost var goal := map a | a in table :: start[a].Normal(Weights(table[a].checkers));
    WalkTable(table, start, goal);
    forall a | a in table ensures NormalizedSince(table[a]) {
      assert HeldBy(table[a]) == goal[a];
    }
  }

  // The services still `left` hold what they held, the others what they should.
  ghost predicate Halfway(table: map<string, ServiceSettings>, left: set<string>,
                          start: map<string, Held>, goal: map<string, Held>)
    requires start.Keys == goal.Keys == table.Keys
    reads TableObjects(table)
  {
    forall a | a in table :: HeldBy(table[a]) == if a in left then start[a] else goal[a]
  }

  // Normalizes the services of the table one by one, in any order.
  method WalkTable(table: map<string, ServiceSettings>, ghost start: map<string, Held>, ghost goal: map<string, Held>)
    requires TableSeparate(table) && forall a | a in table :: CheckersWellFormed(table[a].checkers)
    requires start.Keys == goal.Keys == table.Keys && Halfway(table, table.Keys, start, goal)
    requires forall a | a in table :: goal[a] == start[a].Normal(Weights(table[a].checkers))
    modifies TableObjects(table)
    ensures Halfway(table, {}, start, goal)
  {
    var left := table.Keys;
    while left != {}
      invariant left <= table.Keys && Halfway(table, left, start, goal)
      decreases left
    {
      var name :| name in left;
      assert HeldBy(table[name]) == start[name];
      WalkOne(table, name, left, start, goal);
      left := left - {name};
    }
  }

  method WalkOne(table: map<string, ServiceSettings>, name: string, ghost left: set<string>,
                 ghost start: map<string, Held>, ghost goal: map<string, Held>)
    requires TableSeparate(table) && forall a | a in table :: CheckersWellFormed(table[a].checkers)
    requires start.Keys == goal.Keys == table.Keys
    requires name in left && name in table && Halfway(table, left, start, goal)
    requires HeldBy(table[name]).Normal(Weights(table[name].checkers)) == goal[name]
    modifies Objects(table[name].checkers)
    ensures Halfway(table, left - {name}, start, goal)
  {
    hide Held.Normal, Normalized, Weights, HeldBy;
    NormalizeOne(table, name);
    assert HeldBy(table[name]) == goal[name];
    forall a | a in table && a != name ensures HeldBy(table[a]) == if a in left then start[a] else goal[a] {
      assert HeldBy(table[a]) == old(HeldBy(table[a]));
    }
  }

  method NormalizeOne(table: map<string, ServiceSettings>, name: string)
    requires TableSeparate(table) && name in table && forall a | a in table :: CheckersWellFormed(table[a].checkers)
    modifies Objects(table[name].checkers)
    ensures HeldBy(table[name]) == old(HeldBy(table[name])).Normal(Weights(table[name].checkers))
    ensures forall a | a in table && a != name ::
              HeldBy(table[a]) == old(HeldBy(table[a]))
  {
    WellFormedIsDivisible(table[name].checkers);
    label before:
    NormalizePointsInService(Some(table[name]), TARGET_POINTS_PER_SECOND);
    forall a | a in table && a != name
      ensures HeldBy(table[a]) == old(HeldBy(table[a]))
    {
      assert Objects(table[a].checkers) !! Objects(table[name].checkers);
      assert UntouchedSince@before(table[a]);
    }
  }

  twostate predicate UntouchedSince(svc: ServiceSettings)
    reads Objects(svc.checkers)
  {
    && Points(svc.checkers) == old(Points(svc.checkers))
    && Penalties(svc.checkers) == old(Penalties(svc.checkers))
  }
}
