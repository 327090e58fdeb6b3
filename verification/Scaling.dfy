// How many workers a task needs, and how the control loop follows that number.
// Durations are whole nanoseconds, the factor 1.2 is exact.
module Scaling {
  import opened Durations
  import opened Wrappers
  import opened Handshake
  import opened TaskPool

  datatype Rate = Rate(times: nat, per: nat)

  const ZERO_RATE := Rate(0, SECOND)

  datatype RunOptions = RunOptions(rate: Rate, maxGoroutines: int)

  function Needed(rate: Rate, duration: nat): nat
    requires rate.per > 0
  {
    (rate.times * duration / rate.per) * 6 / 5 + 1
  }

  // The needed count after the cap.
  function Target(options: RunOptions, duration: nat): nat
    requires options.rate.per > 0
  {
    var needed := Needed(options.rate, duration);
    if options.maxGoroutines > 0 && needed > options.maxGoroutines then options.maxGoroutines else needed
  }

  lemma FloorBounds(a: nat, b: nat)
    requires b > 0
    ensures (a / b) * b <= a < (a / b) * b + b
  {
  }

  lemma MulMonotone(a: nat, b: nat, c: nat)
    requires a <= b
    ensures a * c <= b * c && c * a <= c * b
  {
  }

  // Enough workers for the demanded rate: N runs of the measured duration per
  // worker fit more than Times starts into every Per ...
  lemma NeededIsEnough(rate: Rate, duration: nat)
    requires rate.per > 0
    ensures Needed(rate, duration) * rate.per > rate.times * duration
  {
    var work := rate.times * duration;
    var whole := work / rate.per;
    FloorBounds(work, rate.per);
    assert Needed(rate, duration) >= whole + 1;
    MulMonotone(whole + 1, Needed(rate, duration), rate.per);
    assert (whole + 1) * rate.per == whole * rate.per + rate.per;
  }

  // ... and never more than a fifth above it, plus one: N <= 1.2 x + 1 with
  // x = Times * duration / Per, both sides multiplied by 5 Per.
  lemma NeededIsNotTooMany(rate: Rate, duration: nat)
    requires rate.per > 0
    ensures 5 * (Needed(rate, duration) - 1) * rate.per <= 6 * (rate.times * duration)
  {
    var work := rate.times * duration;
    var whole := work / rate.per;
    FloorBounds(work, rate.per);
    assert 5 * (Needed(rate, duration) - 1) <= 6 * whole;
    MulMonotone(5 * (Needed(rate, duration) - 1), 6 * whole, rate.per);
    assert 6 * whole * rate.per == 6 * (whole * rate.per);
  }

  lemma DivMonotone(a: nat, b: nat, a': nat, b': nat)
    requires a <= a' && 0 < b' <= b
    ensures a / b <= a' / b'
  {
    var q, q' := a / b, a' / b';
    FloorBounds(a, b);
    FloorBounds(a', b');
    OneMoreTime(q', b');
    if q > q' {
      MulMonotone(q' + 1, q, b');
      MulMonotone(b', b, q);
    }
  }

  lemma OneMoreTime(q: nat, b: nat)
    ensures (q + 1) * b == q * b + b
  {
  }

  // More starts, longer runs or a shorter period never need fewer workers.
  lemma NeededIsMonotone(rate: Rate, duration: nat, rate': Rate, duration': nat)
    requires 0 < rate'.per <= rate.per && rate.times <= rate'.times && duration <= duration'
    ensures Needed(rate, duration) <= Needed(rate', duration')
  {
    MulMonotone(rate.times, rate'.times, duration);
    MulMonotone(duration, duration', rate'.times);
    DivMonotone(rate.times * duration, rate.per, rate'.times * duration', rate'.per);
  }

  // Exactly: the whole part of Times * duration / Per, a fifth more, rounded down,
  // and one.
  lemma NeededExactly(rate: Rate, duration: nat) returns (whole: nat, more: nat)
    requires rate.per > 0
    ensures whole * rate.per <= rate.times * duration < whole * rate.per + rate.per
    ensures 5 * more <= 6 * whole < 5 * more + 5
    ensures Needed(rate, duration) == more + 1
  {
    whole := rate.times * duration / rate.per;
    more := whole * 6 / 5;
    FloorBounds(rate.times * duration, rate.per);
  }

  // The resize target is positive, within a positive cap, and uncapped otherwise.
  lemma TargetInRange(options: RunOptions, duration: nat)
    requires options.rate.per > 0
    ensures 1 <= Target(options, duration) <= Needed(options.rate, duration)
    ensures options.maxGoroutines > 0 ==> Target(options, duration) <= options.maxGoroutines
    ensures 0 < options.maxGoroutines < Needed(options.rate, duration) ==>
              Target(options, duration) == options.maxGoroutines
    ensures options.maxGoroutines <= 0 || Needed(options.rate, duration) <= options.maxGoroutines ==>
              Target(options, duration) == Needed(options.rate, duration)
  {
  }

  // ---- The scaler's count against the pool ----

  ghost predicate UpdateFails(p: Pool, p': Pool, target: nat) {
    target < |p.instances| && TimedOuts(p'.workers, p.instances[target..]) > 0
  }

  // What the scaler believes and what there is.
  datatype Scaler = Scaler(current: nat, pool: Pool)

  ghost predicate Agree(s: Scaler) {
    s.current == |s.pool.instances|
  }

  // One tick: nothing when the count already equals the target, else a resize
  // whose failure leaves the count as it was.
  ghost predicate Ticked(s: Scaler, s': Scaler, target: nat) {
    if target == s.current then s' == s
    else
      && Resized(s.pool, s'.pool, target)
      && s'.current == if UpdateFails(s.pool, s'.pool, target) then s.current else target
  }

  ghost predicate ReportsError(s: Scaler, s': Scaler, target: nat) {
    target != s.current && UpdateFails(s.pool, s'.pool, target)
  }

  // Workers may also run on between ticks.
  ghost predicate ScalerStep(s: Scaler, s': Scaler, target: Option<nat>) {
    match target
    case Some(t) => Ticked(s, s', t)
    case None => s'.current == s.current && exists i, run :: Progressed(s.pool, s'.pool, i, run)
  }

  // Exactly when a tick ends in agreement.
  lemma TickAgreesIff(s: Scaler, s': Scaler, target: nat)
    requires Ticked(s, s', target)
    ensures Agree(s') <==> if target == s.current then Agree(s) else !ReportsError(s, s', target)
  {
    if target != s.current { ResizeLength(s.pool, s'.pool, target); }
  }

  // Known before the tick: it can be relied on to end in agreement exactly when it
  // shrinks nothing, or does nothing and agreed before.
  lemma TickSurelyAgreesIff(s: Scaler, target: nat)
    requires Conserved(s.pool)
    ensures (forall s' | Ticked(s, s', target) :: Agree(s')) <==>
            if target == s.current then Agree(s) else target >= |s.pool.instances|
  {
    if target == s.current {
      assert Ticked(s, s, target);
    } else if target >= |s.pool.instances| {
      forall s' | Ticked(s, s', target) ensures Agree(s') {
        TickAgreesIff(s, s', target);
      }
    } else {
      var p' := TailCanTimeOut(s.pool, target);
      var s' := Scaler(s.current, p');
      assert Ticked(s, s', target) && !Agree(s');
    }
  }

  predicate TimedOut(x: Instance) {
    x.stops != [] && x.stops[0].pc.TimedOut?
  }

  // What shrinking leaves of each worker when no stop of the tail is in time.
  ghost predicate Failed(x: Instance, x': Instance, stopped: bool) {
    if stopped then StoppedTo(x, x') && TimedOut(x') else RanOn(x, x')
  }

  lemma OneFails(p: Pool, i: nat, stopped: bool) returns (x': Instance)
    requires Conserved(p) && i < |p.workers| && (stopped ==> i in p.instances)
    ensures Failed(p.workers[i], x', stopped)
  {
    assert Accounted(p, i);
    x' := p.workers[i];
    if stopped {
      NothingSent(x');
      x' := StopCanTimeOut(x');
    } else {
      StaysPut(x');
    }
  }

  // Any shrinking can fail: no worker of the tail stops in time.
  lemma TailCanTimeOut(p: Pool, target: nat) returns (p': Pool)
    requires Conserved(p) && target < |p.instances|
    ensures Resized(p, p', target) && UpdateFails(p, p', target)
  {
    var tail := p.instances[target..];
    var workers := TailFails(p, tail);
    p' := Pool(workers, p.instances[..target]);
    assert Failed(p.workers[tail[0]], workers[tail[0]], true);
    forall i | 0 <= i < |workers|
      ensures if i in tail then StoppedTo(p.workers[i], workers[i]) else RanOn(p.workers[i], workers[i])
    {
      assert Failed(p.workers[i], workers[i], i in tail);
    }
  }

  lemma TailFails(p: Pool, tail: seq<nat>) returns (workers: seq<Instance>)
    requires Conserved(p) && forall i | i in tail :: i in p.instances
    ensures |workers| == |p.workers|
    ensures forall i | 0 <= i < |workers| :: Failed(p.workers[i], workers[i], i in tail)
  {
    hide Failed, Conserved;
    workers := [];
    while |workers| < |p.workers|
      invariant |workers| <= |p.workers|
      invariant forall i | 0 <= i < |workers| :: Failed(p.workers[i], workers[i], i in tail)
    {
      var x' := OneFails(p, |workers|, |workers| in tail);
      workers := workers + [x'];
    }
  }

  ghost predicate NoErrors(states: seq<Scaler>, targets: seq<Option<nat>>)
    requires |states| == |targets| + 1
  {
    forall k | 0 <= k < |targets| :: targets[k].Some? ==> !ReportsError(states[k], states[k + 1], targets[k].value)
  }

  // Across all ticks without a reported error the count is the pool's length.
  lemma {:induction false} AgreementWithoutErrors(states: seq<Scaler>, targets: seq<Option<nat>>, k: nat)
    requires |states| == |targets| + 1 && k < |states| && states[0] == Scaler(0, EMPTY)
    requires forall j | 0 <= j < |targets| :: ScalerStep(states[j], states[j + 1], targets[j])
    requires NoErrors(states, targets)
    ensures Agree(states[k]) && Conserved(states[k].pool)
  {
    if k > 0 {
      AgreementWithoutErrors(states, targets, k - 1);
      var s, s' := states[k - 1], states[k - 1 + 1];
      assert ScalerStep(s, s', targets[k - 1]);
      match targets[k - 1]
      case Some(t) =>
        TickAgreesIff(s, s', t);
        if t != s.current { ResizeKeepsConserved(s.pool, s'.pool, t); }
      case None =>
        var i, run :| Progressed(s.pool, s'.pool, i, run);
        ProgressConserved(s.pool, s'.pool, i, run);
    }
  }

  // After a failed stop the next tick that asks for another count and reports no
  // error restores the agreement, whatever state the failure left.
  lemma AgreementRestored(s: Scaler, s': Scaler, target: nat)
    requires Ticked(s, s', target) && target != s.current && !ReportsError(s, s', target)
    ensures Agree(s')
  {
    TickAgreesIff(s, s', target);
  }

  // Such failures happen: two agreed workers, one of them asked to leave in vain.
  lemma FailureIsPossible()
    ensures exists s, s' :: Agree(s) && Conserved(s.pool) && Ticked(s, s', 1) && ReportsError(s, s', 1) && !Agree(s')
  {
    var s := Scaler(2, Pool([FRESH, FRESH], [0, 1]));
    var stopped := StopCanTimeOut(FRESH);
    var s' := Scaler(2, Pool([FRESH, stopped], [0]));
    assert s.pool.instances[1..] == [1] && s.pool.instances[..1] == [0];
    StaysPut(FRESH);
    assert Shrunk(s.pool, s'.pool, 1);
    assert [1][1..] == [];
    assert TimedOuts(s'.pool.workers, [1]) == 1;
    assert forall i | 0 <= i < 2 :: Accounted(s.pool, i);
    TickAgreesIff(s, s', 1);
  }

  // Until then it is lost: as long as the load asks for the stale count, no tick
  // touches the pool, however often it runs.
  lemma {:induction false} StaleCountStarves(states: seq<Scaler>, targets: seq<Option<nat>>, k: nat)
    requires |states| == |targets| + 1 && k < |states| && !Agree(states[0])
    requires forall j | 0 <= j < |targets| :: ScalerStep(states[j], states[j + 1], targets[j])
    requires forall j | 0 <= j < |targets| :: targets[j].Some? ==> targets[j].value == states[0].current
    ensures !Agree(states[k]) && states[k].current == states[0].current
    ensures states[k].pool.instances == states[0].pool.instances
  {
    if k > 0 {
      StaleCountStarves(states, targets, k - 1);
      assert ScalerStep(states[k - 1], states[k - 1 + 1], targets[k - 1]);
    }
  }
}
