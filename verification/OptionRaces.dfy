// Concurrent SetOptions calls on one handle.  A call sets the limiter's spec under
// the limiter's lock and stores the options under the task's lock, in two steps.
module OptionRaces {
  import opened Scaling

  datatype Task = Task(limiter: Rate, options: RunOptions, inFlight: multiset<RunOptions>)

  datatype Action = SetLimiter(options: RunOptions) | Store(options: RunOptions)

  // A zero period is refused before either step.
  predicate Enabled(t: Task, a: Action) {
    match a
    case SetLimiter(o) => o.rate.per != 0
    case Store(o) => o in t.inFlight
  }

  function Apply(t: Task, a: Action): Task {
    match a
    case SetLimiter(o) => t.(limiter := o.rate, inFlight := t.inFlight + multiset{o})
    case Store(o) => t.(options := o, inFlight := t.inFlight - multiset{o})
  }

  predicate Legal(t: Task, run: seq<Action>)
    decreases |run|
  {
    run == [] || (Enabled(t, run[0]) && Legal(Apply(t, run[0]), run[1..]))
  }

  function Run(t: Task, run: seq<Action>): Task
    decreases |run|
  {
    if run == [] then t else Run(Apply(t, run[0]), run[1..])
  }

  predicate AtRest(t: Task) {
    t.inFlight == multiset{}
  }

  predicate Agree(t: Task) {
    t.limiter == t.options.rate
  }

  // Every call of the run asks for one of `allowed`.
  ghost predicate AsksOnly(run: seq<Action>, allowed: iset<RunOptions>) {
    forall k | 0 <= k < |run| :: run[k].options in allowed
  }

  // The run leads from agreement at rest to rest.
  ghost predicate RestToRest(t: Task, run: seq<Action>) {
    AtRest(t) && Agree(t) && Legal(t, run) && AtRest(Run(t, run))
  }

  // Whatever the schedule of the allowed calls, they agree when all have returned.
  ghost predicate AlwaysAgree(allowed: iset<RunOptions>) {
    forall t: Task, run: seq<Action> :: RestToRest(t, run) && AsksOnly(run, allowed) ==> Agree(Run(t, run))
  }

  ghost predicate OneRate(allowed: iset<RunOptions>) {
    forall a, b | a in allowed && b in allowed && a.rate.per != 0 && b.rate.per != 0 :: a.rate == b.rate
  }

  // Main result: setting the limiter first avoids the races exactly when the
  // concurrent calls ask for one rate.
  lemma AlwaysAgreeIff(allowed: iset<RunOptions>)
    ensures AlwaysAgree(allowed) <==> OneRate(allowed)
  {
    if OneRate(allowed) {
      forall t: Task, run: seq<Action> | RestToRest(t, run) && AsksOnly(run, allowed) ensures Agree(Run(t, run)) {
        OneRateAgrees(t, run, allowed);
      }
    } else {
      var a, b :| a in allowed && b in allowed && a.rate.per != 0 && b.rate.per != 0 && a.rate != b.rate;
      Overtaken(a, b, allowed);
    }
  }

  // With one rate: either nobody has called yet, or the limiter runs at that rate
  // and so do the options as soon as anybody stored them.
  ghost predicate OneRateInv(t: Task, allowed: iset<RunOptions>) {
    && (forall o | o in t.inFlight :: o in allowed && o.rate.per != 0 && o.rate == t.limiter)
    && (AtRest(t) ==> Agree(t))
    && (Agree(t) || forall o | o in allowed && o.rate.per != 0 :: o.rate == t.limiter)
  }

  lemma OneRateStep(t: Task, a: Action, allowed: iset<RunOptions>)
    requires OneRate(allowed) && OneRateInv(t, allowed) && Enabled(t, a) && a.options in allowed
    ensures OneRateInv(Apply(t, a), allowed)
  {
    if a.Store? {
      var t' := Apply(t, a);
      assert forall o | o in t'.inFlight :: o in t.inFlight;
    }
  }

  lemma {:induction false} OneRateRun(t: Task, run: seq<Action>, allowed: iset<RunOptions>)
    requires OneRate(allowed) && OneRateInv(t, allowed) && Legal(t, run) && AsksOnly(run, allowed)
    ensures OneRateInv(Run(t, run), allowed)
    decreases |run|
  {
    if run != [] {
      OneRateStep(t, run[0], allowed);
      assert forall k | 0 <= k < |run[1..]| :: run[1..][k] == run[k + 1];
      OneRateRun(Apply(t, run[0]), run[1..], allowed);
    }
  }

  lemma OneRateAgrees(t: Task, run: seq<Action>, allowed: iset<RunOptions>)
    requires OneRate(allowed) && RestToRest(t, run) && AsksOnly(run, allowed)
    ensures Agree(Run(t, run))
  {
    OneRateRun(t, run, allowed);
  }

  // The call that sets the limiter last stores its options first.
  lemma Overtaken(a: RunOptions, b: RunOptions, allowed: iset<RunOptions>)
    requires a in allowed && b in allowed && a.rate.per != 0 && b.rate.per != 0 && a.rate != b.rate
    ensures !AlwaysAgree(allowed)
  {
    var t := Task(a.rate, a, multiset{});
    var run := [SetLimiter(a), SetLimiter(b), Store(b), Store(a)];
    var t1 := Apply(t, run[0]);
    var t2 := Apply(t1, run[1]);
    var t3 := Apply(t2, run[2]);
    var t4 := Apply(t3, run[3]);
    assert run[1..] == [SetLimiter(b), Store(b), Store(a)];
    assert run[1..][1..] == [Store(b), Store(a)];
    assert run[1..][1..][1..] == [Store(a)];
    assert run[1..][1..][1..][1..] == [];
    assert t2.inFlight == multiset{a, b} && t3.inFlight == multiset{a} && t4.inFlight == multiset{};
    assert [Store(a)][0] == Store(a) && Legal(t4, []) && Run(t4, []) == t4;
    assert Legal(t3, [Store(a)]) && Run(t3, [Store(a)]) == t4;
    assert Legal(t2, run[1..][1..]) && Run(t2, run[1..][1..]) == t4;
    assert Legal(t1, run[1..]) && Run(t1, run[1..]) == t4;
    assert RestToRest(t, run) && AsksOnly(run, allowed) && !Agree(Run(t, run));
  }

  // One call after the other: each begins when nobody is in flight.
  predicate Sequential(t: Task, run: seq<Action>)
    decreases |run|
  {
    run == [] || ((run[0].SetLimiter? ==> AtRest(t)) && Sequential(Apply(t, run[0]), run[1..]))
  }

  // Calls one after the other, of whatever rates, agree after each; the first of
  // them even repairs what an earlier race left.
  lemma {:induction false} SequentialAgrees(t: Task, run: seq<Action>)
    requires Legal(t, run) && Sequential(t, run) && AtRest(Run(t, run))
    requires AtRest(t) || exists o :: t.inFlight == multiset{o} && o.rate == t.limiter
    ensures run != [] || Agree(t) ==> Agree(Run(t, run))
    decreases |run|
  {
    if run != [] {
      var t1 := Apply(t, run[0]);
      if run[0].SetLimiter? {
        assert t1.inFlight == multiset{run[0].options};
      } else {
        var o :| t.inFlight == multiset{o} && o.rate == t.limiter;
        assert run[0].options == o && t1.inFlight == multiset{};
      }
      SequentialAgrees(t1, run[1..]);
    }
  }
}
