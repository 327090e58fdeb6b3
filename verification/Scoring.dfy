// One check of a service, its outcome, and the score it moves.
module Scoring {
  import opened Wrappers
  import opened Settings

  // An error chain as errors.As walks it.
  datatype GoError = Plain | InternalErr(cause: GoError) | Wrapped(inner: GoError) | Joined(errs: seq<GoError>)

  predicate IsInternal(e: GoError) {
    match e
    case Plain => false
    case InternalErr(_) => true
    case Wrapped(inner) => IsInternal(inner)
    case Joined(errs) => exists k | 0 <= k < |errs| :: IsInternal(errs[k])
  }

  // The node of an error chain at the end of a path of unwrapping steps.
  function NodeAt(e: GoError, path: seq<nat>): Option<GoError>
    decreases |path|
  {
    if path == [] then Some(e)
    else
      match e
      case Wrapped(inner) => if path[0] == 0 then NodeAt(inner, path[1..]) else None
      case Joined(errs) => if path[0] < |errs| then NodeAt(errs[path[0]], path[1..]) else None
      case _ => None
  }

  ghost predicate ReachesInternal(e: GoError) {
    exists path: seq<nat> :: NodeAt(e, path).Some? && NodeAt(e, path).value.InternalErr?
  }

  // An error counts as internal exactly when unwrapping can reach an internal one.
  lemma {:induction false} IsInternalIff(e: GoError)
    ensures IsInternal(e) <==> ReachesInternal(e)
  {
    if IsInternal(e) { var path := PathToInternal(e); }
    if ReachesInternal(e) {
      var path: seq<nat> :| NodeAt(e, path).Some? && NodeAt(e, path).value.InternalErr?;
      PathIsInternal(e, path);
    }
  }

  lemma {:induction false} PathToInternal(e: GoError) returns (path: seq<nat>)
    requires IsInternal(e)
    ensures NodeAt(e, path).Some? && NodeAt(e, path).value.InternalErr?
    decreases e
  {
    match e
    case InternalErr(_) => path := [];
    case Wrapped(inner) =>
      var rest := PathToInternal(inner);
      path := [0] + rest;
      assert path[1..] == rest;
    case Joined(errs) =>
      var k :| 0 <= k < |errs| && IsInternal(errs[k]);
      var rest := PathToInternal(errs[k]);
      path := [k] + rest;
      assert path[1..] == rest;
  }

  lemma {:induction false} PathIsInternal(e: GoError, path: seq<nat>)
    requires NodeAt(e, path).Some? && NodeAt(e, path).value.InternalErr?
    ensures IsInternal(e)
    decreases |path|
  {
    if path != [] {
      match e
      case Wrapped(inner) => PathIsInternal(inner, path[1..]);
      case Joined(errs) => PathIsInternal(errs[path[0]], path[1..]);
    }
  }

  datatype CheckResult = ReturnedNil | ReturnedErr(err: GoError) | Panicked

  // The points of a check's settings when it ended.
  datatype Snapshot = Snapshot(points: real, penalty: real)

  datatype Invocation = Invocation(
    settings: Option<Snapshot>,
    result: CheckResult,
    taskCancelled: bool)         // the runner cancelled the context before Check returned

  // ---- The five outcomes ----

  predicate Missing(i: Invocation) {
    i.settings.None?
  }

  predicate Cancelled(i: Invocation) {
    i.settings.Some? && i.taskCancelled && !i.result.Panicked?
  }

  predicate InternalFailure(i: Invocation) {
    i.settings.Some? && !Cancelled(i) &&
    (i.result.Panicked? || (i.result.ReturnedErr? && IsInternal(i.result.err)))
  }

  predicate Success(i: Invocation) {
    i.settings.Some? && !Cancelled(i) && i.result.ReturnedNil?
  }

  predicate Failure(i: Invocation) {
    i.settings.Some? && !Cancelled(i) && i.result.ReturnedErr? && !IsInternal(i.result.err)
  }

  datatype Metrics = Metrics(
    successes: nat, points: real, failures: nat, penalty: real, internalErrors: nat)

  const ZERO := Metrics(0, 0.0, 0, 0.0, 0)

  // ---- Totals over any run of checks ----

  function Number(run: seq<Invocation>, p: Invocation -> bool): nat {
    if run == [] then 0 else Number(run[..|run| - 1], p) + if p(run[|run| - 1]) then 1 else 0
  }

  function Total(run: seq<Invocation>, p: Invocation -> bool, worth: Invocation -> real): real {
    if run == [] then 0.0
    else Total(run[..|run| - 1], p, worth) + if p(run[|run| - 1]) then worth(run[|run| - 1]) else 0.0
  }

  function PointsWorth(i: Invocation): real {
    if i.settings.Some? then i.settings.value.points else 0.0
  }

  function PenaltyWorth(i: Invocation): real {
    if i.settings.Some? then i.settings.value.penalty else 0.0
  }

  // What the counters must show after a run.
  ghost predicate Scores(m: Metrics, run: seq<Invocation>) {
    && m.successes == Number(run, Success)
    && m.failures == Number(run, Failure)
    && m.internalErrors == Number(run, InternalFailure)
    && m.points == Total(run, Success, PointsWorth)
    && m.penalty == Total(run, Failure, PenaltyWorth)
  }

  // Every invocation has exactly one outcome.
  lemma OneOutcome(i: Invocation)
    ensures Missing(i) || Cancelled(i) || InternalFailure(i) || Success(i) || Failure(i)
    ensures !(Missing(i) && Cancelled(i)) && !(Missing(i) && InternalFailure(i)) && !(Missing(i) && Success(i))
    ensures !(Missing(i) && Failure(i)) && !(Cancelled(i) && InternalFailure(i)) && !(Cancelled(i) && Success(i))
    ensures !(Cancelled(i) && Failure(i)) && !(InternalFailure(i) && Success(i))
    ensures !(InternalFailure(i) && Failure(i)) && !(Success(i) && Failure(i))
  {
  }

  // Conservation: the outcomes add up to the invocations.
  lemma {:induction false} OutcomesAddUp(run: seq<Invocation>)
    ensures |run| == Number(run, Missing) + Number(run, Cancelled) + Number(run, InternalFailure)
                     + Number(run, Success) + Number(run, Failure)
  {
    if run != [] {
      OutcomesAddUp(run[..|run| - 1]);
      OneOutcome(run[|run| - 1]);
    }
  }

  // The counters account for every check that had settings and was not cancelled.
  lemma ScoreConservation(m: Metrics, run: seq<Invocation>)
    requires Scores(m, run)
    ensures m.successes + m.failures + m.internalErrors + Number(run, Missing) + Number(run, Cancelled) == |run|
  {
    OutcomesAddUp(run);
  }

  lemma NumberAppend(run: seq<Invocation>, i: Invocation, p: Invocation -> bool)
    ensures Number(run + [i], p) == Number(run, p) + if p(i) then 1 else 0
  {
    assert (run + [i])[..|run|] == run;
  }

  lemma TotalAppend(run: seq<Invocation>, i: Invocation, p: Invocation -> bool, worth: Invocation -> real)
    ensures Total(run + [i], p, worth) == Total(run, p, worth) + if p(i) then worth(i) else 0.0
  {
    assert (run + [i])[..|run|] == run;
  }

  // ---- The task function ----

  datatype TaskSettings = TaskSettings(target: string, settings: CheckerSettings)

  // What an invocation that loaded `loaded` when it began shows when it ends.  The
  // points are read through the pointer then: updates and syncs may lie between.
  ghost function Ended(loaded: Option<TaskSettings>, result: CheckResult, taskCancelled: bool): Invocation
    reads if loaded.Some? then {loaded.value.settings} else {}
  {
    Invocation(if loaded.Some? then Some(Held(loaded.value.settings)) else None, result, taskCancelled)
  }

  ghost function Held(settings: CheckerSettings): Snapshot
    reads settings
  {
    Snapshot(settings.successPoints, settings.failPenalty)
  }

  class CheckerTask {
    var lastSettings: Option<TaskSettings>
    var successes: nat
    var points: real
    var failures: nat
    var penalty: real
    var internalErrors: nat
    ghost var history: seq<Invocation>

    ghost function View(): Metrics
      reads this
    {
      Metrics(successes, points, failures, penalty, internalErrors)
    }

    // The counters are the score of the whole history.
    ghost predicate Valid()
      reads this
    {
      Scores(View(), history)
    }

    constructor ()
      ensures Valid() && View() == ZERO && history == [] && lastSettings == None
    {
      lastSettings, history := None, [];
      successes, points, failures, penalty, internalErrors := 0, 0.0, 0, 0.0, 0;
    }

    // One turn of the settings updater: the target and the checker's entry in the
    // current settings, or what it had before when there is none.
    method UpdateSettings(current: Option<Settings>, service: string, name: string)
      requires Valid()
      modifies this`lastSettings
      ensures Valid()
      ensures var services := ByName(GetServices(current), ServiceName);
              lastSettings ==
                if service in services && name in ByName(services[service].checkers, CheckerName)
                then Some(TaskSettings(services[service].target, ByName(services[service].checkers, CheckerName)[name]))
                else old(lastSettings)
    {
      if current.None? { return; }
      var services := ServiceMap(current);
      if service !in services { return; }
      var checkers := CheckersMap(services[service].checkers);
      if name !in checkers { return; }
      lastSettings := Some(TaskSettings(services[service].target, checkers[name]));
    }

    // The deferred block moves the one counter of the outcome that its variables
    // stand for, or none.
    method Score(settings: CheckerSettings, checkErr: Option<GoError>, cancelled: bool)
      modifies this`successes, this`points, this`failures, this`penalty, this`internalErrors
      ensures var result := if checkErr.Some? then ReturnedErr(checkErr.value) else ReturnedNil;
              View() == AfterOne(old(View()), Invocation(Some(old(Held(settings))), result, cancelled))
    {
      if cancelled {
        return;
      }
      var success := true;
      if checkErr.Some? {
        if IsInternal(checkErr.value) {
          internalErrors := internalErrors + 1;
          return;
        }
        success := false;
      }
      if success {
        successes := successes + 1;
        points := points + settings.successPoints;
      } else {
        failures := failures + 1;
        penalty := penalty + settings.failPenalty;
      }
    }

    // An invocation ends.  `loaded` is what lastSettings was when it began, `result`
    // what Check does, `taskCancelled` whether the runner has cancelled by the time
    // it returns.  Only missing settings fail the task.
    method Run(loaded: Option<TaskSettings>, result: CheckResult, taskCancelled: bool) returns (err: Option<GoError>)
      requires Valid()
      modifies this
      ensures Valid() && history == old(history) + [old(Ended(loaded, result, taskCancelled))]
      ensures lastSettings == old(lastSettings)
      ensures err == if loaded.None? then Some(InternalErr(Plain)) else None
    {
      hide Scores, Number, Total, IsInternal, AfterOne;
      ghost var i := Ended(loaded, result, taskCancelled);
      Appended(View(), history, i);
      err := Check(loaded, result, taskCancelled);
      history := history + [i];
    }

    // The body of the task function with its deferred block.
    method Check(loaded: Option<TaskSettings>, result: CheckResult, taskCancelled: bool)
      returns (err: Option<GoError>)
      modifies this`successes, this`points, this`failures, this`penalty, this`internalErrors
      ensures View() == AfterOne(old(View()), old(Ended(loaded, result, taskCancelled)))
      ensures err == if loaded.None? then Some(InternalErr(Plain)) else None
      ensures loaded.None? || (taskCancelled && !result.Panicked?) ==> View() == old(View())
      ensures loaded.Some?
              && (result.Panicked? || (result.ReturnedErr? && ReachesInternal(result.err) && !taskCancelled)) ==>
                && internalErrors == old(internalErrors) + 1 && successes == old(successes)
                && failures == old(failures) && points == old(points) && penalty == old(penalty)
      ensures loaded.Some? && result.ReturnedErr? && !ReachesInternal(result.err) && !taskCancelled ==>
                && failures == old(failures) + 1 && penalty == old(penalty) + old(loaded.value.settings.failPenalty)
                && successes == old(successes) && points == old(points) && internalErrors == old(internalErrors)
      ensures loaded.Some? && result.ReturnedNil? && !taskCancelled ==>
                && successes == old(successes) + 1 && points == old(points) + old(loaded.value.settings.successPoints)
                && failures == old(failures) && penalty == old(penalty) && internalErrors == old(internalErrors)
    {
      hide Number, Total, Scores, ReachesInternal;
      if result.ReturnedErr? { IsInternalIff(result.err); }
      if loaded.None? {
        return Some(InternalErr(Plain));
      }
      var checkErr: Option<GoError> := None;
      var cancelled := false;
      match result {
        case Panicked =>
          // recovered in the deferred block, before the context is looked at
          checkErr := Some(InternalErr(Plain));
        case ReturnedNil =>
          cancelled := taskCancelled;
        case ReturnedErr(e) =>
          checkErr := Some(e);
          cancelled := taskCancelled;
      }
      Score(loaded.value.settings, checkErr, cancelled);
      return None;
    }
  }

  // The score one more invocation should leave.
  ghost function AfterOne(m: Metrics, i: Invocation): Metrics {
    Metrics(
      m.successes + (if Success(i) then 1 else 0),
      m.points + (if Success(i) then PointsWorth(i) else 0.0),
      m.failures + (if Failure(i) then 1 else 0),
      m.penalty + (if Failure(i) then PenaltyWorth(i) else 0.0),
      m.internalErrors + (if InternalFailure(i) then 1 else 0))
  }

  lemma Appended(m: Metrics, run: seq<Invocation>, i: Invocation)
    requires Scores(m, run)
    ensures Scores(AfterOne(m, i), run + [i])
  {
    NumberAppend(run, i, Success);
    NumberAppend(run, i, Failure);
    NumberAppend(run, i, InternalFailure);
    TotalAppend(run, i, Success, PointsWorth);
    TotalAppend(run, i, Failure, PenaltyWorth);
  }
}
