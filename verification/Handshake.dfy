// One worker goroutine and the calls that stop it: a flag, a cancel and a
// one-slot channel.  Every action is one indivisible step of one goroutine.
module Handshake {
  datatype Worker =
    | Starting                // about to call Run
    | Running                 // inside Run
    | Ended                   // Run returned, flag not yet read
    | Sending                 // flag seen, about to send on the channel
    | Exited

  datatype StopPc = Called | FlagSet | Cancelled | Selecting | StopOk | TimedOut

  datatype StopCall = StopCall(pc: StopPc, expired: bool)

  datatype Instance = Instance(
    worker: Worker,
    stopped: bool,
    cancelled: bool,
    channel: nat,           // values waiting in the one-slot channel
    stops: seq<StopCall>)

  const FRESH := Instance(Starting, false, false, 0, [])

  datatype Action =
    | BeginRun
    | EndRun
    | LoadFlag
    | Send
    | CallStop
    | StoreFlag(i: nat)
    | Cancel(i: nat)
    | FirstSelect(i: nat)
    | Receive(i: nat)
    | GiveUp(i: nat)
    | Expire(i: nat)

  predicate AtStop(x: Instance, i: nat, pc: StopPc) {
    i < |x.stops| && x.stops[i].pc == pc
  }

  predicate Enabled(x: Instance, a: Action) {
    match a
    case BeginRun => x.worker.Starting?
    case EndRun => x.worker.Running?
    case LoadFlag => x.worker.Ended?
    case Send => x.worker.Sending? && x.channel == 0
    case CallStop => true
    case StoreFlag(i) => AtStop(x, i, Called)
    case Cancel(i) => AtStop(x, i, FlagSet)
    case FirstSelect(i) => AtStop(x, i, Cancelled)
    case Receive(i) => AtStop(x, i, Selecting) && x.channel > 0
    case GiveUp(i) => AtStop(x, i, Selecting) && x.stops[i].expired
    case Expire(i) => i < |x.stops|
  }

  function MoveStop(x: Instance, i: nat, pc: StopPc): Instance
    requires i < |x.stops|
  {
    x.(stops := x.stops[i := x.stops[i].(pc := pc)])
  }

  function Apply(x: Instance, a: Action): Instance
    requires Enabled(x, a)
  {
    match a
    case BeginRun => x.(worker := Running)
    case EndRun => x.(worker := Ended)
    case LoadFlag => x.(worker := if x.stopped then Sending else Starting)
    case Send => x.(worker := Exited, channel := x.channel + 1)
    case CallStop => x.(stops := x.stops + [StopCall(Called, false)])
    case StoreFlag(i) => MoveStop(x, i, FlagSet).(stopped := true)
    case Cancel(i) => MoveStop(x, i, Cancelled).(cancelled := true)
    case FirstSelect(i) =>
      // A ready result wins over a context that has ended already.
      if x.channel > 0 then MoveStop(x, i, StopOk).(channel := x.channel - 1) else MoveStop(x, i, Selecting)
    case Receive(i) => MoveStop(x, i, StopOk).(channel := x.channel - 1)
    case GiveUp(i) => MoveStop(x, i, TimedOut)
    case Expire(i) => x.(stops := x.stops[i := x.stops[i].(expired := true)])
  }

  predicate Legal(x: Instance, run: seq<Action>)
    decreases |run|
  {
    run == [] || (Enabled(x, run[0]) && Legal(Apply(x, run[0]), run[1..]))
  }

  function Run(x: Instance, run: seq<Action>): Instance
    requires Legal(x, run)
    decreases |run|
  {
    if run == [] then x else Run(Apply(x, run[0]), run[1..])
  }

  // Stop calls that returned nil.
  function OkCount(stops: seq<StopCall>): nat {
    if stops == [] then 0
    else OkCount(stops[..|stops| - 1]) + if stops[|stops| - 1].pc.StopOk? then 1 else 0
  }

  lemma {:induction false} OkCountUpdate(stops: seq<StopCall>, i: nat, c: StopCall)
    requires i < |stops|
    ensures OkCount(stops[i := c]) ==
            OkCount(stops) - (if stops[i].pc.StopOk? then 1 else 0) + (if c.pc.StopOk? then 1 else 0)
  {
    var n := |stops| - 1;
    if i == n {
      assert stops[i := c][..n] == stops[..n];
    } else {
      OkCountUpdate(stops[..n], i, c);
      assert stops[i := c][..n] == stops[..n][i := c];
    }
  }

  lemma {:induction false} OkCountPositive(stops: seq<StopCall>, i: nat)
    requires i < |stops| && stops[i].pc.StopOk?
    ensures OkCount(stops) > 0
  {
    if i < |stops| - 1 { OkCountPositive(stops[..|stops| - 1], i); }
  }

  lemma {:induction false} OkCountPair(stops: seq<StopCall>, i: nat, j: nat)
    requires i < j < |stops| && stops[i].pc.StopOk? && stops[j].pc.StopOk?
    ensures OkCount(stops) > 1
  {
    var n := |stops| - 1;
    if j == n { OkCountPositive(stops[..n], i); } else { OkCountPair(stops[..n], i, j); }
  }

  ghost predicate StopOrder(x: Instance, c: StopCall) {
    && (!c.pc.Called? ==> x.stopped)
    && (!c.pc.Called? && !c.pc.FlagSet? ==> x.cancelled)
    && (c.pc.TimedOut? ==> c.expired)
  }

  ghost predicate Inv(x: Instance) {
    && (x.cancelled ==> x.stopped)
    && (x.stopped ==> x.stops != [])
    && (forall i | 0 <= i < |x.stops| :: StopOrder(x, x.stops[i]))
    && (x.worker.Sending? || x.worker.Exited? ==> x.stopped)
    && x.channel + OkCount(x.stops) == (if x.worker.Exited? then 1 else 0)
  }

  predicate MovesStop(a: Action) {
    a.StoreFlag? || a.Cancel? || a.FirstSelect? || a.Receive? || a.GiveUp? || a.Expire?
  }

  lemma CallStopInv(x: Instance)
    requires Inv(x)
    ensures Inv(Apply(x, CallStop))
  {
    var x' := Apply(x, CallStop);
    assert x'.stops[..|x'.stops| - 1] == x.stops;
    forall k | 0 <= k < |x'.stops| ensures StopOrder(x', x'.stops[k]) {
      if k < |x.stops| { assert StopOrder(x, x.stops[k]); }
    }
  }

  lemma WorkerStepInv(x: Instance, a: Action)
    requires Inv(x) && Enabled(x, a) && !MovesStop(a) && !a.CallStop?
    ensures Inv(Apply(x, a))
  {
    var x' := Apply(x, a);
    forall k | 0 <= k < |x'.stops| ensures StopOrder(x', x'.stops[k]) {
      assert StopOrder(x, x.stops[k]);
    }
  }

  lemma StopStepOrder(x: Instance, a: Action)
    requires Inv(x) && Enabled(x, a) && MovesStop(a)
    ensures var x' := Apply(x, a); forall k | 0 <= k < |x'.stops| :: StopOrder(x', x'.stops[k])
  {
    var x' := Apply(x, a);
    forall k | 0 <= k < |x'.stops| ensures StopOrder(x', x'.stops[k]) {
      assert StopOrder(x, x.stops[k]);
    }
  }

  lemma StepInv(x: Instance, a: Action)
    requires Inv(x) && Enabled(x, a)
    ensures Inv(Apply(x, a))
  {
    if MovesStop(a) {
      StopStepOrder(x, a);
      assert StopOrder(x, x.stops[a.i]);
      OkCountUpdate(x.stops, a.i, Apply(x, a).stops[a.i]);
    } else if a.CallStop? {
      CallStopInv(x);
    } else {
      WorkerStepInv(x, a);
    }
  }

  lemma {:induction false} RunInv(x: Instance, run: seq<Action>)
    requires Inv(x) && Legal(x, run)
    ensures Inv(Run(x, run))
    decreases |run|
  {
    if run != [] {
      StepInv(x, run[0]);
      RunInv(Apply(x, run[0]), run[1..]);
    }
  }

  // What a newly started instance can become.
  ghost predicate Reachable(x: Instance) {
    exists start: Instance, run: seq<Action> :: start == FRESH && Legal(start, run) && x == Run(start, run)
  }

  lemma ReachableInv(x: Instance)
    requires Reachable(x)
    ensures Inv(x)
  {
    var start: Instance, run: seq<Action> :| start == FRESH && Legal(start, run) && x == Run(start, run);
    RunInv(start, run);
  }

  // The Runs a schedule begins, and the sends it makes.
  function Begins(run: seq<Action>): nat {
    if run == [] then 0 else (if run[0].BeginRun? then 1 else 0) + Begins(run[1..])
  }

  function Sends(run: seq<Action>): nat {
    if run == [] then 0 else (if run[0].Send? then 1 else 0) + Sends(run[1..])
  }

  lemma {:induction false} LateRuns(x: Instance, later: seq<Action>)
    requires x.stopped && Legal(x, later)
    ensures Begins(later) <= if x.worker.Starting? then 1 else 0
    decreases |later|
  {
    if later != [] { LateRuns(Apply(x, later[0]), later[1..]); }
  }

  lemma {:induction false} LaterSends(x: Instance, later: seq<Action>)
    requires Legal(x, later)
    ensures Sends(later) <= if x.worker.Exited? then 0 else 1
    decreases |later|
  {
    if later != [] { LaterSends(Apply(x, later[0]), later[1..]); }
  }

  // Main result, over every interleaving of the worker with any number of stops,
  // up to any point `x` and from there on.
  lemma HandshakeSafety(x: Instance, later: seq<Action>)
    requires Reachable(x) && Legal(x, later)
    ensures x.stopped ==> Begins(later) <= 1                            // one more Run at most after the flag
    ensures x.cancelled && !x.worker.Starting? ==> Begins(later) == 0   // none after a Run the cancel met
    ensures Sends(later) <= 1
    ensures x.worker.Sending? ==> x.channel == 0 && Enabled(x, Send)    // the send never blocks
    ensures x.cancelled ==> x.stopped                                   // flag before cancel
  {
    ReachableInv(x);
    LaterSends(x, later);
    if x.stopped { LateRuns(x, later); }
  }

  // Until it is stopped a worker goes on to its next Run.
  lemma RestartsUntilStopped(x: Instance) returns (run: seq<Action>)
    requires Reachable(x) && !x.stopped
    ensures Legal(x, run) && |run| <= 3 && Begins(run) == 1 && Run(x, run).worker.Running?
    ensures Run(x, run) == x.(worker := Running)
  {
    ReachableInv(x);
    assert [BeginRun][1..] == [] && [LoadFlag, BeginRun][1..] == [BeginRun];
    assert [EndRun, LoadFlag, BeginRun][1..] == [LoadFlag, BeginRun];
    run := if x.worker.Starting? then [BeginRun]
           else if x.worker.Ended? then [LoadFlag, BeginRun]
           else [EndRun, LoadFlag, BeginRun];
    var started := x.(worker := Running);
    assert Legal(started, []) && Run(started, []) == started;
    assert Legal(x.(worker := Starting), [BeginRun]) && Run(x.(worker := Starting), [BeginRun]) == started;
    var ended := x.(worker := Ended);
    assert Legal(ended, [LoadFlag, BeginRun]) && Run(ended, [LoadFlag, BeginRun]) == started;
  }

  // stop returns nil only once the worker has left its last Run, an error only
  // when its own context has ended.
  lemma StopResult(x: Instance, i: nat)
    requires Reachable(x) && i < |x.stops|
    ensures x.stops[i].pc.StopOk? ==> x.worker.Exited?
    ensures x.stops[i].pc.TimedOut? ==> x.stops[i].expired
  {
    ReachableInv(x);
    assert StopOrder(x, x.stops[i]);
    if x.stops[i].pc.StopOk? { OkCountPositive(x.stops, i); }
  }

  // A stop whose context never ends is never given up.
  lemma {:induction false} NoTimeoutByItself(x: Instance, run: seq<Action>, i: nat)
    requires Legal(x, run) && (i < |x.stops| ==> !x.stops[i].expired && !x.stops[i].pc.TimedOut?)
    requires forall a | a in run :: a != Expire(i)
    ensures i < |Run(x, run).stops| ==> !Run(x, run).stops[i].expired && !Run(x, run).stops[i].pc.TimedOut?
    decreases |run|
  {
    if run != [] {
      assert run[0] in run && forall a | a in run[1..] :: a in run;
      NoTimeoutByItself(Apply(x, run[0]), run[1..], i);
    }
  }

  // The result is handed over once: a second stop of one instance can only time out.
  lemma OneStopSucceeds(x: Instance, i: nat, j: nat)
    requires Reachable(x) && i < j < |x.stops|
    ensures !(x.stops[i].pc.StopOk? && x.stops[j].pc.StopOk?)
  {
    ReachableInv(x);
    if x.stops[i].pc.StopOk? && x.stops[j].pc.StopOk? { OkCountPair(x.stops, i, j); }
  }

  // ---- A lone stop can always finish ----

  function WorkerRank(w: Worker): nat {
    match w
    case Starting => 4
    case Running => 3
    case Ended => 2
    case Sending => 1
    case Exited => 0
  }

  function StopRank(pc: StopPc): nat {
    match pc
    case Called => 4
    case FlagSet => 3
    case Cancelled => 2
    case Selecting => 1
    case _ => 0
  }

  function NextStep(x: Instance): Action
    requires |x.stops| == 1
  {
    match x.stops[0].pc
    case Called => StoreFlag(0)
    case FlagSet => Cancel(0)
    case Cancelled => FirstSelect(0)
    case _ =>
      if x.channel > 0 then Receive(0)
      else
        match x.worker
        case Starting => BeginRun
        case Running => EndRun
        case Ended => LoadFlag
        case _ => Send
  }

  lemma NextStepProgress(x: Instance)
    requires Inv(x) && |x.stops| == 1 && StopRank(x.stops[0].pc) > 0
    ensures Enabled(x, NextStep(x))
    ensures var x' := Apply(x, NextStep(x));
            && |x'.stops| == 1 && !x'.stops[0].pc.TimedOut? && x'.stops[0].expired == x.stops[0].expired
            && StopRank(x'.stops[0].pc) + WorkerRank(x'.worker) < StopRank(x.stops[0].pc) + WorkerRank(x.worker)
  {
    assert StopOrder(x, x.stops[0]);
    OneStopCount(x.stops);
  }

  lemma OneStopCount(stops: seq<StopCall>)
    requires |stops| == 1
    ensures OkCount(stops) == if stops[0].pc.StopOk? then 1 else 0
  {
    assert stops[..|stops| - 1] == [];
  }

  // From wherever the worker is, a lone stop returns nil within eight steps as
  // long as the Run in progress ends: no timeout is forced on it.
  lemma {:induction false} LoneStopCanSucceed(x: Instance) returns (run: seq<Action>)
    requires Inv(x) && |x.stops| == 1 && !x.stops[0].pc.TimedOut?
    ensures Legal(x, run) && |run| <= 8
    ensures |run| <= StopRank(x.stops[0].pc) + WorkerRank(x.worker)
    ensures forall a | a in run :: !a.CallStop? && !a.Expire? && !a.GiveUp?
    ensures AtStop(Run(x, run), 0, StopOk) && Run(x, run).worker.Exited?
    decreases StopRank(x.stops[0].pc) + WorkerRank(x.worker)
  {
    if x.stops[0].pc.StopOk? {
      OkCountPositive(x.stops, 0);
      run := [];
    } else {
      var a := NextStep(x);
      NextStepProgress(x);
      StepInv(x, a);
      var rest := LoneStopCanSucceed(Apply(x, a));
      run := [a] + rest;
      assert run[0] == a && run[1..] == rest;
    }
  }

  // ---- A whole stop call, as its caller sees it ----

  // One stop call made and finished, with any steps of the worker in between.
  predicate StopSchedule(x: Instance, run: seq<Action>) {
    && Legal(x, run)
    && |Run(x, run).stops| == |x.stops| + 1
    && Run(x, run).stops[|x.stops|].pc in {StopOk, TimedOut}
  }

  ghost predicate StoppedTo(x: Instance, x': Instance) {
    exists run :: StopSchedule(x, run) && x' == Run(x, run)
  }

  // The steps of a stop up to its first look at the channel.
  lemma StopBegins(x: Instance) returns (x4: Instance)
    requires x.stops == []
    ensures Legal(x, STOP_BEGINS) && x4 == Run(x, STOP_BEGINS)
    ensures |x4.stops| == 1 && x4.stops[0].pc == if x.channel > 0 then StopOk else Selecting
  {
    var x1 := Apply(x, CallStop);
    var x2 := Apply(x1, StoreFlag(0));
    var x3 := Apply(x2, Cancel(0));
    x4 := Apply(x3, FirstSelect(0));
    var run := STOP_BEGINS;
    assert run[1..] == [StoreFlag(0), Cancel(0), FirstSelect(0)];
    assert run[1..][1..] == [Cancel(0), FirstSelect(0)];
    assert run[1..][1..][1..] == [FirstSelect(0)];
    assert run[1..][1..][1..][1..] == [];
    assert Legal(x3, [FirstSelect(0)]) && Run(x3, [FirstSelect(0)]) == x4;
    assert Legal(x2, run[1..][1..]) && Run(x2, run[1..][1..]) == x4;
    assert Legal(x1, run[1..]) && Run(x1, run[1..]) == x4;
  }

  const STOP_BEGINS := [CallStop, StoreFlag(0), Cancel(0), FirstSelect(0)]

  lemma GiveUpRun(x: Instance)
    requires AtStop(x, 0, Selecting)
    ensures var run := [Expire(0), GiveUp(0)];
            Legal(x, run) && Run(x, run).stops == x.stops[0 := StopCall(TimedOut, true)]
  {
    var x1 := Apply(x, Expire(0));
    var x2 := Apply(x1, GiveUp(0));
    var run := [Expire(0), GiveUp(0)];
    assert run[1..] == [GiveUp(0)] && run[1..][1..] == [];
    assert Legal(x2, []) && Run(x2, []) == x2;
    assert Legal(x1, run[1..]) && Run(x1, run[1..]) == x2;
  }

  // A stop that is given up at once is always possible.
  lemma StopScheduleExists(x: Instance)
    requires x.stops == []
    ensures exists run :: StopSchedule(x, run)
  {
    var x4 := StopBegins(x);
    if x4.stops[0].pc.StopOk? {
      assert StopSchedule(x, STOP_BEGINS);
    } else {
      var x' := StopCanTimeOut(x);
    }
  }

  // Nothing is on the channel of a worker that nobody has stopped.
  lemma NothingSent(x: Instance)
    requires Inv(x) && x.stops == []
    ensures x.channel == 0
  {
  }

  // With nothing on the channel, a stop may also give up.
  lemma StopCanTimeOut(x: Instance) returns (x': Instance)
    requires x.stops == [] && x.channel == 0
    ensures StoppedTo(x, x') && |x'.stops| == 1 && x'.stops[0].pc == TimedOut
  {
    var x4 := StopBegins(x);
    GiveUpRun(x4);
    var run := STOP_BEGINS + [Expire(0), GiveUp(0)];
    RunAppend(x, STOP_BEGINS, [Expire(0), GiveUp(0)]);
    x' := Run(x, run);
    assert StopSchedule(x, run);
  }

  lemma {:induction false} RunAppend(x: Instance, a: seq<Action>, b: seq<Action>)
    requires Legal(x, a) && Legal(Run(x, a), b)
    ensures Legal(x, a + b) && Run(x, a + b) == Run(Run(x, a), b)
    decreases |a|
  {
    if a == [] {
      assert a + b == b;
    } else {
      RunAppend(Apply(x, a[0]), a[1..], b);
      assert (a + b)[1..] == a[1..] + b;
    }
  }

  // What a finished stop leaves: the worker gone, or a timeout on record.
  lemma StoppedOutcome(x: Instance, x': Instance)
    requires Inv(x) && x.stops == [] && StoppedTo(x, x')
    ensures Inv(x') && |x'.stops| == 1
    ensures (x'.stops[0].pc == StopOk && x'.worker.Exited?) || x'.stops[0].pc == TimedOut
  {
    var run :| StopSchedule(x, run) && x' == Run(x, run);
    RunInv(x, run);
    if x'.stops[0].pc.StopOk? { OkCountPositive(x'.stops, 0); }
  }

  predicate WorkerAction(a: Action) {
    a.BeginRun? || a.EndRun? || a.LoadFlag? || a.Send?
  }

  // Left alone, a worker keeps its record of stops, and once gone stays gone.
  lemma {:induction false} WorkerRunsOn(x: Instance, run: seq<Action>)
    requires Inv(x) && Legal(x, run) && forall a | a in run :: WorkerAction(a)
    ensures Inv(Run(x, run)) && Run(x, run).stops == x.stops
    ensures x.worker.Exited? ==> Run(x, run).worker.Exited?
    decreases |run|
  {
    if run != [] {
      assert run[0] in run && WorkerAction(run[0]);
      StepInv(x, run[0]);
      WorkerRunsOn(Apply(x, run[0]), run[1..]);
    }
  }

  predicate WorkerRun(x: Instance, run: seq<Action>) {
    Legal(x, run) && forall a | a in run :: WorkerAction(a)
  }

  // The worker has gone on by itself, or not at all.
  ghost predicate RanOn(x: Instance, x': Instance) {
    exists run :: WorkerRun(x, run) && x' == Run(x, run)
  }

  // Whatever step of its own a worker can take is going on by itself.
  lemma OwnStep(x: Instance, a: Action)
    requires Enabled(x, a) && (a == BeginRun || a == EndRun || a == LoadFlag || a == Send)
    ensures RanOn(x, Apply(x, a))
  {
    var x' := Apply(x, a);
    assert [a][0] == a && [a][1..] == [] && Legal(x', []) && Run(x', []) == x';
    assert WorkerRun(x, [a]) && Run(x, [a]) == x';
  }

  lemma RanOnKeeps(x: Instance, x': Instance)
    requires Inv(x) && RanOn(x, x')
    ensures Inv(x') && x'.stops == x.stops && (x.worker.Exited? ==> x'.worker.Exited?)
  {
    var run :| WorkerRun(x, run) && x' == Run(x, run);
    WorkerRunsOn(x, run);
  }

  lemma StaysPut(x: Instance)
    ensures RanOn(x, x)
  {
    assert WorkerRun(x, []) && Run(x, []) == x;
  }

  lemma RanOnTwice(x: Instance, y: Instance, z: Instance)
    requires RanOn(x, y) && RanOn(y, z)
    ensures RanOn(x, z)
  {
    var a :| WorkerRun(x, a) && y == Run(x, a);
    var b :| WorkerRun(y, b) && z == Run(y, b);
    RunAppend(x, a, b);
    assert WorkerRun(x, a + b);
  }

  // Steps of the worker before and after a stop belong to its schedule.
  lemma RanOnThenStopped(x: Instance, y: Instance, z: Instance)
    requires Inv(x) && RanOn(x, y) && StoppedTo(y, z)
    ensures StoppedTo(x, z)
  {
    RanOnKeeps(x, y);
    var a :| WorkerRun(x, a) && y == Run(x, a);
    var b :| StopSchedule(y, b) && z == Run(y, b);
    RunAppend(x, a, b);
    assert StopSchedule(x, a + b);
  }

  lemma StoppedThenRanOn(x: Instance, y: Instance, z: Instance)
    requires Inv(x) && StoppedTo(x, y) && RanOn(y, z)
    ensures StoppedTo(x, z)
  {
    var a :| StopSchedule(x, a) && y == Run(x, a);
    RunInv(x, a);
    RanOnKeeps(y, z);
    var b :| WorkerRun(y, b) && z == Run(y, b);
    RunAppend(x, a, b);
    assert StopSchedule(x, a + b);
  }
}
