// The pool of worker instances of each registered task.
module TaskPool {
  import opened Wrappers
  import opened Handshake

  // `workers` holds every instance the task ever started, by id; `instances`
  // lists the ids in the pool.
  datatype Pool = Pool(workers: seq<Instance>, instances: seq<nat>)

  const EMPTY := Pool([], [])

  function FreshIds(first: nat, count: nat): (r: seq<nat>)
    ensures |r| == count && forall k | 0 <= k < count :: r[k] == first + k
  {
    if count == 0 then [] else FreshIds(first, count - 1) + [first + count - 1]
  }

  function FreshWorkers(count: nat): (r: seq<Instance>)
    ensures |r| == count && forall k | 0 <= k < count :: r[k] == FRESH
  {
    if count == 0 then [] else FreshWorkers(count - 1) + [FRESH]
  }

  ghost predicate Grown(p: Pool, p': Pool, target: nat)
    requires |p.instances| <= target
  {
    var toAdd := target - |p.instances|;
    && p'.instances == p.instances + FreshIds(|p.workers|, toAdd)
    && p'.workers == p.workers + FreshWorkers(toAdd)
  }

  ghost predicate Shrunk(p: Pool, p': Pool, target: nat)
    requires target <= |p.instances|
  {
    && p'.instances == p.instances[..target]
    && |p'.workers| == |p.workers|
    && forall i | 0 <= i < |p.workers| ::
         if i in p.instances[target..] then StoppedTo(p.workers[i], p'.workers[i])
         else RanOn(p.workers[i], p'.workers[i])
  }

  // One resize: growing starts fresh instances behind the old ones, shrinking
  // stops exactly the tail, each instance by one stop call, while all the other
  // workers run on.
  ghost predicate Resized(p: Pool, p': Pool, target: nat) {
    if |p.instances| <= target then Grown(p, p', target) else Shrunk(p, p', target)
  }

  // A worker goes on by itself.
  ghost predicate Progressed(p: Pool, p': Pool, i: nat, run: seq<Action>) {
    && i < |p.workers| && WorkerRun(p.workers[i], run)
    && p' == p.(workers := p.workers[i := Run(p.workers[i], run)])
  }

  ghost predicate Step(p: Pool, p': Pool) {
    (exists target :: Resized(p, p', target)) || (exists i, run :: Progressed(p, p', i, run))
  }

  // Resizes to any count and steps of any worker are all steps of the pool.
  lemma PoolSteps(p: Pool, p': Pool, target: nat, i: nat, a: Action)
    requires i < |p.workers| && Enabled(p.workers[i], a)
    requires a == BeginRun || a == EndRun || a == LoadFlag || a == Send
    ensures Resized(p, p', target) ==> Step(p, p')
    ensures Step(p, p.(workers := p.workers[i := Apply(p.workers[i], a)]))
  {
    var x := p.workers[i];
    OwnStep(x, a);
    var run :| WorkerRun(x, run) && Apply(x, a) == Run(x, run);
    assert Progressed(p, p.(workers := p.workers[i := Apply(x, a)]), i, run);
  }

  // ---- Conservation ----

  // Where a worker ever started can be: in the pool and never stopped, or outside
  // and stopped exactly once, gone or with that stop timed out.
  ghost predicate Accounted(p: Pool, i: nat)
    requires i < |p.workers|
  {
    var x := p.workers[i];
    && Inv(x)
    && if i in p.instances then x.stops == []
       else |x.stops| == 1 && (x.worker.Exited? || x.stops[0].pc == TimedOut)
  }

  ghost predicate Ordered(p: Pool) {
    && (forall k | 0 <= k < |p.instances| :: p.instances[k] < |p.workers|)
    && (forall j, k | 0 <= j < k < |p.instances| :: p.instances[j] < p.instances[k])
  }

  ghost predicate Conserved(p: Pool) {
    Ordered(p) && forall i | 0 <= i < |p.workers| :: Accounted(p, i)
  }

  lemma GrowConserved(p: Pool, p': Pool, target: nat)
    requires Conserved(p) && |p.instances| <= target && Grown(p, p', target)
    ensures Conserved(p')
  {
    var n := |p.workers|;
    forall i | 0 <= i < |p'.workers| ensures Accounted(p', i) {
      if i < n {
        assert Accounted(p, i);
        assert i !in FreshIds(n, target - |p.instances|);
      } else {
        assert p'.instances[|p.instances| + (i - n)] == i;
      }
    }
  }

  lemma ShrinkConserved(p: Pool, p': Pool, target: nat)
    requires Conserved(p) && target <= |p.instances| && Shrunk(p, p', target)
    ensures Conserved(p')
  {
    var all := p.instances;
    assert all == all[..target] + all[target..];
    forall i | 0 <= i < |p'.workers| ensures Accounted(p', i) {
      assert Accounted(p, i);
      if i in all[target..] {
        assert i in all && i !in all[..target];
        StoppedOutcome(p.workers[i], p'.workers[i]);
      } else {
        RanOnKeeps(p.workers[i], p'.workers[i]);
      }
    }
  }

  lemma ResizeKeepsConserved(p: Pool, p': Pool, target: nat)
    requires Conserved(p) && Resized(p, p', target)
    ensures Conserved(p')
  {
    if |p.instances| <= target { GrowConserved(p, p', target); } else { ShrinkConserved(p, p', target); }
  }

  lemma ProgressConserved(p: Pool, p': Pool, i: nat, run: seq<Action>)
    requires Conserved(p) && Progressed(p, p', i, run)
    ensures Conserved(p')
  {
    assert Accounted(p, i);
    WorkerRunsOn(p.workers[i], run);
    forall j | 0 <= j < |p'.workers| ensures Accounted(p', j) {
      assert Accounted(p, j);
    }
  }

  lemma StepConserved(p: Pool, p': Pool)
    requires Conserved(p) && Step(p, p')
    ensures Conserved(p')
  {
    if target :| Resized(p, p', target) {
      ResizeKeepsConserved(p, p', target);
    } else {
      var i, run :| Progressed(p, p', i, run);
      ProgressConserved(p, p', i, run);
    }
  }

  // Main result: over any run of resizes and worker steps from the empty pool,
  // every worker ever started is in the pool, gone, or behind a stop that timed out.
  lemma {:induction false} RunConserved(states: seq<Pool>, k: nat)
    requires k < |states| && states[0] == EMPTY
    requires forall j | 0 <= j < |states| - 1 :: Step(states[j], states[j + 1])
    ensures Conserved(states[k])
  {
    if k > 0 {
      RunConserved(states, k - 1);
      assert Step(states[k - 1], states[k - 1 + 1]);
      StepConserved(states[k - 1], states[k]);
    }
  }

  // A resize leaves the requested length and the common prefix in order.
  lemma ResizeLength(p: Pool, p': Pool, target: nat)
    requires Resized(p, p', target)
    ensures |p'.instances| == target
    ensures p.instances <= p'.instances || p'.instances <= p.instances
  {
  }

  // It stops what it removes exactly once, and nothing else.
  lemma ResizeStopsOnce(p: Pool, p': Pool, target: nat, i: nat)
    requires Conserved(p) && Resized(p, p', target) && i < |p.workers|
    ensures i < |p'.workers|
    ensures |p'.workers[i].stops| ==
            |p.workers[i].stops| + if i in p.instances && i !in p'.instances then 1 else 0
  {
    ResizeKeepsConserved(p, p', target);
    assert Accounted(p, i) && Accounted(p', i);
    if target < |p.instances| {
      assert p.instances == p.instances[..target] + p.instances[target..];
    }
  }

  // ---- The runner object ----

  // Panicked is the index out of range after a negative target emptied the pool.
  datatype UpdateError = NotFound | AlreadyExists | StopsFailed(failed: nat, of: nat) | Panicked

  // How many of the given instances have a stop on record that timed out.
  function TimedOuts(workers: seq<Instance>, ids: seq<nat>): nat {
    if ids == [] then 0
    else
      TimedOuts(workers, ids[1..]) +
      if ids[0] < |workers| && workers[ids[0]].stops != [] && workers[ids[0]].stops[0].pc.TimedOut? then 1 else 0
  }

  // What each worker does by itself.
  predicate WorkerRuns(workers: seq<Instance>, runs: seq<seq<Action>>) {
    |runs| == |workers| && forall i | 0 <= i < |workers| :: WorkerRun(workers[i], runs[i])
  }

  lemma WorkerRunsExist(workers: seq<Instance>)
    ensures exists runs :: WorkerRuns(workers, runs)
  {
    var runs: seq<seq<Action>> := seq(|workers|, i => []);
    assert WorkerRuns(workers, runs);
  }

  function Floor(target: int): nat {
    if target < 0 then 0 else target
  }

  // What a resize answers.
  ghost function Answer(p: Pool, p': Pool, target: int): Outcome<UpdateError> {
    if target < 0 then Fail(Panicked)
    else if target < |p.instances| && TimedOuts(p'.workers, p.instances[target..]) > 0 then
      Fail(StopsFailed(TimedOuts(p'.workers, p.instances[target..]), |p.instances| - target))
    else Pass
  }

  class TaskState {
    ghost const name: string
    var workers: seq<Instance>
    var instances: seq<nat>

    ghost function View(): Pool
      reads this
    {
      Pool(workers, instances)
    }

    constructor (ghost name: string)
      ensures View() == EMPTY && this.name == name
    {
      this.name := name;
      workers, instances := [], [];
    }

    // Calls stop on one instance: some schedule of the handshake plays out, and the
    // other workers run on meanwhile.
    method StopInstance(id: nat) returns (timedOut: bool)
      requires Conserved(View()) && id in instances
      modifies this`workers
      ensures |workers| == |old(workers)|
      ensures forall i | 0 <= i < |workers| && i != id :: RanOn(old(workers)[i], workers[i])
      ensures StoppedTo(old(workers)[id], workers[id])
      ensures timedOut <==> workers[id].stops != [] && workers[id].stops[0].pc.TimedOut?
    {
      assert Accounted(View(), id);
      StopScheduleExists(workers[id]);
      var run: seq<Action> :| StopSchedule(workers[id], run);
      WorkerRunsExist(workers);
      var runs: seq<seq<Action>> :| WorkerRuns(workers, runs);
      var before := workers;
      workers := seq(|before|, i requires 0 <= i < |before| && WorkerRuns(before, runs) => Run(before[i], runs[i]));
      workers := workers[id := Run(before[id], run)];
      StoppedOutcome(old(workers)[id], workers[id]);
      timedOut := workers[id].stops[0].pc.TimedOut?;
    }

    method Grow(target: nat)
      requires |instances| <= target
      modifies this
      ensures Grown(old(View()), View(), target)
    {
      var toAdd := target - |instances|;
      for i := 0 to toAdd
        invariant instances == old(instances) + FreshIds(|old(workers)|, i)
        invariant workers == old(workers) + FreshWorkers(i)
      {
        instances := instances + [|workers|];
        workers := workers + [FRESH];
      }
    }

    // Stops the last instance and drops it from the pool, stopped or not.
    method StopLast() returns (timedOut: bool)
      requires Conserved(View()) && instances != []
      modifies this
      ensures Shrunk(old(View()), View(), |old(instances)| - 1) && Conserved(View())
      ensures timedOut <==> TimedOuts(workers, [old(instances)[|old(instances)| - 1]]) == 1
    {
      var last := |instances| - 1;
      var id := instances[last];
      timedOut := StopInstance(id);
      instances := instances[..last];
      assert old(instances)[last..] == [id] && [id][1..] == [];
      ShrinkConserved(old(View()), View(), last);
    }

    method Shrink(target: nat) returns (failed: nat)
      requires Conserved(View()) && target <= |instances|
      modifies this
      ensures Shrunk(old(View()), View(), target) && Conserved(View())
      ensures failed == TimedOuts(workers, old(instances)[target..])
    {
      var toStop := |instances| - target;
      failed := 0;
      NothingShrunk(View());
      for i := 0 to toStop
        invariant Conserved(View()) && |instances| == |old(instances)| - i
        invariant Shrunk(old(View()), View(), |instances|)
        invariant failed == TimedOuts(workers, old(instances)[|instances|..])
      {
        hide Conserved, StoppedTo, Shrunk;
        ghost var before := View();
        var timedOut := StopLast();
        if timedOut { failed := failed + 1; }
        ShrunkOnce(old(View()), before, View());
      }
    }

    // Brings the pool to `target`, whether or not every stop succeeds; below zero
    // it stops the whole pool and then runs out of it.
    method Update(target: int) returns (r: Outcome<UpdateError>)
      requires Conserved(View())
      modifies this
      ensures Resized(old(View()), View(), Floor(target)) && Conserved(View())
      ensures r == Answer(old(View()), View(), target)
    {
      hide Conserved, StoppedTo;
      if target < 0 {
        if instances == [] {
          assert instances + [] == instances && workers + [] == workers;
          return Fail(Panicked);
        }
        var failed := Shrink(0);
        return Fail(Panicked);
      }
      if |instances| == target {
        assert instances + [] == instances && workers + [] == workers;
        return Pass;
      }
      if |instances| < target {
        Grow(target);
        GrowConserved(old(View()), View(), target);
        return Pass;
      }
      var toStop := |instances| - target;
      var failed := Shrink(target);
      return if failed > 0 then Fail(StopsFailed(failed, toStop)) else Pass;
    }
  }

  lemma NothingShrunk(p: Pool)
    ensures Shrunk(p, p, |p.instances|)
  {
    assert p.instances[..|p.instances|] == p.instances;
    forall i | 0 <= i < |p.workers| ensures RanOn(p.workers[i], p.workers[i]) {
      StaysPut(p.workers[i]);
    }
  }

  // Shrinking by one more.
  lemma ShrunkOnce(p: Pool, q: Pool, r: Pool)
    requires Conserved(p) && q.instances != [] && |q.instances| <= |p.instances|
    requires Shrunk(p, q, |q.instances|) && Shrunk(q, r, |q.instances| - 1)
    ensures |r.instances| == |q.instances| - 1 && Shrunk(p, r, |r.instances|)
    ensures TimedOuts(r.workers, p.instances[|r.instances|..]) ==
            TimedOuts(q.workers, p.instances[|q.instances|..]) +
              if TimedOuts(r.workers, [q.instances[|q.instances| - 1]]) == 1 then 1 else 0
  {
    var last := |q.instances| - 1;
    var id := p.instances[last];
    var rest := p.instances[last + 1..];
    assert q.instances[last] == id && q.instances[last..] == [id];
    assert p.instances[last..] == [id] + rest;
    assert [id][1..] == [];
    ShrinkConserved(p, q, last + 1);
    forall i | 0 <= i < |p.workers|
      ensures if i in p.instances[last..] then StoppedTo(p.workers[i], r.workers[i])
              else RanOn(p.workers[i], r.workers[i])
      ensures i in rest ==> q.workers[i].stops == r.workers[i].stops
    {
      assert Accounted(p, i) && Accounted(q, i);
      if i in rest {
        assert i !in [id];
        RanOnKeeps(q.workers[i], r.workers[i]);
        StoppedThenRanOn(p.workers[i], q.workers[i], r.workers[i]);
      } else if i == id {
        RanOnThenStopped(p.workers[i], q.workers[i], r.workers[i]);
      } else {
        RanOnTwice(p.workers[i], q.workers[i], r.workers[i]);
      }
    }
    SameTimedOuts(q.workers, r.workers, rest);
  }

  lemma {:induction false} SameTimedOuts(before: seq<Instance>, after: seq<Instance>, ids: seq<nat>)
    requires |before| == |after| && forall i | i in ids && i < |before| :: before[i].stops == after[i].stops
    ensures TimedOuts(before, ids) == TimedOuts(after, ids)
  {
    if ids != [] { SameTimedOuts(before, after, ids[1..]); }
  }

  class TaskRunner {
    var taskIDToState: map<string, TaskState>
    ghost var states: set<TaskState>

    // Each task has its own state, and every pool is conserved.
    ghost predicate Valid()
      reads this, states
    {
      forall name | name in taskIDToState ::
        && taskIDToState[name] in states && taskIDToState[name].name == name
        && Conserved(taskIDToState[name].View())
    }

    constructor ()
      ensures Valid() && taskIDToState == map[] && states == {}
    {
      taskIDToState, states := map[], {};
    }

    method RegisterTask(name: string) returns (r: Outcome<UpdateError>)
      requires Valid()
      modifies this
      ensures Valid()
      ensures r == if name in old(taskIDToState) then Fail(AlreadyExists) else Pass
      ensures name in old(taskIDToState) ==> taskIDToState == old(taskIDToState)
      ensures name !in old(taskIDToState) ==>
                && name in taskIDToState && fresh(taskIDToState[name]) && taskIDToState[name].View() == EMPTY
                && taskIDToState == old(taskIDToState)[name := taskIDToState[name]]
                && states == old(states) + {taskIDToState[name]}
    {
      if name in taskIDToState { return Fail(AlreadyExists); }
      var state := new TaskState(name);
      taskIDToState, states := taskIDToState[name := state], states + {state};
      return Pass;
    }

    method UpdateTaskInstances(name: string, instances: int) returns (r: Outcome<UpdateError>)
      requires Valid()
      modifies if name in taskIDToState then {taskIDToState[name]} else {}
      ensures Valid() && taskIDToState == old(taskIDToState)
      ensures name !in taskIDToState ==> r == Fail(NotFound)
      ensures name in taskIDToState ==>
                var state := taskIDToState[name];
                && Resized(old(state.View()), state.View(), Floor(instances))
                && r == Answer(old(state.View()), state.View(), instances)
    {
      if name !in taskIDToState { return Fail(NotFound); }
      var state := taskIDToState[name];
      r := state.Update(instances);
    }
  }
}
