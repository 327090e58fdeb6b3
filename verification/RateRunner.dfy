// The rate runner: tasks with their limiter, statistics and scaler, and the
// control loop that sizes their pools.
module RateRunner {
  import opened Durations
  import opened Wrappers
  import opened Scaling
  import opened TaskPool
  import opened Statistics
  import RateLimit

  function LimiterSpec(rate: Rate): RateLimit.Spec {
    RateLimit.Spec(rate.times, rate.per)
  }

  datatype OptionsError = ZeroPer

  // What one turn of a worker meets: whether Acquire lets it through, and how the
  // task function then does.
  datatype Turn = Turn(acquired: bool, failed: bool, duration: nat, end: int)

  // The durations of the runs that succeeded.
  function Timings(turns: seq<Turn>): seq<Observation> {
    if turns == [] then []
    else
      var last := turns[|turns| - 1];
      Timings(turns[..|turns| - 1]) + if last.failed then [] else [Observation(last.duration, last.end)]
  }

  // The runs before turn k that succeeded.
  function Measured(turns: seq<Turn>, k: nat): nat
    requires k <= |turns|
  {
    if k == 0 then 0 else Measured(turns, k - 1) + if turns[k - 1].failed then 0 else 1
  }

  // Each run that succeeded is recorded, with its duration and end, behind the
  // earlier ones, and nothing else is.
  lemma {:induction false} TimingsAt(turns: seq<Turn>, k: nat)
    requires k < |turns|
    ensures |Timings(turns)| == Measured(turns, |turns|)
    ensures !turns[k].failed ==>
              && Measured(turns, k) < |Timings(turns)|
              && Timings(turns)[Measured(turns, k)] == Observation(turns[k].duration, turns[k].end)
  {
    var n := |turns| - 1;
    var front := turns[..n];
    MeasuredPrefix(turns, n, n);
    if n > 0 {
      TimingsAt(front, if k < n then k else 0);
      if k < n { MeasuredPrefix(turns, n, k); }
    }
  }

  lemma {:induction false} MeasuredPrefix(turns: seq<Turn>, n: nat, k: nat)
    requires k <= n <= |turns|
    ensures Measured(turns[..n], k) == Measured(turns, k)
  {
    if k > 0 { MeasuredPrefix(turns, n, k - 1); }
  }

  ghost predicate InOrder(turns: seq<Turn>, clock: int) {
    && (forall k | 0 <= k < |turns| :: clock <= turns[k].end)
    && (forall j, k | 0 <= j < k < |turns| :: turns[j].end <= turns[k].end)
  }

  class TaskSpec {
    const id: string
    const limiter: RateLimit.Limiter
    const stat: Percentile
    var runOptions: RunOptions
    var currentInstances: nat

    // The limiter runs at the rate the scaler counts with.
    ghost predicate RatesAgree()
      reads this, limiter
    {
      && runOptions.rate.per > 0
      && limiter.spec.times == runOptions.rate.times && limiter.spec.per == runOptions.rate.per
    }

    // Its parts carry its name, so tasks of different names share none.
    ghost predicate Labelled(id: string) {
      this.id == id && limiter.taskId == id && stat.owner == id
    }

    ghost predicate Valid(id: string)
      reads this, limiter, stat
    {
      Labelled(id) && RatesAgree() && stat.Valid()
    }

    constructor (id: string, now: int)
      ensures Valid(id) && runOptions == RunOptions(ZERO_RATE, 0) && currentInstances == 0
      ensures limiter.View() == RateLimit.Init(LimiterSpec(ZERO_RATE), now as real)
      ensures limiter.rl == None && RateLimit.Reachable(limiter.View())
      ensures runOptions.rate.times == 0 && runOptions.rate.per == 1_000_000_000
      ensures stat.clock == now && stat.history == [] && stat.p == 0.95 && stat.window == 60_000_000_000
      ensures fresh(limiter) && fresh(stat)
    {
      this.id := id;
      limiter := new RateLimit.Limiter(id, LimiterSpec(ZERO_RATE), now as real);
      stat := new Percentile(0.95, 60 * SECOND, now, id);
      runOptions, currentInstances := RunOptions(ZERO_RATE, 0), 0;
      RateLimit.InitReachable(LimiterSpec(ZERO_RATE), now as real);
    }

    // The handle's SetOptions: limiter first, then the options.
    method SetOptions(options: RunOptions) returns (r: Outcome<OptionsError>)
      modifies this`runOptions, limiter
      ensures r.Pass? || old(RatesAgree()) ==> RatesAgree()
      ensures r == if options.rate.per == 0 then Fail(ZeroPer) else Pass
      ensures r.Fail? ==> runOptions == old(runOptions) && limiter.View() == old(limiter.View())
      ensures r.Pass? ==>
                && runOptions == options
                && limiter.spec.times == options.rate.times && limiter.spec.per == options.rate.per
                && limiter.View() == RateLimit.ApplySetSpec(old(limiter.View()), LimiterSpec(options.rate))
    {
      if options.rate.per == 0 { return Fail(ZeroPer); }
      limiter.SetSpec(LimiterSpec(options.rate));
      runOptions := options;
      return Pass;
    }

    // What agreement is for: as long as only these options are set, no window of
    // the options' period holds more grants than the options' count.
    lemma OptionsBoundTheGrants(run: seq<RateLimit.Action>, ids: set<nat>, t: real)
      requires RatesAgree() && runOptions.rate.times > 0 && RateLimit.Reachable(limiter.View())
      requires RateLimit.Legal(limiter.View(), run)
      requires RateLimit.AsksOnly(run, iset{RateLimit.Spec(runOptions.rate.times, runOptions.rate.per)})
      requires forall i | i in ids :: RateLimit.NotOlder(limiter.View(), i)
      requires RateLimit.AllGranted(RateLimit.Run(limiter.View(), run), ids, t, runOptions.rate.per as real)
      ensures |ids| <= runOptions.rate.times
    {
      RateLimit.WindowBound(limiter.View(), run, ids, t);
    }

    // The measured duration the sizing works with: the statistic, or a second.
    ghost predicate MeasuredDuration(now: int, d: nat)
      reads stat
    {
      exists k: nat ::
        && KeptFrom(stat.history, now, stat.window, k)
        && if |stat.history| - k <= 1 then d == 1_000_000_000
           else CoversFraction(Values(stat.history[k..|stat.history| - 1]), stat.p, d)
    }

    method NeededInstances(now: int) returns (needed: nat, ghost duration: nat)
      requires runOptions.rate.per > 0 && stat.Valid() && stat.clock <= now
      modifies stat
      ensures stat.Valid() && stat.clock == now && stat.history == old(stat.history)
      ensures MeasuredDuration(now, duration) && needed == Needed(runOptions.rate, duration)
    {
      var d := SECOND;
      var reading, kept := stat.GetStat(now);
      if reading.Some? { d := reading.value; }
      duration := d;
      needed := Needed(runOptions.rate, d);
    }

    // One worker: a call of the task function for each Acquire that succeeds, up
    // to the first that does not, and a measurement for each call without error.
    method Work(turns: seq<Turn>) returns (calls: nat)
      requires stat.Valid() && InOrder(turns, stat.clock)
      modifies stat
      ensures stat.Valid() && calls <= |turns|
      ensures forall k | 0 <= k < calls :: turns[k].acquired
      ensures calls < |turns| ==> !turns[calls].acquired
      ensures stat.history == old(stat.history) + Timings(turns[..calls])
    {
      calls := 0;
      while calls < |turns| && turns[calls].acquired
        invariant stat.Valid() && calls <= |turns|
        invariant forall k | calls <= k < |turns| :: stat.clock <= turns[k].end
        invariant forall k | 0 <= k < calls :: turns[k].acquired
        invariant stat.history == old(stat.history) + Timings(turns[..calls])
      {
        var turn := turns[calls];
        assert turns[..calls + 1][..calls] == turns[..calls];
        if !turn.failed {
          stat.Append(turn.duration, turn.end);
        }
        calls := calls + 1;
      }
    }
  }

  // A number as it is printed.
  function Decimal(n: nat): string {
    if n < 10 then [DIGITS[n]] else Decimal(n / 10) + [DIGITS[n % 10]]
  }

  const DIGITS := "0123456789"

  // What a printed number stands for.
  function ValueOf(s: string): int {
    if s == [] then 0 else ValueOf(s[..|s| - 1]) * 10 + (s[|s| - 1] as int - '0' as int)
  }

  lemma {:induction false} DecimalValue(n: nat)
    ensures ValueOf(Decimal(n)) == n
  {
    var s := Decimal(n);
    if n >= 10 {
      DecimalValue(n / 10);
      assert s[..|s| - 1] == Decimal(n / 10);
    } else {
      assert s[..0] == [];
    }
  }

  function GeneratedID(count: nat): string {
    "task-" + Decimal(count)
  }

  // No two generated ids are the same.
  lemma GeneratedIDsDiffer(m: nat, n: nat)
    requires m != n
    ensures GeneratedID(m) != GeneratedID(n)
  {
    assert GeneratedID(m)[5..] == Decimal(m) && GeneratedID(n)[5..] == Decimal(n);
    DecimalValue(m);
    DecimalValue(n);
  }

  class RateRunner {
    const tr: TaskRunner
    var tasks: map<string, TaskSpec>
    var idCounter: nat

    // Every task has its pool.
    ghost predicate Valid()
      reads this, tr, tr.states
    {
      tr.Valid() && tasks.Keys == tr.taskIDToState.Keys
    }

    constructor ()
      ensures Valid() && tasks == map[] && idCounter == 0 && fresh(tr)
    {
      tr := new TaskRunner();
      tasks, idCounter := map[], 0;
    }

    ghost function Scaler(id: string): Scaler
      requires id in tasks && id in tr.taskIDToState
      reads this, tr, tasks[id], tr.taskIDToState[id]
    {
      Scaling.Scaler(tasks[id].currentInstances, tr.taskIDToState[id].View())
    }

    // A new task starts at the zero rate with a nil bucket and no workers, under
    // the given id or a generated one.
    method RegisterTask(given: Option<string>, now: int) returns (r: Option<TaskSpec>)
      requires Valid()
      modifies this, tr
      ensures Valid() && idCounter == old(idCounter) + if given.None? then 1 else 0
      ensures var id := if given.Some? then given.value else "task-" + Decimal(idCounter);
              && (r.None? <==> id in old(tasks))
              && (r.None? ==> tasks == old(tasks))
              && (r.Some? ==>
                    && tasks == old(tasks)[id := r.value] && fresh(r.value)
                    && r.value.Valid(id) && r.value.runOptions == RunOptions(ZERO_RATE, 0)
                    && r.value.limiter.rl == None && RateLimit.Reachable(r.value.limiter.View())
                    && r.value.stat.p == 0.95 && r.value.stat.window == 60_000_000_000
                    && Scaler(id) == Scaling.Scaler(0, EMPTY))
    {
      hide Conserved, TaskSpec.RatesAgree, Percentile.Valid, Decimal, RateLimit.Reachable, RateLimit.Init;
      if given.None? { idCounter := idCounter + 1; }
      var id := if given.Some? then given.value else GeneratedID(idCounter);
      if id in tasks { return None; }
      var spec := new TaskSpec(id, now);
      var registered := tr.RegisterTask(id);
      tasks := tasks[id := spec];
      return Some(spec);
    }

    // The locked section of the loop: resize unless the count already fits.
    method Resize(id: string, task: TaskSpec, needed: nat)
      requires Valid() && id in tasks && tasks[id] == task
      modifies task`currentInstances, tr.taskIDToState[id]
      ensures Valid() && Ticked(old(Scaler(id)), Scaler(id), needed)
    {
      if needed == task.currentInstances {
        return;
      }
      var r := tr.UpdateTaskInstances(id, needed);
      if r.Fail? {
        return;
      }
      task.currentInstances := needed;
    }

    // One pass of the control loop over one task.
    method Adjust(id: string, task: TaskSpec, now: int) returns (ghost duration: nat)
      requires Valid() && id in tasks && tasks[id] == task
      requires task.runOptions.rate.per > 0 && task.stat.Valid() && task.stat.clock <= now
      modifies task`currentInstances, task.stat, tr.taskIDToState[id]
      ensures Valid()
      ensures task.stat.Valid() && task.stat.clock == now && task.stat.history == old(task.stat.history)
      ensures task.MeasuredDuration(now, duration)
      ensures Ticked(old(Scaler(id)), Scaler(id), Target(task.runOptions, duration))
    {
      var needed;
      needed, duration := task.NeededInstances(now);
      if task.runOptions.maxGoroutines > 0 && needed > task.runOptions.maxGoroutines {
        needed := task.runOptions.maxGoroutines;
      }
      Resize(id, task, needed);
    }

    // A task the loop can adjust at `now`.
    ghost predicate Ready(id: string, now: int)
      requires id in tasks
      reads this, tasks[id], tasks[id].limiter, tasks[id].stat
    {
      tasks[id].Valid(id) && tasks[id].stat.clock <= now
    }

    // The task took one tick from `start` at its measured duration.
    ghost predicate TickedFrom(id: string, now: int, start: Scaler, duration: nat)
      requires id in tasks && id in tr.taskIDToState && tasks[id].runOptions.rate.per > 0
      reads this, tr, tasks[id], tr.taskIDToState[id], tasks[id].stat
    {
      && tasks[id].MeasuredDuration(now, duration)
      && Ticked(start, Scaler(id), Target(tasks[id].runOptions, duration))
    }

    // Midway through a pass: still to come, or done.
    ghost predicate Midway(id: string, now: int, start: Scaler, done: bool, duration: nat)
      requires id in tasks && id in tr.taskIDToState
      reads this, tr, tasks[id], tasks[id].limiter, tasks[id].stat, tr.taskIDToState[id]
    {
      && Ready(id, now)
      && if done then TickedFrom(id, now, start, duration) else Scaler(id) == start
    }

    ghost function Scalers(): map<string, Scaler>
      requires Valid()
      reads this, tr, tasks.Values, tr.states
    {
      map id | id in tasks :: Scaler(id)
    }

    // One pass of the control loop over all tasks, in any order.
    method Pass(now: int, ghost specs: set<TaskSpec>, ghost stats: set<Percentile>)
      returns (ghost durations: map<string, nat>)
      requires Valid() && forall id | id in tasks :: Ready(id, now)
      requires forall id | id in tasks :: tasks[id] in specs && tasks[id].stat in stats
      modifies specs`currentInstances, tr.states, stats
      ensures Valid() && forall id | id in tasks :: id in durations
      ensures forall id | id in tasks :: Ready(id, now) && TickedFrom(id, now, old(Scalers())[id], durations[id])
    {
      hide Conserved, Ticked, IsQuantile, InWindow, Target, TaskSpec.MeasuredDuration, Percentile.Valid;
      ghost var start := Scalers();
      durations := Walk(now, start, specs, stats);
      forall id | id in tasks ensures Ready(id, now) && TickedFrom(id, now, start[id], durations[id]) {
        assert Midway(id, now, start[id], true, durations[id]);
      }
    }

    method Walk(now: int, ghost start: map<string, Scaler>, ghost specs: set<TaskSpec>, ghost stats: set<Percentile>)
      returns (ghost durations: map<string, nat>)
      requires Valid() && tasks.Keys == tr.taskIDToState.Keys == start.Keys
      requires forall id | id in tasks ::
                 tasks[id] in specs && tasks[id].stat in stats && tr.taskIDToState[id] in tr.states
      requires forall id | id in tasks :: Midway(id, now, start[id], false, 0)
      modifies specs`currentInstances, tr.states, stats
      ensures Valid() && forall id | id in tasks :: id in durations
      ensures forall id | id in tasks :: Midway(id, now, start[id], true, durations[id])
    {
      hide *;
      durations := map id | id in tasks :: 0;
      var left := tasks.Keys;
      while left != {}
        invariant Valid()
        invariant forall a | a in left :: a in tasks
        invariant forall a | a in tasks :: a in durations
        invariant forall id | id in tasks :: Midway(id, now, start[id], id !in left, durations[id])
        decreases left
      {
        var id :| id in left;
        ghost var d := PassOne(id, tasks[id], now, left, start, durations);
        durations := durations[id := d];
        left := left - {id};
      }
    }

    method PassOne(id: string, task: TaskSpec, now: int, ghost left: set<string>, ghost start: map<string, Scaler>,
                   ghost durations: map<string, nat>)
      returns (ghost duration: nat)
      requires Valid() && id in left && id in tasks && tasks[id] == task
      requires start.Keys == tasks.Keys == tr.taskIDToState.Keys && forall a | a in tasks :: a in durations
      requires forall a | a in tasks :: Midway(a, now, start[a], a !in left, durations[a])
      modifies task`currentInstances, task.stat, tr.taskIDToState[id]
      ensures Valid()
      ensures forall a | a in tasks :: Midway(a, now, start[a], a !in left - {id}, durations[id := duration][a])
    {
      hide *;
      assert Midway(id, now, start[id], false, durations[id]);
      ReadyFrom(id, now, start[id], durations[id]);
      LabelledFrom(id, now, start[id], false, durations[id]);
      forall a | a in tasks && a != id
        ensures tasks[a] != task && tasks[a].stat != task.stat && tr.taskIDToState[a] != tr.taskIDToState[id]
      {
        assert Midway(a, now, start[a], a !in left, durations[a]);
        LabelledFrom(a, now, start[a], a !in left, durations[a]);
        SharesNothing(a, id);
      }
      label before:
      duration := AdjustReady(id, task, now);
      DoneFrom(id, now, start[id], duration);
      forall a | a in tasks && a != id ensures Midway(a, now, start[a], a !in left, durations[a]) {
        assert old@before(Midway(a, now, start[a], a !in left, durations[a]));
      }
    }

    lemma ReadyFrom(id: string, now: int, start: Scaler, duration: nat)
      requires Valid() && id in tasks && Midway(id, now, start, false, duration)
      ensures Ready(id, now) && Scaler(id) == start
    {
    }

    lemma LabelledFrom(id: string, now: int, start: Scaler, done: bool, duration: nat)
      requires Valid() && id in tasks && Midway(id, now, start, done, duration)
      ensures tasks[id].Labelled(id)
    {
    }

    lemma DoneFrom(id: string, now: int, start: Scaler, duration: nat)
      requires Valid() && id in tasks && Ready(id, now) && TickedFrom(id, now, start, duration)
      ensures Midway(id, now, start, true, duration)
    {
    }

    // Names keep the parts of two tasks apart.
    lemma SharesNothing(a: string, b: string)
      requires Valid() && a in tasks && b in tasks && a != b
      requires tasks[a].Labelled(a) && tasks[b].Labelled(b)
      ensures tasks[a] != tasks[b] && tasks[a].stat != tasks[b].stat
      ensures tr.taskIDToState[a] != tr.taskIDToState[b]
    {
    }

    method AdjustReady(id: string, task: TaskSpec, now: int) returns (ghost duration: nat)
      requires Valid() && id in tasks && tasks[id] == task && Ready(id, now)
      modifies task`currentInstances, task.stat, tr.taskIDToState[id]
      ensures Valid() && Ready(id, now) && TickedFrom(id, now, old(Scaler(id)), duration)
    {
      duration := Adjust(id, task, now);
    }
  }
}
