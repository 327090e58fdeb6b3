// The checker controller: pushing settings to the rate runner's tasks.
module Controller {
  import opened Wrappers
  import opened Settings
  import opened Normalize
  import opened Scaling
  import opened RateRunner
  import RateLimit

  datatype CheckerID = CheckerID(service: string, name: string)

  datatype SyncError = ProviderFailed | NoHandle(id: CheckerID) | BadOptions(id: CheckerID)

  // Validation only rules out zero; a negative period is outside this model.
  predicate PeriodsNotNegative(checkers: seq<Option<CheckerSettings>>) {
    forall j | 0 <= j < |checkers| && Rated(checkers[j]) ::
      checkers[j].value.runOptions.value.rate.value.per.value >= 0
  }

  ghost predicate RatesNotNegative(services: seq<Option<ServiceSettings>>) {
    forall i | 0 <= i < |services| && services[i].Some? :: PeriodsNotNegative(services[i].value.checkers)
  }

  function ToRate(rate: Option<ProtoRate>): Rate
    requires rate.Some? && rate.value.per.Some? ==> rate.value.per.value >= 0
  {
    if rate.None? then ZERO_RATE
    else Rate(rate.value.times, if rate.value.per.Some? then rate.value.per.value else 0)
  }

  // The options a settings message asks of one checker.
  ghost function Configured(services: seq<Option<ServiceSettings>>, id: CheckerID): RunOptions
    requires RatesNotNegative(services)
  {
    var table := ByName(services, ServiceName);
    if id.service !in table then RunOptions(ZERO_RATE, 0)
    else
      LookupIsListed(services, id.service);
      CheckerOptions(table[id.service].checkers, id.name)
  }

  ghost function CheckerOptions(checkers: seq<Option<CheckerSettings>>, name: string): RunOptions
    requires PeriodsNotNegative(checkers)
  {
    var table := ByName(checkers, CheckerName);
    if name !in table then RunOptions(ZERO_RATE, 0)
    else
      ByNameFinds(checkers, CheckerName, name);
      OptionsOf(table[name])
  }

  function OptionsOf(c: CheckerSettings): RunOptions
    requires Rated(Some(c)) ==> c.runOptions.value.rate.value.per.value >= 0
  {
    if c.runOptions.None? then RunOptions(ZERO_RATE, 0)
    else RunOptions(ToRate(c.runOptions.value.rate), c.runOptions.value.maxGoroutines)
  }

  lemma LookupIsListed(services: seq<Option<ServiceSettings>>, name: string)
    requires RatesNotNegative(services) && name in ByName(services, ServiceName)
    ensures PeriodsNotNegative(ByName(services, ServiceName)[name].checkers)
  {
    ByNameFinds(services, ServiceName, name);
  }

  // On a validated message the configured rate can always be set, and is the
  // listed one for a listed checker.
  lemma ConfiguredIsSettable(services: seq<Option<ServiceSettings>>, id: CheckerID)
    requires WellFormed(services) && RatesNotNegative(services)
    ensures Configured(services, id).rate.per > 0
  {
    var table := ByName(services, ServiceName);
    if id.service in table {
      ByNameFinds(services, ServiceName, id.service);
      var checkers := table[id.service].checkers;
      ByNameFinds(checkers, CheckerName, id.name);
    }
  }

  lemma ConfiguredIsListed(services: seq<Option<ServiceSettings>>, i: nat, j: nat)
    requires WellFormed(services) && RatesNotNegative(services)
    requires i < |services| && j < |services[i].value.checkers|
    ensures var svc := services[i].value;
            var c := svc.checkers[j].value;
            Configured(services, CheckerID(svc.name, c.name)) ==
            RunOptions(Rate(c.runOptions.value.rate.value.times, c.runOptions.value.rate.value.per.value),
                       c.runOptions.value.maxGoroutines)
  {
    ByNameIsInverse(services, ServiceName);
    assert ServiceName(services[i].value) in ByName(services, ServiceName);
    var checkers := services[i].value.checkers;
    ByNameIsInverse(checkers, CheckerName);
    assert CheckerName(checkers[j].value) in ByName(checkers, CheckerName);
  }

  // Some entry names the checker.
  ghost predicate Listed(services: seq<Option<ServiceSettings>>, id: CheckerID) {
    exists i, j | 0 <= i < |services| && services[i].Some? && 0 <= j < |services[i].value.checkers| ::
      services[i].value.checkers[j].Some?
      && id == CheckerID(services[i].value.name, services[i].value.checkers[j].value.name)
  }

  lemma UnlistedRunsAtZero(services: seq<Option<ServiceSettings>>, id: CheckerID)
    requires RatesNotNegative(services) && !Listed(services, id)
    ensures Configured(services, id) == RunOptions(Rate(0, 1_000_000_000), 0)
  {
    ByNameFinds(services, ServiceName, id.service);
    var table := ByName(services, ServiceName);
    if id.service in table {
      ByNameFinds(table[id.service].checkers, CheckerName, id.name);
    }
  }

  // An entry without run options or a rate is configured to the zero rate, one
  // without a period to a rate that cannot be set.
  lemma IncompleteEntry(c: CheckerSettings)
    requires Rated(Some(c)) ==> c.runOptions.value.rate.value.per.value >= 0
    ensures c.runOptions.None? || c.runOptions.value.rate.None? ==> OptionsOf(c).rate == Rate(0, 1_000_000_000)
    ensures c.runOptions.None? ==> OptionsOf(c).maxGoroutines == 0
    ensures c.runOptions.Some? ==> OptionsOf(c).maxGoroutines == c.runOptions.value.maxGoroutines
    ensures c.runOptions.Some? && c.runOptions.value.rate.Some? ==>
              && OptionsOf(c).rate.times == c.runOptions.value.rate.value.times
              && OptionsOf(c).rate.per ==
                 if c.runOptions.value.rate.value.per.Some? then c.runOptions.value.rate.value.per.value else 0
  {
  }

  class Controller {
    // None is an entry whose handle is nil
    var checkers: map<CheckerID, Option<TaskSpec>>
    var currentSettings: Option<Settings>
    // whose handle each task and limiter is
    ghost var taskOf: map<TaskSpec, CheckerID>
    ghost var limiterOf: map<RateLimit.Limiter, CheckerID>

    ghost predicate Owns(id: CheckerID)
      requires id in checkers
      reads this
    {
      var handle := checkers[id];
      handle.Some? ==>
        && handle.value in taskOf && taskOf[handle.value] == id
        && handle.value.limiter in limiterOf && limiterOf[handle.value.limiter] == id
    }

    // No two checkers share a task or a limiter.
    ghost predicate Valid()
      reads this, taskOf.Keys, limiterOf.Keys
    {
      && (forall id | id in checkers :: Owns(id))
      && (forall id | id in checkers && checkers[id].Some? :: checkers[id].value.RatesAgree())
    }

    constructor ()
      ensures Valid() && checkers == map[] && currentSettings == None
    {
      checkers, currentSettings := map[], None;
      taskOf, limiterOf := map[], map[];
    }

    method AddChecker(id: CheckerID, handle: Option<TaskSpec>)
      requires Valid() && id !in checkers
      requires handle.Some? ==>
                 handle.value !in taskOf && handle.value.limiter !in limiterOf && handle.value.RatesAgree()
      modifies this
      ensures Valid() && checkers == old(checkers)[id := handle] && currentSettings == old(currentSettings)
    {
      if handle.Some? {
        taskOf, limiterOf := taskOf[handle.value := id], limiterOf[handle.value.limiter := id];
      }
      checkers := checkers[id := handle];
    }

    // One turn of the sync loop for one checker.
    method SyncChecker(table: map<string, ServiceSettings>, ghost services: seq<Option<ServiceSettings>>, id: CheckerID)
      returns (error: Option<SyncError>)
      requires Valid() && id in checkers && table == ByName(services, ServiceName) && RatesNotNegative(services)
      modifies (if checkers[id].Some? then {checkers[id].value} else {})`runOptions
      modifies if checkers[id].Some? then {checkers[id].value.limiter} else {}
      ensures Valid()
      ensures checkers[id].None? ==> error == Some(NoHandle(id))
      ensures checkers[id].Some? ==>
                var task := checkers[id].value;
                var options := Configured(services, id);
                && error == (if options.rate.per == 0 then Some(BadOptions(id)) else None)
                && (options.rate.per != 0 ==>
                      && task.runOptions == options
                      && task.limiter.View() ==
                           RateLimit.ApplySetSpec(old(task.limiter.View()), LimiterSpec(options.rate)))
    {
      var options := RunOptions(ZERO_RATE, 0);
      if id.service in table {
        LookupIsListed(services, id.service);
        var checkersTable := CheckersMap(table[id.service].checkers);
        if id.name in checkersTable {
          ByNameFinds(table[id.service].checkers, CheckerName, id.name);
          options := OptionsOf(checkersTable[id.name]);
        }
      }
      assert options == Configured(services, id);
      var handle := checkers[id];
      if handle.None? { return Some(NoHandle(id)); }
      var r := handle.value.SetOptions(options);
      if r.Fail? { return Some(BadOptions(id)); }
      return None;
    }

    // Among the checkers `done`, exactly the missing handles are reported, and no
    // failed SetOptions.
    ghost predicate Reports(errors: seq<SyncError>, done: set<CheckerID>)
      requires done <= checkers.Keys
      reads this
    {
      && (forall e | e in errors :: e.NoHandle? && e.id in done && checkers[e.id].None?)
      && (forall id | id in done && checkers[id].None? :: NoHandle(id) in errors)
    }

    // Midway through the sync loop a task's limiter is as at the `start`, or took
    // one SetSpec of the configured rate, which the task runs at too.
    ghost predicate Midway(services: seq<Option<ServiceSettings>>, id: CheckerID, start: RateLimit.State, done: bool)
      requires id in checkers && RatesNotNegative(services)
      reads this, if checkers[id].Some? then {checkers[id].value, checkers[id].value.limiter} else {}
    {
      checkers[id].Some? ==>
        var task, options := checkers[id].value, Configured(services, id);
        if done then
          && task.runOptions == options
          && task.limiter.View() == RateLimit.ApplySetSpec(start, LimiterSpec(options.rate))
        else task.limiter.View() == start
    }

    ghost function LimiterView(id: CheckerID): RateLimit.State
      requires Valid() && id in checkers
      reads this, taskOf.Keys, limiterOf.Keys
    {
      assert Owns(id);
      if checkers[id].Some? then checkers[id].value.limiter.View()
      else RateLimit.Init(LimiterSpec(ZERO_RATE), 0.0)
    }

    ghost function LimiterViews(): map<CheckerID, RateLimit.State>
      requires Valid()
      reads this, taskOf.Keys, limiterOf.Keys
    {
      map id | id in checkers :: LimiterView(id)
    }

    // The sync loop: no SetOptions fails, and only a missing handle is reported.
    method PushOptions(table: map<string, ServiceSettings>, ghost services: seq<Option<ServiceSettings>>)
      returns (errors: seq<SyncError>)
      requires Valid() && table == ByName(services, ServiceName)
      requires WellFormed(services) && RatesNotNegative(services)
      modifies taskOf.Keys`runOptions, limiterOf.Keys
      ensures Valid() && Reports(errors, checkers.Keys)
      ensures forall id | id in checkers :: Midway(services, id, old(LimiterViews())[id], true)
    {
      hide Configured, CheckersWellFormed, ByName, RateLimit.ApplySetSpec, ProperlyNamed, TaskSpec.RatesAgree, Reports;
      ghost var start := LimiterViews();
      errors := [];
      var left := checkers.Keys;
      NothingReported();
      while left != {}
        invariant Valid() && left <= checkers.Keys && Reports(errors, checkers.Keys - left)
        invariant forall id | id in checkers :: Midway(services, id, start[id], id !in left)
        decreases left
      {
        var id :| id in left;
        assert Owns(id);
        errors := PushOne(table, services, id, left, start, errors);
        left := left - {id};
      }
      assert checkers.Keys - {} == checkers.Keys;
    }

    lemma NothingReported()
      ensures Reports([], checkers.Keys - checkers.Keys)
    {
    }

    method PushOne(table: map<string, ServiceSettings>, ghost services: seq<Option<ServiceSettings>>, id: CheckerID,
                   ghost left: set<CheckerID>, ghost start: map<CheckerID, RateLimit.State>, errors: seq<SyncError>)
      returns (errors': seq<SyncError>)
      requires Valid() && table == ByName(services, ServiceName)
      requires WellFormed(services) && RatesNotNegative(services)
      requires id in left && left <= checkers.Keys && start.Keys == checkers.Keys
      requires Reports(errors, checkers.Keys - left)
      requires forall a | a in checkers :: Midway(services, a, start[a], a !in left)
      modifies (if checkers[id].Some? then {checkers[id].value} else {})`runOptions
      modifies if checkers[id].Some? then {checkers[id].value.limiter} else {}
      ensures Valid() && Reports(errors', checkers.Keys - (left - {id}))
      ensures forall a | a in checkers :: Midway(services, a, start[a], a !in left - {id})
    {
      hide Configured, CheckersWellFormed, ByName, RateLimit.ApplySetSpec, ProperlyNamed, TaskSpec.RatesAgree;
      ConfiguredIsSettable(services, id);
      assert Owns(id) && Midway(services, id, start[id], false);
      label before:
      var error := SyncChecker(table, services, id);
      errors' := if error.Some? then errors + [error.value] else errors;
      forall a | a in checkers && a != id ensures Midway(services, a, start[a], a !in left) {
        assert Owns(a) && old@before(Midway(services, a, start[a], a !in left));
      }
    }

    // The task runs at this rate under this cap, and so does its limiter.
    ghost predicate RunsAt(id: CheckerID, times: nat, per: nat, cap: int)
      requires id in checkers
      reads this, if checkers[id].Some? then {checkers[id].value, checkers[id].value.limiter} else {}
    {
      checkers[id].Some? ==>
        var task := checkers[id].value;
        && task.runOptions.rate.times == times == task.limiter.spec.times
        && task.runOptions.rate.per == per == task.limiter.spec.per
        && task.runOptions.maxGoroutines == cap
    }

    // Every listed checker runs at the rate of its entry, every other one not at all.
    ghost predicate RunAsListed(services: seq<Option<ServiceSettings>>)
      requires WellFormed(services) && RatesNotNegative(services)
      reads this, taskOf.Keys, limiterOf.Keys
    {
      && (forall id | id in checkers :: Owns(id))
      && (forall i, j | 0 <= i < |services| && 0 <= j < |services[i].value.checkers| ::
            var c := services[i].value.checkers[j].value;
            var id := CheckerID(services[i].value.name, c.name);
            var rate := c.runOptions.value.rate.value;
            id in checkers ==> RunsAt(id, rate.times, rate.per.value, c.runOptions.value.maxGoroutines))
      && (forall id | id in checkers && !Listed(services, id) :: RunsAt(id, 0, 1_000_000_000, 0))
    }

    lemma SettledIsListed(services: seq<Option<ServiceSettings>>, start: map<CheckerID, RateLimit.State>)
      requires Valid() && WellFormed(services) && RatesNotNegative(services) && start.Keys == checkers.Keys
      requires forall id | id in checkers :: Midway(services, id, start[id], true)
      ensures RunAsListed(services)
    {
      hide Configured;
      forall i, j | 0 <= i < |services| && 0 <= j < |services[i].value.checkers|
        ensures var c := services[i].value.checkers[j].value;
                var id := CheckerID(services[i].value.name, c.name);
                var rate := c.runOptions.value.rate.value;
                id in checkers ==> RunsAt(id, rate.times, rate.per.value, c.runOptions.value.maxGoroutines)
      {
        ConfiguredIsListed(services, i, j);
        var id := CheckerID(services[i].value.name, services[i].value.checkers[j].value.name);
        assert id in checkers ==> Midway(services, id, start[id], true);
      }
      forall id | id in checkers && !Listed(services, id) ensures RunsAt(id, 0, 1_000_000_000, 0) {
        UnlistedRunsAtZero(services, id);
        assert Midway(services, id, start[id], true);
      }
    }

    // Every limiter took one SetSpec of the configured rate, every task its options.
    twostate predicate Settled(services: seq<Option<ServiceSettings>>)
      requires old(Valid()) && Valid() && checkers == old(checkers) && RatesNotNegative(services)
      reads this, taskOf.Keys, limiterOf.Keys
    {
      forall id | id in checkers :: Owns(id) && Midway(services, id, old(LimiterViews())[id], true)
    }

    // What a sync of accepted settings leaves behind: normalized points at the
    // target, the settings stored, every limiter after one SetSpec of the configured
    // rate, every task as listed, nothing else to report.
    twostate predicate SyncDone(settings: Option<Settings>, errors: seq<SyncError>)
      requires old(Valid()) && Valid() && checkers == old(checkers)
      requires WellFormed(GetServices(settings)) && RatesNotNegative(GetServices(settings))
      reads this, taskOf.Keys, limiterOf.Keys, AllObjects(GetServices(settings))
    {
      && AllNormalized(GetServices(settings)) && AllAtTarget(GetServices(settings))
      && currentSettings == settings && Reports(errors, checkers.Keys)
      && RunAsListed(GetServices(settings)) && Settled(GetServices(settings))
    }

    // The part of a sync behind the normalization.
    method Push(settings: Option<Settings>) returns (errors: seq<SyncError>)
      requires Valid() && WellFormed(GetServices(settings)) && RatesNotNegative(GetServices(settings))
      modifies this`currentSettings, taskOf.Keys`runOptions, limiterOf.Keys
      ensures Valid() && currentSettings == settings && Reports(errors, checkers.Keys)
      ensures forall id | id in checkers ::
                Owns(id) && Midway(GetServices(settings), id, old(LimiterViews())[id], true)
    {
      hide Configured, CheckersWellFormed, ByName, ProperlyNamed, RateLimit.ApplySetSpec, Reports, Midway;
      currentSettings := settings;
      assert LimiterViews() == old(LimiterViews());
      var table := ServiceMap(settings);
      errors := PushOptions(table, GetServices(settings));
    }

    method Sync(settings: Option<Settings>) returns (errors: seq<SyncError>)
      requires Valid() && WellFormed(GetServices(settings)) && Separate(GetServices(settings))
      requires RatesNotNegative(GetServices(settings))
      modifies this`currentSettings, taskOf.Keys`runOptions, limiterOf.Keys, AllObjects(GetServices(settings))
      ensures Valid() && SyncDone(settings, errors)
    {
      hide Held.Normal, HeldBy, Weights, Configured, CheckersWellFormed, ByName, Separate, ProperlyNamed;
      hide RateLimit.ApplySetSpec, Reports, Midway, Owns, TaskSpec.RatesAgree, PeriodsNotNegative;
      hide AtTarget, AllAtTarget, RunAsListed;
      NormalizePoints(settings);
      assert LimiterViews() == old(LimiterViews());
      label normalized:
      errors := Push(settings);
      forall i | 0 <= i < |GetServices(settings)| && GetServices(settings)[i].Some?
        ensures NormalizedSince(GetServices(settings)[i].value)
      {
        var svc := GetServices(settings)[i].value;
        forall o | o in Objects(svc.checkers) ensures unchanged@normalized(o) {}
        assert HeldBy(svc) == old@normalized(HeldBy(svc));
      }
      AllNormalizedIsAtTarget(GetServices(settings));
      SettledIsListed(GetServices(settings), old(LimiterViews()));
    }

    // A provider hands out an error or a message that passed validation.
    method SyncState(provided: Result<Option<Settings>, ()>) returns (errors: seq<SyncError>)
      requires Valid()
      requires provided.Ok? ==>
                 && WellFormed(GetServices(provided.value)) && Separate(GetServices(provided.value))
                 && RatesNotNegative(GetServices(provided.value))
      modifies this`currentSettings, taskOf.Keys`runOptions, limiterOf.Keys
      modifies if provided.Ok? then AllObjects(GetServices(provided.value)) else {}
      ensures Valid()
      ensures provided.Err? ==> errors == [ProviderFailed] && unchanged(this, old(taskOf).Keys, old(limiterOf).Keys)
      ensures provided.Ok? ==> SyncDone(provided.value, errors)
    {
      hide *;
      if provided.Err? { return [ProviderFailed]; }
      errors := Sync(provided.value);
    }
  }
}
