// The settings message, its validation, and its lookup tables.  A nil pointer
// is None; the two point fields are the only ones the program assigns.
module Settings {
  import opened Wrappers

  // per is a duration in nanoseconds
  datatype ProtoRate = ProtoRate(times: nat, per: Option<int>)

  datatype ProtoRunOptions = ProtoRunOptions(rate: Option<ProtoRate>, maxGoroutines: int)

  class CheckerSettings {
    const name: string
    const runOptions: Option<ProtoRunOptions>
    var successPoints: real
    var failPenalty: real
  }

  class ServiceSettings {
    const name: string
    const target: string
    const checkers: seq<Option<CheckerSettings>>
  }

  class Settings {
    const services: seq<Option<ServiceSettings>>
  }

  function CheckerName(c: CheckerSettings): string { c.name }

  function ServiceName(s: ServiceSettings): string { s.name }

  function GetServices(settings: Option<Settings>): (services: seq<Option<ServiceSettings>>)
    ensures settings.Some? ==> services == settings.value.services
    ensures settings.None? ==> services == []
  {
    if settings.Some? then settings.value.services else []
  }

  // ---- Validation ----

  datatype Defect =
    | NilService(svc: nat)
    | EmptyServiceName(svc: nat)
    | DuplicateService(svc: nat)
    | NilChecker(svc: nat, checker: nat)
    | EmptyCheckerName(svc: nat, checker: nat)
    | DuplicateChecker(svc: nat, checker: nat)
    | NilRunOptions(svc: nat, checker: nat)
    | NilRate(svc: nat, checker: nat)
    | ZeroPer(svc: nat, checker: nat)

  // The names of the entries that are there.
  function Names<T>(items: seq<Option<T>>, name: T -> string): set<string> {
    set i | 0 <= i < |items| && items[i].Some? :: name(items[i].value)
  }

  // Every entry is there, with a name of its own.
  ghost predicate ProperlyNamed<T>(items: seq<Option<T>>, name: T -> string) {
    && (forall i | 0 <= i < |items| :: items[i].Some? && name(items[i].value) != "")
    && (forall i, j | 0 <= i < j < |items| && items[i].Some? && items[j].Some? ::
          name(items[i].value) != name(items[j].value))
  }

  predicate HasRate(c: CheckerSettings) {
    && c.runOptions.Some? && c.runOptions.value.rate.Some?
    && c.runOptions.value.rate.value.per.Some? && c.runOptions.value.rate.value.per.value != 0
  }

  ghost predicate CheckersWellFormed(checkers: seq<Option<CheckerSettings>>) {
    && ProperlyNamed(checkers, CheckerName)
    && forall j | 0 <= j < |checkers| :: checkers[j].Some? && HasRate(checkers[j].value)
  }

  // What an accepted message promises.
  ghost predicate WellFormed(services: seq<Option<ServiceSettings>>) {
    && ProperlyNamed(services, ServiceName)
    && forall i | 0 <= i < |services| :: services[i].Some? && CheckersWellFormed(services[i].value.checkers)
  }

  // The complaint about a checker entry, given the names before it.
  function CheckerDefect(c: Option<CheckerSettings>, seen: set<string>, i: nat, j: nat): Option<Defect> {
    if c.None? then Some(NilChecker(i, j))
    else if c.value.name == "" then Some(EmptyCheckerName(i, j))
    else if c.value.name in seen then Some(DuplicateChecker(i, j))
    else if c.value.runOptions.None? then Some(NilRunOptions(i, j))
    else if c.value.runOptions.value.rate.None? then Some(NilRate(i, j))
    else if !HasRate(c.value) then Some(ZeroPer(i, j))
    else None
  }

  function ServiceDefect(s: Option<ServiceSettings>, seen: set<string>, i: nat): Option<Defect> {
    if s.None? then Some(NilService(i))
    else if s.value.name == "" then Some(EmptyServiceName(i))
    else if s.value.name in seen then Some(DuplicateService(i))
    else None
  }

  // An error names the first offending entry in reading order.
  ghost predicate FirstCheckerDefect(checkers: seq<Option<CheckerSettings>>, i: nat, d: Defect) {
    exists j: nat ::
      && j < |checkers| && CheckersWellFormed(checkers[..j])
      && CheckerDefect(checkers[j], Names(checkers[..j], CheckerName), i, j) == Some(d)
  }

  ghost predicate FirstDefect(services: seq<Option<ServiceSettings>>, d: Defect) {
    exists i: nat ::
      && i < |services| && WellFormed(services[..i])
      && var head := ServiceDefect(services[i], Names(services[..i], ServiceName), i);
         (head == Some(d) || (head == None && FirstCheckerDefect(services[i].value.checkers, i, d)))
  }

  // One more sound entry keeps a list well formed; a defective one spoils it.
  lemma CheckerExtends(checkers: seq<Option<CheckerSettings>>, i: nat, j: nat)
    requires j < |checkers| && CheckersWellFormed(checkers[..j])
    ensures CheckersWellFormed(checkers[..j + 1]) <==>
            CheckerDefect(checkers[j], Names(checkers[..j], CheckerName), i, j) == None
  {
    var front, next := checkers[..j], checkers[..j + 1];
    assert forall k | 0 <= k < j :: next[k] == front[k];
    assert next[j] == checkers[j];
    if CheckerDefect(checkers[j], Names(front, CheckerName), i, j) == Some(DuplicateChecker(i, j)) {
      var k :| 0 <= k < j && front[k].Some? && front[k].value.name == checkers[j].value.name;
      assert CheckerName(next[k].value) == CheckerName(next[j].value);
    }
    if CheckerDefect(checkers[j], Names(front, CheckerName), i, j) == None {
      forall k | 0 <= k < j ensures CheckerName(next[k].value) != CheckerName(next[j].value) {
        assert CheckerName(front[k].value) in Names(front, CheckerName);
      }
    }
  }

  lemma ServiceExtends(services: seq<Option<ServiceSettings>>, i: nat)
    requires i < |services| && WellFormed(services[..i])
    ensures WellFormed(services[..i + 1]) <==>
            && ServiceDefect(services[i], Names(services[..i], ServiceName), i) == None
            && CheckersWellFormed(services[i].value.checkers)
  {
    var front, next := services[..i], services[..i + 1];
    assert forall k | 0 <= k < i :: next[k] == front[k];
    assert next[i] == services[i];
    if ServiceDefect(services[i], Names(front, ServiceName), i) == Some(DuplicateService(i)) {
      var k :| 0 <= k < i && front[k].Some? && front[k].value.name == services[i].value.name;
      assert ServiceName(next[k].value) == ServiceName(next[i].value);
    }
    if ServiceDefect(services[i], Names(front, ServiceName), i) == None {
      forall k | 0 <= k < i ensures ServiceName(next[k].value) != ServiceName(next[i].value) {
        assert ServiceName(front[k].value) in Names(front, ServiceName);
      }
    }
  }

  lemma WellFormedPrefix(services: seq<Option<ServiceSettings>>, i: nat)
    requires i <= |services| && WellFormed(services)
    ensures WellFormed(services[..i])
  {
  }

  lemma CheckersPrefix(checkers: seq<Option<CheckerSettings>>, j: nat)
    requires j <= |checkers| && CheckersWellFormed(checkers)
    ensures CheckersWellFormed(checkers[..j])
  {
  }

  // A reported defect is one: the message is not well formed.
  lemma DefectIsReal(services: seq<Option<ServiceSettings>>, d: Defect)
    requires FirstDefect(services, d)
    ensures !WellFormed(services)
  {
    var i: nat :| i < |services| && WellFormed(services[..i])
      && var head := ServiceDefect(services[i], Names(services[..i], ServiceName), i);
         (head == Some(d) || (head == None && FirstCheckerDefect(services[i].value.checkers, i, d)));
    ServiceExtends(services, i);
    if WellFormed(services) {
      WellFormedPrefix(services, i + 1);
      var checkers := services[i].value.checkers;
      var j: nat :| j < |checkers| && CheckersWellFormed(checkers[..j])
        && CheckerDefect(checkers[j], Names(checkers[..j], CheckerName), i, j) == Some(d);
      CheckerExtends(checkers, i, j);
      CheckersPrefix(checkers, j + 1);
    }
  }

  method ValidateCheckers(checkers: seq<Option<CheckerSettings>>, svcIdx: nat) returns (r: Outcome<Defect>)
    ensures r.Pass? <==> CheckersWellFormed(checkers)
    ensures r.Fail? ==> FirstCheckerDefect(checkers, svcIdx, r.error)
  {
    var seenCheckers: set<string> := {};
    for checkerIdx := 0 to |checkers|
      invariant CheckersWellFormed(checkers[..checkerIdx])
      invariant seenCheckers == Names(checkers[..checkerIdx], CheckerName)
    {
      ghost var front := checkers[..checkerIdx];
      CheckerExtends(checkers, svcIdx, checkerIdx);
      var entry := checkers[checkerIdx];
      var defect: Option<Defect> := None;
      if entry.None? {
        defect := Some(NilChecker(svcIdx, checkerIdx));
      } else if entry.value.name == "" {
        defect := Some(EmptyCheckerName(svcIdx, checkerIdx));
      } else if entry.value.name in seenCheckers {
        defect := Some(DuplicateChecker(svcIdx, checkerIdx));
      } else {
        seenCheckers := seenCheckers + {entry.value.name};
        var runOpts := entry.value.runOptions;
        if runOpts.None? {
          defect := Some(NilRunOptions(svcIdx, checkerIdx));
        } else if runOpts.value.rate.None? {
          defect := Some(NilRate(svcIdx, checkerIdx));
        } else if runOpts.value.rate.value.per.None? || runOpts.value.rate.value.per.value == 0 {
          defect := Some(ZeroPer(svcIdx, checkerIdx));
        }
      }
      if defect.Some? {
        if CheckersWellFormed(checkers) { CheckersPrefix(checkers, checkerIdx + 1); }
        return Fail(defect.value);
      }
      NamesExtend(checkers, checkerIdx, CheckerName);
    }
    assert checkers[..|checkers|] == checkers;
    return Pass;
  }

  lemma NamesExtend<T>(items: seq<Option<T>>, i: nat, name: T -> string)
    requires i < |items| && items[i].Some?
    ensures Names(items[..i + 1], name) == Names(items[..i], name) + {name(items[i].value)}
  {
    var front, next := items[..i], items[..i + 1];
    assert forall k | 0 <= k < i :: next[k] == front[k];
    assert next[i] == items[i];
    forall n | n in Names(front, name) ensures n in Names(next, name) {
      var k :| 0 <= k < i && front[k].Some? && name(front[k].value) == n;
      assert name(next[k].value) == n;
    }
  }

  // Accepts exactly the well-formed messages, and blames the first defect.
  method Validate(settings: Option<Settings>) returns (r: Outcome<Defect>)
    ensures r.Pass? <==> settings.None? || WellFormed(settings.value.services)
    ensures r.Fail? ==> FirstDefect(GetServices(settings), r.error)
  {
    var services := GetServices(settings);
    var seenServices: set<string> := {};
    for svcIdx := 0 to |services|
      invariant WellFormed(services[..svcIdx])
      invariant seenServices == Names(services[..svcIdx], ServiceName)
    {
      ServiceExtends(services, svcIdx);
      var svc := services[svcIdx];
      var defect: Option<Defect> := None;
      if svc.None? {
        defect := Some(NilService(svcIdx));
      } else if svc.value.name == "" {
        defect := Some(EmptyServiceName(svcIdx));
      } else if svc.value.name in seenServices {
        defect := Some(DuplicateService(svcIdx));
      } else {
        seenServices := seenServices + {svc.value.name};
        var inner := ValidateCheckers(svc.value.checkers, svcIdx);
        if inner.Fail? { defect := Some(inner.error); }
      }
      if defect.Some? {
        assert FirstDefect(services, defect.value);
        DefectIsReal(services, defect.value);
        return Fail(defect.value);
      }
      NamesExtend(services, svcIdx, ServiceName);
    }
    assert services[..|services|] == services;
    return Pass;
  }

  // ---- Lookup tables ----

  // The last entry of each name, as filling a map in a loop leaves it.
  function ByName<T>(items: seq<Option<T>>, name: T -> string): map<string, T> {
    if items == [] then map[]
    else
      var n := |items| - 1;
      var front := ByName(items[..n], name);
      if items[n].Some? then front[name(items[n].value) := items[n].value] else front
  }

  method ServiceMap(settings: Option<Settings>) returns (m: map<string, ServiceSettings>)
    ensures m == ByName(GetServices(settings), ServiceName)
  {
    var services := GetServices(settings);
    m := map[];
    for i := 0 to |services|
      invariant m == ByName(services[..i], ServiceName)
    {
      assert services[..i + 1][..i] == services[..i];
      if services[i].Some? {
        m := m[services[i].value.name := services[i].value];
      }
    }
    assert services[..|services|] == services;
  }

  method CheckersMap(checkers: seq<Option<CheckerSettings>>) returns (m: map<string, CheckerSettings>)
    ensures m == ByName(checkers, CheckerName)
  {
    m := map[];
    for i := 0 to |checkers|
      invariant m == ByName(checkers[..i], CheckerName)
    {
      assert checkers[..i + 1][..i] == checkers[..i];
      if checkers[i].Some? {
        m := m[checkers[i].value.name := checkers[i].value];
      }
    }
    assert checkers[..|checkers|] == checkers;
  }

  // What a lookup finds, for any list: the last entry of that name.
  lemma {:induction false} ByNameFinds<T>(items: seq<Option<T>>, name: T -> string, key: string)
    ensures key in ByName(items, name) <==> key in Names(items, name)
    ensures key in ByName(items, name) ==>
              exists i :: 0 <= i < |items| && items[i] == Some(ByName(items, name)[key])
                       && name(items[i].value) == key
                       && forall j | i < j < |items| && items[j].Some? :: name(items[j].value) != key
  {
    if items != [] {
      var n := |items| - 1;
      var front := items[..n];
      ByNameFinds(front, name, key);
      if items[n].Some? && name(items[n].value) == key {
        assert key in Names(items, name);
      } else {
        assert key in Names(items, name) <==> key in Names(front, name) by {
          if key in Names(front, name) {
            var i :| 0 <= i < n && front[i].Some? && name(front[i].value) == key;
            assert items[i] == front[i];
          }
          if key in Names(items, name) {
            var i :| 0 <= i < |items| && items[i].Some? && name(items[i].value) == key;
            assert front[i] == items[i];
          }
        }
        if key in ByName(front, name) {
          var i :| 0 <= i < n && front[i] == Some(ByName(front, name)[key]) && name(front[i].value) == key
                && forall j | i < j < n && front[j].Some? :: name(front[j].value) != key;
          assert items[i] == front[i];
          assert forall j | i < j < n :: items[j] == front[j];
        }
      }
    }
  }

  // On properly named entries the table is the inverse of the list: none is lost.
  lemma {:induction false} ByNameIsInverse<T>(items: seq<Option<T>>, name: T -> string)
    requires ProperlyNamed(items, name)
    ensures |ByName(items, name)| == |items|
    ensures forall i | 0 <= i < |items| ::
              name(items[i].value) in ByName(items, name) && ByName(items, name)[name(items[i].value)] == items[i].value
  {
    if items != [] {
      var n := |items| - 1;
      var front := items[..n];
      assert forall i | 0 <= i < n :: front[i] == items[i];
      ByNameIsInverse(front, name);
      var last := name(items[n].value);
      ByNameFinds(front, name, last);
      assert last !in Names(front, name);
      assert ByName(items, name) == ByName(front, name)[last := items[n].value];
    }
  }
}
