// The store under interleaving: any clients' transactions, the clock, Redis
// dropping expired keys, a cleanup whose read and removal are two steps, and any
// number of random getters, whose read and delete of an id are two steps.
module StoreRuns {
  import opened Durations
  import opened Wrappers
  import opened Redis
  import opened RedisStore

  // `pending` holds the ids cleanup has read and not yet removed, `drawn` the id
  // each getter has read and not yet deleted.  Here it may delete whatever it read;
  // the code only deletes what it could not read.
  datatype Sys = Sys(db: Db, pending: set<string>, drawn: map<nat, string>)

  datatype Action =
    | Tick(d: nat)
    | Save(id: string, data: string, score: int)
    | Delete(id: string)
    | Evict(key: string)
    | CleanRead(count: int, ids: seq<string>)
    | CleanRemove
    | Draw(getter: nat, id: string, saw: Reply<string>)
    | Discard(getter: nat, id: string)

  function Start(now: int): Sys {
    Sys(Db(map[], now), {}, map[])
  }

  ghost predicate Enabled(c: Config, s: Sys, a: Action) {
    match a
    case Save(id, _, _) => id != ""
    case Delete(id) => id != ""
    case Evict(key) => key in s.db.keys && Lookup(s.db, key).None?
    case CleanRead(count, ids) => IsRangeByScore(Index(c, s.db), Cutoff(c, s.db.now), count, ids)
    case Draw(_, id, saw) => id in Index(c, s.db) && id != "" && saw == Get(s.db, KeyFor(c, id)) && !saw.WrongType?
    case Discard(getter, id) => getter in s.drawn && s.drawn[getter] == id && id != ""
    case _ => true
  }

  function Apply(c: Config, s: Sys, a: Action): Sys {
    match a
    case Tick(d) => s.(db := s.db.(now := s.db.now + d))
    case Save(id, data, score) => s.(db := SaveTx(c, s.db, id, data, score))
    case Delete(id) => s.(db := DeleteTx(c, s.db, id))
    case Evict(key) => s.(db := Del(s.db, key))
    case CleanRead(_, ids) => s.(pending := Members(ids))
    case CleanRemove => s.(db := CleanupTx(c, s.db, s.pending), pending := {})
    case Draw(getter, id, _) => s.(drawn := s.drawn[getter := id])
    case Discard(getter, id) => s.(db := DeleteTx(c, s.db, id), drawn := s.drawn - {getter})
  }

  function Run(c: Config, s: Sys, trace: seq<Action>): Sys {
    if trace == [] then s else Apply(c, Run(c, s, trace[..|trace| - 1]), trace[|trace| - 1])
  }

  ghost predicate Legal(c: Config, s: Sys, trace: seq<Action>) {
    trace == [] ||
    (Legal(c, s, trace[..|trace| - 1]) && Enabled(c, Run(c, s, trace[..|trace| - 1]), trace[|trace| - 1]))
  }

  // Clients, the clock and a cleanup that has read are never held up, nor is a
  // getter on an index with a sound entry.
  lemma NobodyWaits(c: Config, s: Sys, id: string, data: string, score: int, d: nat, getter: nat)
    ensures id != "" ==> Enabled(c, s, Save(id, data, score)) && Enabled(c, s, Delete(id))
    ensures Enabled(c, s, Tick(d)) && Enabled(c, s, CleanRemove)
    ensures IndexSound(c, s.db) && id in Index(c, s.db) ==>
              && Enabled(c, s, Draw(getter, id, Get(s.db, KeyFor(c, id))))
              && Enabled(c, Apply(c, s, Draw(getter, id, Get(s.db, KeyFor(c, id)))), Discard(getter, id))
  {
    if IndexSound(c, s.db) && id in Index(c, s.db) { assert EntryOk(c, s.db, id, Index(c, s.db)[id]); }
  }

  // ---- Lookups agree with a plain map with expiry ----

  function Clock(t0: int, trace: seq<Action>): int {
    if trace == [] then t0
    else
      var last := trace[|trace| - 1];
      Clock(t0, trace[..|trace| - 1]) + if last.Tick? then last.d else 0
  }

  // Deletes the id, on a client's or a getter's behalf.
  predicate Deletes(a: Action, id: string) {
    (a.Delete? && a.id == id) || (a.Discard? && a.id == id)
  }

  // The last Save of an id with no later delete, and the instant it runs out.
  // Nothing here knows of keys, the index, eviction or cleanup.
  function LastSave(ttl: int, t0: int, trace: seq<Action>, id: string): Option<(string, int)> {
    if trace == [] then None
    else
      var front, last := trace[..|trace| - 1], trace[|trace| - 1];
      if last.Save? && last.id == id then Some((last.data, Clock(t0, front) + ttl))
      else if Deletes(last, id) then None
      else LastSave(ttl, t0, front, id)
  }

  function PlainGet(ttl: int, t0: int, trace: seq<Action>, id: string): Reply<string> {
    match LastSave(ttl, t0, trace, id)
    case None => Nil
    case Some((data, end)) => if Clock(t0, trace) < end then Reply(data) else Nil
  }

  // The stored string of an id, expired or not, against the plain map's entry.
  ghost predicate Agrees(c: Config, db: Db, id: string, entry: Option<(string, int)>) {
    var key := KeyFor(c, id);
    match entry
    case None => key !in db.keys
    case Some((data, end)) =>
      if key in db.keys then db.keys[key] == Str(data, end) else end <= db.now
  }

  lemma AgreesStep(c: Config, s: Sys, a: Action, id: string, entry: Option<(string, int)>)
    requires Enabled(c, s, a) && id != "exp" && Agrees(c, s.db, id, entry)
    ensures Agrees(c, Apply(c, s, a).db, id,
                   if a.Save? && a.id == id then Some((a.data, s.db.now + c.ttl))
                   else if Deletes(a, id) then None
                   else entry)
  {
    KeyForInjective(c);
  }

  lemma {:induction false} RunAgrees(c: Config, t0: int, trace: seq<Action>, id: string)
    requires Legal(c, Start(t0), trace) && id != "exp"
    ensures Agrees(c, Run(c, Start(t0), trace).db, id, LastSave(c.ttl, t0, trace, id))
    ensures Run(c, Start(t0), trace).db.now == Clock(t0, trace)
  {
    if trace != [] {
      var front, last := trace[..|trace| - 1], trace[|trace| - 1];
      RunAgrees(c, t0, front, id);
      AgreesStep(c, Run(c, Start(t0), front), last, id, LastSave(c.ttl, t0, front, id));
    }
  }

  // Main result: in every interleaving a lookup returns what a plain map with
  // expiry returns, whatever happens to the index, even to the id "exp".
  lemma LookupIsPlainGet(c: Config, t0: int, trace: seq<Action>, id: string)
    requires Legal(c, Start(t0), trace) && id != "exp"
    ensures Get(Run(c, Start(t0), trace).db, KeyFor(c, id)) == PlainGet(c.ttl, t0, trace, id)
  {
    RunAgrees(c, t0, trace, id);
  }

  // The value of the entity named "exp", which shares its key with the index.
  ghost predicate ExpAgrees(c: Config, db: Db, entry: Option<(string, int)>) {
    var key := IndexKey(c);
    if key in db.keys && db.keys[key].Str? then entry == Some((db.keys[key].data, db.keys[key].expireAt))
    else (entry.Some? ==> entry.value.1 <= db.now) && (key in db.keys ==> db.keys[key].scores != map[])
  }

  lemma ExpAgreesStep(c: Config, s: Sys, a: Action, entry: Option<(string, int)>)
    requires c.ttl > 0 && Enabled(c, s, a) && ExpAgrees(c, s.db, entry)
    ensures ExpAgrees(c, Apply(c, s, a).db,
                      if a.Save? && a.id == "exp" then Some((a.data, s.db.now + c.ttl))
                      else if Deletes(a, "exp") then None
                      else entry)
  {
    KeyForInjective(c);
    var db' := Apply(c, s, a).db;
    if a.Save? && IndexKey(c) in db'.keys && db'.keys[IndexKey(c)].ZSet? {
      assert a.id in db'.keys[IndexKey(c)].scores;
    }
  }

  lemma {:induction false} RunExpAgrees(c: Config, t0: int, trace: seq<Action>)
    requires c.ttl > 0 && Legal(c, Start(t0), trace)
    ensures ExpAgrees(c, Run(c, Start(t0), trace).db, LastSave(c.ttl, t0, trace, "exp"))
    ensures Run(c, Start(t0), trace).db.now == Clock(t0, trace)
  {
    if trace != [] {
      var front, last := trace[..|trace| - 1], trace[|trace| - 1];
      RunExpAgrees(c, t0, front);
      ExpAgreesStep(c, Run(c, Start(t0), front), last, LastSave(c.ttl, t0, front, "exp"));
    }
  }

  // The one id left out: its lookup returns what the plain map returns exactly when
  // the index it shares its key with is empty.
  lemma ExpLookupIsPlainGetIff(c: Config, t0: int, trace: seq<Action>)
    requires c.ttl > 0 && Legal(c, Start(t0), trace)
    ensures var db := Run(c, Start(t0), trace).db;
            Get(db, KeyFor(c, "exp")) == PlainGet(c.ttl, t0, trace, "exp") <==> Index(c, db) == map[]
  {
    KeyForInjective(c);
    RunExpAgrees(c, t0, trace);
  }

  // Saving it is reported as failed, yet its value is readable afterwards and the
  // index of everything else is gone.
  lemma SaveExpDestroysIndex(c: Config, db: Db, data: string, score: int)
    requires c.ttl > 0
    ensures SaveFails(c, db, "exp", data)
    ensures var db' := SaveTx(c, db, "exp", data, score);
            Get(db', KeyFor(c, "exp")) == Reply(data) && Index(c, db') == map[]
  {
    KeyForInjective(c);
  }

  // A save succeeds and indexes its id exactly when the index key is not taken.
  lemma SaveIndexesIff(c: Config, db: Db, id: string, data: string, score: int)
    requires c.ttl > 0
    ensures (!SaveFails(c, db, id, data) && id in Index(c, SaveTx(c, db, id, data, score))) <==>
            id != "exp" && !Scores(db, IndexKey(c)).WrongType?
  {
    KeyForInjective(c);
  }

  // ---- Soundness of the index in every interleaving ----

  // Saves reach Redis in the second they read the clock.
  ghost predicate Instant(c: Config, s: Sys, trace: seq<Action>) {
    trace == [] ||
    (var front, last := trace[..|trace| - 1], trace[|trace| - 1];
     Instant(c, s, front) && (last.Save? ==> last.score == Run(c, s, front).db.now / SECOND))
  }

  lemma EvictSound(c: Config, db: Db, key: string)
    requires c.ttl > 0 && IndexSound(c, db) && key in db.keys && Lookup(db, key).None?
    ensures IndexSound(c, Del(db, key)) && Index(c, Del(db, key)) == Index(c, db)
  {
    var db' := Del(db, key);
    assert forall k :: Lookup(db', k) == Lookup(db, k);
    forall j | j in Index(c, db')
      ensures j != "" && j != "exp" && EntryOk(c, db', j, Index(c, db')[j])
    {
      assert j in Index(c, db);
    }
  }

  // Redis may drop a key exactly when it holds an expired string, and nobody can
  // tell afterwards.
  lemma EvictIsUnseen(c: Config, s: Sys, key: string)
    ensures Enabled(c, s, Evict(key)) <==>
            key in s.db.keys && s.db.keys[key].Str? && s.db.keys[key].expireAt <= s.db.now
    ensures Enabled(c, s, Evict(key)) ==>
              var db' := Apply(c, s, Evict(key)).db;
              db'.keys.Keys == s.db.keys.Keys - {key} && forall k :: Lookup(db', k) == Lookup(s.db, k)
  {
  }

  lemma {:induction false} RunSound(c: Config, t0: int, trace: seq<Action>)
    requires c.ttl > 0 && Legal(c, Start(t0), trace) && Instant(c, Start(t0), trace)
    ensures IndexSound(c, Run(c, Start(t0), trace).db)
  {
    if trace != [] {
      var front, last := trace[..|trace| - 1], trace[|trace| - 1];
      RunSound(c, t0, front);
      var s := Run(c, Start(t0), front);
      match last
      case Tick(d) => TickSound(c, s.db, d);
      case Save(id, data, _) => SaveSound(c, s.db, id, data);
      case Delete(id) => DeleteSound(c, s.db, id);
      case Evict(key) => EvictSound(c, s.db, key);
      case CleanRead(_, _) =>
      case CleanRemove => CleanupSound(c, s.db, s.pending);
      case Draw(_, _, _) =>
      case Discard(_, id) => DeleteSound(c, s.db, id);
    }
  }

  // Both sides of the cleanup bound, in every state any interleaving reaches.
  lemma CleanupBoundOnRuns(c: Config, t0: int, trace: seq<Action>, id: string)
    requires c.ttl > 0 && Legal(c, Start(t0), trace) && Instant(c, Start(t0), trace)
    requires id in Index(c, Run(c, Start(t0), trace).db)
    ensures var db := Run(c, Start(t0), trace).db;
            && (Get(db, KeyFor(c, id)).Nil? ==> id in Eligible(Index(c, db), Cutoff(c, db.now)))
            && (id in Eligible(Index(c, db), Cutoff(c, db.now)) ==>
                  match Lookup(db, KeyFor(c, id))
                  case Some(Str(_, e)) =>
                    e - db.now < 2_000_000_000 && (c.ttl % SECOND == 0 ==> e - db.now < 1_000_000_000)
                  case _ => true)
  {
    RunSound(c, t0, trace);
    CleanupBound(c, Run(c, Start(t0), trace).db, id);
  }

  // ---- Completeness of the index ----

  // The value of an id has at least `left` to live.
  ghost predicate LivesFor(c: Config, db: Db, id: string, left: int) {
    match Lookup(db, KeyFor(c, id))
    case Some(Str(_, e)) => e - db.now >= left
    case _ => false
  }

  ghost predicate Complete(c: Config, db: Db) {
    forall id | LivesFor(c, db, id, Slack(c)) :: id == "exp" || id in Index(c, db)
  }

  // What cleanup has read is about to expire, so its removal is harmless.
  ghost predicate PendingStale(c: Config, s: Sys) {
    forall id | id in s.pending :: !LivesFor(c, s.db, id, Slack(c))
  }

  // No id is saved between the read and the removal of a cleanup that read it,
  // and nobody touches the entity named "exp".
  ghost predicate Undisturbed(c: Config, s: Sys, trace: seq<Action>) {
    trace == [] ||
    (var front, last := trace[..|trace| - 1], trace[|trace| - 1];
     && Undisturbed(c, s, front)
     && (last.Save? ==> last.id != "exp" && last.id !in Run(c, s, front).pending)
     && !Deletes(last, "exp"))
  }

  ghost predicate CompleteInv(c: Config, s: Sys) {
    && IndexSound(c, s.db) && !Scores(s.db, IndexKey(c)).WrongType?
    && Complete(c, s.db) && PendingStale(c, s)
  }

  lemma SaveComplete(c: Config, s: Sys, a: Action)
    requires c.ttl > 0 && CompleteInv(c, s) && a.Save? && a.id !in s.pending && a.id != "exp" && a.id != ""
    requires a.score == s.db.now / SECOND
    ensures CompleteInv(c, Apply(c, s, a))
  {
    KeyForInjective(c);
    SaveSound(c, s.db, a.id, a.data);
    var s' := Apply(c, s, a);
    forall id | LivesFor(c, s'.db, id, Slack(c)) ensures id == "exp" || id in Index(c, s'.db) {
      if id != a.id && id != "exp" { assert LivesFor(c, s.db, id, Slack(c)); }
    }
    forall id | id in s'.pending ensures !LivesFor(c, s'.db, id, Slack(c)) {
      assert !LivesFor(c, s.db, id, Slack(c));
    }
  }

  // A delete takes one id and leaves every other value and entry.
  lemma DeleteLeaves(c: Config, db: Db, id: string)
    requires id != "exp" && !Scores(db, IndexKey(c)).WrongType?
    ensures Index(c, DeleteTx(c, db, id)) == Index(c, db) - {id}
    ensures !Scores(DeleteTx(c, db, id), IndexKey(c)).WrongType?
    ensures DeleteTx(c, db, id).now == db.now && Lookup(DeleteTx(c, db, id), KeyFor(c, id)).None?
    ensures forall j | j != id && j != "exp" :: Lookup(DeleteTx(c, db, id), KeyFor(c, j)) == Lookup(db, KeyFor(c, j))
  {
    KeyForInjective(c);
  }

  // While its key holds the index, the entity "exp" has no value.
  lemma ExpNeverLives(c: Config, db: Db)
    requires !Scores(db, IndexKey(c)).WrongType?
    ensures !LivesFor(c, db, "exp", Slack(c))
  {
    KeyForInjective(c);
  }

  lemma DeleteComplete(c: Config, s: Sys, a: Action)
    requires c.ttl > 0 && CompleteInv(c, s) && (a.Delete? || a.Discard?) && a.id != "exp"
    ensures CompleteInv(c, Apply(c, s, a))
  {
    hide IndexSound, DeleteTx, Scores, Index, Lookup;
    DeleteSound(c, s.db, a.id);
    DeleteLeaves(c, s.db, a.id);
    var s' := Apply(c, s, a);
    forall id | LivesFor(c, s'.db, id, Slack(c)) ensures id == "exp" || id in Index(c, s'.db) {
      if id != "exp" { assert LivesFor(c, s.db, id, Slack(c)); }
    }
    forall id | id in s'.pending ensures !LivesFor(c, s'.db, id, Slack(c)) {
      assert !LivesFor(c, s.db, id, Slack(c));
      if id == "exp" { ExpNeverLives(c, s'.db); }
    }
  }

  lemma TickComplete(c: Config, s: Sys, a: Action)
    requires c.ttl > 0 && CompleteInv(c, s) && a.Tick?
    ensures CompleteInv(c, Apply(c, s, a))
  {
    TickSound(c, s.db, a.d);
    var s' := Apply(c, s, a);
    forall id | LivesFor(c, s'.db, id, Slack(c)) ensures id == "exp" || id in Index(c, s'.db) {
      assert LivesFor(c, s.db, id, Slack(c));
    }
    forall id | id in s'.pending ensures !LivesFor(c, s'.db, id, Slack(c)) {
      assert !LivesFor(c, s.db, id, Slack(c));
    }
  }

  lemma EvictComplete(c: Config, s: Sys, a: Action)
    requires c.ttl > 0 && CompleteInv(c, s) && a.Evict? && Enabled(c, s, a)
    ensures CompleteInv(c, Apply(c, s, a))
  {
    EvictSound(c, s.db, a.key);
    var s' := Apply(c, s, a);
    assert forall k :: Lookup(s'.db, k) == Lookup(s.db, k);
    forall id | LivesFor(c, s'.db, id, Slack(c)) ensures id == "exp" || id in Index(c, s'.db) {
      assert LivesFor(c, s.db, id, Slack(c));
    }
    forall id | id in s'.pending ensures !LivesFor(c, s'.db, id, Slack(c)) {
      assert !LivesFor(c, s.db, id, Slack(c));
    }
  }

  lemma CleanReadComplete(c: Config, s: Sys, a: Action)
    requires c.ttl > 0 && CompleteInv(c, s) && a.CleanRead? && Enabled(c, s, a)
    ensures CompleteInv(c, Apply(c, s, a))
  {
    forall id | id in Members(a.ids) ensures !LivesFor(c, s.db, id, Slack(c)) {
      CleanupBound(c, s.db, id);
    }
  }

  // Removing what was read keeps the index complete exactly when none of it has
  // been given a new life in between.
  lemma CleanRemoveCompleteIff(c: Config, s: Sys)
    requires c.ttl > 0 && IndexSound(c, s.db) && !Scores(s.db, IndexKey(c)).WrongType? && Complete(c, s.db)
    ensures Complete(c, Apply(c, s, CleanRemove).db) <==>
            forall id | id in s.pending && id != "exp" :: !LivesFor(c, s.db, id, Slack(c))
  {
    KeyForInjective(c);
    CleanupSound(c, s.db, s.pending);
    var db' := Apply(c, s, CleanRemove).db;
    forall id | id != "exp" ensures LivesFor(c, db', id, Slack(c)) == LivesFor(c, s.db, id, Slack(c)) {}
    if forall id | id in s.pending && id != "exp" :: !LivesFor(c, s.db, id, Slack(c)) {
      forall id | LivesFor(c, db', id, Slack(c)) ensures id == "exp" || id in Index(c, db') {
        if id != "exp" { assert LivesFor(c, s.db, id, Slack(c)); }
      }
    }
  }

  lemma CleanRemoveComplete(c: Config, s: Sys)
    requires c.ttl > 0 && CompleteInv(c, s)
    ensures CompleteInv(c, Apply(c, s, CleanRemove)) && Apply(c, s, CleanRemove).pending == {}
  {
    KeyForInjective(c);
    CleanupSound(c, s.db, s.pending);
    CleanRemoveCompleteIff(c, s);
  }

  lemma {:induction false} RunComplete(c: Config, t0: int, trace: seq<Action>)
    requires c.ttl > 0 && Legal(c, Start(t0), trace) && Instant(c, Start(t0), trace)
    requires Undisturbed(c, Start(t0), trace)
    ensures CompleteInv(c, Run(c, Start(t0), trace))
  {
    if trace != [] {
      var front, last := trace[..|trace| - 1], trace[|trace| - 1];
      RunComplete(c, t0, front);
      var s := Run(c, Start(t0), front);
      match last
      case Tick(_) => TickComplete(c, s, last);
      case Save(_, _, _) => SaveComplete(c, s, last);
      case Delete(_) => DeleteComplete(c, s, last);
      case Evict(_) => EvictComplete(c, s, last);
      case CleanRead(_, _) => CleanReadComplete(c, s, last);
      case CleanRemove => CleanRemoveComplete(c, s);
      case Draw(_, _, _) =>
      case Discard(_, _) => DeleteComplete(c, s, last);
    }
  }

  // Main result: in every undisturbed interleaving, what a plain map would still
  // hold for at least the slack is in the index.
  lemma LiveValuesAreIndexed(c: Config, t0: int, trace: seq<Action>, id: string)
    requires c.ttl > 0 && Legal(c, Start(t0), trace) && Instant(c, Start(t0), trace)
    requires Undisturbed(c, Start(t0), trace) && id != "exp"
    requires var entry := LastSave(c.ttl, t0, trace, id);
             entry.Some? &&
             entry.value.1 - Clock(t0, trace) >= if c.ttl % SECOND == 0 then 1_000_000_000 else 2_000_000_000
    ensures id in Index(c, Run(c, Start(t0), trace).db)
  {
    RunComplete(c, t0, trace);
    RunAgrees(c, t0, trace, id);
    assert LivesFor(c, Run(c, Start(t0), trace).db, id, Slack(c));
  }

  lemma RunLast(c: Config, s: Sys, front: seq<Action>, a: Action)
    requires Legal(c, s, front) && Enabled(c, Run(c, s, front), a)
    ensures Legal(c, s, front + [a]) && Run(c, s, front + [a]) == Apply(c, Run(c, s, front), a)
    ensures Instant(c, s, front) && (a.Save? ==> a.score == Run(c, s, front).db.now / SECOND) ==>
              Instant(c, s, front + [a])
  {
    assert (front + [a])[..|front + [a]| - 1] == front;
  }

  lemma UndisturbedLast(c: Config, s: Sys, front: seq<Action>, a: Action)
    requires Undisturbed(c, s, front) && !Deletes(a, "exp")
    requires a.Save? ==> a.id != "exp" && a.id !in Run(c, s, front).pending
    ensures Undisturbed(c, s, front + [a])
  {
    hide Apply;
    var trace := front + [a];
    assert trace[..|trace| - 1] == front && trace[|trace| - 1] == a;
  }

  // Without that restriction it fails: a save between the two steps of a cleanup
  // leaves a value with its whole life ahead and no entry in the index.
  lemma OverlapOrphans(c: Config, s: Sys, id: string, data: string)
    requires c.ttl > 0 && id != "exp" && id in s.pending && !Scores(s.db, IndexKey(c)).WrongType?
    ensures var s' := Apply(c, Apply(c, s, Save(id, data, s.db.now / SECOND)), CleanRemove);
            LivesFor(c, s'.db, id, c.ttl) && id !in Index(c, s'.db)
  {
    KeyForInjective(c);
  }

  // A cleanup that has read the expired id and not yet removed it.
  lemma ReadButNotRemoved(c: Config, t0: int, id: string, data: string) returns (trace: seq<Action>)
    requires c.ttl > 0 && id != "" && id != "exp"
    ensures Legal(c, Start(t0), trace) && Instant(c, Start(t0), trace)
    ensures id in Run(c, Start(t0), trace).pending
    ensures !Scores(Run(c, Start(t0), trace).db, IndexKey(c)).WrongType?
  {
    KeyForInjective(c);
    var s0 := Start(t0);
    var save := Save(id, data, t0 / SECOND);
    RunLast(c, s0, [], save);
    RunLast(c, s0, [] + [save], Tick(c.ttl));
    var t2 := [] + [save] + [Tick(c.ttl)];
    RunSound(c, t0, t2);
    CleanupBound(c, Run(c, s0, t2).db, id);
    OnlyIdInRange(c, Run(c, s0, t2).db, id);
    RunLast(c, s0, t2, CleanRead(0, [id]));
    trace := t2 + [CleanRead(0, [id])];
  }

  lemma OverlappingSaveIsLost(c: Config, t0: int, id: string, data: string)
    requires c.ttl > 0 && id != "" && id != "exp"
    ensures exists trace ::
              && Legal(c, Start(t0), trace) && Instant(c, Start(t0), trace)
              && LivesFor(c, Run(c, Start(t0), trace).db, id, c.ttl)
              && id !in Index(c, Run(c, Start(t0), trace).db)
  {
    var trace := ReadButNotRemoved(c, t0, id, data);
    var s := Run(c, Start(t0), trace);
    OverlapOrphans(c, s, id, data);
    var save := Save(id, data, s.db.now / SECOND);
    RunLast(c, Start(t0), trace, save);
    RunLast(c, Start(t0), trace + [save], CleanRemove);
    var whole := trace + [save] + [CleanRemove];
    assert Legal(c, Start(t0), whole) && Instant(c, Start(t0), whole);
  }

  lemma OnlyIdInRange(c: Config, db: Db, id: string)
    requires Index(c, db).Keys == {id} && Index(c, db)[id] <= Cutoff(c, db.now)
    ensures IsRangeByScore(Index(c, db), Cutoff(c, db.now), 0, [id])
  {
    assert Eligible(Index(c, db), Cutoff(c, db.now)) == {id};
    assert Members([id]) == {id};
  }

  // Whenever the save or the TTL has a fraction of a second, an undisturbed cleanup
  // drops the id of a value that can still be read.
  lemma CleanupDropsReadable(c: Config, t0: int, id: string, data: string)
    requires c.ttl > 0 && id != "" && id != "exp" && (t0 % SECOND != 0 || c.ttl % SECOND != 0)
    ensures exists trace ::
              && Legal(c, Start(t0), trace) && Instant(c, Start(t0), trace) && Undisturbed(c, Start(t0), trace)
              && Get(Run(c, Start(t0), trace).db, KeyFor(c, id)) == Reply(data)
              && id !in Index(c, Run(c, Start(t0), trace).db)
  {
    var trace := EarlyCleanup(c, t0, id, data);
    assert Legal(c, Start(t0), trace);
  }

  lemma EarlyCleanup(c: Config, t0: int, id: string, data: string) returns (trace: seq<Action>)
    requires c.ttl > 0 && id != "" && id != "exp" && (t0 % SECOND != 0 || c.ttl % SECOND != 0)
    ensures Legal(c, Start(t0), trace) && Instant(c, Start(t0), trace) && Undisturbed(c, Start(t0), trace)
    ensures Get(Run(c, Start(t0), trace).db, KeyFor(c, id)) == Reply(data)
    ensures id !in Index(c, Run(c, Start(t0), trace).db)
  {
    KeyForInjective(c);
    SelectedTooEarly(c, t0);
    var s0 := Start(t0);
    var save, tick := Save(id, data, t0 / SECOND), Tick(FirstSelected(c, t0) - t0);
    RunLast(c, s0, [], save);
    UndisturbedLast(c, s0, [], save);
    RunLast(c, s0, [] + [save], tick);
    UndisturbedLast(c, s0, [] + [save], tick);
    var t2, read := [] + [save] + [tick], CleanRead(0, [id]);
    OnlyIdInRange(c, Run(c, s0, t2).db, id);
    RunLast(c, s0, t2, read);
    UndisturbedLast(c, s0, t2, read);
    RunLast(c, s0, t2 + [read], CleanRemove);
    UndisturbedLast(c, s0, t2 + [read], CleanRemove);
    trace := t2 + [read] + [CleanRemove];
  }

  // ---- Random getters ----

  // A getter only ever draws what has been saved under a name of its own.
  lemma DrawnIsIndexed(c: Config, t0: int, trace: seq<Action>, getter: nat, id: string, saw: Reply<string>)
    requires c.ttl > 0 && Legal(c, Start(t0), trace) && Instant(c, Start(t0), trace)
    requires Enabled(c, Run(c, Start(t0), trace), Draw(getter, id, saw))
    ensures id in Index(c, Run(c, Start(t0), trace).db) && id != "" && id != "exp"
    ensures saw == PlainGet(c.ttl, t0, trace, id)
  {
    RunSound(c, t0, trace);
    LookupIsPlainGet(c, t0, trace, id);
  }

  predicate CanRead(decodes: string -> bool, r: Reply<string>) {
    r.Reply? && decodes(r.value)
  }

  // The stored string of an id after some steps, against what those steps saved:
  // without a save it is the one there was, or gone.
  ghost predicate AgreesSince(c: Config, before: Db, db: Db, id: string, entry: Option<(string, int)>) {
    var key := KeyFor(c, id);
    if entry.Some? then Agrees(c, db, id, entry)
    else key in db.keys ==> key in before.keys && db.keys[key] == before.keys[key]
  }

  lemma AgreesSinceStep(c: Config, before: Db, s: Sys, a: Action, id: string, entry: Option<(string, int)>)
    requires Enabled(c, s, a) && id != "exp" && AgreesSince(c, before, s.db, id, entry)
    ensures AgreesSince(c, before, Apply(c, s, a).db, id,
                        if a.Save? && a.id == id then Some((a.data, s.db.now + c.ttl))
                        else if Deletes(a, id) then None
                        else entry)
  {
    KeyForInjective(c);
  }

  lemma {:induction false} RunAgreesSince(c: Config, s: Sys, steps: seq<Action>, id: string)
    requires Legal(c, s, steps) && id != "exp"
    ensures AgreesSince(c, s.db, Run(c, s, steps).db, id, LastSave(c.ttl, s.db.now, steps, id))
    ensures Run(c, s, steps).db.now == Clock(s.db.now, steps) >= s.db.now
  {
    if steps != [] {
      var front, last := steps[..|steps| - 1], steps[|steps| - 1];
      RunAgreesSince(c, s, front, id);
      AgreesSinceStep(c, s.db, Run(c, s, front), last, id, LastSave(c.ttl, s.db.now, front, id));
    }
  }

  // Main result: the getter's delete of an id it could not read removes a readable
  // value exactly when the steps since its read have saved one, by themselves.
  lemma DiscardLosesReadableIff(c: Config, s: Sys, getter: nat, id: string, saw: Reply<string>, steps: seq<Action>,
                                decodes: string -> bool)
    requires id != "exp" && Enabled(c, s, Draw(getter, id, saw)) && !CanRead(decodes, saw)
    requires Legal(c, Apply(c, s, Draw(getter, id, saw)), steps)
    requires Enabled(c, Run(c, Apply(c, s, Draw(getter, id, saw)), steps), Discard(getter, id))
    ensures var s1 := Run(c, Apply(c, s, Draw(getter, id, saw)), steps);
            && (CanRead(decodes, Get(s1.db, KeyFor(c, id))) <==>
                CanRead(decodes, PlainGet(c.ttl, s.db.now, steps, id)))
            && var s2 := Apply(c, s1, Discard(getter, id));
               Get(s2.db, KeyFor(c, id)) == Nil && !Enabled(c, s2, Discard(getter, id))
  {
    KeyForInjective(c);
    var s0 := Apply(c, s, Draw(getter, id, saw));
    RunAgreesSince(c, s0, steps, id);
  }

  lemma SavedThenDiscarded(c: Config, s: Sys, getter: nat, id: string, data: string, score: int)
    requires c.ttl > 0 && id != "exp" && !Scores(s.db, IndexKey(c)).WrongType?
    ensures var s1 := Apply(c, s, Save(id, data, score));
            && Get(s1.db, KeyFor(c, id)) == Reply(data)
            && var s2 := Apply(c, s1, Discard(getter, id));
               Get(s2.db, KeyFor(c, id)) == Nil && id !in Index(c, s2.db)
  {
    KeyForInjective(c);
  }

  // Such a loss is possible: the id expires, a getter reads it as stale, a client
  // saves it anew, and the getter deletes what was saved.
  lemma FreshSaveIsDiscarded(c: Config, t0: int, getter: nat, id: string, stale: string, anew: string)
    returns (trace: seq<Action>)
    requires c.ttl > 0 && id != "" && id != "exp"
    ensures trace == [Save(id, stale, t0 / SECOND), Tick(c.ttl), Draw(getter, id, Nil),
                      Save(id, anew, (t0 + c.ttl) / SECOND), Discard(getter, id)]
    ensures Legal(c, Start(t0), trace) && Instant(c, Start(t0), trace)
    ensures Get(Run(c, Start(t0), trace[..4]).db, KeyFor(c, id)) == Reply(anew)
    ensures Get(Run(c, Start(t0), trace).db, KeyFor(c, id)) == Nil && id !in Index(c, Run(c, Start(t0), trace).db)
  {
    KeyForInjective(c);
    var s0 := Start(t0);
    var a1, a2, a3 := Save(id, stale, t0 / SECOND), Tick(c.ttl), Draw(getter, id, Nil);
    var a4, a5 := Save(id, anew, (t0 + c.ttl) / SECOND), Discard(getter, id);
    RunLast(c, s0, [], a1);
    RunLast(c, s0, [] + [a1], a2);
    RunLast(c, s0, [] + [a1] + [a2], a3);
    var s3 := Run(c, s0, [] + [a1] + [a2] + [a3]);
    SavedThenDiscarded(c, s3, getter, id, anew, a4.score);
    RunLast(c, s0, [] + [a1] + [a2] + [a3], a4);
    RunLast(c, s0, [] + [a1] + [a2] + [a3] + [a4], a5);
    trace := [a1, a2, a3, a4, a5];
    assert [] + [a1] + [a2] + [a3] + [a4] + [a5] == trace;
    assert [] + [a1] + [a2] + [a3] + [a4] == trace[..4];
  }

  // ---- Draining a backlog ----

  ghost predicate Cycle(c: Config, cutoff: int, batch: nat, db: Db, db': Db) {
    exists ids :: IsRangeByScore(Index(c, db), cutoff, batch, ids) && db' == CleanupTx(c, db, Members(ids))
  }

  lemma IndexAfterCleanup(c: Config, db: Db, ids: set<string>)
    ensures Index(c, CleanupTx(c, db, ids)) == Index(c, db) - ids
  {
  }

  // One cycle removes min(batch, eligible) ids, all of them eligible.
  lemma CycleRemoves(c: Config, cutoff: int, batch: nat, db: Db, db': Db)
    requires batch > 0 && Cycle(c, cutoff, batch, db, db')
    ensures var before, after := Eligible(Index(c, db), cutoff), Eligible(Index(c, db'), cutoff);
            && after <= before
            && |after| == (if |before| <= batch then 0 else |before| - batch)
            && Index(c, db') == Index(c, db) - (before - after)
  {
    hide CleanupTx, Index;
    var ids :| IsRangeByScore(Index(c, db), cutoff, batch, ids) && db' == CleanupTx(c, db, Members(ids));
    IndexAfterCleanup(c, db, Members(ids));
    var before := Eligible(Index(c, db), cutoff);
    DistinctSize(ids);
    assert Eligible(Index(c, db'), cutoff) == before - Members(ids);
    assert before - (before - Members(ids)) == Members(ids);
  }

  // Main result: with the clock fixed and nothing saved, k cycles leave exactly
  // the backlog minus k batches, and never touch an id scored after the cutoff.
  lemma {:induction false} BacklogDrains(c: Config, cutoff: int, batch: nat, dbs: seq<Db>, k: nat)
    requires batch > 0 && k < |dbs|
    requires forall i | 0 <= i < |dbs| - 1 :: Cycle(c, cutoff, batch, dbs[i], dbs[i + 1])
    ensures var start := |Eligible(Index(c, dbs[0]), cutoff)|;
            |Eligible(Index(c, dbs[k]), cutoff)| == if start <= k * batch then 0 else start - k * batch
    ensures forall id | id in Index(c, dbs[0]) && Index(c, dbs[0])[id] > cutoff ::
              id in Index(c, dbs[k]) && Index(c, dbs[k])[id] == Index(c, dbs[0])[id]
  {
    if k > 0 {
      BacklogDrains(c, cutoff, batch, dbs, k - 1);
      assert dbs[k - 1 + 1] == dbs[k] && Cycle(c, cutoff, batch, dbs[k - 1], dbs[k - 1 + 1]);
      CycleRemoves(c, cutoff, batch, dbs[k - 1], dbs[k]);
      assert k * batch == (k - 1) * batch + batch;
    }
  }
}
