// The entity store: values with a time to live, and an index of their ids
// scored by creation second.  Both live in one Redis key space.
module RedisStore {
  import opened Durations
  import opened Wrappers
  import opened Redis

  datatype Config = Config(prefix: string, ttl: int)

  function KeyFor(c: Config, id: string): string {
    c.prefix + id
  }

  function IndexKey(c: Config): string {
    c.prefix + "exp"
  }

  lemma KeyForInjective(c: Config)
    ensures forall a, b :: KeyFor(c, a) == KeyFor(c, b) ==> a == b
    ensures forall a :: KeyFor(c, a) == IndexKey(c) <==> a == "exp"
  {
    forall a, b | KeyFor(c, a) == KeyFor(c, b) ensures a == b {
      assert a == KeyFor(c, a)[|c.prefix|..] && b == KeyFor(c, b)[|c.prefix|..];
    }
    assert IndexKey(c) == KeyFor(c, "exp");
  }

  function Index(c: Config, db: Db): map<string, int> {
    match Scores(db, IndexKey(c))
    case Reply(m) => m
    case _ => map[]
  }

  // ---- The transactions ----

  function SaveTx(c: Config, db: Db, id: string, data: string, score: int): Db {
    ZAdd(Set(db, KeyFor(c, id), data, c.ttl), IndexKey(c), id, score)
  }

  predicate SaveFails(c: Config, db: Db, id: string, data: string) {
    Scores(Set(db, KeyFor(c, id), data, c.ttl), IndexKey(c)).WrongType?
  }

  function DeleteTx(c: Config, db: Db, id: string): Db {
    ZRem(Del(db, KeyFor(c, id)), IndexKey(c), {id})
  }

  predicate DeleteFails(c: Config, db: Db, id: string) {
    Scores(Del(db, KeyFor(c, id)), IndexKey(c)).WrongType?
  }

  function CleanupTx(c: Config, db: Db, ids: set<string>): Db {
    ZRem(db, IndexKey(c), ids)
  }

  // Cleanup selects the ids created no later than this second.
  function Cutoff(c: Config, now: int): int {
    now / SECOND - c.ttl / SECOND
  }

  // A string that is still readable where the index should be.
  ghost predicate IndexTaken(c: Config, db: Db) {
    var key := IndexKey(c);
    key in db.keys && db.keys[key].Str? && db.keys[key].expireAt > db.now
  }

  // A delete is reported as failed exactly when the index key is taken by another
  // value than the one it deletes.
  lemma DeleteFailsIff(c: Config, db: Db, id: string)
    ensures DeleteFails(c, db, id) <==> id != "exp" && IndexTaken(c, db)
  {
    KeyForInjective(c);
  }

  // ---- Soundness of the index ----

  // An indexed id was saved in the second its score names: a stored value expires
  // one TTL after some instant of that second, a missing one has already expired.
  ghost predicate EntryOk(c: Config, db: Db, id: string, score: int) {
    match Lookup(db, KeyFor(c, id))
    case None => score * SECOND + c.ttl <= db.now
    case Some(Str(_, e)) => (e - c.ttl) / SECOND == score
    case Some(ZSet(_)) => false
  }

  ghost predicate IndexSound(c: Config, db: Db) {
    forall id | id in Index(c, db) :: id != "" && id != "exp" && EntryOk(c, db, id, Index(c, db)[id])
  }

  lemma SaveSound(c: Config, db: Db, id: string, data: string)
    requires c.ttl > 0 && id != "" && IndexSound(c, db)
    ensures IndexSound(c, SaveTx(c, db, id, data, db.now / SECOND))
  {
    KeyForInjective(c);
    var db' := SaveTx(c, db, id, data, db.now / SECOND);
    forall j | j in Index(c, db')
      ensures j != "" && j != "exp" && EntryOk(c, db', j, Index(c, db')[j])
    {
      if j != id { assert j in Index(c, db); }
    }
  }

  lemma DeleteSound(c: Config, db: Db, id: string)
    requires IndexSound(c, db)
    ensures IndexSound(c, DeleteTx(c, db, id))
  {
    KeyForInjective(c);
    var db' := DeleteTx(c, db, id);
    assert Index(c, db') == if id == "exp" then map[] else Index(c, db) - {id};
    forall j | j in Index(c, db')
      ensures j != "" && j != "exp" && EntryOk(c, db', j, Index(c, db')[j])
    {
      assert j in Index(c, db) && Lookup(db', KeyFor(c, j)) == Lookup(db, KeyFor(c, j));
    }
  }

  lemma CleanupSound(c: Config, db: Db, ids: set<string>)
    requires IndexSound(c, db)
    ensures IndexSound(c, CleanupTx(c, db, ids))
    ensures Index(c, CleanupTx(c, db, ids)) == Index(c, db) - ids
  {
    KeyForInjective(c);
    var db' := CleanupTx(c, db, ids);
    forall j | j in Index(c, db')
      ensures j != "" && j != "exp" && EntryOk(c, db', j, Index(c, db')[j])
    {
      assert j in Index(c, db);
    }
  }

  lemma TickSound(c: Config, db: Db, d: nat)
    requires IndexSound(c, db)
    ensures IndexSound(c, db.(now := db.now + d))
  {
    var db' := db.(now := db.now + d);
    forall j | j in Index(c, db')
      ensures j != "" && j != "exp" && EntryOk(c, db', j, Index(c, db')[j])
    {
      assert j in Index(c, db);
    }
  }

  // ---- How early cleanup may act ----

  // Time a value may still have left when cleanup selects its id.
  function Slack(c: Config): int {
    if c.ttl % SECOND == 0 then SECOND else 2 * SECOND
  }

  // Both sides of the cleanup bound: what has expired is selected, and what is
  // selected has expired or is about to.
  lemma CleanupBound(c: Config, db: Db, id: string)
    requires c.ttl > 0 && IndexSound(c, db) && id in Index(c, db)
    ensures Lookup(db, KeyFor(c, id)).None? ==> id in Eligible(Index(c, db), Cutoff(c, db.now))
    ensures id in Eligible(Index(c, db), Cutoff(c, db.now)) ==>
              match Lookup(db, KeyFor(c, id))
              case Some(Str(_, e)) => e - db.now < 2_000_000_000 && (c.ttl % SECOND == 0 ==> e - db.now < 1_000_000_000)
              case _ => true
  {
    assert EntryOk(c, db, id, Index(c, db)[id]);
  }

  // The comment above cleanup says it finds what has expired.  For a value saved
  // at t that holds at every instant from then on exactly when neither t nor the
  // TTL has a fraction of a second.
  lemma CleanupSelectsOnlyExpiredIff(c: Config, t: int)
    requires c.ttl > 0
    ensures (forall now | t <= now :: t / SECOND <= Cutoff(c, now) ==> t + c.ttl <= now) <==>
            t % SECOND == 0 && c.ttl % SECOND == 0
  {
    SelectedTooEarly(c, t);
    if forall now | t <= now :: t / SECOND <= Cutoff(c, now) ==> t + c.ttl <= now {
      assert t / SECOND <= Cutoff(c, FirstSelected(c, t));
    }
  }

  // The first instant from t on at which cleanup selects a value saved at t.
  function FirstSelected(c: Config, t: int): int {
    var first := (t / SECOND + c.ttl / SECOND) * SECOND;
    if first < t then t else first
  }

  lemma SelectedTooEarly(c: Config, t: int)
    requires c.ttl > 0
    ensures t <= FirstSelected(c, t) && t / SECOND <= Cutoff(c, FirstSelected(c, t))
    ensures FirstSelected(c, t) < t + c.ttl <==> t % SECOND != 0 || c.ttl % SECOND != 0
  {
    var first := (t / SECOND + c.ttl / SECOND) * SECOND;
    assert first / SECOND == t / SECOND + c.ttl / SECOND;
  }

  // ---- Entities ----

  datatype Codec<!E> = Codec(getId: E -> string, encode: E -> Option<string>, decode: string -> Option<E>)

  datatype StoreError = EmptyId | EncodeFailed | DecodeFailed | NotFound | RedisFailed

  function Read<E>(c: Config, codec: Codec<E>, db: Db, id: string): Result<E, StoreError> {
    if id == "" then Err(EmptyId)
    else
      match Get(db, KeyFor(c, id))
      case Nil => Err(NotFound)
      case WrongType => Err(RedisFailed)
      case Reply(data) =>
        match codec.decode(data)
        case None => Err(DecodeFailed)
        case Some(e) => Ok(e)
  }

  ghost predicate RoundTrips<E(!new)>(codec: Codec<E>) {
    forall e :: codec.encode(e).Some? ==> codec.decode(codec.encode(e).value) == Some(e)
  }

  // What is saved is read back until its time to live is over, and not after.
  lemma SaveThenRead<E(!new)>(c: Config, codec: Codec<E>, db: Db, e: E, score: int, d: nat)
    requires c.ttl > 0 && RoundTrips(codec) && codec.encode(e).Some?
    requires codec.getId(e) != ""
    ensures var id := codec.getId(e);
            var saved := SaveTx(c, db, id, codec.encode(e).value, score);
            Read(c, codec, saved.(now := db.now + d), id) == if d < c.ttl then Ok(e) else Err(NotFound)
  {
    KeyForInjective(c);
  }

  function Delivered(deletes: seq<bool>): nat {
    if deletes == [] then 0
    else Delivered(deletes[..|deletes| - 1]) + if deletes[|deletes| - 1] then 1 else 0
  }

  // An id is readable when a live, decodable value is stored under its key.
  ghost predicate Readable<E>(c: Config, codec: Codec<E>, db: Db, id: string) {
    id != "" && Read(c, codec, db, id).Ok?
  }

  class Storage<!E(!new)> {
    const c: Config
    const codec: Codec<E>
    const cleanupBatchSize: int
    var db: Db

    ghost predicate Valid()
      reads this
    {
      c.ttl > 0 && IndexSound(c, db)
    }

    constructor (c: Config, codec: Codec<E>, cleanupBatchSize: int, now: int)
      ensures (c.ttl > 0 ==> Valid()) && this.c == c && this.codec == codec && db == Db(map[], now)
      ensures this.cleanupBatchSize == cleanupBatchSize
    {
      this.c, this.codec, this.cleanupBatchSize, db := c, codec, cleanupBatchSize, Db(map[], now);
    }

    method Save(e: E) returns (r: Outcome<StoreError>)
      requires Valid()
      modifies this
      ensures Valid()
      ensures codec.getId(e) == "" ==> r == Fail(EmptyId) && db == old(db)
      ensures codec.getId(e) != "" && codec.encode(e).None? ==> r == Fail(EncodeFailed) && db == old(db)
      ensures codec.getId(e) != "" && codec.encode(e).Some? ==>
                var data := codec.encode(e).value;
                && db == SaveTx(c, old(db), codec.getId(e), data, old(db).now / SECOND)
                && r == if codec.getId(e) == "exp" || IndexTaken(c, old(db)) then Fail(RedisFailed) else Pass
    {
      var id := codec.getId(e);
      if id == "" { return Fail(EmptyId); }
      var createdAt := db.now / SECOND;
      var encoded := codec.encode(e);
      if encoded.None? { return Fail(EncodeFailed); }
      SaveSound(c, db, id, encoded.value);
      KeyForInjective(c);
      var failed := SaveFails(c, db, id, encoded.value);
      db := SaveTx(c, db, id, encoded.value, createdAt);
      return if failed then Fail(RedisFailed) else Pass;
    }

    method GetByID(id: string) returns (r: Result<E, StoreError>)
      ensures r == Read(c, codec, db, id)
    {
      if id == "" { return Err(EmptyId); }
      var reply := Get(db, KeyFor(c, id));
      match reply {
        case Nil => return Err(NotFound);
        case WrongType => return Err(RedisFailed);
        case Reply(data) =>
          var e := codec.decode(data);
          if e.None? { return Err(DecodeFailed); }
          return Ok(e.value);
      }
    }

    method Delete(id: string) returns (r: Outcome<StoreError>)
      requires Valid()
      modifies this
      ensures Valid()
      ensures db == if id == "" then old(db) else DeleteTx(c, old(db), id)
      ensures r == if id == "" then Fail(EmptyId)
                   else if id != "exp" && IndexTaken(c, old(db)) then Fail(RedisFailed) else Pass
    {
      if id == "" { return Fail(EmptyId); }
      DeleteFailsIff(c, db, id);
      DeleteSound(c, db, id);
      var failed := DeleteFails(c, db, id);
      db := DeleteTx(c, db, id);
      return if failed then Fail(RedisFailed) else Pass;
    }

    // Success is an entity of the newest second; NotFound leaves at most ties
    // within one second unseen.
    method GetMostRecent() returns (r: Result<E, StoreError>)
      requires Valid()
      ensures r == Err(RedisFailed) <==> Scores(db, IndexKey(c)).WrongType?
      ensures Index(c, db) != map[] ==> exists id :: IsTop(Index(c, db), id) && Read(c, codec, db, id) == r
      ensures Index(c, db) == map[] ==> r == Err(NotFound) || r == Err(RedisFailed)
      ensures r == Err(NotFound) ==>
                forall id | id in Index(c, db) ::
                  match Lookup(db, KeyFor(c, id))
                  case Some(Str(_, e)) => e - db.now < SECOND
                  case _ => true
    {
      if Scores(db, IndexKey(c)).WrongType? { return Err(RedisFailed); }
      var index := Index(c, db);
      if index == map[] { return Err(NotFound); }
      TopExists(index, index.Keys);
      assert exists id :: IsTop(index, id) by {
        var top :| top in index && forall other | other in index :: index[other] <= index[top];
        assert IsTop(index, top);
      }
      var id :| IsTop(index, id);
      assert EntryOk(c, db, id, index[id]);
      r := GetByID(id);
      if r == Err(NotFound) {
        NewestGoneBound(c, db, id);
      }
    }

    // Deletes an id that cannot be read, if the delete reaches Redis at all.
    method Discard(id: string, delivered: bool, ghost db0: Db, ghost removed: set<string>)
      returns (ghost removed': set<string>)
      requires Valid() && Pruned(c, codec, db0, db, removed)
      requires id in Index(c, db) && !Readable(c, codec, db, id)
      modifies this
      ensures Valid() && Pruned(c, codec, db0, db, removed')
      ensures |removed'| == |removed| + if delivered then 1 else 0
      ensures !Scores(db, IndexKey(c)).WrongType?
    {
      removed' := removed;
      if delivered {
        PrunedMore(c, codec, db0, db, removed, id);
        removed' := removed + {id};
        var deleted := Delete(id);
      }
    }

    // One draw: the entity of some indexed id, or that id discarded.
    method Draw(index: map<string, int>, delivered: bool, ghost db0: Db, ghost removed: set<string>)
      returns (e: Option<E>, ghost removed': set<string>)
      requires Valid() && Pruned(c, codec, db0, db, removed) && index == Index(c, db) && index != map[]
      modifies this
      ensures Valid() && Pruned(c, codec, db0, db, removed')
      ensures e.Some? ==>
                removed' == removed && exists id :: id in Index(c, db) && Read(c, codec, db, id) == Ok(e.value)
      ensures e.None? ==>
                && |removed'| == (|removed| + if delivered then 1 else 0) && !Scores(db, IndexKey(c)).WrongType?
                && exists id :: id in Index(c, db0) && !Readable(c, codec, db0, id)
    {
      hide Pruned;
      PrunedKeeps(c, codec, db0, db, removed);
      var id :| id in index;
      assert EntryOk(c, db, id, index[id]);
      if id == "" { assert false; }          // Save keeps the empty id out
      var reply := Get(db, KeyFor(c, id));
      match reply {
        case Nil =>                            // stale id
        case WrongType => assert false;        // an indexed id never names the index
        case Reply(data) =>
          e := codec.decode(data);
          if e.Some? { return e, removed; }
      }
      assert id in Index(c, db0) && !Readable(c, codec, db0, id);
      removed' := Discard(id, delivered, db0, removed);
      e := None;
    }

    // Up to five draws; a drawn id that cannot be read is deleted.  `delivered`
    // says which of those deletes reach Redis.
    method GetRandom(delivered: seq<bool>) returns (r: Result<E, StoreError>, ghost removed: set<string>)
      requires Valid() && |delivered| == 5
      modifies this
      ensures Valid() && Pruned(c, codec, old(db), db, removed) && |removed| <= 5
      ensures forall id | id != "exp" && Readable(c, codec, old(db), id) ::
                && Read(c, codec, db, id) == Read(c, codec, old(db), id)
                && (id in Index(c, old(db)) ==> id in Index(c, db))
      ensures r.Ok? ==> exists id :: id in Index(c, db) && Read(c, codec, db, id) == r
      ensures r == Err(NotFound) ==> Index(c, db) == map[] || |removed| == Delivered(delivered)
      ensures Index(c, old(db)) != map[] && (forall id | id in Index(c, old(db)) :: Readable(c, codec, old(db), id)) ==>
                r.Ok?
      ensures r == Err(RedisFailed) <==> Scores(old(db), IndexKey(c)).WrongType?
      ensures r.Err? ==> r.error == NotFound || (r.error == RedisFailed && db == old(db))
    {
      hide Pruned, Read, Readable, IndexSound;
      removed := {};
      NothingPruned(c, codec, db);
      var attempts := 0;
      while attempts < 5
        invariant 0 <= attempts <= 5 && Valid() && |removed| <= attempts
        invariant Pruned(c, codec, old(db), db, removed)
        invariant |removed| == Delivered(delivered[..attempts])
        invariant attempts > 0 ==> exists id :: id in Index(c, old(db)) && !Readable(c, codec, old(db), id)
        invariant attempts > 0 ==> !Scores(old(db), IndexKey(c)).WrongType? && !Scores(db, IndexKey(c)).WrongType?
        invariant attempts == 0 ==> db == old(db)
      {
        PrunedKeeps(c, codec, old(db), db, removed);
        if Scores(db, IndexKey(c)).WrongType? { return Err(RedisFailed), removed; }
        var index := Index(c, db);
        if index == map[] { return Err(NotFound), removed; }
        assert delivered[..attempts + 1][..attempts] == delivered[..attempts];
        var e;
        e, removed := Draw(index, delivered[attempts], old(db), removed);
        if e.Some? {
          PrunedKeeps(c, codec, old(db), db, removed);
          return Ok(e.value), removed;
        }
        attempts := attempts + 1;
      }
      PrunedKeeps(c, codec, old(db), db, removed);
      assert delivered[..5] == delivered;
      return Err(NotFound), removed;
    }

    // One cleanup cycle with nothing in between its read and its removal.
    method CleanupExpired(max: int) returns (r: Outcome<StoreError>, ghost removed: set<string>)
      requires Valid()
      modifies this
      ensures r == if Scores(old(db), IndexKey(c)).WrongType? then Fail(RedisFailed) else Pass
      ensures Valid() && db == CleanupTx(c, old(db), removed)
      ensures Index(c, db) == Index(c, old(db)) - removed
      ensures exists ids ::
                IsRangeByScore(Index(c, old(db)), Cutoff(c, old(db).now), max, ids) && removed == Members(ids)
    {
      var now := db.now / SECOND;
      var ttlSeconds := c.ttl / SECOND;
      var expiredBefore := now - ttlSeconds;
      var reply := Scores(db, IndexKey(c));
      if reply.WrongType? {
        NoIds(Cutoff(c, db.now), max);
        return Fail(RedisFailed), {};
      }
      var expiredIDs := RangeByScore(Index(c, db), expiredBefore, max);
      var members: seq<string> := [];
      for k := 0 to |expiredIDs|
        invariant members == expiredIDs[..k]
      {
        members := members + [expiredIDs[k]];
      }
      assert members == expiredIDs;
      removed := Members(expiredIDs);
      CleanupSound(c, db, Members(members));
      db := CleanupTx(c, db, Members(members));
      r := Pass;
    }
  }

  datatype Input = Input(
    hasClient: bool, serviceName: string, entityNamePlural: string, ttl: int, cleanupBatchSize: int)

  datatype InputError = NilClient | EmptyServiceName | EmptyEntityName

  // Checks the input, in this order, and fills in the defaults.
  method NewStorage<E(!new)>(input: Input, codec: Codec<E>, now: int) returns (r: Result<Storage<E>, InputError>)
    ensures r.Ok? <==> input.hasClient && input.serviceName != "" && input.entityNamePlural != ""
    ensures r.Err? ==>
              && (r.error.NilClient? <==> !input.hasClient)
              && (r.error.EmptyServiceName? <==> input.hasClient && input.serviceName == "")
    ensures r.Ok? ==>
              && fresh(r.value) && (input.ttl >= 0 ==> r.value.Valid())
              && r.value.codec == codec && r.value.db == Db(map[], now)
              && r.value.c.prefix == input.serviceName + ":" + input.entityNamePlural + ":"
              && r.value.c.ttl == (if input.ttl == 0 then 3600 * SECOND else input.ttl)
              && r.value.cleanupBatchSize == (if input.cleanupBatchSize == 0 then 1_000 else input.cleanupBatchSize)
  {
    if !input.hasClient { return Err(NilClient); }
    if input.serviceName == "" { return Err(EmptyServiceName); }
    if input.entityNamePlural == "" { return Err(EmptyEntityName); }
    var keyPrefix := input.serviceName + ":" + input.entityNamePlural + ":";
    var ttl := if input.ttl == 0 then 3600 * SECOND else input.ttl;
    var cleanupBatchSize := if input.cleanupBatchSize == 0 then 1_000 else input.cleanupBatchSize;
    var s := new Storage(Config(keyPrefix, ttl), codec, cleanupBatchSize, now);
    return Ok(s);
  }

  lemma NoIds(cutoff: int, max: int)
    ensures IsRangeByScore(map[], cutoff, max, []) && Members([]) == {}
  {
    assert Eligible(map[], cutoff) == {};
  }

  // If the newest indexed value is gone, every other one goes within a second.
  lemma NewestGoneBound(c: Config, db: Db, top: string)
    requires c.ttl > 0 && IndexSound(c, db) && IsTop(Index(c, db), top)
    requires Lookup(db, KeyFor(c, top)).None?
    ensures forall id | id in Index(c, db) ::
              match Lookup(db, KeyFor(c, id))
              case Some(Str(_, e)) => e - db.now < SECOND
              case _ => true
  {
    assert EntryOk(c, db, top, Index(c, db)[top]);
    forall id | id in Index(c, db)
      ensures match Lookup(db, KeyFor(c, id))
              case Some(Str(_, e)) => e - db.now < SECOND
              case _ => true
    {
      assert EntryOk(c, db, id, Index(c, db)[id]);
    }
  }

  // `db` is `db0` without the entries `removed`, none of which could be read.
  ghost predicate Pruned<E>(c: Config, codec: Codec<E>, db0: Db, db: Db, removed: set<string>) {
    && db.now == db0.now
    && Index(c, db) == Index(c, db0) - removed
    && removed <= Index(c, db0).Keys
    && (forall id | id in removed :: !Readable(c, codec, db0, id))
    && (forall id | id !in removed && id != "exp" :: Lookup(db, KeyFor(c, id)) == Lookup(db0, KeyFor(c, id)))
  }

  // Deleting one more unreadable id drops it from the index and touches no other value.
  lemma PrunedMore<E>(c: Config, codec: Codec<E>, db0: Db, db: Db, removed: set<string>, id: string)
    requires IndexSound(c, db) && Pruned(c, codec, db0, db, removed)
    requires id in Index(c, db) && !Readable(c, codec, db, id)
    ensures id !in removed && Pruned(c, codec, db0, DeleteTx(c, db, id), removed + {id})
    ensures !Scores(DeleteTx(c, db, id), IndexKey(c)).WrongType?
  {
    KeyForInjective(c);
    var db' := DeleteTx(c, db, id);
    assert Lookup(db, KeyFor(c, id)) == Lookup(db0, KeyFor(c, id));
    assert Index(c, db') == Index(c, db0) - (removed + {id});
    forall j | j !in removed + {id} && j != "exp"
      ensures Lookup(db', KeyFor(c, j)) == Lookup(db0, KeyFor(c, j))
    {
      assert Lookup(db, KeyFor(c, j)) == Lookup(db0, KeyFor(c, j));
    }
  }

  lemma NothingPruned<E>(c: Config, codec: Codec<E>, db: Db)
    ensures Pruned(c, codec, db, db, {})
  {
  }

  // Pruning loses nothing that could be read, and adds nothing.
  lemma PrunedKeeps<E>(c: Config, codec: Codec<E>, db0: Db, db: Db, removed: set<string>)
    requires IndexSound(c, db) && Pruned(c, codec, db0, db, removed)
    ensures forall id | id != "exp" && Readable(c, codec, db0, id) ::
              && Read(c, codec, db, id) == Read(c, codec, db0, id)
              && (id in Index(c, db0) ==> id in Index(c, db))
    ensures forall id | id in Index(c, db) :: id in Index(c, db0) && Read(c, codec, db, id) == Read(c, codec, db0, id)
  {
    forall id | id != "exp" && id !in removed ensures Read(c, codec, db, id) == Read(c, codec, db0, id) {
      assert Lookup(db, KeyFor(c, id)) == Lookup(db0, KeyFor(c, id));
    }
  }
}
