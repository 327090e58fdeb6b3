// The part of Redis the store uses: one key space holding strings with an
// expiry and sorted sets, and a clock in nanoseconds.  Each function is one
// command; a transaction is the composition of its commands.
module Redis {
  import opened Wrappers

  datatype Value = Str(data: string, expireAt: int) | ZSet(scores: map<string, int>)

  datatype Db = Db(keys: map<string, Value>, now: int)

  // A string past its expiry is as good as absent.
  function Lookup(db: Db, key: string): Option<Value> {
    if key !in db.keys then None
    else if db.keys[key].Str? && db.keys[key].expireAt <= db.now then None
    else Some(db.keys[key])
  }

  datatype Reply<+T> = Reply(value: T) | Nil | WrongType

  function Get(db: Db, key: string): Reply<string> {
    match Lookup(db, key)
    case None => Nil
    case Some(Str(data, _)) => Reply(data)
    case Some(ZSet(_)) => WrongType
  }

  function Set(db: Db, key: string, data: string, ttl: int): Db {
    db.(keys := db.keys[key := Str(data, db.now + ttl)])
  }

  function Del(db: Db, key: string): Db {
    db.(keys := db.keys - {key})
  }

  // The sorted set at a key; absent counts as empty, another type is an error.
  function Scores(db: Db, key: string): Reply<map<string, int>> {
    match Lookup(db, key)
    case None => Reply(map[])
    case Some(ZSet(m)) => Reply(m)
    case Some(Str(_, _)) => WrongType
  }

  function ZAdd(db: Db, key: string, member: string, score: int): Db {
    match Scores(db, key)
    case Reply(m) => db.(keys := db.keys[key := ZSet(m[member := score])])
    case _ => db
  }

  // A sorted set that loses its last member is dropped with its key.
  function ZRem(db: Db, key: string, members: set<string>): Db {
    match Lookup(db, key)
    case Some(ZSet(m)) => if m - members == map[] then Del(db, key) else db.(keys := db.keys[key := ZSet(m - members)])
    case _ => db
  }

  function Eligible(scores: map<string, int>, cutoff: int): set<string> {
    set id | id in scores && scores[id] <= cutoff
  }

  // LIMIT 0 count: a count that is not positive means no limit.
  function Limited(size: nat, count: int): nat {
    if 0 < count < size then count else size
  }

  ghost predicate Distinct(ids: seq<string>) {
    forall i, j | 0 <= i < j < |ids| :: ids[i] != ids[j]
  }

  function Members(ids: seq<string>): set<string> {
    set id | id in ids
  }

  // ZRANGEBYSCORE -inf cutoff LIMIT 0 count: lowest scores first.
  ghost predicate IsRangeByScore(scores: map<string, int>, cutoff: int, count: int, ids: seq<string>) {
    && Distinct(ids)
    && Members(ids) <= Eligible(scores, cutoff)
    && |ids| == Limited(|Eligible(scores, cutoff)|, count)
    && forall low, high | low in Members(ids) && high in Eligible(scores, cutoff) - Members(ids) ::
         scores[low] <= scores[high]
  }

  // The head of ZREVRANGE: any member with the highest score.
  predicate IsTop(scores: map<string, int>, id: string) {
    id in scores && forall other | other in scores :: scores[other] <= scores[id]
  }

  lemma {:induction false} TopExists(scores: map<string, int>, ids: set<string>)
    requires ids <= scores.Keys && ids != {}
    ensures exists id :: id in ids && forall other | other in ids :: scores[other] <= scores[id]
    decreases |ids|
  {
    var x :| x in ids;
    if ids - {x} != {} {
      TopExists(scores, ids - {x});
      var y :| y in ids - {x} && forall other | other in ids - {x} :: scores[other] <= scores[y];
      var best := if scores[x] <= scores[y] then y else x;
      assert best in ids && forall other | other in ids :: scores[other] <= scores[best];
    } else {
      assert ids == {x};
      assert x in ids && forall other | other in ids :: scores[other] <= scores[x];
    }
  }

  lemma {:induction false} LowestExists(scores: map<string, int>, ids: set<string>)
    requires ids <= scores.Keys && ids != {}
    ensures exists id :: id in ids && forall other | other in ids :: scores[id] <= scores[other]
    decreases |ids|
  {
    var x :| x in ids;
    if ids - {x} != {} {
      LowestExists(scores, ids - {x});
      var y :| y in ids - {x} && forall other | other in ids - {x} :: scores[y] <= scores[other];
      var best := if scores[x] <= scores[y] then x else y;
      assert best in ids && forall other | other in ids :: scores[best] <= scores[other];
    } else {
      assert ids == {x};
      assert x in ids && forall other | other in ids :: scores[x] <= scores[other];
    }
  }

  lemma {:induction false} DistinctSize(ids: seq<string>)
    requires Distinct(ids)
    ensures |Members(ids)| == |ids|
  {
    if ids != [] {
      var last := ids[|ids| - 1];
      var front := ids[..|ids| - 1];
      DistinctSize(front);
      assert ids == front + [last];
      assert last !in front;
      assert Members(ids) == Members(front) + {last};
    }
  }

  lemma NothingLeft(part: set<string>, all: set<string>)
    requires part <= all
    ensures all - part == {} <==> part == all
  {
    forall id | id in all && id !in part ensures id in all - part {}
  }

  // Some answer to the range query always exists, and is found lowest first.
  method RangeByScore(scores: map<string, int>, cutoff: int, count: int) returns (ids: seq<string>)
    ensures IsRangeByScore(scores, cutoff, count, ids)
  {
    var all := Eligible(scores, cutoff);
    var n := Limited(|all|, count);
    ids := [];
    while |ids| < n
      invariant |ids| <= n <= |all|
      invariant Distinct(ids) && Members(ids) <= all
      invariant forall low, high | low in Members(ids) && high in all - Members(ids) :: scores[low] <= scores[high]
    {
      DistinctSize(ids);
      var left := all - Members(ids);
      NothingLeft(Members(ids), all);
      LowestExists(scores, left);
      var id :| id in left && forall other | other in left :: scores[id] <= scores[other];
      ghost var before := ids;
      ids := ids + [id];
      assert Members(ids) == Members(before) + {id};
    }
  }
}
