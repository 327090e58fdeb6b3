// Sliding-window percentile of task durations.
module Statistics {
  import opened Wrappers

  datatype Observation = Observation(val: nat, timestamp: int)

  // ---- The window ----

  predicate Outdated(o: Observation, now: int, window: int) {
    now - o.timestamp > window
  }

  // The observations of a history that the window still covers.
  function InWindow(history: seq<Observation>, now: int, window: int): seq<Observation> {
    if history == [] then []
    else (if Outdated(history[0], now, window) then [] else [history[0]]) + InWindow(history[1..], now, window)
  }

  // What trimming the front leaves.
  function Trimmed(obs: seq<Observation>, now: int, window: int): seq<Observation> {
    if obs != [] && Outdated(obs[0], now, window) then Trimmed(obs[1..], now, window) else obs
  }

  ghost predicate ByTime(obs: seq<Observation>) {
    forall i, j | 0 <= i < j < |obs| :: obs[i].timestamp <= obs[j].timestamp
  }

  lemma {:induction false} NothingOutdated(obs: seq<Observation>, now: int, window: int)
    requires forall i | 0 <= i < |obs| :: !Outdated(obs[i], now, window)
    ensures InWindow(obs, now, window) == obs
  {
    if obs != [] { NothingOutdated(obs[1..], now, window); }
  }

  // On a sorted queue, trimming the front is filtering.
  lemma {:induction false} TrimIsFilter(obs: seq<Observation>, now: int, window: int)
    requires ByTime(obs)
    ensures Trimmed(obs, now, window) == InWindow(obs, now, window)
  {
    if obs != [] {
      if Outdated(obs[0], now, window) {
        TrimIsFilter(obs[1..], now, window);
      } else {
        NothingOutdated(obs, now, window);
      }
    }
  }

  // Filtering once more, later, is filtering the whole history later.
  lemma {:induction false} FilterTwice(history: seq<Observation>, clock: int, now: int, window: int)
    requires clock <= now
    ensures InWindow(InWindow(history, clock, window), now, window) == InWindow(history, now, window)
  {
    if history != [] {
      FilterTwice(history[1..], clock, now, window);
      var rest := InWindow(history[1..], clock, window);
      assert ([history[0]] + rest)[1..] == rest;
      assert [] + rest == rest;
    }
  }

  lemma {:induction false} FilterAppend(history: seq<Observation>, o: Observation, now: int, window: int)
    ensures InWindow(history + [o], now, window) == InWindow(history, now, window) + InWindow([o], now, window)
  {
    if history == [] {
      assert [] + [o] == [o];
    } else {
      FilterAppend(history[1..], o, now, window);
      assert (history + [o])[1..] == history[1..] + [o];
    }
  }

  // Filtering keeps to the history, in order.
  lemma {:induction false} FilterSorted(history: seq<Observation>, now: int, window: int)
    requires ByTime(history)
    ensures ByTime(InWindow(history, now, window))
    ensures forall o | o in InWindow(history, now, window) :: o in history && !Outdated(o, now, window)
  {
    if history != [] {
      FilterSorted(history[1..], now, window);
      var rest := InWindow(history[1..], now, window);
      forall k | 0 <= k < |rest| ensures history[0].timestamp <= rest[k].timestamp {
        assert rest[k] in history[1..];
      }
    }
  }

  // An observation no older than the rest keeps the order.
  lemma AppendByTime(history: seq<Observation>, o: Observation)
    requires ByTime(history) && forall k | 0 <= k < |history| :: history[k].timestamp <= o.timestamp
    ensures ByTime(history + [o])
    ensures forall k | 0 <= k < |history + [o]| :: (history + [o])[k].timestamp <= o.timestamp
  {
  }

  // Trimming what was filtered earlier filters the whole history now.
  lemma TrimLater(history: seq<Observation>, clock: int, now: int, window: int)
    requires ByTime(history) && clock <= now
    ensures Trimmed(InWindow(history, clock, window), now, window) == InWindow(history, now, window)
  {
    FilterSorted(history, clock, window);
    FilterTwice(history, clock, now, window);
    TrimIsFilter(InWindow(history, clock, window), now, window);
  }

  // Appending to what was filtered earlier and trimming now filters the whole
  // history now.
  lemma AppendIsFilter(history: seq<Observation>, o: Observation, clock: int, window: int)
    requires ByTime(history) && clock <= o.timestamp
    requires forall k | 0 <= k < |history| :: history[k].timestamp <= clock
    ensures Trimmed(InWindow(history, clock, window) + [o], o.timestamp, window) ==
            InWindow(history + [o], o.timestamp, window)
  {
    var now, kept := o.timestamp, InWindow(history, clock, window);
    FilterSorted(history, clock, window);
    FilterTwice(history, clock, now, window);
    FilterAppend(history, o, now, window);
    FilterAppend(kept, o, now, window);
    forall k | 0 <= k < |kept| ensures kept[k].timestamp <= now {
      assert kept[k] in history;
    }
    AppendByTime(kept, o);
    TrimIsFilter(kept + [o], now, window);
  }

  // In plain times: what the window keeps is the history from position k on, all
  // of it at most a window old and everything before older.
  ghost predicate KeptFrom(history: seq<Observation>, now: int, window: int, k: nat) {
    && k <= |history|
    && (forall j | 0 <= j < k :: history[j].timestamp < now - window)
    && (forall j | k <= j < |history| :: history[j].timestamp >= now - window)
  }

  lemma {:induction false} WindowIsSuffix(history: seq<Observation>, now: int, window: int) returns (k: nat)
    requires ByTime(history)
    ensures KeptFrom(history, now, window, k) && InWindow(history, now, window) == history[k..]
  {
    if history == [] || history[0].timestamp >= now - window {
      k := 0;
      NothingOutdated(history, now, window);
    } else {
      var k' := WindowIsSuffix(history[1..], now, window);
      k := k' + 1;
      assert history[k..] == history[1..][k'..];
      forall j | 0 <= j < |history| && j != 0 ensures history[j] == history[1..][j - 1] {}
    }
  }

  // There is one such position.
  lemma KeptFromUnique(history: seq<Observation>, now: int, window: int, k: nat, k': nat)
    requires KeptFrom(history, now, window, k) && KeptFrom(history, now, window, k')
    ensures k == k'
  {
    assert k < |history| ==> history[k].timestamp >= now - window;
    assert k' < |history| ==> history[k'].timestamp >= now - window;
  }

  // ---- The empirical quantile ----

  function CountAtMost(vals: seq<nat>, v: nat): nat {
    if vals == [] then 0 else (if vals[0] <= v then 1 else 0) + CountAtMost(vals[1..], v)
  }

  // The smallest value that covers at least `need` of the values.
  ghost predicate IsLeastCovering(vals: seq<nat>, need: real, q: nat) {
    && q in vals
    && CountAtMost(vals, q) as real >= need
    && forall v | v in vals && v < q :: (CountAtMost(vals, v) as real) < need
  }

  // The empirical quantile: the smallest value that covers a fraction p.
  ghost predicate IsQuantile(vals: seq<nat>, p: real, q: nat) {
    IsLeastCovering(vals, Need(p, |vals|), q)
  }

  function Need(p: real, n: nat): real {
    p * n as real
  }

  // In plain numbers: the value is one of them, a fraction p of them is at most
  // the value, and no smaller one of them has that many.
  ghost predicate CoversFraction(vals: seq<nat>, p: real, q: nat) {
    && q in vals
    && CountAtMost(vals, q) as real >= p * |vals| as real
    && forall v | v in vals && v < q :: (CountAtMost(vals, v) as real) < p * |vals| as real
  }

  lemma QuantileCovers(vals: seq<nat>, p: real, q: nat)
    ensures IsQuantile(vals, p, q) <==> CoversFraction(vals, p, q)
  {
  }

  ghost predicate Ascending(s: seq<nat>) {
    forall i, j | 0 <= i < j < |s| :: s[i] <= s[j]
  }

  function Insert(x: nat, s: seq<nat>): seq<nat> {
    if s == [] || x <= s[0] then [x] + s else [s[0]] + Insert(x, s[1..])
  }

  function Sort(s: seq<nat>): seq<nat> {
    if s == [] then [] else Insert(s[0], Sort(s[1..]))
  }

  lemma {:induction false} InsertCount(x: nat, s: seq<nat>, v: nat)
    ensures CountAtMost(Insert(x, s), v) == CountAtMost(s, v) + if x <= v then 1 else 0
  {
    if s == [] || x <= s[0] {
      assert ([x] + s)[1..] == s;
    } else {
      InsertCount(x, s[1..], v);
      assert ([s[0]] + Insert(x, s[1..]))[1..] == Insert(x, s[1..]);
    }
  }

  lemma {:induction false} InsertPermutes(x: nat, s: seq<nat>)
    ensures |Insert(x, s)| == |s| + 1 && multiset(Insert(x, s)) == multiset(s) + multiset{x}
  {
    if s != [] && x > s[0] {
      InsertPermutes(x, s[1..]);
      assert s == [s[0]] + s[1..];
    }
  }

  lemma {:induction false} InsertAscends(x: nat, s: seq<nat>)
    requires Ascending(s)
    ensures Ascending(Insert(x, s))
  {
    if s != [] && x > s[0] {
      InsertAscends(x, s[1..]);
      InsertPermutes(x, s[1..]);
      var r := Insert(x, s[1..]);
      forall k | 0 <= k < |r| ensures s[0] <= r[k] {
        assert r[k] in multiset(r);
        assert r[k] == x || r[k] in s[1..];
      }
    }
  }

  lemma {:induction false} SortCorrect(s: seq<nat>, v: nat)
    ensures Ascending(Sort(s)) && |Sort(s)| == |s|
    ensures multiset(Sort(s)) == multiset(s)
    ensures CountAtMost(Sort(s), v) == CountAtMost(s, v)
  {
    if s != [] {
      SortCorrect(s[1..], v);
      InsertCount(s[0], Sort(s[1..]), v);
      InsertPermutes(s[0], Sort(s[1..]));
      InsertAscends(s[0], Sort(s[1..]));
      assert s == [s[0]] + s[1..];
    }
  }

  // In a sorted sequence position i covers at least i + 1 values ...
  lemma {:induction false} CoversPrefix(s: seq<nat>, i: nat)
    requires Ascending(s) && i < |s|
    ensures CountAtMost(s, s[i]) >= i + 1
  {
    if i > 0 { CoversPrefix(s[1..], i - 1); }
  }

  // ... and anything below its value covers at most i.
  lemma {:induction false} BelowCoversLess(s: seq<nat>, i: nat, v: nat)
    requires Ascending(s) && i < |s| && v < s[i]
    ensures CountAtMost(s, v) <= i
  {
    if i > 0 {
      BelowCoversLess(s[1..], i - 1, v);
    } else if |s| > 1 {
      BelowCoversLess(s[1..], 0, v);
    }
  }

  lemma FractionAtMostWhole(p: real, n: nat)
    requires p <= 1.0
    ensures Need(p, n) <= n as real
  {
  }

  // First position of the sorted values whose running count reaches fidx.
  method EmpiricalQuantile(fidx: real, x: seq<nat>) returns (i: nat)
    requires fidx <= |x| as real && x != []
    ensures i < |x| && (i + 1) as real >= fidx
    ensures i > 0 ==> (i as real) < fidx
  {
    var cumsum := 1.0;
    i := 0;
    while cumsum < fidx
      invariant i < |x| && cumsum == (i + 1) as real
      invariant i > 0 ==> (i as real) < fidx
      decreases |x| - i
    {
      i := i + 1;
      cumsum := cumsum + 1.0;
    }
  }

  lemma SortedPositionIsQuantile(vals: seq<nat>, need: real, i: nat)
    requires i < |vals| && (i + 1) as real >= need
    requires i > 0 ==> (i as real) < need
    ensures |Sort(vals)| == |vals| && IsLeastCovering(vals, need, Sort(vals)[i])
  {
    SortCorrect(vals, 0);
    var x := Sort(vals);
    var q := x[i];
    assert q in multiset(x);
    SortCorrect(vals, q);
    CoversPrefix(x, i);
    forall v | v in vals && v < q ensures (CountAtMost(vals, v) as real) < need {
      assert v in multiset(vals);
      assert v in multiset(x);
      SortCorrect(vals, v);
      BelowCoversLess(x, i, v);
    }
  }

  lemma QuantileIsUnique(vals: seq<nat>, p: real, q: nat, r: nat)
    requires IsQuantile(vals, p, q) && IsQuantile(vals, p, r)
    ensures q == r
  {
  }

  function Values(obs: seq<Observation>): (r: seq<nat>)
    ensures |r| == |obs| && forall i | 0 <= i < |r| :: r[i] == obs[i].val
  {
    seq(|obs|, i requires 0 <= i < |obs| => obs[i].val)
  }

  // Every value of the window but the newest.
  function Snapshot(inWindow: seq<Observation>): seq<nat> {
    if inWindow == [] then [] else Values(inWindow[..|inWindow| - 1])
  }

  class Percentile {
    const window: int
    const p: real
    ghost const owner: string              // the task measured
    var observations: seq<Observation>
    ghost var history: seq<Observation>    // everything ever appended
    ghost var clock: int                   // the last instant the clock was read

    ghost predicate Valid()
      reads this
    {
      && 0.0 <= p <= 1.0
      && ByTime(history)
      && (forall k | 0 <= k < |history| :: history[k].timestamp <= clock)
      && observations == InWindow(history, clock, window)
    }

    constructor (p: real, window: int, now: int, ghost owner: string)
      requires 0.0 <= p <= 1.0
      ensures Valid() && this.owner == owner && history == [] && this.p == p && this.window == window && clock == now
    {
      this.p, this.window, this.owner := p, window, owner;
      observations, history, clock := [], [], now;
    }

    method CleanOutdated(now: int)
      modifies this`observations
      ensures observations == Trimmed(old(observations), now, window)
    {
      while observations != [] && Outdated(observations[0], now, window)
        invariant Trimmed(observations, now, window) == Trimmed(old(observations), now, window)
        decreases |observations|
      {
        observations := observations[1..];
      }
    }

    // The caller reads a clock that never goes back.
    method Append(val: nat, now: int)
      requires Valid() && clock <= now
      modifies this
      ensures Valid() && clock == now && history == old(history) + [Observation(val, now)]
      ensures exists k: nat :: KeptFrom(history, now, window, k) && observations == history[k..]
    {
      var o := Observation(val, now);
      AppendIsFilter(history, o, clock, window);
      AppendByTime(history, o);
      observations := observations + [o];
      CleanOutdated(now);
      history := history + [o];
      clock := now;
      var kept := WindowIsSuffix(history, now, window);
    }

    // Copies the values from Front to Back, Back excluded.
    method Collect() returns (vals: seq<nat>)
      ensures vals == Snapshot(observations)
    {
      vals := [];
      var v := 0;
      while v + 1 < |observations|
        invariant v <= |observations| && (observations != [] ==> v < |observations|)
        invariant vals == Values(observations[..v])
      {
        vals := vals + [observations[v].val];
        v := v + 1;
      }
    }

    // `kept` is where the window begins in the history.
    method GetStat(now: int) returns (r: Option<nat>, ghost kept: nat)
      requires Valid() && clock <= now
      modifies this
      ensures Valid() && clock == now && history == old(history)
      ensures KeptFrom(history, now, window, kept) && InWindow(history, now, window) == history[kept..]
      ensures r.None? <==> |history| - kept <= 1
      ensures r.Some? ==> CoversFraction(Values(history[kept..|history| - 1]), p, r.value)
    {
      hide CoversFraction, IsQuantile, IsLeastCovering, Need;
      kept := WindowIsSuffix(history, now, window);
      TrimLater(history, clock, now, window);
      CleanOutdated(now);
      clock := now;
      var vals := Collect();
      r := None;
      if |vals| != 0 {
        var q := Quantile(p, vals);
        SnapshotFrom(history, kept);
        QuantileCovers(vals, p, q);
        r := Some(q);
      }
    }
  }

  lemma SnapshotFrom(history: seq<Observation>, kept: nat)
    requires kept < |history|
    ensures Snapshot(history[kept..]) == Values(history[kept..|history| - 1])
  {
    assert history[kept..][..|history| - kept - 1] == history[kept..|history| - 1];
  }

  method SortedQuantile(need: real, vals: seq<nat>) returns (r: nat)
    requires vals != [] && need <= |vals| as real
    ensures IsLeastCovering(vals, need, r)
  {
    SortCorrect(vals, 0);
    var sorted := Sort(vals);
    var i := EmpiricalQuantile(need, sorted);
    SortedPositionIsQuantile(vals, need, i);
    return sorted[i];
  }

  method Quantile(p: real, vals: seq<nat>) returns (r: nat)
    requires p <= 1.0 && vals != []
    ensures IsQuantile(vals, p, r)
  {
    FractionAtMostWhole(p, |vals|);
    r := SortedQuantile(Need(p, |vals|), vals);
  }

  // ---- When the dropped observation matters ----

  // What `Insert` leaves at each position of a sorted list.
  lemma {:induction false} InsertedAt(x: nat, s: seq<nat>, k: nat)
    requires Ascending(s) && k <= |s|
    ensures |Insert(x, s)| == |s| + 1
    ensures Insert(x, s)[k] ==
            if k < |s| && s[k] < x then s[k] else if k == 0 || s[k - 1] < x then x else s[k - 1]
  {
    InsertPermutes(x, s);
    if s != [] && x > s[0] && k > 0 {
      InsertedAt(x, s[1..], k - 1);
    }
  }

  lemma {:induction false} CountAppend(vals: seq<nat>, v: nat, w: nat)
    ensures CountAtMost(vals + [v], w) == CountAtMost([v] + vals, w)
  {
    assert ([v] + vals)[1..] == vals;
    if vals == [] {
      assert vals + [v] == [v] + vals;
    } else {
      CountAppend(vals[1..], v, w);
      assert (vals + [v])[1..] == vals[1..] + [v];
      assert ([v] + vals[1..])[1..] == vals[1..];
    }
  }

  lemma CoveringAppend(vals: seq<nat>, v: nat, need: real, q: nat)
    requires IsLeastCovering([v] + vals, need, q)
    ensures IsLeastCovering(vals + [v], need, q)
  {
    CountAppend(vals, v, q);
    forall w | w in vals + [v] && w < q ensures (CountAtMost(vals + [v], w) as real) < need {
      CountAppend(vals, v, w);
      assert w in [v] + vals;
    }
  }

  // The position of the p quantile among n sorted values.
  ghost predicate IsPosition(i: nat, p: real, n: nat) {
    i < n && (i + 1) as real >= Need(p, n) && (i > 0 ==> (i as real) < Need(p, n))
  }

  // One value more moves the position by one at most, and does not move it while
  // it still reaches the need.
  lemma NextPosition(i: nat, p: real, n: nat)
    requires 0.0 <= p <= 1.0 && IsPosition(i, p, n)
    ensures IsPosition(if (i + 1) as real >= Need(p, n + 1) then i else i + 1, p, n + 1)
  {
    NeedGrows(p, n);
  }

  lemma NeedGrows(p: real, n: nat)
    ensures Need(p, n + 1) == Need(p, n) + p
  {
  }

  lemma SortOneMore(vals: seq<nat>, v: nat)
    ensures |Sort(vals)| == |vals| && |Insert(v, Sort(vals))| == |vals| + 1
    ensures Sort([v] + vals) == Insert(v, Sort(vals))
  {
    SortCorrect(vals, 0);
    InsertPermutes(v, Sort(vals));
    assert ([v] + vals)[1..] == vals;
  }

  // The quantile with one value more, from the sorted values without it.
  lemma QuantileWithOneMore(vals: seq<nat>, v: nat, p: real, i: nat)
    requires 0.0 <= p <= 1.0 && IsPosition(i, p, |vals|)
    ensures |Sort(vals)| == |vals| && |Insert(v, Sort(vals))| == |vals| + 1
    ensures IsQuantile(vals + [v], p,
                       Insert(v, Sort(vals))[if (i + 1) as real >= Need(p, |vals| + 1) then i else i + 1])
  {
    hide Need, IsLeastCovering;
    SortOneMore(vals, v);
    NextPosition(i, p, |vals|);
    var next := if (i + 1) as real >= Need(p, |vals| + 1) then i else i + 1;
    assert |[v] + vals| == |vals| + 1;
    SortedPositionIsQuantile([v] + vals, Need(p, |vals| + 1), next);
    CoveringAppend(vals, v, Need(p, |vals| + 1), Sort([v] + vals)[next]);
  }

  // The value at position i of the sorted values `x` stays the quantile when `v`
  // joins them: the position does not have to move past a greater v, or moves
  // past a smaller one, or the neighbour it meets instead is equal.
  ghost predicate NewestHarmless(x: seq<nat>, v: nat, p: real, i: nat)
    requires i < |x|
  {
    || v == x[i]
    || (v > x[i] && ((i + 1) as real >= Need(p, |x| + 1) || (i + 1 < |x| && x[i + 1] == x[i])))
    || (v < x[i] && ((i + 1) as real < Need(p, |x| + 1) || (i > 0 && x[i - 1] == x[i])))
  }

  // Main result: the loop means to collect all observations but drops the newest.
  // For every window, exactly when the answer is the quantile of all of it.
  lemma NewestIsIgnoredIff(w: seq<Observation>, p: real, i: nat)
    requires 0.0 <= p <= 1.0 && |w| > 1 && IsPosition(i, p, |w| - 1)
    ensures |Sort(Snapshot(w))| == |w| - 1
    ensures IsQuantile(Snapshot(w), p, Sort(Snapshot(w))[i])
    ensures IsQuantile(Values(w), p, Sort(Snapshot(w))[i]) <==>
            NewestHarmless(Sort(Snapshot(w)), w[|w| - 1].val, p, i)
  {
    hide Need, IsLeastCovering;
    var vals, v := Snapshot(w), w[|w| - 1].val;
    assert Values(w) == vals + [v];
    SortCorrect(vals, 0);
    SortedPositionIsQuantile(vals, Need(p, |vals|), i);
    QuantileWithOneMore(vals, v, p, i);
    var x := Sort(vals);
    var next := if (i + 1) as real >= Need(p, |vals| + 1) then i else i + 1;
    InsertedAt(v, x, next);
    var q := Insert(v, x)[next];
    assert q == x[i] <==> NewestHarmless(x, v, p, i);
    if IsQuantile(Values(w), p, x[i]) { QuantileIsUnique(Values(w), p, q, x[i]); }
  }

  // One window on which it matters: a slow newest run goes unnoticed.
  lemma NewestIsIgnored()
    ensures var w := [Observation(1, 0), Observation(100, 1)];
            && IsQuantile(Snapshot(w), 0.95, 1)
            && !IsQuantile(Values(w), 0.95, 1) && IsQuantile(Values(w), 0.95, 100)
  {
    var w := [Observation(1, 0), Observation(100, 1)];
    assert Snapshot(w) == [1] && Values(w) == [1, 100];
    assert [1, 100][1..] == [100] && [100][1..] == [] && [1][1..] == [];
    assert CountAtMost([100], 1) == 0 && CountAtMost([100], 100) == 1;
    assert CountAtMost([1, 100], 1) == 1 && CountAtMost([1, 100], 100) == 2;
    assert CountAtMost([1], 1) == 1;
  }
}
