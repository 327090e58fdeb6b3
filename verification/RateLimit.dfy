// The rate limiter: a condition-variable protocol in front of a replaceable
// token bucket of burst one.  Every action below is one indivisible step: a
// section under the mutex, one read of a shared variable, or one call into the
// bucket.  Time is exact and counted in nanoseconds.
module RateLimit {
  import opened Wrappers

  datatype Spec = Spec(times: nat, per: nat)

  // A burst-one bucket is known by the earliest instant of its next grant.
  datatype Bucket = Unlimited | Paced(interval: real, nextFree: real)

  function BuildRL(spec: Spec, now: real): Option<Bucket> {
    if spec.per == 0 then Some(Unlimited)
    else if spec.times != 0 then Some(Paced(spec.per as real / spec.times as real, now))
    else None
  }

  function GrantTime(b: Bucket, now: real): real {
    if b.Unlimited? || b.nextFree <= now then now else b.nextFree
  }

  function AfterReserve(b: Bucket, now: real): Bucket {
    if b.Unlimited? then b else b.(nextFree := GrantTime(b, now) + b.interval)
  }

  // Giving a reservation back undoes it only when it is still ahead and nobody
  // reserved after it.
  function AfterCancel(b: Bucket, at: real, now: real): Bucket {
    if b.Paced? && now <= at && at + b.interval == b.nextFree then b.(nextFree := at) else b
  }

  datatype Grant = Grant(bucket: nat, at: real)

  // Where one Acquire call stands.
  datatype Pc =
    | Entering                      // about to take the mutex
    | Parked                        // on the condition variable
    | Woken                         // broadcast received, must re-check under the mutex
    | Decided(rl: Option<nat>)      // mutex released, limiter pointer saved, flag not yet read
    | Calling(bucket: nat)          // about to call Wait on the saved bucket
    | Waiting(grant: Grant)         // reserved, timer running
    | Returned(failed: bool, granted: Option<Grant>)
    | Crashed                       // Wait called on a nil limiter

  // The goroutine that turns the end of the context into a broadcast.
  datatype Watcher = NoWatcher | Watching | Flagged | Finished

  datatype Call = Call(
    pc: Pc,
    ctxDone: bool,      // the flag shared with the watcher
    ctxErr: bool,       // the caller's context has ended
    released: bool,     // the call cancelled its derived context itself
    watcher: Watcher)

  datatype State = State(
    now: real,
    spec: Spec,
    rl: Option<nat>,        // index of the current bucket; None is the nil pointer
    buckets: seq<Bucket>,   // every bucket ever built
    calls: seq<Call>)

  datatype Action =
    | Begin
    | EndContext(i: nat)
    | Enter(i: nat)
    | Recheck(i: nat)
    | ReadFlag(i: nat)
    | Reserve(i: nat)
    | TimerFires(i: nat)
    | Abort(i: nat)
    | WatcherFlags(i: nat)
    | WatcherBroadcasts(i: nat)
    | SetSpec(spec: Spec)
    | Tick(d: real)

  function Init(spec: Spec, now: real): State {
    match BuildRL(spec, now)
    case None => State(now, spec, None, [], [])
    case Some(b) => State(now, spec, Some(0), [b], [])
  }

  function Wake(c: Call): Call {
    if c.pc.Parked? then c.(pc := Woken) else c
  }

  function WakeAll(calls: seq<Call>): (r: seq<Call>)
    ensures |r| == |calls|
    ensures forall i | 0 <= i < |r| :: r[i] == Wake(calls[i])
  {
    seq(|calls|, i requires 0 <= i < |calls| => Wake(calls[i]))
  }

  predicate Enabled(s: State, a: Action) {
    match a
    case Begin => true
    case SetSpec(_) => true
    case Tick(d) => d >= 0.0
    case EndContext(i) => i < |s.calls|
    case Enter(i) => i < |s.calls| && s.calls[i].pc.Entering?
    case Recheck(i) => i < |s.calls| && s.calls[i].pc.Woken?
    case ReadFlag(i) => i < |s.calls| && s.calls[i].pc.Decided?
    case Reserve(i) => i < |s.calls| && s.calls[i].pc.Calling? && s.calls[i].pc.bucket < |s.buckets|
    case TimerFires(i) => i < |s.calls| && s.calls[i].pc.Waiting? && s.calls[i].pc.grant.at <= s.now
    case Abort(i) =>
      i < |s.calls| && s.calls[i].pc.Waiting? && s.calls[i].ctxErr && s.calls[i].pc.grant.bucket < |s.buckets|
    case WatcherFlags(i) =>
      i < |s.calls| && s.calls[i].watcher.Watching? && (s.calls[i].ctxErr || s.calls[i].released)
    case WatcherBroadcasts(i) => i < |s.calls| && s.calls[i].watcher.Flagged?
  }

  // The loop test under the mutex: park, or leave with the current pointer.
  function LoopTest(s: State, c: Call): Call {
    if s.rl.None? && !c.ctxDone then c.(pc := Parked) else c.(pc := Decided(s.rl))
  }

  // Every return runs the deferred cancel of the derived context.
  function Return(c: Call, failed: bool, granted: Option<Grant>): Call {
    c.(pc := Returned(failed, granted), released := true)
  }

  function Put(s: State, i: nat, c: Call): State
    requires i < |s.calls|
  {
    s.(calls := s.calls[i := c])
  }

  function ApplySetSpec(s: State, spec: Spec): State {
    if s.spec == spec then s
    else
      match BuildRL(spec, s.now)
      case None => s.(spec := spec, rl := None)
      case Some(b) =>
        s.(spec := spec, rl := Some(|s.buckets|), buckets := s.buckets + [b], calls := WakeAll(s.calls))
  }

  function ApplyReserve(s: State, i: nat): State
    requires Enabled(s, Reserve(i))
  {
    var c := s.calls[i];
    if c.ctxErr then Put(s, i, Return(c, true, None))
    else
      var b := s.buckets[c.pc.bucket];
      var g := Grant(c.pc.bucket, GrantTime(b, s.now));
      var s' := s.(buckets := s.buckets[c.pc.bucket := AfterReserve(b, s.now)]);
      Put(s', i, if g.at <= s.now then Return(c, false, Some(g)) else c.(pc := Waiting(g)))
  }

  function ApplyAbort(s: State, i: nat): State
    requires Enabled(s, Abort(i))
  {
    var c := s.calls[i];
    var g := c.pc.grant;
    var s' := s.(buckets := s.buckets[g.bucket := AfterCancel(s.buckets[g.bucket], g.at, s.now)]);
    Put(s', i, Return(c, true, None))
  }

  function Apply(s: State, a: Action): State
    requires Enabled(s, a)
  {
    match a
    case Begin => s.(calls := s.calls + [Call(Entering, false, false, false, NoWatcher)])
    case EndContext(i) => Put(s, i, s.calls[i].(ctxErr := true))
    case Enter(i) =>
      var c := s.calls[i];
      Put(s, i, LoopTest(s, if s.rl.None? then c.(watcher := Watching) else c))
    case Recheck(i) => Put(s, i, LoopTest(s, s.calls[i]))
    case ReadFlag(i) =>
      var c := s.calls[i];
      Put(s, i,
          if c.ctxDone then Return(c, c.ctxErr, None)     // returns ctx.Err()
          else if c.pc.rl.None? then c.(pc := Crashed)
          else c.(pc := Calling(c.pc.rl.value), released := true))
    case Reserve(i) => ApplyReserve(s, i)
    case TimerFires(i) => Put(s, i, Return(s.calls[i], false, Some(s.calls[i].pc.grant)))
    case Abort(i) => ApplyAbort(s, i)
    case WatcherFlags(i) => Put(s, i, s.calls[i].(ctxDone := true, watcher := Flagged))
    case WatcherBroadcasts(i) =>
      var s' := s.(calls := WakeAll(s.calls));
      Put(s', i, s'.calls[i].(watcher := Finished))
    case SetSpec(spec) => ApplySetSpec(s, spec)
    case Tick(d) => s.(now := s.now + d)
  }

  predicate Legal(s: State, run: seq<Action>)
    decreases |run|
  {
    run == [] || (Enabled(s, run[0]) && Legal(Apply(s, run[0]), run[1..]))
  }

  function Run(s: State, run: seq<Action>): State
    requires Legal(s, run)
    decreases |run|
  {
    if run == [] then s else Run(Apply(s, run[0]), run[1..])
  }

  // ---- The inductive invariant ----

  function HeldGrant(c: Call): Option<Grant> {
    match c.pc
    case Waiting(g) => Some(g)
    case Returned(_, g) => g
    case _ => None
  }

  ghost predicate SpecMatches(s: State) {
    && (s.rl.None? <==> s.spec.times == 0 && s.spec.per != 0)
    && (s.rl.Some? ==>
          && s.rl.value < |s.buckets|
          && (s.spec.per == 0 <==> s.buckets[s.rl.value].Unlimited?)
          && (s.spec.per != 0 ==> s.buckets[s.rl.value].interval == s.spec.per as real / s.spec.times as real))
  }

  ghost predicate FlagsOk(c: Call) {
    && (c.ctxDone <==> c.watcher.Flagged? || c.watcher.Finished?)
    && (c.ctxDone ==> c.ctxErr || c.released)
    && (c.released <==> c.pc.Calling? || c.pc.Waiting? || c.pc.Returned?)
    && (c.pc.Entering? ==> c.watcher.NoWatcher?)
    && (c.pc.Woken? ==> !c.watcher.NoWatcher?)
    && (c.pc.Decided? && c.pc.rl.None? ==> c.ctxDone)
    && !c.pc.Crashed?
    && (c.pc.Returned? ==> (c.pc.failed <==> c.pc.granted.None?))
    && (c.pc.Returned? && c.pc.failed ==> c.ctxErr)
  }

  // No lost wakeup: whoever is parked sees a nil pointer, and the watcher that
  // will broadcast when the context ends has not broadcast yet.
  ghost predicate ParkedOk(s: State, c: Call) {
    c.pc.Parked? ==> s.rl.None? && (c.watcher.Watching? || c.watcher.Flagged?)
  }

  ghost predicate PointersOk(s: State, c: Call) {
    && (c.pc.Decided? && c.pc.rl.Some? ==> c.pc.rl.value < |s.buckets|)
    && (c.pc.Calling? ==> c.pc.bucket < |s.buckets|)
    && (HeldGrant(c).Some? ==> HeldGrant(c).value.bucket < |s.buckets|)
  }

  ghost predicate BehindBucket(b: Bucket, at: real) {
    b.Paced? ==> at + b.interval <= b.nextFree
  }

  ghost predicate Spaced(b: Bucket, at1: real, at2: real) {
    b.Paced? ==> at1 + b.interval <= at2 || at2 + b.interval <= at1
  }

  ghost predicate GrantOk(s: State, c: Call) {
    var g := HeldGrant(c);
    g.Some? && g.value.bucket < |s.buckets| ==> BehindBucket(s.buckets[g.value.bucket], g.value.at)
  }

  ghost predicate PairOk(s: State, c: Call, d: Call) {
    var g, h := HeldGrant(c), HeldGrant(d);
    g.Some? && h.Some? && g.value.bucket == h.value.bucket && g.value.bucket < |s.buckets| ==>
      Spaced(s.buckets[g.value.bucket], g.value.at, h.value.at)
  }

  // Nobody is let through before the slot has come.
  ghost predicate OnTime(s: State, c: Call) {
    c.pc.Returned? && c.pc.granted.Some? ==> c.pc.granted.value.at <= s.now
  }

  ghost predicate CallOk(s: State, c: Call) {
    OnTime(s, c) && FlagsOk(c) && ParkedOk(s, c) && PointersOk(s, c) && GrantOk(s, c)
  }

  ghost predicate Inv(s: State) {
    && SpecMatches(s)
    && (forall b | 0 <= b < |s.buckets| :: s.buckets[b].Paced? ==> s.buckets[b].interval > 0.0)
    && (forall i | 0 <= i < |s.calls| :: CallOk(s, s.calls[i]))
    && (forall i, j | 0 <= i < j < |s.calls| :: PairOk(s, s.calls[i], s.calls[j]))
  }

  lemma PositiveInterval(spec: Spec)
    requires spec.times > 0 && spec.per > 0
    ensures spec.per as real / spec.times as real > 0.0
  {
  }

  lemma InitInv(spec: Spec, now: real)
    ensures Inv(Init(spec, now))
  {
    if spec.times > 0 && spec.per > 0 { PositiveInterval(spec); }
  }

  // One call changes, buckets and pointer stay: check that call only.
  lemma PutInv(s: State, i: nat, c: Call)
    requires Inv(s) && i < |s.calls|
    requires CallOk(s, c)
    requires HeldGrant(c).None? || HeldGrant(c) == HeldGrant(s.calls[i])
    ensures Inv(Put(s, i, c))
  {
    var s' := Put(s, i, c);
    forall k | 0 <= k < |s'.calls| ensures CallOk(s', s'.calls[k]) {
      assert CallOk(s, s.calls[k]);
    }
    forall j, k | 0 <= j < k < |s'.calls| ensures PairOk(s', s'.calls[j], s'.calls[k]) {
      assert PairOk(s, s.calls[j], s.calls[k]);
    }
  }

  lemma WakeInv(s: State)
    requires Inv(s)
    ensures Inv(s.(calls := WakeAll(s.calls)))
  {
    var s' := s.(calls := WakeAll(s.calls));
    forall k | 0 <= k < |s'.calls| ensures CallOk(s', s'.calls[k]) {
      assert CallOk(s, s.calls[k]);
    }
    forall j, k | 0 <= j < k < |s'.calls| ensures PairOk(s', s'.calls[j], s'.calls[k]) {
      assert PairOk(s, s.calls[j], s.calls[k]);
    }
  }

  lemma SetSpecInv(s: State, spec: Spec)
    requires Inv(s)
    ensures Inv(ApplySetSpec(s, spec))
  {
    var s' := ApplySetSpec(s, spec);
    if spec.times > 0 && spec.per > 0 { PositiveInterval(spec); }
    forall k | 0 <= k < |s'.calls| ensures CallOk(s', s'.calls[k]) {
      assert CallOk(s, s.calls[k]);
    }
    forall j, k | 0 <= j < k < |s'.calls| ensures PairOk(s', s'.calls[j], s'.calls[k]) {
      assert PairOk(s, s.calls[j], s.calls[k]);
    }
  }

  // A fresh reservation lies one interval behind every grant of its bucket.
  lemma ReserveInv(s: State, i: nat)
    requires Inv(s) && Enabled(s, Reserve(i))
    ensures Inv(ApplyReserve(s, i))
  {
    var c := s.calls[i];
    if c.ctxErr {
      PutInv(s, i, Return(c, true, None));
      return;
    }
    var s' := ApplyReserve(s, i);
    forall k | 0 <= k < |s'.calls| ensures CallOk(s', s'.calls[k]) {
      ReserveCallOk(s, i, k);
    }
    forall j, k | 0 <= j < k < |s'.calls| ensures PairOk(s', s'.calls[j], s'.calls[k]) {
      ReservePairOk(s, i, j, k);
    }
  }

  lemma ReserveCallOk(s: State, i: nat, k: nat)
    requires Inv(s) && Enabled(s, Reserve(i)) && !s.calls[i].ctxErr && k < |s.calls|
    ensures CallOk(ApplyReserve(s, i), ApplyReserve(s, i).calls[k])
  {
    assert CallOk(s, s.calls[k]);
  }

  lemma ReservePairOk(s: State, i: nat, j: nat, k: nat)
    requires Inv(s) && Enabled(s, Reserve(i)) && !s.calls[i].ctxErr && j < k < |s.calls|
    ensures PairOk(ApplyReserve(s, i), ApplyReserve(s, i).calls[j], ApplyReserve(s, i).calls[k])
  {
    assert PairOk(s, s.calls[j], s.calls[k]);
    assert CallOk(s, s.calls[j]) && CallOk(s, s.calls[k]);
  }

  // Giving a slot back leaves every other grant one interval behind the bucket.
  lemma AbortInv(s: State, i: nat)
    requires Inv(s) && Enabled(s, Abort(i))
    ensures Inv(ApplyAbort(s, i))
  {
    var s' := ApplyAbort(s, i);
    assert CallOk(s, s.calls[i]);
    forall k | 0 <= k < |s'.calls| ensures CallOk(s', s'.calls[k]) {
      assert CallOk(s, s.calls[k]);
      if k < i { assert PairOk(s, s.calls[k], s.calls[i]); }
      if i < k { assert PairOk(s, s.calls[i], s.calls[k]); }
    }
    forall j, k | 0 <= j < k < |s'.calls| ensures PairOk(s', s'.calls[j], s'.calls[k]) {
      assert PairOk(s, s.calls[j], s.calls[k]);
    }
  }

  predicate TouchesOneCall(a: Action) {
    a.EndContext? || a.Enter? || a.Recheck? || a.ReadFlag? || a.TimerFires? || a.WatcherFlags?
  }

  // The steps that change one call and nothing else.
  lemma OneCallInv(s: State, a: Action)
    requires Inv(s) && Enabled(s, a) && TouchesOneCall(a)
    ensures Inv(Apply(s, a))
  {
    var c := Apply(s, a).calls[a.i];
    assert CallOk(s, s.calls[a.i]);
    assert CallOk(s, c);
    PutInv(s, a.i, c);
  }

  lemma BeginInv(s: State)
    requires Inv(s)
    ensures Inv(Apply(s, Begin))
  {
    var s' := Apply(s, Begin);
    forall k | 0 <= k < |s'.calls| ensures CallOk(s', s'.calls[k]) {
      if k < |s.calls| { assert CallOk(s, s.calls[k]); }
    }
    forall j, k | 0 <= j < k < |s'.calls| ensures PairOk(s', s'.calls[j], s'.calls[k]) {
      if k < |s.calls| { assert PairOk(s, s.calls[j], s.calls[k]); }
    }
  }

  lemma TickInv(s: State, d: real)
    requires Inv(s) && Enabled(s, Tick(d))
    ensures Inv(Apply(s, Tick(d)))
  {
    var s' := Apply(s, Tick(d));
    forall k | 0 <= k < |s'.calls| ensures CallOk(s', s'.calls[k]) { assert CallOk(s, s.calls[k]); }
    forall j, k | 0 <= j < k < |s'.calls| ensures PairOk(s', s'.calls[j], s'.calls[k]) {
      assert PairOk(s, s.calls[j], s.calls[k]);
    }
  }

  lemma BroadcastInv(s: State, i: nat)
    requires Inv(s) && Enabled(s, WatcherBroadcasts(i))
    ensures Inv(Apply(s, WatcherBroadcasts(i)))
  {
    var s' := s.(calls := WakeAll(s.calls));
    WakeInv(s);
    assert CallOk(s', s'.calls[i]);
    PutInv(s', i, s'.calls[i].(watcher := Finished));
  }

  lemma StepInv(s: State, a: Action)
    requires Inv(s) && Enabled(s, a)
    ensures Inv(Apply(s, a))
  {
    if TouchesOneCall(a) {
      OneCallInv(s, a);
    } else {
      match a
      case Begin => BeginInv(s);
      case Reserve(i) => ReserveInv(s, i);
      case Abort(i) => AbortInv(s, i);
      case WatcherBroadcasts(i) => BroadcastInv(s, i);
      case SetSpec(spec) => SetSpecInv(s, spec);
      case Tick(d) => TickInv(s, d);
    }
  }

  lemma {:induction false} RunInv(s: State, run: seq<Action>)
    requires Inv(s) && Legal(s, run)
    ensures Inv(Run(s, run))
    decreases |run|
  {
    if run != [] {
      StepInv(s, run[0]);
      RunInv(Apply(s, run[0]), run[1..]);
    }
  }

  ghost predicate Reachable(s: State) {
    exists spec: Spec, now: real, run: seq<Action> ::
      Legal(Init(spec, now), run) && s == Run(Init(spec, now), run)
  }

  lemma ReachableInv(s: State)
    requires Reachable(s)
    ensures Inv(s)
  {
    var spec: Spec, now: real, run: seq<Action> :|
      Legal(Init(spec, now), run) && s == Run(Init(spec, now), run);
    InitInv(spec, now);
    RunInv(Init(spec, now), run);
  }

  // ---- The window bound ----

  // The length of n intervals.
  ghost function Span(n: nat, interval: real): real {
    if n == 0 then 0.0 else interval + Span(n - 1, interval)
  }

  lemma {:induction false} SpanIsProduct(n: nat, interval: real)
    ensures Span(n, interval) == n as real * interval
  {
    if n > 0 {
      SpanIsProduct(n - 1, interval);
      OneMore((n - 1) as real, interval);
    }
  }

  lemma OneMore(k: real, x: real)
    ensures (k + 1.0) * x == k * x + x
  {
  }

  lemma PerIsTimesIntervals(spec: Spec)
    requires spec.times > 0
    ensures Span(spec.times, spec.per as real / spec.times as real) == spec.per as real
  {
    SpanIsProduct(spec.times, spec.per as real / spec.times as real);
  }

  ghost predicate Apart(at: map<nat, real>, interval: real) {
    forall i, j | i in at && j in at && i != j :: at[i] + interval <= at[j] || at[j] + interval <= at[i]
  }

  // Points at least one interval apart: a window n intervals wide holds at most n.
  lemma {:induction false} Pigeonhole(at: map<nat, real>, t: real, interval: real, n: nat)
    requires interval > 0.0 && Apart(at, interval)
    requires forall i | i in at :: t <= at[i] < t + Span(n, interval)
    ensures |at| <= n
    decreases n
  {
    if n == 0 {
      assert forall i :: i !in at;
      assert at == map[];
    } else if i :| i in at && at[i] < t + interval {
      var rest := at - {i};
      assert at == rest[i := at[i]];
      Pigeonhole(rest, t + interval, interval, n - 1);
    } else {
      Pigeonhole(at, t + interval, interval, n - 1);
    }
  }

  // The grants of the calls in `ids`, by call.
  ghost function GrantTimes(s: State, ids: set<nat>): map<nat, real>
    requires forall i | i in ids :: i < |s.calls| && HeldGrant(s.calls[i]).Some?
  {
    map i | i in ids :: HeldGrant(s.calls[i]).value.at
  }

  ghost predicate GrantedIn(s: State, i: nat, b: nat, from: real, to: real) {
    && i < |s.calls| && HeldGrant(s.calls[i]).Some?
    && HeldGrant(s.calls[i]).value.bucket == b
    && from <= HeldGrant(s.calls[i]).value.at < to
  }

  lemma BucketWindowBound(s: State, b: nat, ids: set<nat>, t: real, n: nat)
    requires Inv(s) && b < |s.buckets| && s.buckets[b].Paced?
    requires forall i | i in ids :: GrantedIn(s, i, b, t, t + Span(n, s.buckets[b].interval))
    ensures |ids| <= n
  {
    var at := GrantTimes(s, ids);
    forall i, j | i in at && j in at && i != j
      ensures at[i] + s.buckets[b].interval <= at[j] || at[j] + s.buckets[b].interval <= at[i]
    {
      assert GrantedIn(s, i, b, t, t + Span(n, s.buckets[b].interval));
      assert GrantedIn(s, j, b, t, t + Span(n, s.buckets[b].interval));
      if i < j { assert PairOk(s, s.calls[i], s.calls[j]); } else { assert PairOk(s, s.calls[j], s.calls[i]); }
    }
    forall i | i in at ensures t <= at[i] < t + Span(n, s.buckets[b].interval) {
      assert GrantedIn(s, i, b, t, t + Span(n, s.buckets[b].interval));
    }
    Pigeonhole(at, t, s.buckets[b].interval, n);
    assert at.Keys == ids;
  }

  // Every SetSpec of the run asks for one of `specs`.
  ghost predicate AsksOnly(run: seq<Action>, specs: iset<Spec>) {
    forall k | 0 <= k < |run| :: run[k].SetSpec? ==> run[k].spec in specs
  }

  // A call that is not committed to a bucket other than `b`.
  ghost predicate UsesOnly(c: Call, b: nat) {
    && (c.pc.Decided? ==> c.pc.rl == Some(b) || c.pc.rl == None)
    && (c.pc.Calling? ==> c.pc.bucket == b)
    && (HeldGrant(c).Some? ==> HeldGrant(c).value.bucket == b)
  }

  // All calls but the `older` ones have only the current bucket `b` before them.
  ghost predicate OthersUse(s: State, older: set<nat>, b: nat) {
    s.rl == Some(b) && forall i | 0 <= i < |s.calls| && i !in older :: UsesOnly(s.calls[i], b)
  }

  ghost predicate SameBuckets(s: State, s': State) {
    && |s'.buckets| == |s.buckets|
    && forall b | 0 <= b < |s.buckets| ::
         && s'.buckets[b].Paced? == s.buckets[b].Paced?
         && (s.buckets[b].Paced? ==> s'.buckets[b].interval == s.buckets[b].interval)
  }

  lemma {:induction false} UnchangedRun(s: State, run: seq<Action>, older: set<nat>, b: nat)
    requires Legal(s, run) && AsksOnly(run, iset{s.spec}) && OthersUse(s, older, b) && b < |s.buckets|
    requires forall i | i in older :: i < |s.calls|
    ensures OthersUse(Run(s, run), older, b) && Run(s, run).spec == s.spec && SameBuckets(s, Run(s, run))
    decreases |run|
  {
    if run != [] {
      var s1 := Apply(s, run[0]);
      UnchangedStep(s, run[0], older, b);
      assert forall k | 0 <= k < |run[1..]| :: run[1..][k] == run[k + 1];
      UnchangedRun(s1, run[1..], older, b);
    }
  }

  lemma UnchangedStep(s: State, a: Action, older: set<nat>, b: nat)
    requires Enabled(s, a) && (a.SetSpec? ==> a.spec == s.spec) && OthersUse(s, older, b) && b < |s.buckets|
    requires forall i | i in older :: i < |s.calls|
    ensures OthersUse(Apply(s, a), older, b) && Apply(s, a).spec == s.spec && SameBuckets(s, Apply(s, a))
    ensures |s.calls| <= |Apply(s, a).calls|
  {
    var s' := Apply(s, a);
    forall i | 0 <= i < |s'.calls| && i !in older ensures UsesOnly(s'.calls[i], b) {
      if i < |s.calls| { assert UsesOnly(s.calls[i], b); }
    }
  }

  // Call i holds a grant scheduled in the half-open window [from, to).
  ghost predicate Granted(s: State, i: nat, from: real, to: real) {
    && i < |s.calls| && HeldGrant(s.calls[i]).Some?
    && from <= HeldGrant(s.calls[i]).value.at < to
  }

  // So do all of `ids`, in the window of that length from `from` on.
  ghost predicate AllGranted(s: State, ids: set<nat>, from: real, length: real) {
    forall i | i in ids :: Granted(s, i, from, from + length)
  }

  // Call i, if it has begun, is not committed to an older bucket.
  ghost predicate NotOlder(s: State, i: nat) {
    i < |s.calls| && s.rl.Some? ==> UsesOnly(s.calls[i], s.rl.value)
  }

  // Main result: in any interleaving, from any reachable state and for as long
  // as every sync repeats the same spec, any half-open window of length Per
  // holds at most Times grants of the calls not committed to an older bucket:
  // those begun since, those still entering, parked or woken, and those that
  // have the current bucket already.
  lemma WindowBound(s: State, run: seq<Action>, ids: set<nat>, t: real)
    requires Reachable(s) && s.spec.times > 0 && s.spec.per > 0
    requires Legal(s, run) && AsksOnly(run, iset{s.spec})
    requires forall i | i in ids :: NotOlder(s, i)
    requires AllGranted(Run(s, run), ids, t, s.spec.per as real)
    ensures |ids| <= s.spec.times
  {
    ReachableInv(s);
    RunInv(s, run);
    var b := s.rl.value;
    var older := set i | 0 <= i < |s.calls| && !UsesOnly(s.calls[i], b);
    UnchangedRun(s, run, older, b);
    PerIsTimesIntervals(s.spec);
    var s' := Run(s, run);
    forall i | i in ids ensures GrantedIn(s', i, b, t, t + Span(s.spec.times, s'.buckets[b].interval)) {
      assert Granted(s', i, t, t + s.spec.per as real);
      assert NotOlder(s, i) && UsesOnly(s'.calls[i], b);
    }
    BucketWindowBound(s', b, ids, t, s.spec.times);
  }

  // A limiter built at a positive rate: the bound covers every call.
  lemma WindowBoundFromNew(spec: Spec, now: real, run: seq<Action>, ids: set<nat>, t: real)
    requires spec.times > 0 && spec.per > 0 && Legal(Init(spec, now), run) && AsksOnly(run, iset{spec})
    requires AllGranted(Run(Init(spec, now), run), ids, t, spec.per as real)
    ensures |ids| <= spec.times
  {
    var s := Init(spec, now);
    assert Legal(s, []) && s == Run(s, []);
    WindowBound(s, run, ids, t);
  }

  // A spec without a bucket.
  predicate Pausing(spec: Spec) {
    spec.times == 0 && spec.per != 0
  }

  ghost function PausingSpecs(): iset<Spec> {
    iset spec | Pausing(spec)
  }

  // Pausing builds no bucket.
  lemma {:induction false} PausingRun(s: State, run: seq<Action>)
    requires Legal(s, run) && AsksOnly(run, PausingSpecs())
    ensures SameBuckets(s, Run(s, run))
    ensures Pausing(s.spec) ==> Pausing(Run(s, run).spec)
    decreases |run|
  {
    if run != [] {
      var s1 := Apply(s, run[0]);
      assert SameBuckets(s, s1);
      assert forall k | 0 <= k < |run[1..]| :: run[1..][k] == run[k + 1];
      PausingRun(s1, run[1..]);
    }
  }

  // A limiter built at the zero rate, as the rate runner builds it, and set to a
  // positive rate later: the bound covers every call, the ones that were parked
  // or on their way included.
  lemma WindowBoundFromZero(zero: Spec, now: real, before: seq<Action>, spec: Spec, run: seq<Action>,
                            ids: set<nat>, t: real)
    requires Pausing(zero) && spec.times > 0 && spec.per > 0
    requires Legal(Init(zero, now), before) && AsksOnly(before, PausingSpecs())
    requires Legal(ApplySetSpec(Run(Init(zero, now), before), spec), run) && AsksOnly(run, iset{spec})
    requires AllGranted(Run(ApplySetSpec(Run(Init(zero, now), before), spec), run), ids, t, spec.per as real)
    ensures |ids| <= spec.times
  {
    var s0 := Init(zero, now);
    var s1 := Run(s0, before);
    PausingRun(s0, before);
    assert Reachable(s1);
    ReachableInv(s1);
    var s2 := ApplySetSpec(s1, spec);
    SetSpecReachable(s0, before, spec);
    forall i | 0 <= i < |s2.calls| ensures UsesOnly(s2.calls[i], s2.rl.value) {
      assert CallOk(s1, s1.calls[i]);
    }
    WindowBound(s2, run, ids, t);
  }

  lemma SetSpecReachable(s0: State, run: seq<Action>, spec: Spec)
    requires s0 == Init(s0.spec, s0.now) && Legal(s0, run)
    ensures Reachable(ApplySetSpec(Run(s0, run), spec))
  {
    var s := Run(s0, run);
    OneSetSpec(s, spec);
    RunAppend(s0, run, [SetSpec(spec)]);
    assert Legal(Init(s0.spec, s0.now), run + [SetSpec(spec)]);
  }

  lemma ApplySetSpecReachable(s: State, spec: Spec)
    requires Reachable(s)
    ensures Reachable(ApplySetSpec(s, spec))
  {
    var built: Spec, now: real, run: seq<Action> :| Legal(Init(built, now), run) && s == Run(Init(built, now), run);
    SetSpecReachable(Init(built, now), run, spec);
  }

  lemma InitReachable(spec: Spec, now: real)
    ensures Reachable(Init(spec, now))
  {
    assert Legal(Init(spec, now), []) && Run(Init(spec, now), []) == Init(spec, now);
  }

  lemma OneSetSpec(s: State, spec: Spec)
    ensures Legal(s, [SetSpec(spec)]) && Run(s, [SetSpec(spec)]) == ApplySetSpec(s, spec)
  {
    hide ApplySetSpec;
    var s' := ApplySetSpec(s, spec);
    assert [SetSpec(spec)][1..] == [] && Apply(s, [SetSpec(spec)][0]) == s';
    assert Legal(s', []) && Run(s', []) == s';
  }

  // ---- The bound is reached ----

  // The bucket after n reservations made at one instant.
  function AfterReserves(b: Bucket, t: real, n: nat): Bucket {
    if n == 0 then b else AfterReserve(AfterReserves(b, t, n - 1), t)
  }

  lemma {:induction false} BackToBack(b: Bucket, t: real, n: nat)
    requires b.Paced? && b.interval > 0.0 && b.nextFree <= t
    ensures AfterReserves(b, t, n).Paced? && AfterReserves(b, t, n).interval == b.interval
    ensures GrantTime(AfterReserves(b, t, n), t) == t + Span(n, b.interval)
    ensures Span(n, b.interval) >= 0.0
  {
    if n > 0 { BackToBack(b, t, n - 1); }
  }

  function CallSteps(i: nat): seq<Action> {
    [Begin, Enter(i), ReadFlag(i), Reserve(i)]
  }

  // One more call has gone to bucket `b` and taken its next slot.
  ghost predicate OneMoreCall(s: State, s': State, b: nat)
    requires b < |s.buckets|
  {
    && s'.spec == s.spec && s'.rl == s.rl && s'.now == s.now
    && s'.buckets == s.buckets[b := AfterReserve(s.buckets[b], s.now)]
    && |s'.calls| == |s.calls| + 1 && s'.calls[..|s.calls|] == s.calls
    && HeldGrant(s'.calls[|s.calls|]) == Some(Grant(b, GrantTime(s.buckets[b], s.now)))
    && s'.calls[|s.calls|].watcher.NoWatcher?
  }

  // A new call takes the next slot of the current bucket in four steps, and starts
  // no watcher.
  lemma OneCall(s: State) returns (s': State)
    requires s.rl.Some? && s.rl.value < |s.buckets|
    ensures Legal(s, CallSteps(|s.calls|)) && s' == Run(s, CallSteps(|s.calls|))
    ensures OneMoreCall(s, s', s.rl.value)
  {
    var i := |s.calls|;
    var r := CallSteps(i);
    var s1 := Apply(s, Begin);
    var s2 := Apply(s1, Enter(i));
    var s3 := Apply(s2, ReadFlag(i));
    s' := Apply(s3, Reserve(i));
    assert r[1..] == [Enter(i), ReadFlag(i), Reserve(i)];
    assert r[1..][1..] == [ReadFlag(i), Reserve(i)];
    assert r[1..][1..][1..] == [Reserve(i)];
    assert r[1..][1..][1..][1..] == [];
    assert [Reserve(i)][0] == Reserve(i) && [Reserve(i)][1..] == [];
    assert Legal(s', []) && Run(s', []) == s';
    assert Legal(s3, [Reserve(i)]) && Run(s3, [Reserve(i)]) == s';
    assert Legal(s2, r[1..][1..]) && Run(s2, r[1..][1..]) == s';
    assert Legal(s1, r[1..]) && Run(s1, r[1..]) == s';
  }

  // n calls have gone to bucket `b` at the instant of `s`.
  ghost predicate MoreCalls(s: State, s': State, b: nat, n: nat)
    requires b < |s.buckets|
  {
    && s'.spec == s.spec && s'.rl == s.rl && s'.now == s.now
    && s'.buckets == s.buckets[b := AfterReserves(s.buckets[b], s.now, n)]
    && |s'.calls| == |s.calls| + n && s'.calls[..|s.calls|] == s.calls
    && forall k | 0 <= k < n ::
         HeldGrant(s'.calls[|s.calls| + k]) == Some(Grant(b, GrantTime(AfterReserves(s.buckets[b], s.now, k), s.now)))
  }

  lemma {:induction false} ManyCalls(s: State, n: nat) returns (run: seq<Action>)
    requires s.rl.Some? && s.rl.value < |s.buckets|
    ensures Legal(s, run) && AsksOnly(run, iset{}) && MoreCalls(s, Run(s, run), s.rl.value, n)
    decreases n
  {
    if n == 0 {
      run := [];
      assert s.buckets[s.rl.value := s.buckets[s.rl.value]] == s.buckets;
    } else {
      var front := ManyCalls(s, n - 1);
      var s1 := Run(s, front);
      var s2 := OneCall(s1);
      var steps := CallSteps(|s1.calls|);
      RunAppend(s, front, steps);
      run := front + steps;
      OneAfterMany(s, s1, s2, s.rl.value, n - 1);
    }
  }

  lemma OneAfterMany(s: State, s1: State, s2: State, b: nat, n: nat)
    requires b < |s.buckets| && MoreCalls(s, s1, b, n) && OneMoreCall(s1, s2, b)
    ensures MoreCalls(s, s2, b, n + 1)
  {
    forall k | 0 <= k < |s1.calls| ensures s2.calls[k] == s1.calls[k] {
      assert s2.calls[..|s1.calls|][k] == s1.calls[k];
    }
    forall k | 0 <= k < |s.calls| ensures s2.calls[k] == s.calls[k] {
      assert s1.calls[..|s.calls|][k] == s.calls[k];
    }
  }

  function NewIds(first: nat, n: nat): (ids: set<nat>)
    ensures |ids| == n
    ensures forall i :: i in ids <==> first <= i < first + n
  {
    if n == 0 then {} else NewIds(first, n - 1) + {first + (n - 1)}
  }

  ghost predicate Idle(s: State) {
    && s.rl.Some? && s.rl.value < |s.buckets| && s.buckets[s.rl.value].Paced?
    && s.buckets[s.rl.value].nextFree <= s.now
  }

  // The bound is reached: from any reachable state with an idle bucket there is a
  // run of new calls of which the first Times are granted within Per, and the
  // next exactly at its end.
  lemma WindowBoundIsTight(s: State) returns (run: seq<Action>, ids: set<nat>)
    requires Reachable(s) && s.spec.times > 0 && s.spec.per > 0 && Idle(s)
    ensures Legal(s, run) && AsksOnly(run, iset{}) && |ids| == s.spec.times
    ensures ids == NewIds(|s.calls|, s.spec.times)
    ensures var s' := Run(s, run);
            && AllGranted(s', ids, s.now, s.spec.per as real)
            && s'.spec == s.spec && s'.now == s.now && |s'.calls| == |s.calls| + s.spec.times + 1
            && HeldGrant(s'.calls[|s.calls| + s.spec.times]) == Some(Grant(s.rl.value, s.now + s.spec.per as real))
  {
    hide Apply;
    ReachableInv(s);
    var n := s.spec.times;
    var b := s.buckets[s.rl.value];
    run := ManyCalls(s, n + 1);
    ids := NewIds(|s.calls|, n);
    PerIsTimesIntervals(s.spec);
    BackToBack(b, s.now, n);
    var s' := Run(s, run);
    forall i | i in ids ensures Granted(s', i, s.now, s.now + s.spec.per as real) {
      var k := i - |s.calls|;
      BackToBack(b, s.now, k);
      SpanGrows(k, n, b.interval);
      assert HeldGrant(s'.calls[|s.calls| + k]).Some?;
    }
  }

  lemma {:induction false} SpanGrows(k: nat, n: nat, interval: real)
    requires k < n && interval > 0.0
    ensures Span(k, interval) < Span(n, interval)
  {
    if k < n - 1 { SpanGrows(k, n - 1, interval); }
  }

  // ---- When the documented guarantee holds ----

  // A sync keeps the bucket exactly when the spec is the same or neither spec
  // has a bucket at all.
  lemma SetSpecKeepsBucketIff(s: State, spec: Spec)
    requires Reachable(s)
    ensures ApplySetSpec(s, spec).rl == s.rl <==> spec == s.spec || (Pausing(s.spec) && Pausing(spec))
  {
    ReachableInv(s);
  }

  // The run begins at New, and each of `ids` is granted in the Per from `t` on.
  ghost predicate GrantsFromNew(spec: Spec, now: real, run: seq<Action>, ids: set<nat>, t: real) {
    Legal(Init(spec, now), run) && AllGranted(Run(Init(spec, now), run), ids, t, spec.per as real)
  }

  // What the limiter documents: whatever specs it is given, no window of its first
  // Per holds more than its first Times grants.
  ghost predicate KeepsWindow(spec: Spec, specs: iset<Spec>) {
    forall now: real, run: seq<Action>, ids: set<nat>, t: real ::
      GrantsFromNew(spec, now, run, ids, t) && AsksOnly(run, specs) ==> |ids| <= spec.times
  }

  // Main result: a limiter keeps its window exactly when the specs it is given
  // all repeat its own, or all pause it.
  lemma KeepsWindowIff(spec: Spec, specs: iset<Spec>)
    requires spec.times > 0 && spec.per > 0
    ensures KeepsWindow(spec, specs) <==> specs <= iset{spec} || specs <= PausingSpecs()
  {
    if specs <= iset{spec} || specs <= PausingSpecs() {
      forall now: real, run: seq<Action>, ids: set<nat>, t: real |
        GrantsFromNew(spec, now, run, ids, t) && AsksOnly(run, specs)
        ensures |ids| <= spec.times
      {
        if specs <= iset{spec} {
          WindowBoundFromNew(spec, now, run, ids, t);
        } else {
          WindowBoundWhilePausing(spec, now, run, ids, t);
        }
      }
    } else {
      var first, last := BreakingSpecs(spec, specs);
      BreaksTheWindow(spec, specs, first, last);
    }
  }

  // A limiter that is only ever paused never gets a second bucket.
  lemma WindowBoundWhilePausing(spec: Spec, now: real, run: seq<Action>, ids: set<nat>, t: real)
    requires spec.times > 0 && spec.per > 0 && Legal(Init(spec, now), run) && AsksOnly(run, PausingSpecs())
    requires AllGranted(Run(Init(spec, now), run), ids, t, spec.per as real)
    ensures |ids| <= spec.times
  {
    var s0 := Init(spec, now);
    InitInv(spec, now);
    RunInv(s0, run);
    PausingRun(s0, run);
    PerIsTimesIntervals(spec);
    var s := Run(s0, run);
    forall i | i in ids ensures GrantedIn(s, i, 0, t, t + Span(spec.times, s.buckets[0].interval)) {
      assert Granted(s, i, t, t + spec.per as real);
      assert CallOk(s, s.calls[i]);
    }
    BucketWindowBound(s, 0, ids, t, spec.times);
  }

  // Two syncs that leave a limiter of `spec` with a new bucket.
  lemma BreakingSpecs(spec: Spec, specs: iset<Spec>) returns (first: Spec, last: Spec)
    requires !(specs <= iset{spec}) && !(specs <= PausingSpecs())
    ensures first in specs && last in specs && first != spec && !Pausing(last)
    ensures first == last || (Pausing(first) && last == spec)
  {
    var other :| other in specs && other != spec;
    last :| last in specs && !Pausing(last);
    if last != spec {
      first := last;
    } else if Pausing(other) {
      first := other;
    } else {
      first, last := other, other;
    }
  }

  // A new bucket starts full: the old one has granted Times calls at once, and
  // one more is granted at the same instant.
  lemma BreaksTheWindow(spec: Spec, specs: iset<Spec>, first: Spec, last: Spec)
    requires spec.times > 0 && spec.per > 0
    requires first in specs && last in specs && first != spec && !Pausing(last)
    requires first == last || (Pausing(first) && last == spec)
    ensures !KeepsWindow(spec, specs)
  {
    hide Apply, ApplySetSpec, Inv, OneMoreCall, Granted, AsksOnly;
    var s0 := Init(spec, 0.0);
    assert Legal(s0, []) && Run(s0, []) == s0;
    assert Reachable(s0);
    var calls, ids := WindowBoundIsTight(s0);
    var s1 := Run(s0, calls);
    InitInv(spec, 0.0);
    RunInv(s0, calls);
    var s2 := TwoSyncs(s1, first, last);
    var s3 := OneCall(s2);
    var syncs, steps := [SetSpec(first), SetSpec(last)], CallSteps(|s2.calls|);
    RunAppend(s0, calls, syncs);
    RunAppend(s0, calls + syncs, steps);
    var run, all := calls + syncs + steps, ids + {|s2.calls|};
    StillGranted(s1, s2, s3, ids, spec.per as real);
    assert |all| == spec.times + 1;
    assert GrantsFromNew(spec, 0.0, run, all, 0.0);
    AsksInTurn(calls, first, last, |s2.calls|, specs);
  }

  lemma AsksInTurn(calls: seq<Action>, first: Spec, last: Spec, i: nat, specs: iset<Spec>)
    requires AsksOnly(calls, iset{}) && first in specs && last in specs
    ensures AsksOnly(calls + [SetSpec(first), SetSpec(last)] + CallSteps(i), specs)
  {
  }

  // The earlier grants and one more at the same instant.
  lemma StillGranted(s1: State, s2: State, s3: State, ids: set<nat>, length: real)
    requires AllGranted(s1, ids, s1.now, length) && length > 0.0 && s2.now == s1.now && |s2.calls| == |s1.calls|
    requires forall i | 0 <= i < |s1.calls| :: HeldGrant(s2.calls[i]) == HeldGrant(s1.calls[i])
    requires s2.buckets != [] && OneMoreCall(s2, s3, |s2.buckets| - 1)
    requires GrantTime(s2.buckets[|s2.buckets| - 1], s2.now) == s2.now
    ensures AllGranted(s3, ids + {|s2.calls|}, s1.now, length) && |s2.calls| !in ids
  {
    forall i | i in ids + {|s2.calls|} ensures Granted(s3, i, s1.now, s1.now + length) {
      if i in ids {
        assert Granted(s1, i, s1.now, s1.now + length);
        assert s3.calls[..|s2.calls|][i] == s2.calls[i];
      }
    }
    assert !Granted(s1, |s2.calls|, s1.now, s1.now + length);
  }

  // The limiter after the two syncs: a fresh bucket, every grant as it was.
  lemma TwoSyncs(s: State, first: Spec, last: Spec) returns (s': State)
    requires Inv(s)
    requires first != s.spec && !Pausing(last) && (first == last || (Pausing(first) && last == s.spec))
    ensures Legal(s, [SetSpec(first), SetSpec(last)]) && s' == Run(s, [SetSpec(first), SetSpec(last)])
    ensures s'.rl == Some(|s.buckets|) && |s'.buckets| == |s.buckets| + 1 && s'.now == s.now
    ensures GrantTime(s'.buckets[|s.buckets|], s'.now) == s'.now
    ensures |s'.calls| == |s.calls|
    ensures forall i | 0 <= i < |s.calls| :: HeldGrant(s'.calls[i]) == HeldGrant(s.calls[i])
  {
    var s1 := ApplySetSpec(s, first);
    s' := ApplySetSpec(s1, last);
    OneSetSpec(s, first);
    OneSetSpec(s1, last);
    RunAppend(s, [SetSpec(first)], [SetSpec(last)]);
    assert [SetSpec(first)] + [SetSpec(last)] == [SetSpec(first), SetSpec(last)];
  }

  // One input for which the documented guarantee fails: one per ten, paused and
  // resumed.
  lemma ResumingBreaksTheWindow()
    ensures !KeepsWindow(Spec(1, 10), iset{Spec(0, 10), Spec(1, 10)})
  {
    assert Spec(0, 10) !in iset{Spec(1, 10)};
    assert Spec(1, 10) !in PausingSpecs();
    KeepsWindowIff(Spec(1, 10), iset{Spec(0, 10), Spec(1, 10)});
  }

  lemma {:induction false} RunAppend(s: State, a: seq<Action>, b: seq<Action>)
    requires Legal(s, a) && Legal(Run(s, a), b)
    ensures Legal(s, a + b) && Run(s, a + b) == Run(Run(s, a), b)
    decreases |a|
  {
    if a == [] {
      assert a + b == b;
    } else {
      RunAppend(Apply(s, a[0]), a[1..], b);
      assert (a + b)[1..] == a[1..] + b;
    }
  }

  // Giving a reservation back before anyone else reserved leaves the bucket as
  // good as untouched for every later call.
  lemma CancelUndoesReserve(b: Bucket, t: real, t': real, later: real)
    requires b.Paced? ==> b.interval > 0.0
    requires t <= t' <= GrantTime(b, t) && t' <= later
    ensures GrantTime(AfterCancel(AfterReserve(b, t), GrantTime(b, t), t'), later) == GrantTime(b, later)
  {
  }

  // ---- The waiting protocol ----

  // In every reachable state: the pointer is nil exactly for a zero rate; with a
  // bucket in place nobody is parked; a parked call whose context has ended has a
  // broadcast still to come; Wait is never called on nil; a nil result always
  // comes from a bucket; an error always from an ended context.
  lemma ProtocolSafety(s: State, i: nat)
    requires Reachable(s) && i < |s.calls|
    ensures s.rl.None? <==> s.spec.times == 0 && s.spec.per != 0
    ensures s.rl.Some? ==> !s.calls[i].pc.Parked?
    ensures s.calls[i].pc.Parked? && s.calls[i].ctxErr ==>
              Enabled(s, WatcherFlags(i)) || Enabled(s, WatcherBroadcasts(i))
    ensures !s.calls[i].pc.Crashed?
    ensures s.calls[i].pc.Returned? && !s.calls[i].pc.failed ==>
              s.calls[i].pc.granted.Some? && s.calls[i].pc.granted.value.at <= s.now
    ensures s.calls[i].pc.Returned? && s.calls[i].pc.failed ==> s.calls[i].ctxErr
  {
    ReachableInv(s);
    assert CallOk(s, s.calls[i]);
  }

  // Steps of call i and its watcher left before it returns, once its context ended.
  function Rank(c: Call): nat {
    match c.pc
    case Entering => 7
    case Parked => if c.watcher.Watching? then 6 else 5
    case Woken => if c.watcher.Watching? then 7 else 4
    case Decided(_) => 2
    case Calling(_) => 1
    case Waiting(_) => 1
    case Returned(_, _) => 0
    case Crashed => 0
  }

  function NextStep(s: State, i: nat): Action
    requires i < |s.calls|
  {
    var c := s.calls[i];
    match c.pc
    case Entering => Enter(i)
    case Parked => if c.watcher.Watching? then WatcherFlags(i) else WatcherBroadcasts(i)
    case Woken => Recheck(i)
    case Decided(_) => ReadFlag(i)
    case Calling(_) => Reserve(i)
    case _ => Abort(i)
  }

  lemma NextStepProgress(s: State, i: nat)
    requires Inv(s) && i < |s.calls| && s.calls[i].ctxErr && !s.calls[i].pc.Returned?
    ensures Enabled(s, NextStep(s, i))
    ensures var s' := Apply(s, NextStep(s, i));
            && |s'.calls| == |s.calls| && s'.calls[i].ctxErr
            && Rank(s'.calls[i]) < Rank(s.calls[i])
            && (s'.calls[i].pc.Returned? ==> s'.calls[i].pc.failed)
            && (!s.calls[i].pc.Waiting? ==> !s'.calls[i].pc.Waiting? && s'.buckets == s.buckets)
  {
    assert CallOk(s, s.calls[i]);
    StepInv(s, NextStep(s, i));
  }

  // Whatever the others did, an ended context lets the call return its error by
  // at most seven steps of its own and its watcher's, and without a slot unless it
  // had one already.
  lemma {:induction false} EndedContextReturns(s: State, i: nat) returns (run: seq<Action>)
    requires Inv(s) && i < |s.calls| && s.calls[i].ctxErr
    ensures Legal(s, run) && |run| <= Rank(s.calls[i]) <= 7
    ensures forall a | a in run :: !a.Begin? && !a.SetSpec? && !a.Tick? && !a.EndContext? && a.i == i
    ensures i < |Run(s, run).calls| && Run(s, run).calls[i].pc.Returned?
    ensures !s.calls[i].pc.Returned? ==> Run(s, run).calls[i].pc.failed
    ensures !s.calls[i].pc.Waiting? ==> Run(s, run).buckets == s.buckets
    decreases Rank(s.calls[i])
  {
    if s.calls[i].pc.Returned? {
      run := [];
    } else {
      var a := NextStep(s, i);
      NextStepProgress(s, i);
      StepInv(s, a);
      var rest := EndedContextReturns(Apply(s, a), i);
      run := [a] + rest;
      assert run[0] == a && run[1..] == rest;
      if Apply(s, a).calls[i].pc.Returned? {
        assert Rank(Apply(s, a).calls[i]) == 0;
        assert rest == [];
      }
    }
  }

  // Ending the context of any call that has not returned makes it return the error.
  lemma EndingReturns(s: State, i: nat) returns (run: seq<Action>)
    requires Inv(s) && i < |s.calls| && !s.calls[i].pc.Returned?
    ensures run != [] && run[0] == EndContext(i) && Legal(s, run) && |run| <= 8
    ensures i < |Run(s, run).calls| && Run(s, run).calls[i].pc.Returned? && Run(s, run).calls[i].pc.failed
  {
    StepInv(s, EndContext(i));
    var rest := EndedContextReturns(Apply(s, EndContext(i)), i);
    run := [EndContext(i)] + rest;
    assert run[0] == EndContext(i) && run[1..] == rest;
  }

  // No goroutine is left behind: once a call is past its watcher, the watcher can
  // end by steps of its own, whatever becomes of the context.
  lemma WatcherEnds(s: State, i: nat) returns (run: seq<Action>)
    requires Inv(s) && i < |s.calls|
    requires s.calls[i].pc.Calling? || s.calls[i].pc.Waiting? || s.calls[i].pc.Returned?
    ensures Legal(s, run) && |run| <= 2 && i < |Run(s, run).calls|
    ensures forall a | a in run :: a == WatcherFlags(i) || a == WatcherBroadcasts(i)
    ensures Run(s, run).calls[i].watcher.NoWatcher? || Run(s, run).calls[i].watcher.Finished?
    ensures Run(s, run).calls[i].pc == s.calls[i].pc
  {
    assert CallOk(s, s.calls[i]);
    var flag, broadcast := WatcherFlags(i), WatcherBroadcasts(i);
    assert [broadcast][1..] == [] && [flag, broadcast][1..] == [broadcast];
    match s.calls[i].watcher
    case Watching =>
      run := [flag, broadcast];
      var s1 := Apply(s, flag);
      var s2 := Apply(s1, broadcast);
      assert Legal(s2, []) && Run(s2, []) == s2;
      assert Legal(s1, [broadcast]) && Run(s1, [broadcast]) == s2;
    case Flagged =>
      run := [broadcast];
      var s2 := Apply(s, broadcast);
      assert Legal(s2, []) && Run(s2, []) == s2;
    case _ => run := [];
  }

  // A parked call whose flag is set returns the error even when a bucket comes
  // before it wakes up, and takes none of its slots.
  lemma FlagBeatsBucket(s: State, i: nat, spec: Spec)
    requires Inv(s) && i < |s.calls| && s.calls[i].pc.Parked? && s.calls[i].ctxDone && !Pausing(spec)
    ensures var run := [SetSpec(spec), Recheck(i), ReadFlag(i)];
            && Legal(s, run) && i < |Run(s, run).calls| && Run(s, run).calls[i].pc == Returned(true, None)
            && Run(s, run).buckets == ApplySetSpec(s, spec).buckets
  {
    assert CallOk(s, s.calls[i]);
    var run := [SetSpec(spec), Recheck(i), ReadFlag(i)];
    var s1 := Apply(s, run[0]);
    var s2 := Apply(s1, run[1]);
    var s3 := Apply(s2, run[2]);
    assert run[1..] == [Recheck(i), ReadFlag(i)];
    assert run[1..][1..] == [ReadFlag(i)] && [ReadFlag(i)][0] == ReadFlag(i) && [ReadFlag(i)][1..] == [];
    assert Legal(s3, []) && Run(s3, []) == s3;
    assert Legal(s2, [ReadFlag(i)]) && Run(s2, [ReadFlag(i)]) == s3;
    assert Legal(s1, run[1..]) && Run(s1, run[1..]) == s3;
  }

  // A waiting call whose context lives is let through when its slot comes.
  lemma SlotComes(s: State, i: nat)
    requires i < |s.calls| && s.calls[i].pc.Waiting?
    ensures var g := s.calls[i].pc.grant;
            var run := [Tick(if g.at <= s.now then 0.0 else g.at - s.now), TimerFires(i)];
            && Legal(s, run) && i < |Run(s, run).calls| && Run(s, run).calls[i].pc == Returned(false, Some(g))
            && Run(s, run).now == if g.at <= s.now then s.now else g.at
  {
    var g := s.calls[i].pc.grant;
    var run := [Tick(if g.at <= s.now then 0.0 else g.at - s.now), TimerFires(i)];
    var s1 := Apply(s, run[0]);
    var s2 := Apply(s1, run[1]);
    assert run[1..] == [TimerFires(i)] && run[1..][1..] == [];
    assert Legal(s2, []) && Run(s2, []) == s2;
    assert Legal(s1, run[1..]) && Run(s1, run[1..]) == s2;
  }

  // A parked call whose context lives is woken by a spec with a bucket and takes
  // its first slot at once.
  lemma ParkedGetsSlot(s: State, i: nat, spec: Spec)
    requires Inv(s) && i < |s.calls| && s.calls[i].pc.Parked? && !s.calls[i].ctxErr && !Pausing(spec)
    ensures var run := [SetSpec(spec), Recheck(i), ReadFlag(i), Reserve(i)];
            && Legal(s, run) && i < |Run(s, run).calls|
            && Run(s, run).calls[i].pc == Returned(false, Some(Grant(|s.buckets|, s.now)))
  {
    assert CallOk(s, s.calls[i]);
    var run := [SetSpec(spec), Recheck(i), ReadFlag(i), Reserve(i)];
    var s1 := Apply(s, run[0]);
    var s2 := Apply(s1, run[1]);
    var s3 := Apply(s2, run[2]);
    var s4 := Apply(s3, run[3]);
    assert run[1..] == [Recheck(i), ReadFlag(i), Reserve(i)];
    assert run[1..][1..] == [ReadFlag(i), Reserve(i)];
    assert run[1..][1..][1..] == [Reserve(i)] && [Reserve(i)][0] == Reserve(i) && [Reserve(i)][1..] == [];
    assert Legal(s4, []) && Run(s4, []) == s4;
    assert Legal(s3, [Reserve(i)]) && Run(s3, [Reserve(i)]) == s4;
    assert Legal(s2, run[1..][1..]) && Run(s2, run[1..][1..]) == s4;
    assert Legal(s1, run[1..]) && Run(s1, run[1..]) == s4;
  }

  // ---- A cancelled wait ----

  // Nobody has taken a slot of the bucket after this one.
  ghost predicate LastSlot(s: State, g: Grant) {
    g.bucket < |s.buckets| && s.buckets[g.bucket].Paced?
    && s.buckets[g.bucket].nextFree == g.at + s.buckets[g.bucket].interval
  }

  // A later grant of the same bucket rules that out.
  lemma LaterGrantIsBehind(s: State, i: nat, j: nat)
    requires Inv(s) && i < |s.calls| && j < |s.calls|
    requires HeldGrant(s.calls[i]).Some? && HeldGrant(s.calls[j]).Some?
    requires var g, h := HeldGrant(s.calls[i]).value, HeldGrant(s.calls[j]).value;
             g.bucket == h.bucket && g.at < h.at && s.buckets[g.bucket].Paced?
    ensures !LastSlot(s, HeldGrant(s.calls[i]).value)
  {
    assert CallOk(s, s.calls[i]) && CallOk(s, s.calls[j]);
  }

  // Main result: after a wait is given up, the next call gets the very slot it
  // waited for when nobody has taken a later one, and otherwise the slot behind
  // the last one taken.
  lemma CancelledWaitGivesSlotBack(s: State, i: nat)
    requires Inv(s) && i < |s.calls| && s.calls[i].pc.Waiting? && s.calls[i].ctxErr
    requires s.rl == Some(s.calls[i].pc.grant.bucket) && s.buckets[s.rl.value].Paced?
    ensures var g, n, b := s.calls[i].pc.grant, |s.calls|, s.buckets[s.rl.value];
            var run := [Abort(i)] + CallSteps(n);
            && Legal(s, run)
            && var s' := Run(s, run);
               && |s'.calls| == n + 1 && s'.calls[i].pc == Returned(true, None)
               && (s.now <= g.at && LastSlot(s, g) ==> HeldGrant(s'.calls[n]) == Some(g))
               && (!(s.now <= g.at && LastSlot(s, g)) ==>
                     HeldGrant(s'.calls[n]) == Some(Grant(g.bucket, if b.nextFree <= s.now then s.now else b.nextFree)))
               && forall j | 0 <= j < n && j != i :: s'.calls[j] == s.calls[j]
  {
    hide Apply, OneMoreCall, Inv;
    var n := |s.calls|;
    var s1 := AbortFrees(s, i);
    var s2 := OneCall(s1);
    assert ([Abort(i)] + CallSteps(n))[1..] == CallSteps(n) && ([Abort(i)] + CallSteps(n))[0] == Abort(i);
    SlotAfter(s1, s2, s1.rl.value);
  }

  // The abort alone: the call returns its error, and the bucket's next slot is the
  // one given back, or stays.
  lemma AbortFrees(s: State, i: nat) returns (s': State)
    requires Inv(s) && i < |s.calls| && s.calls[i].pc.Waiting? && s.calls[i].ctxErr
    requires s.rl == Some(s.calls[i].pc.grant.bucket) && s.buckets[s.rl.value].Paced?
    ensures Enabled(s, Abort(i)) && s' == Apply(s, Abort(i))
    ensures s'.now == s.now && s'.rl == s.rl && |s'.buckets| == |s.buckets| && s'.buckets[s.rl.value].Paced?
    ensures var g := s.calls[i].pc.grant;
            s'.buckets[s.rl.value].nextFree ==
              if s.now <= g.at && LastSlot(s, g) then g.at else s.buckets[s.rl.value].nextFree
    ensures |s'.calls| == |s.calls| && s'.calls[i].pc == Returned(true, None)
    ensures forall j | 0 <= j < |s.calls| && j != i :: s'.calls[j] == s.calls[j]
  {
    assert CallOk(s, s.calls[i]);
    s' := Apply(s, Abort(i));
  }

  // The slot one more call takes, with the calls before it as they were.
  lemma SlotAfter(s: State, s': State, b: nat)
    requires b < |s.buckets| && s.buckets[b].Paced? && OneMoreCall(s, s', b)
    ensures forall j | 0 <= j < |s.calls| :: s'.calls[j] == s.calls[j]
    ensures |s'.calls| == |s.calls| + 1
    ensures HeldGrant(s'.calls[|s.calls|]) ==
            Some(Grant(b, if s.buckets[b].nextFree <= s.now then s.now else s.buckets[b].nextFree))
  {
    forall j | 0 <= j < |s.calls| ensures s'.calls[j] == s.calls[j] {
      assert s'.calls[..|s.calls|][j] == s.calls[j];
    }
  }

  // ---- The limiter object ----

  // The sequential face of the limiter.  `buckets` keeps every bucket ever built,
  // because a call may still be waiting on one that was replaced.
  class Limiter {
    const taskId: string     // the task named in its log lines
    var spec: Spec
    var rl: Option<nat>
    var buckets: seq<Bucket>
    var calls: seq<Call>
    var now: real

    ghost function View(): State
      reads this
    {
      State(now, spec, rl, buckets, calls)
    }

    constructor (taskId: string, spec: Spec, now: real)
      ensures this.taskId == taskId && View() == Init(spec, now)
    {
      this.taskId := taskId;
      this.spec, this.now, this.calls := spec, now, [];
      var built := BuildRL(spec, now);
      if built.Some? {
        rl, buckets := Some(0), [built.value];
      } else {
        rl, buckets := None, [];
      }
    }

    // Wakes every parked call, one after the other.
    method Broadcast()
      modifies this`calls
      ensures calls == WakeAll(old(calls))
    {
      var k := 0;
      while k < |calls|
        invariant 0 <= k <= |calls| == |old(calls)|
        invariant forall j | 0 <= j < |calls| :: calls[j] == if j < k then Wake(old(calls)[j]) else old(calls)[j]
      {
        calls := calls[k := Wake(calls[k])];
        k := k + 1;
      }
    }

    method SetSpec(spec: Spec)
      modifies this
      ensures View() == ApplySetSpec(old(View()), spec) && this.spec == spec
    {
      if this.spec == spec {
        return;
      }
      this.spec := spec;
      var built := BuildRL(spec, now);
      if built.Some? {
        rl := Some(|buckets|);
        buckets := buckets + [built.value];
        Broadcast();
      } else {
        rl := None;
      }
    }
  }
}
