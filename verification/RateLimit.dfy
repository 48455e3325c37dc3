/** Token buckets and the tables that hold them (src/lightr/ratelimit.py). Clock
    readings are parameters; numbers are exact reals. */
module RateLimit {
  import opened Text

  // ----- one bucket

  datatype BucketState = BucketState(capacity: real, period: real, tokens: real, updated: real)

  ghost predicate ValidBucket(b: BucketState) {
    b.capacity > 0.0 && b.period > 0.0 && 0.0 <= b.tokens <= b.capacity
  }

  function Fresh(capacity: real, period: real, now: real): BucketState {
    BucketState(capacity, period, capacity, now)
  }

  function Min(a: real, b: real): real { if a < b then a else b }
  function Max(a: real, b: real): real { if a > b then a else b }

  /** Tokens gained per second. */
  function Rate(b: BucketState): real
    requires b.period > 0.0
  {
    b.capacity / b.period
  }

  /** What a rate yields over a span of time. */
  function Over(span: real, rate: real): real { span * rate }

  /** The tokens a bucket would hold if it were refilled at a moment. */
  function Level(b: BucketState, now: real): real
    requires b.period > 0.0
  {
    Min(b.capacity, b.tokens + Over(Max(0.0, now - b.updated), Rate(b)))
  }

  function Take(b: BucketState, now: real): (bool, BucketState)
    requires b.period > 0.0
  {
    var tokens := Level(b, now);
    if tokens < 1.0 then (false, b.(tokens := tokens, updated := now))
    else (true, b.(tokens := tokens - 1.0, updated := now))
  }

  /** `max(1, int(missing / rate) + 1)`; `int` drops the fraction of a number that
      is never negative here. */
  function RetryAfter(b: BucketState): int
    requires b.capacity > 0.0 && b.period > 0.0
  {
    var missing := Max(0.0, 1.0 - b.tokens);
    var wait := (missing / Rate(b)).Floor + 1;
    if wait > 1 then wait else 1
  }

  class Bucket {
    const capacity: real
    const period: real
    var tokens: real
    var updated: real

    function State(): BucketState
      reads this
    {
      BucketState(capacity, period, tokens, updated)
    }

    ghost predicate Valid()
      reads this
    {
      ValidBucket(State())
    }

    constructor (capacity: real, period: real, now: real)
      requires capacity > 0.0 && period > 0.0
      ensures Valid() && State() == Fresh(capacity, period, now)
    {
      this.capacity := capacity;
      this.period := period;
      tokens := capacity;
      updated := now;
    }

    method TakeOne(now: real) returns (granted: bool)
      requires Valid()
      modifies this
      ensures Valid() && (granted, State()) == Take(old(State()), now)
    {
      ghost var before := State();
      RefillBounds(before, now);
      var elapsed := Max(0.0, now - updated);
      updated := now;
      tokens := Min(capacity, tokens + elapsed * (capacity / period));
      assert tokens == Level(before, now);
      if tokens < 1.0 { return false; }
      tokens := tokens - 1.0;
      granted := true;
    }

    method Wait() returns (seconds: int)
      requires Valid()
      ensures seconds == RetryAfter(State())
    {
      var missing := Max(0.0, 1.0 - tokens);
      var wait := (missing / (capacity / period)).Floor + 1;
      seconds := if wait > 1 then wait else 1;
    }
  }

  // ----- arithmetic of refilling

  lemma {:induction false} Scale(a: real, b: real, r: real)
    requires a <= b && r >= 0.0
    ensures Over(a, r) <= Over(b, r) && Over(0.0, r) == 0.0
  {
    var d := b - a;
    assert d * r >= 0.0;
    assert b * r == a * r + d * r;
  }

  lemma {:induction false} Spread(a: real, b: real, c: real, r: real)
    ensures Over(c - a, r) == Over(b - a, r) + Over(c - b, r)
  {
  }

  lemma {:induction false} RatePositive(b: BucketState)
    requires b.capacity > 0.0 && b.period > 0.0
    ensures Rate(b) > 0.0 && Over(b.period, Rate(b)) == b.capacity
  {
  }

  /** A refill never leaves the bucket's bounds. */
  lemma {:induction false} RefillBounds(b: BucketState, now: real)
    requires ValidBucket(b)
    ensures 0.0 <= b.tokens <= Level(b, now) <= b.capacity
  {
    RatePositive(b);
    Scale(0.0, Max(0.0, now - b.updated), Rate(b));
  }

  lemma {:induction false} LevelAt(b: BucketState, now: real)
    requires b.period > 0.0 && b.updated <= now
    ensures Level(b, now) == Min(b.capacity, b.tokens + Over(now - b.updated, Rate(b)))
  {
  }

  /** The level rises with time, no faster than the rate. */
  lemma {:induction false} LevelRises(b: BucketState, t: real, u: real)
    requires ValidBucket(b) && b.updated <= t <= u
    ensures Level(b, t) <= Level(b, u) <= Level(b, t) + Over(u - t, Rate(b))
  {
    var r := Rate(b);
    RatePositive(b);
    LevelAt(b, t);
    LevelAt(b, u);
    hide Rate, Level, Over;
    Scale(t - b.updated, u - b.updated, r);
    Scale(0.0, u - t, r);
    Spread(b.updated, t, u, r);
  }

  /** A take at a moment moves the level at that moment down by one, or leaves it
      when the level was below one. */
  lemma {:induction false} TakeLevel(b: BucketState, now: real)
    requires ValidBucket(b)
    ensures var (ok, after) := Take(b, now);
            && ValidBucket(after) && after.capacity == b.capacity && after.period == b.period && after.updated == now && Rate(after) == Rate(b)
            && (ok <==> Level(b, now) >= 1.0)
            && Level(after, now) == (if ok then Level(b, now) - 1.0 else Level(b, now))
  {
    RefillBounds(b, now);
    var after := Take(b, now).1;
    assert Over(Max(0.0, now - after.updated), Rate(after)) == 0.0;
  }

  // ----- how many takes are granted

  ghost predicate Monotone(start: real, times: seq<real>)
    decreases |times|
  {
    times == [] || (start <= times[0] && Monotone(times[0], times[1..]))
  }

  function After(b: BucketState, times: seq<real>): (r: BucketState)
    requires b.period > 0.0
    ensures r.period == b.period && r.capacity == b.capacity
    decreases |times|
  {
    if times == [] then b else After(Take(b, times[0]).1, times[1..])
  }

  function Grants(b: BucketState, times: seq<real>): nat
    requires b.period > 0.0
    decreases |times|
  {
    if times == [] then 0
    else (if Take(b, times[0]).0 then 1 else 0) + Grants(Take(b, times[0]).1, times[1..])
  }

  ghost function Last(start: real, times: seq<real>): real
    decreases |times|
  {
    if times == [] then start else Last(times[0], times[1..])
  }

  lemma {:induction false} LastNotBefore(start: real, times: seq<real>)
    requires Monotone(start, times)
    ensures start <= Last(start, times)
    decreases |times|
  {
    if times != [] { LastNotBefore(times[0], times[1..]); }
  }

  /** What is granted comes out of the level at the start and what is refilled. */
  lemma {:induction false} GrantsSpendLevel(b: BucketState, start: real, times: seq<real>)
    requires ValidBucket(b) && b.updated <= start && Monotone(start, times)
    ensures Grants(b, times) as real <= Level(b, start) + Over(Last(start, times) - start, Rate(b))
    ensures ValidBucket(After(b, times)) && After(b, times).updated <= Last(start, times)
    ensures After(b, times).capacity == b.capacity && After(b, times).period == b.period
    decreases |times|
  {
    hide Take, Level, Rate, Over;
    RefillBounds(b, start);
    if times == [] {
      RatePositive(b);
      Scale(0.0, 0.0, Rate(b));
    } else {
      var t, end := times[0], Last(start, times);
      LevelRises(b, start, t);
      TakeLevel(b, t);
      var (ok, after) := Take(b, t);
      GrantsSpendLevel(after, t, times[1..]);
      Spread(start, t, end, Rate(b));
      GrantsStep(b, times);
      hide *;
    }
  }

  lemma {:induction false} GrantsStep(b: BucketState, times: seq<real>)
    requires b.period > 0.0 && times != []
    ensures Grants(b, times) == (if Take(b, times[0]).0 then 1 else 0) + Grants(Take(b, times[0]).1, times[1..])
    ensures After(b, times) == After(Take(b, times[0]).1, times[1..])
  {
    hide Take;
  }

  /** In any window of any run, a bucket grants at most its capacity and what it
      refills over the window, and it always holds between nothing and its
      capacity. */
  lemma {:induction false} WindowBound(capacity: real, period: real, created: real, before: seq<real>, window: seq<real>)
    requires capacity > 0.0 && period > 0.0
    requires Monotone(created, before + window) && window != []
    ensures var b := After(Fresh(capacity, period, created), before);
            && 0.0 <= b.tokens <= capacity
            && Grants(b, window) as real <= capacity + Over(window[|window| - 1] - window[0], capacity / period)
  {
    var full := Fresh(capacity, period, created);
    hide Take, Level, Grants;
    MonotoneParts(created, before, window);
    GrantsSpendLevel(full, created, before);
    var b := After(full, before);
    var t := window[0];
    assert Monotone(t, window);
    RefillBounds(b, t);
    GrantsSpendLevel(b, t, window);
    LastIsLast(t, window);
  }

  lemma {:induction false} MonotoneParts(start: real, a: seq<real>, b: seq<real>)
    requires Monotone(start, a + b)
    ensures Monotone(start, a) && Monotone(Last(start, a), b)
    decreases |a|
  {
    if a == [] {
      assert a + b == b;
    } else {
      assert (a + b)[1..] == a[1..] + b;
      MonotoneParts(a[0], a[1..], b);
    }
  }

  lemma {:induction false} LastIsLast(start: real, times: seq<real>)
    requires times != []
    ensures Last(start, times) == times[|times| - 1]
    decreases |times|
  {
    if |times| > 1 { LastIsLast(times[0], times[1..]); }
  }

  /** The bound needs a clock that never goes back: a take resets the refill point
      even when it moves it into the past. */
  lemma {:induction false} ClockGoingBack()
    ensures var first := Take(Fresh(1.0, 1.0, 10.0), 10.0);
            var back := Take(first.1, 0.0);
            first.0 && Take(back.1, 10.0).0
  {
    var b := Fresh(1.0, 1.0, 10.0);
    assert Rate(b) == 1.0 && Over(0.0, 1.0) == 0.0 && Over(10.0, 1.0) == 10.0;
    assert Take(b, 10.0) == (true, b.(tokens := 0.0));
    var spent := BucketState(1.0, 1.0, 0.0, 10.0);
    assert Rate(spent) == 1.0;
    assert Take(spent, 0.0) == (false, BucketState(1.0, 1.0, 0.0, 0.0));
    var moved := BucketState(1.0, 1.0, 0.0, 0.0);
    assert Rate(moved) == 1.0;
    hide Over, Rate;
    assert Level(moved, 10.0) == 1.0;
  }

  // ----- how long to wait

  /** After a refusal, with no other take, a take succeeds exactly from the moment
      the missing part of a token has been refilled; never when the capacity is
      below one. */
  lemma {:induction false} SufficientWait(b: BucketState, now: real, wait: real)
    requires ValidBucket(b) && wait >= 0.0 && !Take(b, now).0
    ensures var refused := Take(b, now).1;
            Take(refused, now + wait).0 <==>
              b.capacity >= 1.0 && wait >= (1.0 - refused.tokens) / Rate(b)
  {
    TakeLevel(b, now);
    RatePositive(b);
    var refused := Take(b, now).1;
    var missing, r := 1.0 - refused.tokens, Rate(b);
    assert (missing / r) * r == missing;
    if wait >= missing / r { Scale(missing / r, wait, r); }
    if wait * r >= missing { DivideScale(wait, missing, r); }
  }

  lemma {:induction false} DivideScale(wait: real, missing: real, r: real)
    requires r > 0.0 && wait * r >= missing
    ensures wait >= missing / r
  {
    assert (missing / r) * r == missing;
    var d := missing / r - wait;
    assert (missing / r) * r == wait * r + d * r;
    assert d > 0.0 ==> d * r > 0.0;
  }

  /** The advertised wait is enough, at least a second, at most a second more than
      the least sufficient wait, and at most a second more than one token takes. */
  lemma {:induction false} RetryAfterSuffices(b: BucketState, now: real)
    requires ValidBucket(b) && b.capacity >= 1.0 && !Take(b, now).0
    ensures var refused := Take(b, now).1;
            var wait := RetryAfter(refused);
            && wait >= 1
            && Take(refused, now + wait as real).0
            && (1.0 - refused.tokens) / Rate(b) < wait as real <= (1.0 - refused.tokens) / Rate(b) + 1.0
            && wait as real <= b.period / b.capacity + 1.0
  {
    TakeLevel(b, now);
    RatePositive(b);
    var refused := Take(b, now).1;
    var r := Rate(b);
    var least := (1.0 - refused.tokens) / r;
    assert least >= 0.0 by { DivideScale(least, 0.0, r); }
    assert least <= b.period / b.capacity by {
      assert (b.period / b.capacity) * r == 1.0;
      DivideScale(b.period / b.capacity, 1.0 - refused.tokens, r);
    }
    SufficientWait(b, now, RetryAfter(refused) as real);
  }

  // ----- a table of buckets

  type Table = map<string, BucketState>

  const SWEEP_AT: nat := 4096

  /** The three clock readings of one call: by a sweep, by a new bucket, and by the
      take. */
  datatype Clock = Clock(sweep: real, created: real, taken: real)

  function Swept(buckets: Table, now: real): Table {
    map key | key in buckets && !(now - buckets[key].updated > buckets[key].period) :: buckets[key]
  }

  /** The table after looking a key up, which makes its bucket when it has none. */
  function WithBucket(buckets: Table, key: string, capacity: real, period: real, clock: Clock): Table {
    if key in buckets then buckets
    else (if |buckets| >= SWEEP_AT then Swept(buckets, clock.sweep) else buckets)
           [key := Fresh(capacity, period, clock.created)]
  }

  class Limiter {
    const capacity: real
    const period: real
    var buckets: Table

    ghost predicate Valid()
      reads this
    {
      && capacity > 0.0 && period > 0.0
      && forall k :: k in buckets ==> ValidBucket(buckets[k]) && buckets[k].capacity == capacity && buckets[k].period == period
    }

    constructor (capacity: real, period: real)
      requires capacity > 0.0 && period > 0.0
      ensures Valid() && buckets == map[] && this.capacity == capacity && this.period == period
    {
      this.capacity := capacity;
      this.period := period;
      buckets := map[];
    }

    method Sweep(now: real)
      requires Valid()
      modifies this`buckets
      ensures Valid() && buckets == Swept(old(buckets), now)
    {
      var items := buckets;
      var left := items.Keys;
      while left != {}
        invariant left <= items.Keys && Valid()
        invariant buckets == map k | k in items && (k in left || !(now - items[k].updated > items[k].period)) :: items[k]
        decreases |left|
      {
        var key :| key in left;
        left := left - {key};
        if now - items[key].updated > period {
          buckets := buckets - {key};
        }
      }
    }

    method Lookup(key: string, clock: Clock)
      requires Valid()
      modifies this`buckets
      ensures Valid() && key in buckets
      ensures buckets == WithBucket(old(buckets), key, capacity, period, clock)
    {
      if key !in buckets {
        if |buckets| >= SWEEP_AT { Sweep(clock.sweep); }
        buckets := buckets[key := Fresh(capacity, period, clock.created)];
      }
    }

    method Allow(key: string, clock: Clock) returns (allowed: bool)
      requires Valid()
      modifies this`buckets
      ensures Valid() && (allowed, buckets) == AllowIn(old(buckets), key, capacity, period, clock)
    {
      Lookup(key, clock);
      TakeLevel(buckets[key], clock.taken);
      var (ok, b) := Take(buckets[key], clock.taken);
      buckets := buckets[key := b];
      allowed := ok;
    }

    method Forget(key: string)
      requires Valid()
      modifies this`buckets
      ensures Valid() && buckets == old(buckets) - {key}
    {
      buckets := buckets - {key};
    }
  }

  function AllowIn(buckets: Table, key: string, capacity: real, period: real, clock: Clock): (bool, Table)
    requires period > 0.0 && forall k :: k in buckets ==> buckets[k].period > 0.0
  {
    var b := WithBucket(buckets, key, capacity, period, clock);
    var (ok, after) := Take(b[key], clock.taken);
    (ok, b[key := after])
  }

  // ----- a sweeping table against one that never forgets

  datatype Op = Allow(key: string, clock: Clock) | Retry(key: string, clock: Clock) | Forget(key: string)

  /** The limiter of the program. */
  function StepSweeping(buckets: Table, op: Op, capacity: real, period: real): (Option<bool>, Table)
    requires period > 0.0 && forall k :: k in buckets ==> buckets[k].period > 0.0
  {
    match op
    case Allow(key, clock) => var (ok, b) := AllowIn(buckets, key, capacity, period, clock); (Some(ok), b)
    case Retry(key, clock) => (None, WithBucket(buckets, key, capacity, period, clock))
    case Forget(key) => (None, buckets - {key})
  }

  /** A limiter that drops a bucket only when told to forget its key. */
  function StepKeeping(buckets: Table, op: Op, capacity: real, period: real): (Option<bool>, Table)
    requires period > 0.0 && forall k :: k in buckets ==> buckets[k].period > 0.0
  {
    match op
    case Allow(key, clock) =>
      var b := if key in buckets then buckets[key] else Fresh(capacity, period, clock.created);
      var (ok, after) := Take(b, clock.taken);
      (Some(ok), buckets[key := after])
    case Retry(key, clock) =>
      (None, if key in buckets then buckets else buckets[key := Fresh(capacity, period, clock.created)])
    case Forget(key) => (None, buckets - {key})
  }

  ghost predicate ValidTable(buckets: Table, capacity: real, period: real, now: real) {
    && capacity > 0.0 && period > 0.0
    && forall k :: k in buckets ==>
         ValidBucket(buckets[k]) && buckets[k].capacity == capacity && buckets[k].period == period
         && buckets[k].updated <= now
  }

  ghost predicate FullAt(b: BucketState, now: real)
    requires b.period > 0.0
  {
    b.updated <= now && Level(b, now) == b.capacity
  }

  /** The two tables cannot be told apart by takes from now on: a key's buckets are
      the same or both full, and a key only the keeping one has is full. */
  ghost predicate Alike(swept: Table, kept: Table, capacity: real, period: real, now: real) {
    && ValidTable(swept, capacity, period, now) && ValidTable(kept, capacity, period, now)
    && swept.Keys <= kept.Keys
    && (forall k :: k in swept ==> swept[k] == kept[k] || (FullAt(swept[k], now) && FullAt(kept[k], now)))
    && (forall k :: k in kept && k !in swept ==> FullAt(kept[k], now))
  }

  ghost function OpEnd(op: Op, now: real): real { if op.Forget? then now else op.clock.taken }

  ghost predicate OrderedOp(op: Op, now: real) {
    !op.Forget? ==> now <= op.clock.sweep <= op.clock.created <= op.clock.taken
  }

  lemma {:induction false} StaysFull(b: BucketState, t: real, u: real)
    requires ValidBucket(b) && FullAt(b, t) && t <= u
    ensures FullAt(b, u)
  {
    LevelRises(b, t, u);
  }

  /** A bucket left alone for longer than its period has refilled. */
  lemma {:induction false} IdleIsFull(b: BucketState, now: real)
    requires ValidBucket(b) && now - b.updated > b.period
    ensures FullAt(b, now)
  {
    RatePositive(b);
    Scale(b.period, now - b.updated, Rate(b));
  }

  lemma {:induction false} AlikeLater(swept: Table, kept: Table, capacity: real, period: real, t: real, u: real)
    requires Alike(swept, kept, capacity, period, t) && t <= u
    ensures Alike(swept, kept, capacity, period, u)
  {
    hide FullAt;
    forall k | k in kept && FullAt(kept[k], t) ensures FullAt(kept[k], u) { StaysFull(kept[k], t, u); }
    forall k | k in swept && FullAt(swept[k], t) ensures FullAt(swept[k], u) { StaysFull(swept[k], t, u); }
  }

  lemma {:induction false} SweepKeepsAlike(swept: Table, kept: Table, capacity: real, period: real, now: real)
    requires Alike(swept, kept, capacity, period, now)
    ensures Alike(Swept(swept, now), kept, capacity, period, now)
  {
    hide FullAt;
    forall k | k in kept && k in swept && k !in Swept(swept, now) ensures FullAt(kept[k], now) {
      IdleIsFull(swept[k], now);
    }
  }

  /** Looking a key up in both tables, each in its own way. */
  lemma {:induction false} LookupKeepsAlike(swept: Table, kept: Table, key: string, capacity: real, period: real, clock: Clock)
    requires Alike(swept, kept, capacity, period, clock.sweep) && clock.sweep <= clock.created
    ensures var s := WithBucket(swept, key, capacity, period, clock);
            var k := if key in kept then kept else kept[key := Fresh(capacity, period, clock.created)];
            Alike(s, k, capacity, period, clock.created)
  {
    SweepKeepsAlike(swept, kept, capacity, period, clock.sweep);
    var base := if |swept| >= SWEEP_AT then Swept(swept, clock.sweep) else swept;
    AlikeLater(swept, kept, capacity, period, clock.sweep, clock.created);
    AlikeLater(base, kept, capacity, period, clock.sweep, clock.created);
    if key !in swept {
      assert key !in base;
      hide Alike, Swept;
      AddKeepsAlike(base, kept, key, capacity, period, clock.created);
    } else {
      hide FullAt, Swept;
    }
  }

  /** A fresh bucket stands for one that was dropped because it had refilled. */
  lemma {:induction false} AddKeepsAlike(swept: Table, kept: Table, key: string, capacity: real, period: real, now: real)
    requires Alike(swept, kept, capacity, period, now) && key !in swept
    ensures var full := Fresh(capacity, period, now);
            Alike(swept[key := full], if key in kept then kept else kept[key := full], capacity, period, now)
  {
    var full := Fresh(capacity, period, now);
    assert FullAt(full, now) by { RefillBounds(full, now); }
    hide FullAt;
  }

  lemma {:induction false} TakeKeepsAlike(swept: Table, kept: Table, key: string, capacity: real, period: real, now: real)
    requires Alike(swept, kept, capacity, period, now) && key in swept
    ensures Take(swept[key], now) == Take(kept[key], now)
    ensures Alike(swept[key := Take(swept[key], now).1], kept[key := Take(kept[key], now).1], capacity, period, now)
  {
    TakeLevel(swept[key], now);
    TakeLevel(kept[key], now);
    assert Level(swept[key], now) == Level(kept[key], now);
    assert Take(swept[key], now).1 == Take(kept[key], now).1;
    hide FullAt, Take, Level;
  }

  lemma {:induction false} StepAlike(swept: Table, kept: Table, op: Op, capacity: real, period: real, now: real)
    requires Alike(swept, kept, capacity, period, now) && OrderedOp(op, now)
    ensures StepSweeping(swept, op, capacity, period).0 == StepKeeping(kept, op, capacity, period).0
    ensures op.Allow? ==> op.key in StepSweeping(swept, op, capacity, period).1
                          && op.key in StepKeeping(kept, op, capacity, period).1
                          && StepSweeping(swept, op, capacity, period).1[op.key]
                             == StepKeeping(kept, op, capacity, period).1[op.key]
    ensures Alike(StepSweeping(swept, op, capacity, period).1, StepKeeping(kept, op, capacity, period).1,
                  capacity, period, OpEnd(op, now))
  {
    if !op.Forget? {
      var key, clock := op.key, op.clock;
      AlikeLater(swept, kept, capacity, period, now, clock.sweep);
      LookupKeepsAlike(swept, kept, key, capacity, period, clock);
      var s := WithBucket(swept, key, capacity, period, clock);
      var k := if key in kept then kept else kept[key := Fresh(capacity, period, clock.created)];
      AlikeLater(s, k, capacity, period, clock.created, clock.taken);
      if op.Allow? {
        TakeKeepsAlike(s, k, key, capacity, period, clock.taken);
        hide FullAt, Take, WithBucket;
        assert k[key := Take(k[key], clock.taken).1] == kept[key := Take(k[key], clock.taken).1];
      }
    }
  }

  ghost predicate OrderedRun(ops: seq<Op>, now: real) {
    ops == [] || (OrderedOp(ops[0], now) && OrderedRun(ops[1..], OpEnd(ops[0], now)))
  }

  ghost predicate Workable(buckets: Table, period: real) {
    period > 0.0 && forall k :: k in buckets ==> buckets[k].period > 0.0
  }

  ghost function RunSweeping(buckets: Table, ops: seq<Op>, capacity: real, period: real): seq<Option<bool>>
    requires Workable(buckets, period)
    decreases |ops|
  {
    if ops == [] then []
    else
      var (answer, after) := StepSweeping(buckets, ops[0], capacity, period);
      [answer] + RunSweeping(after, ops[1..], capacity, period)
  }

  ghost function RunKeeping(buckets: Table, ops: seq<Op>, capacity: real, period: real): seq<Option<bool>>
    requires Workable(buckets, period)
    decreases |ops|
  {
    if ops == [] then []
    else
      var (answer, after) := StepKeeping(buckets, ops[0], capacity, period);
      [answer] + RunKeeping(after, ops[1..], capacity, period)
  }

  /** On every run with a clock that never goes back, dropping idle buckets changes
      no answer. */
  lemma {:induction false} SweepingIsInvisible(swept: Table, kept: Table, ops: seq<Op>, capacity: real, period: real, now: real)
    requires Alike(swept, kept, capacity, period, now) && OrderedRun(ops, now)
    ensures RunSweeping(swept, ops, capacity, period) == RunKeeping(kept, ops, capacity, period)
    decreases |ops|
  {
    if ops != [] {
      StepAlike(swept, kept, ops[0], capacity, period, now);
      hide StepSweeping, StepKeeping, Take;
      SweepingIsInvisible(StepSweeping(swept, ops[0], capacity, period).1, StepKeeping(kept, ops[0], capacity, period).1,
                          ops[1..], capacity, period, OpEnd(ops[0], now));
    }
  }

  lemma {:induction false} LimiterNeverForgets(ops: seq<Op>, capacity: real, period: real, now: real)
    requires capacity > 0.0 && period > 0.0 && OrderedRun(ops, now)
    ensures RunSweeping(map[], ops, capacity, period) == RunKeeping(map[], ops, capacity, period)
  {
    assert Alike(map[], map[], capacity, period, now);
    SweepingIsInvisible(map[], map[], ops, capacity, period, now);
  }

  /** Both tables after a run: the sweeping one and the keeping one. */
  ghost function BothAfter(swept: Table, kept: Table, ops: seq<Op>, capacity: real, period: real): (Table, Table)
    requires Workable(swept, period) && Workable(kept, period)
    decreases |ops|
  {
    if ops == [] then (swept, kept)
    else BothAfter(StepSweeping(swept, ops[0], capacity, period).1, StepKeeping(kept, ops[0], capacity, period).1,
                   ops[1..], capacity, period)
  }

  ghost predicate SameBucket(swept: Table, kept: Table, key: string) {
    && key in swept && key in kept && swept[key] == kept[key]
    && swept[key].capacity > 0.0 && swept[key].period > 0.0
  }

  lemma {:induction false} StepSame(swept: Table, kept: Table, op: Op, capacity: real, period: real, now: real)
    requires Alike(swept, kept, capacity, period, now) && OrderedOp(op, now)
    ensures var s, k := StepSweeping(swept, op, capacity, period).1, StepKeeping(kept, op, capacity, period).1;
            && Workable(s, period) && Workable(k, period) && Alike(s, k, capacity, period, OpEnd(op, now))
            && (op.Allow? ==> SameBucket(s, k, op.key))
  {
    StepAlike(swept, kept, op, capacity, period, now);
    hide StepSweeping, StepKeeping, FullAt;
  }

  ghost predicate LastSame(tables: (Table, Table), ops: seq<Op>) {
    ops != [] && SameBucket(tables.0, tables.1, ops[|ops| - 1].key)
  }

  lemma {:induction false} SameAfter(swept: Table, kept: Table, ops: seq<Op>, capacity: real, period: real, now: real)
    requires Alike(swept, kept, capacity, period, now) && Workable(swept, period) && Workable(kept, period)
    requires OrderedRun(ops, now) && ops != [] && ops[|ops| - 1].Allow?
    ensures LastSame(BothAfter(swept, kept, ops, capacity, period), ops)
    decreases |ops|
  {
    StepSame(swept, kept, ops[0], capacity, period, now);
    var s, k := StepSweeping(swept, ops[0], capacity, period).1, StepKeeping(kept, ops[0], capacity, period).1;
    hide StepSweeping, StepKeeping, Alike, OpEnd, OrderedOp, SameBucket, Workable;
    var rest := ops[1..];
    if rest == [] {
      assert BothAfter(s, k, rest, capacity, period) == (s, k);
    } else {
      assert rest[|rest| - 1] == ops[|ops| - 1];
      SameAfter(s, k, rest, capacity, period, OpEnd(ops[0], now));
    }
  }

  /** Whatever was dropped before, once a run ends by asking for a key both limiters
      hold the same bucket for it, so the wait they advertise next is the same. */
  lemma {:induction false} WaitsAgree(ops: seq<Op>, capacity: real, period: real, now: real)
    requires capacity > 0.0 && period > 0.0 && OrderedRun(ops, now) && ops != [] && ops[|ops| - 1].Allow?
    ensures var (s, k) := BothAfter(map[], map[], ops, capacity, period);
            var key := ops[|ops| - 1].key;
            SameBucket(s, k, key) && RetryAfter(s[key]) == RetryAfter(k[key])
  {
    assert Alike(map[], map[], capacity, period, now);
    hide Alike, OrderedRun, BothAfter, RetryAfter;
    SameAfter(map[], map[], ops, capacity, period, now);
  }

  // ----- limits of one API key

  /** The readings of one check: each bucket's creation and take. */
  datatype Readings = Readings(minuteMade: real, minuteTaken: real, dayMade: real, dayTaken: real)

  datatype Tables = Tables(minute: Table, day: Table)

  const MINUTE := 60.0
  const DAY := 86400.0

  ghost predicate ValidEntries(table: Table, period: real, now: real) {
    forall k :: k in table ==> ValidBucket(table[k]) && table[k].period == period && table[k].updated <= now
  }

  predicate Takeable(table: Table) {
    forall k :: k in table ==> table[k].capacity > 0.0 && table[k].period > 0.0
  }

  /** One table's part of a check: the wait it asks for, and the table after. A
      limit of zero or less does not limit; a changed limit starts a new bucket. */
  function Consult(table: Table, key: string, limit: int, period: real, made: real, taken: real): (Option<int>, Table)
    requires period > 0.0 && Takeable(table)
  {
    if limit <= 0 then (None, table)
    else
      var b := if key in table && table[key].capacity == limit as real then table[key]
               else Fresh(limit as real, period, made);
      var (ok, after) := Take(b, taken);
      (if ok then None else Some(RetryAfter(after)), table[key := after])
  }

  /** The minute's limit is asked first; the day's only when that one agrees. */
  function CheckIn(t: Tables, key: string, rateLimit: int, dailyLimit: int, at: Readings): (Option<int>, Tables)
    requires Takeable(t.minute) && Takeable(t.day)
  {
    var (wait, minute) := Consult(t.minute, key, rateLimit, MINUTE, at.minuteMade, at.minuteTaken);
    if wait.Some? then (wait, t.(minute := minute))
    else
      var (wait', day) := Consult(t.day, key, dailyLimit, DAY, at.dayMade, at.dayTaken);
      (wait', Tables(minute, day))
  }

  class KeyLimiter {
    var minute: Table
    var day: Table

    ghost predicate Valid()
      reads this
    {
      Takeable(minute) && Takeable(day)
    }

    constructor ()
      ensures Valid() && minute == map[] && day == map[]
    {
      minute, day := map[], map[];
    }

    /** Seconds to wait, or None when the request may proceed. */
    method Check(key: string, rateLimit: int, dailyLimit: int, at: Readings) returns (wait: Option<int>)
      requires Valid()
      modifies this
      ensures Valid() && (wait, Tables(minute, day)) == CheckIn(old(Tables(minute, day)), key, rateLimit, dailyLimit, at)
    {
      if rateLimit > 0 {
        var b := if key in minute && minute[key].capacity == rateLimit as real then minute[key]
                 else Fresh(rateLimit as real, MINUTE, at.minuteMade);
        var (ok, after) := Take(b, at.minuteTaken);
        minute := minute[key := after];
        if !ok { return Some(RetryAfter(after)); }
      }
      if dailyLimit > 0 {
        var b := if key in day && day[key].capacity == dailyLimit as real then day[key]
                 else Fresh(dailyLimit as real, DAY, at.dayMade);
        var (ok, after) := Take(b, at.dayTaken);
        day := day[key := after];
        if !ok { return Some(RetryAfter(after)); }
      }
      wait := None;
    }

    method Forget(key: string)
      requires Valid()
      modifies this
      ensures Valid() && minute == old(minute) - {key} && day == old(day) - {key}
    {
      minute, day := minute - {key}, day - {key};
    }
  }

  datatype Request = Request(key: string, rateLimit: int, dailyLimit: int, at: Readings)

  ghost predicate OrderedRequests(rs: seq<Request>, now: real) {
    rs == [] || (var at := rs[0].at;
                 now <= at.minuteMade <= at.minuteTaken <= at.dayMade <= at.dayTaken
                 && OrderedRequests(rs[1..], at.dayTaken))
  }

  /** Every request of the key asks under the same limits. */
  ghost predicate FixedLimits(rs: seq<Request>, key: string, rate: int, daily: int) {
    forall r :: r in rs && r.key == key ==> r.rateLimit == rate && r.dailyLimit == daily
  }

  ghost function EndOf(rs: seq<Request>, now: real): real {
    if rs == [] then now else EndOf(rs[1..], rs[0].at.dayTaken)
  }

  function After1(t: Tables, r: Request): Tables
    requires Takeable(t.minute) && Takeable(t.day)
  {
    CheckIn(t, r.key, r.rateLimit, r.dailyLimit, r.at).1
  }

  /** How many requests of a key proceed. */
  function Proceeds(t: Tables, rs: seq<Request>, key: string): nat
    requires Takeable(t.minute) && Takeable(t.day)
    decreases |rs|
  {
    if rs == [] then 0
    else
      var (wait, after) := CheckIn(t, rs[0].key, rs[0].rateLimit, rs[0].dailyLimit, rs[0].at);
      (if rs[0].key == key && wait.None? then 1 else 0) + Proceeds(after, rs[1..], key)
  }

  /** The level a key stands at under a limit; a key without a bucket of that
      capacity is about to get a full one. */
  ghost function KeyLevel(table: Table, key: string, limit: int, now: real): real {
    if key in table && table[key].capacity == limit as real && table[key].period > 0.0
    then Level(table[key], now) else limit as real
  }

  lemma {:induction false} KeyLevelBounds(table: Table, key: string, limit: int, period: real, t: real, u: real)
    requires period > 0.0 && limit > 0 && ValidEntries(table, period, t) && t <= u
    ensures KeyLevel(table, key, limit, u) <= limit as real
    ensures KeyLevel(table, key, limit, u) <= KeyLevel(table, key, limit, t) + Over(u - t, limit as real / period)
  {
    assert (limit as real / period) * period == limit as real;
    DivideScale(limit as real / period, 0.0, period);
    Scale(0.0, u - t, limit as real / period);
    if key in table && table[key].capacity == limit as real {
      RefillBounds(table[key], u);
      LevelRises(table[key], t, u);
    }
  }

  /** Consulting a table charges the key's level when it agrees, and leaves every
      other key alone. */
  lemma {:induction false} ConsultCharges(table: Table, key: string, limit: int, period: real, made: real, taken: real, k: string, wanted: int)
    requires period > 0.0 && made <= taken && ValidEntries(table, period, made)
    requires wanted > 0 && (key == k ==> limit == wanted)
    ensures Takeable(table)
    ensures var (wait, after) := Consult(table, key, limit, period, made, taken);
            && ValidEntries(after, period, taken)
            && KeyLevel(after, k, wanted, taken) <=
               KeyLevel(table, k, wanted, taken) - (if key == k && wait.None? then 1.0 else 0.0)
  {
    if limit > 0 {
      var b := if key in table && table[key].capacity == limit as real then table[key]
               else Fresh(limit as real, period, made);
      TakeLevel(b, taken);
      RefillBounds(b, taken);
      hide Take, Level;
    }
  }

  /** Both levels of a key fall by the charge, less what the time refills. */
  ghost predicate Charged(t: Tables, after: Tables, charge: real, now: real, end: real, key: string, rate: int, daily: int) {
    && (rate > 0 ==> KeyLevel(after.minute, key, rate, end) + charge <=
                     KeyLevel(t.minute, key, rate, now) + Over(end - now, rate as real / MINUTE))
    && (daily > 0 ==> KeyLevel(after.day, key, daily, end) + charge <=
                      KeyLevel(t.day, key, daily, now) + Over(end - now, daily as real / DAY))
  }

  /** `n` requests fit both of a key's levels and what the time refills. */
  ghost predicate Affordable(t: Tables, n: real, now: real, end: real, key: string, rate: int, daily: int) {
    && (rate > 0 ==> n <= KeyLevel(t.minute, key, rate, now) + Over(end - now, rate as real / MINUTE))
    && (daily > 0 ==> n <= KeyLevel(t.day, key, daily, now) + Over(end - now, daily as real / DAY))
  }

  lemma {:induction false} ChargedThenAffordable(t: Tables, after: Tables, charge: real, n: real, now: real, end: real, last: real, key: string, rate: int, daily: int)
    requires Charged(t, after, charge, now, end, key, rate, daily) && Affordable(after, n, end, last, key, rate, daily)
    ensures Affordable(t, charge + n, now, last, key, rate, daily)
  {
    hide KeyLevel, Over;
    Spread(now, end, last, rate as real / MINUTE);
    Spread(now, end, last, daily as real / DAY);
  }

  /** One request, one table at a time: what the key's level can gain is what the
      time refills, less one when the request proceeds. */
  lemma {:induction false} RequestCharges(t: Tables, r: Request, now: real, key: string, rate: int, daily: int)
    requires ValidEntries(t.minute, MINUTE, now) && ValidEntries(t.day, DAY, now)
    requires OrderedRequests([r], now) && (r.key == key ==> r.rateLimit == rate && r.dailyLimit == daily)
    ensures Takeable(t.minute) && Takeable(t.day)
    ensures var (wait, after) := CheckIn(t, r.key, r.rateLimit, r.dailyLimit, r.at);
            var charge := if r.key == key && wait.None? then 1.0 else 0.0;
            var end := r.at.dayTaken;
            && ValidEntries(after.minute, MINUTE, end) && ValidEntries(after.day, DAY, end)
            && Charged(t, after, charge, now, end, key, rate, daily)
  {
    var at, end := r.at, r.at.dayTaken;
    assert ValidEntries(t.minute, MINUTE, at.minuteMade) && ValidEntries(t.day, DAY, at.dayMade);
    var (wait, minute) := Consult(t.minute, r.key, r.rateLimit, MINUTE, at.minuteMade, at.minuteTaken);
    ConsultEntries(t.minute, r.key, r.rateLimit, MINUTE, at.minuteMade, at.minuteTaken);
    ConsultEntries(t.day, r.key, r.dailyLimit, DAY, at.dayMade, at.dayTaken);
    var day := CheckIn(t, r.key, r.rateLimit, r.dailyLimit, at).1.day;
    hide Level, Take, Over, ValidBucket, OrderedRequests;
    if rate > 0 {
      ConsultCharges(t.minute, r.key, r.rateLimit, MINUTE, at.minuteMade, at.minuteTaken, key, rate);
      KeyLevelBounds(t.minute, key, rate, MINUTE, now, at.minuteTaken);
      KeyLevelBounds(minute, key, rate, MINUTE, at.minuteTaken, end);
      Spread(now, at.minuteTaken, end, rate as real / MINUTE);
    }
    if daily > 0 {
      ConsultCharges(t.day, r.key, r.dailyLimit, DAY, at.dayMade, at.dayTaken, key, daily);
      KeyLevelBounds(t.day, key, daily, DAY, now, end);
    }
  }

  lemma {:induction false} ConsultEntries(table: Table, key: string, limit: int, period: real, made: real, taken: real)
    requires period > 0.0 && made <= taken && ValidEntries(table, period, made)
    ensures Takeable(table) && ValidEntries(Consult(table, key, limit, period, made, taken).1, period, taken)
  {
    if limit > 0 {
      var b := if key in table && table[key].capacity == limit as real then table[key]
               else Fresh(limit as real, period, made);
      TakeLevel(b, taken);
      hide Take, Level;
    }
  }

  /** Over any window of any run, whatever other keys do, the requests of a key with
      fixed limits that proceed meet its minute bound and its day bound together. */
  lemma {:induction false} KeyBounds(t: Tables, rs: seq<Request>, now: real, key: string, rate: int, daily: int)
    requires ValidEntries(t.minute, MINUTE, now) && ValidEntries(t.day, DAY, now)
    requires OrderedRequests(rs, now)
    requires FixedLimits(rs, key, rate, daily)
    ensures Takeable(t.minute) && Takeable(t.day)
    ensures var n, span := Proceeds(t, rs, key) as real, EndOf(rs, now) - now;
            && (rate > 0 ==> n <= rate as real + Over(span, rate as real / MINUTE))
            && (daily > 0 ==> n <= daily as real + Over(span, daily as real / DAY))
  {
    KeySpends(t, rs, now, key, rate, daily);
    if rate > 0 { KeyLevelBounds(t.minute, key, rate, MINUTE, now, now); }
    if daily > 0 { KeyLevelBounds(t.day, key, daily, DAY, now, now); }
  }

  lemma {:induction false} KeySpends(t: Tables, rs: seq<Request>, now: real, key: string, rate: int, daily: int)
    requires ValidEntries(t.minute, MINUTE, now) && ValidEntries(t.day, DAY, now)
    requires OrderedRequests(rs, now)
    requires FixedLimits(rs, key, rate, daily)
    ensures Takeable(t.minute) && Takeable(t.day) && now <= EndOf(rs, now)
    ensures Affordable(t, Proceeds(t, rs, key) as real, now, EndOf(rs, now), key, rate, daily)
    decreases |rs|
  {
    if rs == [] {
      EmptyHolds(t, now, key, rate, daily);
      hide KeyLevel;
    } else {
      hide *;
      var r, end, last := rs[0], rs[0].at.dayTaken, EndOf(rs, now);
      RequestsCons(rs, now, key, rate, daily);
      RequestCharges(t, r, now, key, rate, daily);
      KeyAfter(t, r);
      KeySpends(After1(t, r), rs[1..], end, key, rate, daily);
      var wait := CheckIn(t, r.key, r.rateLimit, r.dailyLimit, r.at).0;
      var charge := if r.key == key && wait.None? then 1.0 else 0.0;
      ChargedThenAffordable(t, After1(t, r), charge, Proceeds(After1(t, r), rs[1..], key) as real, now, end, last, key, rate, daily);
      ProceedsStep(t, rs, key);
    }
  }

  lemma {:induction false} RequestsCons(rs: seq<Request>, now: real, key: string, rate: int, daily: int)
    requires rs != [] && OrderedRequests(rs, now) && FixedLimits(rs, key, rate, daily)
    ensures var r, end := rs[0], rs[0].at.dayTaken;
            && OrderedRequests([r], now) && OrderedRequests(rs[1..], end) && now <= end
            && EndOf(rs[1..], end) == EndOf(rs, now)
            && FixedLimits(rs[1..], key, rate, daily)
            && (r.key == key ==> r.rateLimit == rate && r.dailyLimit == daily)
  {
    assert [rs[0]][1..] == [];
    assert rs[0] in rs && forall q :: q in rs[1..] ==> q in rs;
  }

  lemma {:induction false} KeyAfter(t: Tables, r: Request)
    requires Takeable(t.minute) && Takeable(t.day)
    ensures After1(t, r) == CheckIn(t, r.key, r.rateLimit, r.dailyLimit, r.at).1
  {
    hide CheckIn;
  }

  lemma {:induction false} ProceedsStep(t: Tables, rs: seq<Request>, key: string)
    requires Takeable(t.minute) && Takeable(t.day) && rs != []
    ensures var (wait, after) := CheckIn(t, rs[0].key, rs[0].rateLimit, rs[0].dailyLimit, rs[0].at);
            Proceeds(t, rs, key) == (if rs[0].key == key && wait.None? then 1 else 0) + Proceeds(after, rs[1..], key)
  {
    hide CheckIn;
  }

  lemma {:induction false} EmptyHolds(t: Tables, now: real, key: string, rate: int, daily: int)
    requires ValidEntries(t.minute, MINUTE, now) && ValidEntries(t.day, DAY, now)
    ensures rate > 0 ==> 0.0 <= KeyLevel(t.minute, key, rate, now)
    ensures daily > 0 ==> 0.0 <= KeyLevel(t.day, key, daily, now)
  {
    if key in t.minute { RefillBounds(t.minute[key], now); }
    if key in t.day { RefillBounds(t.day[key], now); }
  }

  // ----- exactly which requests proceed

  /** What one table does with a request of a key under a positive limit: it agrees
      exactly when the key's level is at least one, and then takes one; no other key is
      touched. */
  lemma {:induction false} ConsultIff(table: Table, key: string, limit: int, period: real, made: real, taken: real)
    requires period > 0.0 && made <= taken && ValidEntries(table, period, made)
    ensures Takeable(table)
    ensures var (wait, after) := Consult(table, key, limit, period, made, taken);
            && (wait == None <==> limit <= 0 || KeyLevel(table, key, limit, taken) >= 1.0)
            && (limit <= 0 ==> after == table)
            && (limit > 0 ==> after.Keys == table.Keys + {key} && KeyLevel(after, key, limit, taken) ==
                              KeyLevel(table, key, limit, taken) - (if wait == None then 1.0 else 0.0))
            && (forall k :: k in table && k != key ==> k in after && after[k] == table[k])
  {
    if limit > 0 {
      var b := if key in table && table[key].capacity == limit as real then table[key]
               else Fresh(limit as real, period, made);
      TakeLevel(b, taken);
      RefillBounds(b, taken);
      assert Level(b, taken) == KeyLevel(table, key, limit, taken) by {
        if !(key in table && table[key].capacity == limit as real) { assert b.tokens == b.capacity; }
      }
      hide Take, Level;
    }
  }

  /** A wait a table asks for is at least a second, and a request of the key after it is
      not refused by that table, whatever requests of other keys came between. */
  lemma {:induction false} ConsultWaits(table: Table, key: string, limit: int, period: real, made: real, taken: real,
                                        later: Table, made': real, taken': real)
    requires period > 0.0 && made <= taken && ValidEntries(table, period, made) && Takeable(table) && Takeable(later)
    requires Consult(table, key, limit, period, made, taken).0.Some?
    requires var (wait, after) := Consult(table, key, limit, period, made, taken);
             key in after && key in later && later[key] == after[key] && taken' >= taken + wait.value as real
    ensures Consult(table, key, limit, period, made, taken).0.value >= 1
    ensures Consult(later, key, limit, period, made', taken').0 == None
  {
    var b := if key in table && table[key].capacity == limit as real then table[key]
             else Fresh(limit as real, period, made);
    TakeLevel(b, taken);
    RetryAfterSuffices(b, taken);
    var refused := Take(b, taken).1;
    SufficientWait(b, taken, taken' - taken);
    SufficientWait(b, taken, RetryAfter(refused) as real);
    hide Take, Level, RetryAfter;
  }

  datatype Refuser = Nobody | TheMinute | TheDay

  /** Which table refuses a request. */
  ghost function RefusedBy(t: Tables, key: string, rate: int, daily: int, at: Readings): Refuser {
    if rate > 0 && KeyLevel(t.minute, key, rate, at.minuteTaken) < 1.0 then TheMinute
    else if daily > 0 && KeyLevel(t.day, key, daily, at.dayTaken) < 1.0 then TheDay
    else Nobody
  }

  /** A request proceeds if and only if each positive limit has a token for its key; a
      limit of zero or less never refuses and is never charged, and the day is charged
      only when the minute agrees. Other keys are left alone. */
  lemma {:induction false} CheckIff(t: Tables, key: string, rate: int, daily: int, at: Readings)
    requires ValidEntries(t.minute, MINUTE, at.minuteMade) && ValidEntries(t.day, DAY, at.dayMade)
    requires at.minuteMade <= at.minuteTaken && at.dayMade <= at.dayTaken
    ensures Takeable(t.minute) && Takeable(t.day)
    ensures var (wait, after) := CheckIn(t, key, rate, daily, at);
            var who := RefusedBy(t, key, rate, daily, at);
            && (wait == None <==> who == Nobody)
            && (rate <= 0 ==> after.minute == t.minute)
            && (rate > 0 ==>
                  KeyLevel(after.minute, key, rate, at.minuteTaken) ==
                  KeyLevel(t.minute, key, rate, at.minuteTaken) - (if who == TheMinute then 0.0 else 1.0))
            && (daily <= 0 || who == TheMinute ==> after.day == t.day)
            && (daily > 0 && who != TheMinute ==>
                  KeyLevel(after.day, key, daily, at.dayTaken) ==
                  KeyLevel(t.day, key, daily, at.dayTaken) - (if who == TheDay then 0.0 else 1.0))
            && (forall k :: k in t.minute && k != key ==> k in after.minute && after.minute[k] == t.minute[k])
            && (forall k :: k in t.day && k != key ==> k in after.day && after.day[k] == t.day[k])
  {
    ConsultIff(t.minute, key, rate, MINUTE, at.minuteMade, at.minuteTaken);
    ConsultIff(t.day, key, daily, DAY, at.dayMade, at.dayTaken);
    hide Consult, KeyLevel, ValidEntries, Takeable;
  }

  /** The wait a refused request is told is at least a second, and is enough for the
      table that refused it: a request of the key after it, with no other of the key
      between, finds that table agreeing. */
  lemma {:induction false} CheckWaits(t: Tables, key: string, rate: int, daily: int, at: Readings,
                                      later: Tables, at': Readings)
    requires ValidEntries(t.minute, MINUTE, at.minuteMade) && ValidEntries(t.day, DAY, at.dayMade)
    requires at.minuteMade <= at.minuteTaken && at.dayMade <= at.dayTaken
    requires Takeable(t.minute) && Takeable(t.day) && Takeable(later.minute) && Takeable(later.day)
    requires CheckIn(t, key, rate, daily, at).0.Some?
    requires var (wait, after) := CheckIn(t, key, rate, daily, at);
             && (key in after.minute ==> key in later.minute && later.minute[key] == after.minute[key])
             && (key in after.day ==> key in later.day && later.day[key] == after.day[key])
             && at'.minuteTaken >= at.minuteTaken + wait.value as real && at'.dayTaken >= at.dayTaken + wait.value as real
    ensures CheckIn(t, key, rate, daily, at).0.value >= 1
    ensures RefusedBy(t, key, rate, daily, at) == TheMinute ==>
              Consult(later.minute, key, rate, MINUTE, at'.minuteMade, at'.minuteTaken).0 == None
    ensures RefusedBy(t, key, rate, daily, at) == TheDay ==>
              Consult(later.day, key, daily, DAY, at'.dayMade, at'.dayTaken).0 == None
  {
    ConsultIff(t.minute, key, rate, MINUTE, at.minuteMade, at.minuteTaken);
    ConsultIff(t.day, key, daily, DAY, at.dayMade, at.dayTaken);
    hide Consult, KeyLevel, ValidEntries, Takeable;
    if RefusedBy(t, key, rate, daily, at) == TheMinute {
      ConsultWaits(t.minute, key, rate, MINUTE, at.minuteMade, at.minuteTaken, later.minute, at'.minuteMade, at'.minuteTaken);
    } else {
      ConsultWaits(t.day, key, daily, DAY, at.dayMade, at.dayTaken, later.day, at'.dayMade, at'.dayTaken);
    }
  }

  /** A full table drops its idle keys, and only those, before it takes a new one; a
      table that is not full, or knows the key, drops none. */
  lemma {:induction false} LookupDropsIdle(buckets: Table, key: string, capacity: real, period: real, clock: Clock)
    ensures var after := WithBucket(buckets, key, capacity, period, clock);
            var full := key !in buckets && |buckets| >= SWEEP_AT;
            && key in after && (key !in buckets ==> after[key] == BucketState(capacity, period, capacity, clock.created))
            && (forall k :: k in after && (k != key || key in buckets) ==> k in buckets && after[k] == buckets[k])
            && (forall k :: k in buckets ==>
                  (k !in after <==> full && clock.sweep - buckets[k].updated > buckets[k].period))
  {
  }
}
