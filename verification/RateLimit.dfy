/**
 The token bucket behind request limits and password attempts, over exact reals. Times are seconds
 and do not go backwards.
 */
module RateLimit {
  import opened Bytes

  datatype Config = Config(rate: real, burst: int, idle: real)

  datatype Bucket = Bucket(tokens: real, seen: real)

  function Least(a: real, b: real): real { if a < b then a else b }

  /** What the rate refills in a time. */
  function Gain(c: Config, time: real): real { time * c.rate }

  /** What a bucket holds at an instant; a missing bucket is full. */
  function Refilled(c: Config, b: Option<Bucket>, now: real): real {
    if b.None? then c.burst as real
    else if now - b.value.seen > 0.0 then Least(c.burst as real, b.value.tokens + Gain(c, now - b.value.seen))
    else b.value.tokens
  }

  /** Whether n events may proceed. */
  predicate Permits(c: Config, b: Option<Bucket>, n: real, now: real) {
    c.burst > 0 && Refilled(c, b, now) >= n
  }

  function Charged(c: Config, b: Option<Bucket>, n: real, now: real): Option<Bucket> {
    if c.burst <= 0 then b
    else Some(Bucket(Refilled(c, b, now) - if Permits(c, b, n, now) then n else 0.0, now))
  }

  predicate Stale(c: Config, b: Bucket, now: real) { b.seen < now - c.idle }

  function Swept(c: Config, b: Option<Bucket>, now: real): Option<Bucket> {
    if b.Some? && Stale(c, b.value, now) then None else b
  }

  function Wait(c: Config, b: Option<Bucket>, now: real): real {
    if c.rate <= 0.0 then c.idle
    else if b.None? then 0.0
    else
      var tokens := Least(c.burst as real, b.value.tokens + Gain(c, now - b.value.seen));
      if tokens >= 1.0 then 0.0 else (1.0 - tokens) / c.rate
  }

  class Limiter {
    const config: Config
    var buckets: map<string, Bucket>

    ghost function At(key: string): Option<Bucket>
      reads this
    {
      if key in buckets then Some(buckets[key]) else None
    }

    constructor (config: Config)
      ensures buckets == map[] && this.config == config.(idle := if config.idle <= 0.0 then 600.0 else config.idle)
    {
      this.config := if config.idle <= 0.0 then config.(idle := 600.0) else config;
      buckets := map[];
    }

    method AllowN(key: string, n: real, now: real) returns (ok: bool)
      modifies this
      ensures ok == Permits(config, old(At(key)), n, now) && At(key) == Charged(config, old(At(key)), n, now)
      ensures forall other :: other != key ==> At(other) == old(At(other))
    {
      if config.burst <= 0 {
        return false;
      }
      var b;
      if key !in buckets {
        b := Bucket(config.burst as real, now);
      } else {
        b := buckets[key];
        var elapsed := now - b.seen;
        if elapsed > 0.0 {
          b := b.(tokens := Least(config.burst as real, b.tokens + elapsed * config.rate));
        }
        b := b.(seen := now);
      }
      buckets := buckets[key := b];
      if b.tokens < n {
        return false;
      }
      buckets := buckets[key := b.(tokens := b.tokens - n)];
      ok := true;
    }

    method Retry(key: string, now: real) returns (wait: real)
      ensures wait == Wait(config, At(key), now)
    {
      if config.rate <= 0.0 {
        return config.idle;
      }
      if key !in buckets {
        return 0.0;
      }
      var b := buckets[key];
      var tokens := Least(config.burst as real, b.tokens + (now - b.seen) * config.rate);
      if tokens >= 1.0 {
        return 0.0;
      }
      wait := (1.0 - tokens) / config.rate;
    }

    method Forget(key: string)
      modifies this
      ensures At(key).None? && forall other :: other != key ==> At(other) == old(At(other))
    {
      buckets := buckets - {key};
    }

    method Sweep(now: real) returns (removed: nat)
      modifies this
      ensures forall key :: At(key) == Swept(config, old(At(key)), now)
      ensures removed == |old(buckets)| - |buckets|
    {
      removed := 0;
      var keys := buckets.Keys;
      while keys != {}
        invariant keys <= buckets.Keys && removed == |old(buckets)| - |buckets|
        invariant forall key :: key in keys ==> key in old(buckets) && buckets[key] == old(buckets)[key]
        invariant forall key :: key !in keys ==> At(key) == Swept(config, old(At(key)), now)
        decreases |keys|
      {
        var key :| key in keys;
        keys := keys - {key};
        if buckets[key].seen < now - config.idle {
          ghost var before := buckets;
          buckets := buckets - {key};
          assert before.Keys == buckets.Keys + {key};
          assert |before| == |before.Keys| && |buckets| == |buckets.Keys|;
          removed := removed + 1;
        }
      }
    }
  }

  // ----- runs on one key

  datatype Op = Try(n: real, at: real) | SweepAt(at: real)

  function Do(c: Config, b: Option<Bucket>, op: Op): Option<Bucket> {
    match op
    case Try(n, at) => Charged(c, b, n, at)
    case SweepAt(at) => Swept(c, b, at)
  }

  function After(c: Config, b: Option<Bucket>, ops: seq<Op>): Option<Bucket> {
    if ops == [] then b else Do(c, After(c, b, ops[..|ops| - 1]), ops[|ops| - 1])
  }

  predicate Proceeds(c: Config, b: Option<Bucket>, op: Op) { op.Try? && Permits(c, b, op.n, op.at) }

  /** How much the attempts that proceed take in all. */
  function Spent(c: Config, b: Option<Bucket>, ops: seq<Op>): real {
    if ops == [] then 0.0
    else
      var last := ops[|ops| - 1];
      var before := ops[..|ops| - 1];
      Spent(c, b, before) + if Proceeds(c, After(c, b, before), last) then last.n else 0.0
  }

  /** In the order of their times, charging nothing negative. */
  predicate Ordered(ops: seq<Op>) {
    && (forall i, j :: 0 <= i <= j < |ops| ==> ops[i].at <= ops[j].at)
    && (forall i :: 0 <= i < |ops| && ops[i].Try? ==> ops[i].n >= 0.0)
  }

  predicate Limits(c: Config) { c.rate >= 0.0 && c.burst > 0 && c.idle > 0.0 }

  /** A bucket idle for long enough to be swept has refilled. */
  predicate RefillsWhenIdle(c: Config) { Gain(c, c.idle) >= c.burst as real }

  predicate NoSweep(ops: seq<Op>) { forall i :: 0 <= i < |ops| ==> ops[i].Try? }

  /** Tokens stay between nothing and the burst. */
  predicate Sound(c: Config, b: Option<Bucket>, now: real) {
    b.Some? ==> 0.0 <= b.value.tokens <= c.burst as real && b.value.seen <= now
  }

  lemma GainGrows(c: Config, time: real, more: real)
    requires c.rate >= 0.0 && time <= more
    ensures Gain(c, time) <= Gain(c, more) && (time >= 0.0 ==> Gain(c, time) >= 0.0)
  {}

  lemma GainNothing(c: Config)
    ensures Gain(c, 0.0) == 0.0
  {}

  lemma GainAdds(c: Config, time: real, more: real)
    ensures Gain(c, time) + Gain(c, more) == Gain(c, time + more)
  {}

  lemma RefilledInRange(c: Config, b: Option<Bucket>, now: real)
    requires Limits(c) && Sound(c, b, now)
    ensures 0.0 <= Refilled(c, b, now) <= c.burst as real
  {
    hide Gain;
    if b.Some? { GainGrows(c, now - b.value.seen, now - b.value.seen); }
  }

  /** Waiting adds at most the rate. */
  lemma RefilledGrows(c: Config, b: Option<Bucket>, now: real, later: real)
    requires Limits(c) && Sound(c, b, now) && now <= later
    ensures Refilled(c, b, later) <= Refilled(c, b, now) + Gain(c, later - now)
  {
    hide Gain;
    GainGrows(c, later - now, later - now);
    if b.Some? {
      GainGrows(c, now - b.value.seen, now - b.value.seen);
      GainAdds(c, now - b.value.seen, later - now);
    }
  }

  lemma StaleIsFull(c: Config, b: Bucket, now: real)
    requires Limits(c) && Sound(c, Some(b), now) && RefillsWhenIdle(c) && Stale(c, b, now)
    ensures Gain(c, now - b.seen) >= c.burst as real && Refilled(c, Some(b), now) == c.burst as real
  {
    GainGrows(c, c.idle, now - b.seen);
    hide Gain;
  }

  /** One operation keeps tokens in range and moves what it spends out of the level. */
  lemma DoConserves(c: Config, b: Option<Bucket>, op: Op)
    requires Limits(c) && Sound(c, b, op.at) && (op.Try? ==> op.n >= 0.0) && (op.SweepAt? ==> RefillsWhenIdle(c))
    ensures Sound(c, Do(c, b, op), op.at)
    ensures Refilled(c, Do(c, b, op), op.at) + (if Proceeds(c, b, op) then op.n else 0.0) == Refilled(c, b, op.at)
  {
    RefilledInRange(c, b, op.at);
    if op.SweepAt? && b.Some? && Stale(c, b.value, op.at) {
      StaleIsFull(c, b.value, op.at);
    }
  }

  lemma {:induction false} RunConserves(c: Config, b: Option<Bucket>, ops: seq<Op>)
    requires Limits(c) && ops != [] && Ordered(ops) && Sound(c, b, ops[0].at) && (NoSweep(ops) || RefillsWhenIdle(c))
    ensures Sound(c, After(c, b, ops), ops[|ops| - 1].at)
    ensures Spent(c, b, ops) + Refilled(c, After(c, b, ops), ops[|ops| - 1].at)
         <= c.burst as real + Gain(c, ops[|ops| - 1].at - ops[0].at)
  {
    hide Refilled, Gain, Do, Proceeds, Limits, RefillsWhenIdle;
    var n := |ops| - 1;
    var before := ops[..n];
    var b' := After(c, b, before);
    if n == 0 {
      RefilledInRange(c, b, ops[0].at);
      GainNothing(c);
    } else {
      RunConserves(c, b, before);
      RefilledGrows(c, b', ops[n - 1].at, ops[n].at);
      GainAdds(c, ops[n - 1].at - ops[0].at, ops[n].at - ops[n - 1].at);
    }
    DoConserves(c, b', ops[n]);
  }

  /** In any window of a run, what proceeds is at most the burst and what the rate refills in that time. */
  lemma WindowBound(c: Config, b: Option<Bucket>, ops: seq<Op>)
    requires Limits(c) && ops != [] && Ordered(ops) && Sound(c, b, ops[0].at) && (NoSweep(ops) || RefillsWhenIdle(c))
    ensures Spent(c, b, ops) <= c.burst as real + Gain(c, ops[|ops| - 1].at - ops[0].at)
  {
    RunConserves(c, b, ops);
    RefilledInRange(c, After(c, b, ops), ops[|ops| - 1].at);
  }

  /** A window anywhere in a run that began with no bucket is such a window. */
  lemma {:induction false} RunsAreSound(c: Config, ops: seq<Op>, now: real)
    requires Limits(c) && Ordered(ops) && (ops != [] ==> ops[|ops| - 1].at <= now)
    ensures Sound(c, After(c, None, ops), now)
  {
    hide Refilled;
    if ops != [] {
      var n := |ops| - 1;
      RunsAreSound(c, ops[..n], ops[n].at);
      RefilledInRange(c, After(c, None, ops[..n]), ops[n].at);
    }
  }

  /** So in every window of a run that began with no bucket. */
  lemma RunWindowBound(c: Config, ops: seq<Op>, i: nat, j: nat)
    requires Limits(c) && Ordered(ops) && (NoSweep(ops) || RefillsWhenIdle(c)) && i < j <= |ops|
    ensures Spent(c, After(c, None, ops[..i]), ops[i..j]) <= c.burst as real + Gain(c, ops[j - 1].at - ops[i].at)
  {
    hide After, Spent;
    var window := ops[i..j];
    RunsAreSound(c, ops[..i], ops[i].at);
    WindowBound(c, After(c, None, ops[..i]), window);
  }

  // ----- sweeping

  function Kept(c: Config, b: Option<Bucket>, op: Op): Option<Bucket> { if op.SweepAt? then b else Do(c, b, op) }

  /** The same run on a limiter that never sweeps. */
  function AfterKept(c: Config, b: Option<Bucket>, ops: seq<Op>): Option<Bucket> {
    if ops == [] then b else Kept(c, AfterKept(c, b, ops[..|ops| - 1]), ops[|ops| - 1])
  }

  predicate Alike(c: Config, swept: Option<Bucket>, kept: Option<Bucket>, now: real) {
    || swept == kept
    || (&& swept.None? && kept.Some? && kept.value.seen < now
        && kept.value.tokens + Gain(c, now - kept.value.seen) >= c.burst as real)
  }

  lemma AlikeLater(c: Config, swept: Option<Bucket>, kept: Option<Bucket>, now: real, later: real)
    requires Limits(c) && Alike(c, swept, kept, now) && now <= later
    ensures Alike(c, swept, kept, later)
  {
    if swept != kept {
      GainGrows(c, now - kept.value.seen, later - kept.value.seen);
    }
    hide Gain;
  }

  lemma AlikeDecides(c: Config, swept: Option<Bucket>, kept: Option<Bucket>, op: Op)
    requires Limits(c) && RefillsWhenIdle(c) && Alike(c, swept, kept, op.at) && Sound(c, swept, op.at)
    ensures Proceeds(c, swept, op) == Proceeds(c, kept, op)
    ensures Alike(c, Do(c, swept, op), Kept(c, kept, op), op.at)
  {
    if op.SweepAt? && swept.Some? && Stale(c, swept.value, op.at) {
      StaleIsFull(c, swept.value, op.at);
    }
  }

  lemma {:induction false} SweptRunIsAlike(c: Config, ops: seq<Op>, now: real)
    requires Limits(c) && RefillsWhenIdle(c) && Ordered(ops) && (ops != [] ==> ops[|ops| - 1].at <= now)
    ensures Alike(c, After(c, None, ops), AfterKept(c, None, ops), now)
  {
    hide Alike, Do, Kept, Limits, RefillsWhenIdle;
    if ops == [] {
      AlikeSame(c, None, now);
    } else {
      var n := |ops| - 1;
      var at := ops[n].at;
      SweptRunIsAlike(c, ops[..n], at);
      RunsAreSound(c, ops[..n], at);
      AlikeDecides(c, After(c, None, ops[..n]), AfterKept(c, None, ops[..n]), ops[n]);
      AlikeLater(c, After(c, None, ops), AfterKept(c, None, ops), at, now);
    }
  }

  lemma AlikeSame(c: Config, b: Option<Bucket>, now: real)
    ensures Alike(c, b, b, now)
  {}

  predicate Units(ops: seq<Op>) { forall i :: 0 <= i < |ops| && ops[i].Try? ==> ops[i].n == 1.0 }

  /** Whether an attempt after a run is decided as it would be without the sweeps in the run. */
  predicate DecidedAlike(c: Config, ops: seq<Op>, op: Op) {
    Proceeds(c, After(c, None, ops), op) == Proceeds(c, AfterKept(c, None, ops), op)
  }

  /** Sweeps at any times change no decision; and no decision in runs of single events. */
  ghost predicate SweepsAreInvisible(c: Config) {
    forall ops: seq<Op>, op: Op :: Ordered(ops + [op]) ==> DecidedAlike(c, ops, op)
  }

  ghost predicate SweepsAreInvisibleToUnits(c: Config) {
    forall ops: seq<Op>, op: Op :: Ordered(ops + [op]) && Units(ops + [op]) ==> DecidedAlike(c, ops, op)
  }

  /** Either is so exactly when an idle bucket has refilled. */
  lemma SweepsAreInvisibleExactly(c: Config)
    requires Limits(c)
    ensures SweepsAreInvisible(c) <==> RefillsWhenIdle(c)
    ensures SweepsAreInvisibleToUnits(c) <==> RefillsWhenIdle(c)
  {
    if RefillsWhenIdle(c) {
      forall ops: seq<Op>, op: Op | Ordered(ops + [op]) ensures DecidedAlike(c, ops, op) {
        SweepIsInvisible(c, ops, op);
      }
    } else {
      var at := IdleTooShort(c);
      SweepShows(c, at);
    }
  }

  lemma SweepIsInvisible(c: Config, ops: seq<Op>, op: Op)
    requires Limits(c) && RefillsWhenIdle(c) && Ordered(ops + [op])
    ensures DecidedAlike(c, ops, op)
  {
    hide After, AfterKept, Proceeds, Alike;
    var all := ops + [op];
    assert forall i :: 0 <= i < |ops| ==> ops[i] == all[i];
    assert all[|ops|] == op;
    SweptRunIsAlike(c, ops, op.at);
    RunsAreSound(c, ops, op.at);
    AlikeDecides(c, After(c, None, ops), AfterKept(c, None, ops), op);
  }

  /** An instant after which an empty bucket is swept before it is full. */
  lemma IdleTooShort(c: Config) returns (at: real)
    requires Limits(c) && !RefillsWhenIdle(c)
    ensures at > c.idle && Gain(c, at) < c.burst as real
  {
    if c.rate == 0.0 {
      at := c.idle + 1.0;
    } else {
      var full := c.burst as real / c.rate;
      assert full * c.rate == c.burst as real;
      assert full <= c.idle ==> full * c.rate <= c.idle * c.rate;
      at := (c.idle + full) / 2.0;
      assert at * c.rate == (c.idle * c.rate + full * c.rate) / 2.0;
    }
  }

  /** So many single attempts at one instant. */
  function Burst(n: nat, at: real): (ops: seq<Op>)
    ensures |ops| == n && forall i :: 0 <= i < n ==> ops[i] == Try(1.0, at)
  {
    if n == 0 then [] else Burst(n - 1, at) + [Try(1.0, at)]
  }

  lemma TryOne(c: Config, b: Option<Bucket>, at: real)
    requires Limits(c)
    ensures var level := Refilled(c, b, at);
            var left := level - if level >= 1.0 then 1.0 else 0.0;
            Do(c, b, Try(1.0, at)) == Some(Bucket(left, at)) && Refilled(c, Some(Bucket(left, at)), at) == left
  {}

  lemma OneLess(level: real, n: nat)
    requires level >= 0.0 && n > 0
    ensures var before := level - Min(n - 1, level.Floor) as real;
            before - (if before >= 1.0 then 1.0 else 0.0) == level - Min(n, level.Floor) as real
  {}

  /** They take one token each while there is a whole one. */
  lemma {:induction false} BurstTakes(c: Config, b: Option<Bucket>, n: nat, at: real)
    requires Limits(c) && Sound(c, b, at)
    ensures var level := Refilled(c, b, at);
            var left := level - Min(n, level.Floor) as real;
            && Refilled(c, After(c, b, Burst(n, at)), at) == left
            && (n > 0 ==> After(c, b, Burst(n, at)) == Some(Bucket(left, at)))
  {
    RefilledInRange(c, b, at);
    hide Refilled, Do, Sound, Limits;
    if n == 0 {
      assert Burst(n, at) == [];
    } else {
      BurstTakes(c, b, n - 1, at);
      var ops := Burst(n, at);
      assert ops[..n - 1] == Burst(n - 1, at) && ops[n - 1] == Try(1.0, at);
      hide Burst;
      TryOne(c, After(c, b, Burst(n - 1, at)), at);
      OneLess(Refilled(c, b, at), n);
      hide Min;
    }
  }

  lemma {:induction false} AfterSplit(c: Config, b: Option<Bucket>, first: seq<Op>, second: seq<Op>)
    ensures After(c, b, first + second) == After(c, After(c, b, first), second)
    ensures AfterKept(c, b, first + second) == AfterKept(c, AfterKept(c, b, first), second)
  {
    hide Do, Kept;
    if second == [] {
      assert first + second == first;
    } else {
      var n := |second| - 1;
      assert (first + second)[..|first| + n] == first + second[..n];
      AfterSplit(c, b, first, second[..n]);
    }
  }

  lemma {:induction false} KeptWithoutSweep(c: Config, b: Option<Bucket>, ops: seq<Op>)
    requires NoSweep(ops)
    ensures AfterKept(c, b, ops) == After(c, b, ops)
  {
    hide Do;
    if ops != [] {
      KeptWithoutSweep(c, b, ops[..|ops| - 1]);
    }
  }

  /** Using the burst up, sweeping too early, and using it up again. */
  function TwoBursts(c: Config, at: real): seq<Op>
    requires c.burst > 0
  {
    Burst(c.burst, 0.0) + ([SweepAt(at)] + Burst(c.burst - 1, at))
  }

  lemma SweepShows(c: Config, at: real)
    requires Limits(c) && at > c.idle && Gain(c, at) < c.burst as real
    ensures !SweepsAreInvisible(c) && !SweepsAreInvisibleToUnits(c)
  {
    var ops, op := TwoBursts(c, at), Try(1.0, at);
    TwoBurstsSwept(c, at);
    TwoBurstsKept(c, at);
    TwoBurstsOrdered(c, at);
    hide After, AfterKept, TwoBursts, Ordered, Units;
    assert !DecidedAlike(c, ops, op);
  }

  lemma TwoBurstsOrdered(c: Config, at: real)
    requires c.burst > 0 && at > 0.0
    ensures Ordered(TwoBursts(c, at) + [Try(1.0, at)]) && Units(TwoBursts(c, at) + [Try(1.0, at)])
  {
    var all := TwoBursts(c, at) + [Try(1.0, at)];
    assert forall i :: 0 <= i < |all| ==> all[i].at == if i < c.burst then 0.0 else at;
    assert forall i :: 0 <= i < |all| && all[i].Try? ==> all[i].n == 1.0;
  }

  /** After the first burst nothing is left. */
  lemma FirstBurst(c: Config)
    requires Limits(c)
    ensures After(c, None, Burst(c.burst, 0.0)) == AfterKept(c, None, Burst(c.burst, 0.0)) == Some(Bucket(0.0, 0.0))
  {
    BurstTakes(c, None, c.burst, 0.0);
    KeptWithoutSweep(c, None, Burst(c.burst, 0.0));
  }

  lemma AfterOne(c: Config, b: Option<Bucket>, op: Op)
    ensures After(c, b, [op]) == Do(c, b, op) && AfterKept(c, b, [op]) == Kept(c, b, op)
  {
    assert [op][..0] == [];
  }

  /** The second burst starts without a bucket, or with the emptied one. */
  lemma TwoBurstsSplit(c: Config, at: real)
    requires Limits(c) && at > c.idle
    ensures After(c, None, TwoBursts(c, at)) == After(c, None, Burst(c.burst - 1, at))
    ensures AfterKept(c, None, TwoBursts(c, at)) == After(c, Some(Bucket(0.0, 0.0)), Burst(c.burst - 1, at))
  {
    var emptied, tail := Some(Bucket(0.0, 0.0)), Burst(c.burst - 1, at);
    AfterOne(c, emptied, SweepAt(at));
    assert Do(c, emptied, SweepAt(at)) == None && Kept(c, emptied, SweepAt(at)) == emptied;
    KeptWithoutSweep(c, emptied, tail);
    hide After, AfterKept, Do, Kept, Burst;
    FirstBurst(c);
    AfterSplit(c, None, Burst(c.burst, 0.0), [SweepAt(at)] + tail);
    AfterSplit(c, emptied, [SweepAt(at)], tail);
  }

  /** A swept limiter then has one token for the last attempt. */
  lemma TwoBurstsSwept(c: Config, at: real)
    requires Limits(c) && at > c.idle
    ensures Proceeds(c, After(c, None, TwoBursts(c, at)), Try(1.0, at))
  {
    TwoBurstsSplit(c, at);
    BurstTakes(c, None, c.burst - 1, at);
    assert Refilled(c, None, at) == c.burst as real;
    hide After, Burst, Refilled, TwoBursts;
  }

  /** One that kept the bucket has at most a fraction. */
  lemma TwoBurstsKept(c: Config, at: real)
    requires Limits(c) && at > c.idle && Gain(c, at) < c.burst as real
    ensures !Proceeds(c, AfterKept(c, None, TwoBursts(c, at)), Try(1.0, at))
  {
    TwoBurstsSplit(c, at);
    GainGrows(c, 0.0, at);
    GainNothing(c);
    var emptied := Some(Bucket(0.0, 0.0));
    assert Refilled(c, emptied, at) == Gain(c, at);
    BurstTakes(c, emptied, c.burst - 1, at);
    hide After, AfterKept, Burst, Refilled, TwoBursts, Gain;
  }

  // ----- retrying

  predicate PermitsAfter(c: Config, b: Option<Bucket>, now: real, wait: real) { Permits(c, b, 1.0, now + wait) }

  /** One event proceeds after the wait, and after no shorter one. */
  ghost predicate LeastWait(c: Config, b: Option<Bucket>, now: real, wait: real) {
    wait >= 0.0 && PermitsAfter(c, b, now, wait) && forall w: real :: 0.0 <= w < wait ==> !PermitsAfter(c, b, now, w)
  }

  /** What Retry reports is that wait exactly when the limiter refills and permits anything. */
  lemma RetryIsLeastWait(c: Config, b: Option<Bucket>, now: real)
    requires c.idle > 0.0 && (c.burst <= 0 ==> b.None?) && Sound(c, b, now)
    ensures LeastWait(c, b, now, Wait(c, b, now)) <==> c.rate > 0.0 && c.burst > 0
  {
    if c.burst > 0 {
      if c.rate > 0.0 {
        WaitSuffices(c, b, now);
      } else {
        WaitingIsVain(c, b, now);
      }
    }
  }

  lemma RefilledAfter(c: Config, b: Bucket, now: real, wait: real)
    requires Sound(c, Some(b), now) && wait >= 0.0
    ensures Refilled(c, Some(b), now + wait) == Least(c.burst as real, b.tokens + Gain(c, now - b.seen) + Gain(c, wait))
  {
    GainNothing(c);
    GainAdds(c, now - b.seen, wait);
    hide Gain;
    assert now + wait - b.seen == now - b.seen + wait;
  }

  lemma WaitSuffices(c: Config, b: Option<Bucket>, now: real)
    requires c.rate > 0.0 && c.burst > 0 && Sound(c, b, now)
    ensures LeastWait(c, b, now, Wait(c, b, now))
  {
    if b.Some? {
      var wait := Wait(c, b, now);
      var held := b.value.tokens + Gain(c, now - b.value.seen);
      assert wait == if held >= 1.0 then 0.0 else (1.0 - held) / c.rate;
      assert held < 1.0 ==> Gain(c, wait) == 1.0 - held;
      GainNothing(c);
      RefilledAfter(c, b.value, now, wait);
      forall w: real | 0.0 <= w < wait ensures !PermitsAfter(c, b, now, w) {
        RefilledAfter(c, b.value, now, w);
        GainIsStrict(c, w, wait);
      }
    }
  }

  lemma GainIsStrict(c: Config, time: real, more: real)
    requires c.rate > 0.0 && time < more
    ensures Gain(c, time) < Gain(c, more)
  {}

  lemma WaitingIsVain(c: Config, b: Option<Bucket>, now: real)
    requires c.rate <= 0.0 && c.burst > 0 && c.idle > 0.0 && Sound(c, b, now)
    ensures !LeastWait(c, b, now, c.idle)
  {
    if b.Some? {
      RefilledAfter(c, b.value, now, 0.0);
      RefilledAfter(c, b.value, now, c.idle);
      assert Gain(c, c.idle) <= 0.0 == Gain(c, 0.0);
    }
    assert PermitsAfter(c, b, now, c.idle) ==> PermitsAfter(c, b, now, 0.0);
  }

  // ----- password attempts

  datatype Outcome = Missing | TooMany | Unauthorized | Opened

  /** The allowance is taken before the comparison, and a correct token clears it. */
  method Authenticated(l: Limiter, id: string, stored: Option<Bytes>, presented: Bytes, now: real)
    returns (o: Outcome, compared: bool)
    modifies l
    ensures compared == (stored.Some? && Permits(l.config, old(l.At(id)), 1.0, now))
    ensures o == if stored.None? then Missing else if !compared then TooMany
                else if presented == stored.value then Opened else Unauthorized
    ensures l.At(id) == if stored.None? then old(l.At(id)) else if o.Opened? then None
                else Charged(l.config, old(l.At(id)), 1.0, now)
  {
    compared := false;
    if stored.None? {
      return Missing, false;
    }
    var ok := l.AllowN(id, 1.0, now);
    if !ok {
      return TooMany, false;
    }
    compared := true;
    if presented != stored.value {
      return Unauthorized, true;
    }
    l.Forget(id);
    o := Opened;
  }

  function Attempts(times: seq<real>): (ops: seq<Op>)
    ensures |ops| == |times| && forall i :: 0 <= i < |ops| ==> ops[i] == Try(1.0, times[i])
  {
    seq(|times|, i requires 0 <= i < |times| => Try(1.0, times[i]))
  }

  lemma RunStep(c: Config, b: Option<Bucket>, ops: seq<Op>, i: nat)
    requires i < |ops|
    ensures After(c, b, ops[..i + 1]) == Do(c, After(c, b, ops[..i]), ops[i])
    ensures Spent(c, b, ops[..i + 1]) == Spent(c, b, ops[..i])
                + if Proceeds(c, After(c, b, ops[..i]), ops[i]) then ops[i].n else 0.0
  {
    assert ops[..i + 1][..i] == ops[..i];
  }

  /** What the first n attempts of a run leave in the bucket, and what they take in all. */
  function BucketAfter(c: Config, b: Option<Bucket>, times: seq<real>, n: nat): Option<Bucket>
    requires n <= |times|
  {
    After(c, b, Attempts(times)[..n])
  }

  function SpentAfter(c: Config, b: Option<Bucket>, times: seq<real>, n: nat): real
    requires n <= |times|
  {
    Spent(c, b, Attempts(times)[..n])
  }

  /** Whether attempt i of a run of guesses is compared, and whether it opens the upload. */
  predicate Compared(c: Config, b: Option<Bucket>, times: seq<real>, i: nat)
    requires i < |times|
  {
    Permits(c, BucketAfter(c, b, times, i), 1.0, times[i])
  }

  predicate Opens(c: Config, b: Option<Bucket>, times: seq<real>, tokens: seq<Bytes>, stored: Bytes, i: nat)
    requires i < |times| == |tokens|
  {
    Compared(c, b, times, i) && tokens[i] == stored
  }

  lemma NoAttempts(c: Config, b: Option<Bucket>, times: seq<real>)
    ensures BucketAfter(c, b, times, 0) == b && SpentAfter(c, b, times, 0) == 0.0
  {
    assert Attempts(times)[..0] == [];
  }

  lemma AttemptsBound(c: Config, b: Option<Bucket>, times: seq<real>, n: nat)
    requires 0 < n <= |times| && Limits(c) && Ordered(Attempts(times)) && Sound(c, b, times[0])
    ensures SpentAfter(c, b, times, n) <= c.burst as real + Gain(c, times[n - 1] - times[0])
  {
    hide Spent, Sound;
    WindowBound(c, b, Attempts(times)[..n]);
  }

  method GuessOnce(l: Limiter, id: string, stored: Bytes, tokens: seq<Bytes>, times: seq<real>, i: nat,
                   ghost b: Option<Bucket>)
    returns (succeeded: bool, compared: bool)
    requires |tokens| == |times| && i < |times| && l.At(id) == BucketAfter(l.config, b, times, i)
    modifies l
    ensures compared == Compared(l.config, b, times, i)
    ensures succeeded == Opens(l.config, b, times, tokens, stored, i)
    ensures !succeeded ==> l.At(id) == BucketAfter(l.config, b, times, i + 1)
    ensures SpentAfter(l.config, b, times, i + 1) == SpentAfter(l.config, b, times, i) + if compared then 1.0 else 0.0
  {
    hide After, Spent, Refilled;
    RunStep(l.config, b, Attempts(times), i);
    var o;
    o, compared := Authenticated(l, id, Some(stored), tokens[i], times[i]);
    succeeded := o == Opened;
  }

  /**
   Guessing at one upload until a token opens it: how many attempts are made, and how many of them are
   compared, whatever they are. It is what the bucket lets through, and bounded as that is.
   */
  method Guess(l: Limiter, id: string, stored: Bytes, tokens: seq<Bytes>, times: seq<real>)
    returns (tried: nat, compared: nat)
    requires |tokens| == |times| && Limits(l.config) && Ordered(Attempts(times))
    requires times != [] ==> Sound(l.config, l.At(id), times[0])
    modifies l
    ensures tried <= |times| && compared as real == SpentAfter(l.config, old(l.At(id)), times, tried)
    ensures forall i :: 0 <= i < tried - 1 ==> !Opens(l.config, old(l.At(id)), times, tokens, stored, i)
    ensures tried < |times| ==> tried > 0 && Opens(l.config, old(l.At(id)), times, tokens, stored, tried - 1)
    ensures tried > 0 ==> compared as real <= l.config.burst as real + Gain(l.config, times[tried - 1] - times[0])
  {
    hide *;
    tried, compared := 0, 0;
    ghost var b, c := l.At(id), l.config;
    NoAttempts(c, b, times);
    var guessing := true;
    while guessing && tried < |times|
      invariant tried <= |times| && (guessing ==> l.At(id) == BucketAfter(c, b, times, tried))
      invariant compared as real == SpentAfter(c, b, times, tried)
      invariant forall i :: 0 <= i < (if guessing then tried else tried - 1) ==> !Opens(c, b, times, tokens, stored, i)
      invariant !guessing ==> tried > 0 && Opens(c, b, times, tokens, stored, tried - 1)
      decreases |times| - tried, guessing
    {
      var succeeded, done := GuessOnce(l, id, stored, tokens, times, tried, b);
      if done {
        compared := compared + 1;
      }
      guessing := !succeeded;
      tried := tried + 1;
    }
    if tried > 0 {
      AttemptsBound(c, b, times, tried);
    }
  }
}
