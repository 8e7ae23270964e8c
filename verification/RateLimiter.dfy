/** The per-client token buckets of src/server/ratelimit.go, with the sweep that
    drops idle ones. Times are seconds and token counts are exact reals. */
module RateLimiter {
  datatype RateClass = ClassDefault | ClassStart | ClassBegin

  datatype Key = Key(class_: RateClass, client: string)

  datatype Params = Params(perMinute: real, burst: real)
  {
    function PerSec(): real
    {
      perMinute / 60.0
    }

    /** A class with a zero rate or burst is not limited at all. */
    predicate Limited()
    {
      perMinute > 0.0 && burst > 0.0
    }
  }

  datatype Config = Config(start: Params, begin: Params, default_: Params)

  function ParamsOf(cfg: Config, c: RateClass): Params {
    match c
    case ClassStart => cfg.start
    case ClassBegin => cfg.begin
    case ClassDefault => cfg.default_
  }

  datatype Bucket = Bucket(tokens: real, last: real)

  datatype State = State(buckets: map<Key, Bucket>, lastSweep: real)

  datatype Decision = Decision(ok: bool, wait: real)

  const MAX_BUCKETS: nat := 100_000
  const SWEEP_EVERY: real := 60.0
  const IDLE_LIMIT: real := 600.0

  // --- One call, on values --------------------------------------------------------

  function Fill(tokens: real, elapsed: real, rate: real, burst: real): real {
    var filled := tokens + elapsed * rate;
    if burst < filled then burst else filled
  }

  /** The tokens in b at now. */
  function Refilled(p: Params, b: Bucket, now: real): real {
    Fill(b.tokens, now - b.last, p.PerSec(), p.burst)
  }

  function Idle(b: Bucket, now: real): bool {
    now - b.last > IDLE_LIMIT
  }

  function Sweep(s: State, now: real): State {
    if now - s.lastSweep < SWEEP_EVERY then s
    else State(map k | k in s.buckets && !Idle(s.buckets[k], now) :: s.buckets[k], now)
  }

  /** Takes a token from b if there is one. */
  function Take(p: Params, b: Bucket, now: real): (Bucket, Decision)
    requires p.Limited()
  {
    var tokens := Refilled(p, b, now);
    if tokens >= 1.0 then (Bucket(tokens - 1.0, now), Decision(true, 0.0))
    else (Bucket(tokens, now), Decision(false, (1.0 - tokens) / p.PerSec()))
  }

  function Allow(cfg: Config, s: State, k: Key, now: real): (State, Decision) {
    var p := ParamsOf(cfg, k.class_);
    if !p.Limited() then (s, Decision(true, 0.0))
    else
      var swept := Sweep(s, now);
      if k !in swept.buckets && |swept.buckets| >= MAX_BUCKETS then (swept, Decision(false, 60.0))
      else
        var (b, d) := Take(p, if k in swept.buckets then swept.buckets[k] else Bucket(p.burst, now), now);
        (swept.(buckets := swept.buckets[k := b]), d)
  }

  /** The limiter that never drops a bucket and has no cap. */
  function AllowKeeping(cfg: Config, buckets: map<Key, Bucket>, k: Key, now: real): (map<Key, Bucket>, Decision) {
    var p := ParamsOf(cfg, k.class_);
    if !p.Limited() then (buckets, Decision(true, 0.0))
    else
      var (b, d) := Take(p, if k in buckets then buckets[k] else Bucket(p.burst, now), now);
      (buckets[k := b], d)
  }

  // --- The imperative limiter -----------------------------------------------------

  class Limiter {
    const cfg: Config
    var buckets: map<Key, Bucket>
    var lastSweep: real

    function View(): State
      reads this
    {
      State(buckets, lastSweep)
    }

    constructor (cfg: Config, zeroTime: real)
      ensures this.cfg == cfg && View() == State(map[], zeroTime)
    {
      this.cfg := cfg;
      buckets, lastSweep := map[], zeroTime;
    }

    method SweepLocked(now: real)
      modifies this
      ensures View() == Sweep(old(View()), now)
    {
      if now - lastSweep < SWEEP_EVERY {
        return;
      }
      lastSweep := now;
      ghost var was := buckets;
      var todo := buckets.Keys;
      while todo != {}
        invariant todo <= was.Keys && lastSweep == now
        invariant buckets == map k | k in was && (k in todo || !Idle(was[k], now)) :: was[k]
        decreases todo
      {
        var k :| k in todo;
        if now - buckets[k].last > IDLE_LIMIT {
          buckets := buckets - {k};
        }
        todo := todo - {k};
      }
    }

    method Admit(client: string, c: RateClass, now: real) returns (ok: bool, wait: real)
      modifies this
      ensures (View(), Decision(ok, wait)) == Allow(cfg, old(View()), Key(c, client), now)
    {
      var p := ParamsOf(cfg, c);
      if p.perMinute <= 0.0 || p.burst <= 0.0 {
        return true, 0.0;
      }
      var perSec := p.PerSec();
      var key := Key(c, client);
      SweepLocked(now);
      ghost var swept := View();
      if key !in buckets {
        if |buckets| >= MAX_BUCKETS {
          return false, 60.0;
        }
        buckets := buckets[key := Bucket(p.burst, now)];
      }
      var b := buckets[key];
      var filled := b.tokens + (now - b.last) * perSec;
      var tokens := if p.burst < filled then p.burst else filled;
      assert tokens == Refilled(p, b, now);
      if tokens >= 1.0 {
        buckets := buckets[key := Bucket(tokens - 1.0, now)];
        ok, wait := true, 0.0;
      } else {
        buckets := buckets[key := Bucket(tokens, now)];
        ok, wait := false, (1.0 - tokens) / perSec;
      }
      assert buckets == swept.buckets[key := Take(p, b, now).0];
    }
  }

  // --- When an idle bucket has refilled -------------------------------------------

  /** Every bucket is dated by the clock and holds between 0 and burst tokens; a
      bucket too small for a whole token is never drawn on, so it stays full. */
  ghost predicate Sound(p: Params, b: Bucket, clock: real) {
    && 0.0 <= b.tokens <= p.burst && b.last <= clock
    && (p.burst < 1.0 ==> b.tokens == p.burst)
  }

  /** A class whose dropped buckets would be full again: it admits nobody, or its
      burst is at most ten minutes of refill. */
  ghost predicate FullWhenIdle(p: Params) {
    p.Limited() && p.burst >= 1.0 ==> p.burst <= 10.0 * p.perMinute
  }

  lemma RateScales(p: Params)
    requires p.Limited()
    ensures p.PerSec() > 0.0 && 600.0 * p.PerSec() == 10.0 * p.perMinute
  {}

  lemma FillBounds(tokens: real, elapsed: real, rate: real, burst: real)
    requires tokens <= burst && elapsed >= 0.0 && rate >= 0.0
    ensures tokens <= Fill(tokens, elapsed, rate, burst) <= burst
    ensures elapsed == 0.0 ==> Fill(tokens, elapsed, rate, burst) == tokens
  {
    assert elapsed * rate >= 0.0;
  }

  lemma FillGrows(tokens: real, elapsed: real, more: real, rate: real, burst: real)
    requires more >= 0.0 && rate >= 0.0
    ensures Fill(tokens, elapsed + more, rate, burst) <= Fill(tokens, elapsed, rate, burst) + more * rate
  {
    assert more * rate >= 0.0;
    assert (elapsed + more) * rate == elapsed * rate + more * rate;
  }

  lemma FillFull(tokens: real, elapsed: real, rate: real, burst: real)
    requires tokens >= 0.0 && elapsed >= 600.0 && rate >= 0.0 && burst <= 600.0 * rate
    ensures Fill(tokens, elapsed, rate, burst) == burst
  {
    assert (elapsed - 600.0) * rate >= 0.0;
  }

  lemma RefillBounds(p: Params, b: Bucket, now: real)
    requires p.Limited() && b.tokens <= p.burst && b.last <= now
    ensures b.tokens <= Refilled(p, b, now) <= p.burst
    ensures b.last == now ==> Refilled(p, b, now) == b.tokens
  {
    RateScales(p);
    FillBounds(b.tokens, now - b.last, p.PerSec(), p.burst);
  }

  lemma RefillGrows(p: Params, b: Bucket, now: real, later: real)
    requires p.Limited() && now <= later
    ensures Refilled(p, b, later) <= Refilled(p, b, now) + (later - now) * p.PerSec()
  {
    RateScales(p);
    FillGrows(b.tokens, now - b.last, later - now, p.PerSec(), p.burst);
    assert now - b.last + (later - now) == later - b.last;
  }

  lemma IdleRefills(p: Params, b: Bucket, now: real)
    requires p.Limited() && p.burst <= 10.0 * p.perMinute && b.tokens >= 0.0 && Idle(b, now)
    ensures Refilled(p, b, now) == p.burst
  {
    RateScales(p);
    FillFull(b.tokens, now - b.last, p.PerSec(), p.burst);
  }

  lemma IdleIsFull(p: Params, b: Bucket, clock: real, now: real)
    requires p.Limited() && FullWhenIdle(p) && Sound(p, b, clock) && Idle(b, now)
    ensures Refilled(p, b, now) == p.burst
  {
    if p.burst < 1.0 {
      RefillBounds(p, b, now);
    } else {
      IdleRefills(p, b, now);
    }
  }

  /** "Idle long enough to have refilled completely" holds of every bucket of a
      class exactly when its burst is at most ten minutes of refill. */
  lemma IdleMeansFullIff(p: Params)
    requires p.Limited()
    ensures (forall b: Bucket, now :: b.tokens >= 0.0 && Idle(b, now) ==> Refilled(p, b, now) == p.burst)
            <==> p.burst <= 10.0 * p.perMinute
  {
    if p.burst <= 10.0 * p.perMinute {
      forall b: Bucket, now | b.tokens >= 0.0 && Idle(b, now)
        ensures Refilled(p, b, now) == p.burst
      {
        IdleRefills(p, b, now);
      }
    } else {
      // Idle just past the limit: half of what is missing is still missing.
      var missing := p.burst - 10.0 * p.perMinute;
      var extra := missing / 2.0 / p.PerSec();
      var b := Bucket(0.0, 0.0);
      assert extra * p.PerSec() == missing / 2.0;
      assert (600.0 + extra) * p.PerSec() == 10.0 * p.perMinute + missing / 2.0;
      assert Idle(b, 600.0 + extra) && Refilled(p, b, 600.0 + extra) < p.burst;
    }
  }

  // --- Sweeping changes no decision -----------------------------------------------

  /** The sweeping limiter keeps some of the reference's buckets, and the ones it
      dropped would be full again. */
  ghost predicate Tracks(cfg: Config, s: State, kept: map<Key, Bucket>, clock: real) {
    && (forall k :: k in kept ==> ParamsOf(cfg, k.class_).Limited() && Sound(ParamsOf(cfg, k.class_), kept[k], clock))
    && (forall k :: k in s.buckets ==> k in kept && kept[k] == s.buckets[k])
    && (forall k :: k in kept && k !in s.buckets ==> Idle(kept[k], clock))
  }

  /** A call takes one token from what had refilled exactly when it is admitted. */
  lemma TakeSpends(p: Params, b: Bucket, now: real)
    requires p.Limited() && Sound(p, b, now)
    ensures var (left, d) := Take(p, b, now);
            Sound(p, left, now) && Refilled(p, left, now) == Refilled(p, b, now) - (if d.ok then 1.0 else 0.0)
  {
    RefillBounds(p, b, now);
    RefillBounds(p, Take(p, b, now).0, now);
  }

  lemma SweepTracks(cfg: Config, s: State, kept: map<Key, Bucket>, clock: real, now: real)
    requires Tracks(cfg, s, kept, clock) && clock <= now
    ensures Tracks(cfg, Sweep(s, now), kept, now)
  {}

  /** A dropped bucket and a new one are taken from alike. */
  lemma TakesAlike(p: Params, b: Bucket, clock: real, now: real)
    requires p.Limited() && FullWhenIdle(p) && Sound(p, b, clock) && Idle(b, now)
    requires clock <= now
    ensures Take(p, Bucket(p.burst, now), now) == Take(p, b, now)
  {
    IdleIsFull(p, b, clock, now);
    RefillBounds(p, Bucket(p.burst, now), now);
  }

  lemma StepTracks(cfg: Config, s: State, kept: map<Key, Bucket>, clock: real, k: Key, now: real)
    requires Tracks(cfg, s, kept, clock) && clock <= now
    requires forall c :: FullWhenIdle(ParamsOf(cfg, c))
    requires |Sweep(s, now).buckets| < MAX_BUCKETS
    ensures Allow(cfg, s, k, now).1 == AllowKeeping(cfg, kept, k, now).1
    ensures Tracks(cfg, Allow(cfg, s, k, now).0, AllowKeeping(cfg, kept, k, now).0, now)
  {
    var p := ParamsOf(cfg, k.class_);
    SweepTracks(cfg, s, kept, clock, now);
    if p.Limited() {
      var swept, full := Sweep(s, now), Bucket(p.burst, now);
      var b := if k in kept then kept[k] else full;
      TakeSpends(p, b, now);
      if k in kept && k !in swept.buckets {
        assert FullWhenIdle(ParamsOf(cfg, k.class_));
        TakesAlike(p, b, clock, now);
      }
      var after := Take(p, b, now).0;
      TracksBoth(cfg, swept, kept, now, k, after);
    }
  }

  lemma TracksBoth(cfg: Config, s: State, kept: map<Key, Bucket>, now: real, k: Key, b: Bucket)
    requires Tracks(cfg, s, kept, now) && ParamsOf(cfg, k.class_).Limited() && Sound(ParamsOf(cfg, k.class_), b, now)
    ensures Tracks(cfg, s.(buckets := s.buckets[k := b]), kept[k := b], now)
  {}

  /** A call: which bucket it draws on and when. */
  datatype Call = Call(key: Key, at: real)

  function Run(cfg: Config, s: State, calls: seq<Call>): (State, seq<Decision>)
    decreases |calls|
  {
    if calls == [] then (s, [])
    else
      var (s1, d) := Allow(cfg, s, calls[0].key, calls[0].at);
      var (s2, ds) := Run(cfg, s1, calls[1..]);
      (s2, [d] + ds)
  }

  function RunKeeping(cfg: Config, kept: map<Key, Bucket>, calls: seq<Call>): seq<Decision>
    decreases |calls|
  {
    if calls == [] then []
    else
      var (kept1, d) := AllowKeeping(cfg, kept, calls[0].key, calls[0].at);
      [d] + RunKeeping(cfg, kept1, calls[1..])
  }

  ghost predicate Ordered(clock: real, calls: seq<Call>) {
    && (forall i :: 0 <= i < |calls| ==> clock <= calls[i].at)
    && (forall i, j :: 0 <= i < j < |calls| ==> calls[i].at <= calls[j].at)
  }

  /** No call of the run finds the bucket map full. */
  ghost predicate BelowCap(cfg: Config, s: State, calls: seq<Call>)
    decreases |calls|
  {
    calls == [] ||
    (|Sweep(s, calls[0].at).buckets| < MAX_BUCKETS
      && BelowCap(cfg, Allow(cfg, s, calls[0].key, calls[0].at).0, calls[1..]))
  }

  lemma {:induction false} RunTracks(cfg: Config, s: State, kept: map<Key, Bucket>, clock: real, calls: seq<Call>)
    requires Tracks(cfg, s, kept, clock) && Ordered(clock, calls) && BelowCap(cfg, s, calls)
    requires forall c :: FullWhenIdle(ParamsOf(cfg, c))
    ensures Run(cfg, s, calls).1 == RunKeeping(cfg, kept, calls)
    decreases |calls|
  {
    if calls != [] {
      StepTracks(cfg, s, kept, clock, calls[0].key, calls[0].at);
      assert Ordered(calls[0].at, calls[1..]);
      RunTracks(cfg, Allow(cfg, s, calls[0].key, calls[0].at).0, AllowKeeping(cfg, kept, calls[0].key, calls[0].at).0,
                calls[0].at, calls[1..]);
    }
  }

  /** For every request sequence, the limiter that drops idle buckets decides
      exactly as one that never drops any. */
  lemma SweepChangesNoDecision(cfg: Config, zeroTime: real, clock: real, calls: seq<Call>)
    requires Ordered(clock, calls) && BelowCap(cfg, State(map[], zeroTime), calls)
    requires forall c :: FullWhenIdle(ParamsOf(cfg, c))
    ensures Run(cfg, State(map[], zeroTime), calls).1 == RunKeeping(cfg, map[], calls)
  {
    RunTracks(cfg, State(map[], zeroTime), map[], clock, calls);
  }

  // --- ... and only under that condition ----------------------------------------------

  /** These calls, made next, are decided differently by the two limiters. */
  ghost predicate Differs(cfg: Config, s: State, kept: map<Key, Bucket>, clock: real, calls: seq<Call>) {
    Ordered(clock, calls) && BelowCap(cfg, s, calls) && Run(cfg, s, calls).1 != RunKeeping(cfg, kept, calls)
  }

  lemma DiffersNow(cfg: Config, s: State, kept: map<Key, Bucket>, clock: real, call: Call)
    requires clock <= call.at && |Sweep(s, call.at).buckets| < MAX_BUCKETS
    requires Allow(cfg, s, call.key, call.at).1 != AllowKeeping(cfg, kept, call.key, call.at).1
    ensures Differs(cfg, s, kept, clock, [call])
  {
    assert Run(cfg, s, [call]).1[0] != RunKeeping(cfg, kept, [call])[0];
  }

  lemma DiffersAfter(cfg: Config, s: State, kept: map<Key, Bucket>, clock: real, call: Call, calls: seq<Call>)
    requires clock <= call.at && |Sweep(s, call.at).buckets| < MAX_BUCKETS
    requires Differs(cfg, Allow(cfg, s, call.key, call.at).0, AllowKeeping(cfg, kept, call.key, call.at).0,
                     call.at, calls)
    ensures Differs(cfg, s, kept, clock, [call] + calls)
  {
    var all := [call] + calls;
    assert all[1..] == calls;
    assert Run(cfg, s, all).1[1..] == Run(cfg, Allow(cfg, s, call.key, call.at).0, calls).1;
    assert RunKeeping(cfg, kept, all)[1..] == RunKeeping(cfg, AllowKeeping(cfg, kept, call.key, call.at).0, calls);
  }

  function Single(k: Key, b: Bucket): map<Key, Bucket> {
    map[k := b]
  }

  lemma SweepSingle(s: State, k: Key, b: Bucket, now: real)
    requires s.buckets == Single(k, b) && s.lastSweep <= now
    ensures Sweep(s, now).buckets == if now - s.lastSweep >= SWEEP_EVERY && Idle(b, now) then map[] else Single(k, b)
    ensures |Sweep(s, now).buckets| <= 1 && Sweep(s, now).lastSweep <= now
  {}

  /** A call of k when k's bucket is the only one: what both limiters do. */
  lemma CallSingle(cfg: Config, s: State, k: Key, b: Bucket, c: Bucket, now: real)
    requires ParamsOf(cfg, k.class_).Limited() && s.buckets == Single(k, b) && s.lastSweep <= now
    ensures var p, dropped := ParamsOf(cfg, k.class_), now - s.lastSweep >= SWEEP_EVERY && Idle(b, now);
            var t := Take(p, if dropped then Bucket(p.burst, now) else b, now);
            var (s', d) := Allow(cfg, s, k, now);
            && s'.buckets == Single(k, t.0) && s'.lastSweep <= now && d == t.1
            && AllowKeeping(cfg, Single(k, c), k, now) == (Single(k, Take(p, c, now).0), Take(p, c, now).1)
  {
    SweepSingle(s, k, b, now);
    var p, swept := ParamsOf(cfg, k.class_), Sweep(s, now);
    var t := Take(p, if k in swept.buckets then swept.buckets[k] else Bucket(p.burst, now), now).0;
    assert swept.buckets[k := t] == Single(k, t);
    var u := Take(p, c, now).0;
    assert Single(k, c)[k := u] == Single(k, u);
  }

  /** Fewer tokens on the keeping side show after enough calls at one time. */
  lemma {:induction false} Drain(cfg: Config, s: State, k: Key, now: real, fewer: real, more: real)
    returns (calls: seq<Call>)
    requires ParamsOf(cfg, k.class_).Limited() && 0.0 <= fewer < more <= ParamsOf(cfg, k.class_).burst
    requires s.buckets == Single(k, Bucket(more, now)) && s.lastSweep <= now
    ensures Differs(cfg, s, Single(k, Bucket(fewer, now)), now, calls)
    decreases fewer.Floor
  {
    var p, call := ParamsOf(cfg, k.class_), Call(k, now);
    var kept := Single(k, Bucket(fewer, now));
    SweepSingle(s, k, Bucket(more, now), now);
    CallSingle(cfg, s, k, Bucket(more, now), Bucket(fewer, now), now);
    RefillBounds(p, Bucket(more, now), now);
    RefillBounds(p, Bucket(fewer, now), now);
    if fewer < 1.0 {
      WaitsDiffer(p, fewer, more);
      calls := [call];
      DiffersNow(cfg, s, kept, now, call);
    } else {
      var rest := Drain(cfg, Allow(cfg, s, k, now).0, k, now, fewer - 1.0, more - 1.0);
      calls := [call] + rest;
      DiffersAfter(cfg, s, kept, now, call, rest);
    }
  }

  lemma WaitsDiffer(p: Params, fewer: real, more: real)
    requires p.Limited() && fewer < more
    ensures (1.0 - fewer) / p.PerSec() != (1.0 - more) / p.PerSec()
  {
    RateScales(p);
    var r := p.PerSec();
    assert (1.0 - fewer) / r * r == 1.0 - fewer && (1.0 - more) / r * r == 1.0 - more;
  }

  /** Idle just past the limit: still short of burst by half of what was missing. */
  lemma JustIdle(p: Params, x: real) returns (wait: real)
    requires p.Limited() && 0.0 <= x && x + 10.0 * p.perMinute < p.burst
    ensures wait > IDLE_LIMIT && 0.0 <= Fill(x, wait, p.PerSec(), p.burst) < p.burst
  {
    RateScales(p);
    var r := p.PerSec();
    var missing := p.burst - x - 10.0 * p.perMinute;
    var extra := missing / 2.0 / r;
    assert extra * r == missing / 2.0;
    assert extra > 0.0;
    wait := 600.0 + extra;
    assert wait * r == 600.0 * r + extra * r;
  }

  /** A bucket that cannot refill in ten minutes is dropped while it still matters. */
  lemma DroppedTooEarly(cfg: Config, s: State, k: Key, x: real, last: real) returns (calls: seq<Call>)
    requires var p := ParamsOf(cfg, k.class_);
             p.Limited() && p.burst >= 1.0 && 0.0 <= x && x + 10.0 * p.perMinute < p.burst
    requires s.buckets == Single(k, Bucket(x, last)) && s.lastSweep <= last
    ensures Differs(cfg, s, Single(k, Bucket(x, last)), last, calls)
  {
    var p, b := ParamsOf(cfg, k.class_), Bucket(x, last);
    var wait := JustIdle(p, x);
    var now := last + wait;
    var full := Bucket(p.burst, now);
    var call := Call(k, now);
    assert now - last == wait;
    SweepSingle(s, k, b, now);
    CallSingle(cfg, s, k, b, b, now);
    RefillBounds(p, full, now);
    var y := Refilled(p, b, now);
    if y < 1.0 {
      calls := [call];
      DiffersNow(cfg, s, Single(k, b), last, call);
    } else {
      var rest := Drain(cfg, Allow(cfg, s, k, now).0, k, now, y - 1.0, p.burst - 1.0);
      calls := [call] + rest;
      DiffersAfter(cfg, s, Single(k, b), last, call, rest);
    }
  }

  lemma WaitForOne(p: Params, x: real) returns (wait: real)
    requires p.Limited() && p.burst >= 1.0 && 0.0 <= x < 1.0 && x + 10.0 * p.perMinute >= 1.0
    ensures 0.0 <= wait <= IDLE_LIMIT && wait * p.PerSec() == 1.0 - x && Fill(x, wait, p.PerSec(), p.burst) == 1.0
  {
    RateScales(p);
    var r := p.PerSec();
    wait := (1.0 - x) / r;
    assert wait * r == 1.0 - x <= 600.0 * r;
    assert wait > 600.0 ==> (wait - 600.0) * r > 0.0;
  }

  /** From any contents, both limiters can be led to a bucket that the sweep drops too early. */
  lemma {:induction false} EmptyFirst(cfg: Config, s: State, k: Key, x: real, last: real) returns (calls: seq<Call>)
    requires var p := ParamsOf(cfg, k.class_);
             p.Limited() && p.burst >= 1.0 && p.burst > 10.0 * p.perMinute && 0.0 <= x <= p.burst
    requires s.buckets == Single(k, Bucket(x, last)) && s.lastSweep <= last
    ensures Differs(cfg, s, Single(k, Bucket(x, last)), last, calls)
    decreases x.Floor
  {
    var p, b := ParamsOf(cfg, k.class_), Bucket(x, last);
    if x < 1.0 && x + 10.0 * p.perMinute < p.burst {
      calls := DroppedTooEarly(cfg, s, k, x, last);
    } else {
      var wait := 0.0;
      if x < 1.0 {
        wait := WaitForOne(p, x);
      }
      var now := last + wait;
      var call := Call(k, now);
      assert now - last == wait;
      SweepSingle(s, k, b, now);
      CallSingle(cfg, s, k, b, b, now);
      RefillBounds(p, b, now);
      var s' := Allow(cfg, s, k, now).0;
      var rest;
      if x < 1.0 {
        rest := DroppedTooEarly(cfg, s', k, 0.0, now);
      } else {
        rest := EmptyFirst(cfg, s', k, x - 1.0, now);
      }
      calls := [call] + rest;
      DiffersAfter(cfg, s, Single(k, b), last, call, rest);
    }
  }

  /** A class that admits calls and does not refill in ten minutes: some run is
      decided differently because its bucket was dropped. */
  lemma SweepMatters(cfg: Config, c: RateClass) returns (calls: seq<Call>)
    requires !FullWhenIdle(ParamsOf(cfg, c))
    ensures Differs(cfg, State(map[], 0.0), map[], 0.0, calls)
  {
    var p, k, s := ParamsOf(cfg, c), Key(c, "192.0.2.1"), State(map[], 0.0);
    var call := Call(k, 0.0);
    var full := Bucket(p.burst, 0.0);
    RefillBounds(p, full, 0.0);
    var s1 := Allow(cfg, s, k, 0.0).0;
    var left := Bucket(p.burst - 1.0, 0.0);
    assert s1.buckets == Single(k, left) && AllowKeeping(cfg, map[], k, 0.0).0 == Single(k, left);
    var rest := EmptyFirst(cfg, s1, k, p.burst - 1.0, 0.0);
    calls := [call] + rest;
    DiffersAfter(cfg, s, map[], 0.0, call, rest);
  }

  /** Dropping idle buckets changes no decision of any run below the cap exactly
      when every class that admits calls refills within ten minutes. */
  lemma SweepChangesNothingIff(cfg: Config)
    ensures (forall zeroTime, clock, calls :: !Differs(cfg, State(map[], zeroTime), map[], clock, calls))
            <==> forall c :: FullWhenIdle(ParamsOf(cfg, c))
  {
    if forall c :: FullWhenIdle(ParamsOf(cfg, c)) {
      forall zeroTime, clock, calls
        ensures !Differs(cfg, State(map[], zeroTime), map[], clock, calls)
      {
        if Ordered(clock, calls) && BelowCap(cfg, State(map[], zeroTime), calls) {
          SweepChangesNoDecision(cfg, zeroTime, clock, calls);
        }
      }
    } else {
      var c :| !FullWhenIdle(ParamsOf(cfg, c));
      var calls := SweepMatters(cfg, c);
    }
  }

  // --- The admission bound ----------------------------------------------------------

  ghost predicate AllSound(cfg: Config, s: State, clock: real) {
    forall k :: k in s.buckets ==> Sound(ParamsOf(cfg, k.class_), s.buckets[k], clock)
  }

  /** The tokens k could draw on at now: a missing bucket counts as full. */
  function Available(cfg: Config, s: State, k: Key, now: real): real {
    var p := ParamsOf(cfg, k.class_);
    if k in s.buckets then Refilled(p, s.buckets[k], now) else p.burst
  }

  /** How many calls for k were admitted. */
  function Admitted(calls: seq<Call>, ds: seq<Decision>, k: Key): nat
    requires |calls| == |ds|
  {
    if calls == [] then 0
    else (if calls[0].key == k && ds[0].ok then 1 else 0) + Admitted(calls[1..], ds[1..], k)
  }

  lemma {:induction false} RunLength(cfg: Config, s: State, calls: seq<Call>)
    ensures |Run(cfg, s, calls).1| == |calls|
    decreases |calls|
  {
    if calls != [] {
      RunLength(cfg, Allow(cfg, s, calls[0].key, calls[0].at).0, calls[1..]);
    }
  }

  /** A sweep never changes what a key of a full-when-idle class has available. */
  lemma SweepKeepsAvailable(cfg: Config, s: State, clock: real, k: Key, now: real)
    requires AllSound(cfg, s, clock) && clock <= now
    requires ParamsOf(cfg, k.class_).Limited() && FullWhenIdle(ParamsOf(cfg, k.class_))
    ensures Available(cfg, Sweep(s, now), k, now) == Available(cfg, s, k, now)
    ensures AllSound(cfg, Sweep(s, now), now)
  {
    if k in s.buckets && k !in Sweep(s, now).buckets {
      IdleIsFull(ParamsOf(cfg, k.class_), s.buckets[k], clock, now);
    }
  }

  /** One call: what k has available drops by one exactly when it is admitted. */
  lemma StepAvailable(cfg: Config, s: State, clock: real, call: Call, k: Key)
    requires AllSound(cfg, s, clock) && clock <= call.at
    requires ParamsOf(cfg, k.class_).Limited() && FullWhenIdle(ParamsOf(cfg, k.class_))
    ensures var (s', d) := Allow(cfg, s, call.key, call.at);
            && AllSound(cfg, s', call.at)
            && Available(cfg, s', k, call.at)
               == Available(cfg, s, k, call.at) - (if call.key == k && d.ok then 1.0 else 0.0)
  {
    var p := ParamsOf(cfg, call.key.class_);
    if p.Limited() {
      SweepKeepsAvailable(cfg, s, clock, k, call.at);
      var swept := Sweep(s, call.at);
      var b := if call.key in swept.buckets then swept.buckets[call.key] else Bucket(p.burst, call.at);
      TakeSpends(p, b, call.at);
      RefillBounds(p, Bucket(p.burst, call.at), call.at);
    }
  }

  /** The tokens that flow into a bucket between two times. */
  function Inflow(p: Params, from: real, to: real): real {
    (to - from) * p.PerSec()
  }

  lemma InflowSplits(p: Params, from: real, mid: real, to: real)
    ensures Inflow(p, from, to) == Inflow(p, from, mid) + Inflow(p, mid, to)
    ensures p.Limited() && from <= to ==> Inflow(p, from, to) >= 0.0
  {
    var rate := p.PerSec();
    assert (to - from) * rate == (mid - from) * rate + (to - mid) * rate;
    if p.Limited() && from <= to {
      RateScales(p);
      assert (to - from) * rate >= 0.0;
    }
  }

  lemma AvailableGrows(cfg: Config, s: State, k: Key, now: real, later: real)
    requires ParamsOf(cfg, k.class_).Limited() && now <= later
    ensures Available(cfg, s, k, later) <= Available(cfg, s, k, now) + Inflow(ParamsOf(cfg, k.class_), now, later)
  {
    var p := ParamsOf(cfg, k.class_);
    if k in s.buckets {
      RefillGrows(p, s.buckets[k], now, later);
    } else {
      InflowSplits(p, now, now, later);
    }
  }

  lemma AvailableBounds(cfg: Config, s: State, clock: real, k: Key, now: real)
    requires AllSound(cfg, s, clock) && clock <= now && ParamsOf(cfg, k.class_).Limited()
    ensures 0.0 <= Available(cfg, s, k, now) <= ParamsOf(cfg, k.class_).burst
  {
    if k in s.buckets {
      RefillBounds(ParamsOf(cfg, k.class_), s.buckets[k], now);
    }
  }

  /** Admissions are paid for: by what was available at the start plus what
      flowed in since. */
  lemma {:induction false} AdmissionsPaid(cfg: Config, s: State, clock: real, calls: seq<Call>, k: Key, end: real)
    requires AllSound(cfg, s, clock) && Ordered(clock, calls) && clock <= end
    requires forall i :: 0 <= i < |calls| ==> calls[i].at <= end
    requires ParamsOf(cfg, k.class_).Limited() && FullWhenIdle(ParamsOf(cfg, k.class_))
    ensures |Run(cfg, s, calls).1| == |calls|
    ensures Admitted(calls, Run(cfg, s, calls).1, k) as real
            <= Available(cfg, s, k, clock) + Inflow(ParamsOf(cfg, k.class_), clock, end)
    decreases |calls|
  {
    var p := ParamsOf(cfg, k.class_);
    if calls == [] {
      AvailableBounds(cfg, s, clock, k, clock);
      InflowSplits(p, clock, clock, end);
    } else {
      var at := calls[0].at;
      var (s1, d) := Allow(cfg, s, calls[0].key, at);
      StepAvailable(cfg, s, clock, calls[0], k);
      AvailableGrows(cfg, s, k, clock, at);
      assert Ordered(at, calls[1..]);
      AdmissionsPaid(cfg, s1, at, calls[1..], k, end);
      RunHead(cfg, s, calls, k);
      var spent: real := if calls[0].key == k && d.ok then 1.0 else 0.0;
      var rest := Admitted(calls[1..], Run(cfg, s1, calls[1..]).1, k);
      InflowSplits(p, clock, at, end);
      PaidStep(Admitted(calls, Run(cfg, s, calls).1, k), spent, rest,
               Available(cfg, s, k, clock), Available(cfg, s, k, at),
               Inflow(p, clock, at), Inflow(p, at, end));
    }
  }

  lemma PaidStep(all: nat, spent: real, rest: nat, before: real, then_: real, in1: real, in2: real)
    requires all as real == spent + rest as real && then_ <= before + in1 && rest as real <= then_ - spent + in2
    ensures all as real <= before + (in1 + in2)
  {}

  lemma RunHead(cfg: Config, s: State, calls: seq<Call>, k: Key)
    requires calls != []
    ensures var (s1, d) := Allow(cfg, s, calls[0].key, calls[0].at);
            && |Run(cfg, s, calls).1| == |calls| && |Run(cfg, s1, calls[1..]).1| == |calls| - 1
            && Admitted(calls, Run(cfg, s, calls).1, k)
               == (if calls[0].key == k && d.ok then 1 else 0) + Admitted(calls[1..], Run(cfg, s1, calls[1..]).1, k)
  {
    var (s1, d) := Allow(cfg, s, calls[0].key, calls[0].at);
    RunLength(cfg, s1, calls[1..]);
    assert Run(cfg, s, calls).1[1..] == Run(cfg, s1, calls[1..]).1;
  }

  lemma {:induction false} RunSound(cfg: Config, s: State, clock: real, calls: seq<Call>)
    requires AllSound(cfg, s, clock) && Ordered(clock, calls)
    ensures AllSound(cfg, Run(cfg, s, calls).0, if calls == [] then clock else calls[|calls| - 1].at)
    decreases |calls|
  {
    if calls != [] {
      var (s1, d) := Allow(cfg, s, calls[0].key, calls[0].at);
      AllowSound(cfg, s, clock, calls[0]);
      assert Ordered(calls[0].at, calls[1..]);
      RunSound(cfg, s1, calls[0].at, calls[1..]);
    }
  }

  lemma AllowSound(cfg: Config, s: State, clock: real, call: Call)
    requires AllSound(cfg, s, clock) && clock <= call.at
    ensures AllSound(cfg, Allow(cfg, s, call.key, call.at).0, call.at)
  {
    var p := ParamsOf(cfg, call.key.class_);
    if p.Limited() {
      var swept := Sweep(s, call.at);
      TakeSpends(p, if call.key in swept.buckets then swept.buckets[call.key] else Bucket(p.burst, call.at), call.at);
    }
  }

  /** The window's calls are made between from and to, and those before it by from. */
  ghost predicate Timed(clock: real, before: seq<Call>, window: seq<Call>, from: real, to: real) {
    && Ordered(clock, before) && (forall i :: 0 <= i < |before| ==> before[i].at <= from) && clock <= from
    && Ordered(from, window) && (forall i :: 0 <= i < |window| ==> window[i].at <= to) && from <= to
  }

  /** In this run k is admitted at most burst + rate * (to - from) times between from and to. */
  ghost predicate WithinBound(cfg: Config, zeroTime: real, before: seq<Call>, window: seq<Call>, k: Key, from: real,
                              to: real) {
    var s := Run(cfg, State(map[], zeroTime), before).0;
    && |Run(cfg, s, window).1| == |window|
    && Admitted(window, Run(cfg, s, window).1, k) as real
       <= ParamsOf(cfg, k.class_).burst + Inflow(ParamsOf(cfg, k.class_), from, to)
  }

  /** The bound holds of every run, with or without sweeps and a full map, when
      the client's class refills within ten minutes. */
  lemma AdmissionBound(cfg: Config, zeroTime: real, clock: real, before: seq<Call>, window: seq<Call>, k: Key,
                       from: real, to: real)
    requires ParamsOf(cfg, k.class_).Limited() && FullWhenIdle(ParamsOf(cfg, k.class_))
    requires Timed(clock, before, window, from, to)
    ensures WithinBound(cfg, zeroTime, before, window, k, from, to)
  {
    var s := Run(cfg, State(map[], zeroTime), before).0;
    RunSound(cfg, State(map[], zeroTime), clock, before);
    AdmissionsPaid(cfg, s, from, window, k, to);
    AvailableBounds(cfg, s, from, k, from);
  }

  // --- ... and where it fails -------------------------------------------------------

  /** k has v tokens at now, and no other key has a bucket. */
  ghost predicate Holds(cfg: Config, s: State, k: Key, now: real, v: real) {
    && s.lastSweep <= now
    && if s.buckets == map[] then v == ParamsOf(cfg, k.class_).burst
       else
         && k in s.buckets && s.buckets == Single(k, s.buckets[k])
         && v == if now - s.lastSweep >= SWEEP_EVERY && Idle(s.buckets[k], now) then ParamsOf(cfg, k.class_).burst
                 else Refilled(ParamsOf(cfg, k.class_), s.buckets[k], now)
  }

  /** The calls, made from s between from and to, all for k, are all admitted and lead to s'. */
  ghost predicate AdmitsAll(cfg: Config, s: State, calls: seq<Call>, k: Key, from: real, to: real, s': State) {
    && Timed(from, [], calls, from, to)
    && Run(cfg, s, calls).0 == s' && |Run(cfg, s, calls).1| == |calls|
    && Admitted(calls, Run(cfg, s, calls).1, k) == |calls|
  }

  lemma {:induction false} RunBoth(cfg: Config, s: State, calls: seq<Call>, more: seq<Call>, k: Key)
    ensures var t := Run(cfg, s, calls).0;
            && |Run(cfg, s, calls).1| == |calls| && |Run(cfg, t, more).1| == |more|
               && |Run(cfg, s, calls + more).1| == |calls + more|
            && Run(cfg, s, calls + more).0 == Run(cfg, t, more).0
            && Admitted(calls + more, Run(cfg, s, calls + more).1, k)
               == Admitted(calls, Run(cfg, s, calls).1, k) + Admitted(more, Run(cfg, t, more).1, k)
    decreases |calls|
  {
    RunLength(cfg, Run(cfg, s, calls).0, more);
    if calls == [] {
      assert calls + more == more;
    } else {
      RunHead(cfg, s, calls, k);
      RunHead(cfg, s, calls + more, k);
      assert (calls + more)[1..] == calls[1..] + more;
      RunBoth(cfg, Allow(cfg, s, calls[0].key, calls[0].at).0, calls[1..], more, k);
    }
  }

  lemma AdmitsBoth(cfg: Config, s: State, calls: seq<Call>, more: seq<Call>, k: Key, from: real, mid: real, to: real,
                   s1: State, s2: State)
    requires AdmitsAll(cfg, s, calls, k, from, mid, s1) && AdmitsAll(cfg, s1, more, k, mid, to, s2)
    ensures AdmitsAll(cfg, s, calls + more, k, from, to, s2)
  {
    RunBoth(cfg, s, calls, more, k);
  }

  lemma OneCall(cfg: Config, s: State, k: Key, now: real, v: real) returns (calls: seq<Call>, s': State)
    requires ParamsOf(cfg, k.class_).Limited() && Holds(cfg, s, k, now, v) && 1.0 <= v <= ParamsOf(cfg, k.class_).burst
    ensures |calls| == 1 && AdmitsAll(cfg, s, calls, k, now, now, s')
    ensures s'.buckets == Single(k, Bucket(v - 1.0, now)) && s'.lastSweep <= now
  {
    calls := [Call(k, now)];
    s' := Allow(cfg, s, k, now).0;
    var full := Bucket(ParamsOf(cfg, k.class_).burst, now);
    RefillBounds(ParamsOf(cfg, k.class_), full, now);
    if s.buckets == map[] {
      assert s'.buckets == Single(k, Bucket(v - 1.0, now));
    } else {
      CallSingle(cfg, s, k, s.buckets[k], s.buckets[k], now);
    }
    assert Run(cfg, s', calls[1..]) == (s', []);
    RunHead(cfg, s, calls, k);
  }

  lemma {:induction false} ManyCalls(cfg: Config, s: State, k: Key, now: real, v: real, n: nat)
    returns (calls: seq<Call>, s': State)
    requires ParamsOf(cfg, k.class_).Limited() && Holds(cfg, s, k, now, v) && 0 < n
             && n as real <= v <= ParamsOf(cfg, k.class_).burst
    ensures |calls| == n && AdmitsAll(cfg, s, calls, k, now, now, s')
    ensures s'.buckets == Single(k, Bucket(v - n as real, now)) && s'.lastSweep <= now
    decreases n
  {
    calls, s' := OneCall(cfg, s, k, now, v);
    if n > 1 {
      var s1 := s';
      RefillBounds(ParamsOf(cfg, k.class_), s1.buckets[k], now);
      var more;
      more, s' := ManyCalls(cfg, s1, k, now, v - 1.0, n - 1);
      AdmitsBoth(cfg, s, calls, more, k, now, now, now, s1, s');
      calls := calls + more;
    }
  }

  /** A pause of `wait`, then n calls. */
  lemma PauseThenCalls(cfg: Config, s: State, k: Key, x: real, last: real, wait: real, v: real, n: nat)
    returns (calls: seq<Call>, s': State)
    requires var p := ParamsOf(cfg, k.class_);
             && p.Limited() && s.buckets == Single(k, Bucket(x, last)) && s.lastSweep <= last && wait >= 0.0
             && v == (if wait > IDLE_LIMIT then p.burst else Fill(x, wait, p.PerSec(), p.burst))
             && 0 < n && n as real <= v
    ensures |calls| == n && AdmitsAll(cfg, s, calls, k, last, last + wait, s')
    ensures s'.buckets == Single(k, Bucket(v - n as real, last + wait)) && s'.lastSweep <= last + wait
  {
    assert last + wait - last == wait;
    calls, s' := ManyCalls(cfg, s, k, last + wait, v, n);
  }

  /** Ten idle minutes and a little more, in which at most `extra` flows in besides ten minutes' worth. */
  lemma PastIdle(p: Params, extra: real) returns (wait: real)
    requires p.Limited() && extra > 0.0
    ensures wait > IDLE_LIMIT && wait * p.PerSec() == 10.0 * p.perMinute + extra
  {
    RateScales(p);
    var more := extra / p.PerSec();
    assert more * p.PerSec() == extra;
    assert more > 0.0;
    wait := IDLE_LIMIT + more;
    assert wait * p.PerSec() == 600.0 * p.PerSec() + more * p.PerSec();
  }

  lemma TooMany(cfg: Config, calls: seq<Call>, k: Key, to: real, s': State)
    requires AdmitsAll(cfg, State(map[], 0.0), calls, k, 0.0, to, s')
    requires |calls| as real > ParamsOf(cfg, k.class_).burst + to * ParamsOf(cfg, k.class_).PerSec()
    ensures Timed(0.0, [], calls, 0.0, to) && !WithinBound(cfg, 0.0, [], calls, k, 0.0, to)
  {
    assert Inflow(ParamsOf(cfg, k.class_), 0.0, to) == to * ParamsOf(cfg, k.class_).PerSec();
  }

  /** Emptied to a fraction f, then full again too early: twice floor(burst). */
  lemma TwoBursts(cfg: Config, k: Key, n: nat, f: real, wait: real) returns (calls: seq<Call>, s2: State)
    requires ParamsOf(cfg, k.class_).Limited() && n > 0 && 0.0 <= f && ParamsOf(cfg, k.class_).burst == n as real + f
    requires wait > IDLE_LIMIT
    ensures |calls| == 2 * n && AdmitsAll(cfg, State(map[], 0.0), calls, k, 0.0, wait, s2)
  {
    var p, s := ParamsOf(cfg, k.class_), State(map[], 0.0);
    var first, s1 := ManyCalls(cfg, s, k, 0.0, p.burst, n);
    var second;
    second, s2 := PauseThenCalls(cfg, s1, k, f, 0.0, wait, p.burst, n);
    AdmitsBoth(cfg, s, first, second, k, 0.0, 0.0, wait, s1, s2);
    calls := first + second;
  }

  /** A full bucket is emptied completely: n calls, and one more when it is due. */
  lemma Emptied(cfg: Config, s: State, k: Key, now: real, n: nat, f: real, one: real)
    returns (calls: seq<Call>, s2: State)
    requires var p := ParamsOf(cfg, k.class_);
             && p.Limited() && n > 0 && 0.0 <= f && p.burst == n as real + f && Holds(cfg, s, k, now, p.burst)
             && 0.0 <= one <= IDLE_LIMIT && Fill(f, one, p.PerSec(), p.burst) == 1.0
    ensures |calls| == n + 1 && AdmitsAll(cfg, s, calls, k, now, now + one, s2)
    ensures s2.buckets == Single(k, Bucket(0.0, now + one)) && s2.lastSweep <= now + one
  {
    var first, s1 := ManyCalls(cfg, s, k, now, ParamsOf(cfg, k.class_).burst, n);
    var second;
    second, s2 := PauseThenCalls(cfg, s1, k, f, now, one, 1.0, 1);
    AdmitsBoth(cfg, s, first, second, k, now, now, now + one, s1, s2);
    calls := first + second;
  }

  lemma FullAfter(cfg: Config, s: State, k: Key, last: real, wait: real)
    requires s.buckets == Single(k, Bucket(0.0, last)) && s.lastSweep <= last && wait > IDLE_LIMIT
    ensures Holds(cfg, s, k, last + wait, ParamsOf(cfg, k.class_).burst)
  {}

  lemma Idles(cfg: Config, s: State, k: Key, from: real, to: real)
    requires from <= to
    ensures AdmitsAll(cfg, s, [], k, from, to, s)
  {}

  /** Emptied completely, then full again too early, twice over. */
  lemma TwoDrains(cfg: Config, k: Key, n: nat, f: real, one: real, wait: real) returns (calls: seq<Call>, s2: State)
    requires var p := ParamsOf(cfg, k.class_);
             && p.Limited() && n > 0 && 0.0 <= f && p.burst == n as real + f && wait > IDLE_LIMIT
             && 0.0 <= one <= IDLE_LIMIT && Fill(f, one, p.PerSec(), p.burst) == 1.0
    ensures |calls| == 2 * n + 2 && AdmitsAll(cfg, State(map[], 0.0), calls, k, 0.0, one + wait + one, s2)
  {
    var s := State(map[], 0.0);
    var first, s1 := Emptied(cfg, s, k, 0.0, n, f, one);
    FullAfter(cfg, s1, k, one, wait);
    Idles(cfg, s1, k, one, one + wait);
    AdmitsBoth(cfg, s, first, [], k, 0.0, one, one + wait, s1, s1);
    var second;
    second, s2 := Emptied(cfg, s1, k, one + wait, n, f, one);
    AdmitsBoth(cfg, s, first + [], second, k, 0.0, one + wait, one + wait + one, s1, s2);
    calls := first + [] + second;
  }

  lemma Inflows(rate: real, one: real, wait: real)
    ensures (one + wait + one) * rate == 2.0 * (one * rate) + wait * rate
  {}

  /** A class that admits calls and does not refill in ten minutes admits some
      client more often than the bound allows. */
  lemma BoundFails(cfg: Config, k: Key) returns (calls: seq<Call>, to: real)
    requires ParamsOf(cfg, k.class_).Limited() && !FullWhenIdle(ParamsOf(cfg, k.class_))
    ensures Timed(0.0, [], calls, 0.0, to) && !WithinBound(cfg, 0.0, [], calls, k, 0.0, to)
  {
    var p := ParamsOf(cfg, k.class_);
    var n: nat := p.burst.Floor;
    var f := p.burst - n as real;
    if f + 10.0 * p.perMinute < 1.0 {
      calls, to := BurstsBreak(cfg, k, n, f);
    } else {
      calls, to := DrainsBreak(cfg, k, n, f);
    }
  }

  lemma BurstsCount(n: nat, f: real, ten: real)
    requires n > 0 && f + ten < 1.0
    ensures (2 * n) as real > n as real + f + (ten + (1.0 - f - ten) / 2.0)
  {
    assert (2 * n) as real == n as real + n as real;
  }

  lemma DrainsCount(n: nat, f: real, ten: real, oneFlow: real, waitFlow: real)
    requires ten < n as real + f && oneFlow == 1.0 - f && waitFlow == ten + (n as real + f - ten) / 2.0
    ensures (2 * n + 2) as real > n as real + f + (2.0 * oneFlow + waitFlow)
  {
    assert (2 * n + 2) as real == n as real + n as real + 2.0;
  }

  lemma BurstsBreak(cfg: Config, k: Key, n: nat, f: real) returns (calls: seq<Call>, to: real)
    requires var p := ParamsOf(cfg, k.class_);
             p.Limited() && n > 0 && 0.0 <= f && p.burst == n as real + f && f + 10.0 * p.perMinute < 1.0
    ensures Timed(0.0, [], calls, 0.0, to) && !WithinBound(cfg, 0.0, [], calls, k, 0.0, to)
  {
    var p := ParamsOf(cfg, k.class_);
    to := PastIdle(p, (1.0 - f - 10.0 * p.perMinute) / 2.0);
    var s2;
    calls, s2 := TwoBursts(cfg, k, n, f, to);
    BurstsCount(n, f, 10.0 * p.perMinute);
    TooMany(cfg, calls, k, to, s2);
  }

  lemma DrainsBreak(cfg: Config, k: Key, n: nat, f: real) returns (calls: seq<Call>, to: real)
    requires var p := ParamsOf(cfg, k.class_);
             p.Limited() && n > 0 && 0.0 <= f < 1.0 && p.burst == n as real + f
             && 10.0 * p.perMinute < p.burst && f + 10.0 * p.perMinute >= 1.0
    ensures Timed(0.0, [], calls, 0.0, to) && !WithinBound(cfg, 0.0, [], calls, k, 0.0, to)
  {
    var p := ParamsOf(cfg, k.class_);
    var one := WaitForOne(p, f);
    var wait := PastIdle(p, (p.burst - 10.0 * p.perMinute) / 2.0);
    to := one + wait + one;
    var s2;
    calls, s2 := TwoDrains(cfg, k, n, f, one, wait);
    Inflows(p.PerSec(), one, wait);
    DrainsCount(n, f, 10.0 * p.perMinute, one * p.PerSec(), wait * p.PerSec());
    TooMany(cfg, calls, k, to, s2);
  }

  /** For every run and window, one client is admitted at most
      burst + rate * (to - from) times, exactly when its class refills within ten
      minutes or admits nothing. */
  lemma AdmissionBoundIff(cfg: Config, k: Key)
    requires ParamsOf(cfg, k.class_).Limited()
    ensures (forall zeroTime, clock, before, window, from, to :: Timed(clock, before, window, from, to) ==>
               WithinBound(cfg, zeroTime, before, window, k, from, to))
            <==> FullWhenIdle(ParamsOf(cfg, k.class_))
  {
    if FullWhenIdle(ParamsOf(cfg, k.class_)) {
      forall zeroTime, clock, before, window, from, to | Timed(clock, before, window, from, to)
        ensures WithinBound(cfg, zeroTime, before, window, k, from, to)
      {
        AdmissionBound(cfg, zeroTime, clock, before, window, k, from, to);
      }
    } else {
      var calls, to := BoundFails(cfg, k);
    }
  }

  /** Retry-After is exact: the bucket a refusal leaves behind admits again after
      waiting d precisely when d is at least the returned wait. */
  lemma WaitIsExact(p: Params, b: Bucket, now: real, d: real)
    requires p.Limited() && p.burst >= 1.0 && !Take(p, b, now).1.ok && d >= 0.0
    ensures var (left, refusal) := Take(p, b, now);
            Take(p, left, now + d).1.ok <==> d >= refusal.wait
  {
    var (left, refusal) := Take(p, b, now);
    var r := p.PerSec();
    assert refusal.wait * r == 1.0 - left.tokens;
    assert (now + d - left.last) * r == d * r;
    assert d >= refusal.wait ==> d * r >= refusal.wait * r;
    assert d < refusal.wait ==> d * r < refusal.wait * r;
  }
}
