/** What the two limiters decide, in the numbers of src/server/ratelimit.go and
    src/server/sendlimit.go. */
module LimiterRules {
  import T = TimeWindow
  import R = RateLimiter
  import S = SendLimiter

  // --- The token bucket --------------------------------------------------------------------

  /** The buckets a call finds: at most once a minute those unused for over ten minutes go. */
  ghost predicate Kept(s: R.State, k: R.Key, now: real) {
    k in s.buckets && (now - s.lastSweep < 60.0 || now - s.buckets[k].last <= 600.0)
  }

  ghost function KeptKeys(s: R.State, now: real): set<R.Key> {
    set k | k in s.buckets && Kept(s, k, now)
  }

  ghost function Limits(cfg: R.Config, k: R.Key): R.Params {
    if k.class_ == R.ClassStart then cfg.start else if k.class_ == R.ClassBegin then cfg.begin else cfg.default_
  }

  /** A minute's worth flows in per minute, up to the burst; a new client has the burst. */
  ghost function Tokens(cfg: R.Config, s: R.State, k: R.Key, now: real): real {
    var p := Limits(cfg, k);
    if !Kept(s, k, now) then p.burst
    else
      var filled := s.buckets[k].tokens + (now - s.buckets[k].last) * (p.perMinute / 60.0);
      if filled > p.burst then p.burst else filled
  }

  /** A call is admitted when its class has no limit, or a token is left and the
      client has a bucket or there is room for one. A refusal waits for the missing
      part of a token, or a minute for room. */
  lemma BucketDecision(cfg: R.Config, s: R.State, k: R.Key, now: real)
    ensures var p, tokens := Limits(cfg, k), Tokens(cfg, s, k, now);
            var (t, d) := R.Allow(cfg, s, k, now);
            var room := Kept(s, k, now) || |KeptKeys(s, now)| < 100_000;
            if p.perMinute <= 0.0 || p.burst <= 0.0 then d == R.Decision(true, 0.0) && t == s
            else if !room then d == R.Decision(false, 60.0) && t.buckets.Keys == KeptKeys(s, now)
            else
              && d == (if tokens >= 1.0 then R.Decision(true, 0.0)
                       else R.Decision(false, (1.0 - tokens) / (p.perMinute / 60.0)))
              && t.buckets.Keys == KeptKeys(s, now) + {k}
              && t.buckets[k] == R.Bucket(if tokens >= 1.0 then tokens - 1.0 else tokens, now)
              && forall q :: q in t.buckets && q != k ==> t.buckets[q] == s.buckets[q]
  {
    var p := Limits(cfg, k);
    if p.perMinute > 0.0 && p.burst > 0.0 {
      KeptBySweep(s, now);
      TakenIs(cfg, s, k, now);
    }
  }

  lemma KeptBySweep(s: R.State, now: real)
    ensures var swept := R.Sweep(s, now).buckets;
            && swept.Keys == KeptKeys(s, now) && |swept| == |KeptKeys(s, now)|
            && forall q :: q in swept ==> swept[q] == s.buckets[q]
  {
    var swept := R.Sweep(s, now).buckets;
    assert swept.Keys == KeptKeys(s, now);
    assert |swept.Keys| == |swept|;
  }

  lemma TakenIs(cfg: R.Config, s: R.State, k: R.Key, now: real)
    requires Limits(cfg, k).Limited()
    ensures var p, swept := R.ParamsOf(cfg, k.class_), R.Sweep(s, now).buckets;
            var tokens := Tokens(cfg, s, k, now);
            && p == Limits(cfg, k) && (k in swept <==> Kept(s, k, now))
            && R.Take(p, if k in swept then swept[k] else R.Bucket(p.burst, now), now)
               == if tokens >= 1.0 then (R.Bucket(tokens - 1.0, now), R.Decision(true, 0.0))
                  else (R.Bucket(tokens, now), R.Decision(false, (1.0 - tokens) / (p.perMinute / 60.0)))
  {
    var p, swept := Limits(cfg, k), R.Sweep(s, now).buckets;
    KeptBySweep(s, now);
    assert k in swept <==> k in KeptKeys(s, now);
    R.RefillBounds(p, R.Bucket(p.burst, now), now);
    var b := if k in swept then swept[k] else R.Bucket(p.burst, now);
    assert R.Refilled(p, b, now) == Tokens(cfg, s, k, now);
  }

  // --- The sliding window --------------------------------------------------------------------

  /** The sends that count: those of the last hour. */
  ghost function Counted(sends: S.Sends, k: S.Key, now: T.Time): seq<T.Time> {
    T.After(S.ListOf(sends, k), now - 3_600_000_000_000)
  }

  /** A key whose last send is at most an hour old. */
  ghost predicate Fresh(sends: S.Sends, k: S.Key, now: T.Time) {
    k in sends && sends[k] != [] && sends[k][|sends[k]| - 1] > now - 3_600_000_000_000
  }

  ghost function FreshKeys(sends: S.Sends, now: T.Time): set<S.Key> {
    set k | k in sends && Fresh(sends, k, now)
  }

  lemma SweptKeys(sends: S.Sends, k: S.Key, now: T.Time)
    ensures var swept := S.Sweep(S.Compacted(sends, k, now - S.HOUR), now - S.HOUR);
            swept.Keys == FreshKeys(sends, now)
  {
    var cutoff := now - S.HOUR;
    var compacted := S.Compacted(sends, k, cutoff);
    var swept := S.Sweep(compacted, cutoff);
    assert compacted.Keys == sends.Keys;
    forall q | q in sends
      ensures S.Stale(compacted[q], cutoff) <==> !Fresh(sends, q, now)
    {
      if q == k && sends[k] != [] {
        T.AfterShorter(sends[k], cutoff);
        WholeOrTail(sends[k], cutoff);
      }
    }
    assert swept.Keys == FreshKeys(sends, now);
  }

  /** Compaction leaves a slice's last entry what it was. */
  lemma WholeOrTail(ts: seq<T.Time>, cutoff: T.Time)
    requires ts != []
    ensures S.Smeared(ts, cutoff)[|ts| - 1] == ts[|ts| - 1]
  {
    var kept := T.After(ts, cutoff);
    if |kept| == |ts| {
      KeptAll(ts, cutoff);
    }
  }

  lemma {:induction false} KeptAll(ts: seq<T.Time>, cutoff: T.Time)
    requires |T.After(ts, cutoff)| == |ts|
    ensures T.After(ts, cutoff) == ts
  {
    if ts != [] {
      var k := |ts| - 1;
      T.AfterShorter(ts[..k], cutoff);
      KeptAll(ts[..k], cutoff);
      assert ts == ts[..k] + [ts[k]];
    }
  }

  /** A send is refused when perHour count already, until the first of them is an
      hour old; or, for a minute, when the map is full of keys that still count.
      Otherwise it is recorded after those that count. */
  lemma WindowDecision(perHour: nat, sends: S.Sends, k: S.Key, now: T.Time)
    requires perHour >= 1
    ensures var counted := Counted(sends, k, now);
            var (t, d) := S.Allow(perHour, sends, k, now);
            if |counted| >= perHour then d == S.Decision(false, counted[0] + 3_600_000_000_000 - now)
            else if |sends| >= 100_000 && |FreshKeys(sends, now)| >= 100_000 then d == S.Decision(false, 60_000_000_000)
            else d == S.Decision(true, 0) && S.ListOf(t, k) == counted + [now]
  {
    SweptKeys(sends, k, now);
    var compacted := S.Compacted(sends, k, now - S.HOUR);
    var swept := S.Sweep(compacted, now - S.HOUR);
    assert |compacted.Keys| == |compacted| && |swept.Keys| == |swept| && |sends.Keys| == |sends|;
    assert compacted.Keys == sends.Keys;
  }
}
