/** A run of the send limiter (src/server/sendlimit.go) that fills the key map, is
    refused by the cap, and is then refused for a count it has not reached. */
module SendLimiterCap {
  import opened SendLimiter
  import opened TimeWindow

  const TARGET: Key := "k"

  /** The n-th of the other keys. */
  function Other(n: nat): Key {
    seq(n, _ => 'o')
  }

  lemma OtherIsNotTarget(n: nat)
    ensures Other(n) != TARGET
  {
    assert n == 1 ==> Other(n)[0] == 'o';
  }

  lemma OthersDiffer(n: nat, m: nat)
    requires n != m
    ensures Other(n) != Other(m)
  {
    assert |Other(n)| == n && |Other(m)| == m;
  }

  function Copies(t: Time, n: nat): seq<Time> {
    seq(n, _ => t)
  }

  lemma CopiesAfter(t: Time, n: nat, c: Time)
    requires t > c
    ensures After(Copies(t, n), c) == Copies(t, n)
  {
    AllAfter(Copies(t, n), c);
  }

  /** The target sent at 0 and n times at 50 minutes; of these, minute one still
      counts the later ones. */
  ghost predicate Sent(ts: seq<Time>, n: nat) {
    ts == [0] + Copies(50 * MINUTE, n)
  }

  lemma SentOnceMore(ts: seq<Time>, n: nat)
    requires Sent(ts, n)
    ensures Sent(ts + [50 * MINUTE], n + 1) && |ts| == n + 1
  {}

  lemma SentAllRecent(ts: seq<Time>, n: nat)
    requires Sent(ts, n)
    ensures After(ts, 50 * MINUTE - HOUR) == ts
  {
    assert forall t :: t in ts ==> t == 0 || t == 50 * MINUTE;
    AllAfter(ts, 50 * MINUTE - HOUR);
  }

  lemma SentSince(ts: seq<Time>, n: nat)
    requires Sent(ts, n)
    ensures After(ts, MINUTE) == Copies(50 * MINUTE, n)
  {
    assert After([0], MINUTE) == [];
    AfterConcat([0], Copies(50 * MINUTE, n), MINUTE);
    CopiesAfter(50 * MINUTE, n, MINUTE);
  }

  // --- One more call ----------------------------------------------------------------------

  /** A run that ends in sends, with the target's recorded sends h. */
  ghost predicate Leaves(perHour: nat, calls: seq<Call>, sends: Sends, h: seq<Time>)
    requires perHour >= 1
  {
    Run(perHour, calls).sends == sends && Times(Run(perHour, calls).log, TARGET) == h
  }

  /** A call below the cap whose key has only recent entries, fewer than the limit. */
  lemma RecordsBelowCap(perHour: nat, sends: Sends, k: Key, now: Time)
    requires perHour >= 1 && |sends| < MAX_BUCKETS
    requires After(ListOf(sends, k), now - HOUR) == ListOf(sends, k) && |ListOf(sends, k)| < perHour
    ensures Allow(perHour, sends, k, now) == (sends[k := ListOf(sends, k) + [now]], Decision(true, 0))
  {
    UnsmearedIsSame(ListOf(sends, k), now - HOUR);
    assert Compacted(sends, k, now - HOUR) == sends;
  }

  lemma StepBelowCap(perHour: nat, sys: System, call: Call, list: seq<Time>)
    requires perHour >= 1 && |sys.sends| < MAX_BUCKETS && ListOf(sys.sends, call.key) == list
    requires After(list, call.at - HOUR) == list && |list| < perHour
    ensures Step(perHour, sys, call) == System(sys.sends[call.key := list + [call.at]], sys.log + [call])
  {
    RecordsBelowCap(perHour, sys.sends, call.key, call.at);
  }

  lemma LoggedTarget(log: seq<Call>, log': seq<Call>, now: Time)
    requires log' == log + [Call(TARGET, now)]
    ensures Times(log', TARGET) == Times(log, TARGET) + [now]
  {
    TimesSnoc(log, Call(TARGET, now), TARGET);
  }

  /** One more send of the target, below the cap. */
  lemma TargetStep(perHour: nat, sys: System, ts: seq<Time>, now: Time) returns (next: System)
    requires perHour >= 1 && |sys.sends| < MAX_BUCKETS
    requires ListOf(sys.sends, TARGET) == ts && After(ts, now - HOUR) == ts && |ts| < perHour
    ensures next == Step(perHour, sys, Call(TARGET, now))
    ensures next.sends == sys.sends[TARGET := ts + [now]] && next.log == sys.log + [Call(TARGET, now)]
  {
    next := Step(perHour, sys, Call(TARGET, now));
    StepBelowCap(perHour, sys, Call(TARGET, now), ts);
  }

  lemma OtherStep(perHour: nat, sys: System, k: Key, now: Time)
    requires perHour >= 1 && |sys.sends| < MAX_BUCKETS && k !in sys.sends && k != TARGET
    ensures var next := Step(perHour, sys, Call(k, now));
            next.sends == sys.sends[k := [now]] && Times(next.log, TARGET) == Times(sys.log, TARGET)
  {
    StepBelowCap(perHour, sys, Call(k, now), []);
    TimesSnoc(sys.log, Call(k, now), TARGET);
    assert [] + [now] == [now];
  }

  lemma RunSnoc(perHour: nat, calls: seq<Call>, call: Call)
    requires perHour >= 1
    ensures Run(perHour, calls + [call]) == Step(perHour, Run(perHour, calls), call)
  {
    assert (calls + [call])[..|calls|] == calls;
  }

  /** One more send of the target, below the cap. */
  lemma TargetOnce(perHour: nat, calls: seq<Call>, sends: Sends, ts: seq<Time>, now: Time)
    requires perHour >= 1 && Leaves(perHour, calls, sends, ts) && |sends| < MAX_BUCKETS
    requires ListOf(sends, TARGET) == ts && After(ts, now - HOUR) == ts && |ts| < perHour
    ensures Leaves(perHour, calls + [Call(TARGET, now)], sends[TARGET := ts + [now]], ts + [now])
  {
    RunSnoc(perHour, calls, Call(TARGET, now));
    var next := TargetStep(perHour, Run(perHour, calls), ts, now);
    LoggedTarget(Run(perHour, calls).log, next.log, now);
  }

  /** A first send of another key, below the cap. */
  lemma OtherOnce(perHour: nat, calls: seq<Call>, sends: Sends, h: seq<Time>, k: Key, now: Time)
    requires perHour >= 1 && Leaves(perHour, calls, sends, h) && |sends| < MAX_BUCKETS
    requires k !in sends && k != TARGET
    ensures Leaves(perHour, calls + [Call(k, now)], sends[k := [now]], h)
  {
    RunSnoc(perHour, calls, Call(k, now));
    OtherStep(perHour, Run(perHour, calls), k, now);
  }

  // --- The run ------------------------------------------------------------------------------

  /** The target's list, and one send of each of n other keys, five minutes in. */
  ghost predicate Shape(sends: Sends, n: nat, ts: seq<Time>) {
    && |sends| == n + 1 && TARGET in sends && sends[TARGET] == ts
    && (forall m: nat :: m >= n ==> Other(m) !in sends)
    && (forall k :: k in sends && k != TARGET ==> sends[k] == [5 * MINUTE])
  }

  lemma FirstSend(perHour: nat) returns (calls: seq<Call>, sends: Sends)
    requires perHour >= 1
    ensures Leaves(perHour, calls, sends, [0]) && Shape(sends, 0, [0]) && Reachable(calls, 5 * MINUTE)
  {
    calls, sends := [] + [Call(TARGET, 0)], map[TARGET := [0]];
    TargetOnce(perHour, [], map[], [], 0);
    assert map[][TARGET := [0]] == sends && [] + [0] == [0];
    forall m: nat
      ensures Other(m) !in sends
    {
      OtherIsNotTarget(m);
    }
  }

  lemma ShapeGrows(sends: Sends, n: nat, ts: seq<Time>)
    requires Shape(sends, n, ts)
    ensures Other(n) !in sends && Other(n) != TARGET && Shape(sends[Other(n) := [5 * MINUTE]], n + 1, ts)
  {
    OtherIsNotTarget(n);
    forall m: nat | m >= n + 1
      ensures Other(m) !in sends[Other(n) := [5 * MINUTE]]
    {
      OthersDiffer(n, m);
    }
  }

  /** The target at 0, then n other keys at five minutes. */
  lemma {:induction false} FillUp(perHour: nat, n: nat) returns (calls: seq<Call>, sends: Sends)
    requires perHour >= 1 && n < MAX_BUCKETS
    ensures Leaves(perHour, calls, sends, [0]) && Shape(sends, n, [0]) && Reachable(calls, 5 * MINUTE)
    decreases n
  {
    if n == 0 {
      calls, sends := FirstSend(perHour);
    } else {
      calls, sends := FillUp(perHour, n - 1);
      ShapeGrows(sends, n - 1, [0]);
      OtherOnce(perHour, calls, sends, [0], Other(n - 1), 5 * MINUTE);
      calls, sends := calls + [Call(Other(n - 1), 5 * MINUTE)], sends[Other(n - 1) := [5 * MINUTE]];
    }
  }

  /** ... then the target m times at 50 minutes. */
  lemma {:induction false} SendMany(perHour: nat, n: nat, m: nat)
    returns (calls: seq<Call>, sends: Sends, ts: seq<Time>)
    requires m < perHour && n + 1 < MAX_BUCKETS
    ensures Leaves(perHour, calls, sends, ts) && Shape(sends, n, ts) && Sent(ts, m) && Reachable(calls, 50 * MINUTE)
    decreases m
  {
    if m == 0 {
      calls, sends := FillUp(perHour, n);
      ts := [0];
      NoneSent();
    } else {
      calls, sends, ts := SendMany(perHour, n, m - 1);
      calls, sends, ts := SendOneMore(perHour, n, m, calls, sends, ts);
    }
  }

  lemma SendOneMore(perHour: nat, n: nat, m: nat, calls: seq<Call>, sends: Sends, ts: seq<Time>)
    returns (calls': seq<Call>, sends': Sends, ts': seq<Time>)
    requires 1 <= m < perHour && n + 1 < MAX_BUCKETS && Leaves(perHour, calls, sends, ts)
    requires Shape(sends, n, ts) && Sent(ts, m - 1) && Reachable(calls, 50 * MINUTE)
    ensures Leaves(perHour, calls', sends', ts') && Shape(sends', n, ts') && Sent(ts', m)
            && Reachable(calls', 50 * MINUTE)
  {
    var call := Call(TARGET, 50 * MINUTE);
    SentOnceMore(ts, m - 1);
    SentAllRecent(ts, m - 1);
    TargetOnce(perHour, calls, sends, ts, 50 * MINUTE);
    LaterCall(calls, call);
    ShapeKept(sends, n, ts, ts + [50 * MINUTE]);
    ts' := ts + [50 * MINUTE];
    calls', sends' := calls + [call], sends[TARGET := ts'];
  }

  lemma NoneSent()
    ensures Sent([0], 0)
  {}

  lemma LaterCall(calls: seq<Call>, call: Call)
    requires Reachable(calls, call.at)
    ensures Reachable(calls + [call], call.at)
  {}

  lemma ShapeKept(sends: Sends, n: nat, ts: seq<Time>, ts': seq<Time>)
    requires Shape(sends, n, ts)
    ensures Shape(sends[TARGET := ts'], n, ts')
  {
    forall m: nat | m >= n
      ensures Other(m) !in sends[TARGET := ts']
    {
      OtherIsNotTarget(m);
    }
  }

  /** A full map in which no key is stale from minute 61 on. */
  ghost predicate FullMap(sends: Sends, ts: seq<Time>) {
    && |sends| == MAX_BUCKETS && TARGET in sends && sends[TARGET] == ts
    && forall k :: k in sends && k != TARGET ==> sends[k] == [5 * MINUTE] || sends[k] == [55 * MINUTE]
  }

  /** ... then one more key at 55 minutes fills the map. */
  lemma Fill(perHour: nat) returns (calls: seq<Call>, sends: Sends, ts: seq<Time>)
    requires perHour >= 2
    ensures Leaves(perHour, calls, sends, ts) && FullMap(sends, ts) && Sent(ts, perHour - 1)
    ensures Reachable(calls, 61 * MINUTE)
  {
    var n: nat :| n + 2 == MAX_BUCKETS;
    calls, sends, ts := SendMany(perHour, n, perHour - 1);
    OtherIsNotTarget(n);
    OtherOnce(perHour, calls, sends, ts, Other(n), 55 * MINUTE);
    calls, sends := calls + [Call(Other(n), 55 * MINUTE)], sends[Other(n) := [55 * MINUTE]];
  }

  lemma SmearedAt61(ts: seq<Time>, n: nat)
    requires Sent(ts, n) && n >= 1
    ensures Smeared(ts, MINUTE) == Copies(50 * MINUTE, n + 1)
  {
    SentSince(ts, n);
  }

  lemma NoneStale(sends: Sends, ts: seq<Time>)
    requires FullMap(sends, ts) && ts != [] && ts[|ts| - 1] > MINUTE
    ensures Sweep(sends, MINUTE) == sends
  {}

  lemma DecidesAtCap(perHour: nat, sends: Sends, compacted: Sends, k: Key, now: Time)
    requires perHour >= 1 && |After(ListOf(sends, k), now - HOUR)| < perHour
    requires Compacted(sends, k, now - HOUR) == compacted && |compacted| >= MAX_BUCKETS
             && Sweep(compacted, now - HOUR) == compacted
    ensures Allow(perHour, sends, k, now) == (compacted, Decision(false, MINUTE)) && CapRefuses(perHour, sends, k, now)
  {}

  /** At 61 minutes the full map refuses the target, after smearing its list into
      perHour copies of its newest send. */
  lemma CapRefusesAt61(perHour: nat, sends: Sends, ts: seq<Time>)
    requires perHour >= 2 && FullMap(sends, ts) && Sent(ts, perHour - 1)
    ensures Smears(perHour, sends, TARGET, 61 * MINUTE)
    ensures Allow(perHour, sends, TARGET, 61 * MINUTE).0 == sends[TARGET := Copies(50 * MINUTE, perHour)]
  {
    var copies := Copies(50 * MINUTE, perHour);
    var smeared := sends[TARGET := copies];
    SentSince(ts, perHour - 1);
    SmearedAt61(ts, perHour - 1);
    assert 61 * MINUTE - HOUR == MINUTE;
    assert Compacted(sends, TARGET, MINUTE) == smeared;
    NoneStale(smeared, copies);
    DecidesAtCap(perHour, sends, smeared, TARGET, 61 * MINUTE);
  }

  lemma RefusedStep(perHour: nat, sys: System, call: Call)
    requires perHour >= 1 && CapRefuses(perHour, sys.sends, call.key, call.at)
    ensures Step(perHour, sys, call) == System(Allow(perHour, sys.sends, call.key, call.at).0, sys.log)
  {}

  /** A run that ends with the target refused by the cap and its list smeared. */
  lemma SmearedRun(perHour: nat) returns (calls: seq<Call>, sends: Sends, h: seq<Time>)
    requires perHour >= 2
    ensures Leaves(perHour, calls, sends, h) && Reachable(calls, 61 * MINUTE)
    ensures ListOf(sends, TARGET) == Copies(50 * MINUTE, perHour) && Sent(h, perHour - 1)
  {
    var last := Call(TARGET, 61 * MINUTE);
    calls, sends, h := Fill(perHour);
    CapRefusesAt61(perHour, sends, h);
    RunSnoc(perHour, calls, last);
    RefusedStep(perHour, Run(perHour, calls), last);
    calls, sends := calls + [last], sends[TARGET := Copies(50 * MINUTE, perHour)];
  }

  /** Once more at 61 minutes: refused for its count, with one send fewer recorded
      in the hour than the limit. */
  lemma RefusedBelowLimit(perHour: nat) returns (calls: seq<Call>)
    requires perHour >= 2
    ensures Reachable(calls, 61 * MINUTE) && !Exact(perHour, calls, TARGET, 61 * MINUTE)
  {
    var sends, h;
    calls, sends, h := SmearedRun(perHour);
    CopiesAfter(50 * MINUTE, perHour, MINUTE);
    SentSince(h, perHour - 1);
    assert 61 * MINUTE - HOUR == MINUTE;
  }

  /** The limiter keeps its comment's promise on every run exactly when the limit
      is one send an hour: a larger limit has a run that smears a list. */
  lemma ExactIffOneAnHour(perHour: nat)
    requires perHour >= 1
    ensures (forall calls, k, now :: Reachable(calls, now) ==> Exact(perHour, calls, k, now)) <==> perHour == 1
  {
    if perHour == 1 {
      forall calls, k, now | Reachable(calls, now)
        ensures Exact(perHour, calls, k, now)
      {
        NoSmearAtOne(calls, k);
        AllowedIffBelowLimit(perHour, calls, k, now);
      }
    } else {
      var calls := RefusedBelowLimit(perHour);
    }
  }
}
