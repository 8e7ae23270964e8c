/** What the recovery requests of src/server/recovery.go decide, over the
    recovery records themselves instead of the pruned histories. */
module RecoveryDecisions {
  import opened Wrappers
  import opened TimeWindow
  import opened Recovery

  // --- Starting a recovery ------------------------------------------------------------

  /** A recovery of c is in progress and can complete from t on. */
  ghost predicate InProgress(s: State, c: Face, t: Time) {
    exists id :: id in s.recoveries && s.recoveries[id].commitment == c
              && s.recoveries[id].status == Pending && s.recoveries[id].executesAt == t
  }

  ghost predicate AnyInProgress(s: State, c: Face) {
    exists id :: id in s.recoveries && s.recoveries[id].commitment == c && s.recoveries[id].status == Pending
  }

  /** Some recovery of c completed at t, after since. */
  ghost predicate CompletedAt(s: State, c: Face, since: Time, t: Time) {
    t > since && exists id :: id in s.recoveries && s.recoveries[id].commitment == c
                           && s.recoveries[id].status == Completed && s.recoveries[id].closedAt == t
  }

  ghost predicate AnyCompleted(s: State, c: Face, since: Time) {
    exists id :: id in s.recoveries && s.recoveries[id].commitment == c
              && s.recoveries[id].status == Completed && s.recoveries[id].closedAt > since
  }

  ghost predicate LastCompletedAt(s: State, c: Face, since: Time, t: Time) {
    CompletedAt(s, c, since, t) && forall u :: CompletedAt(s, c, since, u) ==> u <= t
  }

  ghost predicate Sorted(ts: seq<Time>) {
    forall i, j :: 0 <= i < j < |ts| ==> ts[i] <= ts[j]
  }

  /** The completions a history lists happened, in this order and by now. */
  ghost predicate HistoryTrue(s: State, c: Face, clock: Time) {
    && Sorted(HistoryOf(s, c).completed)
    && forall t :: t in HistoryOf(s, c).completed ==> t <= clock && HappenedAt(s, c, t)
  }

  ghost predicate HappenedAt(s: State, c: Face, t: Time) {
    exists id :: id in s.recoveries && s.recoveries[id].commitment == c
              && s.recoveries[id].status == Completed && s.recoveries[id].closedAt == t
  }

  ghost predicate HistoriesTrue(s: State, clock: Time) {
    forall c :: HistoryTrue(s, c, clock)
  }

  lemma SortedSnoc(ts: seq<Time>, t: Time)
    requires Sorted(ts) && forall u :: u in ts ==> u <= t
    ensures Sorted(ts + [t])
  {
    assert forall i :: 0 <= i < |ts| ==> ts[i] in ts;
  }

  lemma {:induction false} AfterKeepsSorted(ts: seq<Time>, since: Time)
    requires Sorted(ts)
    ensures Sorted(After(ts, since))
  {
    if ts != [] {
      var k := |ts| - 1;
      AfterKeepsSorted(ts[..k], since);
      forall t | t in After(ts[..k], since)
        ensures t <= ts[k]
      {
        AfterMember(ts[..k], since, t);
        var i :| 0 <= i < k && ts[i] == t;
      }
      SortedSnoc(After(ts[..k], since), ts[k]);
    }
  }

  lemma HappenedStays(s: State, t: State, c: Face, at: Time)
    requires HappenedAt(s, c, at)
    requires forall id :: id in s.recoveries && s.recoveries[id].status != Pending ==>
               id in t.recoveries && t.recoveries[id] == s.recoveries[id]
    ensures HappenedAt(t, c, at)
  {
    var id :| id in s.recoveries && s.recoveries[id].commitment == c
           && s.recoveries[id].status == Completed && s.recoveries[id].closedAt == at;
    assert t.recoveries[id] == s.recoveries[id];
  }

  lemma CloseHistoryIs(s: State, id: Id, status: Status, who: Party, now: Time, writes: nat, c: Face)
    requires status != Pending
    ensures var before, t := HistoryOf(s, c).completed, CloseCut(s, id, status, who, now, writes);
            || HistoryOf(t, c).completed == before
            || (status == Completed && HistoryOf(t, c).completed == before + [now] && HappenedAt(t, c, now))
  {
    var t := CloseCut(s, id, status, who, now, writes);
    if HistoryOf(t, c).completed != HistoryOf(s, c).completed {
      assert t.recoveries[id].status == Completed && t.recoveries[id].closedAt == now;
    }
  }

  /** A step prunes a history, adds the completion it makes, or leaves it. */
  lemma StepHistory(cfg: Config, s: State, req: Request, now: Time, c: Face)
    ensures var before, after := HistoryOf(s, c).completed, HistoryOf(Step(cfg, s, req, now), c).completed;
            || after == before
            || after == After(before, now - cfg.cooldown)
            || (after == before + [now] && HappenedAt(Step(cfg, s, req, now), c, now))
  {
    match req
    case Start(_, _, _, _, _, _) =>
    case Cancel(id, holder, _, writes) =>
      if id in s.recoveries {
        var who := if holder == s.recoveries[id].oldHolder then OldKey else NewKey;
        CloseHistoryIs(s, id, Cancelled, who, now, writes, c);
      }
    case Complete(id, _, _, _, writes) => CloseHistoryIs(s, id, Completed, NewKey, now, writes, c);
  }

  lemma StepKeepsTrue(cfg: Config, s: State, clock: Time, req: Request, now: Time)
    requires HistoriesTrue(s, clock) && clock <= now && Admissible(s, req, now)
    ensures HistoriesTrue(Step(cfg, s, req, now), now)
  {
    var t := Step(cfg, s, req, now);
    forall id | id in s.recoveries && s.recoveries[id].status != Pending
      ensures id in t.recoveries && t.recoveries[id] == s.recoveries[id]
    {
      StepKeepsClosed(cfg, s, req, now, id);
    }
    forall c
      ensures HistoryTrue(t, c, now)
    {
      assert HistoryTrue(s, c, clock);
      var before := HistoryOf(s, c).completed;
      StepHistory(cfg, s, req, now, c);
      AfterKeepsSorted(before, now - cfg.cooldown);
      SortedSnoc(before, now);
      forall at | at in HistoryOf(t, c).completed
        ensures at <= now && HappenedAt(t, c, at)
      {
        AfterMember(before, now - cfg.cooldown, at);
        if at in before {
          HappenedStays(s, t, c, at);
        }
      }
    }
  }

  lemma {:induction false} RunKeepsTrue(cfg: Config, s: State, clock: Time, events: seq<Event>)
    requires HistoriesTrue(s, clock) && Plausible(cfg, s, clock, events)
    ensures HistoriesTrue(Run(cfg, s, events), EndOf(clock, events))
    decreases |events|
  {
    if events != [] {
      StepKeepsTrue(cfg, s, clock, events[0].req, events[0].now);
      RunKeepsTrue(cfg, Step(cfg, s, events[0].req, events[0].now), events[0].now, events[1..]);
    }
  }

  /** The last time kept by pruning is that of the last completion since. */
  lemma LastKept(cfg: Config, s: State, clock: Time, c: Face, since: Time)
    requires RemembersCompleted(cfg, s, clock) && HistoryTrue(s, c, clock) && clock - cfg.cooldown <= since
    ensures var kept := After(HistoryOf(s, c).completed, since);
            && (kept == [] <==> !AnyCompleted(s, c, since))
            && (kept != [] ==> forall t :: LastCompletedAt(s, c, since, t) <==> t == kept[|kept| - 1])
  {
    var completed := HistoryOf(s, c).completed;
    var kept := After(completed, since);
    AfterKeepsSorted(completed, since);
    if AnyCompleted(s, c, since) {
      var id :| id in s.recoveries && s.recoveries[id].commitment == c
             && s.recoveries[id].status == Completed && s.recoveries[id].closedAt > since;
      assert CompletedAt(s, c, since, s.recoveries[id].closedAt);
    }
    assert kept != [] ==> kept[0] in kept;
    forall t
      ensures t in kept <==> CompletedAt(s, c, since, t)
    {
      AfterMember(completed, since, t);
      if CompletedAt(s, c, since, t) {
        var id :| id in s.recoveries && s.recoveries[id].commitment == c
               && s.recoveries[id].status == Completed && s.recoveries[id].closedAt == t;
        assert CompletedAfter(s.recoveries[id], clock - cfg.cooldown);
      }
      if t in completed {
        assert HappenedAt(s, c, t);
      }
    }
    if kept != [] {
      var last := kept[|kept| - 1];
      assert last in kept;
      forall u | CompletedAt(s, c, since, u)
        ensures u <= last
      {
        assert u in kept;
        var i :| 0 <= i < |kept| && kept[i] == u;
      }
    }
  }

  /** The recovery in progress is the one the history names, if that is pending. */
  lemma ActiveIsPending(cfg: Config, s: State, clock: Time, c: Face)
    requires Inv(cfg, s, clock) && NamesOwn(s)
    ensures var active := HistoryOf(s, c).active;
            var pending := active != "" && active in s.recoveries && s.recoveries[active].status == Pending;
            && (pending <==> AnyInProgress(s, c))
            && (forall t :: InProgress(s, c, t) <==> pending && s.recoveries[active].executesAt == t)
  {
    var active := HistoryOf(s, c).active;
    assert Owns(s, c, active);
    forall id | id in s.recoveries && s.recoveries[id].commitment == c && s.recoveries[id].status == Pending
      ensures id == active
    {
      assert HistoryOf(s, s.recoveries[id].commitment).active == id;
    }
  }

  ghost predicate IsReviewed(factors: seq<Factor>) {
    factors != [] && factors[0] == OperatorReview
  }

  /** Refused while a recovery of c is in progress, with the time it can complete;
      without a review refused within the cooldown of the last completion, with its
      end, and then for too many cancellations; and accepted otherwise. */
  ghost predicate Decided(cfg: Config, s: State, c: Face, now: Time, reviewed: bool, refusal: Option<Refusal>) {
    var since := now - cfg.cooldown;
    var open := !AnyInProgress(s, c) && !reviewed;
    var cancelled := |CancelledAfter(s, c, since)|;
    && (forall t :: refusal == Some(RecoveryPending(t)) <==> InProgress(s, c, t))
    && (forall t :: refusal == Some(CoolingDown(t)) <==> open && LastCompletedAt(s, c, since, t - cfg.cooldown))
    && (refusal == Some(NeedsReview) <==> open && !AnyCompleted(s, c, since) && cancelled >= cfg.maxCancelled)
    && (refusal == None <==>
          !AnyInProgress(s, c) && (reviewed || (!AnyCompleted(s, c, since) && cancelled < cfg.maxCancelled)))
  }

  /** The cooldown and the cap alone, from the completions and the number of cancellations in the window. */
  ghost predicate Limited(cfg: Config, kept: seq<Time>, cancelled: nat, refusal: Option<Refusal>) {
    refusal == if kept != [] then Some(CoolingDown(kept[|kept| - 1] + cfg.cooldown))
               else if cancelled >= cfg.maxCancelled then Some(NeedsReview) else None
  }

  lemma RefusalIs(cfg: Config, s: State, req: Request, now: Time)
    requires req.Start? && req.factors != []
    ensures var h, since := HistoryOf(s, req.commitment), now - cfg.cooldown;
            var refusal := OpenRefusal(cfg, s, NewDoc(cfg, req, now));
            var pending := h.active != "" && h.active in s.recoveries && s.recoveries[h.active].status == Pending;
            if pending then refusal == Some(RecoveryPending(s.recoveries[h.active].executesAt))
            else if IsReviewed(req.factors) then refusal == None
            else Limited(cfg, After(h.completed, since), |After(h.cancelled, since)|, refusal)
  {}

  lemma LimitsDecide(cfg: Config, s: State, c: Face, now: Time, kept: seq<Time>, refusal: Option<Refusal>)
    requires var since := now - cfg.cooldown;
             && !AnyInProgress(s, c) && (forall t :: !InProgress(s, c, t))
             && (kept == [] <==> !AnyCompleted(s, c, since))
             && (kept != [] ==> forall t :: LastCompletedAt(s, c, since, t) <==> t == kept[|kept| - 1])
             && Limited(cfg, kept, |CancelledAfter(s, c, since)|, refusal)
    ensures Decided(cfg, s, c, now, false, refusal)
  {
    var since := now - cfg.cooldown;
    forall t ensures refusal == Some(CoolingDown(t)) <==> LastCompletedAt(s, c, since, t - cfg.cooldown) {
      assert LastCompletedAt(s, c, since, t - cfg.cooldown) ==> AnyCompleted(s, c, since);
    }
  }

  lemma DecidedByRecords(cfg: Config, s: State, clock: Time, req: Request, now: Time)
    requires Inv(cfg, s, clock) && HistoriesTrue(s, clock) && NamesOwn(s) && clock <= now
    requires req.Start? && Admissible(s, req, now)
    ensures Decided(cfg, s, req.commitment, now, IsReviewed(req.factors), OpenRefusal(cfg, s, NewDoc(cfg, req, now)))
  {
    var c, since := req.commitment, now - cfg.cooldown;
    RefusalIs(cfg, s, req, now);
    ActiveIsPending(cfg, s, clock, c);
    if !AnyInProgress(s, c) && !IsReviewed(req.factors) {
      assert HistoryTrue(s, c, clock);
      LastKept(cfg, s, clock, c, since);
      assert |CancelledAfter(s, c, since)| == |After(HistoryOf(s, c).cancelled, since)|;
      LimitsDecide(cfg, s, c, now, After(HistoryOf(s, c).completed, since), OpenRefusal(cfg, s, NewDoc(cfg, req, now)));
    }
  }

  /** In every state of a run without half writes, a start is decided by the records. */
  lemma StartDecided(cfg: Config, clock: Time, events: seq<Event>, req: Request, now: Time)
    requires Configured(cfg) && Plausible(cfg, Empty, clock, events) && NoneHalf(events)
    requires EndOf(clock, events) <= now && req.Start? && Admissible(Run(cfg, Empty, events), req, now)
    ensures var s := Run(cfg, Empty, events);
            Decided(cfg, s, req.commitment, now, IsReviewed(req.factors), OpenRefusal(cfg, s, NewDoc(cfg, req, now)))
  {
    EmptyInv(cfg, clock);
    var end := RunKeepsInv(cfg, Empty, clock, events);
    RunKeepsTrue(cfg, Empty, clock, events);
    RunKeepsNamesOwn(cfg, Empty, clock, events);
    DecidedByRecords(cfg, Run(cfg, Empty, events), end, req, now);
  }

  /** What an accepted start with no failing write puts into the store. */
  lemma StartedRecord(cfg: Config, s: State, req: Request, now: Time)
    requires req.Start? && req.writes >= 4 && OpenRefusal(cfg, s, NewDoc(cfg, req, now)).None?
    ensures var t := Step(cfg, s, req, now);
            && t.recoveries == s.recoveries[req.id := RecoveryDoc(
                 req.id, req.oldHolder, req.newHolder, req.commitment, req.factors,
                 Pending, now, now + cfg.delay, 0, None)]
            && (forall c :: c != req.commitment ==> HistoryOf(t, c) == HistoryOf(s, c))
            && t.pointers == s.pointers[req.oldHolder := req.id][req.newHolder := req.id]
  {}

  // --- Closing one ------------------------------------------------------------------------

  /** A cancel closes its recovery exactly when it is pending and the request is
      signed by the old key or the new one; it changes that record only. */
  lemma CancelIff(cfg: Config, s: State, id: Id, holder: DID, signed: bool, writes: nat, now: Time)
    requires writes > 0
    ensures var t := Step(cfg, s, Request.Cancel(id, holder, signed, writes), now);
            if && id in s.recoveries && s.recoveries[id].status == Pending && signed
               && (holder == s.recoveries[id].oldHolder || holder == s.recoveries[id].newHolder)
            then
              t.recoveries == s.recoveries[id := s.recoveries[id].(
                status := Cancelled, closedAt := now,
                closedBy := Some(if holder == s.recoveries[id].oldHolder then OldKey else NewKey))]
            else t == s
  {}

  /** A completion closes its recovery exactly when it is pending, its window had
      passed when the handler looked, the nullifier is not banned, and the request
      comes from an unissued session of the new key. */
  lemma CompleteIff(cfg: Config, s: State, id: Id, session: Option<SessionView>, checkedAt: Time, banned: bool,
                    writes: nat,
                    now: Time)
    requires writes > 0
    ensures var t := Step(cfg, s, Request.Complete(id, session, checkedAt, banned, writes), now);
            if && id in s.recoveries && s.recoveries[id].status == Pending && !banned
               && session.Some? && session.value.holder == s.recoveries[id].newHolder && !session.value.issued
               && checkedAt >= s.recoveries[id].executesAt
            then
              t.recoveries == s.recoveries[id := s.recoveries[id].(
                status := Completed, closedAt := now, closedBy := Some(NewKey))]
            else t == s
  {}
}
