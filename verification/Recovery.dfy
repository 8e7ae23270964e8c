/** Identity recovery (src/server/recovery.go): one recovery in progress per
    identity, a cancel window, a cooldown after a completion and a cap on
    cancelled attempts, all kept although the history is pruned and although the
    store may fail after any write but the one between a record and its history. */
module Recovery {
  import opened Wrappers
  import opened TimeWindow

  type Id = string
  type DID = string
  type Face = string

  datatype Status = Pending | Cancelled | Completed
  datatype Factor = Identifier | Vouchers | Document | OperatorReview
  datatype Party = OldKey | NewKey

  datatype RecoveryDoc = RecoveryDoc(
    id: Id, oldHolder: DID, newHolder: DID, commitment: Face, factors: seq<Factor>,
    status: Status, createdAt: Time, executesAt: Time, closedAt: Time, closedBy: Option<Party>)
  {
    predicate Reviewed()
    {
      factors != [] && factors[0] == OperatorReview
    }
  }

  datatype History = History(active: Id, completed: seq<Time>, cancelled: seq<Time>)

  /** The defaults in LockoutConfig.withDefaults make all three positive. */
  datatype Config = Config(delay: Time, cooldown: Time, maxCancelled: nat)

  ghost predicate Configured(cfg: Config) {
    cfg.delay > 0 && cfg.cooldown > 0 && cfg.maxCancelled > 0
  }

  datatype Refusal = RecoveryPending(executesAt: Time) | CoolingDown(retryAfter: Time) | NeedsReview
  datatype CloseError = NotFound | Closed(doc: RecoveryDoc) | StoreError

  /** The session a completion is asked from. */
  datatype SessionView = SessionView(holder: DID, issued: bool)

  /** What the cancel and complete handlers answer. Accepted says whether this
      request was the one that closed the recovery. */
  datatype Answer =
    | RecoveryNotFound
    | SessionNotFound
    | NotAParty
    | BadSignature
    | WrongSession
    | RecoveryClosed
    | NotReady
    | NullifierRevoked
    | StoreFailed
    | Accepted(closed: bool)

  /** The recovery records of the lockout store. */
  datatype State = State(recoveries: map<Id, RecoveryDoc>, histories: map<Face, History>, pointers: map<DID, Id>)

  function HistoryOf(s: State, c: Face): History {
    if c in s.histories then s.histories[c] else History("", [], [])
  }

  // --- The transitions, on values ---------------------------------------------

  function OpenRefusal(cfg: Config, s: State, d: RecoveryDoc): Option<Refusal> {
    var h := HistoryOf(s, d.commitment);
    var window := d.createdAt - cfg.cooldown;
    var completed, cancelled := After(h.completed, window), After(h.cancelled, window);
    if h.active != "" && h.active in s.recoveries && s.recoveries[h.active].status == Pending then
      Some(RecoveryPending(s.recoveries[h.active].executesAt))
    else if d.Reviewed() then None
    else if completed != [] then Some(CoolingDown(completed[|completed| - 1] + cfg.cooldown))
    else if |cancelled| >= cfg.maxCancelled then Some(NeedsReview)
    else None
  }

  function Open(cfg: Config, s: State, d: RecoveryDoc): State {
    if OpenRefusal(cfg, s, d).Some? then s
    else
      var h := HistoryOf(s, d.commitment);
      var window := d.createdAt - cfg.cooldown;
      State(s.recoveries[d.id := d],
            s.histories[d.commitment := History(d.id, After(h.completed, window), After(h.cancelled, window))],
            s.pointers[d.oldHolder := d.id][d.newHolder := d.id])
  }

  /** The state after the writes that succeeded: the record, its history, and a
      pointer for either key. */
  function OpenCut(cfg: Config, s: State, d: RecoveryDoc, writes: nat): State {
    var full := Open(cfg, s, d);
    if OpenRefusal(cfg, s, d).Some? || writes == 0 then s
    else if writes == 1 then s.(recoveries := full.recoveries)
    else if writes == 2 then full.(pointers := s.pointers)
    else if writes == 3 then full.(pointers := s.pointers[d.oldHolder := d.id])
    else full
  }

  function CloseResult(s: State, id: Id, status: Status, who: Party, now: Time): Result<RecoveryDoc, CloseError> {
    if id !in s.recoveries then Failure(NotFound)
    else if s.recoveries[id].status != Pending then Failure(Closed(s.recoveries[id]))
    else Success(s.recoveries[id].(status := status, closedAt := now, closedBy := Some(who)))
  }

  function Close(s: State, id: Id, status: Status, who: Party, now: Time): State {
    match CloseResult(s, id, status, who, now)
    case Failure(_) => s
    case Success(d) =>
      var h := HistoryOf(s, d.commitment);
      s.(recoveries := s.recoveries[id := d],
         histories := s.histories[d.commitment := History(
           if h.active == id then "" else h.active,
           if status == Completed then h.completed + [now] else h.completed,
           if status == Completed then h.cancelled else h.cancelled + [now])])
  }

  /** The state after the writes that succeeded: the record and its history. */
  function CloseCut(s: State, id: Id, status: Status, who: Party, now: Time, writes: nat): State {
    var full := Close(s, id, status, who, now);
    if writes == 0 then s else if writes == 1 then s.(recoveries := full.recoveries) else full
  }

  // --- The imperative store ---------------------------------------------------

  class LockoutStore {
    var recoveries: map<Id, RecoveryDoc>
    var histories: map<Face, History>
    var pointers: map<DID, Id>

    function View(): State
      reads this
    {
      State(recoveries, histories, pointers)
    }

    method PruneSince(ts: seq<Time>, since: Time) returns (out: seq<Time>)
      ensures out == After(ts, since)
    {
      var buf := new Time[|ts|](i requires 0 <= i < |ts| => ts[i]);
      assert buf[..|ts|] == ts;
      var kept := CompactInPlace(buf, |ts|, since);
      out := buf[..kept];
    }

    /** The store fails after `writes` successful writes. */
    method OpenRecovery(cfg: Config, d: RecoveryDoc, writes: nat) returns (refusal: Option<Refusal>, ok: bool)
      requires d.factors != []
      modifies this
      ensures refusal == OpenRefusal(cfg, old(View()), d)
      ensures View() == OpenCut(cfg, old(View()), d, writes)
      ensures ok <==> refusal.Some? || writes >= 4
    {
      var h := HistoryOf(View(), d.commitment);
      if h.active != "" {
        if h.active in recoveries && recoveries[h.active].status == Pending {
          return Some(RecoveryPending(recoveries[h.active].executesAt)), true;
        }
      }
      var window := d.createdAt - cfg.cooldown;
      var completed := PruneSince(h.completed, window);
      var cancelled := PruneSince(h.cancelled, window);
      if d.factors[0] != OperatorReview {
        if |completed| > 0 {
          return Some(CoolingDown(completed[|completed| - 1] + cfg.cooldown)), true;
        }
        if |cancelled| >= cfg.maxCancelled {
          return Some(NeedsReview), true;
        }
      }
      refusal, ok := None, false;
      if writes == 0 {
        return;
      }
      recoveries := recoveries[d.id := d];
      if writes == 1 {
        return;
      }
      histories := histories[d.commitment := History(d.id, completed, cancelled)];
      if writes == 2 {
        return;
      }
      pointers := pointers[d.oldHolder := d.id];
      if writes == 3 {
        return;
      }
      pointers := pointers[d.newHolder := d.id];
      ok := true;
    }

    method CloseRecovery(id: Id, status: Status, who: Party, now: Time, writes: nat)
      returns (r: Result<RecoveryDoc, CloseError>)
      modifies this
      ensures var full := CloseResult(old(View()), id, status, who, now);
              r == if full.Success? && writes < 2 then Failure(StoreError) else full
      ensures View() == CloseCut(old(View()), id, status, who, now, writes)
    {
      if id !in recoveries {
        return Failure(NotFound);
      }
      var d := recoveries[id];
      if d.status != Pending {
        return Failure(Closed(d));
      }
      d := d.(status := status, closedAt := now, closedBy := Some(who));
      var h := HistoryOf(View(), d.commitment);
      if h.active == id {
        h := h.(active := "");
      }
      if status == Completed {
        h := h.(completed := h.completed + [now]);
      } else {
        h := h.(cancelled := h.cancelled + [now]);
      }
      if writes == 0 {
        return Failure(StoreError);
      }
      recoveries := recoveries[id := d];
      if writes == 1 {
        return Failure(StoreError);
      }
      histories := histories[d.commitment := h];
      r := Success(d);
    }

    /** handleRecoveryCancel; signed tells whether the holder's signature verifies. */
    method Cancel(cfg: Config, id: Id, holder: DID, signed: bool, now: Time, writes: nat) returns (answer: Answer)
      modifies this
      ensures View() == Step(cfg, old(View()), Request.Cancel(id, holder, signed, writes), now)
      ensures answer == CancelAnswer(old(View()), id, holder, signed, writes)
      ensures View() != old(View()) <==> answer.Accepted? || (answer.StoreFailed? && writes == 1)
    {
      if id !in recoveries {
        return RecoveryNotFound;
      }
      var d := recoveries[id];
      var who: Party;
      if holder == d.oldHolder {
        who := OldKey;
      } else if holder == d.newHolder {
        who := NewKey;
      } else {
        return NotAParty;
      }
      if !signed {
        return BadSignature;
      }
      ghost var before := View();
      CloseChanges(before, id, Cancelled, who, now, writes);
      var r := CloseRecovery(id, Cancelled, who, now, writes);
      if r == Failure(StoreError) {
        return StoreFailed;
      }
      if r.Failure? {
        return RecoveryClosed;
      }
      return Accepted(true);
    }

    /** handleRecoveryComplete up to the close. read is the recovery as it was
        found first, before its window is closed: between the two another request
        may have closed it. session is the one the completion is asked from. */
    method Complete(cfg: Config, id: Id, read: Option<RecoveryDoc>, session: Option<SessionView>,
                    checkedAt: Time, banned: bool, now: Time, writes: nat)
      returns (answer: Answer)
      requires read.Some? ==> id in recoveries && ReadBefore(read.value, recoveries[id])
      modifies this
      ensures View() == if read.None? then old(View())
                        else Step(cfg, old(View()), Request.Complete(id, session, checkedAt, banned, writes), now)
      ensures answer == CompleteAnswer(old(View()), id, read, session, checkedAt, banned, writes)
      ensures View() != old(View()) <==> answer == Accepted(true) || (answer.StoreFailed? && writes == 1)
    {
      if read.None? {
        return RecoveryNotFound;
      }
      var d := read.value;
      if session.None? {
        return SessionNotFound;
      }
      if session.value.holder != d.newHolder || session.value.issued {
        return WrongSession;
      }
      var retry := d.status == Completed;
      if d.status != Pending && !retry {
        return RecoveryClosed;
      }
      if checkedAt < d.executesAt {
        return NotReady;
      }
      if banned {
        return NullifierRevoked;
      }
      CloseChanges(View(), id, Completed, NewKey, now, writes);
      if !retry {
        var r := CloseRecovery(id, Completed, NewKey, now, writes);
        if r == Failure(StoreError) {
          return StoreFailed;
        }
        if r.Failure? {
          return RecoveryClosed;
        }
      }
      return Accepted(!retry);
    }
  }

  predicate WasPending(s: State, id: Id) {
    id in s.recoveries && s.recoveries[id].status == Pending
  }

  lemma CloseChanges(s: State, id: Id, status: Status, who: Party, now: Time, writes: nat)
    requires status != Pending
    ensures CloseCut(s, id, status, who, now, writes) != s <==> WasPending(s, id) && writes > 0
  {
    if WasPending(s, id) && writes > 0 {
      assert CloseCut(s, id, status, who, now, writes).recoveries[id] != s.recoveries[id];
    }
  }

  /** What closing a recovery answers. */
  function ClosingAnswer(s: State, id: Id, writes: nat): Answer {
    if !WasPending(s, id) then RecoveryClosed else if writes < 2 then StoreFailed else Accepted(true)
  }

  /** Unknown recovery, stranger, bad signature, and last that it is no longer pending. */
  function CancelAnswer(s: State, id: Id, holder: DID, signed: bool, writes: nat): Answer {
    if id !in s.recoveries then RecoveryNotFound
    else if holder != s.recoveries[id].oldHolder && holder != s.recoveries[id].newHolder then NotAParty
    else if !signed then BadSignature
    else ClosingAnswer(s, id, writes)
  }

  /** The order of complete's checks on the recovery it read. */
  function CompleteAnswer(s: State, id: Id, read: Option<RecoveryDoc>, session: Option<SessionView>,
                          checkedAt: Time, banned: bool, writes: nat): Answer {
    if read.None? then RecoveryNotFound
    else if session.None? then SessionNotFound
    else if session.value.holder != read.value.newHolder || session.value.issued then WrongSession
    else if read.value.status == Cancelled then RecoveryClosed
    else if checkedAt < read.value.executesAt then NotReady
    else if banned then NullifierRevoked
    else if read.value.status == Completed then Accepted(false)
    else ClosingAnswer(s, id, writes)
  }

  /** e is what has become of d: closing changes only a record's status and closing fields, once. */
  ghost predicate ReadBefore(d: RecoveryDoc, e: RecoveryDoc) {
    d.newHolder == e.newHolder && d.executesAt == e.executesAt && (d.status != Pending ==> e.status == d.status)
  }

  // --- Requests and runs ------------------------------------------------------

  /** A request's effect on the store, which fails after `writes` successful
      writes. Complete carries the time at which the handler compared the clock
      with ExecutesAt: it holds the lock only for the close, so a cancel may land
      in between. */
  datatype Request =
    | Start(id: Id, oldHolder: DID, newHolder: DID, commitment: Face, factors: seq<Factor>, writes: nat)
    | Cancel(id: Id, holder: DID, signed: bool, writes: nat)
    | Complete(id: Id, session: Option<SessionView>, checkedAt: Time, banned: bool, writes: nat)
  {
    /** The store fails just after a record was written and before its history was. */
    predicate Half()
    {
      writes == 1
    }
  }

  function NewDoc(cfg: Config, req: Request, now: Time): RecoveryDoc
    requires req.Start?
  {
    RecoveryDoc(req.id, req.oldHolder, req.newHolder, req.commitment, req.factors,
                Pending, now, now + cfg.delay, 0, None)
  }

  /** Ids come from a random source and are never reused or empty; a recovery
      is started with at least one factor; the clock check precedes the close. */
  ghost predicate Admissible(s: State, req: Request, now: Time) {
    match req
    case Start(id, _, _, _, factors, _) => id != "" && id !in s.recoveries && factors != []
    case Cancel(_, _, _, _) => true
    case Complete(_, _, checkedAt, _, _) => checkedAt <= now
  }

  function Step(cfg: Config, s: State, req: Request, now: Time): State {
    match req
    case Start(_, _, _, _, _, writes) => OpenCut(cfg, s, NewDoc(cfg, req, now), writes)
    case Cancel(id, holder, signed, writes) =>
      if id !in s.recoveries || !signed then s
      else if holder == s.recoveries[id].oldHolder then CloseCut(s, id, Cancelled, OldKey, now, writes)
      else if holder == s.recoveries[id].newHolder then CloseCut(s, id, Cancelled, NewKey, now, writes)
      else s
    case Complete(id, session, checkedAt, banned, writes) =>
      if id !in s.recoveries || session.None? then s
      else
        var d := s.recoveries[id];
        if session.value.holder != d.newHolder || session.value.issued || checkedAt < d.executesAt || banned then s
        else CloseCut(s, id, Completed, NewKey, now, writes)
  }

  datatype Event = Event(req: Request, now: Time)

  function Run(cfg: Config, s: State, events: seq<Event>): State
    decreases |events|
  {
    if events == [] then s else Run(cfg, Step(cfg, s, events[0].req, events[0].now), events[1..])
  }

  /** The clock never goes back and every request is admissible when it comes. */
  ghost predicate Plausible(cfg: Config, s: State, clock: Time, events: seq<Event>)
    decreases |events|
  {
    events == [] ||
    (clock <= events[0].now && Admissible(s, events[0].req, events[0].now) &&
     Plausible(cfg, Step(cfg, s, events[0].req, events[0].now), events[0].now, events[1..]))
  }

  const Empty: State := State(map[], map[], map[])

  // --- What every reachable state keeps ---------------------------------------

  ghost function CancelledAfter(s: State, c: Face, w: Time): set<Id> {
    set id | id in s.recoveries && s.recoveries[id].commitment == c && s.recoveries[id].status == Cancelled
             && s.recoveries[id].closedAt > w
  }

  ghost function UnreviewedCancelledIn(s: State, c: Face, from: Time, to: Time): set<Id> {
    set id | id in s.recoveries && s.recoveries[id].commitment == c && s.recoveries[id].status == Cancelled
             && !s.recoveries[id].Reviewed() && from <= s.recoveries[id].closedAt <= to
  }

  /** Each record is dated consistently, and a completion waits out the delay. */
  ghost predicate Dated(cfg: Config, s: State, clock: Time) {
    forall id :: id in s.recoveries ==>
      var d := s.recoveries[id];
      && d.id == id && id != ""
      && d.executesAt == d.createdAt + cfg.delay && d.createdAt <= clock
      && (d.status != Pending ==> d.createdAt <= d.closedAt <= clock)
      && (d.status == Completed ==> d.executesAt <= d.closedAt)
  }

  /** A pending recovery is the one its identity's history names as active. */
  ghost predicate NamedActive(s: State) {
    forall id :: id in s.recoveries && s.recoveries[id].status == Pending ==>
      HistoryOf(s, s.recoveries[id].commitment).active == id
  }

  /** Pruning only ever forgets what lies outside the current window. */
  ghost predicate Remembers(cfg: Config, s: State, clock: Time) {
    RemembersCompleted(cfg, s, clock) && RemembersCancelled(cfg, s, clock)
  }

  predicate CompletedAfter(d: RecoveryDoc, since: Time) {
    d.status == Completed && d.closedAt > since
  }

  ghost predicate RemembersCompleted(cfg: Config, s: State, clock: Time) {
    forall id :: id in s.recoveries && CompletedAfter(s.recoveries[id], clock - cfg.cooldown) ==>
      s.recoveries[id].closedAt in HistoryOf(s, s.recoveries[id].commitment).completed
  }

  ghost predicate RemembersCancelled(cfg: Config, s: State, clock: Time) {
    forall c, w :: w >= clock - cfg.cooldown ==> |CancelledAfter(s, c, w)| == |After(HistoryOf(s, c).cancelled, w)|
  }

  /** Everything of d's identity that is closed was closed by d's start. */
  ghost predicate StartedLast(s: State, d: RecoveryDoc) {
    forall e :: e in s.recoveries && s.recoveries[e].commitment == d.commitment && s.recoveries[e].status != Pending ==>
      s.recoveries[e].closedAt <= d.createdAt
  }

  /** The limits a recovery that no operator reviewed is admitted under. */
  ghost predicate UnderLimits(cfg: Config, s: State, d: RecoveryDoc) {
    && |CancelledAfter(s, d.commitment, d.createdAt - cfg.cooldown)| < cfg.maxCancelled
    && forall e :: (e in s.recoveries && s.recoveries[e].commitment == d.commitment
                    && s.recoveries[e].status == Completed) ==>
      s.recoveries[e].closedAt <= d.createdAt - cfg.cooldown
  }

  ghost predicate PendingAdmitted(cfg: Config, s: State) {
    forall id :: id in s.recoveries && s.recoveries[id].status == Pending ==>
      StartedLast(s, s.recoveries[id]) && (s.recoveries[id].Reviewed() || UnderLimits(cfg, s, s.recoveries[id]))
  }

  /** A completed recovery that no operator reviewed came at least a cooldown
      and a delay after every earlier completion of the same identity. */
  ghost predicate CooldownKept(cfg: Config, s: State) {
    forall a, b :: a in s.recoveries && b in s.recoveries && a != b ==>
      CompletionsApart(cfg, s.recoveries[a], s.recoveries[b])
  }

  ghost predicate CompletionsApart(cfg: Config, a: RecoveryDoc, b: RecoveryDoc) {
    a.commitment == b.commitment && a.status == b.status == Completed && !a.Reviewed() && b.closedAt <= a.closedAt ==>
      b.closedAt + cfg.cooldown + cfg.delay <= a.closedAt
  }

  /** Any span shorter than the cooldown holds at most maxCancelled
      cancellations of recoveries that no operator reviewed. */
  ghost predicate CancellationsCapped(cfg: Config, s: State) {
    forall c, from, to :: to - from < cfg.cooldown ==> |UnreviewedCancelledIn(s, c, from, to)| <= cfg.maxCancelled
  }

  ghost predicate Inv(cfg: Config, s: State, clock: Time) {
    && Dated(cfg, s, clock) && NamedActive(s) && Remembers(cfg, s, clock) && PendingAdmitted(cfg, s)
    && CooldownKept(cfg, s) && CancellationsCapped(cfg, s)
  }

  // --- Opening keeps the invariant --------------------------------------------

  ghost predicate Openable(cfg: Config, s: State, d: RecoveryDoc) {
    && d.status == Pending && d.id != "" && d.id !in s.recoveries
    && d.executesAt == d.createdAt + cfg.delay
    && OpenRefusal(cfg, s, d).None?
  }

  lemma OpenKeepsClosed(cfg: Config, s: State, d: RecoveryDoc)
    requires Openable(cfg, s, d)
    ensures forall c, w :: CancelledAfter(Open(cfg, s, d), c, w) == CancelledAfter(s, c, w)
    ensures forall c, from, to ::
      UnreviewedCancelledIn(Open(cfg, s, d), c, from, to) == UnreviewedCancelledIn(s, c, from, to)
  {}

  /** An accepted start finds no other recovery of the identity pending. */
  lemma OpenFindsNonePending(cfg: Config, s: State, d: RecoveryDoc, clock: Time)
    requires Inv(cfg, s, clock) && Openable(cfg, s, d)
    ensures forall id :: id in s.recoveries && s.recoveries[id].commitment == d.commitment ==>
      s.recoveries[id].status != Pending
  {
    forall id | id in s.recoveries && s.recoveries[id].commitment == d.commitment
      ensures s.recoveries[id].status != Pending
    {
      assert s.recoveries[id].status == Pending ==> HistoryOf(s, d.commitment).active == id;
    }
  }

  lemma OpenRemembers(cfg: Config, s: State, d: RecoveryDoc, clock: Time)
    requires Inv(cfg, s, clock) && Openable(cfg, s, d) && clock <= d.createdAt
    ensures Remembers(cfg, Open(cfg, s, d), d.createdAt)
  {
    var s' := Open(cfg, s, d);
    var h := HistoryOf(s, d.commitment);
    var window := d.createdAt - cfg.cooldown;
    OpenKeepsClosed(cfg, s, d);
    forall id | id in s'.recoveries && s'.recoveries[id].status == Completed && s'.recoveries[id].closedAt > window
      ensures s'.recoveries[id].closedAt in HistoryOf(s', s'.recoveries[id].commitment).completed
    {
      AfterMember(h.completed, window, s'.recoveries[id].closedAt);
    }
    forall c, w | w >= window
      ensures |CancelledAfter(s', c, w)| == |After(HistoryOf(s', c).cancelled, w)|
    {
      AfterAfter(h.cancelled, window, w);
      assert |CancelledAfter(s, c, w)| == |After(HistoryOf(s, c).cancelled, w)|;
    }
  }

  /** The limits hold for d when its start is not refused. */
  lemma OpenUnderLimits(cfg: Config, s: State, d: RecoveryDoc, clock: Time)
    requires Configured(cfg) && Inv(cfg, s, clock) && Openable(cfg, s, d) && clock <= d.createdAt
    ensures StartedLast(s, d) && (d.Reviewed() || UnderLimits(cfg, s, d))
  {
    var h := HistoryOf(s, d.commitment);
    var window := d.createdAt - cfg.cooldown;
    if !d.Reviewed() {
      assert |CancelledAfter(s, d.commitment, window)| == |After(h.cancelled, window)|;
      forall e | e in s.recoveries && s.recoveries[e].commitment == d.commitment && s.recoveries[e].status == Completed
        ensures s.recoveries[e].closedAt <= window
      {
        AfterMember(h.completed, window, s.recoveries[e].closedAt);
      }
    }
  }

  /** A pending record changes nothing for the limits of another. */
  lemma OpenKeepsLimits(cfg: Config, s: State, d: RecoveryDoc, p: RecoveryDoc)
    requires Openable(cfg, s, d)
    ensures StartedLast(s, p) ==> StartedLast(Open(cfg, s, d), p)
    ensures UnderLimits(cfg, s, p) ==> UnderLimits(cfg, Open(cfg, s, d), p)
  {
    OpenKeepsClosed(cfg, s, d);
  }

  lemma OpenAdmits(cfg: Config, s: State, d: RecoveryDoc, clock: Time)
    requires Configured(cfg) && Inv(cfg, s, clock) && Openable(cfg, s, d) && clock <= d.createdAt
    ensures PendingAdmitted(cfg, Open(cfg, s, d))
  {
    var s' := Open(cfg, s, d);
    OpenUnderLimits(cfg, s, d, clock);
    forall id | id in s'.recoveries && s'.recoveries[id].status == Pending
      ensures var p := s'.recoveries[id];
              StartedLast(s', p) && (p.Reviewed() || UnderLimits(cfg, s', p))
    {
      OpenKeepsLimits(cfg, s, d, s'.recoveries[id]);
    }
  }

  lemma OpenKeepsInv(cfg: Config, s: State, d: RecoveryDoc, clock: Time)
    requires Configured(cfg) && Inv(cfg, s, clock) && Openable(cfg, s, d) && clock <= d.createdAt
    ensures Inv(cfg, Open(cfg, s, d), d.createdAt)
  {
    OpenKeepsClosed(cfg, s, d);
    OpenFindsNonePending(cfg, s, d, clock);
    OpenRemembers(cfg, s, d, clock);
    OpenAdmits(cfg, s, d, clock);
  }

  // --- Closing keeps the invariant --------------------------------------------

  ghost predicate Closable(s: State, id: Id, status: Status, now: Time) {
    && id in s.recoveries && s.recoveries[id].status == Pending && status != Pending
    && (status == Completed ==> s.recoveries[id].executesAt <= now)
  }

  lemma CloseCancelledAfter(s: State, id: Id, status: Status, who: Party, now: Time, c: Face, w: Time)
    requires Closable(s, id, status, now)
    ensures var added := status == Cancelled && c == s.recoveries[id].commitment && now > w;
            && id !in CancelledAfter(s, c, w)
            && CancelledAfter(Close(s, id, status, who, now), c, w)
               == CancelledAfter(s, c, w) + if added then {id} else {}
  {}

  lemma CloseRemembersCompleted(cfg: Config, s: State, id: Id, status: Status, who: Party, clock: Time, now: Time)
    requires RemembersCompleted(cfg, s, clock) && Closable(s, id, status, now) && clock <= now
    ensures RemembersCompleted(cfg, Close(s, id, status, who, now), now)
  {}

  lemma CloseHistory(s: State, id: Id, status: Status, who: Party, now: Time, c: Face)
    requires Closable(s, id, status, now)
    ensures var added := c == s.recoveries[id].commitment && status == Cancelled;
            HistoryOf(Close(s, id, status, who, now), c).cancelled
            == HistoryOf(s, c).cancelled + if added then [now] else []
  {}

  lemma CloseCounts(s: State, id: Id, status: Status, who: Party, now: Time, c: Face, w: Time)
    requires Closable(s, id, status, now) && |CancelledAfter(s, c, w)| == |After(HistoryOf(s, c).cancelled, w)|
    ensures var s' := Close(s, id, status, who, now);
            |CancelledAfter(s', c, w)| == |After(HistoryOf(s', c).cancelled, w)|
  {
    var h := HistoryOf(s, c).cancelled;
    CloseCancelledAfter(s, id, status, who, now, c, w);
    CloseHistory(s, id, status, who, now, c);
    AfterSnoc(h, now, w);
    assert h + [] == h;
  }

  lemma CloseRemembersCancelled(cfg: Config, s: State, id: Id, status: Status, who: Party, clock: Time, now: Time)
    requires Configured(cfg) && RemembersCancelled(cfg, s, clock) && Closable(s, id, status, now) && clock <= now
    ensures RemembersCancelled(cfg, Close(s, id, status, who, now), now)
  {
    var s' := Close(s, id, status, who, now);
    forall c, w | w >= now - cfg.cooldown
      ensures |CancelledAfter(s', c, w)| == |After(HistoryOf(s', c).cancelled, w)|
    {
      assert |CancelledAfter(s, c, w)| == |After(HistoryOf(s, c).cancelled, w)|;
      CloseCounts(s, id, status, who, now, c, w);
    }
  }

  /** Closing id touches no other identity's limits. */
  lemma CloseKeepsLimits(cfg: Config, s: State, id: Id, status: Status, who: Party, now: Time, p: RecoveryDoc)
    requires Closable(s, id, status, now) && p.commitment != s.recoveries[id].commitment
    ensures StartedLast(s, p) ==> StartedLast(Close(s, id, status, who, now), p)
    ensures UnderLimits(cfg, s, p) ==> UnderLimits(cfg, Close(s, id, status, who, now), p)
  {
    CloseCancelledAfter(s, id, status, who, now, p.commitment, p.createdAt - cfg.cooldown);
  }

  lemma CloseKeepsAdmitted(cfg: Config, s: State, id: Id, status: Status, who: Party, clock: Time, now: Time)
    requires Inv(cfg, s, clock) && Closable(s, id, status, now)
    ensures PendingAdmitted(cfg, Close(s, id, status, who, now))
  {
    var s' := Close(s, id, status, who, now);
    forall p | p in s'.recoveries && s'.recoveries[p].status == Pending
      ensures var d := s'.recoveries[p];
              StartedLast(s', d) && (d.Reviewed() || UnderLimits(cfg, s', d))
    {
      var d := s.recoveries[p];
      assert HistoryOf(s, d.commitment).active == p && HistoryOf(s, s.recoveries[id].commitment).active == id;
      CloseKeepsLimits(cfg, s, id, status, who, now, d);
    }
  }

  /** Completing: everything that completed before the recovery was admitted
      lies a cooldown before its start, and the delay comes on top. */
  lemma CloseKeepsCooldown(cfg: Config, s: State, id: Id, status: Status, who: Party, clock: Time, now: Time)
    requires Configured(cfg) && Inv(cfg, s, clock) && Closable(s, id, status, now) && clock <= now
    ensures CooldownKept(cfg, Close(s, id, status, who, now))
  {
    var s' := Close(s, id, status, who, now);
    var d := s.recoveries[id];
    assert StartedLast(s, d) && (d.Reviewed() || UnderLimits(cfg, s, d));
    forall a, b | a in s'.recoveries && b in s'.recoveries && a != b
      ensures CompletionsApart(cfg, s'.recoveries[a], s'.recoveries[b])
    {
      if a != id && b != id {
        assert CompletionsApart(cfg, s.recoveries[a], s.recoveries[b]);
      }
    }
  }

  lemma CloseUnreviewedIn(s: State, id: Id, status: Status, who: Party, now: Time, c: Face, from: Time, to: Time)
    requires Closable(s, id, status, now)
    ensures var d := s.recoveries[id];
            var added := status == Cancelled && c == d.commitment && !d.Reviewed() && from <= now <= to;
            UnreviewedCancelledIn(Close(s, id, status, who, now), c, from, to)
            == UnreviewedCancelledIn(s, c, from, to) + if added then {id} else {}
  {}

  /** The cancellations of a short span that ends after d's start were all in
      the window d was admitted under. */
  lemma SpanInsideWindow(cfg: Config, s: State, d: RecoveryDoc, from: Time, to: Time)
    requires StartedLast(s, d) && UnderLimits(cfg, s, d) && d.createdAt <= to && to - from < cfg.cooldown
    ensures |UnreviewedCancelledIn(s, d.commitment, from, to)| < cfg.maxCancelled
  {
    SubsetSize(UnreviewedCancelledIn(s, d.commitment, from, to),
               CancelledAfter(s, d.commitment, d.createdAt - cfg.cooldown));
  }

  lemma CloseKeepsCap(cfg: Config, s: State, id: Id, status: Status, who: Party, clock: Time, now: Time, c: Face,
                      from: Time, to: Time)
    requires Configured(cfg) && Inv(cfg, s, clock) && Closable(s, id, status, now) && clock <= now
             && to - from < cfg.cooldown
    ensures |UnreviewedCancelledIn(Close(s, id, status, who, now), c, from, to)| <= cfg.maxCancelled
  {
    var d := s.recoveries[id];
    CloseUnreviewedIn(s, id, status, who, now, c, from, to);
    assert |UnreviewedCancelledIn(s, c, from, to)| <= cfg.maxCancelled;
    if c == d.commitment && !d.Reviewed() && from <= now <= to {
      assert UnderLimits(cfg, s, d);
      SpanInsideWindow(cfg, s, d, from, to);
    }
  }

  lemma {:induction false} SubsetSize<T>(a: set<T>, b: set<T>)
    requires a <= b
    ensures |a| <= |b|
  {
    if a != {} {
      var x :| x in a;
      SubsetSize(a - {x}, b - {x});
    }
  }

  lemma CloseKeepsInv(cfg: Config, s: State, id: Id, status: Status, who: Party, clock: Time, now: Time)
    requires Configured(cfg) && Inv(cfg, s, clock) && Closable(s, id, status, now) && clock <= now
    ensures Inv(cfg, Close(s, id, status, who, now), now)
  {
    var s' := Close(s, id, status, who, now);
    CloseRemembersCompleted(cfg, s, id, status, who, clock, now);
    CloseRemembersCancelled(cfg, s, id, status, who, clock, now);
    CloseKeepsAdmitted(cfg, s, id, status, who, clock, now);
    CloseKeepsCooldown(cfg, s, id, status, who, clock, now);
    forall c, from, to | to - from < cfg.cooldown
      ensures |UnreviewedCancelledIn(s', c, from, to)| <= cfg.maxCancelled
    {
      CloseKeepsCap(cfg, s, id, status, who, clock, now, c, from, to);
    }
    assert NamedActive(s') by {
      forall p | p in s'.recoveries && s'.recoveries[p].status == Pending
        ensures HistoryOf(s', s'.recoveries[p].commitment).active == p
      {
        assert HistoryOf(s, s.recoveries[p].commitment).active == p;
      }
    }
  }

  // --- Every run ----------------------------------------------------------------

  /** Time passing alone keeps the invariant. */
  lemma ClockKeepsInv(cfg: Config, s: State, clock: Time, now: Time)
    requires Inv(cfg, s, clock) && clock <= now
    ensures Inv(cfg, s, now)
  {}

  /** The pointers play no part in the limits. */
  lemma PointersDoNotMatter(cfg: Config, s: State, clock: Time, pointers: map<DID, Id>)
    requires Inv(cfg, s, clock)
    ensures Inv(cfg, s.(pointers := pointers), clock)
  {
    var t := s.(pointers := pointers);
    assert forall c, w :: CancelledAfter(t, c, w) == CancelledAfter(s, c, w);
    assert forall c, from, to :: UnreviewedCancelledIn(t, c, from, to) == UnreviewedCancelledIn(s, c, from, to);
    forall id | id in t.recoveries && t.recoveries[id].status == Pending
      ensures var d := t.recoveries[id]; StartedLast(t, d) && (d.Reviewed() || UnderLimits(cfg, t, d))
    {
      assert StartedLast(s, s.recoveries[id]);
    }
    forall c, w | w >= clock - cfg.cooldown
      ensures |CancelledAfter(t, c, w)| == |After(HistoryOf(t, c).cancelled, w)|
    {
      assert |CancelledAfter(s, c, w)| == |After(HistoryOf(s, c).cancelled, w)|;
    }
  }

  lemma StartKeepsInv(cfg: Config, s: State, clock: Time, d: RecoveryDoc, writes: nat)
    requires Configured(cfg) && Inv(cfg, s, clock) && clock <= d.createdAt && writes != 1
    requires d.status == Pending && d.id != "" && d.id !in s.recoveries && d.executesAt == d.createdAt + cfg.delay
    ensures Inv(cfg, OpenCut(cfg, s, d, writes), d.createdAt)
  {
    ClockKeepsInv(cfg, s, clock, d.createdAt);
    if OpenRefusal(cfg, s, d).None? && writes > 0 {
      OpenKeepsInv(cfg, s, d, clock);
      PointersDoNotMatter(cfg, Open(cfg, s, d), d.createdAt, OpenCut(cfg, s, d, writes).pointers);
    }
  }

  lemma StepKeepsInv(cfg: Config, s: State, clock: Time, req: Request, now: Time)
    requires Configured(cfg) && Inv(cfg, s, clock) && clock <= now && Admissible(s, req, now) && !req.Half()
    ensures Inv(cfg, Step(cfg, s, req, now), now)
  {
    var s' := Step(cfg, s, req, now);
    ClockKeepsInv(cfg, s, clock, now);
    match req
    case Start(_, _, _, _, _, writes) =>
      StartKeepsInv(cfg, s, clock, NewDoc(cfg, req, now), writes);
    case Cancel(id, holder, _, _) =>
      if s' != s {
        var who := if holder == s.recoveries[id].oldHolder then OldKey else NewKey;
        CloseKeepsInv(cfg, s, id, Cancelled, who, clock, now);
      }
    case Complete(id, _, _, _, _) =>
      if s' != s {
        CloseKeepsInv(cfg, s, id, Completed, NewKey, clock, now);
      }
  }

  lemma EmptyInv(cfg: Config, clock: Time)
    requires Configured(cfg)
    ensures Inv(cfg, Empty, clock)
  {
    forall c, w
      ensures CancelledAfter(Empty, c, w) == {} && After(HistoryOf(Empty, c).cancelled, w) == []
    {}
    forall c, from, to
      ensures UnreviewedCancelledIn(Empty, c, from, to) == {}
    {}
  }

  lemma {:induction false} RunKeepsInv(cfg: Config, s: State, clock: Time, events: seq<Event>) returns (end: Time)
    requires Configured(cfg) && Inv(cfg, s, clock) && Plausible(cfg, s, clock, events) && NoneHalf(events)
    ensures Inv(cfg, Run(cfg, s, events), end) && end == EndOf(clock, events)
    decreases |events|
  {
    if events == [] {
      end := clock;
    } else {
      StepKeepsInv(cfg, s, clock, events[0].req, events[0].now);
      end := RunKeepsInv(cfg, Step(cfg, s, events[0].req, events[0].now), events[0].now, events[1..]);
    }
  }

  /** No request's writes stopped between a record and its history. */
  ghost predicate NoneHalf(events: seq<Event>) {
    forall e :: e in events ==> !e.req.Half()
  }

  ghost predicate OnePendingEach(s: State) {
    forall a, b | a in s.recoveries && b in s.recoveries && s.recoveries[a].commitment == s.recoveries[b].commitment ::
      s.recoveries[a].status == s.recoveries[b].status == Pending ==> a == b
  }

  /** In every state of a run whose writes stopped anywhere but between a record
      and its history: the cooldown and the cap hold over the whole
      record, although the history was pruned on every accepted start; at most
      one recovery of an identity is pending, the one its history names; and no
      recovery completed before its own ExecutesAt. */
  lemma RecoveryLimitsHold(cfg: Config, clock: Time, events: seq<Event>)
    requires Configured(cfg) && Plausible(cfg, Empty, clock, events) && NoneHalf(events)
    ensures var s := Run(cfg, Empty, events);
            && CooldownKept(cfg, s) && CancellationsCapped(cfg, s) && NamedActive(s)
            && OnePendingEach(s)
            && (forall a :: a in s.recoveries && s.recoveries[a].status == Completed ==>
                  s.recoveries[a].closedAt >= s.recoveries[a].createdAt + cfg.delay)
  {
    EmptyInv(cfg, clock);
    var end := RunKeepsInv(cfg, Empty, clock, events);
    NamedIsOne(Run(cfg, Empty, events));
  }

  lemma StepKeepsClosed(cfg: Config, s: State, req: Request, now: Time, id: Id)
    requires Admissible(s, req, now) && id in s.recoveries && s.recoveries[id].status != Pending
    ensures var s' := Step(cfg, s, req, now); id in s'.recoveries && s'.recoveries[id] == s.recoveries[id]
  {}

  /** A closed recovery never changes again, whatever arrives later and wherever
      its writes stop: a cancel and a completion cannot both take effect. */
  lemma {:induction false} ClosedIsFinal(cfg: Config, s: State, clock: Time, events: seq<Event>, id: Id)
    requires Plausible(cfg, s, clock, events)
    requires id in s.recoveries && s.recoveries[id].status != Pending
    ensures var s' := Run(cfg, s, events); id in s'.recoveries && s'.recoveries[id] == s.recoveries[id]
    decreases |events|
  {
    if events != [] {
      StepKeepsClosed(cfg, s, events[0].req, events[0].now, id);
      ClosedIsFinal(cfg, Step(cfg, s, events[0].req, events[0].now), events[0].now, events[1..], id);
    }
  }

  // --- Requests that stop half-way -----------------------------------------------

  predicate Owns(s: State, c: Face, id: Id) {
    id == "" || (id in s.recoveries && s.recoveries[id].commitment == c)
  }

  /** A history names nothing, or a recovery of its own identity. */
  ghost predicate NamesOwn(s: State) {
    && "" !in s.recoveries
    && forall c :: Owns(s, c, HistoryOf(s, c).active)
  }

  lemma OpenKeepsNamesOwn(cfg: Config, s: State, d: RecoveryDoc, writes: nat)
    requires NamesOwn(s) && d.id != "" && d.id !in s.recoveries
    ensures NamesOwn(OpenCut(cfg, s, d, writes))
  {
    var t := OpenCut(cfg, s, d, writes);
    forall c
      ensures Owns(t, c, HistoryOf(t, c).active)
    {
      assert Owns(s, c, HistoryOf(s, c).active);
    }
  }

  /** A close keeps the identities of the recoveries. */
  lemma CloseKeepsIdentities(s: State, id: Id, status: Status, who: Party, now: Time, writes: nat)
    ensures var t := CloseCut(s, id, status, who, now, writes);
            && t.recoveries.Keys == s.recoveries.Keys
            && forall p :: p in s.recoveries ==> t.recoveries[p].commitment == s.recoveries[p].commitment
  {
    if WasPending(s, id) && writes > 0 {
      var t := CloseCut(s, id, status, who, now, writes);
      assert t.recoveries == s.recoveries[id := t.recoveries[id]];
    }
  }

  /** A close adds no name to a history. */
  lemma CloseAddsNoName(s: State, id: Id, status: Status, who: Party, now: Time, writes: nat, c: Face)
    ensures var t := CloseCut(s, id, status, who, now, writes);
            HistoryOf(t, c).active == "" || HistoryOf(t, c).active == HistoryOf(s, c).active
  {
    if WasPending(s, id) {
      assert c != s.recoveries[id].commitment ==>
             HistoryOf(CloseCut(s, id, status, who, now, writes), c) == HistoryOf(s, c);
    }
  }

  lemma CloseKeepsNamesOwn(s: State, id: Id, status: Status, who: Party, now: Time, writes: nat)
    requires NamesOwn(s)
    ensures NamesOwn(CloseCut(s, id, status, who, now, writes))
  {
    var t := CloseCut(s, id, status, who, now, writes);
    CloseKeepsIdentities(s, id, status, who, now, writes);
    forall c
      ensures Owns(t, c, HistoryOf(t, c).active)
    {
      CloseAddsNoName(s, id, status, who, now, writes, c);
      assert Owns(s, c, HistoryOf(s, c).active);
    }
  }

  lemma StepKeepsNamesOwn(cfg: Config, s: State, req: Request, now: Time)
    requires NamesOwn(s) && Admissible(s, req, now)
    ensures NamesOwn(Step(cfg, s, req, now))
  {
    match req
    case Start(_, _, _, _, _, writes) => OpenKeepsNamesOwn(cfg, s, NewDoc(cfg, req, now), writes);
    case Cancel(id, holder, _, writes) =>
      if id in s.recoveries {
        var who := if holder == s.recoveries[id].oldHolder then OldKey else NewKey;
        CloseKeepsNamesOwn(s, id, Cancelled, who, now, writes);
      }
    case Complete(id, _, _, _, writes) => CloseKeepsNamesOwn(s, id, Completed, NewKey, now, writes);
  }

  lemma {:induction false} RunKeepsNamesOwn(cfg: Config, s: State, clock: Time, events: seq<Event>)
    requires NamesOwn(s) && Plausible(cfg, s, clock, events)
    ensures NamesOwn(Run(cfg, s, events))
    decreases |events|
  {
    if events != [] {
      StepKeepsNamesOwn(cfg, s, events[0].req, events[0].now);
      RunKeepsNamesOwn(cfg, Step(cfg, s, events[0].req, events[0].now), events[0].now, events[1..]);
    }
  }

  /** An accepted start whose record was written and whose history was not. */
  ghost predicate HalfStart(cfg: Config, s: State, req: Request, now: Time) {
    req.Start? && req.Half() && OpenRefusal(cfg, s, NewDoc(cfg, req, now)).None?
  }

  lemma StartNamedIff(cfg: Config, s: State, req: Request, now: Time)
    requires NamesOwn(s) && NamedActive(s) && req.Start? && Admissible(s, req, now)
    ensures NamedActive(Step(cfg, s, req, now)) <==> !HalfStart(cfg, s, req, now)
  {
    var d, s' := NewDoc(cfg, req, now), Step(cfg, s, req, now);
    if HalfStart(cfg, s, req, now) {
      assert s'.recoveries[d.id] == d && HistoryOf(s', d.commitment) == HistoryOf(s, d.commitment);
    } else {
      forall id | id in s'.recoveries && s'.recoveries[id].status == Pending
        ensures HistoryOf(s', s'.recoveries[id].commitment).active == id
      {
        assert id in s.recoveries ==> HistoryOf(s, s.recoveries[id].commitment).active == id;
      }
    }
  }

  lemma CloseKeepsNamed(s: State, id: Id, status: Status, who: Party, now: Time, writes: nat)
    requires NamedActive(s) && status != Pending
    ensures NamedActive(CloseCut(s, id, status, who, now, writes))
  {
    var t := CloseCut(s, id, status, who, now, writes);
    forall p | p in t.recoveries && t.recoveries[p].status == Pending
      ensures HistoryOf(t, t.recoveries[p].commitment).active == p
    {
      StillNamed(s, id, status, who, now, writes, p);
    }
  }

  lemma StillNamed(s: State, id: Id, status: Status, who: Party, now: Time, writes: nat, p: Id)
    requires NamedActive(s) && status != Pending
    requires var t := CloseCut(s, id, status, who, now, writes); p in t.recoveries && t.recoveries[p].status == Pending
    ensures var t := CloseCut(s, id, status, who, now, writes); HistoryOf(t, t.recoveries[p].commitment).active == p
  {
    assert p in s.recoveries && HistoryOf(s, s.recoveries[p].commitment).active == p;
    if WasPending(s, id) && writes > 0 {
      assert p != id && HistoryOf(s, s.recoveries[id].commitment).active == id;
    }
  }

  /** A pending recovery its history does not name comes from a half start only. */
  lemma StepNamedIff(cfg: Config, s: State, req: Request, now: Time)
    requires NamesOwn(s) && NamedActive(s) && Admissible(s, req, now)
    ensures NamedActive(Step(cfg, s, req, now)) <==> !HalfStart(cfg, s, req, now)
  {
    match req
    case Start(_, _, _, _, _, _) => StartNamedIff(cfg, s, req, now);
    case Cancel(id, holder, _, writes) =>
      if id in s.recoveries {
        CloseKeepsNamed(s, id, Cancelled, if holder == s.recoveries[id].oldHolder then OldKey else NewKey, now, writes);
      }
    case Complete(id, _, _, _, writes) => CloseKeepsNamed(s, id, Completed, NewKey, now, writes);
  }

  ghost predicate NoHalfStart(events: seq<Event>) {
    forall e :: e in events && e.req.Start? ==> !e.req.Half()
  }

  lemma {:induction false} RunKeepsNamed(cfg: Config, s: State, clock: Time, events: seq<Event>)
    requires NamesOwn(s) && NamedActive(s) && Plausible(cfg, s, clock, events) && NoHalfStart(events)
    ensures NamedActive(Run(cfg, s, events))
    decreases |events|
  {
    if events != [] {
      StepNamedIff(cfg, s, events[0].req, events[0].now);
      StepKeepsNamesOwn(cfg, s, events[0].req, events[0].now);
      RunKeepsNamed(cfg, Step(cfg, s, events[0].req, events[0].now), events[0].now, events[1..]);
    }
  }

  lemma NamedIsOne(s: State)
    requires NamedActive(s)
    ensures OnePendingEach(s)
  {
    forall a, b | a in s.recoveries && b in s.recoveries && s.recoveries[a].status == s.recoveries[b].status == Pending
      && s.recoveries[a].commitment == s.recoveries[b].commitment
      ensures a == b
    {
      assert HistoryOf(s, s.recoveries[a].commitment).active == a;
    }
  }

  lemma {:induction false} FreshId(ids: set<Id>) returns (id: Id)
    ensures id != "" && id !in ids && forall other :: other in ids ==> |other| < |id|
    decreases |ids|
  {
    if ids == {} {
      id := "r";
    } else {
      var some :| some in ids;
      id := FreshId(ids - {some});
      var longer := id + some + "r";
      forall other | other in ids ensures |other| < |longer| {
        assert other == some || other in ids - {some};
      }
      id := longer;
    }
  }

  /** A reviewed start of an identity whose pending recovery is not named is
      accepted beside it. */
  lemma SecondPending(cfg: Config, s: State, clock: Time, p: Id) returns (after: seq<Event>)
    requires NamesOwn(s) && p in s.recoveries && s.recoveries[p].status == Pending
    requires HistoryOf(s, s.recoveries[p].commitment).active != p
    ensures Plausible(cfg, s, clock, after) && NoHalfStart(after) && !OnePendingEach(Run(cfg, s, after))
  {
    var c := s.recoveries[p].commitment;
    var active := HistoryOf(s, c).active;
    if active != "" && s.recoveries[active].status == Pending {
      after := [];
      assert Owns(s, c, active);
    } else {
      assert Owns(s, c, active);
      var id := FreshId(s.recoveries.Keys);
      var req := Start(id, "", "", c, [OperatorReview], 4);
      after := [Event(req, clock)];
      var s' := Step(cfg, s, req, clock);
      assert OpenRefusal(cfg, s, NewDoc(cfg, req, clock)).None?;
      assert after[1..] == [] && Run(cfg, s', []) == s' && Run(cfg, s, after) == s';
      assert s'.recoveries[id].commitment == s'.recoveries[p].commitment && s'.recoveries[p].status == Pending;
    }
  }

  function EndOf(clock: Time, events: seq<Event>): Time {
    if events == [] then clock else events[|events| - 1].now
  }

  /** In any state that a run reaches, wherever its writes stopped: from then on at
      most one recovery of an identity is ever pending, as long as no further
      start stops half-way, exactly when every pending recovery is the one its
      history names. */
  lemma OnePendingIff(cfg: Config, clock: Time, before: seq<Event>)
    requires Plausible(cfg, Empty, clock, before)
    ensures var s := Run(cfg, Empty, before);
            (forall after :: Plausible(cfg, s, EndOf(clock, before), after) && NoHalfStart(after) ==>
              OnePendingEach(Run(cfg, s, after)))
            <==> NamedActive(s)
  {
    var s, end := Run(cfg, Empty, before), EndOf(clock, before);
    RunKeepsNamesOwn(cfg, Empty, clock, before);
    if NamedActive(s) {
      forall after | Plausible(cfg, s, end, after) && NoHalfStart(after)
        ensures OnePendingEach(Run(cfg, s, after))
      {
        RunKeepsNamed(cfg, s, end, after);
        NamedIsOne(Run(cfg, s, after));
      }
    } else {
      var p :| p in s.recoveries && s.recoveries[p].status == Pending
        && HistoryOf(s, s.recoveries[p].commitment).active != p;
      var after := SecondPending(cfg, s, end, p);
    }
  }

  lemma OneMore(cfg: Config, s: State, clock: Time, e: Event, events: seq<Event>)
    requires clock <= e.now && Admissible(s, e.req, e.now) && Plausible(cfg, Step(cfg, s, e.req, e.now), e.now, events)
    ensures Plausible(cfg, s, clock, [e] + events)
            && Run(cfg, s, [e] + events) == Run(cfg, Step(cfg, s, e.req, e.now), events)
  {
    assert ([e] + events)[1..] == events;
  }

  /** An unreviewed recovery started at `at` that waits out its delay and is completed then. */
  lemma StartAndComplete(cfg: Config, s: State, id: Id, newKey: DID, c: Face, at: Time, writes: nat)
    returns (events: seq<Event>)
    requires Configured(cfg) && id != "" && id !in s.recoveries && writes > 0
    requires var h := HistoryOf(s, c);
             h.completed == h.cancelled == [] && (h.active in s.recoveries ==> s.recoveries[h.active].status != Pending)
    ensures Plausible(cfg, s, at, events) && NoHalfStart(events) && EndOf(at, events) == at + cfg.delay
    ensures var t := Run(cfg, s, events);
            && t.recoveries.Keys == s.recoveries.Keys + {id}
               && (forall p :: p in s.recoveries ==> t.recoveries[p] == s.recoveries[p])
            && t.recoveries[id].commitment == c && t.recoveries[id].status == Completed && !t.recoveries[id].Reviewed()
            && t.recoveries[id].closedAt == at + cfg.delay
            && (writes == 1 ==> HistoryOf(t, c) == History(id, [], []))
  {
    var start := Event(Start(id, "", newKey, c, [Identifier], 4), at);
    var s1 := Step(cfg, s, start.req, start.now);
    assert s1 == Open(cfg, s, NewDoc(cfg, start.req, at));
    var done := Event(Complete(id, Some(SessionView(newKey, false)), at + cfg.delay, false, writes), at + cfg.delay);
    var s2 := Step(cfg, s1, done.req, done.now);
    assert s2 == CloseCut(s1, id, Completed, NewKey, done.now, writes);
    OneMore(cfg, s1, at, done, []);
    OneMore(cfg, s, at, start, [done] + []);
    events := [start] + ([done] + []);
  }

  lemma {:induction false} RunBoth(cfg: Config, s: State, clock: Time, first: seq<Event>, second: seq<Event>)
    requires Plausible(cfg, s, clock, first) && Plausible(cfg, Run(cfg, s, first), EndOf(clock, first), second)
    ensures Plausible(cfg, s, clock, first + second)
            && Run(cfg, s, first + second) == Run(cfg, Run(cfg, s, first), second)
    decreases |first|
  {
    if first == [] {
      assert first + second == second;
    } else {
      var e := first[0];
      RunBoth(cfg, Step(cfg, s, e.req, e.now), e.now, first[1..], second);
      OneMore(cfg, s, clock, e, first[1..] + second);
      assert first + second == [e] + (first[1..] + second);
    }
  }

  /** A completion that stops half-way is not in the history: the next recovery is
      admitted at once and completes only a delay later, whatever the cooldown. */
  lemma HalfCompletionBreaksCooldown(cfg: Config, a: Id, b: Id, newKey: DID, c: Face) returns (events: seq<Event>)
    requires Configured(cfg) && a != "" && b != "" && a != b
    ensures Plausible(cfg, Empty, 0, events) && NoHalfStart(events) && !CooldownKept(cfg, Run(cfg, Empty, events))
  {
    var first := StartAndComplete(cfg, Empty, a, newKey, c, 0, 1);
    var s := Run(cfg, Empty, first);
    var second := StartAndComplete(cfg, s, b, newKey, c, cfg.delay, 2);
    var t := Run(cfg, s, second);
    RunBoth(cfg, Empty, 0, first, second);
    events := first + second;
    assert !CompletionsApart(cfg, t.recoveries[b], t.recoveries[a]);
  }
}
