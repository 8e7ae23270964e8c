/** Issuing and revoking at once: every store operation of handleIssueCredential
    (src/server/handlers.go) and revokeHolder (holderrevoke.go) is one step, and
    the steps of all requests interleave in any order. A request that never
    moves again has failed. */
module IssuerRaces {
  import opened Wrappers
  import opened RevocationStore
  import opened Issuer
  import R = IssuerRuns

  /** What an issuing request does next. */
  datatype Stage =
    | CheckSession | CheckHolder | CheckNullifier(k: nat)
    | Allocate(draw: nat) | BindTo(slot: nat) | RecordIssuance
    | ClaimSession | MarkSession
    | HandedOut | Rejected | Lost

  datatype IssueTask = IssueTask(req: IssueRequest, stage: Stage)

  /** What a revoking request does next. */
  datatype Phase =
    | BanHolder
    | ReadIssuances
    | Revoking(recs: seq<IssuanceRecord>, done: nat)
    | BanNullifiers(recs: seq<IssuanceRecord>, todo: set<Nullifier>)
    | Finished(recs: seq<IssuanceRecord>)

  datatype Revoker = Revoker(holder: DID, rec: BanRecord, phase: Phase)

  datatype System = System(s: State, tasks: seq<IssueTask>, revokers: seq<Revoker>)

  /** One store operation of one request; pick is the nullifier a map iteration yields. */
  datatype Event = Issues(task: nat) | Revokes(revoker: nat, pick: Nullifier)

  function IssueStep(s: State, t: IssueTask): (State, IssueTask) {
    var q := t.req;
    match t.stage
    case CheckSession => (s, t.(stage := if q.session in s.marked then Rejected else CheckHolder))
    case CheckHolder => (s, t.(stage := if HolderBan(q.holder) in s.bans then Rejected else CheckNullifier(0)))
    case CheckNullifier(k) =>
      if k >= |q.Nullifiers()| then (s, t.(stage := Allocate(0)))
      else (s, t.(stage := if NullifierBan(q.Nullifiers()[k]) in s.bans then Rejected else CheckNullifier(k + 1)))
    case Allocate(d) =>
      if d >= |q.draws| then (s, t.(stage := Rejected))
      else if q.draws[d] in s.slots.used then (s, t.(stage := Allocate(d + 1)))
      else (s.(slots := s.slots.(used := s.slots.used + {q.draws[d]})), t.(stage := BindTo(q.draws[d])))
    case BindTo(slot) =>
      (s.(slots := s.slots.(byCred := s.slots.byCred[q.cred := slot])), t.(stage := RecordIssuance))
    case RecordIssuance =>
      var rec := IssuanceRecord(q.cred, q.Nullifiers(), q.now);
      (s.(issuances := s.issuances[q.holder := RecordsOf(s, q.holder) + [rec]]), t.(stage := ClaimSession))
    case ClaimSession =>
      if q.session in s.claims then (s, t.(stage := Lost))
      else (s.(claims := s.claims[q.session := q.cred]), t.(stage := MarkSession))
    case MarkSession =>
      (s.(marked := s.marked + {q.session}, handedOut := s.handedOut + {(q.holder, q.cred)}), t.(stage := HandedOut))
    case _ => (s, t)
  }

  function RevokeStep(s: State, r: Revoker, pick: Nullifier): (State, Revoker) {
    match r.phase
    case BanHolder => (ApplyOp(s, BanOp(HolderBan(r.holder), r.rec)), r.(phase := ReadIssuances))
    case ReadIssuances => (s, r.(phase := Revoking(RecordsOf(s, r.holder), 0)))
    case Revoking(recs, k) =>
      if k < |recs| then (ApplyOp(s, RevokeOp(recs[k].credential)), r.(phase := Revoking(recs, k + 1)))
      else (s, r.(phase := BanNullifiers(recs, KeyNullifiers(r.holder) + NullifiersIn(recs))))
    case BanNullifiers(recs, todo) =>
      if pick in todo then
        (ApplyOp(s, BanOp(NullifierBan(pick), r.rec)), r.(phase := BanNullifiers(recs, todo - {pick})))
      else if todo == {} then (s, r.(phase := Finished(recs)))
      else (s, r)
    case Finished(_) => (s, r)
  }

  function Step(sys: System, e: Event): System {
    match e
    case Issues(i) =>
      if i >= |sys.tasks| then sys
      else var (s, t) := IssueStep(sys.s, sys.tasks[i]); System(s, sys.tasks[i := t], sys.revokers)
    case Revokes(j, pick) =>
      if j >= |sys.revokers| then sys
      else var (s, r) := RevokeStep(sys.s, sys.revokers[j], pick); System(s, sys.tasks, sys.revokers[j := r])
  }

  function Run(sys: System, events: seq<Event>): System
    decreases |events|
  {
    if events == [] then sys else Run(Step(sys, events[0]), events[1..])
  }

  lemma {:induction false} RunBoth(sys: System, a: seq<Event>, b: seq<Event>)
    ensures Run(sys, a + b) == Run(Run(sys, a), b)
    decreases |a|
  {
    if a == [] {
      assert a + b == b;
    } else {
      assert (a + b)[1..] == a[1..] + b;
      RunBoth(Step(sys, a[0]), a[1..], b);
    }
  }

  // --- What every interleaving keeps ---------------------------------------------

  predicate Bound(st: Stage) {
    st.RecordIssuance? || Recorded(st)
  }

  predicate Recorded(st: Stage) {
    st.ClaimSession? || st.MarkSession? || st.HandedOut? || st.Lost?
  }

  /** Distinct requests sign distinct credential ids, and draw slots of the list. */
  ghost predicate GoodRequests(tasks: seq<IssueTask>) {
    && (forall i :: 0 <= i < |tasks| ==> Draws(tasks[i].req.draws))
    && (forall i, j :: 0 <= i < j < |tasks| ==> tasks[i].req.cred != tasks[j].req.cred)
  }

  ghost predicate BoundBy(tasks: seq<IssueTask>, c: CredentialId) {
    exists i :: 0 <= i < |tasks| && tasks[i].req.cred == c && Bound(tasks[i].stage)
  }

  ghost predicate RecordedBy(tasks: seq<IssueTask>, h: DID, c: CredentialId) {
    exists i :: 0 <= i < |tasks| && tasks[i].req.holder == h && tasks[i].req.cred == c && Recorded(tasks[i].stage)
  }

  /** Slots are owned by one credential each, and the owners are the bound tasks'. */
  ghost predicate OwnersKept(s: State, tasks: seq<IssueTask>) {
    && R.SlotsConsistent(s)
    && (forall c :: c in s.slots.byCred ==> BoundBy(tasks, c))
    && (forall i :: 0 <= i < |tasks| && Bound(tasks[i].stage) ==> tasks[i].req.cred in s.slots.byCred)
  }

  ghost predicate Reserved(s: State, slot: nat) {
    slot in s.slots.used && forall c :: c in s.slots.byCred ==> s.slots.byCred[c] != slot
  }

  /** A claimed slot waits for its own task to bind it. */
  ghost predicate ReservationsKept(s: State, tasks: seq<IssueTask>) {
    && (forall i :: 0 <= i < |tasks| && tasks[i].stage.BindTo? ==> Reserved(s, tasks[i].stage.slot))
    && (forall i, j :: 0 <= i < j < |tasks| && tasks[i].stage.BindTo? && tasks[j].stage.BindTo? ==>
          tasks[i].stage.slot != tasks[j].stage.slot)
  }

  /** The ledger holds the credentials of the requests that recorded them. */
  ghost predicate LedgerKept(sys: System) {
    && (forall h, r :: r in RecordsOf(sys.s, h) ==> RecordedBy(sys.tasks, h, r.credential))
    && (forall i :: 0 <= i < |sys.tasks| && Recorded(sys.tasks[i].stage) ==>
          R.Recorded(sys.s, sys.tasks[i].req.holder, sys.tasks[i].req.cred))
  }

  function ReadRecords(p: Phase): seq<IssuanceRecord> {
    match p
    case BanHolder => []
    case ReadIssuances => []
    case Revoking(recs, _) => recs
    case BanNullifiers(recs, _) => recs
    case Finished(recs) => recs
  }

  /** How many of them are revoked already. */
  function DoneWith(p: Phase): nat {
    if p.Revoking? then p.done else |ReadRecords(p)|
  }

  /** A revoker has banned its holder, read a part of its ledger that stays, and revoked what it says. */
  ghost predicate RevokerKept(s: State, r: Revoker) {
    && (!r.phase.BanHolder? ==> HolderBan(r.holder) in s.bans)
    && ReadRecords(r.phase) <= RecordsOf(s, r.holder) && DoneWith(r.phase) <= |ReadRecords(r.phase)|
    && forall k :: 0 <= k < DoneWith(r.phase) ==> ReadRecords(r.phase)[k].credential in s.revokedCreds
  }

  ghost predicate ReadBy(revokers: seq<Revoker>, c: CredentialId) {
    exists j, k :: 0 <= j < |revokers| && 0 <= k < DoneWith(revokers[j].phase) <= |ReadRecords(revokers[j].phase)|
                && ReadRecords(revokers[j].phase)[k].credential == c
  }

  ghost predicate RevokersKept(sys: System) {
    && (forall j :: 0 <= j < |sys.revokers| ==> RevokerKept(sys.s, sys.revokers[j]))
    && (forall c :: c in sys.s.revokedCreds ==> ReadBy(sys.revokers, c))
  }

  ghost predicate Inv(sys: System) {
    && GoodRequests(sys.tasks) && OwnersKept(sys.s, sys.tasks) && ReservationsKept(sys.s, sys.tasks)
    && LedgerKept(sys) && RevokersKept(sys)
  }

  /** Empty stores, and nobody has done anything. */
  ghost predicate Starting(sys: System) {
    && sys.s == Empty && GoodRequests(sys.tasks)
    && (forall i :: 0 <= i < |sys.tasks| ==> sys.tasks[i].stage == CheckSession)
    && (forall j :: 0 <= j < |sys.revokers| ==> sys.revokers[j].phase == BanHolder)
  }

  lemma StartingInv(sys: System)
    requires Starting(sys)
    ensures Inv(sys)
  {
    R.EmptyInv();
  }

  /** What one step of an issuing request can change. */
  lemma IssueStepShape(s: State, t: IssueTask)
    ensures var (s', t') := IssueStep(s, t);
            && t'.req == t.req && s'.bans == s.bans
            && s'.slots.revoked == s.slots.revoked && s'.revokedCreds == s.revokedCreds
            && (Bound(t.stage) ==> Bound(t'.stage)) && (Recorded(t.stage) ==> Recorded(t'.stage))
            && s.slots.used <= s'.slots.used && s.claims.Keys <= s'.claims.Keys
            && (t'.stage.BindTo? ==> t.stage.Allocate? && t'.stage.slot !in s.slots.used && t'.stage.slot in t.req.draws
                                     && s'.slots.used == s.slots.used + {t'.stage.slot})
            && (!t'.stage.BindTo? ==> s'.slots.used == s.slots.used)
            && (if t.stage.BindTo? then
                  t'.stage == RecordIssuance && s'.slots.byCred == s.slots.byCred[t.req.cred := t.stage.slot]
                else s'.slots.byCred == s.slots.byCred && Bound(t'.stage) == Bound(t.stage))
            && (if t.stage.RecordIssuance?
                then t'.stage == ClaimSession
                     && s'.issuances == s.issuances[t.req.holder := RecordsOf(s, t.req.holder) + [R.RecordOf(t.req)]]
                else s'.issuances == s.issuances && Recorded(t'.stage) == Recorded(t.stage))
  {}

  lemma TasksMove(tasks: seq<IssueTask>, i: nat, t: IssueTask)
    requires i < |tasks| && t.req == tasks[i].req
    requires (Bound(tasks[i].stage) ==> Bound(t.stage)) && (Recorded(tasks[i].stage) ==> Recorded(t.stage))
    ensures GoodRequests(tasks) ==> GoodRequests(tasks[i := t])
    ensures forall c :: BoundBy(tasks, c) ==> BoundBy(tasks[i := t], c)
    ensures forall h, c :: RecordedBy(tasks, h, c) ==> RecordedBy(tasks[i := t], h, c)
  {
    var moved := tasks[i := t];
    forall c | BoundBy(tasks, c) ensures BoundBy(moved, c) {
      var j :| 0 <= j < |tasks| && tasks[j].req.cred == c && Bound(tasks[j].stage);
      assert moved[j].req.cred == c && Bound(moved[j].stage);
    }
    forall h, c | RecordedBy(tasks, h, c) ensures RecordedBy(moved, h, c) {
      var j :| 0 <= j < |tasks| && tasks[j].req.holder == h && tasks[j].req.cred == c && Recorded(tasks[j].stage);
      assert moved[j].req.holder == h && moved[j].req.cred == c && Recorded(moved[j].stage);
    }
  }

  /** A credential belongs to one task: an unbound task's is not bound. */
  lemma UnboundCred(s: State, tasks: seq<IssueTask>, i: nat)
    requires GoodRequests(tasks) && OwnersKept(s, tasks) && i < |tasks| && !Bound(tasks[i].stage)
    ensures tasks[i].req.cred !in s.slots.byCred
  {}

  lemma IssueKeepsOwners(s: State, tasks: seq<IssueTask>, i: nat)
    requires GoodRequests(tasks) && OwnersKept(s, tasks) && ReservationsKept(s, tasks) && i < |tasks|
    ensures var (s', t') := IssueStep(s, tasks[i]); OwnersKept(s', tasks[i := t'])
  {
    var t := tasks[i];
    var (s', t') := IssueStep(s, t);
    IssueStepShape(s, t);
    TasksMove(tasks, i, t');
    if t.stage.BindTo? {
      UnboundCred(s, tasks, i);
      BindKeepsOwners(s, s', t.req.cred, t.stage.slot);
      assert tasks[i := t'][i].req.cred == t.req.cred;
    } else {
      UseKeepsOwners(s, s', t.req.draws);
    }
  }

  lemma BindKeepsOwners(s: State, t: State, cred: CredentialId, slot: nat)
    requires R.SlotsConsistent(s) && cred !in s.slots.byCred && Reserved(s, slot)
    requires t.slots == Slots(s.slots.used, s.slots.byCred[cred := slot], s.slots.revoked)
             && t.revokedCreds == s.revokedCreds
    ensures R.SlotsConsistent(t)
  {
    assert t.slots.revoked == set c | c in t.revokedCreds && c in t.slots.byCred :: t.slots.byCred[c];
  }

  lemma UseKeepsOwners(s: State, t: State, draws: seq<nat>)
    requires R.SlotsConsistent(s) && Draws(draws)
    requires t.slots.byCred == s.slots.byCred && t.slots.revoked == s.slots.revoked && t.revokedCreds == s.revokedCreds
    requires s.slots.used <= t.slots.used && forall i :: i in t.slots.used ==> i in s.slots.used || i in draws
    ensures R.SlotsConsistent(t)
  {}

  lemma IssueKeepsReservations(s: State, tasks: seq<IssueTask>, i: nat)
    requires OwnersKept(s, tasks) && ReservationsKept(s, tasks) && i < |tasks|
    ensures var (s', t') := IssueStep(s, tasks[i]); ReservationsKept(s', tasks[i := t'])
  {
    var t := tasks[i];
    var (s', t') := IssueStep(s, t);
    var moved := tasks[i := t'];
    IssueStepShape(s, t);
    forall k | 0 <= k < |moved| && moved[k].stage.BindTo? ensures Reserved(s', moved[k].stage.slot) {
      if k != i {
        assert Reserved(s, tasks[k].stage.slot);
      }
    }
  }

  lemma RecordedStays(s: State, s': State, h: DID, c: CredentialId)
    requires R.Recorded(s, h, c) && RecordsOf(s, h) <= RecordsOf(s', h)
    ensures R.Recorded(s', h, c)
  {
    var r :| r in RecordsOf(s, h) && r.credential == c;
    assert r in RecordsOf(s', h);
  }

  lemma IssueRecords(s: State, t: IssueTask)
    ensures var (s', t') := IssueStep(s, t);
            && (forall h :: RecordsOf(s, h) <= RecordsOf(s', h))
            && (forall h, r :: r in RecordsOf(s', h) && r !in RecordsOf(s, h) ==>
                  h == t.req.holder && r.credential == t.req.cred && Recorded(t'.stage))
            && (Recorded(t'.stage) && !Recorded(t.stage) ==> R.Recorded(s', t.req.holder, t.req.cred))
  {
    var s' := IssueStep(s, t).0;
    IssueStepShape(s, t);
    assert t.stage.RecordIssuance? ==> R.RecordOf(t.req) in RecordsOf(s', t.req.holder);
  }

  lemma IssueKeepsSources(s: State, tasks: seq<IssueTask>, i: nat)
    requires i < |tasks| && forall h, r :: r in RecordsOf(s, h) ==> RecordedBy(tasks, h, r.credential)
    ensures var (s', t') := IssueStep(s, tasks[i]);
            forall h, r :: r in RecordsOf(s', h) ==> RecordedBy(tasks[i := t'], h, r.credential)
  {
    var t := tasks[i];
    var (s', t') := IssueStep(s, t);
    var moved := tasks[i := t'];
    IssueStepShape(s, t);
    IssueRecords(s, t);
    TasksMove(tasks, i, t');
    forall h, r | r in RecordsOf(s', h) ensures RecordedBy(moved, h, r.credential) {
      if r !in RecordsOf(s, h) {
        assert moved[i].req == t.req && Recorded(moved[i].stage);
      }
    }
  }

  lemma IssueKeepsLedger(sys: System, i: nat)
    requires LedgerKept(sys) && i < |sys.tasks|
    ensures LedgerKept(Step(sys, Issues(i)))
    ensures forall h :: RecordsOf(sys.s, h) <= RecordsOf(Step(sys, Issues(i)).s, h)
  {
    var (s', t') := IssueStep(sys.s, sys.tasks[i]);
    var tasks := sys.tasks[i := t'];
    IssueStepShape(sys.s, sys.tasks[i]);
    IssueRecords(sys.s, sys.tasks[i]);
    IssueKeepsSources(sys.s, sys.tasks, i);
    forall k | 0 <= k < |tasks| && Recorded(tasks[k].stage)
      ensures R.Recorded(s', tasks[k].req.holder, tasks[k].req.cred)
    {
      if Recorded(sys.tasks[k].stage) {
        RecordedStays(sys.s, s', tasks[k].req.holder, tasks[k].req.cred);
      }
    }
  }

  /** What one step of a revoking request can change. */
  lemma RevokeStepShape(s: State, r: Revoker, pick: Nullifier)
    ensures var (s', r') := RevokeStep(s, r, pick);
            && r'.holder == r.holder && s'.slots.used == s.slots.used && s'.slots.byCred == s.slots.byCred
            && s'.issuances == s.issuances && s'.claims == s.claims
            && s'.marked == s.marked && s'.handedOut == s.handedOut
            && s.bans.Keys <= s'.bans.Keys && s.revokedCreds <= s'.revokedCreds
            && (r.phase.Revoking? && r.phase.done < |r.phase.recs| ==>
                  ApplyOp(s, RevokeOp(r.phase.recs[r.phase.done].credential)) == s')
            && (!(r.phase.Revoking? && r.phase.done < |r.phase.recs|) ==>
                  s'.slots.revoked == s.slots.revoked && s'.revokedCreds == s.revokedCreds)
  {}

  lemma RecordedIsBound(sys: System, h: DID, c: CredentialId)
    requires OwnersKept(sys.s, sys.tasks) && LedgerKept(sys) && R.Recorded(sys.s, h, c)
    ensures c in sys.s.slots.byCred && RecordedBy(sys.tasks, h, c)
  {
    var r :| r in RecordsOf(sys.s, h) && r.credential == c;
    assert RecordedBy(sys.tasks, h, c);
  }

  lemma RevokingKeepsOwners(s: State, c: CredentialId)
    requires R.SlotsConsistent(s)
    ensures R.SlotsConsistent(ApplyOp(s, RevokeOp(c)))
  {
    var t := ApplyOp(s, RevokeOp(c));
    assert t.slots.revoked == set c | c in t.revokedCreds && c in t.slots.byCred :: t.slots.byCred[c];
  }

  lemma RevokeKeepsSlots(sys: System, j: nat, pick: Nullifier)
    requires Inv(sys) && j < |sys.revokers|
    ensures var s' := Step(sys, Revokes(j, pick)).s; OwnersKept(s', sys.tasks) && ReservationsKept(s', sys.tasks)
  {
    var r := sys.revokers[j];
    var s' := RevokeStep(sys.s, r, pick).0;
    RevokeStepShape(sys.s, r, pick);
    if r.phase.Revoking? && r.phase.done < |r.phase.recs| {
      RevokingKeepsOwners(sys.s, r.phase.recs[r.phase.done].credential);
    }
    forall k | 0 <= k < |sys.tasks| && sys.tasks[k].stage.BindTo? ensures Reserved(s', sys.tasks[k].stage.slot) {
      assert Reserved(sys.s, sys.tasks[k].stage.slot);
    }
  }

  lemma RevokeKeepsLedger(sys: System, j: nat, pick: Nullifier)
    requires Inv(sys) && j < |sys.revokers|
    ensures LedgerKept(Step(sys, Revokes(j, pick)))
  {
    var s' := RevokeStep(sys.s, sys.revokers[j], pick).0;
    RevokeStepShape(sys.s, sys.revokers[j], pick);
    assert forall h :: RecordsOf(s', h) == RecordsOf(sys.s, h);
    assert forall h, c :: R.Recorded(sys.s, h, c) ==> R.Recorded(s', h, c);
  }

  /** A revoker's own step: what it has read and done only grows, and it accounts for what was revoked. */
  ghost predicate RevokerMoved(s: State, r: Revoker, s': State, r': Revoker) {
    && RevokerKept(s', r')
    && DoneWith(r.phase) <= DoneWith(r'.phase) && ReadRecords(r.phase) <= ReadRecords(r'.phase)
    && forall c :: c in s'.revokedCreds && c !in s.revokedCreds ==> ReadsTo(r', c)
  }

  lemma RevokingMoves(s: State, r: Revoker, pick: Nullifier)
    requires RevokerKept(s, r) && r.phase.Revoking? && r.phase.done < |r.phase.recs|
    requires r.phase.recs[r.phase.done].credential in s.slots.byCred
    ensures var (s', r') := RevokeStep(s, r, pick); RevokerMoved(s, r, s', r')
  {
    var c := r.phase.recs[r.phase.done].credential;
    var (s', r') := RevokeStep(s, r, pick);
    assert s'.revokedCreds == s.revokedCreds + {c} && s'.issuances == s.issuances && s'.bans == s.bans;
    RevokerStays(s, s', r);
    assert ReadRecords(r'.phase)[r.phase.done].credential == c;
  }

  lemma OtherPhaseMoves(s: State, r: Revoker, pick: Nullifier)
    requires RevokerKept(s, r) && (r.phase.Revoking? ==> r.phase.done == |r.phase.recs|)
    ensures var (s', r') := RevokeStep(s, r, pick); RevokerMoved(s, r, s', r')
  {
    var s' := RevokeStep(s, r, pick).0;
    assert s'.revokedCreds == s.revokedCreds && s'.issuances == s.issuances;
    RevokerStays(s, s', r);
  }

  lemma RevokeKeepsRevoker(sys: System, j: nat, pick: Nullifier)
    requires Inv(sys) && j < |sys.revokers|
    ensures var (s', r') := RevokeStep(sys.s, sys.revokers[j], pick); RevokerMoved(sys.s, sys.revokers[j], s', r')
  {
    var r := sys.revokers[j];
    assert RevokerKept(sys.s, r);
    if r.phase.Revoking? && r.phase.done < |r.phase.recs| {
      assert r.phase.recs[r.phase.done] in RecordsOf(sys.s, r.holder);
      RecordedIsBound(sys, r.holder, r.phase.recs[r.phase.done].credential);
      RevokingMoves(sys.s, r, pick);
    } else {
      OtherPhaseMoves(sys.s, r, pick);
    }
  }

  lemma ReadStays(revokers: seq<Revoker>, j: nat, r: Revoker, c: CredentialId)
    requires j < |revokers| && DoneWith(revokers[j].phase) <= DoneWith(r.phase) <= |ReadRecords(r.phase)|
    requires ReadRecords(revokers[j].phase) <= ReadRecords(r.phase)
    requires ReadBy(revokers, c) || ReadsTo(r, c)
    ensures ReadBy(revokers[j := r], c)
  {
    var moved := revokers[j := r];
    if ReadBy(revokers, c) {
      var i, k :| 0 <= i < |revokers| && 0 <= k < DoneWith(revokers[i].phase) <= |ReadRecords(revokers[i].phase)|
               && ReadRecords(revokers[i].phase)[k].credential == c;
      assert ReadRecords(moved[i].phase)[k].credential == c;
    } else {
      var k :| 0 <= k < DoneWith(r.phase) && ReadRecords(r.phase)[k].credential == c;
      assert ReadRecords(moved[j].phase)[k].credential == c;
    }
  }

  ghost predicate ReadsTo(r: Revoker, c: CredentialId) {
    && DoneWith(r.phase) <= |ReadRecords(r.phase)|
    && exists k :: 0 <= k < DoneWith(r.phase) && ReadRecords(r.phase)[k].credential == c
  }

  lemma RevokerStays(s: State, s': State, r: Revoker)
    requires RevokerKept(s, r) && s.bans.Keys <= s'.bans.Keys && s.revokedCreds <= s'.revokedCreds
    requires RecordsOf(s, r.holder) <= RecordsOf(s', r.holder)
    ensures RevokerKept(s', r)
  {
    assert ReadRecords(r.phase) <= RecordsOf(s', r.holder);
  }

  lemma RevokersMove(sys: System, j: nat, r: Revoker, s': State)
    requires RevokersKept(sys) && j < |sys.revokers|
    requires sys.s.bans.Keys <= s'.bans.Keys && sys.s.revokedCreds <= s'.revokedCreds
    requires forall h :: RecordsOf(sys.s, h) <= RecordsOf(s', h)
    requires RevokerMoved(sys.s, sys.revokers[j], s', r)
    ensures RevokersKept(System(s', sys.tasks, sys.revokers[j := r]))
  {
    forall c | c in s'.revokedCreds ensures ReadBy(sys.revokers[j := r], c) {
      ReadStays(sys.revokers, j, r, c);
    }
    var moved := sys.revokers[j := r];
    forall i | 0 <= i < |moved| ensures RevokerKept(s', moved[i]) {
      if i != j {
        RevokerStays(sys.s, s', sys.revokers[i]);
      }
    }
  }

  lemma IssueKeepsRevokers(sys: System, i: nat)
    requires Inv(sys) && i < |sys.tasks|
    ensures RevokersKept(Step(sys, Issues(i)))
  {
    var s' := IssueStep(sys.s, sys.tasks[i]).0;
    IssueStepShape(sys.s, sys.tasks[i]);
    IssueKeepsLedger(sys, i);
    forall j | 0 <= j < |sys.revokers| ensures RevokerKept(s', sys.revokers[j]) {
      RevokerStays(sys.s, s', sys.revokers[j]);
    }
  }

  lemma StepKeepsInv(sys: System, e: Event)
    requires Inv(sys)
    ensures Inv(Step(sys, e))
    ensures forall h :: RecordsOf(sys.s, h) <= RecordsOf(Step(sys, e).s, h)
    ensures sys.s.bans.Keys <= Step(sys, e).s.bans.Keys && sys.s.claims.Keys <= Step(sys, e).s.claims.Keys
    ensures sys.s.slots.used <= Step(sys, e).s.slots.used
  {
    match e
    case Issues(i) =>
      if i < |sys.tasks| {
        IssueStepShape(sys.s, sys.tasks[i]);
        IssueKeepsOwners(sys.s, sys.tasks, i);
        IssueKeepsReservations(sys.s, sys.tasks, i);
        IssueKeepsLedger(sys, i);
        TasksMove(sys.tasks, i, IssueStep(sys.s, sys.tasks[i]).1);
        IssueKeepsRevokers(sys, i);
      }
    case Revokes(j, pick) =>
      if j < |sys.revokers| {
        var (s', r') := RevokeStep(sys.s, sys.revokers[j], pick);
        RevokeStepShape(sys.s, sys.revokers[j], pick);
        assert forall h :: RecordsOf(sys.s, h) == RecordsOf(s', h);
        RevokeKeepsSlots(sys, j, pick);
        RevokeKeepsLedger(sys, j, pick);
        RevokeKeepsRevoker(sys, j, pick);
        RevokersMove(sys, j, r', s');
      }
  }

  lemma {:induction false} RunKeepsInv(sys: System, events: seq<Event>)
    requires Inv(sys)
    ensures Inv(Run(sys, events))
    decreases |events|
  {
    if events != [] {
      StepKeepsInv(sys, events[0]);
      RunKeepsInv(Step(sys, events[0]), events[1..]);
    }
  }

  // --- Who a finished revocation reaches ---------------------------------------------

  ghost predicate IsRevoked(s: State, c: CredentialId) {
    c in s.slots.byCred && s.slots.byCred[c] in s.slots.revoked
  }

  lemma RevokedIffHistory(sys: System, c: CredentialId)
    requires Inv(sys)
    ensures IsRevoked(sys.s, c) <==> c in sys.s.revokedCreds
  {}

  /** j has read its holder's ledger and what it read includes these records. */
  ghost predicate HasRead(sys: System, j: nat, recs: seq<IssuanceRecord>) {
    j < |sys.revokers| && !sys.revokers[j].phase.BanHolder?
    && (sys.revokers[j].phase.ReadIssuances? || recs <= ReadRecords(sys.revokers[j].phase))
  }

  lemma StepKeepsRead(sys: System, e: Event, j: nat, recs: seq<IssuanceRecord>)
    requires HasRead(sys, j, recs) && recs <= RecordsOf(sys.s, sys.revokers[j].holder)
    requires RecordsOf(sys.s, sys.revokers[j].holder) <= RecordsOf(Step(sys, e).s, sys.revokers[j].holder)
    ensures var next := Step(sys, e);
            && HasRead(next, j, recs)
            && |next.revokers| == |sys.revokers| && next.revokers[j].holder == sys.revokers[j].holder
            && recs <= RecordsOf(next.s, next.revokers[j].holder)
  {}

  lemma {:induction false} RunKeepsRead(sys: System, events: seq<Event>, j: nat, recs: seq<IssuanceRecord>)
    requires Inv(sys) && HasRead(sys, j, recs) && recs <= RecordsOf(sys.s, sys.revokers[j].holder)
    ensures HasRead(Run(sys, events), j, recs) && |Run(sys, events).revokers| == |sys.revokers|
    ensures Run(sys, events).revokers[j].holder == sys.revokers[j].holder
    decreases |events|
  {
    if events != [] {
      StepKeepsInv(sys, events[0]);
      StepKeepsRead(sys, events[0], j, recs);
      RunKeepsRead(Step(sys, events[0]), events[1..], j, recs);
    }
  }

  /** Whatever was recorded before the revoker read the ledger is revoked once it has finished. */
  lemma RecordedIsRevoked(sys: System, events: seq<Event>, j: nat, c: CredentialId)
    requires Inv(sys) && j < |sys.revokers| && sys.revokers[j].phase.ReadIssuances?
    requires R.Recorded(sys.s, sys.revokers[j].holder, c)
    requires j < |Run(sys, events).revokers| && Run(sys, events).revokers[j].phase.Finished?
    ensures IsRevoked(Run(sys, events).s, c)
  {
    var recs := RecordsOf(sys.s, sys.revokers[j].holder);
    RunKeepsInv(sys, events);
    RunKeepsRead(sys, events, j, recs);
    var r :| r in recs && r.credential == c;
    ReadIsRevoked(Run(sys, events), j, recs, r);
  }

  lemma ReadIsRevoked(sys: System, j: nat, recs: seq<IssuanceRecord>, r: IssuanceRecord)
    requires Inv(sys) && HasRead(sys, j, recs) && sys.revokers[j].phase.Finished? && r in recs
    ensures IsRevoked(sys.s, r.credential)
  {
    var k :| 0 <= k < |recs| && recs[k] == r;
    assert RevokerKept(sys.s, sys.revokers[j]);
    assert ReadRecords(sys.revokers[j].phase)[k] == r;
    RevokedIffHistory(sys, r.credential);
  }

  // --- Who escapes it -----------------------------------------------------------------

  /** A slot is left among the draws from d on. */
  ghost predicate SlotLeft(s: State, draws: seq<nat>, d: nat) {
    exists k :: d <= k < |draws| && draws[k] !in s.slots.used
  }

  ghost predicate NoneBanned(s: State, ns: seq<Nullifier>, k: nat) {
    forall m :: k <= m < |ns| ==> NullifierBan(ns[m]) !in s.bans
  }

  /** t is past the holder check, has recorded nothing, and nothing stands in its way. */
  ghost predicate InFlight(s: State, t: IssueTask) {
    && t.req.session !in s.claims
    && match t.stage
       case CheckNullifier(k) => NoneBanned(s, t.req.Nullifiers(), k) && SlotLeft(s, t.req.draws, 0)
       case Allocate(d) => SlotLeft(s, t.req.draws, d)
       case BindTo(_) => true
       case RecordIssuance => true
       case _ => false
  }

  /** A request of a banned holder that will never hand anything out. */
  ghost predicate Stuck(s: State, t: IssueTask) {
    match t.stage
    case CheckSession => true
    case CheckHolder => true
    case Rejected => true
    case Lost => true
    case ClaimSession => t.req.session in s.claims
    case MarkSession => false
    case HandedOut => false
    case _ => !InFlight(s, t)
  }

  lemma StuckMoves(s: State, t: IssueTask)
    requires Stuck(s, t) && HolderBan(t.req.holder) in s.bans
    ensures var (s', t') := IssueStep(s, t); Stuck(s', t')
  {}

  /** What others do never helps: sessions stay claimed, slots used and bans written. */
  lemma StuckStays(s: State, s': State, t: IssueTask)
    requires Stuck(s, t)
    requires s.claims.Keys <= s'.claims.Keys && s.slots.used <= s'.slots.used && s.bans.Keys <= s'.bans.Keys
    ensures Stuck(s', t)
  {}

  lemma {:induction false} StuckForever(sys: System, events: seq<Event>, i: nat)
    requires Inv(sys) && i < |sys.tasks| && Stuck(sys.s, sys.tasks[i])
             && HolderBan(sys.tasks[i].req.holder) in sys.s.bans
    ensures |Run(sys, events).tasks| == |sys.tasks| && Stuck(Run(sys, events).s, Run(sys, events).tasks[i])
    decreases |events|
  {
    if events != [] {
      var next := Step(sys, events[0]);
      StepKeepsInv(sys, events[0]);
      if events[0] == Issues(i) {
        StuckMoves(sys.s, sys.tasks[i]);
        IssueStepShape(sys.s, sys.tasks[i]);
      } else {
        StuckStays(sys.s, next.s, sys.tasks[i]);
      }
      StuckForever(next, events[1..], i);
    }
  }

  lemma {:induction false} SameRequests(sys: System, events: seq<Event>)
    ensures |Run(sys, events).tasks| == |sys.tasks| && |Run(sys, events).revokers| == |sys.revokers|
    ensures forall i :: 0 <= i < |sys.tasks| ==> Run(sys, events).tasks[i].req == sys.tasks[i].req
    ensures forall j :: 0 <= j < |sys.revokers| ==> Run(sys, events).revokers[j].holder == sys.revokers[j].holder
    decreases |events|
  {
    if events != [] {
      SameRequests(Step(sys, events[0]), events[1..]);
    }
  }

  /** Some credential handed out to h is not revoked. */
  ghost predicate Escaped(sys: System, h: DID) {
    exists i :: 0 <= i < |sys.tasks| && sys.tasks[i].req.holder == h && sys.tasks[i].stage.HandedOut?
             && !IsRevoked(sys.s, sys.tasks[i].req.cred)
  }

  ghost predicate SomeInFlight(sys: System, h: DID) {
    exists i :: 0 <= i < |sys.tasks| && sys.tasks[i].req.holder == h && InFlight(sys.s, sys.tasks[i])
  }

  /** With no issuance in flight when the ledger is about to be read, nothing escapes. */
  lemma NoneInFlightNoneEscapes(sys: System, events: seq<Event>, j: nat)
    requires Inv(sys) && j < |sys.revokers| && sys.revokers[j].phase.ReadIssuances?
    requires !SomeInFlight(sys, sys.revokers[j].holder)
    requires j < |Run(sys, events).revokers| && Run(sys, events).revokers[j].phase.Finished?
    ensures !Escaped(Run(sys, events), sys.revokers[j].holder)
  {
    var h, end := sys.revokers[j].holder, Run(sys, events);
    SameRequests(sys, events);
    assert RevokerKept(sys.s, sys.revokers[j]);
    forall i | 0 <= i < |end.tasks| && end.tasks[i].req.holder == h && end.tasks[i].stage.HandedOut?
      ensures IsRevoked(end.s, end.tasks[i].req.cred)
    {
      if Stuck(sys.s, sys.tasks[i]) {
        StuckForever(sys, events, i);
      } else {
        assert !InFlight(sys.s, sys.tasks[i]);
        RecordedIsRevoked(sys, events, j, sys.tasks[i].req.cred);
      }
    }
  }

  // --- ... and how --------------------------------------------------------------------

  lemma OneMore(sys: System, e: Event, events: seq<Event>)
    ensures Run(sys, [e] + events) == Run(Step(sys, e), events)
  {
    assert ([e] + events)[1..] == events;
  }

  /** How far t is from recording. */
  function ToGo(t: IssueTask): nat {
    match t.stage
    case CheckNullifier(k) => 3 + |t.req.draws| + (if k < |t.req.Nullifiers()| then |t.req.Nullifiers()| - k else 0)
    case Allocate(d) => 2 + if d < |t.req.draws| then |t.req.draws| - d else 0
    case BindTo(_) => 1
    case _ => 0
  }

  /** An issuance in flight, left alone, gets to its record. */
  lemma {:induction false} ToRecord(sys: System, i: nat) returns (events: seq<Event>)
    requires i < |sys.tasks| && InFlight(sys.s, sys.tasks[i])
    ensures var end := Run(sys, events);
            && |end.tasks| == |sys.tasks| && end.tasks[i] == sys.tasks[i].(stage := RecordIssuance)
            && end.revokers == sys.revokers && sys.tasks[i].req.session !in end.s.claims
    decreases ToGo(sys.tasks[i])
  {
    if sys.tasks[i].stage.RecordIssuance? {
      events := [];
    } else {
      var next := Step(sys, Issues(i));
      FlightMoves(sys.s, sys.tasks[i]);
      events := ToRecord(next, i);
      OneMore(sys, Issues(i), events);
      events := [Issues(i)] + events;
    }
  }

  lemma FlightMoves(s: State, t: IssueTask)
    requires InFlight(s, t) && !t.stage.RecordIssuance?
    ensures var (s', t') := IssueStep(s, t); InFlight(s', t') && ToGo(t') < ToGo(t) && t'.req == t.req
  {}

  /** How far a revoker that has banned its holder is from finishing. */
  function RevokerToGo(s: State, r: Revoker): (nat, nat) {
    match r.phase
    case BanHolder => (4, 0)
    case ReadIssuances => (3, 0)
    case Revoking(recs, k) => (2, if k < |recs| then |recs| - k else 0)
    case BanNullifiers(_, todo) => (1, |todo|)
    case Finished(_) => (0, 0)
  }

  /** A revoker, left alone, finishes. */
  lemma {:induction false} ToFinish(sys: System, j: nat) returns (events: seq<Event>)
    requires j < |sys.revokers|
    ensures var end := Run(sys, events);
            && end.tasks == sys.tasks && end.s.claims == sys.s.claims
            && |end.revokers| == |sys.revokers|
            && end.revokers[j].phase.Finished? && end.revokers[j].holder == sys.revokers[j].holder
    decreases RevokerToGo(sys.s, sys.revokers[j]).0, RevokerToGo(sys.s, sys.revokers[j]).1
  {
    var r := sys.revokers[j];
    if r.phase.Finished? {
      events := [];
    } else {
      var pick: Nullifier := HolderKey([]);
      if r.phase.BanNullifiers? && r.phase.todo != {} {
        pick :| pick in r.phase.todo;
      }
      var next := Step(sys, Revokes(j, pick));
      RevokeStepShape(sys.s, r, pick);
      events := ToFinish(next, j);
      OneMore(sys, Revokes(j, pick), events);
      events := [Revokes(j, pick)] + events;
    }
  }

  /** A request at its record, with its session unclaimed, hands its credential out. */
  lemma ToHandOut(sys: System, i: nat) returns (events: seq<Event>)
    requires i < |sys.tasks| && sys.tasks[i].stage.RecordIssuance? && sys.tasks[i].req.session !in sys.s.claims
    ensures var end := Run(sys, events);
            && |end.tasks| == |sys.tasks| && end.tasks[i] == sys.tasks[i].(stage := HandedOut)
            && end.revokers == sys.revokers && end.s.revokedCreds == sys.s.revokedCreds
  {
    var e := Issues(i);
    var s1 := Step(sys, e);
    var s2 := Step(s1, e);
    var s3 := Step(s2, e);
    OneMore(s2, e, []);
    OneMore(s1, e, [e]);
    OneMore(sys, e, [e] + [e]);
    assert Run(s3, []) == s3;
    events := [e] + ([e] + ([e] + []));
  }

  lemma RevokedWasRecorded(sys: System, c: CredentialId)
    requires Inv(sys) && c in sys.s.revokedCreds
    ensures exists h :: RecordedBy(sys.tasks, h, c)
  {
    var j, k :| 0 <= j < |sys.revokers|
      && 0 <= k < DoneWith(sys.revokers[j].phase) <= |ReadRecords(sys.revokers[j].phase)|
             && ReadRecords(sys.revokers[j].phase)[k].credential == c;
    var r := sys.revokers[j];
    assert RevokerKept(sys.s, r);
    assert ReadRecords(r.phase)[k] in RecordsOf(sys.s, r.holder);
    assert RecordedBy(sys.tasks, r.holder, c);
  }

  /** A credential no task has recorded has not been revoked. */
  lemma UnrecordedNotRevoked(sys: System, i: nat)
    requires Inv(sys) && i < |sys.tasks| && !Recorded(sys.tasks[i].stage)
    ensures sys.tasks[i].req.cred !in sys.s.revokedCreds
  {
    if sys.tasks[i].req.cred in sys.s.revokedCreds {
      RevokedWasRecorded(sys, sys.tasks[i].req.cred);
    }
  }

  /** An issuance in flight can record after the revoker read the ledger, and then escapes. */
  lemma InFlightEscapes(sys: System, i: nat, j: nat) returns (events: seq<Event>)
    requires Inv(sys) && i < |sys.tasks| && j < |sys.revokers|
    requires InFlight(sys.s, sys.tasks[i]) && sys.tasks[i].req.holder == sys.revokers[j].holder
    ensures |Run(sys, events).revokers| == |sys.revokers| && Run(sys, events).revokers[j].phase.Finished?
    ensures Escaped(Run(sys, events), sys.revokers[j].holder)
  {
    var a := ToRecord(sys, i);
    var s1 := Run(sys, a);
    var b := ToFinish(s1, j);
    var s2 := Run(s1, b);
    var c := ToHandOut(s2, i);
    RunKeepsInv(sys, a);
    RunKeepsInv(s1, b);
    RunKeepsInv(s2, c);
    UnrecordedNotRevoked(s2, i);
    RevokedIffHistory(Run(s2, c), sys.tasks[i].req.cred);
    RunBoth(sys, a, b);
    RunBoth(sys, a + b, c);
    events := a + b + c;
    assert Run(sys, events).tasks[i].stage.HandedOut?;
  }

  /** When a revoker has banned its holder and is about to read the ledger: every
      credential ever handed out to the holder is revoked once it has finished,
      whatever the order of all steps, exactly when no issuance to the holder was
      past its ban check and could still record. */
  lemma NothingEscapesIff(start: System, before: seq<Event>, j: nat)
    requires Starting(start) && j < |Run(start, before).revokers| && Run(start, before).revokers[j].phase.ReadIssuances?
    ensures var sys := Run(start, before);
            var h := sys.revokers[j].holder;
            (forall events :: j < |Run(sys, events).revokers| && Run(sys, events).revokers[j].phase.Finished? ==>
              !Escaped(Run(sys, events), h))
            <==> !SomeInFlight(sys, h)
  {
    var sys := Run(start, before);
    var h := sys.revokers[j].holder;
    StartingInv(start);
    RunKeepsInv(start, before);
    if SomeInFlight(sys, h) {
      var i :| 0 <= i < |sys.tasks| && sys.tasks[i].req.holder == h && InFlight(sys.s, sys.tasks[i]);
      var events := InFlightEscapes(sys, i, j);
      assert Escaped(Run(sys, events), h);
    } else {
      forall events | j < |Run(sys, events).revokers| && Run(sys, events).revokers[j].phase.Finished?
        ensures !Escaped(Run(sys, events), h)
      {
        NoneInFlightNoneEscapes(sys, events, j);
      }
    }
  }

  /** The ban is written just after the holder was checked. */
  lemma BanAfterCheck(req: IssueRequest, rec: BanRecord) returns (events: seq<Event>)
    requires Draws(req.draws)
    ensures var start := System(Empty, [IssueTask(req, CheckSession)], [Revoker(req.holder, rec, BanHolder)]);
            var sys := Run(start, events);
            && |sys.tasks| == 1 && sys.tasks[0].req == req && InFlight(sys.s, sys.tasks[0])
            && sys.revokers == [Revoker(req.holder, rec, ReadIssuances)]
  {
    var start := System(Empty, [IssueTask(req, CheckSession)], [Revoker(req.holder, rec, BanHolder)]);
    var i, j := Issues(0), Revokes(0, HolderKey([]));
    var s1 := Step(start, i);
    var s2 := Step(s1, i);
    var s3 := Step(s2, j);
    assert s2.tasks == [IssueTask(req, CheckNullifier(0))];
    assert req.draws[0] !in s3.s.slots.used;
    OneMore(s2, j, []);
    OneMore(s1, i, [j] + []);
    OneMore(start, i, [i] + ([j] + []));
    events := [i] + ([i] + ([j] + []));
    assert Run(s3, []) == s3;
  }

  /** So every issuance can escape, from empty stores. */
  lemma AnyIssuanceCanEscape(req: IssueRequest, rec: BanRecord) returns (events: seq<Event>)
    requires Draws(req.draws)
    ensures var start := System(Empty, [IssueTask(req, CheckSession)], [Revoker(req.holder, rec, BanHolder)]);
            var end := Run(start, events);
            Starting(start) && |end.revokers| == 1 && end.revokers[0].phase.Finished? && Escaped(end, req.holder)
  {
    var start := System(Empty, [IssueTask(req, CheckSession)], [Revoker(req.holder, rec, BanHolder)]);
    var early := BanAfterCheck(req, rec);
    StartingInv(start);
    RunKeepsInv(start, early);
    var late := InFlightEscapes(Run(start, early), 0, 0);
    RunBoth(start, early, late);
    events := early + late;
  }

  // --- One request at a time ------------------------------------------------------------

  /** The next n steps of an issuing request that has the stores to itself. */
  function Steps(s: State, t: IssueTask, n: nat): (State, IssueTask)
    decreases n
  {
    if n == 0 then (s, t)
    else var (s', t') := IssueStep(s, t); Steps(s', t', n - 1)
  }

  lemma {:induction false} StepsBoth(s: State, t: IssueTask, n: nat, m: nat)
    ensures var (s', t') := Steps(s, t, n); Steps(s, t, n + m) == Steps(s', t', m)
    decreases n
  {
    if n > 0 {
      var (s', t') := IssueStep(s, t);
      StepsBoth(s', t', n - 1, m);
    }
  }

  lemma {:induction false} BanChecks(s: State, t: IssueTask, k: nat) returns (n: nat)
    requires t.stage == CheckNullifier(k) && k <= |t.req.Nullifiers()|
    ensures Steps(s, t, n) == (s, t.(stage := if NoneBanned(s, t.req.Nullifiers(), k) then Allocate(0) else Rejected))
    decreases |t.req.Nullifiers()| - k
  {
    var (s', t') := IssueStep(s, t);
    n := 1;
    assert Steps(s, t, 1) == (s', t');
    if t'.stage.CheckNullifier? {
      var m := BanChecks(s, t', k + 1);
      StepsBoth(s, t, 1, m);
      n := 1 + m;
    }
  }

  lemma {:induction false} Draw(s: State, t: IssueTask, d: nat) returns (n: nat)
    requires t.stage == Allocate(d) && d <= |t.req.draws|
    ensures var slot := FirstFree(s.slots.used, t.req.draws[d..]);
            Steps(s, t, n) == match slot
                              case None => (s, t.(stage := Rejected))
                              case Some(i) =>
                                (s.(slots := s.slots.(used := s.slots.used + {i})), t.(stage := BindTo(i)))
    decreases |t.req.draws| - d
  {
    var (s', t') := IssueStep(s, t);
    n := 1;
    assert Steps(s, t, 1) == (s', t');
    if t'.stage.Allocate? {
      var m := Draw(s, t', d + 1);
      StepsBoth(s, t, 1, m);
      n := 1 + m;
      assert t.req.draws[d..][1..] == t.req.draws[d + 1..];
    }
  }

  /** A request that is not interleaved with others does what the sequential model says. */
  lemma AloneIsIssue(s: State, req: IssueRequest) returns (n: nat)
    requires req.writes >= 5
    ensures Steps(s, IssueTask(req, CheckSession), n).0 == Issue(s, req)
    ensures Steps(s, IssueTask(req, CheckSession), n).1.stage.HandedOut?
            <==> !Issuer.Refused(s, req) && FirstFree(s.slots.used, req.draws).Some? && req.session !in s.claims
  {
    var t0, t2 := IssueTask(req, CheckSession), IssueTask(req, CheckNullifier(0));
    assert NoneBanned(s, req.Nullifiers(), 0)
           <==> forall i :: 0 <= i < |req.Nullifiers()| ==> NullifierBan(req.Nullifiers()[i]) !in s.bans;
    if req.session in s.marked {
      n := 1;
      assert Steps(s, t0, 1) == IssueStep(s, t0);
    } else if HolderBan(req.holder) in s.bans {
      n := 2;
      TwoSteps(s, t0);
    } else {
      TwoSteps(s, t0);
      var k := BanChecks(s, t2, 0);
      StepsBoth(s, t0, 2, k);
      n := 2 + k;
      if NoneBanned(s, req.Nullifiers(), 0) {
        var m := AfterChecks(s, req);
        StepsBoth(s, t0, 2 + k, m);
        n := n + m;
      }
    }
  }

  lemma TwoSteps(s: State, t: IssueTask)
    ensures var (s', t') := IssueStep(s, t); Steps(s, t, 2) == IssueStep(s', t')
  {
    var (s', t') := IssueStep(s, t);
    assert Steps(s', t', 1) == IssueStep(s', t');
  }

  lemma AfterChecks(s: State, req: IssueRequest) returns (n: nat)
    requires req.writes >= 5 && !Issuer.Refused(s, req)
    ensures Steps(s, IssueTask(req, Allocate(0)), n).0 == Issue(s, req)
    ensures Steps(s, IssueTask(req, Allocate(0)), n).1.stage.HandedOut?
            <==> FirstFree(s.slots.used, req.draws).Some? && req.session !in s.claims
  {
    var t := IssueTask(req, Allocate(0));
    n := Draw(s, t, 0);
    assert req.draws[0..] == req.draws;
    var (s1, t1) := Steps(s, t, n);
    if t1.stage.BindTo? {
      StepsBoth(s, t, n, 4);
      n := n + 4;
      LastSteps(s, s1, t1);
    }
  }

  /** Bind, record, claim and mark. */
  lemma LastSteps(s: State, s1: State, t: IssueTask)
    requires var slot := FirstFree(s.slots.used, t.req.draws);
             && slot.Some? && t.stage == BindTo(slot.value)
             && s1 == s.(slots := s.slots.(used := s.slots.used + {slot.value}))
    requires t.req.writes >= 5 && !Issuer.Refused(s, t.req)
    ensures Steps(s1, t, 4).0 == Issue(s, t.req)
    ensures Steps(s1, t, 4).1.stage.HandedOut? <==> t.req.session !in s.claims
  {
    TwoSteps(s1, t);
    var (s3, t3) := Steps(s1, t, 2);
    TwoSteps(s3, t3);
    StepsBoth(s1, t, 2, 2);
  }

  /** The next steps of a revoking request that has the stores to itself. */
  function RevokeSteps(s: State, r: Revoker, picks: seq<Nullifier>): (State, Revoker)
    decreases |picks|
  {
    if picks == [] then (s, r)
    else var (s', r') := RevokeStep(s, r, picks[0]); RevokeSteps(s', r', picks[1..])
  }

  /** What is left to write when r, whose records are read, bans the nullifiers still to do in this order. */
  ghost function LeftToWrite(r: Revoker, order: seq<Nullifier>): seq<Op>
    requires PastRead(r)
  {
    RevokeOps(ReadRecords(r.phase)[DoneWith(r.phase)..]) + BanOps(order, r.rec)
  }

  ghost function ToBan(r: Revoker): set<Nullifier> {
    match r.phase
    case Revoking(recs, _) => KeyNullifiers(r.holder) + NullifiersIn(recs)
    case BanNullifiers(_, todo) => todo
    case _ => {}
  }

  lemma OneWriteMore(s: State, op: Op, ops: seq<Op>)
    ensures ApplyOps(s, [op] + ops) == ApplyOps(ApplyOp(s, op), ops)
  {
    assert ([op] + ops)[1..] == ops;
  }

  ghost predicate PastRead(r: Revoker) {
    !r.phase.BanHolder? && !r.phase.ReadIssuances? && DoneWith(r.phase) <= |ReadRecords(r.phase)|
  }

  /** A step writes the first of what is left, or nothing. */
  lemma StepWritesFirst(s: State, r: Revoker, pick: Nullifier, later: seq<Nullifier>) returns (order: seq<Nullifier>)
    requires PastRead(r) && Enumerates(later, ToBan(RevokeStep(s, r, pick).1))
    ensures PastRead(RevokeStep(s, r, pick).1) && Enumerates(order, ToBan(r))
    ensures var (s', r') := RevokeStep(s, r, pick);
            ApplyOps(s, LeftToWrite(r, order)) == ApplyOps(s', LeftToWrite(r', later))
  {
    var r' := RevokeStep(s, r, pick).1;
    var rest := LeftToWrite(r', later);
    order := later;
    if r.phase.Revoking? && r.phase.done < |r.phase.recs| {
      var recs, k := r.phase.recs, r.phase.done;
      assert recs[k..] == [recs[k]] + recs[k + 1..];
      OneWriteMore(s, RevokeOp(recs[k].credential), rest);
      assert LeftToWrite(r, order) == [RevokeOp(recs[k].credential)] + rest;
    } else if r.phase.BanNullifiers? && pick in r.phase.todo {
      order := [pick] + later;
      OneWriteMore(s, BanOp(NullifierBan(pick), r.rec), rest);
      assert LeftToWrite(r, order) == [BanOp(NullifierBan(pick), r.rec)] + rest;
    } else {
      assert LeftToWrite(r, order) == rest;
    }
  }

  /** However the map iterations pick, the writes left are those of some order. */
  lemma {:induction false} FinishesInOrder(s: State, r: Revoker, picks: seq<Nullifier>) returns (order: seq<Nullifier>)
    requires PastRead(r) && RevokeSteps(s, r, picks).1.phase.Finished?
    ensures Enumerates(order, ToBan(r)) && RevokeSteps(s, r, picks).0 == ApplyOps(s, LeftToWrite(r, order))
    decreases |picks|
  {
    if picks == [] {
      order := [];
    } else {
      var (s', r') := RevokeStep(s, r, picks[0]);
      var later := FinishesInOrder(s', r', picks[1..]);
      order := StepWritesFirst(s, r, picks[0], later);
    }
  }

  /** A revocation that is not interleaved with others does what the sequential
      model says, for some order of the nullifiers. */
  lemma AloneIsRevokePlan(s: State, h: DID, rec: BanRecord, picks: seq<Nullifier>) returns (order: seq<Nullifier>)
    requires RevokeSteps(s, Revoker(h, rec, BanHolder), picks).1.phase.Finished?
    ensures Enumerates(order, NullifiersOf(s, h))
    ensures RevokeSteps(s, Revoker(h, rec, BanHolder), picks).0 == ApplyOps(s, RevokePlan(s, h, rec, order))
  {
    var ban := BanOp(HolderBan(h), rec);
    var t, recs := ApplyOp(s, ban), RecordsOf(s, h);
    var r1, r2 := Revoker(h, rec, ReadIssuances), Revoker(h, rec, Revoking(recs, 0));
    assert RevokeSteps(s, Revoker(h, rec, BanHolder), picks) == RevokeSteps(t, r1, picks[1..]);
    assert picks[1..] != [];
    assert RevokeSteps(t, r1, picks[1..]) == RevokeSteps(t, r2, picks[1..][1..]);
    order := FinishesInOrder(t, r2, picks[1..][1..]);
    assert recs[0..] == recs;
    OneWriteMore(s, ban, RevokeOps(recs) + BanOps(order, rec));
    assert RevokePlan(s, h, rec, order) == [ban] + (RevokeOps(recs) + BanOps(order, rec));
  }
}
