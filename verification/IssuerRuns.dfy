/** What the issuer's stores keep over every run of issuance, revocation,
    retirement, each of which may be cut off after any write, and reinstatement. */
module IssuerRuns {
  import opened Wrappers
  import opened RevocationStore
  import opened Issuer
  import Bits
  import DidKey
  import E = Equivocation

  // --- The effect of a list of store writes ------------------------------------

  ghost function KeysBanned(ops: seq<Op>): set<BanKey> {
    set op | op in ops && op.BanOp? :: op.key
  }

  ghost function CredsRevoked(s: State, ops: seq<Op>): set<CredentialId> {
    set op | op in ops && op.RevokeOp? && op.cred in s.slots.byCred :: op.cred
  }

  ghost function SlotsRevoked(s: State, ops: seq<Op>): set<nat> {
    set op | op in ops && op.RevokeOp? && op.cred in s.slots.byCred :: s.slots.byCred[op.cred]
  }

  /** Everything but the bans and the revocations is as it was. */
  ghost predicate SameRecords(s: State, t: State) {
    && t.issuances == s.issuances && t.slots.byCred == s.slots.byCred && t.slots.used == s.slots.used
    && t.claims == s.claims && t.marked == s.marked && t.handedOut == s.handedOut
  }

  lemma {:induction false} OpsKeepRecords(s: State, ops: seq<Op>)
    ensures SameRecords(s, ApplyOps(s, ops))
    decreases |ops|
  {
    if ops != [] {
      OpsKeepRecords(ApplyOp(s, ops[0]), ops[1..]);
    }
  }

  lemma {:induction false} OpsBan(s: State, ops: seq<Op>)
    ensures ApplyOps(s, ops).bans.Keys == s.bans.Keys + KeysBanned(ops)
    ensures forall k :: k in s.bans ==> ApplyOps(s, ops).bans[k] == s.bans[k]
    decreases |ops|
  {
    if ops != [] {
      OpsBan(ApplyOp(s, ops[0]), ops[1..]);
      assert forall op :: op in ops <==> op == ops[0] || op in ops[1..];
      assert KeysBanned(ops) == KeysBanned(ops[1..]) + if ops[0].BanOp? then {ops[0].key} else {};
    }
  }

  /** The first write, and the others. */
  lemma OpsRevokedSplit(s: State, ops: seq<Op>)
    requires ops != []
    ensures SlotsRevoked(s, ops) == SlotsRevoked(s, [ops[0]]) + SlotsRevoked(s, ops[1..])
    ensures CredsRevoked(s, ops) == CredsRevoked(s, [ops[0]]) + CredsRevoked(s, ops[1..])
  {
    assert ops == [ops[0]] + ops[1..];
  }

  lemma OpRevokes(s: State, op: Op)
    ensures var t := ApplyOp(s, op);
            && t.slots.byCred == s.slots.byCred
            && t.slots.revoked == s.slots.revoked + SlotsRevoked(s, [op])
            && t.revokedCreds == s.revokedCreds + CredsRevoked(s, [op])
  {}

  lemma {:induction false} OpsRevoke(s: State, ops: seq<Op>)
    ensures ApplyOps(s, ops).slots.revoked == s.slots.revoked + SlotsRevoked(s, ops)
    ensures ApplyOps(s, ops).revokedCreds == s.revokedCreds + CredsRevoked(s, ops)
    decreases |ops|
  {
    if ops != [] {
      var t := ApplyOp(s, ops[0]);
      OpRevokes(s, ops[0]);
      OpsRevokedSplit(s, ops);
      OpsRevoke(t, ops[1..]);
      assert SlotsRevoked(t, ops[1..]) == SlotsRevoked(s, ops[1..]);
      assert CredsRevoked(t, ops[1..]) == CredsRevoked(s, ops[1..]);
    }
  }

  lemma OpsEffect(s: State, ops: seq<Op>)
    ensures var t := ApplyOps(s, ops);
            && SameRecords(s, t)
            && t.bans.Keys == s.bans.Keys + KeysBanned(ops)
            && (forall k :: k in s.bans ==> t.bans[k] == s.bans[k])
            && t.slots.revoked == s.slots.revoked + SlotsRevoked(s, ops)
            && t.revokedCreds == s.revokedCreds + CredsRevoked(s, ops)
  {
    OpsKeepRecords(s, ops);
    OpsBan(s, ops);
    OpsRevoke(s, ops);
  }

  // --- Revoking a holder -------------------------------------------------------

  ghost function TargetBans(s: State, h: DID): set<BanKey> {
    {HolderBan(h)} + LiftedBans(s, h)
  }

  ghost function TargetSlots(s: State, h: DID): set<nat> {
    set r | r in RecordsOf(s, h) && r.credential in s.slots.byCred :: s.slots.byCred[r.credential]
  }

  lemma RevokeOpsMembers(recs: seq<IssuanceRecord>, op: Op)
    ensures op in RevokeOps(recs) <==> exists r :: r in recs && op == RevokeOp(r.credential)
  {
    if op in RevokeOps(recs) {
      var i :| 0 <= i < |recs| && RevokeOps(recs)[i] == op;
      assert recs[i] in recs;
    }
    if r :| r in recs && op == RevokeOp(r.credential) {
      var i :| 0 <= i < |recs| && recs[i] == r;
      assert RevokeOps(recs)[i] == op;
    }
  }

  lemma BanOpsMembers(order: seq<Nullifier>, rec: BanRecord, op: Op)
    ensures op in BanOps(order, rec) <==> exists n :: n in order && op == BanOp(NullifierBan(n), rec)
  {
    if op in BanOps(order, rec) {
      var i :| 0 <= i < |order| && BanOps(order, rec)[i] == op;
      assert order[i] in order;
    }
    if n :| n in order && op == BanOp(NullifierBan(n), rec) {
      var i :| 0 <= i < |order| && order[i] == n;
      assert BanOps(order, rec)[i] == op;
    }
  }

  lemma PlanMembers(s: State, h: DID, rec: BanRecord, order: seq<Nullifier>, op: Op)
    requires Enumerates(order, NullifiersOf(s, h))
    ensures op in RevokePlan(s, h, rec, order) <==> Planned(s, h, rec, op)
  {
    RevokeOpsMembers(RecordsOf(s, h), op);
    BanOpsMembers(order, rec, op);
  }

  ghost predicate Planned(s: State, h: DID, rec: BanRecord, op: Op) {
    || op == BanOp(HolderBan(h), rec)
    || (exists r :: r in RecordsOf(s, h) && op == RevokeOp(r.credential))
    || (exists n :: n in NullifiersOf(s, h) && op == BanOp(NullifierBan(n), rec))
  }

  lemma PlannedBans(s: State, h: DID, rec: BanRecord, plan: seq<Op>)
    requires forall op :: op in plan <==> Planned(s, h, rec, op)
    ensures KeysBanned(plan) == TargetBans(s, h)
  {
    assert BanOp(HolderBan(h), rec) in plan;
    forall n | n in NullifiersOf(s, h)
      ensures NullifierBan(n) in KeysBanned(plan)
    {
      assert BanOp(NullifierBan(n), rec) in plan;
    }
  }

  lemma PlannedRevocations(s: State, h: DID, rec: BanRecord, plan: seq<Op>)
    requires forall op :: op in plan <==> Planned(s, h, rec, op)
    ensures SlotsRevoked(s, plan) == TargetSlots(s, h)
  {
    forall r | r in RecordsOf(s, h) && r.credential in s.slots.byCred
      ensures s.slots.byCred[r.credential] in SlotsRevoked(s, plan)
    {
      assert RevokeOp(r.credential) in plan;
    }
  }

  /** A full run bans and revokes exactly its targets, in any iteration order. */
  lemma RevokeEffect(s: State, h: DID, rec: BanRecord, order: seq<Nullifier>)
    requires Enumerates(order, NullifiersOf(s, h))
    ensures var t := ApplyOps(s, RevokePlan(s, h, rec, order));
            && SameRecords(s, t)
            && t.bans.Keys == s.bans.Keys + TargetBans(s, h)
            && t.slots.revoked == s.slots.revoked + TargetSlots(s, h)
  {
    var plan := RevokePlan(s, h, rec, order);
    OpsEffect(s, plan);
    forall op ensures op in plan <==> Planned(s, h, rec, op) {
      PlanMembers(s, h, rec, order, op);
    }
    PlannedBans(s, h, rec, plan);
    PlannedRevocations(s, h, rec, plan);
  }

  /** A run cut off anywhere does some of the full run's work and nothing else. */
  lemma CutOffEffect(s: State, h: DID, rec: BanRecord, order: seq<Nullifier>, writes: nat)
    requires Enumerates(order, NullifiersOf(s, h))
    ensures var t := CutOff(s, RevokePlan(s, h, rec, order), writes);
            && SameRecords(s, t)
            && s.bans.Keys <= t.bans.Keys <= s.bans.Keys + TargetBans(s, h)
            && s.slots.revoked <= t.slots.revoked <= s.slots.revoked + TargetSlots(s, h)
  {
    var plan := RevokePlan(s, h, rec, order);
    var prefix := if writes < |plan| then plan[..writes] else plan;
    OpsEffect(s, prefix);
    OpsEffect(s, plan);
    RevokeEffect(s, h, rec, order);
    assert forall op :: op in prefix ==> op in plan;
  }

  datatype Attempt = Attempt(rec: BanRecord, order: seq<Nullifier>, writes: nat)

  /** Runs of revokeHolder(h), one after another, each cut off where it says. */
  function Attempts(s: State, h: DID, attempts: seq<Attempt>): State
    decreases |attempts|
  {
    if attempts == [] then s
    else
      var a := attempts[0];
      Attempts(CutOff(s, RevokePlan(s, h, a.rec, a.order), a.writes), h, attempts[1..])
  }

  lemma {:induction false} AttemptsEffect(s: State, h: DID, attempts: seq<Attempt>)
    requires forall a :: a in attempts ==> Enumerates(a.order, NullifiersOf(s, h))
    ensures var t := Attempts(s, h, attempts);
            && SameRecords(s, t)
            && s.bans.Keys <= t.bans.Keys <= s.bans.Keys + TargetBans(s, h)
            && s.slots.revoked <= t.slots.revoked <= s.slots.revoked + TargetSlots(s, h)
    decreases |attempts|
  {
    if attempts != [] {
      var a := attempts[0];
      CutOffEffect(s, h, a.rec, a.order, a.writes);
      AttemptsEffect(CutOff(s, RevokePlan(s, h, a.rec, a.order), a.writes), h, attempts[1..]);
    }
  }

  /** Any number of runs cut off after any store write and then one full run
      ban and revoke exactly what a single run does, whatever the map order. */
  lemma RetriesConverge(s: State, h: DID, attempts: seq<Attempt>, rec: BanRecord, order: seq<Nullifier>,
                        rec1: BanRecord, order1: seq<Nullifier>)
    requires Enumerates(order, NullifiersOf(s, h)) && Enumerates(order1, NullifiersOf(s, h))
    requires forall a :: a in attempts ==> Enumerates(a.order, NullifiersOf(s, h))
    ensures var t := Attempts(s, h, attempts);
            var retried, single :=
              ApplyOps(t, RevokePlan(t, h, rec, order)), ApplyOps(s, RevokePlan(s, h, rec1, order1));
            retried.bans.Keys == single.bans.Keys && retried.slots == single.slots && SameRecords(single, retried)
  {
    var t := Attempts(s, h, attempts);
    AttemptsEffect(s, h, attempts);
    RevokeEffect(t, h, rec, order);
    RevokeEffect(s, h, rec1, order1);
  }

  // --- Reinstatement and pardons -----------------------------------------------

  /** The bans on people: holders and nullifiers, not pardons. */
  ghost function PersonBans(s: State): set<BanKey> {
    set k | k in s.bans && !k.Pardon?
  }

  lemma RevokedState(s: State, h: DID, rec: BanRecord, order: seq<Nullifier>)
    requires Enumerates(order, NullifiersOf(s, h))
    ensures var t := ApplyOps(s, RevokePlan(s, h, rec, order));
            && HolderBan(h) in t.bans && NullifiersOf(t, h) == NullifiersOf(s, h)
            && t.bans[HolderBan(h)] == if HolderBan(h) in s.bans then s.bans[HolderBan(h)] else rec
  {
    var plan := RevokePlan(s, h, rec, order);
    RevokeEffect(s, h, rec, order);
    OpsEffect(s, plan);
    OpsEffect(ApplyOp(s, plan[0]), plan[1..]);
  }

  lemma ReinstateEffect(t: State, h: DID, now: Time)
    requires !RetiredByRecovery(t, h)
    ensures PersonBans(Reinstate(t, h, now)) == PersonBans(t) - TargetBans(t, h)
    ensures Reinstate(t, h, now).slots == t.slots && SameRecords(t, Reinstate(t, h, now))
  {}

  lemma LiftingRestores(before: set<BanKey>, after: set<BanKey>, target: set<BanKey>)
    requires after == before + target
    ensures after - target == before <==> target !! before
  {
    if after - target == before {
      assert forall k :: k in target ==> k !in before;
    }
  }

  /** Reinstating after a revocation restores the holder and nullifier bans
      exactly when the holder and its nullifiers were unbanned before; the
      revoked credentials stay revoked. */
  lemma ReinstateRestores(s: State, h: DID, rec: BanRecord, order: seq<Nullifier>, now: Time)
    requires Enumerates(order, NullifiersOf(s, h))
    requires !("recovered:" <= rec.reason) && !RetiredByRecovery(s, h)
    ensures var t := ApplyOps(s, RevokePlan(s, h, rec, order));
            var u := Reinstate(t, h, now);
            && (PersonBans(u) == PersonBans(s) <==> TargetBans(s, h) !! PersonBans(s))
            && u.slots == t.slots && SameRecords(s, u)
  {
    var t := ApplyOps(s, RevokePlan(s, h, rec, order));
    RevokeEffect(s, h, rec, order);
    RevokedState(s, h, rec, order);
    ReinstateEffect(t, h, now);
    assert PersonBans(t) == PersonBans(s) + TargetBans(s, h);
    LiftingRestores(PersonBans(s), PersonBans(t), TargetBans(s, h));
  }

  /** Reinstating a revoked holder lifts its ban and pardons the evidence that ban carried. */
  lemma PardonsAfter(s: State, h: DID, rec: BanRecord, order: seq<Nullifier>, later: Time)
    requires Enumerates(order, NullifiersOf(s, h)) && !("recovered:" <= rec.reason) && !RetiredByRecovery(s, h)
    ensures var t := ApplyOps(s, RevokePlan(s, h, rec, order));
            var u := Reinstate(t, h, later);
            var evidence := if HolderBan(h) in s.bans then s.bans[HolderBan(h)].evidence else rec.evidence;
            && HolderBan(h) !in u.bans
            && (forall d :: Pardon(d) in u.bans <==> Pardon(d) in s.bans || evidence == Some(d))
  {
    RevokeEffect(s, h, rec, order);
    RevokedState(s, h, rec, order);
  }

  /** After a proof convicted a holder and an operator reinstated it, the same
      double-sign bans nobody again, in either order of its statements, exactly
      when the reinstated ban carried this proof: the holder was not banned
      before, or was banned on it. In any case no double-sign becomes pardoned but
      the one the reinstated ban carried. */
  lemma PardonIsExact(s: State, crypto: E.Crypto, p: E.EquivocationProof, h: DID, order: seq<Nullifier>, now: Time,
                      later: Time)
    requires E.Verify(crypto, p).Success? && DidKey.DIDKeyFromEd25519(E.Verify(crypto, p).value) == Success(h)
    requires Pardon(DigestOf(crypto, p)) !in s.bans && !RetiredByRecovery(s, h)
    requires Enumerates(order, NullifiersOf(s, h))
    ensures var u := Reinstate(HandleEquivocation(s, crypto, p, order, now), h, later);
            var onThisProof := HolderBan(h) !in s.bans || s.bans[HolderBan(h)].evidence == Some(DigestOf(crypto, p));
            && HolderBan(h) !in u.bans
            && (Harmless(u, crypto, p, h) <==> onThisProof)
            && (forall q :: E.Verify(crypto, q).Success? && Pardon(DigestOf(crypto, q)) !in s.bans ==>
                  (Pardon(DigestOf(crypto, q)) in u.bans <==>
                     if HolderBan(h) in s.bans then s.bans[HolderBan(h)].evidence == Some(DigestOf(crypto, q))
                     else SameSign(crypto, q, p)))
  {
    var digest := DigestOf(crypto, p);
    var rec := BanRecord("equivocation: " + p.context, Some(digest), now);
    assert rec.reason[0] == 'e';
    PardonsAfter(s, h, rec, order, later);
    var u := Reinstate(HandleEquivocation(s, crypto, p, order, now), h, later);
    ConvictsUnlessPardoned(u, crypto, p, h);
    forall q | E.Verify(crypto, q).Success?
      ensures DigestOf(crypto, q) == digest <==> SameSign(crypto, q, p)
    {
      E.DigestNamesDoubleSign(crypto, q, p);
    }
  }

  /** p convicts nobody in u, in either order of its statements, whatever order the nullifiers come in. */
  ghost predicate Harmless(u: State, crypto: E.Crypto, p: E.EquivocationProof, h: DID) {
    forall again, at :: Enumerates(again, NullifiersOf(u, h)) ==>
      HandleEquivocation(u, crypto, p, again, at) == u && HandleEquivocation(u, crypto, E.Swapped(p), again, at) == u
  }

  /** Two accepted proofs show the same key signing the same two payloads for the same slot. */
  ghost predicate SameSign(crypto: E.Crypto, q: E.EquivocationProof, p: E.EquivocationProof)
    requires E.Verify(crypto, q).Success? && E.Verify(crypto, p).Success?
  {
    E.SameDoubleSign(E.Verify(crypto, q).value, q, E.Verify(crypto, p).value, p)
  }

  /** The digest an accepted proof's ban carries. */
  ghost function DigestOf(crypto: E.Crypto, p: E.EquivocationProof): E.Evidence
    requires E.Verify(crypto, p).Success?
  {
    E.EquivocationDigest(E.Verify(crypto, p).value, p)
  }

  /** Some order in which a map iteration can yield the keys ns. */
  lemma {:induction false} OrderOf(ns: set<Nullifier>) returns (order: seq<Nullifier>)
    ensures Enumerates(order, ns) && |order| == |ns|
    decreases |ns|
  {
    if ns == {} {
      order := [];
    } else {
      var n :| n in ns;
      order := OrderOf(ns - {n});
      order := [n] + order;
    }
  }

  /** A proof against a holder that is not banned changes nothing exactly when it is pardoned. */
  lemma ConvictsUnlessPardoned(u: State, crypto: E.Crypto, p: E.EquivocationProof, h: DID)
    requires E.Verify(crypto, p).Success? && DidKey.DIDKeyFromEd25519(E.Verify(crypto, p).value) == Success(h)
    requires HolderBan(h) !in u.bans
    ensures Harmless(u, crypto, p, h) <==> Pardon(DigestOf(crypto, p)) in u.bans
  {
    E.SwapChangesNothing(crypto, p);
    if Pardon(DigestOf(crypto, p)) !in u.bans {
      var rec := BanRecord("equivocation: " + p.context, Some(DigestOf(crypto, p)), 0);
      var order := OrderOf(NullifiersOf(u, h));
      var plan := RevokePlan(u, h, rec, order);
      RevokeEffect(u, h, rec, order);
      assert HolderBan(h) in ApplyOps(u, plan).bans;
      assert HandleEquivocation(u, crypto, p, order, 0) == ApplyOps(u, plan) != u;
    }
  }

  // --- Runs --------------------------------------------------------------------

  datatype Request =
    | DoIssue(req: IssueRequest)
    | DoRevoke(holder: DID, rec: BanRecord, order: seq<Nullifier>, writes: nat)
    | DoRetire(holder: DID, at: Time, writes: nat)
    | DoRevokeCredential(cred: CredentialId)
    | DoReinstate(holder: DID, at: Time)

  ghost function Step(s: State, r: Request): State {
    match r
    case DoIssue(req) => Issue(s, req)
    case DoRevoke(h, rec, order, writes) => CutOff(s, RevokePlan(s, h, rec, order), writes)
    case DoRetire(h, at, writes) => CutOff(s, RetirePlan(s, h, at), writes)
    case DoRevokeCredential(cred) => ApplyOp(s, RevokeOp(cred))
    case DoReinstate(h, at) => Reinstate(s, h, at)
  }

  /** Credential ids are unique, slots are drawn from the list, and a map
      iteration yields each of its keys. */
  ghost predicate Admissible(s: State, r: Request) {
    match r
    case DoIssue(req) => req.cred !in s.slots.byCred && Draws(req.draws)
    case DoRevoke(h, _, order, _) => Enumerates(order, NullifiersOf(s, h))
    case _ => true
  }

  ghost function Run(s: State, rs: seq<Request>): State
    decreases |rs|
  {
    if rs == [] then s else Run(Step(s, rs[0]), rs[1..])
  }

  ghost predicate Plausible(s: State, rs: seq<Request>)
    decreases |rs|
  {
    rs == [] || (Admissible(s, rs[0]) && Plausible(Step(s, rs[0]), rs[1..]))
  }

  // --- Keys retired by a recovery -----------------------------------------------

  lemma RetireBans(s: State, h: DID, at: Time, writes: nat)
    requires writes > 0
    ensures var t := Step(s, DoRetire(h, at, writes));
            HolderBan(h) in t.bans
            && t.bans[HolderBan(h)]
               == if HolderBan(h) in s.bans then s.bans[HolderBan(h)] else BanRecord(RECOVERED_REASON, None, at)
  {
    var plan := RetirePlan(s, h, at);
    var prefix := if writes < |plan| then plan[..writes] else plan;
    assert prefix[0] == plan[0];
    OpsBan(ApplyOp(s, plan[0]), prefix[1..]);
  }

  lemma StepKeepsRetired(s: State, r: Request, h: DID)
    requires RetiredByRecovery(s, h)
    ensures RetiredByRecovery(Step(s, r), h)
  {
    match r
    case DoIssue(req) => IssueShape(s, req);
    case DoRevoke(g, rec, order, writes) =>
      var plan := RevokePlan(s, g, rec, order);
      OpsBan(s, if writes < |plan| then plan[..writes] else plan);
    case DoRetire(g, at, writes) =>
      var plan := RetirePlan(s, g, at);
      OpsBan(s, if writes < |plan| then plan[..writes] else plan);
    case DoRevokeCredential(_) =>
    case DoReinstate(_, _) =>
  }

  lemma {:induction false} RunKeepsRetired(s: State, rs: seq<Request>, h: DID)
    requires RetiredByRecovery(s, h)
    ensures RetiredByRecovery(Run(s, rs), h)
    decreases |rs|
  {
    if rs != [] {
      StepKeepsRetired(s, rs[0], h);
      RunKeepsRetired(Step(s, rs[0]), rs[1..], h);
    }
  }

  /** Bans keep their first record. So a key that a recovery retires stays banned
      in every later state exactly when it had no ban before, or one that itself
      came from a recovery; any other ban can be lifted by reinstatement. */
  lemma RetiredStaysBannedIff(s: State, h: DID, at: Time, writes: nat)
    requires writes > 0
    ensures (forall rs :: Plausible(Step(s, DoRetire(h, at, writes)), rs) ==>
               HolderBan(h) in Run(Step(s, DoRetire(h, at, writes)), rs).bans)
            <==> HolderBan(h) !in s.bans || RetiredByRecovery(s, h)
  {
    var t := Step(s, DoRetire(h, at, writes));
    RetireBans(s, h, at, writes);
    if RetiredByRecovery(t, h) {
      forall rs ensures HolderBan(h) in Run(t, rs).bans {
        RunKeepsRetired(t, rs, h);
      }
    } else {
      ReinstatedOnce(t, h, at);
    }
  }

  lemma ReinstatedOnce(t: State, h: DID, at: Time)
    requires !RetiredByRecovery(t, h)
    ensures Plausible(t, [DoReinstate(h, at)]) && HolderBan(h) !in Run(t, [DoReinstate(h, at)]).bans
  {
    var rs := [DoReinstate(h, at)];
    var u := Step(t, rs[0]);
    assert Run(u, rs[1..]) == u && Plausible(u, rs[1..]);
  }

  lemma OnlyHolderBan(s: State, h: DID, rec: BanRecord, order: seq<Nullifier>)
    ensures CutOff(s, RevokePlan(s, h, rec, order), 1) == ApplyOp(s, BanOp(HolderBan(h), rec))
  {
    var plan := RevokePlan(s, h, rec, order);
    var prefix := if 1 < |plan| then plan[..1] else plan;
    assert prefix == [BanOp(HolderBan(h), rec)];
    assert ApplyOps(ApplyOp(s, prefix[0]), prefix[1..]) == ApplyOp(s, prefix[0]);
  }

  /** From empty stores: a revocation that stops after the holder ban, the
      retirement of the same key, and a reinstatement that lifts its ban. */
  lemma RetiredThenReinstated(h: DID, rec: BanRecord, order: seq<Nullifier>, at: Time, writes: nat)
    returns (rs: seq<Request>)
    requires writes > 0 && !("recovered:" <= rec.reason) && Enumerates(order, NullifiersOf(Empty, h))
    ensures rs == [DoRevoke(h, rec, order, 1), DoRetire(h, at, writes), DoReinstate(h, at)]
    ensures Plausible(Empty, rs) && HolderBan(h) !in Run(Empty, rs).bans
  {
    var revoke, retire, reinstate := DoRevoke(h, rec, order, 1), DoRetire(h, at, writes), DoReinstate(h, at);
    var s1 := Step(Empty, revoke);
    OnlyHolderBan(Empty, h, rec, order);
    assert s1.bans[HolderBan(h)] == rec;
    var s2 := Step(s1, retire);
    RetireBans(s1, h, at, writes);
    ReinstatedOnce(s2, h, at);
    rs := [revoke, retire, reinstate];
    var rest := [retire, reinstate];
    assert rs[1..] == rest && rest[1..] == [reinstate];
    assert Run(s1, rest) == Run(s2, [reinstate]) && Run(Empty, rs) == Run(s1, rest);
  }

  // --- What every run keeps ----------------------------------------------------

  /** Slots: owners are distinct and inside the list; the revoked slots are
      exactly those whose owner was revoked. */
  ghost predicate SlotsConsistent(s: State) {
    && (forall i :: i in s.slots.used ==> i < STATUS_LIST_SIZE)
    && (forall c :: c in s.slots.byCred ==> s.slots.byCred[c] in s.slots.used)
    && (forall c, d :: c in s.slots.byCred && d in s.slots.byCred && c != d ==> s.slots.byCred[c] != s.slots.byCred[d])
    && s.revokedCreds <= s.slots.byCred.Keys
    && s.slots.revoked == set c | c in s.revokedCreds && c in s.slots.byCred :: s.slots.byCred[c]
  }

  ghost predicate Recorded(s: State, h: DID, c: CredentialId) {
    exists r :: r in RecordsOf(s, h) && r.credential == c
  }

  /** The ledger knows only bound credentials, and every credential handed out
      is bound and in its holder's ledger. */
  ghost predicate LedgerComplete(s: State) {
    && (forall h, r :: r in RecordsOf(s, h) ==> r.credential in s.slots.byCred)
    && (forall hc :: hc in s.handedOut ==> hc.1 in s.slots.byCred && Recorded(s, hc.0, hc.1))
  }

  ghost predicate Inv(s: State) {
    SlotsConsistent(s) && LedgerComplete(s)
  }

  /** What is bound, revoked, recorded or handed out stays so. */
  ghost predicate Grows(s: State, t: State) {
    && (forall c :: c in s.slots.byCred ==> c in t.slots.byCred && t.slots.byCred[c] == s.slots.byCred[c])
    && s.slots.revoked <= t.slots.revoked && s.handedOut <= t.handedOut
    && (forall h :: RecordsOf(s, h) <= RecordsOf(t, h))
  }

  lemma OpsKeepInv(s: State, ops: seq<Op>)
    requires Inv(s)
    ensures Inv(ApplyOps(s, ops)) && Grows(s, ApplyOps(s, ops))
  {
    var t := ApplyOps(s, ops);
    OpsEffect(s, ops);
    assert forall h :: RecordsOf(t, h) == RecordsOf(s, h);
    assert forall h, c :: Recorded(s, h, c) ==> Recorded(t, h, c);
    assert t.slots.revoked == set c | c in t.revokedCreds && c in t.slots.byCred :: t.slots.byCred[c];
  }

  /** Binding a fresh credential to a slot nobody has used keeps owners distinct. */
  lemma BindKeepsSlots(s: State, t: State, cred: CredentialId, slot: nat)
    requires SlotsConsistent(s) && cred !in s.slots.byCred && slot !in s.slots.used && slot < STATUS_LIST_SIZE
    requires t.slots == Slots(s.slots.used + {slot}, s.slots.byCred[cred := slot], s.slots.revoked)
    requires t.revokedCreds == s.revokedCreds
    ensures SlotsConsistent(t)
  {
    assert t.slots.revoked == set c | c in t.revokedCreds && c in t.slots.byCred :: t.slots.byCred[c];
  }

  lemma IssueKeepsSlots(s: State, req: IssueRequest)
    requires SlotsConsistent(s) && Admissible(s, DoIssue(req))
    ensures SlotsConsistent(Issue(s, req))
  {
    FirstFreeIsFree(s.slots.used, req.draws);
    var t := Issue(s, req);
    if t.slots.byCred != s.slots.byCred {
      BindKeepsSlots(s, t, req.cred, FirstFree(s.slots.used, req.draws).value);
    }
  }

  ghost function RecordOf(req: IssueRequest): IssuanceRecord {
    IssuanceRecord(req.cred, req.Nullifiers(), req.now)
  }

  /** Wherever it stopped, an issuance recorded its credential only after
      binding it and handed it out only after recording it. */
  lemma IssueShape(s: State, req: IssueRequest)
    ensures var t := Issue(s, req);
            var slot := FirstFree(s.slots.used, req.draws);
            var bound := slot.Some? && t.slots.byCred == s.slots.byCred[req.cred := slot.value];
            var recorded := t.issuances == s.issuances[req.holder := RecordsOf(s, req.holder) + [RecordOf(req)]];
            && t.bans == s.bans && t.slots.revoked == s.slots.revoked && t.revokedCreds == s.revokedCreds
            && (bound || t.slots.byCred == s.slots.byCred)
            && ((recorded && bound) || t.issuances == s.issuances)
            && (t.handedOut == s.handedOut
                || (recorded && bound && t.handedOut == s.handedOut + {(req.holder, req.cred)}))
            && (t == s || !Refused(s, req))
  {}

  lemma IssueRecords(s: State, req: IssueRequest, h: DID)
    ensures RecordsOf(s, h) <= RecordsOf(Issue(s, req), h)
    ensures forall r :: r in RecordsOf(Issue(s, req), h) && r !in RecordsOf(s, h) ==>
      h == req.holder && r == RecordOf(req)
  {
    IssueShape(s, req);
  }

  lemma IssueKeepsLedger(s: State, req: IssueRequest)
    requires LedgerComplete(s) && Admissible(s, DoIssue(req))
    ensures LedgerComplete(Issue(s, req)) && Grows(s, Issue(s, req))
  {
    var t := Issue(s, req);
    IssueShape(s, req);
    forall h
      ensures RecordsOf(s, h) <= RecordsOf(t, h)
      ensures forall r :: r in RecordsOf(t, h) ==> r.credential in t.slots.byCred
    {
      IssueRecords(s, req, h);
    }
    forall hc | hc in t.handedOut
      ensures hc.1 in t.slots.byCred && Recorded(t, hc.0, hc.1)
    {
      if hc in s.handedOut {
        var r :| r in RecordsOf(s, hc.0) && r.credential == hc.1;
        assert r in RecordsOf(t, hc.0);
      } else {
        assert RecordOf(req) in RecordsOf(t, req.holder);
      }
    }
  }

  lemma StepKeepsInv(s: State, r: Request)
    requires Inv(s) && Admissible(s, r)
    ensures Inv(Step(s, r)) && Grows(s, Step(s, r))
  {
    match r
    case DoIssue(req) =>
      IssueKeepsSlots(s, req);
      IssueKeepsLedger(s, req);
    case DoRevoke(h, rec, order, writes) =>
      var plan := RevokePlan(s, h, rec, order);
      OpsKeepInv(s, if writes < |plan| then plan[..writes] else plan);
    case DoRetire(h, at, writes) =>
      var plan := RetirePlan(s, h, at);
      OpsKeepInv(s, if writes < |plan| then plan[..writes] else plan);
    case DoRevokeCredential(cred) =>
      OpsKeepInv(s, [RevokeOp(cred)]);
      assert ApplyOps(s, [RevokeOp(cred)]) == ApplyOp(s, RevokeOp(cred));
    case DoReinstate(h, at) =>
      var t := Reinstate(s, h, at);
      assert forall h :: RecordsOf(t, h) == RecordsOf(s, h);
      assert forall h, c :: Recorded(s, h, c) ==> Recorded(t, h, c);
  }

  lemma {:induction false} RunKeepsInv(s: State, rs: seq<Request>)
    requires Inv(s) && Plausible(s, rs)
    ensures Inv(Run(s, rs)) && Grows(s, Run(s, rs))
    decreases |rs|
  {
    if rs != [] {
      StepKeepsInv(s, rs[0]);
      RunKeepsInv(Step(s, rs[0]), rs[1..]);
    }
  }

  lemma EmptyInv()
    ensures Inv(Empty)
  {}

  /** From empty stores: distinct credentials own distinct slots inside the
      list, and a slot is revoked exactly when its owner was. */
  lemma SlotsNeverShared(rs: seq<Request>)
    requires Plausible(Empty, rs)
    ensures var s := Run(Empty, rs);
            && (forall c, d :: c in s.slots.byCred && d in s.slots.byCred && c != d ==>
                 s.slots.byCred[c] != s.slots.byCred[d])
            && (forall c :: c in s.slots.byCred ==> s.slots.byCred[c] < STATUS_LIST_SIZE)
            && (forall c :: c in s.slots.byCred ==> (s.slots.byCred[c] in s.slots.revoked <==> c in s.revokedCreds))
            && (forall i :: i in s.slots.revoked ==>
                  && i < STATUS_LIST_SIZE
                  && exists c :: c in s.revokedCreds && c in s.slots.byCred && s.slots.byCred[c] == i)
  {
    EmptyInv();
    RunKeepsInv(Empty, rs);
  }

  // --- Revocation reaches everything handed out --------------------------------

  ghost predicate AllRevoked(s: State, handed: set<(DID, CredentialId)>, h: DID) {
    forall c :: (h, c) in handed ==> c in s.slots.byCred && s.slots.byCred[c] in s.slots.revoked
  }

  /** A plan that revokes every record of h reaches every credential handed out to h. */
  lemma PlanRevokesHanded(s: State, h: DID, plan: seq<Op>)
    requires Inv(s) && forall r :: r in RecordsOf(s, h) ==> RevokeOp(r.credential) in plan
    ensures AllRevoked(ApplyOps(s, plan), s.handedOut, h)
  {
    OpsEffect(s, plan);
    forall c | (h, c) in s.handedOut
      ensures c in s.slots.byCred && s.slots.byCred[c] in SlotsRevoked(s, plan)
    {
      assert Recorded(s, h, c);
      var r :| r in RecordsOf(s, h) && r.credential == c;
      assert RevokeOp(c) in plan;
    }
  }

  /** Once revokeHolder(h) has finished, every credential handed out to h before
      is revoked, in every later state of any run. */
  lemma RevokedForever(before: seq<Request>, h: DID, rec: BanRecord, order: seq<Nullifier>, after: seq<Request>)
    requires Plausible(Empty, before)
    requires var s := Run(Empty, before);
             Enumerates(order, NullifiersOf(s, h)) && Plausible(ApplyOps(s, RevokePlan(s, h, rec, order)), after)
    ensures var s := Run(Empty, before);
            AllRevoked(Run(ApplyOps(s, RevokePlan(s, h, rec, order)), after), s.handedOut, h)
  {
    var s := Run(Empty, before);
    var plan := RevokePlan(s, h, rec, order);
    EmptyInv();
    RunKeepsInv(Empty, before);
    forall r | r in RecordsOf(s, h)
      ensures RevokeOp(r.credential) in plan
    {
      PlanMembers(s, h, rec, order, RevokeOp(r.credential));
    }
    PlanRevokesHanded(s, h, plan);
    OpsKeepInv(s, plan);
    RunKeepsInv(ApplyOps(s, plan), after);
  }

  /** The same once retireRecoveredHolder(h) has finished. */
  lemma RetiredForever(before: seq<Request>, h: DID, at: Time, after: seq<Request>)
    requires Plausible(Empty, before)
    requires var s := Run(Empty, before); Plausible(ApplyOps(s, RetirePlan(s, h, at)), after)
    ensures var s := Run(Empty, before);
            AllRevoked(Run(ApplyOps(s, RetirePlan(s, h, at)), after), s.handedOut, h)
  {
    var s := Run(Empty, before);
    var plan := RetirePlan(s, h, at);
    EmptyInv();
    RunKeepsInv(Empty, before);
    forall r | r in RecordsOf(s, h)
      ensures RevokeOp(r.credential) in plan
    {
      RevokeOpsMembers(RecordsOf(s, h), RevokeOp(r.credential));
    }
    PlanRevokesHanded(s, h, plan);
    OpsKeepInv(s, plan);
    RunKeepsInv(ApplyOps(s, plan), after);
  }

  /** The bits handleStatusList publishes in s: one per revoked slot. */
  ghost predicate Publishes(bits: seq<Bits.byte>, s: State) {
    forall i: nat :: Bits.BitAt(bits, i) <==> i in s.slots.revoked
  }

  /** Whatever is published at any time after revokeHolder(h) finished has the bit
      of every credential handed out to h before it set. */
  lemma RevokedPublished(before: seq<Request>, h: DID, rec: BanRecord, order: seq<Nullifier>, after: seq<Request>,
                         bits: seq<Bits.byte>)
    requires Plausible(Empty, before)
    requires var s := Run(Empty, before);
             && Enumerates(order, NullifiersOf(s, h)) && Plausible(ApplyOps(s, RevokePlan(s, h, rec, order)), after)
             && Publishes(bits, Run(ApplyOps(s, RevokePlan(s, h, rec, order)), after))
    ensures var s := Run(Empty, before);
            var end := Run(ApplyOps(s, RevokePlan(s, h, rec, order)), after);
            forall c :: (h, c) in s.handedOut ==> c in end.slots.byCred && Bits.BitAt(bits, end.slots.byCred[c])
  {
    RevokedForever(before, h, rec, order, after);
  }

  /** The same once retireRecoveredHolder(h) has finished. */
  lemma RetiredPublished(before: seq<Request>, h: DID, at: Time, after: seq<Request>, bits: seq<Bits.byte>)
    requires Plausible(Empty, before)
    requires var s := Run(Empty, before);
             && Plausible(ApplyOps(s, RetirePlan(s, h, at)), after)
             && Publishes(bits, Run(ApplyOps(s, RetirePlan(s, h, at)), after))
    ensures var s := Run(Empty, before);
            var end := Run(ApplyOps(s, RetirePlan(s, h, at)), after);
            forall c :: (h, c) in s.handedOut ==> c in end.slots.byCred && Bits.BitAt(bits, end.slots.byCred[c])
  {
    RetiredForever(before, h, at, after);
  }

  // --- A revoked person does not come back -------------------------------------

  /** h and every nullifier of its records are banned, and the records are those of base. */
  ghost predicate Barred(base: State, s: State, h: DID) {
    && HolderBan(h) in s.bans && RecordsOf(s, h) == RecordsOf(base, h)
    && forall n :: n in NullifiersOf(base, h) ==> NullifierBan(n) in s.bans
  }

  /** No record of a credential handed out since base carries a nullifier of h. */
  ghost predicate NoReturn(base: State, s: State, h: DID) {
    forall hc, h', r :: hc in s.handedOut && hc !in base.handedOut && r in RecordsOf(s, h') && r.credential == hc.1 ==>
      forall n :: n in r.nullifiers ==> n !in NullifiersOf(base, h)
  }

  /** A session that brings one of the barred nullifiers, as its own binding, its
      holder key or an overridden identifier, gets nothing, under any DID. */
  lemma BarredSessionGetsNothing(base: State, s: State, h: DID, req: IssueRequest, n: Nullifier)
    requires Barred(base, s, h) && n in NullifiersOf(base, h)
    requires req.binding == Some(n) || (req.holderKey.Some? && n == HolderKey(req.holderKey.value))
             || req.overridden == Some(n)
    ensures Issue(s, req) == s
  {
    SessionNullifiersExact(req.binding, req.holderKey, req.overridden);
    var i :| 0 <= i < |req.Nullifiers()| && req.Nullifiers()[i] == n;
    assert Refused(s, req);
  }

  lemma NotRefused(base: State, s: State, h: DID, req: IssueRequest)
    requires Barred(base, s, h) && !Refused(s, req)
    ensures req.holder != h && forall n :: n in req.Nullifiers() ==> n !in NullifiersOf(base, h)
  {
    forall n | n in req.Nullifiers()
      ensures n !in NullifiersOf(base, h)
    {
      var i :| 0 <= i < |req.Nullifiers()| && req.Nullifiers()[i] == n;
    }
  }

  lemma IssueKeepsBarred(base: State, s: State, h: DID, req: IssueRequest)
    requires Inv(s) && Barred(base, s, h) && NoReturn(base, s, h) && Admissible(s, DoIssue(req))
    ensures Barred(base, Issue(s, req), h) && NoReturn(base, Issue(s, req), h)
  {
    var t := Issue(s, req);
    IssueShape(s, req);
    if !Refused(s, req) {
      NotRefused(base, s, h, req);
      forall hc, h', r | hc in t.handedOut && hc !in base.handedOut && r in RecordsOf(t, h') && r.credential == hc.1
        ensures forall n :: n in r.nullifiers ==> n !in NullifiersOf(base, h)
      {
        IssueRecords(s, req, h');
        assert r in RecordsOf(s, h') ==> r.credential in s.slots.byCred;
      }
    }
  }

  lemma OpsKeepBarred(base: State, s: State, h: DID, ops: seq<Op>)
    requires Barred(base, s, h) && NoReturn(base, s, h)
    ensures Barred(base, ApplyOps(s, ops), h) && NoReturn(base, ApplyOps(s, ops), h)
  {
    OpsEffect(s, ops);
    assert forall g :: RecordsOf(ApplyOps(s, ops), g) == RecordsOf(s, g);
  }

  lemma {:induction false} RunKeepsBarred(base: State, s: State, h: DID, rs: seq<Request>)
    requires Inv(s) && Plausible(s, rs) && Barred(base, s, h) && NoReturn(base, s, h)
    requires forall r :: r in rs ==> !r.DoReinstate?
    ensures Barred(base, Run(s, rs), h) && NoReturn(base, Run(s, rs), h)
    decreases |rs|
  {
    if rs != [] {
      StepKeepsInv(s, rs[0]);
      match rs[0] {
        case DoIssue(req) =>
          IssueKeepsBarred(base, s, h, req);
        case DoRevoke(g, rec, order, writes) =>
          var plan := RevokePlan(s, g, rec, order);
          OpsKeepBarred(base, s, h, if writes < |plan| then plan[..writes] else plan);
        case DoRetire(g, at, writes) =>
          var plan := RetirePlan(s, g, at);
          OpsKeepBarred(base, s, h, if writes < |plan| then plan[..writes] else plan);
        case DoRevokeCredential(cred) =>
          OpsKeepBarred(base, s, h, [RevokeOp(cred)]);
          assert ApplyOps(s, [RevokeOp(cred)]) == ApplyOp(s, RevokeOp(cred));
        case DoReinstate(_, _) =>
      }
      RunKeepsBarred(base, Step(s, rs[0]), h, rs[1..]);
    }
  }

  /** In a run without reinstatement, no credential handed out after
      revokeHolder(h), under any holder key, is recorded with a nullifier that
      any issuance record of h carries. */
  lemma RevokedPersonNeverReturns(before: seq<Request>, h: DID, rec: BanRecord, order: seq<Nullifier>,
                                  after: seq<Request>)
    requires Plausible(Empty, before)
    requires var s := Run(Empty, before);
             Enumerates(order, NullifiersOf(s, h)) && Plausible(ApplyOps(s, RevokePlan(s, h, rec, order)), after)
    requires forall r :: r in after ==> !r.DoReinstate?
    ensures var base := ApplyOps(Run(Empty, before), RevokePlan(Run(Empty, before), h, rec, order));
            var end := Run(base, after);
            RecordsOf(end, h) == RecordsOf(base, h) && NoReturn(base, end, h)
  {
    var s := Run(Empty, before);
    var base := ApplyOps(s, RevokePlan(s, h, rec, order));
    EmptyInv();
    RunKeepsInv(Empty, before);
    OpsKeepInv(s, RevokePlan(s, h, rec, order));
    RevokeEffect(s, h, rec, order);
    RevokedState(s, h, rec, order);
    RunKeepsBarred(base, base, h, after);
  }
}
