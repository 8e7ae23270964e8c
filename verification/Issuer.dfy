/** The issuer's durable state and the operations that change it: issuance
    (src/server/handlers.go), the revocation cascade (holderrevoke.go), the
    retirement of a recovered key (recovery.go) and reinstatement (review.go). */
module Issuer {
  import opened Wrappers
  import opened RevocationStore
  import DidKey
  import E = Equivocation

  type DID = string
  type Session = string

  /** A nullifier commitment: a domain-tagged SHA-256, injective in its input. */
  datatype Nullifier = HolderKey(pub: seq<nat>) | Face(digest: string) | Identifier(seed: string)

  datatype IssuanceRecord = IssuanceRecord(credential: CredentialId, nullifiers: seq<Nullifier>, issuedAt: Time)

  datatype BanKey = HolderBan(holder: DID) | NullifierBan(nullifier: Nullifier) | Pardon(evidence: E.Evidence)

  datatype BanRecord = BanRecord(reason: string, evidence: Option<E.Evidence>, at: Time)

  /** The stores, with two history variables that no decision reads: the
      credentials returned to clients and the bound credentials whose bit a
      revocation has set. */
  datatype State = State(
    slots: Slots, issuances: map<DID, seq<IssuanceRecord>>, bans: map<BanKey, BanRecord>,
    claims: map<Session, CredentialId>, marked: set<Session>,
    handedOut: set<(DID, CredentialId)>, revokedCreds: set<CredentialId>)

  const Empty: State := State(Slots({}, map[], {}), map[], map[], map[], {}, {}, {})

  const RECOVERED_REASON: string := "recovered: identity moved to a new holder key"

  // --- Ledger reads ------------------------------------------------------------

  function RecordsOf(s: State, h: DID): seq<IssuanceRecord> {
    if h in s.issuances then s.issuances[h] else []
  }

  /** The holder-key nullifier is a function of the key the DID names. */
  function KeyNullifiers(h: DID): set<Nullifier> {
    match DidKey.Ed25519FromDIDKey(h)
    case Success(pub) => {HolderKey(pub)}
    case Failure(_) => {}
  }

  function NullifiersIn(recs: seq<IssuanceRecord>): set<Nullifier> {
    set r, n | r in recs && n in r.nullifiers :: n
  }

  /** Every nullifier revokeHolder bans and reinstate lifts. */
  function NullifiersOf(s: State, h: DID): set<Nullifier> {
    KeyNullifiers(h) + NullifiersIn(RecordsOf(s, h))
  }

  /** sessionNullifierCommitments: the credential's own binding, the holder-key
      binding and an overridden identifier seed, without repetitions. */
  function SessionNullifiers(binding: Option<Nullifier>, holderKey: Option<seq<nat>>,
                             overridden: Option<Nullifier>): seq<Nullifier> {
    var own := match binding case Some(n) => [n] case None => [];
    var withKey := match holderKey case Some(pub) => AddNew(own, HolderKey(pub)) case None => own;
    match overridden case Some(n) => AddNew(withKey, n) case None => withKey
  }

  function AddNew(ns: seq<Nullifier>, n: Nullifier): seq<Nullifier> {
    if n in ns then ns else ns + [n]
  }

  /** The list holds exactly the bindings the session touched, each once. */
  lemma SessionNullifiersExact(binding: Option<Nullifier>, holderKey: Option<seq<nat>>, overridden: Option<Nullifier>)
    ensures var ns := SessionNullifiers(binding, holderKey, overridden);
            && (forall n :: n in ns <==>
                  binding == Some(n) || (holderKey.Some? && n == HolderKey(holderKey.value)) || overridden == Some(n))
            && (forall i, j :: 0 <= i < j < |ns| ==> ns[i] != ns[j])
  {}

  // --- Store writes ------------------------------------------------------------

  datatype Op = BanOp(key: BanKey, rec: BanRecord) | RevokeOp(cred: CredentialId)

  /** Bans are create-only: the first record is kept. */
  function BanOnce(bans: map<BanKey, BanRecord>, key: BanKey, rec: BanRecord): map<BanKey, BanRecord> {
    if key in bans then bans else bans[key := rec]
  }

  function ApplyOp(s: State, op: Op): State {
    match op
    case BanOp(key, rec) => s.(bans := BanOnce(s.bans, key, rec))
    case RevokeOp(cred) =>
      s.(slots := RevokeSlot(s.slots, cred),
         revokedCreds := s.revokedCreds + if cred in s.slots.byCred then {cred} else {})
  }

  function ApplyOps(s: State, ops: seq<Op>): State
    decreases |ops|
  {
    if ops == [] then s else ApplyOps(ApplyOp(s, ops[0]), ops[1..])
  }

  function RevokeOps(recs: seq<IssuanceRecord>): seq<Op> {
    seq(|recs|, i requires 0 <= i < |recs| => RevokeOp(recs[i].credential))
  }

  function BanOps(order: seq<Nullifier>, rec: BanRecord): seq<Op> {
    seq(|order|, i requires 0 <= i < |order| => BanOp(NullifierBan(order[i]), rec))
  }

  /** order lists the nullifiers in the order the map iteration yields them. */
  ghost predicate Enumerates(order: seq<Nullifier>, ns: set<Nullifier>) {
    forall n :: n in order <==> n in ns
  }

  /** revokeHolder's store writes: the holder ban, a revocation per issuance
      record, a ban per nullifier. */
  function RevokePlan(s: State, h: DID, rec: BanRecord, order: seq<Nullifier>): seq<Op> {
    [BanOp(HolderBan(h), rec)] + RevokeOps(RecordsOf(s, h)) + BanOps(order, rec)
  }

  /** retireRecoveredHolder's store writes: the holder ban and the revocations;
      the nullifiers live on under the new key. */
  function RetirePlan(s: State, h: DID, at: Time): seq<Op> {
    [BanOp(HolderBan(h), BanRecord(RECOVERED_REASON, None, at))] + RevokeOps(RecordsOf(s, h))
  }

  /** A run that the store fails after `writes` successful writes. */
  function CutOff(s: State, plan: seq<Op>, writes: nat): State {
    ApplyOps(s, if writes < |plan| then plan[..writes] else plan)
  }

  // --- Issuance ----------------------------------------------------------------

  /** One issue call. binding, holderKey and overridden are the session's three
      sources of nullifiers; draws are the random slots; cred is the id the signer
      picks; the stores fail after `writes` successful writes. */
  datatype IssueRequest = IssueRequest(
    session: Session, holder: DID, binding: Option<Nullifier>, holderKey: Option<seq<nat>>,
    overridden: Option<Nullifier>,
    draws: seq<nat>, cred: CredentialId, now: Time, writes: nat)
  {
    /** What is checked against the bans and recorded. */
    function Nullifiers(): seq<Nullifier> {
      SessionNullifiers(binding, holderKey, overridden)
    }
  }

  predicate Refused(s: State, req: IssueRequest) {
    || req.session in s.marked
    || HolderBan(req.holder) in s.bans
    || exists i :: 0 <= i < |req.Nullifiers()| && NullifierBan(req.Nullifiers()[i]) in s.bans
  }

  /** The state after the writes that succeeded: claim a slot, bind it, record
      the issuance, claim the session, mark the session. Only a call whose
      writes all succeed hands its credential out. */
  function Issue(s: State, req: IssueRequest): State {
    if Refused(s, req) || req.writes == 0 then s
    else match FirstFree(s.slots.used, req.draws)
      case None => s
      case Some(slot) =>
        var s1 := s.(slots := s.slots.(used := s.slots.used + {slot}));
        if req.writes == 1 then s1
        else
          var s2 := s1.(slots := s1.slots.(byCred := s1.slots.byCred[req.cred := slot]));
          if req.writes == 2 then s2
          else
            var rec := IssuanceRecord(req.cred, req.Nullifiers(), req.now);
            var s3 := s2.(issuances := s2.issuances[req.holder := RecordsOf(s2, req.holder) + [rec]]);
            if req.writes == 3 || req.session in s.claims then s3
            else
              var s4 := s3.(claims := s3.claims[req.session := req.cred]);
              if req.writes == 4 then s4
              else s4.(marked := s4.marked + {req.session}, handedOut := s4.handedOut + {(req.holder, req.cred)})
  }

  // --- Reinstatement -----------------------------------------------------------

  ghost predicate RetiredByRecovery(s: State, h: DID) {
    HolderBan(h) in s.bans && "recovered:" <= s.bans[HolderBan(h)].reason
  }

  /** reinstate: pardon the evidence of the holder's ban, lift the nullifier
      bans and the holder ban. Credentials stay revoked. */
  ghost function Reinstate(s: State, h: DID, now: Time): State {
    if RetiredByRecovery(s, h) then s
    else
      s.(bans := Pardoned(s.bans, h, now) - (LiftedBans(s, h) + {HolderBan(h)}))
  }

  predicate CarriesEvidence(bans: map<BanKey, BanRecord>, h: DID) {
    HolderBan(h) in bans && bans[HolderBan(h)].evidence.Some?
  }

  function Pardoned(bans: map<BanKey, BanRecord>, h: DID, now: Time): map<BanKey, BanRecord> {
    if CarriesEvidence(bans, h) then
      BanOnce(bans, Pardon(bans[HolderBan(h)].evidence.value), BanRecord("pardoned after review of " + h, None, now))
    else bans
  }

  ghost function NullifierBans(ns: set<Nullifier>): set<BanKey> {
    set n | n in ns :: NullifierBan(n)
  }

  ghost function LiftedBans(s: State, h: DID): set<BanKey> {
    NullifierBans(NullifiersOf(s, h))
  }

  // --- Equivocation ------------------------------------------------------------

  /** handleEquivocation: a valid proof that was not pardoned revokes the key's holder. */
  ghost function HandleEquivocation(s: State, crypto: E.Crypto, p: E.EquivocationProof, order: seq<Nullifier>,
                                    now: Time): State {
    match E.Verify(crypto, p)
    case Failure(_) => s
    case Success(pub) =>
      match DidKey.DIDKeyFromEd25519(pub)
      case Failure(_) => s
      case Success(h) =>
        var digest := E.EquivocationDigest(pub, p);
        if Pardon(digest) in s.bans then s
        else ApplyOps(s, RevokePlan(s, h, BanRecord("equivocation: " + p.context, Some(digest), now), order))
  }
}
