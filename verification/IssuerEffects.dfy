/** What the issuer's operations do to its stores, ban by ban and slot by slot:
    the sentences the code's comments make, without the plans they are carried
    out by. */
module IssuerEffects {
  import opened Wrappers
  import opened RevocationStore
  import opened Issuer
  import opened IssuerRuns
  import DidKey
  import E = Equivocation

  /** r is one of h's issuance records. */
  ghost predicate IssuedTo(s: State, h: DID, r: IssuanceRecord) {
    h in s.issuances && r in s.issuances[h]
  }

  /** The holder key's own nullifier, or one that a record of h carries. */
  ghost predicate Touched(s: State, h: DID, n: Nullifier) {
    || (exists pub :: DidKey.Ed25519FromDIDKey(h) == Success(pub) && n == HolderKey(pub))
    || (exists r :: IssuedTo(s, h, r) && n in r.nullifiers)
  }

  /** A slot that a credential issued to h is bound to. */
  ghost predicate SlotOf(s: State, h: DID, slot: nat) {
    exists r :: IssuedTo(s, h, r) && r.credential in s.slots.byCred && s.slots.byCred[r.credential] == slot
  }

  lemma NullifiersAre(s: State, h: DID)
    ensures forall n :: n in NullifiersOf(s, h) <==> Touched(s, h, n)
  {
    forall n
      ensures n in NullifiersOf(s, h) <==> Touched(s, h, n)
    {
      if n in NullifiersOf(s, h) && n !in KeyNullifiers(h) {
        var r :| r in RecordsOf(s, h) && n in r.nullifiers;
        assert IssuedTo(s, h, r);
      }
    }
  }

  lemma SlotsAre(s: State, h: DID)
    ensures forall i :: i in TargetSlots(s, h) <==> SlotOf(s, h, i)
  {
    forall i
      ensures i in TargetSlots(s, h) <==> SlotOf(s, h, i)
    {
      if i in TargetSlots(s, h) {
        var r :| r in RecordsOf(s, h) && r.credential in s.slots.byCred && s.slots.byCred[r.credential] == i;
        assert IssuedTo(s, h, r);
      }
      if SlotOf(s, h, i) {
        var r :| IssuedTo(s, h, r) && r.credential in s.slots.byCred && s.slots.byCred[r.credential] == i;
        assert r in RecordsOf(s, h);
      }
    }
  }

  /** A finished revocation bans the holder and every nullifier it touched, sets
      the bit of every credential issued to it, and does nothing else. */
  lemma RevocationIs(s: State, h: DID, rec: BanRecord, order: seq<Nullifier>)
    requires Enumerates(order, NullifiersOf(s, h))
    ensures var t := ApplyOps(s, RevokePlan(s, h, rec, order));
            && (forall k ::
                  k in t.bans <==> k in s.bans || k == HolderBan(h) || (k.NullifierBan? && Touched(s, h, k.nullifier)))
            && (forall k :: k in s.bans ==> t.bans[k] == s.bans[k])
            && (forall i :: i in t.slots.revoked <==> i in s.slots.revoked || SlotOf(s, h, i))
            && SameRecords(s, t)
  {
    var plan := RevokePlan(s, h, rec, order);
    RevokeEffect(s, h, rec, order);
    OpsBan(s, plan);
    NullifiersAre(s, h);
    SlotsAre(s, h);
    var t := ApplyOps(s, plan);
    forall k
      ensures k in t.bans <==> k in s.bans || k == HolderBan(h) || (k.NullifierBan? && Touched(s, h, k.nullifier))
    {
      assert k in t.bans <==> k in t.bans.Keys;
      assert k in LiftedBans(s, h) <==> k.NullifierBan? && k.nullifier in NullifiersOf(s, h);
    }
  }

  /** A finished retirement bans the old key alone, for this reason unless it was
      banned already; its nullifiers stay as they were. */
  lemma RetirementIs(s: State, h: DID, at: Time)
    ensures var t := ApplyOps(s, RetirePlan(s, h, at));
            && (forall k :: k in t.bans <==> k in s.bans || k == HolderBan(h))
            && (forall k :: k in s.bans ==> t.bans[k] == s.bans[k])
            && (HolderBan(h) !in s.bans ==>
                  t.bans[HolderBan(h)] == BanRecord("recovered: identity moved to a new holder key", None, at))
            && (forall i :: i in t.slots.revoked <==> i in s.slots.revoked || SlotOf(s, h, i))
            && SameRecords(s, t)
  {
    var plan := RetirePlan(s, h, at);
    OpsEffect(s, plan);
    RetireBans(s, h, at, |plan|);
    assert Step(s, DoRetire(h, at, |plan|)) == ApplyOps(s, plan);
    SlotsAre(s, h);
    forall op
      ensures op in plan <==> op == plan[0] || exists r :: r in RecordsOf(s, h) && op == RevokeOp(r.credential)
    {
      RevokeOpsMembers(RecordsOf(s, h), op);
    }
    assert KeysBanned(plan) == {HolderBan(h)} by {
      assert plan[0] in plan;
    }
    assert SlotsRevoked(s, plan) == TargetSlots(s, h) by {
      forall r | r in RecordsOf(s, h) && r.credential in s.slots.byCred
        ensures s.slots.byCred[r.credential] in SlotsRevoked(s, plan)
      {
        assert RevokeOp(r.credential) in plan;
      }
    }
  }

  /** A reinstatement is refused for a key that a recovery retired. Otherwise it
      lifts the holder's ban and those of the nullifiers it touched, pardons the
      evidence that ban carried, and leaves revoked credentials revoked. */
  lemma ReinstatementIs(s: State, h: DID, now: Time)
    ensures var t := Reinstate(s, h, now);
            && t.slots == s.slots && SameRecords(s, t)
            && if HolderBan(h) in s.bans && "recovered:" <= s.bans[HolderBan(h)].reason then t == s
               else forall k :: k in t.bans <==>
                      || (k in s.bans && k != HolderBan(h) && !(k.NullifierBan? && Touched(s, h, k.nullifier)))
                      || (k.Pardon? && HolderBan(h) in s.bans && s.bans[HolderBan(h)].evidence == Some(k.evidence))
  {
    NullifiersAre(s, h);
    if !(HolderBan(h) in s.bans && "recovered:" <= s.bans[HolderBan(h)].reason) {
      var t := Reinstate(s, h, now);
      forall k
        ensures k in t.bans <==>
                  || (k in s.bans && k != HolderBan(h) && !(k.NullifierBan? && Touched(s, h, k.nullifier)))
                  || (k.Pardon? && HolderBan(h) in s.bans && s.bans[HolderBan(h)].evidence == Some(k.evidence))
      {
        assert k in LiftedBans(s, h) <==> k.NullifierBan? && k.nullifier in NullifiersOf(s, h);
        assert k in Pardoned(s.bans, h, now) <==>
               k in s.bans
                 || (k.Pardon? && HolderBan(h) in s.bans && s.bans[HolderBan(h)].evidence == Some(k.evidence));
      }
    }
  }

  /** A posted proof convicts the holder of the key it names, with the digest of
      the proof as evidence, exactly when it is accepted and not pardoned. */
  lemma EquivocationIs(s: State, crypto: E.Crypto, p: E.EquivocationProof, order: seq<Nullifier>, now: Time)
    ensures var t := HandleEquivocation(s, crypto, p, order, now);
            var accepted := E.Verify(crypto, p).Success?
              && DidKey.DIDKeyFromEd25519(E.Verify(crypto, p).value).Success?;
            if accepted && Pardon(E.EquivocationDigest(E.Verify(crypto, p).value, p)) !in s.bans then
              var h := DidKey.DIDKeyFromEd25519(E.Verify(crypto, p).value).value;
              var rec :=
                BanRecord("equivocation: " + p.context, Some(E.EquivocationDigest(E.Verify(crypto, p).value, p)), now);
              && HolderBan(h) in t.bans
              && (HolderBan(h) !in s.bans ==> t.bans[HolderBan(h)] == rec)
              && t == ApplyOps(s, RevokePlan(s, h, rec, order))
            else t == s
  {
    var accepted := E.Verify(crypto, p).Success? && DidKey.DIDKeyFromEd25519(E.Verify(crypto, p).value).Success?;
    if accepted && Pardon(E.EquivocationDigest(E.Verify(crypto, p).value, p)) !in s.bans {
      var h := DidKey.DIDKeyFromEd25519(E.Verify(crypto, p).value).value;
      var rec := BanRecord("equivocation: " + p.context, Some(E.EquivocationDigest(E.Verify(crypto, p).value, p)), now);
      var plan := RevokePlan(s, h, rec, order);
      OpsBan(ApplyOp(s, plan[0]), plan[1..]);
    }
  }

  // --- Issuance --------------------------------------------------------------------------

  /** Any of the session's three sources of nullifiers is banned. */
  ghost predicate SourceBanned(s: State, req: IssueRequest) {
    || (req.binding.Some? && NullifierBan(req.binding.value) in s.bans)
    || (req.holderKey.Some? && NullifierBan(HolderKey(req.holderKey.value)) in s.bans)
    || (req.overridden.Some? && NullifierBan(req.overridden.value) in s.bans)
  }

  ghost predicate FirstDraw(s: State, draws: seq<nat>, i: int) {
    0 <= i < |draws| && draws[i] !in s.slots.used && forall j :: 0 <= j < i ==> draws[j] in s.slots.used
  }

  lemma RefusedIff(s: State, req: IssueRequest)
    ensures Refused(s, req) <==> req.session in s.marked || HolderBan(req.holder) in s.bans || SourceBanned(s, req)
  {
    SessionNullifiersExact(req.binding, req.holderKey, req.overridden);
    var ns := req.Nullifiers();
    assert SourceBanned(s, req) <==> exists n :: n in ns && NullifierBan(n) in s.bans;
    if n :| n in ns && NullifierBan(n) in s.bans {
      var i :| 0 <= i < |ns| && ns[i] == n;
    }
  }

  lemma {:induction false} FirstFreeIs(used: set<nat>, draws: seq<nat>, i: int)
    requires 0 <= i < |draws| && draws[i] !in used && forall j :: 0 <= j < i ==> draws[j] in used
    ensures FirstFree(used, draws) == Some(draws[i])
  {
    if i > 0 {
      assert draws[0] in used;
      FirstFreeIs(used, draws[1..], i - 1);
    }
  }

  /** An issuance with no failing write hands its credential out exactly when the
      session has none and is unclaimed, neither the holder nor any of the
      session's nullifiers is banned, and a drawn slot is free. The credential is
      then bound to the first free draw and recorded last under its holder. */
  lemma HandedOutIff(s: State, req: IssueRequest)
    requires req.writes >= 5 && (req.holder, req.cred) !in s.handedOut
    ensures var t := Issue(s, req);
            && ((req.holder, req.cred) in t.handedOut <==>
                  && req.session !in s.marked && req.session !in s.claims
                  && HolderBan(req.holder) !in s.bans && !SourceBanned(s, req)
                  && exists i :: FirstDraw(s, req.draws, i))
            && ((req.holder, req.cred) in t.handedOut ==>
                  && (forall i :: FirstDraw(s, req.draws, i) ==>
                        t.slots == s.slots.(used := s.slots.used + {req.draws[i]},
                                            byCred := s.slots.byCred[req.cred := req.draws[i]]))
                  && t.issuances == s.issuances[req.holder :=
                       (if req.holder in s.issuances then s.issuances[req.holder] else [])
                       + [IssuanceRecord(req.cred, req.Nullifiers(), req.now)]]
                  && t.claims == s.claims[req.session := req.cred]
                  && t.marked == s.marked + {req.session} && t.bans == s.bans)
  {
    RefusedIff(s, req);
    FirstFreeIsFree(s.slots.used, req.draws);
    forall i | FirstDraw(s, req.draws, i)
      ensures FirstFree(s.slots.used, req.draws) == Some(req.draws[i])
    {
      FirstFreeIs(s.slots.used, req.draws, i);
    }
    if FirstFree(s.slots.used, req.draws).Some? {
      FirstDrawExists(s, req.draws);
    }
  }

  lemma {:induction false} FirstDrawExists(s: State, draws: seq<nat>)
    requires FirstFree(s.slots.used, draws).Some?
    ensures exists i :: FirstDraw(s, draws, i)
  {
    if draws[0] !in s.slots.used {
      assert FirstDraw(s, draws, 0);
    } else {
      FirstDrawExists(s, draws[1..]);
      var i :| FirstDraw(s, draws[1..], i);
      assert forall j :: 0 < j <= i ==> draws[j] == draws[1..][j - 1];
      assert FirstDraw(s, draws, i + 1);
    }
  }
}
