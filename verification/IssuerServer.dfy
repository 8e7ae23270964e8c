/** The issuer's stores as objects, and the handlers that drive them one store
    operation at a time. */
module IssuerServer {
  import opened Wrappers
  import opened RevocationStore
  import opened Issuer
  import opened IssuerRuns
  import Bits
  import StatusList

  class InMemoryHolderLedger {
    var issuances: map<DID, seq<IssuanceRecord>>
    var bans: map<BanKey, BanRecord>

    constructor ()
      ensures issuances == map[] && bans == map[]
    {
      issuances, bans := map[], map[];
    }

    method RecordIssuance(holder: DID, rec: IssuanceRecord)
      modifies this
      ensures issuances
              == old(issuances)[holder := (if holder in old(issuances) then old(issuances)[holder] else []) + [rec]]
      ensures bans == old(bans)
    {
      issuances := issuances[holder := (if holder in issuances then issuances[holder] else []) + [rec]];
    }

    method Issuances(holder: DID) returns (recs: seq<IssuanceRecord>)
      ensures recs == if holder in issuances then issuances[holder] else []
    {
      recs := if holder in issuances then issuances[holder] else [];
    }

    method Ban(key: BanKey, rec: BanRecord) returns (already: bool)
      modifies this
      ensures already <==> key in old(bans)
      ensures bans == BanOnce(old(bans), key, rec) && issuances == old(issuances)
    {
      if key in bans {
        return true;
      }
      bans := bans[key := rec];
      return false;
    }

    method Unban(key: BanKey)
      modifies this
      ensures bans == old(bans) - {key} && issuances == old(issuances)
    {
      bans := bans - {key};
    }
  }

  function Least(a: nat, b: nat): nat {
    if a < b then a else b
  }

  lemma {:induction false} ApplyOpsAppend(s: State, a: seq<Op>, b: seq<Op>)
    ensures ApplyOps(s, a + b) == ApplyOps(ApplyOps(s, a), b)
    decreases |a|
  {
    if a == [] {
      assert a + b == b;
    } else {
      ApplyOpsAppend(ApplyOp(s, a[0]), a[1..], b);
      assert (a + b)[1..] == a[1..] + b;
    }
  }

  lemma {:induction false} ApplyOpsSnoc(s: State, ops: seq<Op>, op: Op)
    ensures ApplyOps(s, ops + [op]) == ApplyOp(ApplyOps(s, ops), op)
    decreases |ops|
  {
    if ops == [] {
      assert [op][1..] == [];
    } else {
      ApplyOpsSnoc(ApplyOp(s, ops[0]), ops[1..], op);
      assert (ops + [op])[1..] == ops[1..] + [op];
    }
  }

  lemma NextBan(s: State, order: seq<Nullifier>, n: Nullifier, rec: BanRecord)
    ensures ApplyOps(s, BanOps(order + [n], rec))
            == ApplyOp(ApplyOps(s, BanOps(order, rec)), BanOp(NullifierBan(n), rec))
  {
    ApplyOpsSnoc(s, BanOps(order, rec), BanOp(NullifierBan(n), rec));
    assert BanOps(order + [n], rec) == BanOps(order, rec) + [BanOp(NullifierBan(n), rec)];
  }

  /** The nullifiers that were banned, then the others. */
  lemma CutOrder(did: seq<Nullifier>, rest: seq<Nullifier>, ns: set<Nullifier>, todo: set<Nullifier>, rec: BanRecord)
    requires todo <= ns && Enumerates(did, ns - todo) && Enumerates(rest, todo)
    ensures Enumerates(did + rest, ns) && BanOps(did + rest, rec)[..|did|] == BanOps(did, rec)
  {}

  /** A revokeHolder cut off while revoking records. */
  lemma CutAtRecords(s: State, h: DID, rec: BanRecord, order: seq<Nullifier>, writes: nat)
    requires 1 <= writes <= |RecordsOf(s, h)|
    ensures CutOff(s, RevokePlan(s, h, rec, order), writes)
            == ApplyOps(ApplyOp(s, BanOp(HolderBan(h), rec)), RevokeOps(RecordsOf(s, h))[..writes - 1])
  {
    var head, revokes := [BanOp(HolderBan(h), rec)], RevokeOps(RecordsOf(s, h));
    assert RevokePlan(s, h, rec, order)[..writes] == head + revokes[..writes - 1];
    ApplyOpsAppend(s, head, revokes[..writes - 1]);
  }

  /** A revokeHolder that got past its records, cut off while banning or not at all. */
  lemma CutAtBans(s: State, h: DID, rec: BanRecord, order: seq<Nullifier>, writes: nat)
    requires 1 + |RecordsOf(s, h)| <= writes
    ensures var left := writes - 1 - |RecordsOf(s, h)|;
            var revoked := ApplyOps(ApplyOp(s, BanOp(HolderBan(h), rec)), RevokeOps(RecordsOf(s, h)));
            CutOff(s, RevokePlan(s, h, rec, order), writes)
            == ApplyOps(revoked, BanOps(order, rec)[..Least(left, |order|)])
  {
    var head, revokes, bans := [BanOp(HolderBan(h), rec)], RevokeOps(RecordsOf(s, h)), BanOps(order, rec);
    var left := writes - 1 - |RecordsOf(s, h)|;
    var m := Least(left, |order|);
    var plan := RevokePlan(s, h, rec, order);
    assert (if writes < |plan| then plan[..writes] else plan) == head + revokes + bans[..m];
    ApplyOpsAppend(s, head + revokes, bans[..m]);
    ApplyOpsAppend(s, head, revokes);
  }

  /** Revoking the records and then banning the nullifiers, until the store fails. */
  ghost function RevokedThenBanned(
    s: State, recs: seq<IssuanceRecord>, rec: BanRecord, order: seq<Nullifier>, writes: nat): State
  {
    if writes < |recs| then ApplyOps(s, RevokeOps(recs)[..writes])
    else ApplyOps(ApplyOps(s, RevokeOps(recs)), BanOps(order, rec)[..Least(writes - |recs|, |order|)])
  }

  lemma NothingCut(s: State, h: DID, rec: BanRecord, order: seq<Nullifier>)
    ensures CutOff(s, RevokePlan(s, h, rec, order), 0) == s && |RevokePlan(s, h, rec, order)| > 0
  {}

  lemma CutAfterBan(s: State, h: DID, rec: BanRecord, order: seq<Nullifier>, writes: nat)
    requires writes >= 1
    ensures CutOff(s, RevokePlan(s, h, rec, order), writes)
            == RevokedThenBanned(ApplyOp(s, BanOp(HolderBan(h), rec)), RecordsOf(s, h), rec, order, writes - 1)
    ensures |RevokePlan(s, h, rec, order)| == 1 + |RecordsOf(s, h)| + |order|
  {
    if writes <= |RecordsOf(s, h)| {
      CutAtRecords(s, h, rec, order, writes);
    } else {
      CutAtBans(s, h, rec, order, writes);
    }
  }

  /** holderRevocationReport, without the vouchers. */
  datatype Report = Report(alreadyBanned: bool, knownHolder: bool, revokedCredentials: nat, nullifiersBanned: nat)

  /** What the report says about a run from s to t that got past the holder ban. */
  ghost predicate Reports(s: State, t: State, h: DID, report: Report) {
    && (report.alreadyBanned <==> HolderBan(h) in s.bans)
    && (report.knownHolder <==> RecordsOf(s, h) != [])
    && report.revokedCredentials == |t.slots.revoked| - |s.slots.revoked|
    && report.nullifiersBanned == |t.bans| - |s.bans| - if report.alreadyBanned then 0 else 1
  }

  /** reinstateReport, without the vouchers. */
  datatype ReinstateReport = ReinstateReport(wasBanned: bool, nullifiersUnbanned: nat, evidencePardoned: bool)

  /** The number of these nullifiers that are banned. */
  ghost function BannedAmong(ns: set<Nullifier>, bans: map<BanKey, BanRecord>): nat {
    |NullifierBans(ns) * bans.Keys|
  }

  lemma OneMoreBan(lifted: set<Nullifier>, n: Nullifier)
    requires n !in lifted
    ensures NullifierBans(lifted + {n}) == NullifierBans(lifted) + {NullifierBan(n)}
    ensures NullifierBan(n) !in NullifierBans(lifted)
  {}

  lemma OneMoreCounted<K>(all: set<K>, gone: set<K>, k: K)
    requires k !in gone
    ensures |(gone + {k}) * all| == |gone * all| + if k in all then 1 else 0
  {
    if k in all {
      assert (gone + {k}) * all == gone * all + {k};
    } else {
      assert (gone + {k}) * all == gone * all;
    }
  }

  lemma OneMoreGone<K, V>(all: map<K, V>, gone: set<K>, k: K)
    ensures all - (gone + {k}) == all - gone - {k}
  {}

  lemma NothingGone<K, V>(all: map<K, V>, k: K)
    requires k !in all
    ensures all - {k} == all
  {}

  lemma PardonBansNobody(bans: map<BanKey, BanRecord>, h: DID, now: Time, ns: set<Nullifier>)
    ensures var pardoned := Pardoned(bans, h, now);
            && BannedAmong(ns, pardoned) == BannedAmong(ns, bans)
            && pardoned - NullifierBans(ns) - {HolderBan(h)} == pardoned - (NullifierBans(ns) + {HolderBan(h)})
  {
    assert NullifierBans(ns) * Pardoned(bans, h, now).Keys == NullifierBans(ns) * bans.Keys;
  }

  class Server {
    const ledger: InMemoryHolderLedger
    const revocations: InMemoryRevocationStore
    var claims: map<Session, CredentialId>
    var marked: set<Session>
    ghost var handedOut: set<(DID, CredentialId)>
    ghost var revokedCreds: set<CredentialId>

    ghost function View(): State
      reads this, ledger, revocations
    {
      State(revocations.View(), ledger.issuances, ledger.bans, claims, marked, handedOut, revokedCreds)
    }

    constructor ()
      ensures View() == Empty && fresh(ledger) && fresh(revocations)
    {
      ledger := new InMemoryHolderLedger();
      revocations := new InMemoryRevocationStore();
      claims, marked, handedOut, revokedCreds := map[], {}, {}, {};
    }

    method StoreBan(key: BanKey, rec: BanRecord) returns (already: bool)
      modifies this, ledger, revocations
      ensures View() == ApplyOp(old(View()), BanOp(key, rec))
      ensures already <==> key in old(ledger.bans)
      ensures |ledger.bans| == |old(ledger.bans)| + if already then 0 else 1
      ensures View().slots == old(View()).slots
    {
      already := ledger.Ban(key, rec);
    }

    method StoreRevoke(cred: CredentialId) returns (newly: bool)
      modifies this, ledger, revocations
      ensures View() == ApplyOp(old(View()), RevokeOp(cred))
      ensures |View().slots.revoked| == |old(View()).slots.revoked| + if newly then 1 else 0
      ensures ledger.bans == old(ledger.bans)
    {
      ghost var before := revocations.revoked;
      var r := revocations.Revoke(cred);
      revokedCreds := revokedCreds + if r.Some? then {cred} else {};
      newly := r.Some? && !r.value.1;
      assert View().slots.revoked == before + if r.Some? then {r.value.0} else {};
      assert newly ==> |before + {r.value.0}| == |before| + 1;
    }

    /** Revokes the credentials of recs in turn until the store fails. */
    method RevokeRecords(recs: seq<IssuanceRecord>, writes: nat) returns (left: nat, ok: bool, newly: nat)
      modifies this, ledger, revocations
      ensures left == if writes < |recs| then 0 else writes - |recs|
      ensures ok <==> |recs| <= writes
      ensures newly == |View().slots.revoked| - |old(View()).slots.revoked| && ledger.bans == old(ledger.bans)
      ensures View() == ApplyOps(old(View()), RevokeOps(recs)[..Least(writes, |recs|)])
    {
      left, newly := writes, 0;
      for i := 0 to |recs|
        invariant i <= writes && left == writes - i && ledger.bans == old(ledger.bans)
        invariant newly == |View().slots.revoked| - |old(View()).slots.revoked|
        invariant View() == ApplyOps(old(View()), RevokeOps(recs)[..i])
      {
        if left == 0 {
          return 0, false, newly;
        }
        var fresh_ := StoreRevoke(recs[i].credential);
        ApplyOpsSnoc(old(View()), RevokeOps(recs)[..i], RevokeOp(recs[i].credential));
        assert RevokeOps(recs)[..i + 1] == RevokeOps(recs)[..i] + [RevokeOp(recs[i].credential)];
        if fresh_ {
          newly := newly + 1;
        }
        left := left - 1;
      }
      ok := true;
    }

    /** Bans the nullifiers in whatever order the map yields them, until the store fails. */
    method BanNullifiers(nullifiers: set<Nullifier>, rec: BanRecord, writes: nat)
      returns (ok: bool, banned: nat, ghost order: seq<Nullifier>)
      modifies this, ledger, revocations
      ensures Enumerates(order, nullifiers) && |order| == |nullifiers|
      ensures ok <==> |order| <= writes
      ensures View() == ApplyOps(old(View()), BanOps(order, rec)[..Least(writes, |order|)])
      ensures banned == |ledger.bans| - |old(ledger.bans)| && View().slots == old(View()).slots
    {
      var left, todo := writes, nullifiers;
      banned, order := 0, [];
      while todo != {}
        invariant todo <= nullifiers && Enumerates(order, nullifiers - todo)
        invariant |order| + |todo| == |nullifiers| && |order| <= writes && left == writes - |order|
        invariant View() == ApplyOps(old(View()), BanOps(order, rec))
        invariant banned == |ledger.bans| - |old(ledger.bans)| && View().slots == old(View()).slots
        decreases todo
      {
        var n :| n in todo;
        if left == 0 {
          ok := false;
          ghost var did := order;
          var rest := OrderOf(todo);
          order := did + rest;
          CutOrder(did, rest, nullifiers, todo, rec);
          return;
        }
        var was := StoreBan(NullifierBan(n), rec);
        if !was {
          banned := banned + 1;
        }
        NextBan(old(View()), order, n, rec);
        order := order + [n];
        todo := todo - {n};
        left := left - 1;
      }
      ok := true;
      assert nullifiers - todo == nullifiers;
      assert BanOps(order, rec)[..|order|] == BanOps(order, rec);
    }

    /** revokeHolder after the holder ban: revoke the records, then ban the nullifiers. */
    method RevokeThenBan(h: DID, recs: seq<IssuanceRecord>, rec: BanRecord, writes: nat)
      returns (ok: bool, newly: nat, banned: nat, ghost order: seq<Nullifier>)
      modifies this, ledger, revocations
      ensures Enumerates(order, KeyNullifiers(h) + NullifiersIn(recs))
      ensures ok <==> |recs| + |order| <= writes
      ensures View() == RevokedThenBanned(old(View()), recs, rec, order, writes)
      ensures newly == |View().slots.revoked| - |old(View()).slots.revoked|
      ensures banned == |ledger.bans| - |old(ledger.bans)|
    {
      order := OrderOf(KeyNullifiers(h) + NullifiersIn(recs));
      banned := 0;
      var left;
      left, ok, newly := RevokeRecords(recs, writes);
      if !ok {
        return;
      }
      assert RevokeOps(recs)[..|recs|] == RevokeOps(recs);
      ok, banned, order := BanNullifiers(KeyNullifiers(h) + NullifiersIn(recs), rec, left);
    }

    /** The holder ban, and then as many more writes as succeed. */
    method BanThenRevoke(h: DID, rec: BanRecord, writes: nat)
      returns (ok: bool, report: Report, ghost order: seq<Nullifier>)
      requires writes > 0
      modifies this, ledger, revocations
      ensures Enumerates(order, NullifiersOf(old(View()), h))
      ensures View() == CutOff(old(View()), RevokePlan(old(View()), h, rec, order), writes)
      ensures ok <==> 1 + |RecordsOf(old(View()), h)| + |order| <= writes
      ensures Reports(old(View()), View(), h, report)
    {
      ghost var s := View();
      var already := StoreBan(HolderBan(h), rec);
      var recs := ledger.Issuances(h);
      var newly, banned;
      ok, newly, banned, order := RevokeThenBan(h, recs, rec, writes - 1);
      report := Report(already, |recs| > 0, newly, banned);
      CutAfterBan(s, h, rec, order, writes);
    }

    /** revokeHolder. The holder ban comes first, so a failure part-way still
        blocks re-enrollment; order is the one the map iteration happened to take. */
    method RevokeHolder(h: DID, rec: BanRecord, writes: nat)
      returns (ok: bool, report: Report, ghost order: seq<Nullifier>)
      modifies this, ledger, revocations
      ensures Enumerates(order, NullifiersOf(old(View()), h))
      ensures View() == CutOff(old(View()), RevokePlan(old(View()), h, rec, order), writes)
      ensures ok <==> 1 + |RecordsOf(old(View()), h)| + |order| <= writes
      ensures writes > 0 ==> Reports(old(View()), View(), h, report)
    {
      if writes > 0 {
        ok, report, order := BanThenRevoke(h, rec, writes);
      } else {
        ok, report := false, Report(false, false, 0, 0);
        order := OrderOf(NullifiersOf(View(), h));
        NothingCut(View(), h, rec, order);
      }
    }

    /** retireRecoveredHolder. */
    method RetireRecoveredHolder(h: DID, at: Time, writes: nat) returns (ok: bool, revoked: nat)
      modifies this, ledger, revocations
      ensures View() == CutOff(old(View()), RetirePlan(old(View()), h, at), writes)
      ensures ok <==> |RetirePlan(old(View()), h, at)| <= writes
      ensures revoked == |View().slots.revoked| - |old(View()).slots.revoked|
    {
      ghost var s := View();
      revoked := 0;
      if writes == 0 {
        assert RetirePlan(s, h, at)[..0] == [];
        return false, 0;
      }
      var rec := BanRecord(RECOVERED_REASON, None, at);
      var head := BanOp(HolderBan(h), rec);
      var already := StoreBan(HolderBan(h), rec);
      assert View() == ApplyOps(s, [head]);
      var recs := ledger.Issuances(h);
      var left;
      left, ok, revoked := RevokeRecords(recs, writes - 1);
      ghost var k := if writes - 1 < |recs| then writes - 1 else |recs|;
      ApplyOpsAppend(s, [head], RevokeOps(recs)[..k]);
      assert RevokeOps(recs)[..|recs|] == RevokeOps(recs);
      assert !ok ==> RetirePlan(s, h, at)[..writes] == [head] + RevokeOps(recs)[..k];
    }

    /** Lifts the nullifiers' bans in whatever order the map yields them, and counts those there were. */
    method LiftNullifiers(nullifiers: set<Nullifier>) returns (unbanned: nat)
      modifies ledger
      ensures ledger.bans == old(ledger.bans) - NullifierBans(nullifiers)
      ensures unbanned == BannedAmong(nullifiers, old(ledger.bans))
      ensures ledger.issuances == old(ledger.issuances)
    {
      var todo := nullifiers;
      ghost var bans := ledger.bans;
      ghost var gone: set<BanKey> := {};
      unbanned := 0;
      while todo != {}
        invariant todo <= nullifiers && gone == NullifierBans(nullifiers - todo)
        invariant ledger.bans == bans - gone && ledger.issuances == old(ledger.issuances)
        invariant unbanned == |gone * bans.Keys|
        decreases todo
      {
        var n :| n in todo;
        var key := NullifierBan(n);
        OneMoreBan(nullifiers - todo, n);
        OneMoreGone(bans, gone, key);
        OneMoreCounted(bans.Keys, gone, key);
        assert nullifiers - (todo - {n}) == nullifiers - todo + {n};
        if key in ledger.bans {
          ledger.Unban(key);
          unbanned := unbanned + 1;
        } else {
          NothingGone(ledger.bans, key);
        }
        gone := gone + {key};
        todo := todo - {n};
      }
      assert nullifiers - todo == nullifiers;
    }

    /** Pardons the evidence that a holder's ban carries, if it carries any. */
    method PardonEvidence(h: DID, now: Time) returns (pardoned: bool)
      modifies ledger
      ensures ledger.bans == Pardoned(old(ledger.bans), h, now) && ledger.issuances == old(ledger.issuances)
      ensures pardoned <==> CarriesEvidence(old(ledger.bans), h)
    {
      var key := HolderBan(h);
      pardoned := key in ledger.bans && ledger.bans[key].evidence.Some?;
      if pardoned {
        var rec := BanRecord("pardoned after review of " + h, None, now);
        var already := ledger.Ban(Pardon(ledger.bans[key].evidence.value), rec);
      }
    }

    /** reinstate. False when the key was retired by a recovery. */
    method ReinstateHolder(h: DID, now: Time) returns (ok: bool, report: ReinstateReport)
      modifies this, ledger, revocations
      ensures View() == Reinstate(old(View()), h, now)
      ensures ok <==> !RetiredByRecovery(old(View()), h)
      ensures report.wasBanned <==> HolderBan(h) in old(ledger.bans)
      ensures ok ==>
        && report.nullifiersUnbanned == BannedAmong(NullifiersOf(old(View()), h), old(ledger.bans))
        && (report.evidencePardoned <==> CarriesEvidence(old(ledger.bans), h))
    {
      ghost var s := View();
      report := ReinstateReport(HolderBan(h) in ledger.bans, 0, false);
      if HolderBan(h) in ledger.bans && "recovered:" <= ledger.bans[HolderBan(h)].reason {
        return false, report;
      }
      var pardoned := PardonEvidence(h, now);
      var recs := ledger.Issuances(h);
      var unbanned := LiftNullifiers(KeyNullifiers(h) + NullifiersIn(recs));
      ledger.Unban(HolderBan(h));
      report := report.(nullifiersUnbanned := unbanned, evidencePardoned := pardoned);
      PardonBansNobody(s.bans, h, now, NullifiersOf(s, h));
      ok := true;
    }

    /** sessionNullifierCommitments: each source is added unless the list has it. */
    method SessionNullifierCommitments(binding: Option<Nullifier>, holderKey: Option<seq<nat>>,
                                       overridden: Option<Nullifier>)
      returns (out: seq<Nullifier>)
      ensures out == SessionNullifiers(binding, holderKey, overridden)
    {
      out := [];
      if binding.Some? {
        out := Add(out, binding.value);
      }
      if holderKey.Some? {
        out := Add(out, HolderKey(holderKey.value));
      }
      if overridden.Some? {
        out := Add(out, overridden.value);
      }
    }

    static method Add(out: seq<Nullifier>, n: Nullifier) returns (r: seq<Nullifier>)
      ensures r == AddNew(out, n)
    {
      for i := 0 to |out|
        invariant n !in out[..i]
      {
        if out[i] == n {
          return out;
        }
      }
      assert out[..|out|] == out;
      return out + [n];
    }

    /** checkHolderBans. */
    method CheckHolderBans(h: DID, nullifiers: seq<Nullifier>) returns (banned: bool)
      ensures banned <==>
        || HolderBan(h) in ledger.bans
        || exists i :: 0 <= i < |nullifiers| && NullifierBan(nullifiers[i]) in ledger.bans
    {
      if HolderBan(h) in ledger.bans {
        return true;
      }
      for i := 0 to |nullifiers|
        invariant forall j :: 0 <= j < i ==> NullifierBan(nullifiers[j]) !in ledger.bans
      {
        if NullifierBan(nullifiers[i]) in ledger.bans {
          return true;
        }
      }
      return false;
    }

    /** handleIssueCredential's store operations in order: a slot is claimed and
        bound and the issuance recorded before the session is claimed and the
        credential handed out. The stores fail after req.writes writes. */
    method IssueCredential(req: IssueRequest) returns (handed: bool)
      requires Draws(req.draws)
      modifies this, ledger, revocations
      ensures View() == Issue(old(View()), req)
      ensures handed ==> (req.holder, req.cred) in View().handedOut
      ensures !handed ==> View().handedOut == old(View()).handedOut
    {
      if req.session in marked {
        return false;
      }
      var nullifiers := SessionNullifierCommitments(req.binding, req.holderKey, req.overridden);
      assert nullifiers == req.Nullifiers();
      var banned := CheckHolderBans(req.holder, nullifiers);
      assert banned == Refused(View(), req);
      if banned {
        return false;
      }
      if req.writes == 0 {
        return false;
      }
      var slot := revocations.Allocate(req.draws);
      if slot.None? || req.writes == 1 {
        return false;
      }
      revocations.Bind(slot.value, req.cred);
      if req.writes == 2 {
        return false;
      }
      ledger.RecordIssuance(req.holder, IssuanceRecord(req.cred, nullifiers, req.now));
      if req.writes == 3 || req.session in claims {
        return false;
      }
      claims := claims[req.session := req.cred];
      if req.writes == 4 {
        return false;
      }
      marked := marked + {req.session};
      handedOut := handedOut + {(req.holder, req.cred)};
      handed := true;
    }

    /** handleStatusList: in every state a run reaches, publishing succeeds and
        the bits are the revoked slots, so the bit of a bound credential is set
        exactly when it was revoked. */
    method HandleStatusList() returns (r: Result<StatusList.BitString, StatusList.SetError>)
      requires SlotsConsistent(View())
      ensures r.Success? && r.value.bytes.Length == 16_384 && Publishes(r.value.bytes[..], View())
      ensures forall c :: c in revocations.byCred ==>
        (Bits.BitAt(r.value.bytes[..], revocations.byCred[c]) <==> c in revokedCreds)
    {
      var revoked := revocations.Revoked();
      forall k | 0 <= k < |revoked|
        ensures revoked[k] < STATUS_LIST_SIZE
      {
        assert revoked[k] in revocations.revoked;
      }
      r := StatusList.Publish(revoked, STATUS_LIST_SIZE);
    }
  }
}
