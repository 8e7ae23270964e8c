/** What the outcome codes of the two evaluators (src/policy/evaluate.go,
    sdk/typescript/src/policy.ts) mean, in the credential's and the policy's own
    fields: every code is the first check that fails, and Ok is that none does. */
module PolicyRules {
  import opened Wrappers
  import opened PolicyEval

  // --- The checks ---------------------------------------------------------------------

  ghost predicate Structured(c: Credential) {
    && "https://www.w3.org/2018/credentials/v1" in c.context
    && "https://personhood.protocol/credentials/v1" in c.context
    && |c.context| >= 2 && c.context[0] == "https://www.w3.org/2018/credentials/v1"
    && c.issuer != "" && c.methods != []
    && (c.anchor.Some? ==> exists i :: 0 <= i < |c.methods| && c.methods[i].id == c.anchor.value)
  }

  /** Method i is the first of the anchor's id. */
  ghost predicate AnchorAt(c: Credential, i: int) {
    && 0 <= i < |c.methods| && c.anchor == Some(c.methods[i].id)
    && forall j :: 0 <= j < i ==> c.methods[j].id != c.methods[i].id
  }

  ghost predicate Blocked(m: VerifiedMethod, p: Policy) {
    m.id in p.blocked
  }

  ghost predicate NotAllowed(m: VerifiedMethod, p: Policy) {
    p.allowed != [] && m.id !in p.allowed
  }

  ghost predicate TooWeak(m: VerifiedMethod, p: Policy) {
    m.id in p.minStrength && m.strength < p.minStrength[m.id]
  }

  ghost predicate Accepted(m: VerifiedMethod, p: Policy) {
    !Blocked(m, p) && !NotAllowed(m, p) && !TooWeak(m, p)
  }

  ghost predicate AllAccepted(c: Credential, p: Policy) {
    forall i :: 0 <= i < |c.methods| ==> Accepted(c.methods[i], p)
  }

  /** Method i is the first that the policy does not accept. */
  ghost predicate FirstBad(c: Credential, p: Policy, i: int) {
    0 <= i < |c.methods| && !Accepted(c.methods[i], p) && forall j :: 0 <= j < i ==> Accepted(c.methods[j], p)
  }

  ghost predicate Derives(c: Credential, p: Policy) {
    && c.binding.Some? && c.binding.value.commitment != "" && c.binding.value.scheme != ""
    && c.binding.value.curve != "" && p.contextTag != ""
  }

  /** How the checks went that the two evaluators make on different numbers. */
  datatype Facts = Facts(valid: bool, tooOld: bool, expired: bool, anchorStale: bool, enough: bool)

  ghost predicate InTime(f: Facts) {
    f.valid && !f.tooOld && !f.expired
  }

  ghost predicate Anchored(f: Facts, c: Credential, p: Policy) {
    InTime(f) && (p.anchorRequired ==> c.anchor.Some?) && !f.anchorStale
  }

  /** When an evaluator answers `code`. */
  ghost predicate Means(code: Code, f: Facts, c: Credential, p: Policy) {
    match code
    case SignatureInvalid => !f.valid
    case VCExpired => f.valid && (f.tooOld || f.expired)
    case AnchorMissing => InTime(f) && p.anchorRequired && c.anchor.None?
    case AnchorMethodExpired => InTime(f) && (p.anchorRequired ==> c.anchor.Some?) && f.anchorStale
    case MethodBlocked => Anchored(f, c, p) && exists i :: FirstBad(c, p, i) && Blocked(c.methods[i], p)
    case MethodNotAllowed =>
      Anchored(f, c, p) && exists i :: FirstBad(c, p, i) && !Blocked(c.methods[i], p) && NotAllowed(c.methods[i], p)
    case MethodStrengthInsufficient =>
      Anchored(f, c, p) && exists i :: FirstBad(c, p, i) && !Blocked(c.methods[i], p) && !NotAllowed(c.methods[i], p)
    case InsufficientSupplementary => Anchored(f, c, p) && AllAccepted(c, p) && !f.enough
    case NullifierMissing =>
      Anchored(f, c, p) && AllAccepted(c, p) && f.enough && p.nullifierRequired && !Derives(c, p)
    case Ok =>
      Anchored(f, c, p) && AllAccepted(c, p) && f.enough && (p.nullifierRequired ==> Derives(c, p))
  }

  // --- The numbers in Go ----------------------------------------------------------------

  /** Seconds as a time.Duration, an int64 of nanoseconds. */
  function Nanos(seconds: int): (w: int)
    ensures -0x8000_0000_0000_0000 <= w <= 0x7FFF_FFFF_FFFF_FFFF
    ensures (w - seconds * 1_000_000_000) % 0x1_0000_0000_0000_0000 == 0
  {
    Wrap(seconds * 1_000_000_000)
  }

  /** Older than the limit; the greatest int64 is never exceeded. */
  ghost predicate OlderGo(now: Time, since: Time, limit: int) {
    now - since > limit && limit < 0x7FFF_FFFF_FFFF_FFFF
  }

  ghost predicate EndedGo(m: VerifiedMethod, now: Time) {
    m.freshness > 0 && OlderGo(now, m.verifiedAt, m.freshness)
  }

  /** The strengths below 50 of the methods that have not ended. */
  ghost function FreshPointsGo(ms: seq<VerifiedMethod>, now: Time): int {
    if ms == [] then 0
    else (if ms[0].strength < 50 && !EndedGo(ms[0], now) then ms[0].strength else 0) + FreshPointsGo(ms[1..], now)
  }

  /** The year 1, in nanoseconds. */
  ghost predicate Dated(t: Option<Time>) {
    t.Some? && t.value != -62_135_596_800_000_000_000
  }

  ghost predicate AnchorStaleGo(c: Credential, p: Policy, now: Time) {
    exists i :: AnchorAt(c, i)
             && var window := if p.maxAnchorAge > 0 then Nanos(p.maxAnchorAge) else c.methods[i].freshness;
                window > 0 && OlderGo(now, c.methods[i].verifiedAt, window)
  }

  ghost function FactsGo(c: Credential, p: Policy, now: Time): Facts {
    var valid := Structured(c) && Dated(c.issued) && Dated(c.expires) && c.issued.value < c.expires.value;
    Facts(valid,
          valid && p.maxCredentialAge > 0 && OlderGo(now, c.issued.value, Nanos(p.maxCredentialAge)),
          valid && now > c.expires.value,
          AnchorStaleGo(c, p, now),
          Wrap(FreshPointsGo(c.methods, now)) >= p.minPoints)
  }

  // --- The numbers in TypeScript ----------------------------------------------------------

  function Millis(t: Time): int {
    t / 1_000_000
  }

  ghost predicate EndedTs(m: VerifiedMethod, nowMs: int) {
    m.freshness > 0 && (nowMs - Millis(m.verifiedAt)) * 1_000_000 > m.freshness
  }

  ghost function FreshPointsTs(ms: seq<VerifiedMethod>, nowMs: int): int {
    if ms == [] then 0
    else (if ms[0].strength < 50 && !EndedTs(ms[0], nowMs) then ms[0].strength else 0) + FreshPointsTs(ms[1..], nowMs)
  }

  ghost predicate AnchorStaleTs(c: Credential, p: Policy, nowMs: int) {
    exists i :: AnchorAt(c, i)
             && if p.maxAnchorAge > 0 then nowMs - Millis(c.methods[i].verifiedAt) > 1000 * p.maxAnchorAge
                else EndedTs(c.methods[i], nowMs)
  }

  ghost function FactsTs(c: Credential, p: Policy, nowMs: int): Facts {
    var valid := Structured(c) && c.issued.Some? && c.expires.Some? && Millis(c.issued.value) < Millis(c.expires.value);
    Facts(valid,
          valid && p.maxCredentialAge > 0 && nowMs - Millis(c.issued.value) > 1000 * p.maxCredentialAge,
          valid && nowMs > Millis(c.expires.value),
          AnchorStaleTs(c, p, nowMs),
          FreshPointsTs(c.methods, nowMs) >= p.minPoints)
  }

  // --- The evaluators make these checks -----------------------------------------------------

  lemma ShapeIs(c: Credential)
    ensures GoodShape(c) <==> Structured(c)
  {
    if c.anchor.Some? {
      var k := FirstIndex(c.methods, c.anchor.value);
      assert k < |c.methods| ==> c.methods[k].id == c.anchor.value;
    }
  }

  lemma AnchorIsFirst(c: Credential, i: int)
    requires c.anchor.Some?
    ensures AnchorAt(c, i) <==> i == FirstIndex(c.methods, c.anchor.value) < |c.methods|
  {}

  /** The first method problem is that of the first method not accepted. */
  lemma {:induction false} ProblemIs(ms: seq<VerifiedMethod>, p: Policy, i: int)
    requires 0 <= i < |ms| && !Accepted(ms[i], p) && forall j :: 0 <= j < i ==> Accepted(ms[j], p)
    ensures FirstProblem(ms, p)
            == Some(if Blocked(ms[i], p) then MethodBlocked
                    else if NotAllowed(ms[i], p) then MethodNotAllowed else MethodStrengthInsufficient)
  {
    if i > 0 {
      assert Accepted(ms[0], p);
      assert forall j :: 0 <= j < i - 1 ==> ms[1..][j] == ms[j + 1];
      ProblemIs(ms[1..], p, i - 1);
    }
  }

  lemma {:induction false} NoProblem(ms: seq<VerifiedMethod>, p: Policy)
    requires forall i :: 0 <= i < |ms| ==> Accepted(ms[i], p)
    ensures FirstProblem(ms, p).None?
  {
    if ms != [] {
      assert forall j :: 0 <= j < |ms[1..]| ==> ms[1..][j] == ms[j + 1];
      NoProblem(ms[1..], p);
    }
  }

  lemma {:induction false} FirstBadExists(c: Credential, p: Policy, i: int)
    requires 0 <= i < |c.methods| && !Accepted(c.methods[i], p)
    ensures exists k :: FirstBad(c, p, k)
    decreases i
  {
    if j :| 0 <= j < i && !Accepted(c.methods[j], p) {
      FirstBadExists(c, p, j);
    } else {
      assert FirstBad(c, p, i);
    }
  }

  /** An outcome is explained by the facts its lateness and points come to. */
  lemma OutcomeMeans(c: Credential, p: Policy, late: Lateness, points: int, f: Facts, code: Code)
    requires f.valid && f.tooOld == late.credential && f.expired == late.expired
    requires f.anchorStale == (c.anchor.Some? && late.anchor) && f.enough == (points >= p.minPoints)
    ensures Outcome(c, p, late, points) == code <==> Means(code, f, c, p)
  {
    if AllAccepted(c, p) {
      NoProblem(c.methods, p);
    } else {
      var i :| 0 <= i < |c.methods| && !Accepted(c.methods[i], p);
      FirstBadExists(c, p, i);
      var k :| FirstBad(c, p, k);
      ProblemIs(c.methods, p, k);
      assert forall l :: FirstBad(c, p, l) ==> l == k;
    }
  }

  lemma {:induction false} PointsFront(ms: seq<VerifiedMethod>, dropped: seq<bool>)
    requires |ms| == |dropped| && ms != []
    ensures Points(ms, dropped)
            == (if ms[0].strength >= CEILING || dropped[0] then 0 else ms[0].strength) + Points(ms[1..], dropped[1..])
    decreases |ms|
  {
    var k := |ms| - 1;
    if k > 0 {
      PointsFront(ms[..k], dropped[..k]);
      assert ms[..k][1..] == ms[1..][..k - 1] && dropped[..k][1..] == dropped[1..][..k - 1];
    } else {
      assert Points(ms[..k], dropped[..k]) == 0;
    }
  }

  lemma {:induction false} PointsGo(ms: seq<VerifiedMethod>, dropped: seq<bool>, now: Time)
    requires |ms| == |dropped| && forall i :: 0 <= i < |ms| ==> dropped[i] == EndedGo(ms[i], now)
    ensures Points(ms, dropped) == FreshPointsGo(ms, now)
  {
    if ms != [] {
      PointsFront(ms, dropped);
      PointsGo(ms[1..], dropped[1..], now);
    }
  }

  lemma {:induction false} PointsTs(ms: seq<VerifiedMethod>, dropped: seq<bool>, nowMs: int)
    requires |ms| == |dropped| && forall i :: 0 <= i < |ms| ==> dropped[i] == EndedTs(ms[i], nowMs)
    ensures Points(ms, dropped) == FreshPointsTs(ms, nowMs)
  {
    if ms != [] {
      PointsFront(ms, dropped);
      PointsTs(ms[1..], dropped[1..], nowMs);
    }
  }

  lemma SubExceeds(now: Time, since: Time, limit: int)
    requires limit >= MIN_INT64
    ensures Sub(now, since) > limit <==> OlderGo(now, since, limit)
  {}

  lemma AnchorGo(c: Credential, p: Policy, now: Time)
    requires GoValid(c)
    ensures AnchorStaleGo(c, p, now) <==> c.anchor.Some? && GoLateness(c, p, now).anchor
  {
    if c.anchor.Some? {
      var k := FirstIndex(c.methods, c.anchor.value);
      forall i ensures AnchorAt(c, i) <==> i == k {
        AnchorIsFirst(c, i);
      }
      var window := GoAnchorWindow(c.methods[k], p);
      if window > 0 {
        SubExceeds(now, c.methods[k].verifiedAt, window);
      }
    }
  }

  /** The Go evaluator answers a code exactly when the fields say so. */
  lemma GoCodeIff(c: Credential, p: Policy, now: Time, code: Code)
    ensures GoCode(c, p, now) == code <==> Means(code, FactsGo(c, p, now), c, p)
  {
    ShapeIs(c);
    assert GoValid(c) <==> FactsGo(c, p, now).valid;
    if GoValid(c) {
      var late := GoLateness(c, p, now);
      AnchorGo(c, p, now);
      SubExceeds(now, c.issued.value, Nanos(p.maxCredentialAge));
      forall i | 0 <= i < |c.methods| ensures late.dropped[i] == EndedGo(c.methods[i], now) {
        if c.methods[i].freshness > 0 {
          SubExceeds(now, c.methods[i].verifiedAt, c.methods[i].freshness);
        }
      }
      PointsGo(c.methods, late.dropped, now);
      OutcomeMeans(c, p, late, Wrap(Points(c.methods, late.dropped)), FactsGo(c, p, now), code);
    }
  }

  lemma RealLimits(d: int, limit: int)
    ensures d as real > limit as real * 1000.0 <==> d > 1000 * limit
    ensures d as real / 1000.0 > limit as real <==> d > 1000 * limit
    ensures d as real > limit as real / 1_000_000.0 <==> d * 1_000_000 > limit
  {
    assert (1000 * limit) as real == limit as real * 1000.0;
    assert (d * 1_000_000) as real == d as real * 1_000_000.0;
  }

  lemma StaleTs(m: VerifiedMethod, nowMs: int)
    ensures TsStale(m, m.freshness as real / 1_000_000.0, nowMs) <==> EndedTs(m, nowMs)
  {
    RealLimits(nowMs - Millis(m.verifiedAt), m.freshness);
    assert m.freshness as real / 1_000_000.0 > 0.0 <==> m.freshness > 0;
  }

  lemma AnchorTs(c: Credential, p: Policy, nowMs: int)
    requires TsValid(c)
    ensures AnchorStaleTs(c, p, nowMs) <==> c.anchor.Some? && TsLateness(c, p, nowMs).anchor
  {
    if c.anchor.Some? {
      var k := FirstIndex(c.methods, c.anchor.value);
      forall i ensures AnchorAt(c, i) <==> i == k {
        AnchorIsFirst(c, i);
      }
      StaleTs(c.methods[k], nowMs);
      RealLimits(nowMs - Millis(c.methods[k].verifiedAt), p.maxAnchorAge);
    }
  }

  /** The TypeScript evaluator answers a code exactly when the fields say so. */
  lemma TsCodeIff(c: Credential, p: Policy, nowMs: int, code: Code)
    ensures TsCode(c, p, nowMs) == code <==> Means(code, FactsTs(c, p, nowMs), c, p)
  {
    ShapeIs(c);
    assert TsValid(c) <==> FactsTs(c, p, nowMs).valid;
    if TsValid(c) {
      var late := TsLateness(c, p, nowMs);
      AnchorTs(c, p, nowMs);
      RealLimits(nowMs - Millis(c.issued.value), p.maxCredentialAge);
      forall i | 0 <= i < |c.methods| ensures late.dropped[i] == EndedTs(c.methods[i], nowMs) {
        StaleTs(c.methods[i], nowMs);
      }
      PointsTs(c.methods, late.dropped, nowMs);
      OutcomeMeans(c, p, late, Points(c.methods, late.dropped), FactsTs(c, p, nowMs), code);
    }
  }
}
