/** The two policy evaluators: src/policy/evaluate.go over int64 nanoseconds and
    sdk/typescript/src/policy.ts over (here exact) fractional milliseconds.
    Times are nanoseconds since the Unix epoch. */
module PolicyEval {
  import opened Wrappers

  type Time = int

  datatype VerifiedMethod = VerifiedMethod(id: string, strength: int, verifiedAt: Time, freshness: int)

  datatype NullifierBinding = NullifierBinding(commitment: string, curve: string, scheme: string)

  datatype Credential = Credential(
    context: seq<string>,
    issuer: string,
    issued: Option<Time>,
    expires: Option<Time>,
    methods: seq<VerifiedMethod>,
    anchor: Option<string>,
    binding: Option<NullifierBinding>)

  datatype Policy = Policy(
    anchorRequired: bool,
    minPoints: int,
    allowed: seq<string>,
    blocked: seq<string>,
    minStrength: map<string, int>,
    maxCredentialAge: int,
    maxAnchorAge: int,
    nullifierRequired: bool,
    contextTag: string)

  datatype Code =
    | Ok
    | AnchorMissing
    | InsufficientSupplementary
    | VCExpired
    | AnchorMethodExpired
    | MethodBlocked
    | MethodNotAllowed
    | MethodStrengthInsufficient
    | NullifierMissing
    | SignatureInvalid

  const W3C: string := "https://www.w3.org/2018/credentials/v1"
  const PERSONHOOD: string := "https://personhood.protocol/credentials/v1"
  const CEILING: int := 50

  const MIN_INT64: int := -0x8000_0000_0000_0000
  const MAX_INT64: int := 0x7FFF_FFFF_FFFF_FFFF
  const SECOND: int := 1_000_000_000
  const MILLI: int := 1_000_000

  /** Go's zero time.Time, 1 January of year 1. */
  const ZERO_TIME: Time := -62_135_596_800 * SECOND

  // --- int64 arithmetic ---------------------------------------------------------------

  predicate InInt64(x: int) {
    MIN_INT64 <= x <= MAX_INT64
  }

  function Wrap(x: int): (r: int)
    ensures InInt64(r) && (InInt64(x) ==> r == x)
    ensures (r - x) % 0x1_0000_0000_0000_0000 == 0
  {
    (x - MIN_INT64) % 0x1_0000_0000_0000_0000 + MIN_INT64
  }

  /** time.Time.Sub saturates. */
  function Sub(a: Time, b: Time): int {
    if a - b < MIN_INT64 then MIN_INT64 else if a - b > MAX_INT64 then MAX_INT64 else a - b
  }

  // --- What the two evaluators share ----------------------------------------------------

  /** The first method with that id, or the number of methods. */
  function FirstIndex(ms: seq<VerifiedMethod>, id: string): (k: nat)
    ensures k <= |ms| && (k < |ms| ==> ms[k].id == id)
    ensures forall i :: 0 <= i < k ==> ms[i].id != id
  {
    if ms == [] || ms[0].id == id then 0 else 1 + FirstIndex(ms[1..], id)
  }

  predicate GoodShape(c: Credential) {
    && W3C in c.context && PERSONHOOD in c.context && |c.context| >= 2 && c.context[0] == W3C
    && c.issuer != ""
    && c.methods != []
    && (c.anchor.Some? ==> FirstIndex(c.methods, c.anchor.value) < |c.methods|)
  }

  /** What is wrong with one method under p. */
  function MethodProblem(m: VerifiedMethod, p: Policy): Option<Code> {
    if m.id in p.blocked then Some(MethodBlocked)
    else if p.allowed != [] && m.id !in p.allowed then Some(MethodNotAllowed)
    else if m.id in p.minStrength && m.strength < p.minStrength[m.id] then Some(MethodStrengthInsufficient)
    else None
  }

  function FirstProblem(ms: seq<VerifiedMethod>, p: Policy): Option<Code> {
    if ms == [] then None
    else if MethodProblem(ms[0], p).Some? then MethodProblem(ms[0], p)
    else FirstProblem(ms[1..], p)
  }

  /** The strengths below the ceiling of the methods not dropped. */
  function Points(ms: seq<VerifiedMethod>, dropped: seq<bool>): int
    requires |ms| == |dropped|
  {
    if ms == [] then 0
    else
      var k := |ms| - 1;
      Points(ms[..k], dropped[..k]) + if ms[k].strength >= CEILING || dropped[k] then 0 else ms[k].strength
  }

  /** Which time checks fail. */
  datatype Lateness = Lateness(credential: bool, expired: bool, anchor: bool, dropped: seq<bool>)

  predicate Derivable(c: Credential, p: Policy)
    requires c.binding.Some?
  {
    var b := c.binding.value;
    b.commitment != "" && b.scheme != "" && b.curve != "" && p.contextTag != ""
  }

  /** The order of the checks, given how the time checks went and the points. */
  function Outcome(c: Credential, p: Policy, late: Lateness, points: int): Code {
    if late.credential || late.expired then VCExpired
    else if p.anchorRequired && c.anchor.None? then AnchorMissing
    else if c.anchor.Some? && late.anchor then AnchorMethodExpired
    else if FirstProblem(c.methods, p).Some? then FirstProblem(c.methods, p).value
    else if points < p.minPoints then InsufficientSupplementary
    else if p.nullifierRequired && (c.binding.None? || !Derivable(c, p)) then NullifierMissing
    else Ok
  }

  // --- Go ---------------------------------------------------------------------------------

  function GoTime(t: Option<Time>): Time {
    if t.Some? then t.value else ZERO_TIME
  }

  predicate GoValid(c: Credential) {
    && GoodShape(c)
    && GoTime(c.issued) != ZERO_TIME && GoTime(c.expires) != ZERO_TIME
    && GoTime(c.issued) < GoTime(c.expires)
  }

  function GoAnchorWindow(m: VerifiedMethod, p: Policy): int {
    if p.maxAnchorAge > 0 then Wrap(p.maxAnchorAge * SECOND) else m.freshness
  }

  predicate GoStale(m: VerifiedMethod, window: int, now: Time) {
    window > 0 && Sub(now, m.verifiedAt) > window
  }

  function GoLateness(c: Credential, p: Policy, now: Time): Lateness
    requires GoValid(c)
  {
    Lateness(
      p.maxCredentialAge > 0 && Sub(now, GoTime(c.issued)) > Wrap(p.maxCredentialAge * SECOND),
      now > GoTime(c.expires),
      c.anchor.Some?
        && (var m := c.methods[FirstIndex(c.methods, c.anchor.value)]; GoStale(m, GoAnchorWindow(m, p), now)),
      GoDropped(c, now))
  }

  /** The methods that give no points any more. */
  function GoDropped(c: Credential, now: Time): seq<bool> {
    seq(|c.methods|, i requires 0 <= i < |c.methods| => GoStale(c.methods[i], c.methods[i].freshness, now))
  }

  function GoCode(c: Credential, p: Policy, now: Time): Code {
    if !GoValid(c) then SignatureInvalid
    else var late := GoLateness(c, p, now); Outcome(c, p, late, Wrap(Points(c.methods, late.dropped)))
  }

  // --- TypeScript ---------------------------------------------------------------------------

  /** Date.parse: whole milliseconds. */
  function Ms(t: Time): int {
    t / MILLI
  }

  predicate TsValid(c: Credential) {
    && GoodShape(c)
    && c.issued.Some? && c.expires.Some? && Ms(c.issued.value) < Ms(c.expires.value)
  }

  function TsAnchorWindow(m: VerifiedMethod, p: Policy): real {
    if p.maxAnchorAge > 0 then p.maxAnchorAge as real * 1000.0 else m.freshness as real / 1_000_000.0
  }

  predicate TsStale(m: VerifiedMethod, windowMs: real, nowMs: int) {
    windowMs > 0.0 && (nowMs - Ms(m.verifiedAt)) as real > windowMs
  }

  function TsLateness(c: Credential, p: Policy, nowMs: int): Lateness
    requires TsValid(c)
  {
    Lateness(
      p.maxCredentialAge > 0 && (nowMs - Ms(c.issued.value)) as real / 1000.0 > p.maxCredentialAge as real,
      nowMs > Ms(c.expires.value),
      c.anchor.Some?
        && (var m := c.methods[FirstIndex(c.methods, c.anchor.value)]; TsStale(m, TsAnchorWindow(m, p), nowMs)),
      seq(|c.methods|, i requires 0 <= i < |c.methods| =>
        TsStale(c.methods[i], c.methods[i].freshness as real / 1_000_000.0, nowMs)))
  }

  function TsCode(c: Credential, p: Policy, nowMs: int): Code {
    if !TsValid(c) then SignatureInvalid
    else var late := TsLateness(c, p, nowMs); Outcome(c, p, late, Points(c.methods, late.dropped))
  }

  // --- The loops ------------------------------------------------------------------------------

  method ContainsString(haystack: seq<string>, needle: string) returns (found: bool)
    ensures found <==> needle in haystack
  {
    for i := 0 to |haystack|
      invariant needle !in haystack[..i]
    {
      if haystack[i] == needle {
        return true;
      }
    }
    return false;
  }

  method Validate(c: Credential) returns (ok: bool)
    ensures ok <==> GoValid(c)
  {
    var hasW3C := ContainsString(c.context, W3C);
    if !hasW3C {
      return false;
    }
    var hasPersonhood := ContainsString(c.context, PERSONHOOD);
    if !hasPersonhood {
      return false;
    }
    if |c.context| < 2 || c.context[0] != W3C {
      return false;
    }
    if c.issuer == "" || GoTime(c.issued) == ZERO_TIME || GoTime(c.expires) == ZERO_TIME {
      return false;
    }
    if !(GoTime(c.issued) < GoTime(c.expires)) || |c.methods| == 0 {
      return false;
    }
    if c.anchor.Some? {
      var found := false;
      for i := 0 to |c.methods|
        invariant !found && forall j :: 0 <= j < i ==> c.methods[j].id != c.anchor.value
      {
        if c.methods[i].id == c.anchor.value {
          found := true;
          break;
        }
      }
      if !found {
        return false;
      }
    }
    return true;
  }

  lemma {:induction false} FirstProblemFrom(ms: seq<VerifiedMethod>, p: Policy, i: nat)
    requires i <= |ms| && forall j :: 0 <= j < i ==> MethodProblem(ms[j], p).None?
    ensures FirstProblem(ms, p) == FirstProblem(ms[i..], p)
  {
    if i > 0 {
      FirstProblemFrom(ms[1..], p, i - 1);
      assert ms[1..][i - 1..] == ms[i..];
    }
  }

  lemma WrapAdd(x: int, y: int)
    ensures Wrap(Wrap(x) + y) == Wrap(x + y)
  {
    var k := (Wrap(x) - x) / 0x1_0000_0000_0000_0000;
    assert Wrap(x) == x + k * 0x1_0000_0000_0000_0000;
  }

  /** Step 6: the first method that is blocked, not allowed or too weak. */
  method CheckMethods(ms: seq<VerifiedMethod>, p: Policy) returns (problem: Option<Code>)
    ensures problem == FirstProblem(ms, p)
  {
    for i := 0 to |ms|
      invariant forall j :: 0 <= j < i ==> MethodProblem(ms[j], p).None?
    {
      var m := ms[i];
      FirstProblemFrom(ms, p, i);
      if m.id in p.blocked {
        return Some(MethodBlocked);
      }
      if |p.allowed| > 0 && m.id !in p.allowed {
        return Some(MethodNotAllowed);
      }
      if m.id in p.minStrength && m.strength < p.minStrength[m.id] {
        return Some(MethodStrengthInsufficient);
      }
    }
    FirstProblemFrom(ms, p, |ms|);
    return None;
  }

  lemma PointsSnoc(ms: seq<VerifiedMethod>, dropped: seq<bool>, i: nat)
    requires i < |ms| == |dropped|
    ensures Points(ms[..i + 1], dropped[..i + 1])
            == Points(ms[..i], dropped[..i]) + if ms[i].strength >= CEILING || dropped[i] then 0 else ms[i].strength
  {
    assert ms[..i + 1][..i] == ms[..i] && dropped[..i + 1][..i] == dropped[..i];
  }

  /** Step 7 in Go: an int that wraps. */
  method GoPoints(ms: seq<VerifiedMethod>, now: Time, ghost dropped: seq<bool>) returns (points: int)
    requires |dropped| == |ms| && forall i :: 0 <= i < |ms| ==> dropped[i] == GoStale(ms[i], ms[i].freshness, now)
    ensures points == Wrap(Points(ms, dropped))
  {
    points := 0;
    for i := 0 to |ms|
      invariant points == Wrap(Points(ms[..i], dropped[..i]))
    {
      PointsSnoc(ms, dropped, i);
      if ms[i].strength >= CEILING {
        continue;
      }
      if ms[i].freshness > 0 && Sub(now, ms[i].verifiedAt) > ms[i].freshness {
        continue;
      }
      WrapAdd(Points(ms[..i], dropped[..i]), ms[i].strength);
      points := Wrap(points + ms[i].strength);
    }
    assert ms[..|ms|] == ms && dropped[..|ms|] == dropped;
  }

  /** Step 7 in TypeScript. */
  method TsPoints(ms: seq<VerifiedMethod>, nowMs: int, ghost dropped: seq<bool>) returns (supp: int)
    requires |dropped| == |ms|
    requires forall i :: 0 <= i < |ms| ==> dropped[i] == TsStale(ms[i], ms[i].freshness as real / 1_000_000.0, nowMs)
    ensures supp == Points(ms, dropped)
  {
    supp := 0;
    for i := 0 to |ms|
      invariant supp == Points(ms[..i], dropped[..i])
    {
      PointsSnoc(ms, dropped, i);
      if ms[i].strength >= CEILING {
        continue;
      }
      var lifetimeMs := ms[i].freshness as real / 1_000_000.0;
      assert lifetimeMs > 0.0 <==> ms[i].freshness > 0;
      if ms[i].freshness > 0 && (nowMs - Ms(ms[i].verifiedAt)) as real > lifetimeMs {
        continue;
      }
      supp := supp + ms[i].strength;
    }
    assert ms[..|ms|] == ms && dropped[..|ms|] == dropped;
  }

  /** Step 5 in Go: find the anchor method and test its window. */
  method GoAnchor(c: Credential, p: Policy, now: Time) returns (problem: Option<Code>)
    requires GoValid(c) && c.anchor.Some?
    ensures problem == if GoLateness(c, p, now).anchor then Some(AnchorMethodExpired) else None
  {
    var k: nat := 0;
    while k < |c.methods| && c.methods[k].id != c.anchor.value
      invariant k <= |c.methods| && forall j :: 0 <= j < k ==> c.methods[j].id != c.anchor.value
    {
      k := k + 1;
    }
    assert k == FirstIndex(c.methods, c.anchor.value);
    var window := if p.maxAnchorAge > 0 then Wrap(p.maxAnchorAge * SECOND) else c.methods[k].freshness;
    if window > 0 && Sub(now, c.methods[k].verifiedAt) > window {
      return Some(AnchorMethodExpired);
    }
    return None;
  }

  method Evaluate(c: Credential, p: Policy, now: Time) returns (code: Code)
    ensures code == GoCode(c, p, now)
  {
    var valid := Validate(c);
    if !valid {
      return SignatureInvalid;
    }
    if p.maxCredentialAge > 0 && Sub(now, GoTime(c.issued)) > Wrap(p.maxCredentialAge * SECOND) {
      return VCExpired;
    }
    if now > GoTime(c.expires) {
      return VCExpired;
    }
    if p.anchorRequired && c.anchor.None? {
      return AnchorMissing;
    }
    if c.anchor.Some? {
      var stale := GoAnchor(c, p, now);
      if stale.Some? {
        return stale.value;
      }
    }
    var problem := CheckMethods(c.methods, p);
    if problem.Some? {
      return problem.value;
    }
    var points := GoPoints(c.methods, now, GoLateness(c, p, now).dropped);
    if points < p.minPoints {
      return InsufficientSupplementary;
    }
    if p.nullifierRequired && c.binding.None? {
      return NullifierMissing;
    }
    if p.nullifierRequired && !Derivable(c, p) {
      return NullifierMissing;
    }
    return Ok;
  }

  /** evaluate, then the derivation its caller in index.ts adds. */
  method EvaluateTs(c: Credential, p: Policy, nowMs: int) returns (code: Code)
    ensures code == TsCode(c, p, nowMs)
  {
    if !TsValid(c) {
      return SignatureInvalid;
    }
    if p.maxCredentialAge > 0 && (nowMs - Ms(c.issued.value)) as real / 1000.0 > p.maxCredentialAge as real {
      return VCExpired;
    }
    if nowMs > Ms(c.expires.value) {
      return VCExpired;
    }
    if p.anchorRequired && c.anchor.None? {
      return AnchorMissing;
    }
    if c.anchor.Some? {
      var k := FirstIndex(c.methods, c.anchor.value);
      var windowMs := TsAnchorWindow(c.methods[k], p);
      if windowMs > 0.0 && (nowMs - Ms(c.methods[k].verifiedAt)) as real > windowMs {
        return AnchorMethodExpired;
      }
    }
    var problem := CheckMethods(c.methods, p);
    if problem.Some? {
      return problem.value;
    }
    var supp := TsPoints(c.methods, nowMs, TsLateness(c, p, nowMs).dropped);
    if supp < p.minPoints {
      return InsufficientSupplementary;
    }
    if p.nullifierRequired && (c.binding.None? || !Derivable(c, p)) {
      return NullifierMissing;
    }
    return Ok;
  }

  // --- When the two agree ---------------------------------------------------------------------

  predicate Aligned(t: Time) {
    t % MILLI == 0
  }

  /** Millisecond-aligned, and no time is Go's zero. */
  ghost predicate PlainTimes(c: Credential) {
    && (c.issued.Some? ==> Aligned(c.issued.value) && c.issued.value != ZERO_TIME)
    && (c.expires.Some? ==> Aligned(c.expires.value) && c.expires.value != ZERO_TIME)
    && forall i :: 0 <= i < |c.methods| ==> Aligned(c.methods[i].verifiedAt)
  }

  /** No lifetime is the greatest int64. */
  ghost predicate LifetimesInRange(c: Credential) {
    forall i :: 0 <= i < |c.methods| ==> MIN_INT64 <= c.methods[i].freshness < MAX_INT64
  }

  /** The points of c at now, before any wrapping. */
  function TruePoints(c: Credential, now: Time): int {
    Points(c.methods, GoDropped(c, now))
  }

  /** No lifetime is the greatest int64 and the points do not leave int64. */
  ghost predicate InRange(c: Credential, now: Time) {
    LifetimesInRange(c) && InInt64(TruePoints(c, now))
  }

  /** The most seconds whose nanoseconds fit in an int64. */
  const MAX_SECONDS: int := 9_223_372_036

  lemma SameAge(now: Time, then_: Time, seconds: int)
    requires Aligned(now) && Aligned(then_) && 0 < seconds <= MAX_SECONDS
    ensures Sub(now, then_) > Wrap(seconds * SECOND) <==> now - then_ > seconds * SECOND
    ensures (Ms(now) - Ms(then_)) as real / 1000.0 > seconds as real <==> now - then_ > seconds * SECOND
    ensures (Ms(now) - Ms(then_)) as real > seconds as real * 1000.0 <==> now - then_ > seconds * SECOND
  {
    assert now == Ms(now) * MILLI && then_ == Ms(then_) * MILLI;
    assert seconds * SECOND < MAX_INT64;
    var d := Ms(now) - Ms(then_);
    assert now - then_ == d * MILLI;
    assert d > seconds * 1000 <==> d as real > (seconds * 1000) as real;
    assert (seconds * 1000) as real == seconds as real * 1000.0;
  }

  lemma SameLifetime(m: VerifiedMethod, now: Time)
    requires Aligned(now) && Aligned(m.verifiedAt) && MIN_INT64 <= m.freshness < MAX_INT64
    ensures GoStale(m, m.freshness, now) <==> TsStale(m, m.freshness as real / 1_000_000.0, Ms(now))
  {
    var d := Ms(now) - Ms(m.verifiedAt);
    assert now - m.verifiedAt == d * MILLI;
    assert d as real > m.freshness as real / 1_000_000.0 <==> d as real * 1_000_000.0 > m.freshness as real;
    assert d as real * 1_000_000.0 == (d * MILLI) as real;
  }

  lemma SameLateness(c: Credential, p: Policy, now: Time)
    requires PlainTimes(c) && Aligned(now) && LifetimesInRange(c) && GoValid(c) && TsValid(c)
    requires p.maxCredentialAge <= MAX_SECONDS && p.maxAnchorAge <= MAX_SECONDS
    ensures GoLateness(c, p, now) == TsLateness(c, p, Ms(now))
  {
    if p.maxCredentialAge > 0 {
      SameAge(now, c.issued.value, p.maxCredentialAge);
    }
    if c.anchor.Some? {
      var m := c.methods[FirstIndex(c.methods, c.anchor.value)];
      if p.maxAnchorAge > 0 {
        SameAge(now, m.verifiedAt, p.maxAnchorAge);
        WholeSeconds(p.maxAnchorAge);
      } else {
        SameLifetime(m, now);
      }
    }
    SameDropped(c, p, now);
  }

  lemma SameDropped(c: Credential, p: Policy, now: Time)
    requires PlainTimes(c) && Aligned(now) && LifetimesInRange(c) && GoValid(c) && TsValid(c)
    ensures GoLateness(c, p, now).dropped == TsLateness(c, p, Ms(now)).dropped
  {
    var go, ts := GoLateness(c, p, now).dropped, TsLateness(c, p, Ms(now)).dropped;
    forall i | 0 <= i < |c.methods|
      ensures go[i] == ts[i]
    {
      SameLifetime(c.methods[i], now);
    }
    assert go == ts;
  }

  lemma WholeSeconds(seconds: int)
    requires 0 < seconds <= MAX_SECONDS
    ensures Wrap(seconds * SECOND) == seconds * SECOND > 0
  {}

  lemma SameValidity(c: Credential)
    requires PlainTimes(c)
    ensures GoValid(c) <==> TsValid(c)
  {
    if c.issued.Some? && c.expires.Some? {
      assert c.issued.value == Ms(c.issued.value) * MILLI && c.expires.value == Ms(c.expires.value) * MILLI;
    }
  }

  /** On plain times and in-range numbers the two evaluators give the same code. */
  lemma SameCode(c: Credential, p: Policy, now: Time)
    requires PlainTimes(c) && Aligned(now) && InRange(c, now)
    requires p.maxCredentialAge <= MAX_SECONDS && p.maxAnchorAge <= MAX_SECONDS
    ensures GoCode(c, p, now) == TsCode(c, p, Ms(now))
  {
    SameCodeIff(c, p, now);
  }

  /** c is valid and passes every check before the points. */
  predicate ReachesPoints(c: Credential, p: Policy, now: Time) {
    GoValid(c) && PassesTo(c, p, GoLateness(c, p, now))
  }

  predicate PassesTo(c: Credential, p: Policy, late: Lateness) {
    && !late.credential && !late.expired
    && (p.anchorRequired ==> c.anchor.Some?) && (c.anchor.Some? ==> !late.anchor)
    && FirstProblem(c.methods, p).None?
  }

  /** Two point counts give the same outcome exactly when both reach the minimum
      or neither does, or an earlier check decides. */
  lemma OutcomesIff(c: Credential, p: Policy, late: Lateness, x: int, y: int)
    ensures Outcome(c, p, late, x) == Outcome(c, p, late, y)
            <==> (PassesTo(c, p, late) ==> (x < p.minPoints <==> y < p.minPoints))
  {}

  /** On plain times and lifetimes in range the codes agree exactly when the
      wrapped points and the points fall on the same side of the minimum, or an
      earlier check decides. */
  lemma SameCodeIff(c: Credential, p: Policy, now: Time)
    requires PlainTimes(c) && Aligned(now) && LifetimesInRange(c)
    requires p.maxCredentialAge <= MAX_SECONDS && p.maxAnchorAge <= MAX_SECONDS
    ensures var points := TruePoints(c, now);
            GoCode(c, p, now) == TsCode(c, p, Ms(now))
            <==> (ReachesPoints(c, p, now) ==> (Wrap(points) < p.minPoints <==> points < p.minPoints))
  {
    SameValidity(c);
    if GoValid(c) {
      SameLateness(c, p, now);
      var points := TruePoints(c, now);
      OutcomesIff(c, p, GoLateness(c, p, now), Wrap(points), points);
    }
  }

  /** So for a credential that reaches the points, they agree for every int64
      minimum exactly when the points are in int64, or exceed it and wrap to its
      greatest value. */
  lemma AgreeForEveryMinimumIff(c: Credential, p: Policy, now: Time)
    requires PlainTimes(c) && Aligned(now) && LifetimesInRange(c) && ReachesPoints(c, p, now)
    requires p.maxCredentialAge <= MAX_SECONDS && p.maxAnchorAge <= MAX_SECONDS
    ensures var points := TruePoints(c, now);
            (forall m :: InInt64(m) ==> AgreeAt(c, p, m, now))
            <==> InInt64(points) || (points > MAX_INT64 && Wrap(points) == MAX_INT64)
  {
    var points := TruePoints(c, now);
    forall m ensures AgreeAt(c, p, m, now) <==> (Wrap(points) < m <==> points < m) {
      SameProblems(c.methods, p, m);
      SameCodeIff(c, p.(minPoints := m), now);
    }
    assert AgreeAt(c, p, MAX_INT64, now) <==> (Wrap(points) < MAX_INT64 <==> points < MAX_INT64);
    assert AgreeAt(c, p, MIN_INT64, now) <==> (Wrap(points) < MIN_INT64 <==> points < MIN_INT64);
  }

  ghost predicate AgreeAt(c: Credential, p: Policy, minPoints: int, now: Time) {
    GoCode(c, p.(minPoints := minPoints), now) == TsCode(c, p.(minPoints := minPoints), Ms(now))
  }

  lemma {:induction false} SameProblems(ms: seq<VerifiedMethod>, p: Policy, m: int)
    ensures FirstProblem(ms, p.(minPoints := m)) == FirstProblem(ms, p)
  {
    if ms != [] {
      SameProblems(ms[1..], p, m);
    }
  }

  /** Two methods of strengths MIN_INT64 and -1 wrap to the greatest int64, so a
      credential with them differs under every int64 minimum. id is any method the
      policy takes at any strength. */
  lemma NegativePointsDiffer(p: Policy, id: string) returns (c: Credential)
    requires p.maxCredentialAge <= MAX_SECONDS && p.maxAnchorAge <= MAX_SECONDS && InInt64(p.minPoints)
    requires id !in p.blocked && (p.allowed == [] || id in p.allowed) && id !in p.minStrength
    ensures PlainTimes(c) && LifetimesInRange(c) && TruePoints(c, 0) == MIN_INT64 - 1
    ensures GoCode(c, p, 0) != TsCode(c, p, 0)
  {
    var m, n := VerifiedMethod(id, MIN_INT64, 0, 0), VerifiedMethod(id, -1, 0, 0);
    c := Credential([W3C, PERSONHOOD], "did:web:issuer", Some(0), Some(SECOND), [m, n], Some(id), None);
    assert W3C == c.context[0] && PERSONHOOD == c.context[1];
    assert FirstIndex(c.methods, id) == 0 && GoValid(c);
    JustVerified(c, p);
    assert GoDropped(c, 0) == [false, false];
    TwoPoints(m, n, false);
    assert c.methods[1..] == [n] && [n][1..] == [];
    assert FirstProblem([n], p) == FirstProblem([], p) == None;
    SameCodeIff(c, p, 0);
  }

  /** Nothing is late for a credential issued and verified at 0. */
  lemma JustVerified(c: Credential, p: Policy)
    requires GoValid(c) && c.issued == Some(0) && c.expires == Some(SECOND)
    requires p.maxCredentialAge <= MAX_SECONDS && p.maxAnchorAge <= MAX_SECONDS
    requires forall i :: 0 <= i < |c.methods| ==> c.methods[i].verifiedAt == 0
    ensures var late := GoLateness(c, p, 0);
            !late.credential && !late.expired && !late.anchor && forall i :: 0 <= i < |c.methods| ==> !late.dropped[i]
  {
    if p.maxCredentialAge > 0 {
      SameAge(0, 0, p.maxCredentialAge);
    }
  }

  // --- When they do not -------------------------------------------------------------------------

  /** An age limit past MAX_SECONDS turns into a smaller number of nanoseconds. */
  lemma OverflowShrinks(seconds: int)
    requires MAX_SECONDS < seconds <= MAX_INT64
    ensures Wrap(seconds * SECOND) < MAX_INT64 < seconds * SECOND
  {
    var k := (Wrap(seconds * SECOND) - seconds * SECOND) / 0x1_0000_0000_0000_0000;
    assert Wrap(seconds * SECOND) == 2 * (seconds * 500_000_000 + k * 0x8000_0000_0000_0000);
  }

  /** A credential that passes every check up to the anchor's age. */
  lemma Sample(issued: Time, expires: Time, verifiedAt: Time) returns (c: Credential)
    requires Aligned(issued) && Aligned(expires) && Aligned(verifiedAt) && ZERO_TIME < issued < expires
    ensures PlainTimes(c) && (forall now :: InRange(c, now)) && GoValid(c) && TsValid(c)
    ensures c.issued == Some(issued) && c.expires == Some(expires)
    ensures c.anchor.Some? && c.methods[FirstIndex(c.methods, c.anchor.value)].verifiedAt == verifiedAt
  {
    c := Credential([W3C, PERSONHOOD], "did:web:issuer", Some(issued), Some(expires),
                    [VerifiedMethod("passport", CEILING, verifiedAt, 0)], Some("passport"), None);
    assert W3C == c.context[0] && PERSONHOOD == c.context[1];
    forall now
      ensures InRange(c, now)
    {
      assert Points(c.methods[..0], GoDropped(c, now)[..0]) == 0;
    }
    SameValidity(c);
  }

  /** c and now are a counterexample to agreement under p. */
  ghost predicate Disagree(p: Policy, c: Credential, now: Time) {
    PlainTimes(c) && Aligned(now) && InRange(c, now) && GoCode(c, p, now) != TsCode(c, p, Ms(now))
  }

  /** A credential aged exactly the limit: too old for Go, not for TypeScript. */
  lemma CredentialAgeDiffers(p: Policy)
    requires MAX_SECONDS < p.maxCredentialAge <= MAX_INT64
    ensures exists c, now :: Disagree(p, c, now)
  {
    var now := p.maxCredentialAge * SECOND;
    var c := Sample(0, now + SECOND, now);
    OverflowShrinks(p.maxCredentialAge);
    assert Sub(now, 0) == MAX_INT64;
    assert GoCode(c, p, now) == VCExpired;
    assert Ms(now) == p.maxCredentialAge * 1000;
    assert !TsLateness(c, p, Ms(now)).credential && !TsLateness(c, p, Ms(now)).expired;
    FirstProblemIsNotExpired(c.methods, p);
    assert TsCode(c, p, Ms(now)) != VCExpired;
    assert Disagree(p, c, now);
  }

  lemma {:induction false} FirstProblemIsNotExpired(ms: seq<VerifiedMethod>, p: Policy)
    ensures FirstProblem(ms, p).Some? ==>
      FirstProblem(ms, p).value in {MethodBlocked, MethodNotAllowed, MethodStrengthInsufficient}
  {
    if ms != [] {
      FirstProblemIsNotExpired(ms[1..], p);
    }
  }

  /** Which way the anchor check goes for an anchor aged just over the limit, or
      exactly it when the wrapped limit is still positive. */
  lemma AnchorWindows(p: Policy, m: VerifiedMethod, age: int)
    requires MAX_SECONDS < p.maxAnchorAge <= MAX_INT64 && m.verifiedAt == -age
    requires age == p.maxAnchorAge * SECOND + if Wrap(p.maxAnchorAge * SECOND) > 0 then 0 else MILLI
    ensures GoStale(m, GoAnchorWindow(m, p), 0) <==> Wrap(p.maxAnchorAge * SECOND) > 0
    ensures TsStale(m, TsAnchorWindow(m, p), 0) <==> Wrap(p.maxAnchorAge * SECOND) <= 0
  {
    var window := Wrap(p.maxAnchorAge * SECOND);
    OverflowShrinks(p.maxAnchorAge);
    assert Sub(0, -age) == MAX_INT64;
    var d := 0 - Ms(-age);
    assert d == p.maxAnchorAge * 1000 + if window > 0 then 0 else 1;
    assert (p.maxAnchorAge * 1000) as real == p.maxAnchorAge as real * 1000.0;
    assert d as real > (p.maxAnchorAge * 1000) as real <==> d > p.maxAnchorAge * 1000;
  }

  lemma WholeMillis(k: int)
    ensures Aligned(k * MILLI)
  {}

  lemma AnchorAgeDiffers(p: Policy)
    requires p.maxCredentialAge <= MAX_SECONDS && MAX_SECONDS < p.maxAnchorAge <= MAX_INT64
    ensures exists c, now :: Disagree(p, c, now)
  {
    var age := p.maxAnchorAge * SECOND + if Wrap(p.maxAnchorAge * SECOND) > 0 then 0 else MILLI;
    var steps := p.maxAnchorAge * 1000 + if Wrap(p.maxAnchorAge * SECOND) > 0 then 0 else 1;
    assert -age == -steps * MILLI;
    WholeMillis(-steps);
    var c := Sample(0, SECOND, -age);
    OldAnchorDisagrees(p, c, age);
  }

  lemma OldAnchorDisagrees(p: Policy, c: Credential, age: int)
    requires p.maxCredentialAge <= MAX_SECONDS && MAX_SECONDS < p.maxAnchorAge <= MAX_INT64
    requires age == p.maxAnchorAge * SECOND + if Wrap(p.maxAnchorAge * SECOND) > 0 then 0 else MILLI
    requires PlainTimes(c) && InRange(c, 0) && GoValid(c) && TsValid(c)
    requires c.issued == Some(0) && c.expires == Some(SECOND) && c.anchor.Some?
    requires c.methods[FirstIndex(c.methods, c.anchor.value)].verifiedAt == -age
    ensures Disagree(p, c, 0)
  {
    JustIssued(c, p);
    AnchorWindows(p, c.methods[FirstIndex(c.methods, c.anchor.value)], age);
    AnchorDecides(c, p, 0);
  }

  lemma JustIssued(c: Credential, p: Policy)
    requires GoValid(c) && TsValid(c) && c.issued == Some(0) && c.expires == Some(SECOND)
             && p.maxCredentialAge <= MAX_SECONDS
    ensures !GoLateness(c, p, 0).credential && !GoLateness(c, p, 0).expired
    ensures !TsLateness(c, p, 0).credential && !TsLateness(c, p, 0).expired
  {
    if p.maxCredentialAge > 0 {
      SameAge(0, 0, p.maxCredentialAge);
    }
  }

  /** When only the anchor check differs, so do the codes. */
  lemma AnchorDecides(c: Credential, p: Policy, now: Time)
    requires GoValid(c) && TsValid(c) && c.anchor.Some?
    requires var go, ts := GoLateness(c, p, now), TsLateness(c, p, Ms(now));
             !go.credential && !go.expired && !ts.credential && !ts.expired && go.anchor != ts.anchor
    ensures GoCode(c, p, now) != TsCode(c, p, Ms(now))
  {
    FirstProblemIsNotExpired(c.methods, p);
  }

  /** For any policy of int64 limits, the evaluators agree on every credential and
      time in range exactly when neither age limit overflows as nanoseconds. */
  lemma AgreeIff(p: Policy)
    requires p.maxCredentialAge <= MAX_INT64 && p.maxAnchorAge <= MAX_INT64
    ensures (forall c, now :: !Disagree(p, c, now))
            <==> p.maxCredentialAge <= MAX_SECONDS && p.maxAnchorAge <= MAX_SECONDS
  {
    if p.maxCredentialAge > MAX_SECONDS {
      CredentialAgeDiffers(p);
    } else if p.maxAnchorAge > MAX_SECONDS {
      AnchorAgeDiffers(p);
    } else {
      forall c, now
        ensures !Disagree(p, c, now)
      {
        if PlainTimes(c) && Aligned(now) && InRange(c, now) {
          SameCode(c, p, now);
        }
      }
    }
  }

  /** The greatest lifetime never ends in Go, whose differences saturate at it. */
  lemma GreatestLifetimeNeverEnds(m: VerifiedMethod, now: Time)
    requires m.freshness == MAX_INT64 && Aligned(now) && Aligned(m.verifiedAt)
    ensures !GoStale(m, m.freshness, now)
    ensures TsStale(m, m.freshness as real / 1_000_000.0, Ms(now)) <==> now - m.verifiedAt > MAX_INT64
  {
    var d := Ms(now) - Ms(m.verifiedAt);
    assert now - m.verifiedAt == d * MILLI;
    assert d as real * 1_000_000.0 == (d * MILLI) as real;
  }

  /** So a credential in time, anchored to a method of that lifetime, gets two
      codes from the moment its anchor is older than the greatest int64. */
  lemma GreatestLifetimeDiffers(c: Credential, p: Policy, now: Time)
    requires PlainTimes(c) && Aligned(now) && GoValid(c) && TsValid(c) && c.anchor.Some? && p.maxAnchorAge <= 0
    requires var go, ts := GoLateness(c, p, now), TsLateness(c, p, Ms(now));
             !go.credential && !go.expired && !ts.credential && !ts.expired
    requires var m := c.methods[FirstIndex(c.methods, c.anchor.value)];
             m.freshness == MAX_INT64 && now - m.verifiedAt > MAX_INT64
    ensures TsCode(c, p, Ms(now)) != GoCode(c, p, now)
  {
    var m := c.methods[FirstIndex(c.methods, c.anchor.value)];
    GreatestLifetimeNeverEnds(m, now);
    AnchorDecides(c, p, now);
  }

  // --- Time only takes away -----------------------------------------------------------------------

  ghost predicate NonNegativeStrengths(c: Credential) {
    forall i :: 0 <= i < |c.methods| ==> c.methods[i].strength >= 0
  }

  /** a is late wherever b is. */
  ghost predicate Earlier(b: Lateness, a: Lateness) {
    && |a.dropped| == |b.dropped|
    && (b.credential ==> a.credential) && (b.expired ==> a.expired) && (b.anchor ==> a.anchor)
    && forall i :: 0 <= i < |b.dropped| ==> b.dropped[i] ==> a.dropped[i]
  }

  lemma {:induction false} FewerDroppedMorePoints(ms: seq<VerifiedMethod>, b: seq<bool>, a: seq<bool>)
    requires |ms| == |a| == |b|
    requires forall i :: 0 <= i < |ms| ==> ms[i].strength >= 0 && (b[i] ==> a[i])
    ensures Points(ms, b) >= Points(ms, a)
  {
    if ms != [] {
      var k := |ms| - 1;
      FewerDroppedMorePoints(ms[..k], b[..k], a[..k]);
    }
  }

  lemma EarlierOutcome(c: Credential, p: Policy, b: Lateness, a: Lateness, more: int, fewer: int)
    requires Earlier(b, a) && more >= fewer && Outcome(c, p, a, fewer) == Ok
    ensures Outcome(c, p, b, more) == Ok
  {}

  /** Only strengths below the ceiling add up. */
  lemma {:induction false} PointsAtMost(ms: seq<VerifiedMethod>, dropped: seq<bool>)
    requires |ms| == |dropped| && forall i :: 0 <= i < |ms| ==> ms[i].strength >= 0
    ensures 0 <= Points(ms, dropped) <= CEILING * |ms|
  {
    if ms != [] {
      PointsAtMost(ms[..|ms| - 1], dropped[..|ms| - 1]);
    }
  }

  /** With non-negative strengths, a credential that passes in Go at one time
      passed at every earlier one: any lifetimes, and any number of methods whose
      points an int64 can count. */
  lemma OkEarlier(c: Credential, p: Policy, earlier: Time, now: Time)
    requires NonNegativeStrengths(c) && CEILING * |c.methods| <= MAX_INT64 && earlier <= now
    requires GoCode(c, p, now) == Ok
    ensures GoCode(c, p, earlier) == Ok
  {
    FirstProblemIsNotExpired(c.methods, p);
    var b, a := GoLateness(c, p, earlier), GoLateness(c, p, now);
    FewerDroppedMorePoints(c.methods, b.dropped, a.dropped);
    PointsAtMost(c.methods, b.dropped);
    PointsAtMost(c.methods, a.dropped);
    EarlierOutcome(c, p, b, a, Points(c.methods, b.dropped), Points(c.methods, a.dropped));
  }

  /** The same in TypeScript, for any number of methods. */
  lemma OkEarlierTs(c: Credential, p: Policy, earlierMs: int, nowMs: int)
    requires NonNegativeStrengths(c) && earlierMs <= nowMs
    requires TsCode(c, p, nowMs) == Ok
    ensures TsCode(c, p, earlierMs) == Ok
  {
    FirstProblemIsNotExpired(c.methods, p);
    var b, a := TsLateness(c, p, earlierMs), TsLateness(c, p, nowMs);
    TsEarlier(c, p, earlierMs, nowMs);
    FewerDroppedMorePoints(c.methods, b.dropped, a.dropped);
    EarlierOutcome(c, p, b, a, Points(c.methods, b.dropped), Points(c.methods, a.dropped));
  }

  /** Without that, time can give: a method of negative strength that ends. */
  lemma NegativeStrengthBreaks(p: Policy) returns (c: Credential, earlier: Time, now: Time)
    requires p.blocked == [] && p.allowed == [] && p.minStrength == map[]
    requires p.maxCredentialAge <= 0 && p.maxAnchorAge <= 0 && !p.anchorRequired && !p.nullifierRequired
    requires 0 <= p.minPoints < CEILING
    ensures earlier <= now && GoCode(c, p, now) == Ok && GoCode(c, p, earlier) == InsufficientSupplementary
  {
    c := Credential([W3C, PERSONHOOD], "did:web:issuer", Some(0), Some(SECOND),
                    [VerifiedMethod("face", p.minPoints, 0, 0), VerifiedMethod("social", -1, 0, 1)], None, None);
    earlier, now := 0, 2;
    assert W3C == c.context[0] && PERSONHOOD == c.context[1];
    var b, a := GoLateness(c, p, earlier), GoLateness(c, p, now);
    assert b.dropped == [false, false] && a.dropped == [false, true];
    TwoPoints(c.methods[0], c.methods[1], false);
    TwoPoints(c.methods[0], c.methods[1], true);
    assert FirstProblem(c.methods[1..], p) == FirstProblem(c.methods[2..], p) == None;
  }

  lemma TwoPoints(m: VerifiedMethod, n: VerifiedMethod, dropped: bool)
    requires m.strength < CEILING && n.strength < CEILING
    ensures Points([m, n], [false, dropped]) == m.strength + if dropped then 0 else n.strength
  {
    var ms, ds := [m, n], [false, dropped];
    assert ms[..1][..0] == [] && ds[..1][..0] == [];
    assert Points(ms[..1], ds[..1]) == m.strength;
  }

  lemma TsEarlier(c: Credential, p: Policy, earlier: int, now: int)
    requires TsValid(c) && earlier <= now
    ensures Earlier(TsLateness(c, p, earlier), TsLateness(c, p, now))
  {
    assert (earlier - Ms(c.issued.value)) as real <= (now - Ms(c.issued.value)) as real;
    forall i | 0 <= i < |c.methods|
      ensures TsLateness(c, p, earlier).dropped[i] ==> TsLateness(c, p, now).dropped[i]
    {
      TsStaleStays(c.methods[i], c.methods[i].freshness as real / 1_000_000.0, earlier, now);
    }
    if c.anchor.Some? {
      var m := c.methods[FirstIndex(c.methods, c.anchor.value)];
      TsStaleStays(m, TsAnchorWindow(m, p), earlier, now);
    }
  }

  lemma TsStaleStays(m: VerifiedMethod, windowMs: real, earlier: int, now: int)
    requires earlier <= now
    ensures TsStale(m, windowMs, earlier) ==> TsStale(m, windowMs, now)
  {}
}
