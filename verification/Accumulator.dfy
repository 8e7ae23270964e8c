/** The template-free enrollment index (accumulator.go) and the serialized
    find-then-add step (method.go, enroll), against a reference index that
    keeps the raw templates. */
module Accumulator {
  import opened Bits
  import opened Wrappers
  import opened FuzzyExtractor

  datatype EnrollmentRecord = EnrollmentRecord(helper: seq<byte>, commitment: Commitment, enrolledAt: int)

  /** What one enroll call answers: a new commitment, the record it matched, the
      error of the hook that was told of the match, or another error. */
  datatype Outcome =
    | Enrolled(commitment: Commitment)
    | Duplicate(record: EnrollmentRecord)
    | HookFailed(told: Commitment)
    | Failed

  /** One call of enroll: the template, the bytes the random source would
      deliver (None when reading it fails), the clock, and whether there is an
      onMatch hook that would fail. */
  datatype Request = Request(template: seq<byte>, entropy: Option<seq<byte>>, now: int, hookFails: bool)

  ghost predicate WellFormed(req: Request) {
    req.entropy.Some? ==> |req.entropy.value| == SEED_BYTES
  }

  // --- The index, on values ---------------------------------------------------

  /** The position of the first record from position i on that reproduces its own commitment. */
  function FindFrom(records: seq<EnrollmentRecord>, template: seq<byte>, i: nat): Result<Option<nat>, TemplateError>
    requires i <= |records|
    decreases |records| - i
  {
    if i == |records| then Success(None)
    else match Reproduce(template, records[i].helper)
      case Failure(e) => Failure(e)
      case Success(c) =>
        if c == Some(records[i].commitment) then Success(Some(i)) else FindFrom(records, template, i + 1)
  }

  function EnrollStep(records: seq<EnrollmentRecord>, req: Request): (seq<EnrollmentRecord>, Outcome) {
    match FindFrom(records, req.template, 0)
    case Failure(_) => (records, Failed)
    case Success(Some(i)) =>
      if i >= |records| then (records, Failed)
      else (records, if req.hookFails then HookFailed(records[i].commitment) else Duplicate(records[i]))
    case Success(None) =>
      if |req.template| != TEMPLATE_BYTES || req.entropy.None? then (records, Failed)
      else
        var seed := Unpadded(req.entropy.value);
        (records + [EnrollmentRecord(Xor(req.template, Codeword(seed)), Digest(seed), req.now)], Enrolled(Digest(seed)))
  }

  function EnrollRun(records: seq<EnrollmentRecord>, reqs: seq<Request>): (seq<EnrollmentRecord>, seq<Outcome>)
    decreases |reqs|
  {
    if reqs == [] then (records, [])
    else
      var (r1, o) := EnrollStep(records, reqs[0]);
      var (r2, os) := EnrollRun(r1, reqs[1..]);
      (r2, [o] + os)
  }

  // --- The reference: a plain list of raw templates ---------------------------

  datatype RawOutcome = RawEnrolled | RawDuplicate(index: nat) | RawHookFailed(index: nat) | RawFailed

  function FirstMatch(templates: seq<seq<byte>>, template: seq<byte>, i: nat): Option<nat>
    requires i <= |templates|
    decreases |templates| - i
  {
    if i == |templates| then None
    else if Matches(templates[i], template) then Some(i)
    else FirstMatch(templates, template, i + 1)
  }

  function RawStep(templates: seq<seq<byte>>, req: Request): (seq<seq<byte>>, RawOutcome) {
    if |req.template| != TEMPLATE_BYTES then (templates, RawFailed)
    else match FirstMatch(templates, req.template, 0)
      case Some(i) => (templates, if req.hookFails then RawHookFailed(i) else RawDuplicate(i))
      case None => if req.entropy.None? then (templates, RawFailed) else (templates + [req.template], RawEnrolled)
  }

  function RawRun(templates: seq<seq<byte>>, reqs: seq<Request>): (seq<seq<byte>>, seq<RawOutcome>)
    decreases |reqs|
  {
    if reqs == [] then (templates, [])
    else
      var (t1, o) := RawStep(templates, reqs[0]);
      var (t2, os) := RawRun(t1, reqs[1..]);
      (t2, [o] + os)
  }

  // --- The imperative index ---------------------------------------------------

  class InMemoryAccumulator {
    var records: seq<EnrollmentRecord>

    constructor ()
      ensures records == []
    {
      records := [];
    }

    method FindDuplicate(template: seq<byte>) returns (r: Result<Option<EnrollmentRecord>, TemplateError>)
      ensures match FindFrom(records, template, 0)
              case Failure(e) => r == Failure(e)
              case Success(None) => r == Success(None)
              case Success(Some(i)) => i < |records| && r == Success(Some(records[i]))
    {
      for i := 0 to |records|
        invariant FindFrom(records, template, 0) == FindFrom(records, template, i)
      {
        var rep := Rep(template, records[i].helper);
        match rep {
          case Failure(e) => return Failure(e);
          case Success(c) =>
            if c == Some(records[i].commitment) {
              return Success(Some(records[i]));
            }
        }
      }
      r := Success(None);
    }

    method Add(rec: EnrollmentRecord)
      modifies this
      ensures records == old(records) + [rec]
    {
      records := records + [rec];
    }
  }

  /** Method.enroll: the caller holds the enrollment lock for the whole call. */
  method Enroll(accumulator: InMemoryAccumulator, req: Request) returns (out: Outcome)
    requires WellFormed(req)
    modifies accumulator
    ensures (accumulator.records, out) == EnrollStep(old(accumulator.records), req)
  {
    var found := accumulator.FindDuplicate(req.template);
    match found {
      case Failure(_) => return Failed;
      case Success(Some(rec)) =>
        if req.hookFails {
          return HookFailed(rec.commitment);
        }
        return Duplicate(rec);
      case Success(None) =>
    }
    var gen := Gen(req.template, req.entropy);
    match gen {
      case Failure(_) => return Failed;
      case Success((helper, commitment)) =>
        accumulator.Add(EnrollmentRecord(helper, commitment, req.now));
        return Enrolled(commitment);
    }
  }

  // --- The two indexes decide alike -------------------------------------------

  /** rec is what enrolling template stored, for some canonical seed. */
  ghost predicate Masks(rec: EnrollmentRecord, template: seq<byte>) {
    && |template| == TEMPLATE_BYTES
    && Canonical(rec.commitment.seed)
    && rec.helper == Xor(template, Codeword(rec.commitment.seed))
  }

  ghost predicate Tracks(records: seq<EnrollmentRecord>, templates: seq<seq<byte>>) {
    && |records| == |templates|
    && forall i :: 0 <= i < |records| ==> Masks(records[i], templates[i])
  }

  ghost predicate PairwiseApart(templates: seq<seq<byte>>) {
    forall i, j :: 0 <= i < |templates| && 0 <= j < |templates| && i != j ==> !Matches(templates[i], templates[j])
  }

  /** Same decision, and a duplicate names the record of the matched template.
      Records are only ever appended, so the record is found in any later state. */
  ghost predicate Agree(o: Outcome, raw: RawOutcome, records: seq<EnrollmentRecord>) {
    match raw
    case RawEnrolled => o.Enrolled?
    case RawDuplicate(i) => i < |records| && o == Duplicate(records[i])
    case RawHookFailed(i) => i < |records| && o == HookFailed(records[i].commitment)
    case RawFailed => o == Failed
  }

  lemma OneRecord(rec: EnrollmentRecord, w: seq<byte>, v: seq<byte>)
    requires Masks(rec, w) && |v| == TEMPLATE_BYTES
    ensures Reproduce(v, rec.helper).Success?
    ensures Reproduce(v, rec.helper).value == Some(rec.commitment) <==> Matches(w, v)
  {
    var s := rec.commitment.seed;
    RepRecoversIffMatches(w, v, s);
    assert rec.commitment == Digest(s);
    assert |rec.helper| == TEMPLATE_BYTES;
  }

  lemma {:induction false} SameSearch(records: seq<EnrollmentRecord>, templates: seq<seq<byte>>, template: seq<byte>,
                                      i: nat)
    requires Tracks(records, templates) && |template| == TEMPLATE_BYTES && i <= |records|
    ensures FindFrom(records, template, i) == Success(FirstMatch(templates, template, i))
    decreases |records| - i
  {
    if i < |records| {
      OneRecord(records[i], templates[i], template);
      SameSearch(records, templates, template, i + 1);
    }
  }

  /** No earlier template matches when the first match is not there. */
  lemma {:induction false} FirstMatchNone(templates: seq<seq<byte>>, template: seq<byte>, i: nat)
    requires i <= |templates| && FirstMatch(templates, template, i).None?
    ensures forall k :: i <= k < |templates| ==> !Matches(templates[k], template)
    decreases |templates| - i
  {
    if i < |templates| {
      FirstMatchNone(templates, template, i + 1);
    }
  }

  lemma {:induction false} FirstMatchSome(templates: seq<seq<byte>>, template: seq<byte>, i: nat)
    requires i <= |templates|
    ensures match FirstMatch(templates, template, i)
            case None => true
            case Some(k) => i <= k < |templates| && Matches(templates[k], template)
    decreases |templates| - i
  {
    if i < |templates| {
      FirstMatchSome(templates, template, i + 1);
    }
  }

  lemma StepAgrees(records: seq<EnrollmentRecord>, templates: seq<seq<byte>>, req: Request)
    requires Tracks(records, templates) && WellFormed(req)
    ensures Agree(EnrollStep(records, req).1, RawStep(templates, req).1, records)
    ensures Tracks(EnrollStep(records, req).0, RawStep(templates, req).0)
    ensures records <= EnrollStep(records, req).0
  {
    if |req.template| == TEMPLATE_BYTES {
      SameSearch(records, templates, req.template, 0);
      FirstMatchSome(templates, req.template, 0);
      if req.entropy.Some? {
        UnpaddedCanonical(req.entropy.value);
      }
    } else if records != [] {
      assert FindFrom(records, req.template, 0).Failure?;
    }
  }

  lemma StepKeepsApart(templates: seq<seq<byte>>, req: Request)
    requires PairwiseApart(templates)
    ensures PairwiseApart(RawStep(templates, req).0)
  {
    if RawStep(templates, req).1.RawEnrolled? {
      FirstMatchNone(templates, req.template, 0);
      forall k | 0 <= k < |templates|
        ensures !Matches(templates[k], req.template) && !Matches(req.template, templates[k])
      {
        MatchesSymmetric(templates[k], req.template);
      }
    }
  }

  /** Over every run, the index that never stores a template accepts, refuses
      and names the matched record exactly as the list of raw templates does. */
  lemma {:induction false} RunAgrees(records: seq<EnrollmentRecord>, templates: seq<seq<byte>>, reqs: seq<Request>)
    requires Tracks(records, templates) && forall r :: r in reqs ==> WellFormed(r)
    ensures var (records', outs) := EnrollRun(records, reqs);
            var (templates', raws) := RawRun(templates, reqs);
            && |outs| == |raws| == |reqs|
            && records <= records'
            && Tracks(records', templates')
            && forall k :: 0 <= k < |outs| ==> Agree(outs[k], raws[k], records')
    decreases |reqs|
  {
    if reqs != [] {
      StepAgrees(records, templates, reqs[0]);
      RunAgrees(EnrollStep(records, reqs[0]).0, RawStep(templates, reqs[0]).0, reqs[1..]);
    }
  }

  /** Enrolled templates stay pairwise non-matching, whatever is presented. */
  lemma {:induction false} RunKeepsApart(templates: seq<seq<byte>>, reqs: seq<Request>)
    requires PairwiseApart(templates)
    ensures PairwiseApart(RawRun(templates, reqs).0)
    decreases |reqs|
  {
    if reqs != [] {
      StepKeepsApart(templates, reqs[0]);
      RunKeepsApart(RawStep(templates, reqs[0]).0, reqs[1..]);
    }
  }

  /** From an empty index: every run of the stored-records index is explained by
      pairwise non-matching raw templates, one per record. */
  lemma EveryRunDedupes(reqs: seq<Request>)
    requires forall r :: r in reqs ==> WellFormed(r)
    ensures var (records, outs) := EnrollRun([], reqs);
            var (templates, raws) := RawRun([], reqs);
            && Tracks(records, templates) && PairwiseApart(templates)
            && |outs| == |raws| == |reqs|
            && forall k :: 0 <= k < |outs| ==> Agree(outs[k], raws[k], records)
  {
    RunAgrees([], [], reqs);
    RunKeepsApart([], reqs);
  }
}
