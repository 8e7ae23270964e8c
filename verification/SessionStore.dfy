/** One enrollment session: the in-memory record under its lock
    (src/server/session.go), and the Firestore record whose updates are separate
    reads and writes, guarded by a create-only issue claim
    (src/server/session_firestore.go). */
module SessionStore {
  import opened Wrappers

  type MethodId = string
  type CredentialId = string

  datatype VerifiedMethod = VerifiedMethod(id: MethodId, strength: int, verifiedAt: int, freshness: int, digest: string)

  /** issued is empty until a credential is stamped on the session. */
  datatype SessionRecord = SessionRecord(
    methods: seq<VerifiedMethod>, anchor: Option<MethodId>, issued: CredentialId, identifierKeys: map<string, string>)

  datatype SessionError = FailedResult | AlreadyIssued

  const NewSession: SessionRecord := SessionRecord([], None, "", map[])

  // --- Recording a method result, on values -------------------------------------

  /** Where id is in the list, or its length. */
  function IndexOf(methods: seq<VerifiedMethod>, id: MethodId): nat {
    if methods == [] || methods[0].id == id then 0 else 1 + IndexOf(methods[1..], id)
  }

  function PutMethod(methods: seq<VerifiedMethod>, vm: VerifiedMethod): seq<VerifiedMethod> {
    var i := IndexOf(methods, vm.id);
    if i < |methods| then methods[i := vm] else methods + [vm]
  }

  function RecordResult(rec: SessionRecord, vm: VerifiedMethod, isAnchor: bool): SessionRecord {
    rec.(methods := PutMethod(rec.methods, vm), anchor := if isAnchor then Some(vm.id) else rec.anchor)
  }

  ghost predicate DistinctIds(methods: seq<VerifiedMethod>) {
    forall i, j :: 0 <= i < j < |methods| ==> methods[i].id != methods[j].id
  }

  ghost predicate Holds(methods: seq<VerifiedMethod>, id: MethodId) {
    exists i :: 0 <= i < |methods| && methods[i].id == id
  }

  /** Distinct method ids, with the anchor among them. */
  ghost predicate WellFormed(rec: SessionRecord) {
    DistinctIds(rec.methods) && (rec.anchor.Some? ==> Holds(rec.methods, rec.anchor.value))
  }

  lemma {:induction false} IndexOfFinds(methods: seq<VerifiedMethod>, id: MethodId)
    ensures var i := IndexOf(methods, id);
            && i <= |methods| && (i < |methods| ==> methods[i].id == id)
            && forall j :: 0 <= j < i ==> methods[j].id != id
  {
    if methods != [] && methods[0].id != id {
      IndexOfFinds(methods[1..], id);
    }
  }

  /** Recording a result keeps one entry per method, the newest one, and loses
      no other. */
  lemma RecordKeepsWellFormed(rec: SessionRecord, vm: VerifiedMethod, isAnchor: bool)
    requires WellFormed(rec)
    ensures WellFormed(RecordResult(rec, vm, isAnchor))
    ensures vm in RecordResult(rec, vm, isAnchor).methods
    ensures forall m :: m in rec.methods && m.id != vm.id ==> m in RecordResult(rec, vm, isAnchor).methods
  {
    var i := IndexOf(rec.methods, vm.id);
    var after := RecordResult(rec, vm, isAnchor);
    IndexOfFinds(rec.methods, vm.id);
    assert after.methods[if i < |rec.methods| then i else |rec.methods|] == vm;
    forall m | m in rec.methods && m.id != vm.id
      ensures m in after.methods
    {
      var j :| 0 <= j < |rec.methods| && rec.methods[j] == m;
      assert after.methods[j] == m;
    }
    if rec.anchor.Some? {
      var j :| 0 <= j < |rec.methods| && rec.methods[j].id == rec.anchor.value;
      assert after.methods[j].id == rec.anchor.value;
    }
  }

  /** What recording vm makes of a record, field by field: the entry of that
      method is replaced where it stands, or vm comes last; an anchor result sets
      the anchor and nothing else changes it. */
  ghost predicate RecordedIn(before: SessionRecord, vm: VerifiedMethod, isAnchor: bool, after: SessionRecord) {
    && after.anchor == (if isAnchor then Some(vm.id) else before.anchor)
    && after.issued == before.issued && after.identifierKeys == before.identifierKeys
    && |after.methods| == |before.methods| + (if exists m :: m in before.methods && m.id == vm.id then 0 else 1)
    && (forall i :: 0 <= i < |before.methods| ==>
          after.methods[i] == if before.methods[i].id == vm.id then vm else before.methods[i])
    && (|after.methods| > |before.methods| ==> after.methods[|before.methods|] == vm)
  }

  lemma RecordEffect(rec: SessionRecord, vm: VerifiedMethod, isAnchor: bool)
    requires DistinctIds(rec.methods)
    ensures RecordedIn(rec, vm, isAnchor, RecordResult(rec, vm, isAnchor))
  {
    var k := IndexOf(rec.methods, vm.id);
    IndexOfFinds(rec.methods, vm.id);
    if k < |rec.methods| {
      assert rec.methods[k] in rec.methods;
    } else {
      forall m | m in rec.methods
        ensures m.id != vm.id
      {
        var i :| 0 <= i < |rec.methods| && rec.methods[i] == m;
      }
    }
  }

  datatype MethodResult = MethodResult(vm: VerifiedMethod, isAnchor: bool)

  /** Accepted results, one after another. */
  function RecordAll(rec: SessionRecord, results: seq<MethodResult>): SessionRecord {
    if results == [] then rec
    else
      var k := |results| - 1;
      RecordResult(RecordAll(rec, results[..k]), results[k].vm, results[k].isAnchor)
  }

  /** The method of the last anchor result, or what the anchor was before. */
  function LastAnchor(results: seq<MethodResult>, before: Option<MethodId>): Option<MethodId> {
    if results == [] then before
    else
      var r := results[|results| - 1];
      if r.isAnchor then Some(r.vm.id) else LastAnchor(results[..|results| - 1], before)
  }

  /** The last result of a method. */
  function LastOf(results: seq<MethodResult>, id: MethodId): Option<VerifiedMethod> {
    if results == [] then None
    else
      var vm := results[|results| - 1].vm;
      if vm.id == id then Some(vm) else LastOf(results[..|results| - 1], id)
  }

  /** Recording vm puts it in and takes its method's earlier entry out. */
  lemma EntriesAfter(before: SessionRecord, vm: VerifiedMethod, isAnchor: bool)
    requires DistinctIds(before.methods)
    ensures var after := RecordResult(before, vm, isAnchor);
            && DistinctIds(after.methods)
            && forall m :: m in after.methods <==> m == vm || (m in before.methods && m.id != vm.id)
  {
    var after := RecordResult(before, vm, isAnchor);
    var k := IndexOf(before.methods, vm.id);
    IndexOfFinds(before.methods, vm.id);
    assert after.methods[if k < |before.methods| then k else |before.methods|] == vm;
    forall m | m in before.methods && m.id != vm.id
      ensures m in after.methods
    {
      var j :| 0 <= j < |before.methods| && before.methods[j] == m;
      assert after.methods[j] == m;
    }
  }

  /** After any accepted results on a new session: the anchor is the method of the
      last anchor result, and the entries are the last result of each method. */
  lemma {:induction false} ResultsRecorded(results: seq<MethodResult>)
    ensures var after := RecordAll(NewSession, results);
            && after.anchor == LastAnchor(results, None)
            && after.issued == "" && after.identifierKeys == map[]
            && DistinctIds(after.methods)
            && forall m :: m in after.methods <==> LastOf(results, m.id) == Some(m)
    decreases |results|
  {
    if results != [] {
      var k := |results| - 1;
      ResultsRecorded(results[..k]);
      EntriesAfter(RecordAll(NewSession, results[..k]), results[k].vm, results[k].isAnchor);
    }
  }

  // --- In memory -----------------------------------------------------------------

  class Session {
    var verifiedMethods: seq<VerifiedMethod>
    var anchorMethodId: Option<MethodId>
    var issuedCredentialId: CredentialId
    var identifierKeys: map<string, string>

    function View(): SessionRecord
      reads this
    {
      SessionRecord(verifiedMethods, anchorMethodId, issuedCredentialId, identifierKeys)
    }

    constructor ()
      ensures View() == NewSession && WellFormed(View())
    {
      verifiedMethods, anchorMethodId, issuedCredentialId, identifierKeys := [], None, "", map[];
    }

    method RecordMethodResult(success: bool, vm: VerifiedMethod, isAnchor: bool) returns (err: Option<SessionError>)
      requires WellFormed(View())
      modifies this
      ensures WellFormed(View())
      ensures err == if !success then Some(FailedResult)
                     else if old(issuedCredentialId) != "" then Some(AlreadyIssued) else None
      ensures View() == if err.None? then RecordResult(old(View()), vm, isAnchor) else old(View())
      ensures err.None? ==> RecordedIn(old(View()), vm, isAnchor, View())
    {
      RecordKeepsWellFormed(View(), vm, isAnchor);
      RecordEffect(View(), vm, isAnchor);
      if !success {
        return Some(FailedResult);
      }
      if issuedCredentialId != "" {
        return Some(AlreadyIssued);
      }
      ghost var was := verifiedMethods;
      IndexOfFinds(was, vm.id);
      var replaced := false;
      for i := 0 to |verifiedMethods|
        invariant verifiedMethods == was && !replaced && i <= IndexOf(was, vm.id)
        invariant View() == old(View())
      {
        if verifiedMethods[i].id == vm.id {
          verifiedMethods := verifiedMethods[i := vm];
          replaced := true;
          break;
        }
      }
      if !replaced {
        verifiedMethods := verifiedMethods + [vm];
      }
      if isAnchor {
        anchorMethodId := Some(vm.id);
      }
      err := None;
    }

    method MarkIssued(cred: CredentialId) returns (err: Option<SessionError>)
      modifies this
      ensures err == if old(issuedCredentialId) != "" then Some(AlreadyIssued) else None
      ensures View() == if err.None? then old(View()).(issued := cred) else old(View())
    {
      if issuedCredentialId != "" {
        return Some(AlreadyIssued);
      }
      issuedCredentialId := cred;
      err := None;
    }
  }

  // --- Firestore: requests interleaved at store operations -----------------------

  /** A request in progress and the record it read, if it is between a read and
      a write. Issue first reads the session view, and MarkIssued reads again. */
  datatype Task =
    | Record(vm: VerifiedMethod, isAnchor: bool, held: Option<SessionRecord>)
    | SetKey(kind: string, key: string, held: Option<SessionRecord>)
    | Issue(cred: CredentialId, stage: Stage)
    | Finished

  datatype Stage =
    | Start
    | Viewed(view: SessionRecord)
    | Marking(rec: SessionRecord)
    | Claimed(rec: SessionRecord)
    | HandedOut

  /** The session document, which expires, and the create-only claim, which does not. */
  datatype Store = Store(doc: Option<SessionRecord>, claim: Option<CredentialId>)

  datatype System = System(store: Store, tasks: seq<Task>)

  /** One store operation of one request. */
  function StepTask(s: Store, t: Task): (Store, Task) {
    match t
    case Finished => (s, t)
    case Record(vm, isAnchor, None) =>
      if s.doc.None? || s.doc.value.issued != "" then (s, Finished) else (s, Record(vm, isAnchor, s.doc))
    case Record(vm, isAnchor, Some(rec)) =>
      (s.(doc := Some(RecordResult(rec, vm, isAnchor))), Finished)
    case SetKey(kind, key, None) =>
      if s.doc.None? || s.doc.value.issued != "" then (s, Finished) else (s, SetKey(kind, key, s.doc))
    case SetKey(kind, key, Some(rec)) =>
      (s.(doc := Some(rec.(identifierKeys := rec.identifierKeys[kind := key]))), Finished)
    case Issue(cred, Start) =>
      if s.doc.None? || s.doc.value.issued != "" || s.doc.value.methods == [] then (s, Finished)
      else (s, Issue(cred, Viewed(s.doc.value)))
    case Issue(cred, Viewed(_)) =>
      if s.doc.None? || s.doc.value.issued != "" then (s, Finished) else (s, Issue(cred, Marking(s.doc.value)))
    case Issue(cred, Marking(rec)) =>
      if s.claim.Some? then (s, Finished) else (s.(claim := Some(cred)), Issue(cred, Claimed(rec)))
    case Issue(cred, Claimed(rec)) =>
      (s.(doc := Some(rec.(issued := cred))), Issue(cred, HandedOut))
    case Issue(_, HandedOut) => (s, t)
  }

  /** The request at an index takes a step, or the session document expires. */
  datatype Event = Tick(task: nat) | Expire

  function Step(s: System, e: Event): (r: System)
    ensures |r.tasks| == |s.tasks|
  {
    match e
    case Expire => s.(store := s.store.(doc := None))
    case Tick(t) =>
      if t >= |s.tasks| then s
      else
        var (store, task) := StepTask(s.store, s.tasks[t]);
        System(store, s.tasks[t := task])
  }

  function Run(s: System, events: seq<Event>): (r: System)
    ensures |r.tasks| == |s.tasks|
    decreases |events|
  {
    if events == [] then s else Run(Step(s, events[0]), events[1..])
  }

  predicate PastClaim(t: Task) {
    t.Issue? && (t.stage.Claimed? || t.stage.HandedOut?)
  }

  /** Every record a request holds between a read and a write is well formed. */
  ghost predicate HoldsWellFormed(t: Task) {
    match t
    case Record(_, _, Some(rec)) => WellFormed(rec)
    case SetKey(_, _, Some(rec)) => WellFormed(rec)
    case Issue(_, Viewed(rec)) => WellFormed(rec) && rec.methods != []
    case Issue(_, Marking(rec)) => WellFormed(rec)
    case Issue(_, Claimed(rec)) => WellFormed(rec)
    case _ => true
  }

  ghost predicate Inv(s: System) {
    && (s.store.doc.Some? ==> WellFormed(s.store.doc.value))
    && (forall t :: 0 <= t < |s.tasks| ==> HoldsWellFormed(s.tasks[t]))
    && (forall t :: 0 <= t < |s.tasks| && PastClaim(s.tasks[t]) ==> s.store.claim.Some?)
    && (forall t, u :: 0 <= t < |s.tasks| && 0 <= u < |s.tasks| && PastClaim(s.tasks[t]) && PastClaim(s.tasks[u]) ==>
         t == u)
  }

  lemma StepTaskKeeps(s: Store, t: Task)
    requires (s.doc.Some? ==> WellFormed(s.doc.value)) && HoldsWellFormed(t) && (PastClaim(t) ==> s.claim.Some?)
    ensures var (s', t') := StepTask(s, t);
            && (s'.doc.Some? ==> WellFormed(s'.doc.value)) && HoldsWellFormed(t')
            && (PastClaim(t') ==> s'.claim.Some? && (PastClaim(t) || s.claim.None?))
            && (s.claim.Some? ==> s'.claim == s.claim)
  {
    match t
    case Record(vm, isAnchor, Some(rec)) => RecordKeepsWellFormed(rec, vm, isAnchor);
    case _ =>
  }

  lemma StepKeepsInv(s: System, e: Event)
    requires Inv(s)
    ensures Inv(Step(s, e))
  {
    match e
    case Expire =>
    case Tick(t) =>
      if t < |s.tasks| {
        StepTaskKeeps(s.store, s.tasks[t]);
      }
  }

  lemma {:induction false} RunKeepsInv(s: System, events: seq<Event>)
    requires Inv(s)
    ensures Inv(Run(s, events))
    decreases |events|
  {
    if events != [] {
      StepKeepsInv(s, events[0]);
      RunKeepsInv(Step(s, events[0]), events[1..]);
    }
  }

  /** A freshly created session with requests that have not touched it yet. */
  ghost predicate Starting(s: System) {
    && s.store == Store(Some(NewSession), None)
    && forall t :: 0 <= t < |s.tasks| ==>
         match s.tasks[t]
         case Record(_, _, held) => held.None?
         case SetKey(_, _, held) => held.None?
         case Issue(_, stage) => stage.Start?
         case Finished => true
  }

  /** Under every interleaving, lost updates and expiry included, at most one
      credential is handed out for a session. */
  lemma AtMostOneHandedOut(s: System, events: seq<Event>, t: nat, u: nat)
    requires Starting(s) && t < |s.tasks| && u < |s.tasks|
    requires Run(s, events).tasks[t].Issue? && Run(s, events).tasks[t].stage.HandedOut?
    requires Run(s, events).tasks[u].Issue? && Run(s, events).tasks[u].stage.HandedOut?
    ensures t == u
  {
    RunKeepsInv(s, events);
  }

  /** Under every interleaving, the stored record keeps distinct method ids with
      its anchor among them, and a request issues only from such a record with
      at least one method. */
  lemma StoredRecordWellFormed(s: System, events: seq<Event>)
    requires Starting(s)
    ensures var end := Run(s, events);
            && (end.store.doc.Some? ==> WellFormed(end.store.doc.value))
            && forall t :: 0 <= t < |end.tasks| && end.tasks[t].Issue? && end.tasks[t].stage.Viewed? ==>
                 WellFormed(end.tasks[t].stage.view) && end.tasks[t].stage.view.methods != []
  {
    RunKeepsInv(s, events);
    var end := Run(s, events);
    forall t | 0 <= t < |end.tasks| && end.tasks[t].Issue? && end.tasks[t].stage.Viewed?
      ensures WellFormed(end.tasks[t].stage.view) && end.tasks[t].stage.view.methods != []
    {
      assert HoldsWellFormed(end.tasks[t]);
    }
  }

  /** The session record alone would not be enough: two issue requests that both
      read it before either wrote would both find it unissued. The claim is what
      decides, so a lost update of the record's issued field hands out nothing. */
  lemma ClaimSurvivesLostUpdates(s: System, events: seq<Event>, more: seq<Event>, t: nat)
    requires Starting(s) && t < |s.tasks|
    requires Run(s, events).store.claim.Some? && !PastClaim(Run(s, events).tasks[t])
    ensures Run(Run(s, events), more).store.claim == Run(s, events).store.claim
    ensures !PastClaim(Run(Run(s, events), more).tasks[t])
  {
    RunKeepsInv(s, events);
    LosersStayLosers(Run(s, events), more, t);
  }

  lemma {:induction false} LosersStayLosers(s: System, events: seq<Event>, t: nat)
    requires Inv(s) && t < |s.tasks| && s.store.claim.Some? && !PastClaim(s.tasks[t])
    ensures Run(s, events).store.claim == s.store.claim && !PastClaim(Run(s, events).tasks[t])
    decreases |events|
  {
    if events != [] {
      StepKeepsInv(s, events[0]);
      if events[0].Tick? && events[0].task < |s.tasks| {
        StepTaskKeeps(s.store, s.tasks[events[0].task]);
      }
      LosersStayLosers(Step(s, events[0]), events[1..], t);
    }
  }

  // --- One Firestore request at a time -------------------------------------------

  /** Two steps of a recording request: it is refused exactly when there is no
      session or a credential was stamped on it; otherwise the document becomes
      what recording the result makes of it. */
  lemma RecordAlone(s: Store, vm: VerifiedMethod, isAnchor: bool)
    requires s.doc.Some? ==> WellFormed(s.doc.value)
    ensures var (s1, t1) := StepTask(s, Record(vm, isAnchor, None));
            var (s2, t2) := StepTask(s1, t1);
            && t2.Finished? && s2.claim == s.claim
            && if s.doc.None? || s.doc.value.issued != "" then s2.doc == s.doc
               else s2.doc.Some? && RecordedIn(s.doc.value, vm, isAnchor, s2.doc.value)
  {
    if s.doc.Some? {
      RecordEffect(s.doc.value, vm, isAnchor);
    }
  }

  /** The same for an identifier's key: only that key of the session changes. */
  lemma SetKeyAlone(s: Store, kind: string, key: string)
    ensures var (s1, t1) := StepTask(s, SetKey(kind, key, None));
            var (s2, t2) := StepTask(s1, t1);
            && t2.Finished? && s2.claim == s.claim
            && if s.doc.None? || s.doc.value.issued != "" then s2.doc == s.doc
               else
                 && s2.doc.Some? && s2.doc.value.identifierKeys == s.doc.value.identifierKeys[kind := key]
                 && s2.doc.value.methods == s.doc.value.methods && s2.doc.value.anchor == s.doc.value.anchor
                 && s2.doc.value.issued == ""
  {}

  function Steps(s: Store, t: Task, n: nat): (Store, Task)
    decreases n
  {
    if n == 0 then (s, t)
    else
      var (s', t') := Steps(s, t, n - 1);
      StepTask(s', t')
  }

  /** An issuing request that nobody interleaves with hands its credential out
      exactly when the session exists with a method, has no credential and is
      unclaimed; it claims the session and stamps the credential on it. */
  lemma IssueAloneIff(s: Store, cred: CredentialId)
    requires cred != ""
    ensures var (end, t) := Steps(s, Issue(cred, Start), 4);
            && (t == Issue(cred, HandedOut) <==>
                  s.doc.Some? && s.doc.value.issued == "" && s.doc.value.methods != [] && s.claim.None?)
            && (t == Issue(cred, HandedOut) ==>
                  end == Store(Some(s.doc.value.(issued := cred)), Some(cred)))
            && (t != Issue(cred, HandedOut) ==> end == s && t == Finished)
  {
    var (s1, t1) := StepTask(s, Issue(cred, Start));
    var (s2, t2) := StepTask(s1, t1);
    var (s3, t3) := StepTask(s2, t2);
    assert Steps(s, Issue(cred, Start), 1) == (s1, t1);
    assert Steps(s, Issue(cred, Start), 2) == (s2, t2);
    assert Steps(s, Issue(cred, Start), 3) == (s3, t3);
  }
}
