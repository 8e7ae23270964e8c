# Verification of the personhood issuer

The repository issues and checks proof-of-personhood credentials. A person
enrols a face and other identifiers, gets a signed credential bound to a holder
key, and can later recover the identity under a new key, be revoked, appeal and
be reinstated. This project models the decisions and the state of that issuer in
Dafny, together with the codecs and evaluators its clients rely on, and proves
what they promise.

Each file is one module.

- `FuzzyExtractor`, `Accumulator`, over `Bits`: the face template code and the
  enrollment index that never stores a template. SHA-256 of a seed is a free
  constructor (injective); the random source is a parameter.
- `Base58`, `DidKey`, over `Radix`: in-place radix conversion and did:key strings.
- `Recovery`, over `TimeWindow`: identity recovery with its cooldown, cancel
  window and cap, kept over a history that is pruned in place. `TimeWindow` is the
  compaction over the slice being read that recovery and the send limiter share.
- `Equivocation`, over `Strings`: slot statements, double-sign proofs and their digests.
- `TemplateRules`, `KeyTexts`, `RecoveryDecisions`, `IssuerEffects`, `LimiterRules`,
  `CanonicalText`, `RespLines`, `PolicyRules`: what each operation decides or writes,
  stated once more in the fields, numbers and characters of the source alone and
  proved of the operations above.
- `Issuer`, `IssuerRuns`, `IssuerServer`, with `RevocationStore` and `StatusList`:
  issuance, the revocation cascade, retirement after a recovery, reinstatement,
  and the published status list. `Issuer` holds the state and the operations on
  values, `IssuerServer` the imperative handlers proved against them, `IssuerRuns`
  what every run keeps when issuance, revocation and retirement may stop after any
  store write.
- `IssuerRaces`: the same issuance and revocation with every store operation a step
  of its own, interleaved in any order.
- `IdentifierSeeds`, `SessionStore`: two more protocols whose requests interleave at
  single store operations.
- `RateLimiter`, `SendLimiter`: the token bucket with idle-bucket collection (over
  exact reals) and the sliding window, whose slices are compacted over themselves.
  `SendLimiterCap` builds the run in which a full key map spoils a later decision.
- `Jcs`, `JcsParser`, `JsonText`, `JcsSerializer`, `Canonical`: the RFC 8785
  canonicalizer. `Jcs` gives the parser as functions on what is left of the text,
  `JcsParser` the class with the cursor, `JsonText` the JSON texts with every choice
  of white space and escape spelling, `JcsSerializer` the serializer, `Canonical`
  the round trips.
- `Resp`: the RESP2 codec. `PolicyEval`: the Go and TypeScript evaluators.
- `Decimals`, `Wrappers`: decimal text, `Option` and `Result`.

Time never runs backwards, random ids are fresh, and credential ids are unique;
each run lemma states these as its hypotheses. Signature verification and hashes
are abstract: injective constructors, or a function parameter.

## What is not as the code or its comments say

- `sendlimit.go`: "records a send to key at now if fewer than perHour happened in
  the last hour". When the key cap refuses a call, the key's slice has already been
  compacted in place but the map keeps the old header, so entries reappear twice at
  the tail and later calls count them twice: exactly when the compaction dropped
  some entries and kept others (`SendLimiter.CapRefusalOvercountsIff`). The same call
  made again is then refused for its count under the condition of
  `SendLimiter.NextCallCountedOutIff`. Without such a refusal the comment holds
  (`SendLimiter.AllowedIffBelowLimit`); over all runs it holds exactly for a limit of
  one an hour, and for every larger limit a run that breaks it is built: the target
  key sends once at 0 and perHour - 1 times at 50 minutes, 99,998 other keys send at
  5 and one at 55, and at 61 the cap refuses the target, which is then refused for
  its count although only perHour - 1 sends fall in the hour
  (`SendLimiterCap.ExactIffOneAnHour`). The hourly cap holds always.
- `ratelimit.go`: "drops buckets idle long enough to have refilled completely". That
  is so exactly for classes with burst at most ten minutes of refill
  (`RateLimiter.IdleMeansFullIff`), and the sweep changes no decision exactly for
  configurations whose classes do (`RateLimiter.SweepChangesNothingIff`). For any
  other class that admits calls even the admission bound of the token bucket fails:
  `RateLimiter.BoundFails` builds the run (`RateLimiter.AdmissionBoundIff`).
- `handlers.go`: "Record the issuance before handing the credential out, so a holder
  revocation can always find it". When requests interleave, an issuance that passed
  its ban check before the ban was written and records after revokeHolder read the
  ledger is handed out and never revoked. `IssuerRaces.NothingEscapesIff` says exactly
  when that can happen and `IssuerRaces.AnyIssuanceCanEscape` gives a run for every
  issuance. One request at a time the promise holds (`IssuerRuns.RevokedForever`).
- `policy.ts`: "so both SDKs agree on every outcome". Go multiplies seconds by 1e9 in
  an int64, so the evaluators agree on all credentials with millisecond-aligned times,
  lifetimes below the greatest int64 and points within int64 exactly for policies with
  both age limits at most 9223372036 seconds (`PolicyEval.AgreeIff`). A lifetime of the
  greatest int64 never ends in Go (`PolicyEval.GreatestLifetimeDiffers`). Points outside
  int64 wrap in Go: such a credential gets equal codes for every minimum only if they
  exceed int64 and wrap to its greatest value (`PolicyEval.AgreeForEveryMinimumIff`;
  `PolicyEval.NegativePointsDiffer` builds one that never does).
- `jcs.ts`: an object with a member `__num` is serialized as a number, so as a JSON
  value it shares its canonical form with that number (`Canonical.NumKeyCollides`), and
  the round trip of JSON values holds exactly for those without such objects
  (`Canonical.RoundTripIff`). The parser builds the same object for `{"__num":"1"}` and
  for `1`; the round trip of those objects holds exactly when no object has a member
  `__num` beside others (`Canonical.BuiltRoundTripIff`).
- `reinstate` pardons the evidence of the ban it lifts. When a holder was already
  banned for something else, a later proof's digest is in no ban, so the same proof
  convicts again after reinstatement (`IssuerRuns.PardonIsExact`).
- `review.go`: "A key retired by a completed recovery is not reinstated this way". Bans
  keep their first record, and a recovery may complete although the old key is already
  banned, as after a revocation that stopped at the holder ban. The retirement then
  leaves the older reason, and reinstatement lifts the ban: the sentence holds exactly
  when the key was not banned before, or was by a recovery
  (`IssuerRuns.RetiredStaysBannedIff`, `IssuerRuns.RetiredThenReinstated`).
- `recovery.go`: openRecovery promises "the per-identity limits". Record and history are
  separate writes. A start that stops between them leaves a pending recovery its
  history does not name, beside which another is accepted (`Recovery.OnePendingIff`); a
  completion that stops there is forgotten by the cooldown
  (`Recovery.HalfCompletionBreaksCooldown`). In all other runs the limits hold
  (`Recovery.RecoveryLimitsHold`).
- `reinstate` restores the ban sets exactly when the holder and its nullifiers were
  unbanned before the revocation (`IssuerRuns.ReinstateRestores`).

## Model

| member | source | states |
|---|---|---|
| Bits.PopCountIsOnes | src/methods/fuzzy-extractor-selfie/extractor.go:250-260 | The population count of one byte is the number of set bits at the eight positions it spans in its buffer. |
| FuzzyExtractor.SetBit | src/methods/fuzzy-extractor-selfie/extractor.go:226-236 | Writes one bit and no other; an index past the buffer writes nothing. |
| FuzzyExtractor.ExpandSeed | src/methods/fuzzy-extractor-selfie/extractor.go:175-186 | The loops write the codeword: bit i repeats seed bit i/15, bit 255 stays clear. |
| FuzzyExtractor.MajorityDecode | src/methods/fuzzy-extractor-selfie/extractor.go:191-207 | The loops take the majority of each 15-bit block. |
| FuzzyExtractor.ClearPaddingBits | src/methods/fuzzy-extractor-selfie/extractor.go:212-216 | Clears the seed's bits past the 17 blocks and keeps the others. |
| FuzzyExtractor.HammingDistance | src/methods/fuzzy-extractor-selfie/extractor.go:250-260 | Counts the bits in which two equally long byte strings differ. |
| FuzzyExtractor.Gen | src/methods/fuzzy-extractor-selfie/extractor.go:119-138 | Helper data is the template masked by the seed's codeword, the commitment digests the seed; wrong length and no entropy are errors. |
| FuzzyExtractor.Rep | src/methods/fuzzy-extractor-selfie/extractor.go:146-162 | Reproduction equals majority decoding followed by the residual test, with both length errors. |
| FuzzyExtractor.MajorityIsUniqueNearest | src/methods/fuzzy-extractor-selfie/extractor.go:191-207 | For every byte string, any other 17-bit seed expands to a strictly more distant codeword. |
| FuzzyExtractor.RefusesIffNoCodewordNear | src/methods/fuzzy-extractor-selfie/extractor.go:146-162 | Rep refuses exactly when no codeword lies within MaxResidualBits. |
| FuzzyExtractor.RepRecoversIffMatches | src/methods/fuzzy-extractor-selfie/extractor.go:119-162 | A template reproduces another's commitment exactly when they differ in at most 7 bits per block and 63 bits in all, bit 255 included. |
| FuzzyExtractor.MatchesSymmetric | src/methods/fuzzy-extractor-selfie/extractor.go:146-162 | Matching does not depend on which template was enrolled. |
| TemplateRules.MatchIs | src/methods/fuzzy-extractor-selfie/extractor.go:146-162 | Two 32-byte templates match exactly when at most 7 bits differ in each of 17 blocks of 15 and at most 63 of 256. |
| TemplateRules.EnrollmentIs | src/methods/fuzzy-extractor-selfie/extractor.go:119-162 | A template reproduces the commitment that another one's helper data hides exactly when the two match in those numbers. |
| Accumulator.InMemoryAccumulator.FindDuplicate | src/methods/fuzzy-extractor-selfie/accumulator.go:64-77 | Returns the first record whose commitment the template reproduces, or the extractor's error. |
| Accumulator.Enroll | src/methods/fuzzy-extractor-selfie/method.go:269-298 | The locked find-then-add step, with its refusals, the error of the match hook, and its new index. |
| Accumulator.SameSearch | src/methods/fuzzy-extractor-selfie/accumulator.go:64-77 | Searching helper records finds the same position as comparing raw templates. |
| Accumulator.RunAgrees | src/methods/fuzzy-extractor-selfie/method.go:269-298 | Over every run the template-free index accepts, refuses and names the matched record exactly as a list of raw templates does. |
| Accumulator.EveryRunDedupes | src/methods/fuzzy-extractor-selfie/method.go:269-298 | From an empty index, every run is explained by pairwise non-matching raw templates, one per record. |
| Radix.EncodeBufferFits | src/server/base58.go:31-33 | n bytes always fit in n*138/100+1 base-58 digits. |
| Radix.DecodeBufferFits | src/server/base58.go:81-83 | n base-58 digits always fit in n*733/1000+1 bytes. |
| Base58.CarriedMultiplies | src/server/base58.go:35-49 | The early-exit carry loop, on values, multiplies by the radix and adds the digit, and has no carry left when the result fits. |
| Base58.MultiplyAdd | src/server/base58.go:35-49 | The in-place loop does that to the buffer. |
| Base58.Base58Encode | src/server/base58.go:20-59 | The encoder equals one '1' per leading zero byte followed by the base-58 numeral of the rest, on every byte string. |
| Base58.Base58Decode | src/server/base58.go:63-112 | The decoder equals its value-level definition, including the position of the first invalid character. |
| Base58.DecodeEncode | src/server/base58.go:20-112 | Decoding an encoding gives the bytes back, for every byte string. |
| Base58.EncodeDecode | src/server/base58.go:20-112 | Encoding a decoding gives the string back, for every string over the alphabet. |
| Base58.AlphabetTable | src/server/base58.go:68-74 | The reverse table maps exactly the alphabet's characters to their positions. |
| KeyTexts.EncodingIs | src/server/base58.go:20-59 | The text has a 1 for each leading zero byte and then, in the alphabet 1-9, A-Z, a-z without 0, I, O and l, the numeral of the same number without leading 1. |
| KeyTexts.DecodingFailsIff | src/server/base58.go:63-112 | Decoding fails exactly at the first character outside that alphabet. |
| DidKey.KeyRoundTrip | src/server/did.go:64-94 | The identifier of a 32-byte key decodes to that key. |
| DidKey.IdentifierRoundTrip | src/server/did.go:64-94 | Every accepted identifier is the one that its key encodes to. |
| DidKey.OneToOne | src/server/did.go:64-94 | Two keys never share an identifier and two accepted identifiers never share a key. |
| KeyTexts.IdentifierText | src/server/did.go:64-94 | The identifier of every 32-byte key is 56 characters that begin with did:key:z6Mk. |
| TimeWindow.CompactInPlace | src/server/recovery.go:135-143 | Compacting over the slice being read keeps exactly the later entries in order and leaves the cells after them unchanged. |
| TimeWindow.AfterAfter | src/server/recovery.go:161-162 | Pruning at an earlier bound first changes no later pruning. |
| Recovery.LockoutStore.OpenRecovery | src/server/recovery.go:148-186 | Every refusal with its data, and the whole new store when the start is accepted, wherever its writes stop. |
| RecoveryDecisions.StartDecided | src/server/recovery.go:148-186 | In every state of a run without half writes, over the records: refused as pending exactly while a recovery of the identity is in progress, with its time; otherwise, unreviewed, as cooling down exactly within the cooldown of the last completion, with its end; otherwise for review exactly when the capped number of cancellations lies in the window; and accepted in all other cases. |
| RecoveryDecisions.StartedRecord | src/server/recovery.go:173-184 | An accepted start writes a pending record with its delay, and points both keys to it. |
| Recovery.LockoutStore.CloseRecovery | src/server/recovery.go:189-221 | Only a pending recovery closes; the record is written before the history, and the store may fail at either. |
| Recovery.LockoutStore.Cancel | src/server/recovery.go:508-552 | The cancel handler: which refusal it answers, in the order of its checks (unknown, not a party, unsigned, closed, store failure), and its effect is the cancel step. |
| Recovery.LockoutStore.Complete | src/server/recovery.go:562-623 | The complete handler: which refusal it answers, unknown recovery, unknown session and retry included; it closes only after ExecutesAt, for the new key's unissued session, and loses to an earlier cancel. |
| RecoveryDecisions.CancelIff | src/server/recovery.go:508-552 | A cancel closes its recovery exactly when it is pending and signed by one of its two keys, and changes that record only. |
| RecoveryDecisions.CompleteIff | src/server/recovery.go:562-623 | A completion closes its recovery exactly when it is pending, its window had passed, its nullifier is not banned, and the session is an unissued one of the new key. |
| Recovery.CloseKeepsCap | src/server/recovery.go:163-175 | Cancelling keeps every short span under the cap. |
| Recovery.RecoveryLimitsHold | src/server/recovery.go:135-221 | In every state of a run in which no write sequence stops between a record and its history: unreviewed completions are a cooldown plus a delay after any earlier one, any span shorter than the cooldown holds at most the capped number of unreviewed cancellations, one recovery per identity is pending and its history names it, and none completed before its delay. |
| Recovery.ClosedIsFinal | src/server/recovery.go:189-201 | A cancelled or completed recovery never changes again, wherever later writes stop, so cancel and complete cannot both win. |
| Recovery.StepNamedIff | src/server/recovery.go:148-221 | A request leaves a pending recovery that its history does not name exactly when it is an accepted start whose record was written and whose history was not. |
| Recovery.OnePendingIff | src/server/recovery.go:148-221 | From any reachable state, wherever writes stopped: at most one recovery of an identity is ever pending in any continuation without a further half start exactly when every pending recovery is the one its history names. |
| Recovery.HalfCompletionBreaksCooldown | src/server/recovery.go:189-221 | A completion that stops before its history write lets the next recovery complete a delay later, for every configuration; the run is built. |
| StatusList.BitString.constructor | src/credential/status.go:33-39 | A new list has every bit clear and room rounded up to whole bytes. |
| StatusList.BitString.Get | src/credential/status.go:58-67 | Reads the bit, most significant first, and false outside the list. |
| StatusList.BitString.Set | src/credential/status.go:70-80 | Sets exactly that bit, and fails exactly outside the list without changing it. |
| TemplateRules.BitIs | src/credential/status.go:58-80 | Bit i of a buffer is bit i mod 8, from the left, of byte i div 8. |
| StatusList.Publish | src/server/handlers.go:691-697 | Publishing succeeds exactly when every slot is in the list, and the published bits are exactly the revoked slots. |
| RevocationStore.InMemoryRevocationStore.Allocate | src/server/revocation.go:103-117 | Claims the first free drawn slot, or none after the last attempt. |
| RevocationStore.InMemoryRevocationStore.Revoke | src/server/revocation.go:126-136 | Revokes the bound slot and tells whether it was revoked before. |
| RevocationStore.InMemoryRevocationStore.Revoked | src/server/revocation.go:138-147 | The revoked slots, each once, ascending, in any map order. |
| RevocationStore.FirestoreRevocationStore.constructor | src/server/revocation.go:176-186 | A new store has no documents and nothing cached, so it starts valid. |
| RevocationStore.FirestoreRevocationStore.Allocate | src/server/revocation.go:202-217 | Creates the first drawn slot document that does not exist, or none after the last attempt. |
| RevocationStore.FirestoreRevocationStore.Revoke | src/server/revocation.go:244-279 | Keeps the stored list sorted without repetitions and drops the cache when it changes. |
| RevocationStore.FirestoreRevocationStore.Revoked | src/server/revocation.go:281-296 | With one instance the list returned, cached or not, equals the stored one. |
| Equivocation.CheckSlotField | src/credential/equivocation.go:143-153 | Accepts exactly the non-empty fields of printable ASCII. |
| Equivocation.VerifyProof | src/credential/equivocation.go:108-141 | The loop over both statements, with its error order, equals the verdict on values. |
| Equivocation.VerdictIs | src/credential/equivocation.go:108-141 | The verdict is that of the first check that fails: scheme, key, digests, equal payloads, fields, signatures. |
| Equivocation.ConvictedIff | src/credential/equivocation.go:108-141 | A key is convicted exactly by two valid 64-byte signatures of its own over the four lines of two statements with different payload digests for one printable context and slot. |
| Equivocation.MessageUnambiguous | src/credential/equivocation.go:80-91 | Two signed slot messages are equal only if context, slot and payload digest are. |
| Equivocation.SwapChangesNothing | src/server/holderrevoke.go:535-542 | The statements' order changes neither verdict nor digest. |
| Equivocation.DigestNamesDoubleSign | src/server/holderrevoke.go:535-542 | Accepted proofs share a digest exactly when they show the same key signing the same two payloads for the same slot. |
| Issuer.SessionNullifiersExact | src/server/holderrevoke.go:439-462 | The recorded list holds exactly the bindings the session touched, each once. |
| IssuerRuns.RevokeEffect | src/server/holderrevoke.go:385-425 | A full revokeHolder bans and revokes exactly its targets, in any map order. |
| IssuerEffects.RevocationIs | src/server/holderrevoke.go:382-425 | A finished revocation bans the holder, its key's nullifier and those of its records, sets the bits of its credentials, and does nothing else. |
| IssuerEffects.RetirementIs | src/server/recovery.go:640-664 | A finished retirement bans the old key alone, with its reason unless it was banned, and sets the bits of its credentials. |
| IssuerEffects.ReinstatementIs | src/server/review.go:461-515 | A reinstatement is refused for a key retired by a recovery; otherwise it lifts the bans of the holder and of the nullifiers it touched, pardons the ban's evidence, and leaves the bits set. |
| IssuerEffects.EquivocationIs | src/server/holderrevoke.go:489-528 | A posted proof revokes the holder of its key, with the proof as evidence, exactly when it is accepted and not pardoned. |
| IssuerEffects.HandedOutIff | src/server/handlers.go:533-676 | An issuance hands its credential out exactly when the session is neither issued nor claimed, holder and nullifiers are unbanned and a drawn slot is free; it is bound to the first free draw and recorded last. |
| IssuerRuns.CutOffEffect | src/server/holderrevoke.go:385-425 | A run stopped after any write did part of that and nothing else. |
| IssuerRuns.RetriesConverge | src/server/holderrevoke.go:382-425 | Any number of stopped runs and one full run end in the ban and revocation sets of a single run. |
| IssuerRuns.ReinstateRestores | src/server/review.go:472-515 | Reinstating restores the person bans exactly when they were absent before, and keeps credentials revoked. |
| IssuerRuns.RetiredStaysBannedIff | src/server/review.go:469-515 | A key that a recovery retires stays banned in every later state of every run exactly when it was not banned before, or was by a recovery. |
| IssuerRuns.RunKeepsRetired | src/server/review.go:476-481 | A ban that a recovery wrote is never lifted, whatever requests follow. |
| IssuerRuns.RetiredThenReinstated | src/server/recovery.go:644-648 | From empty stores: a revocation that stops after the holder ban, the retirement of the key, and a reinstatement leave the key unbanned. |
| IssuerRuns.PardonIsExact | src/server/holderrevoke.go:507-528 | After a conviction and reinstatement the proof, in either statement order, bans nobody exactly when the lifted ban carried this proof; and an accepted proof becomes pardoned exactly when it carries the lifted ban's evidence, for a holder not banned before exactly when it shows the same double-sign. |
| IssuerRuns.RunKeepsInv | src/server/handlers.go:636-676 | Wherever operations stop: every recorded credential is bound, every credential handed out is bound and in its holder's ledger, and nothing of this is ever lost. |
| IssuerRuns.SlotsNeverShared | src/server/revocation.go:103-136 | In every run distinct credentials own distinct slots in the list, and a slot is revoked exactly when its owner was. |
| IssuerRuns.RevokedForever | src/server/holderrevoke.go:385-411 | Once revokeHolder finishes, every credential handed out to the holder before is revoked in every later state. |
| IssuerRuns.RetiredForever | src/server/recovery.go:644-664 | The same once retireRecoveredHolder finishes. |
| IssuerRuns.RevokedPublished | src/server/handlers.go:679-697 | So in whatever status list is published after revokeHolder finished, the bit of every credential handed out to the holder before is set. |
| IssuerRuns.RetiredPublished | src/server/handlers.go:679-697 | The same after retireRecoveredHolder. |
| IssuerRuns.BarredSessionGetsNothing | src/server/holderrevoke.go:439-484 | A session that brings a banned nullifier as its own binding, its holder key or an overridden identifier gets nothing, under any key. |
| IssuerRuns.RevokedPersonNeverReturns | src/server/holderrevoke.go:393-484 | In runs without reinstatement, nothing handed out later, under any key, is recorded with a nullifier that any record of the revoked holder carries. |
| IssuerRaces.StepKeepsInv | src/server/handlers.go:533-676 | Every store operation of every request keeps slots owned once, the ledger complete for what was recorded, and a revoker's snapshot a prefix of its holder's ledger. |
| IssuerRaces.RecordedIsRevoked | src/server/holderrevoke.go:385-411 | Under every interleaving, what was recorded before revokeHolder read the ledger is revoked once it has finished. |
| IssuerRaces.NothingEscapesIff | src/server/holderrevoke.go:382-411 | In every reachable state in which revokeHolder has banned the holder and is about to read the ledger: everything ever handed out to the holder is revoked once it has finished, in whatever order, exactly when no issuance to the holder is past its ban check and still able to record. |
| IssuerRaces.AnyIssuanceCanEscape | src/server/handlers.go:636-676 | From empty stores, every issuance has an interleaving with a revokeHolder that finishes and leaves the credential handed out and not revoked. |
| IssuerRaces.AloneIsIssue | src/server/handlers.go:533-676 | A request that nobody interleaves with does exactly what the sequential handler does. |
| IssuerRaces.AloneIsRevokePlan | src/server/holderrevoke.go:385-425 | A revocation that nobody interleaves with does exactly what the sequential cascade does, for some order of the nullifiers. |
| IssuerServer.InMemoryHolderLedger.RecordIssuance | src/server/holderrevoke.go:137-142 | Appends the record to its holder's and touches no other. |
| IssuerServer.InMemoryHolderLedger.Ban | src/server/holderrevoke.go:150-159 | Bans are create-only: the first record is kept and reported. |
| IssuerServer.Server.RevokeHolder | src/server/holderrevoke.go:385-434 | The imperative cascade, stopped after any number of writes, equals the plan of writes cut off there, and its report counts exactly the bits newly set and the nullifiers newly banned. |
| IssuerServer.Server.RetireRecoveredHolder | src/server/recovery.go:644-664 | The same for retiring a recovered key, with the number of bits newly set. |
| IssuerServer.Server.ReinstateHolder | src/server/review.go:472-515 | The imperative reinstatement equals its definition, is refused exactly for keys whose ban a recovery wrote, and reports the earlier ban, the nullifiers it unbanned and whether evidence was pardoned. |
| IssuerServer.Server.SessionNullifierCommitments | src/server/holderrevoke.go:439-462 | The list-building code equals the list whose members SessionNullifiersExact fixes. |
| IssuerServer.Server.CheckHolderBans | src/server/holderrevoke.go:464-484 | Refuses exactly a banned holder or a banned nullifier. |
| IssuerServer.Server.IssueCredential | src/server/handlers.go:602-676 | The handler's store operations in order, stopped after any write, give the issuance step; a refusal hands nothing out. |
| IssuerServer.Server.HandleStatusList | src/server/handlers.go:679-697 | In every reachable state publishing succeeds with 16384 bytes and a credential's bit is set exactly when it was revoked. |
| IdentifierSeeds.SortKinds | src/server/identifier.go:362-375 | Orders the kinds by priority, each once. |
| IdentifierSeeds.PriorityUnique | src/server/identifier.go:362-375 | The priority order of a set of kinds is unique, so map order cannot matter. |
| IdentifierSeeds.TopIs | src/server/identifier.go:362-375 | A document wins over a phone, a phone over an e-mail address, and these over any other kind, the first by name. |
| IdentifierSeeds.PrioritizedUnique | src/server/identifier.go:362-375 | Two calls with the same identifiers list the same keys in the same order, whatever order the map yields them in. |
| IdentifierSeeds.InMemoryIdentifierStore.GetOrCreate | src/server/identifier.go:262-270 | Create-only: an existing binding is returned unchanged. |
| IdentifierSeeds.ResolveIdentifierSeed | src/server/identifier.go:362-413 | The sequential call lists the keys in priority order, returns the binding of the kind that comes before all others, and binds all its keys. |
| IdentifierSeeds.LoneCallReuses | src/server/identifier.go:362-413 | Run alone with any key bound, a call adds no fresh seed, changes no binding and leaves all keys bound. |
| IdentifierSeeds.LoneCallIs | src/server/identifier.go:362-413 | A call run alone binds every unbound key to the seed of the highest-priority bound kind, or to the one drawn if no kind is bound. |
| IdentifierSeeds.ReturnsItsBinding | src/server/identifier.go:362-413 | Under every interleaving of store operations, a call returns the seed that the key of its highest-priority kind is bound to, then and forever. |
| IdentifierSeeds.SharersAgree | src/server/identifier.go:362-413 | Calls whose highest-priority kinds have one key return the same seed. |
| IdentifierSeeds.AloneIsSequential | src/server/identifier.go:362-413 | The interleaved machine, run alone, computes what the sequential code does. |
| SessionStore.Session.RecordMethodResult | src/server/session.go:253-299 | Refusals; and field by field: the method's entry replaced in place or appended, an anchor result sets the anchor, and nothing else changes. |
| SessionStore.ResultsRecorded | src/server/session.go:253-299 | After any accepted results on a new session the anchor is the method of the last anchor result and the entries are the last result of each method. |
| SessionStore.Session.MarkIssued | src/server/session.go:302-314 | Stamps the credential once. |
| SessionStore.RecordKeepsWellFormed | src/server/session_firestore.go:120-162 | Recording keeps one entry per method, the anchor among them, and loses no other method. |
| SessionStore.RecordAlone | src/server/session_firestore.go:120-162 | A recording request that nobody interleaves with is refused exactly without a session or after issuance, and otherwise writes that record. |
| SessionStore.SetKeyAlone | src/server/session_firestore.go:194-205 | A request alone that sets an identifier's key changes only that key, and nothing after issuance. |
| SessionStore.IssueAloneIff | src/server/session_firestore.go:165-192 | An issuing request that nobody interleaves with succeeds exactly for a session with a method, no credential and no claim, and claims and stamps it. |
| SessionStore.AtMostOneHandedOut | src/server/session_firestore.go:165-192 | Under every interleaving, with lost updates and expiry, at most one credential is handed out per session. |
| SessionStore.StoredRecordWellFormed | src/server/session_firestore.go:120-162 | Every stored record keeps distinct method ids with its anchor among them, and issuance starts only from such a record with a method. |
| SessionStore.ClaimSurvivesLostUpdates | src/server/session_firestore.go:165-192 | Once claimed, the claim never changes and no other request gets past it. |
| RateLimiter.Limiter.Admit | src/server/ratelimit.go:112-143 | The imperative call equals the decision on values: sweep, cap, refill, take. |
| RateLimiter.Limiter.SweepLocked | src/server/ratelimit.go:151-161 | Deletes exactly the idle buckets, at most once a minute, in any map order. |
| RateLimiter.IdleMeansFullIff | src/server/ratelimit.go:148-161 | Every idle bucket of a class has refilled exactly when its burst is at most ten minutes of refill. |
| RateLimiter.SweepMatters | src/server/ratelimit.go:148-161 | For every class that admits calls and whose burst exceeds ten minutes of refill there is a run, built here, that dropping its bucket decides differently. |
| RateLimiter.SweepChangesNoDecision | src/server/ratelimit.go:112-161 | For every request sequence below the cap the sweeping limiter decides as one that never drops a bucket, when every class that admits calls refills within ten minutes. |
| RateLimiter.SweepChangesNothingIff | src/server/ratelimit.go:112-161 | Dropping idle buckets changes no decision of any run below the cap exactly under that condition on the configuration. |
| RateLimiter.AdmissionBound | src/server/ratelimit.go:112-143 | In every interval of every run a client whose class refills within ten minutes, or admits nothing, is admitted at most burst plus rate times the interval. |
| RateLimiter.BoundFails | src/server/ratelimit.go:112-161 | For every other class a run, built here, exceeds that bound: the bucket is emptied, dropped after ten idle minutes and full again. |
| RateLimiter.AdmissionBoundIff | src/server/ratelimit.go:112-161 | So the bound holds of all runs and intervals exactly for the classes that refill within ten minutes or admit nothing. |
| RateLimiter.WaitIsExact | src/server/ratelimit.go:138-142 | The bucket left by a refusal admits again exactly from the returned wait on. |
| LimiterRules.BucketDecision | src/server/ratelimit.go:112-161 | The call's decision, wait and new buckets in the source's numbers: ten idle minutes, one sweep a minute, 100,000 clients, perMinute/60 a second. |
| SendLimiter.IdentifierSendLimiter.Admit | src/server/sendlimit.go:33-55 | The call on shared, partly overwritten slices equals the decision on values; slices of different keys never share a buffer. |
| SendLimiter.IdentifierSendLimiter.SweepLocked | src/server/sendlimit.go:57-63 | Deletes exactly the stale keys. |
| SendLimiter.RunsRespectLimit | src/server/sendlimit.go:33-55 | In every run, cap refusals included, no half-open hour holds more than perHour recorded sends to a key. |
| SendLimiter.AllowedIffBelowLimit | src/server/sendlimit.go:31-55 | A send is allowed only below the limit; and exactly below it, unless the cap refuses it, when no earlier cap refusal of the key compacted away some entries and kept others. |
| SendLimiter.CapRefusalOvercountsIff | src/server/sendlimit.go:36-52 | A call the cap refuses leaves more of its key's entries in the hour than before exactly when it compacted away some entries and kept others. |
| SendLimiter.NextCallCountedOutIff | src/server/sendlimit.go:36-52 | After such a refusal of a sorted list within the limit, the same call made again is refused for its count exactly when the list was full and twice the kept entries reach the limit. |
| SendLimiterCap.RefusedBelowLimit | src/server/sendlimit.go:31-55 | For every limit of two or more there is a run from the empty map, built here with 100,000 keys, whose next call is refused by count below the limit. |
| SendLimiterCap.ExactIffOneAnHour | src/server/sendlimit.go:31-55 | Every call of every run is allowed exactly below the limit, the cap aside, if and only if the limit is one an hour. |
| SendLimiter.WaitSuffices | src/server/sendlimit.go:43-46 | In every reachable state a refused caller who returns after the wait is allowed, whatever other keys did, unless the cap is hit. |
| SendLimiter.WaitIsLeast | src/server/sendlimit.go:43-46 | On a sorted list every send still counts exactly until the wait is over. |
| SendLimiter.SweepKeepsCounts | src/server/sendlimit.go:57-63 | Sweeping stale keys changes no count. |
| LimiterRules.WindowDecision | src/server/sendlimit.go:31-63 | The call's decision and wait: refused for perHour counted sends, or for a minute when the map is full with 100,000 keys that count, and else recorded. |
| JcsParser.Parser.SkipWs | sdk/typescript/src/jcs.ts:35-41 | Moves the cursor over white space. |
| JcsParser.Parser.ParseString | sdk/typescript/src/jcs.ts:106-138 | The string loop, lenient \u escapes and cursor overrun included, equals the string function on what is left. |
| JcsParser.Parser.ParseNumber | sdk/typescript/src/jcs.ts:140-151 | Takes the longest run of number characters. |
| JcsParser.Parser.ParseArray | sdk/typescript/src/jcs.ts:87-104 | The array loop equals the array function on what is left. |
| JcsParser.Parser.ParseObject | sdk/typescript/src/jcs.ts:64-85 | The object loop equals the object function on what is left, later members replacing earlier ones. |
| JcsParser.Parser.ParseValue | sdk/typescript/src/jcs.ts:43-62 | The dispatch, every error included; recursion ends because the text left shrinks. |
| JcsParser.Parser.ParseText | sdk/typescript/src/jcs.ts:25-33 | A whole text is parsed, or refused for what follows it. |
| JsonText.ParseText | sdk/typescript/src/jcs.ts:21-179 | Every RFC 8259 text, however spaced and spelled, is parsed to the value it denotes. |
| JsonText.CodeUnitBack | sdk/typescript/src/jcs.ts:124-129 | Four hex digits after \u give the code unit of that value. |
| CanonicalText.EscapeRead | sdk/typescript/src/jcs.ts:106-138 | The eight one-letter escapes are read as their units; any other letter but u is refused. |
| CanonicalText.HexRead | sdk/typescript/src/jcs.ts:124-129 | Four hex digits of either case are read as the unit they write. |
| CanonicalText.NumberRead | sdk/typescript/src/jcs.ts:140-151 | A number goes on exactly for digits, dots, exponents and signs. |
| JcsSerializer.EscapeString | sdk/typescript/src/jcs.ts:182-203 | The loop over code points escapes unit by unit as section 3.2.2.2 of RFC 8785 requires. |
| JcsSerializer.CanonIntKeeps | sdk/typescript/src/jcs.ts:205-213 | The canonical integer is a literal of the same number and its own canonical form. |
| JcsSerializer.SortedKeysSorts | sdk/typescript/src/jcs.ts:224-226 | Every key once, in strictly ascending code-unit order (section 3.2.3 of RFC 8785). |
| CanonicalText.TextIs | sdk/typescript/src/jcs.ts:181-227 | The canonical text of every value, unit by unit: literals, strings as section 3.2.2.2 of RFC 8785 spells them, integers without leading zeros, and members in ascending order of their keys. |
| CanonicalText.UnescapedIff | sdk/typescript/src/jcs.ts:181-203 | A unit stands for itself exactly when it is no control, quote or backslash. |
| CanonicalText.CanonicalIsShortest | sdk/typescript/src/jcs.ts:181-227 | Of all texts of RFC 8259 that say what a value says, the canonical one is the shortest. |
| CanonicalText.CanonicalIsStrict | sdk/typescript/src/jcs.ts:181-227 | The canonical text is itself such a text. |
| Canonical.ParseSerialize | sdk/typescript/src/jcs.ts:215-227 | Parsing a serialized value gives the value serialize saw. |
| Canonical.SerializeInjective | sdk/typescript/src/jcs.ts:215-227 | Two values serialize alike exactly when they read the same. |
| Canonical.CanonicalizeIdempotent | sdk/typescript/src/jcs.ts:232-234 | Canonical text is its own canonical form. |
| Canonical.CanonicalizeIff | sdk/typescript/src/jcs.ts:232-234 | Two texts share a canonical form exactly when their values read the same, whatever their white space and spelling. |
| Canonical.MemberOrderIrrelevant | sdk/typescript/src/jcs.ts:64-85 | Members with distinct keys denote the same object in any order. |
| Canonical.RoundTripIff | sdk/typescript/src/jcs.ts:17-19 | As JSON values: parse after serialize gives the value back, integers canonical, exactly when no object has a member __num. |
| Canonical.BuiltRoundTripIff | sdk/typescript/src/jcs.ts:140-227 | As the objects the parser builds, where a number is the object with the one member __num: the round trip holds exactly when no object has a member __num beside others. |
| Canonical.NumKeyCollides | sdk/typescript/src/jcs.ts:17-19 | The JSON values {"__num":"1"} and 1 differ and share a canonical form. |
| Canonical.SignedBytesIff | sdk/typescript/src/jcs.ts:240-247 | The signed text of two credentials is equal exactly when all but their proofs reads the same: their other members, or their numbers if both have a member __num. |
| Resp.EncodeCommand | pkg/redisclient/client.go:238-245 | The builder loop writes the array header and every bulk string. |
| RespLines.CommandBytes | pkg/redisclient/client.go:238-245 | Every argument is sent as its decimal length and its bytes, both ended by carriage return and line feed. |
| Resp.ReadLineFrom | pkg/redisclient/client.go:301-307 | Reads to the first line feed and trims terminators, or fails at the end of the stream. |
| Resp.ReadReplyFrom | pkg/redisclient/client.go:247-299 | The stateful reader equals the reading function on what is left, every error and nested array included, and terminates by bytes left. |
| Resp.CommandRoundTrip | pkg/redisclient/client.go:238-299 | An encoded command followed by any bytes is read as the array of its arguments, leaving exactly those bytes. |
| Resp.ReadPrintBack | pkg/redisclient/client.go:247-299 | Every RESP2 reply tree, printed and followed by any bytes, is read back leaving exactly those bytes. |
| Resp.ReplyExtends | pkg/redisclient/client.go:247-299 | A reply once read stays the reply when more bytes follow: the protocol delimits itself. |
| Resp.PrintPrefixFree | pkg/redisclient/client.go:247-299 | No printed reply begins another, so a stream splits in one way. |
| RespLines.ReplyIs | pkg/redisclient/client.go:247-299 | What a line of every kind is read as, by its first character and its text, error lines and malformed numbers included, and what is left. |
| RespLines.ArrayIs | pkg/redisclient/client.go:281-296 | An array line is followed by that many replies. |
| PolicyEval.Validate | pkg/types/validation.go:104-145 | The structural checks with the anchor loop. |
| PolicyEval.Evaluate | src/policy/evaluate.go:24-196 | The Go checks in order, with saturating differences and wrapping int64 products and sums. |
| PolicyEval.EvaluateTs | sdk/typescript/src/policy.ts:56-147 | The TypeScript checks in order, with the nullifier derivation its caller adds. |
| PolicyRules.GoCodeIff | src/policy/evaluate.go:24-196 | Each outcome code of the Go evaluator is answered exactly when, in the credential's and the policy's own fields, its check is the first that fails, and Ok when none does. |
| PolicyRules.TsCodeIff | sdk/typescript/src/policy.ts:56-147 | The same of the TypeScript evaluator. |
| PolicyEval.SameCode | sdk/typescript/src/policy.ts:30-147 | On millisecond-aligned non-zero times, lifetimes in range and points in int64 both evaluators give the same code. |
| PolicyEval.SameCodeIff | sdk/typescript/src/policy.ts:30-147 | On millisecond-aligned non-zero times, lifetimes in range and age limits that fit, the codes agree exactly when an earlier check decides or the points and the wrapped points fall on the same side of the minimum. |
| PolicyEval.AgreeForEveryMinimumIff | src/policy/evaluate.go:136-155 | A credential that reaches the points gets equal codes for every int64 minimum exactly when its points are in int64, or exceed it and wrap to its greatest value. |
| PolicyEval.NegativePointsDiffer | src/policy/evaluate.go:136-155 | A credential with methods of strengths MIN_INT64 and -1, built here, gets different codes under every int64 minimum. |
| PolicyEval.AgreeIff | src/policy/evaluate.go:37-104 | For any policy, the evaluators agree on all such credentials and times exactly when neither age limit overflows int64 nanoseconds. |
| PolicyEval.GreatestLifetimeDiffers | src/policy/evaluate.go:95-97 | Under a policy without an anchor age limit, a credential in time whose anchor method has the greatest int64 lifetime gets different outcome codes from the two evaluators once the anchor is older than that. |
| PolicyEval.OkEarlier | src/policy/evaluate.go:24-196 | In Go, with non-negative strengths, any lifetimes, and a number of methods whose points an int64 can count, a credential that passes at one time passes at every earlier time. |
| PolicyEval.OkEarlierTs | sdk/typescript/src/policy.ts:56-147 | In TypeScript the same for any number of methods. |
| PolicyEval.NegativeStrengthBreaks | src/policy/evaluate.go:136-149 | With a negative strength it is false: for every policy that only asks for points below the ceiling, a credential is built whose points rise when its negative method ends. |

## Left out

- RateLimiter.SweepChangesNoDecision: buckets hold exact reals; float64 rounding of token counts is not modelled.
- RateLimiter.Limiter.Admit: the bucket key is the pair (class, client) instead of the string the code joins them into, and the wait is not truncated to whole nanoseconds.
- JcsSerializer.SortedKeysSorts: the library sort is modelled by its result, the ascending list of the keys.
- Canonical.ParseSerialize: numbers are integer literals; ECMAScript formatting of other numbers is not modelled, nor are objects whose `__num` member is not a string.
- JsonText.ParseText: keys named `__proto__`, whose assignment sets a prototype instead of a member, are outside the model.
- Canonical.SignedBytesIff: stops at UTF-16 text; the UTF-8 encoding of the signed bytes is not modelled.
- Resp.Reader.ReadFull: allocation failure for huge lengths is not modelled, except that a length whose n+2 leaves int64 is an error of its own.
- PolicyEval.SameCode: TypeScript arithmetic is over exact reals; sub-millisecond times, unparsable timestamps and integers past 2^53 that JSON.parse rounds are outside the model. Only the outcome code is compared, not the human text and details.
- PolicyEval.Evaluate: require_fresh_anchor_proof only changes the human text and details, so it is not a field of the model.
- IssuerServer.Server.RevokeHolder: the vouching penalty (s.inPerson) and its count in the report are not modelled; runs are those with vouching off.
- IssuerServer.Server.ReinstateHolder: the vouchers' strikes (s.inPerson) and their count are not modelled, nor are reinstatements that stop part-way.
- IssuerRaces.NothingEscapesIff: revocation only; retirement, reinstatement and revoking a single credential do not interleave in this model.
- IssuerServer.Server.IssueCredential: the lockout check and face-match routing before issuance, the lockout's own issuance record, and the signing of the credential are left out.
- RevocationStore.FirestoreRevocationStore.Revoke: one instance; two issuer processes that both rewrite the list document are not modelled.
- Recovery.LockoutStore.OpenRecovery: a failing read is not modelled; it changes nothing. The lock keeps other requests out between the writes.
- Recovery.LockoutStore.Complete: stops at the close; retiring the old key is IssuerServer.Server.RetireRecoveredHolder, and crediting the session is not modelled.
- IdentifierSeeds.ResolveIdentifierSeed: the key strings (HMAC of the normalized identifier) and the random seeds are parameters; seeds are never deleted.
- SessionStore.AtMostOneHandedOut: uses the Firestore claim, which never expires; the Redis claim with a millisecond time-to-live is not modelled.
- FuzzyExtractor.Gen: the random source is a parameter, and the injectivity of SHA-256 on seeds is assumed by construction.
- Equivocation.VerifyProof: base64 decoding and Ed25519 verification are function parameters.
- Review queue (openReview, closeReview), appeals and operator review methods.
- HTTP routing, CORS, logging, templates, webhooks and the environment wiring.
- Firestore and Redis transport, and RESP framing above one reply.
- Gzip and base64 of the status list, DID documents, X.509 and document-chip checks.
- Motion analysis and native selfie thresholds (uncalibrated floating point).
- Email, SMS, captcha and other vendor methods; the web app.
