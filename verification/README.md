# A verified model of the OpenClaw plugin's stateful cores

This project models the parts of the OpenClaw/OCA plugin packages that carry state, protocols or
arithmetic, and proves what they guarantee.  Most of the repository is descriptors and validators; under
them lie these cores, one or two modules each:

* **Object-graph walks** (`ObjectGraph`, `CommandJson`).  Recursive walks over arbitrary heaps, cycles and
  sharing included, with one `seen` set: two reject, one freezes in place, one builds a tree.
* **Callback handling** (`CallbackBoundary`, `CallbackProtocol`, `CallbackOutcome`, `TokenRecords`).
  Permission, then verification, then consumption, with an await at each port call.  Any number of calls
  are interleaved with each other and with outside changes to the token records.
* **Session store** (`SessionModel`, `SessionNormalForm`, `SessionContents`, `SessionStore`, `SessionRuns`).
  Two maps kept in agreement, idempotent creation, the lifecycle table, and the normaliser that every stored
  session passes.
* **Approval runtime** (`OcaOperations`, `ApprovalRuntime`, `ApprovalGuarantees`, `Checksum`).  A request
  for a mutating operation is answered with a requirement first, and reaches the injected client only with a
  matching decision.
* **Topic bindings** (`UriComponent`, `TopicBinding`, `StableSort`, `TopicBindingStore`).  A store keyed by
  percent-encoded triples, shown to be a plain map from the trimmed triples.
* **Event hashes and keys** (`CodeUnits`, `EventHash`, `EventIdentifiers`, `Hex`, `IdempotencyKeys`).  32-bit FNV-1a over UTF-16
  units (constants as in section 2 of draft-eastlake-fnv), and keys joined by `:`.
* **Plugin lifecycle, readiness and composition** (`Lifecycle`, `Readiness`, `Composition`,
  `CompositionVerdict`).  An event-sourced snapshot, and the verdict computed from it, the registries and the
  bindings.
* **Delivery attempts** (`DeliveryAttempts`, `DeliveryAttemptRuns`).  Records updated by acknowledgements and
  business results in any order.

`Common` holds the shared datatypes and string functions.  Word lists and regular-expression filters are
parameters (a function from text to a flag, in a policy datatype), so every theorem holds for any such list.
Code that changes state in the source is a class or a method here, specified by a function whose properties
are then proved; code made of expressions is functions and lemmas.  Errors that the source throws are `None`,
`Err` or a rejection, never a precondition.

`dafny verify dfyconfig.toml` checks everything.

Where the code gives less than its names or documents suggest, the model follows the code, shows an input and
states the exact condition on the input:

* an own `__proto__` entry installs a frozen prototype, so a later entry of a name it holds throws
  (`CommandJson.ShadowedNameIsRefused`, `TopicBinding.ShadowedNameBreaksClone`, `TopicBinding.ClonesExactly`), and
  a clone that got one cannot be cloned again (`TopicBinding.OwnPrototypeBreaksSecondClone`, `TopicBinding.CloneTwice`);
* raw identifiers are merged by sign, white space, case and spelled-out prefixes
  (`EventIdentifiers.SignIsLost`, `EventIdentifiers.RawRefsAgreeExactly`);
* dotted attempt refs can collide (`IdempotencyKeys.DottedPartsCollide`, `IdempotencyKeys.AttemptRefsCollideExactly`);
* a called client can be reported as not called (`ApprovalGuarantees.UnsafeAnswerHidesTheCall`,
  `ApprovalGuarantees.ReportIsHonestExactly`);
* an approval covers neither a request's summary and failure flag nor refs outside the runtime's word list
  (`ApprovalGuarantees.FailureFlagIsNotCovered`, `ApprovalGuarantees.OneDecisionTwoCalls`);
* the secret-gated profile reports fake-ready, even without the credential resolver it lists as required
  (`CompositionVerdict.SmokeNeedsNoResolver`, `CompositionVerdict.SmokeReportsFakeReady`).

## Model

| member | source | states |
|---|---|---|
| ObjectGraph.RejectForbiddenFields | packages/openclaw-adapter/src/delivery-attempts/delivery-attempt-records.ts:200-223 | on any finite heap the walk ends, and it throws exactly when some reachable non-array object has a forbidden key |
| ObjectGraph.RejectForbiddenTexts | packages/openclaw-adapter/src/delivery-attempts/delivery-attempt-records.ts:225-253 | the same for string values: it throws exactly when a reachable value is a matching string |
| ObjectGraph.DeepFreeze | packages/openclaw-adapter/src/delivery-attempts/delivery-attempt-records.ts:299-311 | exactly the reachable objects become frozen, no entry changes, the same value is returned, also on cycles |
| CommandJson.NormalizeCommandJsonValue | packages/openclaw-adapter/src/commands/command-facade.ts:429-495 | succeeds exactly when every access path is acceptable at its depth (no name assigned over an installed prototype that holds it) and no container is reached by two paths; the result mirrors the input, installed prototypes included |
| CommandJson.OwnsWhatIsHeld | packages/openclaw-adapter/src/commands/command-facade.ts:482-494 | the names an output and its installed prototypes hold are those its original holds along its `__proto__` entries |
| CommandJson.ShadowedNameIsRefused | packages/openclaw-adapter/src/commands/command-facade.ts:482-491 | a concrete graph that passes every other check and whose last assignment throws |
| TokenRecords.ApplyKeeps | packages/openclaw-adapter/src/callback-tokens/records.ts:302-431 | one transition keeps the record coherent and its identity, moves only along the allowed statuses, and consumes only from verified |
| TokenRecords.ApplyExactly | packages/openclaw-adapter/src/callback-tokens/records.ts:302-431 | when each transition is made, and the whole move it makes: verify takes issued to verified, consume takes verified to consumed, deny and fail end; times, permission and refs are noted cleaned |
| TokenRecords.IssuedExactly | packages/openclaw-adapter/src/callback-tokens/records.ts:278-300 | when a token can be issued, and the record it gets |
| TokenRecords.IssuedCanBeConsumed | packages/openclaw-adapter/src/callback-tokens/records.ts:302-368 | an issued record that is verified and then consumed ends consumed once, with both times noted |
| TokenRecords.RunKeeps | packages/openclaw-adapter/src/callback-tokens/records.ts:302-431 | the same over any sequence of transitions, failed ones included; a consumption and its permission are never replaced |
| TokenRecords.IssuedRunIsCoherent | packages/openclaw-adapter/src/callback-tokens/records.ts:278-431 | every record that starts with an issue is coherent for life: consumed status, flag, counters and permission agree |
| TokenRecords.LaterRunsRespectOutcome | packages/openclaw-adapter/src/callback-tokens/records.ts:332-431 | a denied or failed token is never consumed later; a consumed one keeps its first consumption |
| CallbackBoundary.PayloadExactly | packages/openclaw-telegram-transport/src/callback-handler-port.ts:354-413 | data is a token exactly when its trimmed, short and safe text is "hz:" and a spelling of the token, an action exactly with "action:", and invalid exactly otherwise |
| CallbackBoundary.PlainDataCarries | packages/openclaw-telegram-transport/src/callback-handler-port.ts:309-403 | a prefix followed by a safe lower-case ref carries that very ref |
| CallbackBoundary.DashedByRuns | packages/openclaw-telegram-transport/src/callback-handler-port.ts:314 | each run of white space in a ref becomes one dash and nothing else changes |
| CallbackProtocol.StepKeeps | packages/openclaw-telegram-transport/src/callback-handler-port.ts:794-847 | every step of the interleaved system keeps the invariant, in which a token has at most one winner |
| CallbackProtocol.RunKeepsInv | packages/openclaw-telegram-transport/src/callback-handler-port.ts:794-847 | the invariant holds in every state of every run |
| CallbackProtocol.ConsumedAtMostOnce | packages/openclaw-telegram-transport/src/callback-handler-port.ts:722-847 | of all calls on one token, in any interleaving, at most one decides that it consumed the token |
| CallbackProtocol.DecisionIsEarned | packages/openclaw-telegram-transport/src/callback-handler-port.ts:354-413 | in every run, by the data a call came with: "hz:" data is accepted only by consuming that token, after its own permission and verification; "action:" data never touches a token; anything else asks no port and is never accepted |
| CallbackProtocol.TokenAcceptedAtMostOnce | packages/openclaw-telegram-transport/src/callback-handler-port.ts:354-847 | of all calls whose data spells the same token, in any interleaving, at most one is accepted |
| CallbackProtocol.PortsAreAskedInOrder | packages/openclaw-telegram-transport/src/callback-handler-port.ts:806-846 | the token port is asked to verify only after permission, to consume only after a valid verification, and never for invalid data |
| CallbackProtocol.UndisturbedCallConsumes | packages/openclaw-telegram-transport/src/callback-handler-port.ts:794-847 | the protocol gets through: one undisturbed call whose data carries "hz:" and a verified token, with honest answers, is accepted and consumes that token |
| CallbackOutcome.OutcomeTable | packages/openclaw-telegram-transport/src/callback-handler-port.ts:597-847 | for every decision status, replay status and acknowledgement text: exactly the answers that lead to it |
| CallbackOutcome.PermissionReasons | packages/openclaw-telegram-transport/src/callback-handler-port.ts:649-675 | reason and retry of a refused permission, from the answer or by default |
| CallbackOutcome.VerifyReasons | packages/openclaw-telegram-transport/src/callback-handler-port.ts:677-720 | the same for a token that does not verify |
| CallbackOutcome.ConsumeReasons | packages/openclaw-telegram-transport/src/callback-handler-port.ts:722-780 | the same for a consume answer; only a conflict may be tried again by default |
| CallbackOutcome.FixedReasons | packages/openclaw-telegram-transport/src/callback-handler-port.ts:800-829 | reasons of the refused data and of the acknowledged action |
| CallbackOutcome.FinishedAsProcessed | packages/openclaw-telegram-transport/src/callback-handler-port.ts:794-847 | in every run, a finished call has the outcome that the data it came with and its own answers give when run alone |
| SessionModel.TransitionsExactly | packages/oca-wrapper/src/session-model.ts:277-331 | for every pair of states and every text: the move is allowed exactly when the state diagram, written out edge by edge with the text that asks for it, has it |
| SessionModel.EndingsExactly | packages/oca-wrapper/src/session-model.ts:501-523 | from which states each ending is allowed |
| SessionModel.FlagsShowExactly | packages/oca-wrapper/src/session-model.ts:238-263 | the flags alter the derived status exactly outside the listed states |
| SessionModel.DerivesExactly | packages/oca-wrapper/src/session-model.ts:238-263 | when each derived status is given |
| SessionModel.TimestampExactly | packages/oca-wrapper/src/session-model.ts:482 | a timestamp is safe exactly when its digits fill one of two shapes |
| SessionModel.ReadRefArray | packages/oca-wrapper/src/session-model.ts:667-700 | the loop keeps the valid items in order and raises one issue for each other one, or refuses the whole list |
| SessionModel.ReadPublicIssues | packages/oca-wrapper/src/session-model.ts:812-848 | the same for the public issues |
| SessionNormalForm.ValidRefExactly | packages/oca-wrapper/src/session-model.ts:525-607 | a ref is valid exactly when it is its prefix and a safe, not all-numeric body without two dots that passes the word lists; every other check is implied |
| SessionNormalForm.NormalizesExactly | packages/oca-wrapper/src/session-model.ts:333-403 | the normaliser gives a session exactly when every property is read as that session has it and the last check passes |
| SessionNormalForm.NormalizeGivesWellFormed | packages/oca-wrapper/src/session-model.ts:333-403 | every normalised session is well formed; its derived status is that of its state without flags |
| SessionNormalForm.StoredRefsNameTheirKinds | packages/oca-wrapper/src/session-model.ts:525-700 | every ref of a stored session begins with the prefix of its own kind |
| SessionNormalForm.StoredTextsAreSafe | packages/oca-wrapper/src/session-model.ts:916-948 | every text of a stored session is at most 512 units long and holds nothing unsafe |
| SessionNormalForm.FixedExactlyWhenWellFormed | packages/oca-wrapper/src/session-model.ts:333-403 | the normaliser leaves a session unchanged exactly when it is well formed |
| SessionNormalForm.NormalizeIsIdempotent | packages/oca-wrapper/src/session-model.ts:333-403 | normalising twice is normalising once |
| SessionContents.CreateKeeps | packages/oca-wrapper/src/session-store.ts:123-175 | create keeps both maps in agreement, never reports a lost session, and changes nothing unless it creates |
| SessionContents.CandidateNormalizes | packages/oca-wrapper/src/session-store.ts:225-236 | when a transition's candidate is accepted, and that only state, status and time then differ |
| SessionContents.TransitionKeeps | packages/oca-wrapper/src/session-store.ts:205-243 | transition keeps the invariant, the order and the records; a rejected one changes nothing; the unsafe-json branch is dead |
| SessionContents.AcceptedIsTaken | packages/oca-wrapper/src/session-store.ts:205-279 | every transition that the store's conditions allow is taken, with its whole effect |
| SessionContents.TransitionRefusedExactly | packages/oca-wrapper/src/session-store.ts:205-234 | which error a refused transition reports: no object, no such session, no edge of the diagram; what the diagram allows can only fail as an invalid session |
| SessionStore.Store.constructor | packages/oca-wrapper/src/session-store.ts:117-120 | a new store is empty, with a list limit between 1 and 100 |
| SessionStore.Store.Create | packages/oca-wrapper/src/session-store.ts:123-175 | the method does what the specification function says, keeps the invariant and appends to the creation order only when it creates |
| SessionStore.Store.Get | packages/oca-wrapper/src/session-store.ts:177-179 | finds the session stored under the validated ref, or reports not-found |
| SessionStore.Store.Resume | packages/oca-wrapper/src/session-store.ts:181-183 | the same, reported as resumed |
| SessionStore.Store.ListSessions | packages/oca-wrapper/src/session-store.ts:185-203 | lists the first sessions in creation order, up to the limit; refuses exactly a limit that is no integer from 1 to the maximum, and takes 25 by default |
| SessionStore.Store.Transition | packages/oca-wrapper/src/session-store.ts:205-243 | it updates exactly when some edge of the diagram, the flags and the time allow it, and stores and returns the moved session; otherwise nothing changes |
| SessionRuns.StepKeeps | packages/oca-wrapper/src/session-store.ts:122-243 | one operation keeps the invariant and only extends the contents |
| SessionRuns.RunKeeps | packages/oca-wrapper/src/session-store.ts:122-243 | over any run: creation order and records only grow, a session's phase never falls, an archived session never changes |
| SessionRuns.MapsAgree | packages/oca-wrapper/src/session-store.ts:122-243 | in every reachable state the two maps are in bijection and every stored session is normal with the status its state derives |
| SessionRuns.CreateReplays | packages/oca-wrapper/src/session-store.ts:137-156 | repeating a successful create, after anything, replays the current session and changes nothing |
| SessionRuns.DifferentSessionConflicts | packages/oca-wrapper/src/session-store.ts:137-147 | reusing an idempotency ref for another session is a conflict, after anything |
| SessionRuns.CreatedIsFound | packages/oca-wrapper/src/session-store.ts:158-183 | a created session is found ever after, changed at most in state, status and time |
| SessionRuns.TakenRefIsRefused | packages/oca-wrapper/src/session-store.ts:158-161 | a taken session ref is refused under any other free idempotency ref |
| SessionRuns.ArchivedStaysArchived | packages/oca-wrapper/src/session-store.ts:205-223 | an archived session refuses every transition, after anything |
| SessionRuns.TransitionSkipsNoPhase | packages/oca-wrapper/src/session-model.ts:501-523 | an accepted transition enters work only from starting to active or from approval-required to waiting-for-approval, and leaves planned only to requested, cancelled or expired |
| SessionRuns.RunFollowsDiagram | packages/oca-wrapper/src/session-store.ts:205-243 | over any run a stored session goes through the states of a path in the diagram |
| SessionRuns.WorkIsEarned | packages/oca-wrapper/src/session-store.ts:205-243 | a session that comes to work in a run took one of the two ways in, and was requested if it had been planned |
| SessionRuns.ListingsOnlyGrow | packages/oca-wrapper/src/session-store.ts:185-203 | the same listing later begins with the same sessions, in creation order |
| SessionRuns.PhaseMovesAreBounded | packages/oca-wrapper/src/session-model.ts:277-294 | no session ever changes phase more than six times |
| OcaOperations.OperationTextParses | packages/oca-wrapper/src/operation-handlers.ts:378-391 | every registered operation ref is recognised as itself |
| OcaOperations.ParsesExactly | packages/oca-wrapper/src/capability-descriptor.ts:71-85 | each operation has the one public ref written out for it |
| OcaOperations.TableExactly | packages/oca-wrapper/src/capability-descriptor.ts:111-125 | for every operation: the six that only read, the one that changes a repository, the one that is idempotent, and the refs each needs, all written out |
| OcaOperations.NormalizesExactly | packages/oca-wrapper/src/operation-handlers.ts:221-272 | a request normalises exactly when it is well formed, and keeps every known property |
| OcaOperations.IssuesExactly | packages/oca-wrapper/src/operation-handlers.ts:221-272 | a refused request lists exactly the issues that are wrong with it, each with its code |
| OcaOperations.RefsNameTheirKinds | packages/oca-wrapper/src/operation-handlers.ts:430-448 | every ref of a well-formed request begins with the prefix of its own kind |
| OcaOperations.HandleOperation | packages/oca-wrapper/src/operation-handlers.ts:158-219 | the client is called exactly for a well-formed request whose operation is one of the six that read, or that is marked as approved |
| OcaOperations.CalledExactly | packages/oca-wrapper/src/operation-handlers.ts:158-219 | the client is called once for a well-formed request that is read-only or approved, and otherwise not at all |
| ApprovalRuntime.SafeRefFingerprintParts | packages/oca-wrapper/src/approval-runtime.ts:446-457 | the loop lists the counted refs in field order |
| ApprovalRuntime.BuildOperationInput | packages/oca-wrapper/src/approval-runtime.ts:459-473 | the loop copies the known properties and adds the approval marker when asked |
| ApprovalRuntime.HandleToolRequest | packages/oca-wrapper/src/approval-runtime.ts:126-196 | the method returns the specified result and makes exactly the specified calls, which the statements below characterise on the request |
| ApprovalGuarantees.DecisionAcceptedExactly | packages/oca-wrapper/src/approval-runtime.ts:264-354 | a decision is accepted exactly when the operation needs one and every scope agrees with the request |
| ApprovalGuarantees.HandlerOnInput | packages/oca-wrapper/src/approval-runtime.ts:459-473 | both phases see the request's own data: the rebuilt input is valid exactly when the request is |
| ApprovalGuarantees.ClientCalledExactly | packages/oca-wrapper/src/approval-runtime.ts:126-196 | at most one call per request; for a mutating operation exactly when it is understood and carries a granting decision |
| ApprovalGuarantees.OnlyReadsGoUndecided | packages/oca-wrapper/src/approval-runtime.ts:143-195 | without a decision the client is called exactly for an understood request for one of the six reading operations, with effect read-only |
| ApprovalGuarantees.StatusExactly | packages/oca-wrapper/src/approval-runtime.ts:356-395 | what each result status says about the call and the client's answer |
| ApprovalGuarantees.ApprovalStateExactly | packages/oca-wrapper/src/approval-runtime.ts:356-416 | the reported approval state, for every result |
| ApprovalGuarantees.NoOperationIsReported | packages/oca-wrapper/src/approval-runtime.ts:202-262 | a request that asks for no operation is refused with the issue that says why, and without a call |
| ApprovalGuarantees.ReportIsHonestExactly | packages/oca-wrapper/src/approval-runtime.ts:374-395 | the reported call state is right exactly unless the client was called and answered unsafely |
| ApprovalGuarantees.UnsafeAnswerHidesTheCall | packages/oca-wrapper/src/approval-runtime.ts:627-642 | a concrete request that calls the client and is reported as not called |
| ApprovalGuarantees.DecisionCoversExactly | packages/oca-wrapper/src/approval-runtime.ts:308-335 | a decision read off one requirement grants another request exactly when operation, scopes and checksum agree |
| ApprovalGuarantees.OneCharacterApartIsRefused | packages/oca-wrapper/src/approval-runtime.ts:313-315 | equal-length ASCII fingerprints one character apart: the decision is refused |
| ApprovalGuarantees.FingerprintCoversExactly | packages/oca-wrapper/src/approval-runtime.ts:430-457 | the fingerprint determines operation, scopes and counted refs, and nothing else |
| ApprovalGuarantees.FingerprintReads | packages/oca-wrapper/src/approval-runtime.ts:430-457 | the fingerprint piece by piece: public ref, effect, approval class, replay class, both scopes, then each counted ref with its name |
| ApprovalGuarantees.RequirementReads | packages/oca-wrapper/src/approval-runtime.ts:418-444 | the requirement that a pending request is answered with, field by field |
| ApprovalGuarantees.KnownChecksums | packages/oca-wrapper/src/approval-runtime.ts:430-444 | two printed checksums worked out by hand |
| ApprovalGuarantees.DecisionIgnoresTheRest | packages/oca-wrapper/src/approval-runtime.ts:430-457 | so a decision also grants a request that differs only outside the fingerprint |
| ApprovalGuarantees.OneDecisionTwoCalls | packages/oca-wrapper/src/approval-runtime.ts:126-196 | two whole requests alike in operation, scopes and counted refs: one decision lets both through, and the calls are the same exactly when failure flag and uncounted refs are |
| ApprovalGuarantees.FailureFlagIsNotCovered | packages/oca-wrapper/src/approval-runtime.ts:430-473 | for any pending request: the decision for it also lets its variant with the failure flag through |
| ApprovalGuarantees.AnsweringInvokes | packages/oca-wrapper/src/approval-runtime.ts:166-195 | answering an approval-required result on the same request calls the client exactly once |
| Checksum.ChecksumSafe | packages/oca-wrapper/src/approval-runtime.ts:716-724 | the loop computes the fold |
| Checksum.ChecksumIsExact | packages/oca-wrapper/src/approval-runtime.ts:716-724 | the fold is seed times a power plus the weighted codes, modulo 65521, for any multiplier (33 here, 31 in the fake client) |
| Checksum.ChecksumPrints | packages/oca-wrapper/src/approval-runtime.ts:441 | it prints as exactly four hex digits that determine it |
| Checksum.OneCharacterCollidesExactly | packages/oca-wrapper/src/fake-client.ts:167-175 | texts that differ at one position collide exactly when the two codes agree modulo 65521 |
| Checksum.AsciiDifferenceShows | packages/oca-wrapper/src/approval-runtime.ts:716-724 | equal-length ASCII texts one character apart print different checksums |
| UriComponent.EncodeUriComponent | packages/openclaw-adapter/src/binding/topic-binding.ts:141-143 | the loop over UTF-16 units computes the percent-encoded UTF-8, or throws (section 2.1 of RFC 3986, section 3 of RFC 3629) |
| UriComponent.DecodeEncode | packages/openclaw-adapter/src/binding/topic-binding.ts:141-143 | decoding gives the text back |
| UriComponent.EncodeIsInjective | packages/openclaw-adapter/src/binding/topic-binding.ts:141-143 | different texts are encoded differently |
| UriComponent.EncodesExactlyWellFormed | packages/openclaw-adapter/src/binding/topic-binding.ts:141-143 | it throws exactly when some surrogate is not half of a pair |
| UriComponent.EncodedHasNoSeparator | packages/openclaw-adapter/src/binding/topic-binding.ts:138-145 | the encoding holds no ':' and no '=' |
| TopicBinding.CreateKeyIsIdempotent | packages/openclaw-adapter/src/binding/topic-binding.ts:130-136 | a normalised key is its own normal form |
| TopicBinding.SerializedKeysAgreeExactly | packages/openclaw-adapter/src/binding/topic-binding.ts:138-145 | two serialised keys are equal exactly when the trimmed triples are |
| TopicBinding.SerializesExactly | packages/openclaw-adapter/src/binding/topic-binding.ts:130-145 | which keys serialise and which throw |
| TopicBinding.SerializedReads | packages/openclaw-adapter/src/binding/topic-binding.ts:138-145 | a serialised key read back: its pieces decode to the trimmed workspace, channel and topic, in that order |
| TopicBinding.ClonesExactly | packages/openclaw-adapter/src/binding/topic-binding.ts:83-124 | the first clone is made exactly for plain JSON-like values with allowed names, none of them held by an object installed through `__proto__` before it |
| TopicBinding.CloneMirrors | packages/openclaw-adapter/src/binding/topic-binding.ts:83-124 | a clone has the same values in the same places: items and fields in order, and the last object assigned to `__proto__` as its prototype |
| TopicBinding.ShadowedNameBreaksClone | packages/openclaw-adapter/src/binding/topic-binding.ts:83-124 | a concrete value each of whose parts can be cloned while the whole cannot |
| TopicBinding.CloneTwice | packages/openclaw-adapter/src/binding/topic-binding.ts:83-124 | a clone clones again, to itself, exactly when no kept `__proto__` entry of the original held an object |
| TopicBinding.OwnPrototypeBreaksSecondClone | packages/openclaw-adapter/src/binding/topic-binding.ts:83-124 | a concrete metadata value whose clone cannot be cloned again |
| TopicBinding.CreateTwice | packages/openclaw-adapter/src/binding/topic-binding.ts:147-169 | the same for whole snapshots |
| TopicBinding.CreatesExactly | packages/openclaw-adapter/src/binding/topic-binding.ts:147-164 | a snapshot is made exactly from a known status, texts that are not blank and clonable metadata, each text trimmed into its own field |
| StableSort.SortKeeps | packages/openclaw-adapter/src/binding/in-memory-topic-binding-store.ts:24 | sorting keeps the entries |
| StableSort.SortSorts | packages/openclaw-adapter/src/binding/in-memory-topic-binding-store.ts:24 | and orders them by the comparison |
| StableSort.SortIsStable | packages/openclaw-plugin-runtime/src/composition.ts:417-423 | elements that compare equal keep their order |
| TopicBindingStore.KeysAgree | packages/openclaw-adapter/src/binding/in-memory-topic-binding-store.ts:33-47 | looking up a serialised key is looking up the normalised triple |
| TopicBindingStore.ClonesEnumerate | packages/openclaw-adapter/src/binding/in-memory-topic-binding-store.ts:21-27 | the sorted clones enumerate the abstract map, each entry once |
| TopicBindingStore.Store.constructor | packages/openclaw-adapter/src/binding/in-memory-topic-binding-store.ts:29-30 | a new store is the empty map |
| TopicBindingStore.Store.Upsert | packages/openclaw-adapter/src/binding/in-memory-topic-binding-store.ts:33-38 | the abstract map is updated at the snapshot's key, or nothing changes and the error is reported |
| TopicBindingStore.Store.Get | packages/openclaw-adapter/src/binding/in-memory-topic-binding-store.ts:40-43 | the answer is that of the abstract map |
| TopicBindingStore.Store.Delete | packages/openclaw-adapter/src/binding/in-memory-topic-binding-store.ts:45-47 | the key leaves the abstract map; the answer says whether it was there |
| TopicBindingStore.Store.List | packages/openclaw-adapter/src/binding/in-memory-topic-binding-store.ts:49-51 | the list enumerates the abstract map in key order |
| TopicBindingStore.Store.ListByWorkspace | packages/openclaw-adapter/src/binding/in-memory-topic-binding-store.ts:53-58 | every snapshot of the abstract map whose workspace is the trimmed one is listed, once, nothing else is, and the list is in key order |
| TopicBindingStore.Store.Clear | packages/openclaw-adapter/src/binding/in-memory-topic-binding-store.ts:60-62 | the abstract map becomes empty |
| CodeUnits.CodeUnitsKeepDifference | packages/openclaw-telegram-transport/src/channel-event-source.ts:425-426 | ASCII texts one character apart have unit sequences one unit apart |
| EventHash.FnvLoop | packages/openclaw-telegram-transport/src/channel-event-source.ts:422-431 | the loop computes the fold of the FNV step over 32-bit words |
| EventHash.DeterministicHash | packages/openclaw-telegram-transport/src/channel-event-source.ts:422-431 | for every input the printed hash has exactly eight hex digits, and their value is the 32-bit word |
| EventHash.StepIsBijective | packages/openclaw-telegram-transport/src/channel-event-source.ts:426-427 | each step is undone by xor and multiplication with the inverse prime |
| EventHash.OneUnitChangesHash | packages/openclaw-telegram-transport/src/channel-event-source.ts:422-431 | equal-length inputs that differ in one unit never share a hash |
| EventHash.KnownHashes | packages/openclaw-telegram-transport/src/channel-event-source.ts:423-427 | the published FNV-1a values of the empty text and of "a" |
| EventHash.PrintedHashSeparates | packages/openclaw-telegram-transport/src/topic-command-router-port.ts:388-395 | nor do they share the printed hash |
| EventHash.StableInputDetermines | packages/openclaw-telegram-transport/src/channel-event-source.ts:675 | the joined stable input determines all eight components |
| EventHash.SafeRefMergesExactly | packages/openclaw-telegram-transport/src/channel-event-source.ts:290 | which normalised identifiers share a ref: equal ones, or one with the prefix written out |
| EventIdentifiers.IdentifierIsSafe | packages/openclaw-telegram-transport/src/channel-event-source.ts:267-282 | whatever normalises, number or text, is a short identifier of safe characters |
| EventIdentifiers.RawRefsAgreeExactly | packages/openclaw-telegram-transport/src/channel-event-source.ts:267-291 | for all raw identifiers: both give the same ref exactly when both are usable and equal up to sign, or up to white space, case and dashes, or a number and its decimal text, or one spells the prefix out |
| EventIdentifiers.SignIsLost | packages/openclaw-telegram-transport/src/channel-event-source.ts:268-270 | -5 and 5 become one ref |
| EventIdentifiers.ReadEventsAreSafe | packages/openclaw-telegram-transport/src/channel-event-source.ts:646-674 | every event that is read has safe identifiers, each normalised from its own property, so the statements about hashes and keys apply to it |
| EventHash.OneCharacterSeparatesEvents | packages/openclaw-telegram-transport/src/channel-event-source.ts:674-677 | events one character apart in one component have different refs unless both bring an event id, and different keys whenever their refs agree |
| EventHash.OneRefCharacterSeparatesKeys | packages/openclaw-telegram-transport/src/channel-event-source.ts:677 | events alike but for one character of their refs have different idempotency keys |
| EventHash.EventIdsSeparateKeys | packages/openclaw-telegram-transport/src/channel-event-source.ts:673-677 | so do events that differ in one character of their event ids alone |
| EventHash.KeyNamesTheEvent | packages/openclaw-telegram-transport/src/channel-event-source.ts:664-677 | the key hashes a text whose nine parts are the event ref and, in order, all that the event is made of |
| EventHash.EventRefReads | packages/openclaw-telegram-transport/src/channel-event-source.ts:674-676 | the event ref is the prefixed event id, or else names the hash of the joined components |
| IdempotencyKeys.SplitOfKey | packages/openclaw-adapter/src/contracts/idempotency.ts:95-108 | splitting a built key gives back scope and parts, and the key is recognised |
| IdempotencyKeys.KeyOfSplit | packages/openclaw-adapter/src/contracts/idempotency.ts:145-157 | a key is recognised exactly when it is the build of its own split |
| IdempotencyKeys.KeysAreInjective | packages/openclaw-adapter/src/contracts/idempotency.ts:95-108 | equal keys come from equal scope and parts |
| IdempotencyKeys.BuildersAreInjective | packages/openclaw-adapter/src/contracts/idempotency.ts:79-143 | the three builders are injective, with and without a thread, and pairwise disjoint |
| IdempotencyKeys.BuiltKeyReads | packages/openclaw-adapter/src/contracts/idempotency.ts:79-143 | every built key piece by piece, in order, with and without a thread |
| IdempotencyKeys.AttemptRefReads | packages/openclaw-adapter/src/delivery-attempts/delivery-attempt-records.ts:403-415 | the attempt ref is the key with a dot for every colon, behind a prefix |
| IdempotencyKeys.DeliveryKeyExists | packages/openclaw-adapter/src/contracts/idempotency.ts:132-143 | when a delivery key can be built |
| IdempotencyKeys.AttemptRefsCollideExactly | packages/openclaw-adapter/src/delivery-attempts/delivery-attempt-records.ts:403-415 | when two keys get the same attempt ref |
| IdempotencyKeys.DotFreeAttemptRefsInjective | packages/openclaw-adapter/src/delivery-attempts/delivery-attempt-records.ts:403-415 | on keys with dot-free parts the attempt ref is injective |
| IdempotencyKeys.DottedPartsCollide | packages/openclaw-adapter/src/delivery-attempts/delivery-attempt-records.ts:403-415 | two concrete keys with one attempt ref |
| Hex.PrintIsExact | packages/openclaw-telegram-transport/src/channel-event-source.ts:430 | padded printing has exactly the width and determines the number |
| Hex.ShowIsExact | packages/openclaw-telegram-transport/src/channel-event-source.ts:430 | so do the characters |
| Lifecycle.ApplyAppendsEdge | packages/openclaw-plugin-runtime/src/lifecycle.ts:217-259 | a transition leaves the snapshot alone or appends one legal edge out of its state |
| Lifecycle.LegalEdgeIsTaken | packages/openclaw-plugin-runtime/src/lifecycle.ts:217-259 | every legal edge out of the state is taken |
| Lifecycle.OutcomeExactly | packages/openclaw-plugin-runtime/src/lifecycle.ts:217-378 | for every snapshot and request: which refusal, which acceptance without a change, which edge and with which reason |
| Lifecycle.RunIsConsistent | packages/openclaw-plugin-runtime/src/lifecycle.ts:327-378 | over every run: revision, state and both summary reasons are folds of the history, a chain of legal edges from declared |
| Lifecycle.InForceUnique | packages/openclaw-plugin-runtime/src/lifecycle.ts:350-378 | the history determines the reason in force |
| Lifecycle.ReplayRebuilds | packages/openclaw-plugin-runtime/src/lifecycle.ts:217-378 | replaying a history's events rebuilds the state and the edges |
| Lifecycle.NoWorkAfterShutdown | packages/openclaw-plugin-runtime/src/lifecycle.ts:261-325 | once stopping, failed or stopped is entered no later snapshot accepts work |
| Lifecycle.StoppedIsFinal | packages/openclaw-plugin-runtime/src/lifecycle.ts:281-325 | a stopped plugin stays stopped |
| Lifecycle.DescriptionPredictsApply | packages/openclaw-plugin-runtime/src/lifecycle.ts:261-279 | each flag of the description says whether its event is accepted; terminal says that only the stop can still begin |
| Readiness.MergeRequiredKinds | packages/openclaw-plugin-runtime/src/readiness.ts:280-291 | the loop merges the explicit kinds into the profile's, in insertion order |
| Readiness.MergedHolds | packages/openclaw-plugin-runtime/src/readiness.ts:215-291 | a kind is required exactly when the profile or the input says so, unlisted names counting as config |
| Readiness.ProfileNeedsExactly | packages/openclaw-plugin-runtime/src/readiness.ts:231-274 | which profile needs which kind |
| Readiness.MissingKindIsNamed | packages/openclaw-plugin-runtime/src/readiness.ts:386-413 | a required kind that no component supplies is named in the missing list |
| Readiness.AppendMissingRequiredReports | packages/openclaw-plugin-runtime/src/readiness.ts:398-413 | the loop appends one missing report for each absent required kind |
| Readiness.AggregatePluginReadiness | packages/openclaw-plugin-runtime/src/readiness.ts:494-530 | the method computes the specified aggregate |
| Readiness.AggregateExactly | packages/openclaw-plugin-runtime/src/readiness.ts:415-465 | status and missing list, in terms of the input's components and required kinds alone |
| Readiness.ListsExactly | packages/openclaw-plugin-runtime/src/readiness.ts:505-513 | what each of the three lists names |
| Readiness.RemoteOnlyWhenAsked | packages/openclaw-plugin-runtime/src/readiness.ts:467-492 | when external connectivity and remote work are announced |
| Composition.CompositionReadinessComponents | packages/openclaw-plugin-runtime/src/composition.ts:462-513 | the loop adds one component for each binding whose kind has one |
| Composition.ComposeOpenClawRuntime | packages/openclaw-plugin-runtime/src/composition.ts:234-302 | the method computes the specified verdict |
| CompositionVerdict.BindingsReadOff | packages/openclaw-plugin-runtime/src/composition.ts:390-445 | the published bindings are exactly those of the input, with the defaults and the marks of the profile |
| CompositionVerdict.AggregateOnInput | packages/openclaw-plugin-runtime/src/composition.ts:462-572 | aggregate status and missing list, for every profile, in terms of the composition's input |
| CompositionVerdict.StatusExactly | packages/openclaw-plugin-runtime/src/composition.ts:593-619 | the published status, for every profile, in terms of the composition's input |
| CompositionVerdict.FakeE2eExactly | packages/openclaw-plugin-runtime/src/composition.ts:234-302 | the fake end-to-end flag, exactly: profile, lifecycle, tools, capabilities, a binding for each of five kinds, every mapped binding ready or degraded |
| CompositionVerdict.VerdictIgnoresOrder | packages/openclaw-plugin-runtime/src/composition.ts:417-423 | reordering or repeating bindings changes nothing in the verdict |
| CompositionVerdict.ReadyStatusExactly | packages/openclaw-plugin-runtime/src/composition.ts:593-619 | ready or dry-run-ready exactly on a ready input: open gates, lifecycle, registries, needed kinds, binding statuses; nothing blocks then |
| CompositionVerdict.BlockedReasonsExactly | packages/openclaw-plugin-runtime/src/composition.ts:574-591 | each reason is listed once, exactly under its own condition on the input; so is each of the five next steps |
| CompositionVerdict.IdleLifecycleIsNamed | packages/openclaw-plugin-runtime/src/composition.ts:462-480 | a lifecycle that does not accept work is named in the missing list, under every profile |
| CompositionVerdict.SmokeReportsFakeReady | packages/openclaw-plugin-runtime/src/composition.ts:593-619 | on which inputs the secret-gated profile reports fake-ready |
| CompositionVerdict.SmokeNeedsNoResolver | packages/openclaw-plugin-runtime/src/composition.ts:390-405 | it lists a credential resolver as required, and a concrete input without one reports fake-ready |
| DeliveryAttemptRuns.FixedExactlyWhenWellFormed | packages/openclaw-adapter/src/delivery-attempts/delivery-attempt-records.ts:754-827 | the normaliser leaves a record unchanged exactly when every part is its own normal form |
| DeliveryAttemptRuns.CreatedIsWellFormed | packages/openclaw-adapter/src/delivery-attempts/delivery-attempt-records.ts:578-604 | a created record is reserved, coherent and its own normal form |
| DeliveryAttempts.CreatedReads | packages/openclaw-adapter/src/delivery-attempts/delivery-attempt-records.ts:578-604 | a created attempt field by field, with every default |
| DeliveryAttempts.CreatedWhen | packages/openclaw-adapter/src/delivery-attempts/delivery-attempt-records.ts:578-604 | exactly when an attempt is created: every input as required, and no text of the record forbidden |
| DeliveryAttempts.AckReads | packages/openclaw-adapter/src/delivery-attempts/delivery-attempt-records.ts:606-667 | a created acknowledgement field by field; a retry is allowed exactly when the failure says so |
| DeliveryAttempts.BusinessReads | packages/openclaw-adapter/src/delivery-attempts/delivery-attempt-records.ts:669-701 | the same for a business result |
| DeliveryAttemptRuns.AcknowledgedFixedExactly | packages/openclaw-adapter/src/delivery-attempts/delivery-attempt-records.ts:703-726 | an acknowledged record is normal exactly when the acknowledgement's ref and time are, since they are copied unchecked |
| DeliveryAttemptRuns.ConcludedFixedExactly | packages/openclaw-adapter/src/delivery-attempts/delivery-attempt-records.ts:728-752 | the same for a business result |
| DeliveryAttemptRuns.AckIsFixed | packages/openclaw-adapter/src/delivery-attempts/delivery-attempt-records.ts:606-667 | every created acknowledgement meets that condition |
| DeliveryAttemptRuns.BusinessResultIsFixed | packages/openclaw-adapter/src/delivery-attempts/delivery-attempt-records.ts:669-701 | so does every created business result, which asks for a retry exactly when it failed and may be retried |
| DeliveryAttemptRuns.UpdatesExactly | packages/openclaw-adapter/src/delivery-attempts/delivery-attempt-records.ts:703-752 | when an update is made, and what the record then says |
| DeliveryAttemptRuns.RunStatesTheLast | packages/openclaw-adapter/src/delivery-attempts/delivery-attempt-records.ts:703-752 | after any run the record says what the last update made said, or is unchanged |
| DeliveryAttemptRuns.RunKeeps | packages/openclaw-adapter/src/delivery-attempts/delivery-attempt-records.ts:703-752 | any sequence of updates, whatever they carry, keeps identity and coherence |
| DeliveryAttemptRuns.RunKeepsNormal | packages/openclaw-adapter/src/delivery-attempts/delivery-attempt-records.ts:703-752 | updates with normal refs and times keep the normal form |
| DeliveryAttemptRuns.CreatedRunKeeps | packages/openclaw-adapter/src/delivery-attempts/delivery-attempt-records.ts:578-827 | a created attempt keeps identity and coherence for life, and the normaliser gives it back as long as updates carry normal refs and times |

## Left out

- SessionNormalForm.Embed: the five list and twelve optional properties of a session are maps from enumerated names, not one field each.
- Text: outside `UriComponent` and `TopicBinding` (UTF-16 units) strings are sequences of Unicode scalar values, so lone surrogates are not represented there.
- Word lists, unsafe-text patterns, lower-casing, `Date.parse` and ref sanitisers are parameters; which words they hold is not modelled.
- SessionRuns.CreateReplays: the stored fingerprint is the normalised session itself; that `JSON.stringify` is injective on the fixed field list is taken for granted.
- SessionNormalForm.NormalizesExactly: properties that the normaliser never reads, getters and other exotic objects are not represented.
- ObjectGraph.RejectForbiddenFields: array holes and getters are not represented; the sibling walks of command-facade.ts, delivery-pump.ts, approval-bridge.ts and callback-token-flow.ts have the same shape and are not repeated.
- OcaOperations.NormalizesExactly: the read helpers write into a shared request and issue list; the model returns their contributions and joins them in order.
- ApprovalGuarantees.StatusExactly: a result's fixed texts and its refs, which passed the same filter, are not examined again by the final check; only the client's answer is.
- ApprovalRuntime.HandleToolRequest: the client is a function of its request; a client that throws is not modelled, and the default fake client is any such function.
- TopicBinding.ClonesExactly: cyclic metadata, on which the source overflows its stack, and the reordering of integer-like keys are not represented.
- StableSort.SortSorts: `Array.prototype.sort` is a stable insertion sort by the comparison, and `localeCompare` is any total preorder.
- DeliveryAttempts.Normalize: the arrays and objects that a stored content format or acknowledgement status could be are a parameter, as is what a JSON round trip makes of them.
- DeliveryAttemptRuns.RunKeepsNormal: acknowledgements and results read back from storage are covered by their validity condition; their own normalisers are not repeated.
- Composition.ComposeOpenClawRuntime: summaries, codes, timestamps and diagnostics do not reach the verdict and are left out.
- CallbackProtocol.StepKeeps: the ports are any programs that change at most the addressed record by its own transitions; ordering inside the JavaScript event queue is every interleaving of the listed steps.
- Lifecycle reason normalisation is a parameter; one pass of it is not a fixed point in the source.
- The synchronous callback token flow, the delivery pump, approval cards, argument-ref normalisation, topic command routing beyond its hash, the fake client's envelopes, ref constructors, registries, credentials, transport configuration and real-smoke gates: straight validation or data shapes.
