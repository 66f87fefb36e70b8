# Verified model of the authority runtime

This project models the trusted centre of the runtime in Dafny 4.11 and proves
what the rest of the system relies on: the `authority-core` crate and the two
stateful tables of `capfs`. Text is the UTF-8 byte string Rust holds, integers
are unbounded with `u64` and `u32` limits written out, and every operating
system, provider or executor decision is an argument or a nondeterministic
choice, so each theorem covers all of them.

Five components follow the source.

- **Authority lattice and codecs** (`Patterns`, `Path`, `File`, `Http`,
  `Github`, `Capability`, `Policy`, over `Bytes`, `Bits`, `Order`): matching and
  containment of paths, URLs, branches, bitsets and time windows, shown to be
  exact inclusion of requests, with parser and printer pairs and the injective
  root-policy encoding.
- **Capability state and kernel** (`State`, `StateInvariant`, `StateTheorems`,
  `StateDecisions`, `StateObject`, `Kernel`, `KernelInvariant`, `KernelTruth`,
  `KernelObservers`, `KernelReplies`, `KernelTheorems`, `KernelCalls`): the
  sequential transition system and, around it, threads with program counters that
  share it through a reader/writer lock. The history of a run records executor
  calls, effects crossing their linearization point, replies, transitions,
  observer notifications and returns.
- **Write-ahead audit journal** (`AttemptCodec`, `AttemptDecoding`,
  `PayloadBuffers`, `Journal`, `JournalCodec`, `JournalDamage`, `JournalHistory`,
  `JournalLog`, `JournalDecisions`, `JournalObject`, `Audit`, `AuditObject`,
  `Recovery`, `Reconciliation`, `Lifetimes`, `Deployment`): frames, checksum,
  parser, writer, crash recovery over any number of process lifetimes, whole kernel
  runs between crashes, and later reconciliation. An append is told what the file
  system does: refuse, tear after some bytes, or sync.
- **Hard-link repair** (`Backing`, `Moves`): repository names, names outside and
  inode contents; the repair loops with any system call allowed to fail; staged
  renames and their rollback.
- **FUSE node table** (`NodeTable`): two inverse indexes with reference counts.

Where the source updates fields in place the model is a class whose methods are
proved equal to a function on values (`Value()` before and after) and keep the
invariant of that value; the theorems are about those functions and about runs of
them.

Two promises hold only under a condition, and the model says exactly which.
`encode_reconcile_payload` accepts an empty receipt token that
`decode_reconcile_payload` rejects: one such call succeeds and leaves a journal
that no later open accepts (`JournalLog.EmptyTokenExact`,
`JournalLog.EmptyTokenReached`). `restore_path_moves` undoes a staged batch
exactly when its destinations are pairwise distinct, no move starts where an
earlier one arrived, and every destination that was registered is moved away by
the batch itself (`Moves.StageRestores`); one batch outside that condition loses
a name and another makes the rollback panic.

## Model

| member | source | states |
|---|---|---|
| Patterns.BelowSound | crates/authority-core/src/path.rs:192-213 | a name selected by a contained pattern is selected by the container, for every naming scheme built on segments |
| Patterns.BelowExact | crates/authority-core/src/path.rs:205-213 | pattern containment holds exactly when every valid name of the child is one of the parent and the child is not a dead-end prefix under the equal exact name, for any set of valid names |
| Path.NewPath | crates/authority-core/src/path.rs:39-75 | the constructor loop accepts exactly the valid paths, none with a forbidden segment, and otherwise reports the first segment that goes wrong and the first rule it breaks |
| Path.SegmentFaultExact | crates/authority-core/src/path.rs:285-303 | a segment passes exactly when it is not empty, not `.` or `..`, and has no `/`, NUL or `*`; otherwise the first broken rule is reported |
| Path.ValidPathExact | crates/authority-core/src/path.rs:39-75 | a valid path is at most 64 such segments whose joined spelling is at most 4096 bytes |
| Path.ChildExact | crates/authority-core/src/path.rs:105-133 | `child` succeeds exactly when the extended path is valid, and otherwise names the new segment and the first rule it breaks |
| Path.RebaseExact | crates/authority-core/src/path.rs:145-164 | `rebase` succeeds exactly on paths below the source whose new name keeps both limits |
| Path.RebaseBack | crates/authority-core/src/path.rs:145-164 | rebasing back returns the original path |
| Path.RebaseInjective | crates/authority-core/src/path.rs:145-164 | distinct paths of a subtree keep distinct names |
| Path.PathBelowExact | crates/authority-core/src/path.rs:205-213 | `path_below` holds exactly when every valid path of the child is one of the parent, except for a prefix at a size limit under the equal exact path |
| Path.DeepestPrefixRefused | crates/authority-core/src/path.rs:205-213 | the exception is real: a prefix of 64 segments is contained in the exact path it names and is refused |
| File.TagsInverse | crates/authority-core/src/file.rs:72-85 | effect tags and effects are inverse to each other |
| File.FromEffectsExact | crates/authority-core/src/file.rs:140-144 | the mask fold holds exactly the listed effects and never a bit outside the universe |
| File.EffectsSubsetExact | crates/authority-core/src/file.rs:148-163 | the mask tests are set membership and set inclusion over the thirteen effects |
| File.FileBelowExact | crates/authority-core/src/file.rs:256-260 | `file_body_below` holds exactly when every request of the child is one of the parent, except for a child without effects that differs in repository or path and for a dead-end prefix |
| File.EffectlessRefused | crates/authority-core/src/file.rs:256-260 | the exception is real: an authority without effects is contained in that of another repository and is refused |
| Http.NewHost | crates/authority-core/src/http.rs:35-89 | the label loop computes the canonical host or its first fault: of the whole name, or of the first bad label |
| Http.LabelFaultExact | crates/authority-core/src/http.rs:58-86 | a label passes exactly when it has 1 to 63 letters, digits or inner hyphens; otherwise the first broken rule is reported |
| Http.CanonicalHostExact | crates/authority-core/src/http.rs:35-89 | a host is accepted as a name exactly when that is a lower-case DNS name of at most 253 bytes, no IP literal, and the host spells it in any case with or without one final dot |
| Http.HostFaultExact | crates/authority-core/src/http.rs:37-56 | the faults of the whole name, in the order they are reported |
| Http.CanonicalHostIdempotent | crates/authority-core/src/http.rs:35-89 | canonicalizing a canonical host changes nothing |
| Http.UrlSegmentFaultExact | crates/authority-core/src/http.rs:453-487 | the chain of segment checks accepts exactly the `pchar` segments of section 3.3 of RFC 3986 other than dot segments |
| Http.UrlSegmentFaultFirst | crates/authority-core/src/http.rs:453-489 | the rule reported for a segment is the first of nine it breaks |
| Http.UrlParseRefuses | crates/authority-core/src/http.rs:222-265 | a refused URL path is reported with its first fault and the segment it is in |
| Http.ValidUrlExact | crates/authority-core/src/http.rs:222-265 | canonical URL paths have at most 64 segments and 4096 bytes and break no rule |
| Http.UrlPrintParse | crates/authority-core/src/http.rs:222-297 | parsing the printed form of a canonical URL path returns it |
| Http.UrlParsePrint | crates/authority-core/src/http.rs:222-297 | every accepted spelling is the printed form of what it parses to |
| Http.UrlBelowExact | crates/authority-core/src/http.rs:329-338 | `url_path_below` holds exactly when every valid URL path of the child is one of the parent, except for a dead-end prefix |
| Http.HttpBelowExact | crates/authority-core/src/http.rs:660-679 | `http_fetch_body_below` holds exactly when every fetch of the child is one of the parent, except for a child without methods that differs elsewhere and for a dead-end prefix |
| Github.BranchPrintParse | crates/authority-core/src/github.rs:121-194 | parsing the printed form of a branch returns it |
| Github.BranchParsePrint | crates/authority-core/src/github.rs:121-194 | every accepted branch text is the printed form of what it parses to |
| Github.BranchParseExact | crates/authority-core/src/github.rs:121-172 | a branch name is accepted exactly when neither its spelling nor a segment breaks a rule, and otherwise its first fault is reported |
| Github.SegmentFaultExact | crates/authority-core/src/github.rs:147-168 | what each of the five segment rules forbids, byte by byte, and which is reported |
| Github.SpellingFaultExact | crates/authority-core/src/github.rs:123-145 | what each of the eight rules for the whole spelling forbids, and which is reported |
| Github.BranchBelowExact | crates/authority-core/src/github.rs:226-234 | `branch_below` holds exactly when every valid branch of the child is one of the parent, except for the prefix `refs` under the exact branch `refs` |
| Github.RefsPrefixRefused | crates/authority-core/src/github.rs:226-234 | the exception is real: the prefix `refs` is contained in the exact branch `refs` and is refused |
| Github.GitHubBelowExact | crates/authority-core/src/github.rs:455-475 | `github_body_below` holds exactly when every request of the child is one of the parent, except for a child without operations that differs elsewhere and for a dead-end base or head |
| Capability.WindowSubsetExact | crates/authority-core/src/time.rs:71-80 | window containment is inclusion of instants |
| Capability.NewWindowExact | crates/authority-core/src/time.rs:40-55 | a window is constructed exactly when it contains some instant |
| Capability.AuthorityBelowExact | crates/authority-core/src/capability.rs:341-369 | `authority_body_below` holds exactly when every valid request of the child is one of the parent, across all three families, except for the gaps of the families and for empty bodies of another family |
| Capability.WeakerThanSound | crates/authority-core/src/capability.rs:373-387 | a request matched by the weaker capability is matched by the stronger one |
| Capability.WeakerThanExact | crates/authority-core/src/capability.rs:384-387 | `weaker_than` holds exactly when every valid request of the child at any time is one of the parent, except for the gaps of the bodies and for an empty body with a wider window |
| Capability.NewRequestSet | crates/authority-core/src/capability.rs:282-297 | the first sixteen requests are kept, in order, and the set is complete exactly when none was dropped |
| State.WalkExact | crates/authority-core/src/state.rs:852-872 | on any capability map, cyclic ones included, the visited-set walk accepts exactly the identities with a live chain to a root |
| StateInvariant.CursorBound | crates/authority-core/src/state.rs:1041-1064 | by pigeonhole, a cursor with every sequential identity below it issued is at most the number of issued identities |
| StateInvariant.ProbeFinds | crates/authority-core/src/state.rs:1041-1064 | the probe ends at or before the number of issued identities, on an unissued one, and everything below it is issued |
| StateInvariant.IssueFresh | crates/authority-core/src/state.rs:962-999 | the allocated identity was never issued before |
| StateInvariant.EpochBound | crates/authority-core/src/state.rs:942-960 | the epoch is at most revoked capabilities plus stopped subjects, so it can always advance |
| StateInvariant.ApplyValid | crates/authority-core/src/state.rs:504-848 | every transition, accepted or rejected, keeps the whole state invariant |
| StateInvariant.RunValid | crates/authority-core/src/state.rs:431-960 | the invariant holds after every run |
| StateTheorems.Attenuation | crates/authority-core/src/state.rs:701-739 | an authorized request matches every ancestor and lies in the static envelope of each ancestor's holder |
| StateTheorems.ActiveExact | crates/authority-core/src/state.rs:852-872 | in valid states the walk means: own window contains now and no ancestor is revoked |
| StateTheorems.RevokedChainInert | crates/authority-core/src/state.rs:880-911 | nothing derived from a revoked capability authorizes |
| StateTheorems.ApplyLater | crates/authority-core/src/state.rs:504-848 | one transition only moves forward in revocations, statuses, holdings and epoch |
| StateTheorems.EpochIsCacheKey | crates/authority-core/src/state.rs:229-258 | between two states of a run with equal epoch every earlier-issued capability gets the same answer; the epoch never decreases |
| StateTheorems.RevocationPermanent | crates/authority-core/src/state.rs:750-787 | no later state lets a revoked capability or a descendant authorize |
| StateTheorems.ShutdownPermanent | crates/authority-core/src/state.rs:801-848 | a stopped subject stays stopped, holds what it held, all revoked, and gains no handle |
| StateTheorems.ShutdownSilences | crates/authority-core/src/state.rs:801-848 | nothing it held, nor anything derived from it, ever authorizes again |
| StateTheorems.ClosedOwnsNothing | crates/authority-core/src/state.rs:829-848 | a closed subject has no open handle |
| StateTheorems.RejectedUnchanged | crates/authority-core/src/state.rs:504-848 | a rejected transition leaves the state as it was, and identity or epoch exhaustion is never the reason |
| StateTheorems.NewCapability | crates/authority-core/src/state.rs:649-739 | a capability appears only by an issuing transition, exactly as granted and inside its subject's envelope; a derived one only from a parent its running caller holds, active, delegable and no weaker |
| StateTheorems.NewRevocation | crates/authority-core/src/state.rs:750-820 | a capability is revoked only by revoking it, by its holder or the trusted host, or by closing its holder |
| StateTheorems.RunDelegable | crates/authority-core/src/state.rs:701-739 | over every run each parent of each capability is delegable |
| StateTheorems.ReachableValid | crates/authority-core/src/state.rs:448-464 | every state reached from a fresh one satisfies the invariant |
| StateTheorems.ReachableAttenuation | crates/authority-core/src/state.rs:701-739 | in every reachable state an authorized request matches every capability on the chain to the root and the envelope of its holder |
| StateTheorems.ReachableBounds | crates/authority-core/src/state.rs:942-1064 | in every reachable state chains are at most 64 long with delegable inner nodes, epoch and cursor are bounded by what happened, and closed subjects have no open handle |
| StateDecisions.Decisions | crates/authority-core/src/state.rs:504-848 | in valid states each of the ten transitions is rejected exactly when a listed reason holds, in terms of chains, windows, holders and counts, and the reason reported is the first of them |
| StateDecisions.DeriveAccepted | crates/authority-core/src/state.rs:701-739 | `derive` issues if and only if the caller runs and holds an unexpired, unrevoked, delegable parent fewer than 64 nodes from its root, the grant lies below it and in the envelope of a running holder, and fewer than 1048576 capabilities exist |
| StateDecisions.Footprint | crates/authority-core/src/state.rs:504-960 | a transition answers from the state it met and touches only what it names; the epoch advances by one exactly when a capability was revoked or a subject stopped |
| StateDecisions.AuthorizesExact | crates/authority-core/src/state.rs:880-911 | `authorizes` holds exactly for the caller's own capability, in its window, with no ancestor revoked and a matching authority |
| StateObject.CapabilityState.IsEffectivelyActive | crates/authority-core/src/state.rs:852-872 | the loop returns the recursive walk on every map |
| StateObject.CapabilityState.DelegationDepth | crates/authority-core/src/state.rs:1019-1039 | the bounded loop returns the depth of the chain, or the limit on a cycle |
| StateObject.CapabilityState.AllocateCapabilityId | crates/authority-core/src/state.rs:1041-1064 | the cursor loop returns the first free sequential identity |
| StateObject.CapabilityState.RegisterSubject | crates/authority-core/src/state.rs:504-526 | the object stays valid and decides and touches as the two theorems say; a registered subject is new, runs and holds nothing |
| StateObject.CapabilityState.IssueRoot | crates/authority-core/src/state.rs:649-652 | the object stays valid and decides and touches as the two theorems say; an issued root is new, as granted, held by its running subject and inside the envelope |
| StateObject.CapabilityState.IssueRootWithId | crates/authority-core/src/state.rs:671-686 | the same as issuing a root, under a host-chosen identity never issued before |
| StateObject.CapabilityState.RegisterOpenHandle | crates/authority-core/src/state.rs:575-590 | the object stays valid and decides and touches as the two theorems say; an opened handle has a new identity and a running owner |
| StateObject.CapabilityState.Derive | crates/authority-core/src/state.rs:701-739 | the object stays valid and decides and touches as the two theorems say; a derived capability is new, no stronger than a delegable active parent the caller holds, and inside the envelope |
| StateObject.CapabilityState.RevokeHeldBy | crates/authority-core/src/state.rs:771-787 | the object stays valid and decides and touches as the two theorems say; accepted exactly for the holder, and then nothing derived from the capability authorizes anything |
| StateObject.CapabilityState.BeginSubjectClose | crates/authority-core/src/state.rs:801-820 | the object stays valid and decides and touches as the two theorems say; a known subject is stopped and nothing it held or passed on authorizes anything |
| StateObject.CapabilityState.FinishSubjectClose | crates/authority-core/src/state.rs:829-848 | the object stays valid and decides and touches as the two theorems say; a subject is closed only without open handles |
| StateObject.CapabilityState.CloseHandle | crates/authority-core/src/state.rs:599-617 | the object stays valid and decides and touches as the two theorems say; accepted exactly for the owner, and then only that handle is gone |
| StateObject.CapabilityState.CheckAuthorizes | crates/authority-core/src/state.rs:903-911 | the query equals the specification predicate |
| AttemptCodec.AttemptRoundTrip | crates/authority-core/src/durable_audit.rs:1881-1913 | decoding an encoded attempt returns its metadata, for every complete request set of all three families |
| AttemptCodec.VersionOneAlias | crates/authority-core/src/durable_audit.rs:2091-2110 | the decoder is not injective: the version 1 form decodes to the same metadata and is not its encoding |
| AttemptDecoding.DecodedIsWellFormed | crates/authority-core/src/durable_audit.rs:2091-2223 | whatever the decoder accepts is a complete set of 1 to 16 requests whose typed fields their constructors accept, and is unchanged by writing and reading it again |
| AttemptDecoding.DecodeRefusesMore | crates/authority-core/src/durable_audit.rs:2091-2139 | no accepted payload is a proper prefix of another |
| PayloadBuffers.EncodeAttemptPayload | crates/authority-core/src/durable_audit.rs:1881-1913 | the buffer writer, which stops at the first oversized prefix, rejects exactly the oversized payloads and otherwise writes the encoding |
| PayloadBuffers.DecodeAttemptPayload | crates/authority-core/src/durable_audit.rs:2091-2139 | the cursor reader computes the decoding |
| PayloadBuffers.PayloadWriter.Segments | crates/authority-core/src/durable_audit.rs:1919-1955 | the segment loop writes count and texts, or fails only when the payload is over the limit |
| PayloadBuffers.PayloadReader.Segments | crates/authority-core/src/durable_audit.rs:2008-2018 | the segment loop reads back exactly the counted texts or fails |
| Journal.ComputeChecksum | crates/authority-core/src/durable_audit.rs:1830-1836 | the fold is FNV-1a with wrapping multiplication |
| Journal.NextFrame | crates/authority-core/src/durable_audit.rs:1524-1573 | reading in place at an offset equals reading the suffix, fault for fault |
| Journal.ParseJournal | crates/authority-core/src/durable_audit.rs:1507-1619 | the offset loop computes the recursive parse |
| JournalCodec.FinishRoundTrip | crates/authority-core/src/durable_audit.rs:1716-1806 | decoding an encoded terminal payload returns it |
| JournalCodec.FinishOnto | crates/authority-core/src/durable_audit.rs:1736-1806 | every accepted terminal payload is the encoding of what it decodes to |
| JournalCodec.ReconcileRoundTrip | crates/authority-core/src/durable_audit.rs:2029-2089 | decoding an encoded verdict returns it exactly when its token is not empty |
| JournalCodec.ReconcileOnto | crates/authority-core/src/durable_audit.rs:2051-2089 | every accepted verdict payload is the encoding of what it decodes to |
| JournalCodec.ReadPut | crates/authority-core/src/durable_audit.rs:1102-1115 | a written frame reads back whole, whatever follows it |
| JournalCodec.ParseAppend | crates/authority-core/src/durable_audit.rs:1521-1619 | parsing a journal and more bytes continues the parse from where the journal ends |
| JournalCodec.ParseLength | crates/authority-core/src/durable_audit.rs:1521-1526 | each sequence number costs at least forty bytes |
| JournalDamage.FnvStepInjective | crates/authority-core/src/durable_audit.rs:1830-1836 | one checksum round loses nothing, the multiplier being invertible modulo 2^64 |
| JournalDamage.ChecksumDamage | crates/authority-core/src/durable_audit.rs:1830-1836 | changing one byte always changes the checksum |
| JournalDamage.ChecksumVectors | crates/authority-core/src/durable_audit.rs:1830-1836 | the published FNV-1a values of the empty text and of `a` |
| JournalDamage.ParseCut | crates/authority-core/src/durable_audit.rs:1521-1573 | a valid journal cut anywhere is a shorter valid journal or a truncated record |
| JournalDamage.DamageDetected | crates/authority-core/src/durable_audit.rs:1521-1573 | changing any byte outside the length fields makes the parse fail |
| JournalDamage.TornTail | crates/authority-core/src/durable_audit.rs:1521-1573 | a journal followed by a non-empty proper prefix of its next frame is a truncated record |
| JournalHistory.ReadOnto | crates/authority-core/src/durable_audit.rs:1521-1573 | a frame that reads is, byte for byte, the frame that would be written |
| JournalHistory.ReplayExact | crates/authority-core/src/durable_audit.rs:1574-1640 | frames replay exactly when each attempt starts once, ends at most once after that and is reconciled at most once after an unknown end; the map says of each attempt what its frames say |
| JournalHistory.ParseExact | crates/authority-core/src/durable_audit.rs:1507-1619 | a journal parses if and only if it is the bytes of consecutively numbered frames telling such a history within the capacity |
| JournalLog.SyncedRefines | crates/authority-core/src/durable_audit.rs:913-1043 | after a successful call the bytes parse to the writer's map, or, after an empty reconciled token, to an error |
| JournalLog.ApplyValid | crates/authority-core/src/durable_audit.rs:1085-1150 | every call, accepted, rejected or torn, keeps the invariant unless it writes an empty token |
| JournalLog.RunValid | crates/authority-core/src/durable_audit.rs:913-1043 | the invariant holds after every run with non-empty reconciled tokens |
| JournalLog.WriterRefinesParser | crates/authority-core/src/durable_audit.rs:913-1150 | over every such run the disk of a usable log parses to exactly its map and next sequence, within capacity |
| JournalLog.NeverExhausted | crates/authority-core/src/durable_audit.rs:1061-1065 | the sequence is never exhausted |
| JournalLog.OpenExact | crates/authority-core/src/durable_audit.rs:801-832 | a usable log reopens to itself |
| JournalLog.CrashSafe | crates/authority-core/src/durable_audit.rs:1085-1150 | an append interrupted anywhere leaves bytes that open to exactly the log before, exactly the log after, or a truncated record |
| JournalLog.EmptyTokenExact | crates/authority-core/src/durable_audit.rs:1007-1043 | a successful call keeps the refinement if and only if it is not an empty reconciled token, after which no continuation of the run reopens |
| JournalLog.EmptyTokenReached | crates/authority-core/src/durable_audit.rs:2029-2075 | three successful calls on a fresh log that leave a journal no open accepts |
| JournalDecisions.ApplyEnds | crates/authority-core/src/durable_audit.rs:913-1150 | every call ends in one of seven ways, told beforehand by the call, the journal and the file system, with its error and everything it leaves behind |
| JournalDecisions.AcceptedExactly | crates/authority-core/src/durable_audit.rs:913-1150 | a call succeeds if and only if it is in order, its attempt is where it must be, it fits, and the file system syncs it on a usable log |
| JournalDecisions.ChangedTargetSeals | crates/authority-core/src/durable_audit.rs:1085-1100 | a target found changed seals the log: no byte is written, then or by any later call |
| JournalDecisions.SealedForever | crates/authority-core/src/durable_audit.rs:913-1043 | a sealed log never changes again |
| JournalDecisions.WriterChecksWhatReplayChecks | crates/authority-core/src/durable_audit.rs:926-1030 | the check before an append and the replay of its frame agree, answer for answer, outside the empty token |
| JournalObject.DurableLog.Open | crates/authority-core/src/durable_audit.rs:801-832 | opening yields a log whose state is the parse, and which satisfies the invariant |
| JournalObject.DurableLog.AppendFrame | crates/authority-core/src/durable_audit.rs:1085-1150 | the in-place append equals the specification, sealing and partial writes included |
| JournalObject.DurableLog.BeginAttempt | crates/authority-core/src/durable_audit.rs:913-953 | the in-place start equals the specification |
| JournalObject.DurableLog.FinishAttempt | crates/authority-core/src/durable_audit.rs:966-995 | the in-place finish equals the specification |
| JournalObject.DurableLog.ReconcileAttempt | crates/authority-core/src/durable_audit.rs:1007-1043 | the in-place reconciliation equals the specification |
| Audit.NextAttempt | crates/authority-core/src/durable_audit.rs:1052-1059 | the next identity is above every journalled one |
| Audit.FreshTrailExact | crates/authority-core/src/audit.rs:507-528 | a trail without recovery exists exactly for a usable journal with no attempts; otherwise the error lists them in order |
| Audit.StartValid | crates/authority-core/src/audit.rs:599-639 | a start keeps the trail in agreement with its journal; success leaves one durable `Started` record for exactly this request set, failure gives the identity back |
| Audit.StartNeverReplays | crates/authority-core/src/audit.rs:599-639 | a start is never reported as a replay |
| Audit.FinishValid | crates/authority-core/src/audit.rs:694-706 | a durable finish touches one record, keeps agreement, and undoes no terminal outcome |
| Audit.StoreValid | crates/authority-core/src/audit.rs:694-706 | the memory store that follows keeps agreement |
| Audit.EffectsExact | crates/authority-core/src/audit.rs:650-657 | effects are exactly the committed attempts, in start order, each once |
| AuditObject.AuditTrail.StartRequestSet | crates/authority-core/src/audit.rs:599-639 | the in-place start equals the specification |
| AuditObject.AuditTrail.Finish | crates/authority-core/src/audit.rs:694-706 | journal first, then memory |
| AuditObject.AuditTrail.Effects | crates/authority-core/src/audit.rs:650-657 | the loop computes the specification |
| AuditObject.AuditTrail.Recover | crates/authority-core/src/audit.rs:537-580 | the recovery loop equals the specification on log, trail and report |
| AuditObject.ReconcileUnknownCommits | crates/authority-core/src/audit.rs:168-205 | the reconciliation loop equals the specification on log and summary |
| Recovery.RecoverExact | crates/authority-core/src/audit.rs:537-580 | recovery never changes a terminal record, even when it fails; success closes exactly the dangling attempts, in order, under an instance above every inherited identity |
| Recovery.RecoverSucceeds | crates/authority-core/src/audit.rs:537-580 | recovery succeeds if and only if the journal is usable, the last identity was never used, and every closing is synced and fits; the other errors say which |
| Recovery.RecoverTwice | crates/authority-core/src/audit.rs:537-580 | an immediate second recovery writes nothing and reconciles nothing |
| Recovery.RecoverKeepsJournal | crates/authority-core/src/audit.rs:537-580 | recovery keeps the journal readable |
| Lifetimes.StepValid | crates/authority-core/src/audit.rs:507-580 | every start, finish, verdict or crash-and-restart keeps the cross-lifetime invariant |
| Lifetimes.RunValid | crates/authority-core/src/audit.rs:507-580 | over any history of lives and crashes no payload changes and no terminal outcome is undone |
| Lifetimes.LifetimesApart | crates/authority-core/src/audit.rs:537-545 | attempts of different lifetimes never carry the same state instance |
| Lifetimes.NothingInheritedStarted | crates/authority-core/src/audit.rs:546-563 | while a life runs nothing it inherited is still `Started` |
| Lifetimes.DecodedInstance | crates/authority-core/src/durable_audit.rs:2091-2110 | the instance spoken of is the one the decoder reports |
| Reconciliation.ReconcileExact | crates/authority-core/src/audit.rs:168-205 | reconciliation adds verdicts and nothing else, even when it fails part way; success records every answer and the summary lists exactly them |
| Reconciliation.ReconcileSucceeds | crates/authority-core/src/audit.rs:168-205 | reconciliation succeeds if and only if the journal is usable, every unresolved attempt decodes and is answered, and every verdict is in order, synced and fits |
| Reconciliation.ResolvingStops | crates/authority-core/src/audit.rs:168-205 | a failure comes from an unresolved attempt and says why |
| Reconciliation.ReconcileKeepsJournal | crates/authority-core/src/audit.rs:168-205 | without empty answers the journal stays readable at every point; after success it opens again if and only if no unresolved attempt was answered with an empty token |
| Kernel.PropagateRevocation | crates/authority-core/src/kernel.rs:430-448 | every observer runs, in order, even after a failure; the failure returned is the one of least index, and none exactly when none failed |
| Kernel.FirstFailureExact | crates/authority-core/src/kernel.rs:430-448 | no failure is reported exactly when every observer succeeded; otherwise the earliest failing one is |
| KernelObservers.PromisesStep | crates/authority-core/src/kernel.rs:430-448 | every step keeps what each revoking call owes its observers, and every return has paid it |
| KernelInvariant.LocksStep | crates/authority-core/src/kernel.rs:806-920 | no step puts a reader beside a writer, and the lock words name exactly the threads inside |
| KernelInvariant.ClearedStep | crates/authority-core/src/kernel.rs:813-857 | a thread past its check acts in a state that still authorizes its whole request set |
| KernelInvariant.AttemptsStep | crates/authority-core/src/kernel.rs:813-909 | each thread owns its own attempt, durably started for its request set at the current epoch, until its outcome is stored |
| KernelTruth.HonestStep | crates/authority-core/src/kernel.rs:857-909 | no step makes the durable record disagree with what happened outside |
| KernelTruth.SingleStep | crates/authority-core/src/kernel.rs:813-909 | no step gives an attempt a second executor call or a second landing |
| KernelTheorems.StepValid | crates/authority-core/src/kernel.rs:806-920 | every step of every thread keeps the whole kernel invariant |
| KernelTheorems.RunValid | crates/authority-core/src/kernel.rs:806-920 | in every interleaving terminal outcomes, in memory and on disk, are final, and the state only moves forward |
| KernelTheorems.CommitsAreAuthorized | crates/authority-core/src/kernel.rs:806-909 | every effect lands in a valid state that authorizes every request of its set |
| KernelTheorems.NoCommitAfterRevocation | crates/authority-core/src/kernel.rs:540-600 | no effect that lands after a revoking transition relies on the capability or any descendant |
| KernelTheorems.RevokingTransitions | crates/authority-core/src/state.rs:750-820 | what revoke and shutdown put into the revoked set, and that nothing else counts as revoking |
| KernelTheorems.RevokingExact | crates/authority-core/src/kernel.rs:509-600 | a transition counts as revoking exactly when it moves the epoch, that is when it revokes a capability or stops a subject; otherwise no answer about any existing capability changed |
| KernelTheorems.ObserversBeforeReturn | crates/authority-core/src/kernel.rs:540-600 | a call whose transition moved the epoch returns only after every observer registered then ran, once and in order, while the call held no lock, and reports the first failure; other transitions notify nobody |
| KernelTheorems.ObserverHeard | crates/authority-core/src/kernel.rs:430-448 | each such observer has its own lock-free notification between the transition and the return |
| KernelTheorems.ChangedAnswersAreHeard | crates/authority-core/src/kernel.rs:430-600 | when a transition takes back any answer about a capability, every observer registered then was notified before the call returned |
| KernelTheorems.RepliesAreTrue | crates/authority-core/src/kernel.rs:806-909 | in every interleaving each reply is true: success landed and is committed on record, a refusal never reached the executor and is denied on record, an unknown is on record with exactly its evidence, an unsaved reply left the attempt open |
| KernelReplies.RepliesStep | crates/authority-core/src/kernel.rs:806-909 | every step keeps what each thread needs to answer truly |
| KernelTheorems.Linearized | crates/authority-core/src/kernel.rs:806-920 | every interleaving is a sequential run: the state, and the state each call, landing and transition saw, is what the transitions before it make of the first state |
| KernelTheorems.OncePerAttempt | crates/authority-core/src/kernel.rs:813-909 | in every interleaving each attempt has at most one executor call and at most one landing |
| KernelTheorems.ExecutorCallsAreAudited | crates/authority-core/src/kernel.rs:813-859 | each executor call has a complete request set and follows an all-requests check and a durable `Started` record whose payload encodes exactly this set |
| KernelTheorems.RecordsAreTruthful | crates/authority-core/src/kernel.rs:857-909 | memory agrees with disk; an attempt recorded committed did land, one recorded denied or failed never did |
| KernelTheorems.TrailAgrees | crates/authority-core/src/audit.rs:599-657 | in every interleaving the next identity equals the journal's and effects are in start order |
| KernelTheorems.JournalKept | crates/authority-core/src/kernel.rs:806-920 | in every interleaving the journal invariant holds: a usable log parses to its own attempt map, and a sealed one up to the bytes it accounts for |
| KernelCalls.AuthorizedEffectLands | crates/authority-core/src/kernel.rs:806-881 | an undisturbed authorized effect with room in the journal lands in the state it was checked in, is committed in memory and journal with the executor's token or the kernel's own, and its caller is told so |
| KernelCalls.UnauthorizedEffectDenied | crates/authority-core/src/kernel.rs:831-856 | one not authorized as a whole never reaches the executor, is denied in memory and journal, and its caller is told so |
| KernelCalls.FailedEffectRecorded | crates/authority-core/src/kernel.rs:882-889 | one that failed before its commit is recorded as that, with nothing landed |
| KernelCalls.UnknownEffectRecorded | crates/authority-core/src/kernel.rs:890-909 | one of unknown commit, landed or not, is recorded with exactly the executor's evidence |
| KernelCalls.IncompleteRefused | crates/authority-core/src/kernel.rs:813-815 | an incomplete request set is refused with nothing recorded |
| KernelCalls.UnrecordedStartEnds | crates/authority-core/src/kernel.rs:821-829 | when the start cannot be recorded the call ends with nothing started, no executor call and the lock given back |
| KernelCalls.UnrecordedEndReported | crates/authority-core/src/kernel.rs:867-909 | when the end cannot be recorded the attempt stays open on record and the caller hears what the executor said |
| KernelCalls.UnfitEvidenceReturned | crates/authority-core/src/kernel.rs:890-898 | evidence that is empty or over 65536 bytes goes back to the caller, unrecorded |
| KernelCalls.TransitionCompletes | crates/authority-core/src/kernel.rs:540-600 | an undisturbed transition makes the state what the sequential operation makes it; if that moved the epoch every observer then runs, whatever each answers, and the first failure is returned |
| Deployment.StepValid | crates/authority-core/src/kernel.rs:387-400 | a move of any kernel thread, or a stop at any point followed by recovery, keeps the kernel invariant and the journal history invariant together |
| Deployment.RunValid | crates/authority-core/src/kernel.rs:387-400 | over any sequence of kernels, interleavings and crashes no payload changes and no terminal outcome is undone |
| Deployment.KernelsApart | crates/authority-core/src/audit.rs:537-545 | attempts recorded by different kernels on one journal never carry the same state instance |
| Deployment.KernelOwnsItsAttempts | crates/authority-core/src/audit.rs:537-580 | while a kernel runs its attempts carry its instance, nothing inherited does, and nothing inherited is still `Started` |
| Deployment.CommitsAreAuthorized | crates/authority-core/src/kernel.rs:806-909 | in any life, whatever landed did so in a state authorizing its whole request set |
| Policy.GatherExact | crates/authority-core/src/policy.rs:130-150 | the bitset folds set exactly the bits of the members |
| Policy.CanonicalInjective | crates/authority-core/src/policy.rs:32-40 | equal canonical bytes mean equal validity, delegability and authority |
| Policy.DigestBinds | crates/authority-core/src/policy.rs:32-40 | equal digests of different policies are a collision of the hash |
| Policy.CanonicalPolicy.ForRoot | crates/authority-core/src/policy.rs:32-40 | the buffer holds the canonical encoding |
| Policy.CanonicalPolicy.Authority | crates/authority-core/src/policy.rs:104-128 | the buffer gains exactly the encoding of the authority body |
| Policy.HexExact | crates/authority-core/src/policy.rs:48-75 | the printed text is the only text whose digits spell the bytes |
| Policy.PrintDigest | crates/authority-core/src/policy.rs:67-75 | the print loop computes the hexadecimal text |
| Policy.ParseDigest | crates/authority-core/src/policy.rs:48-57 | the parse loop succeeds exactly on the 64-digit lower-case text of 32 bytes, and returns them |
| Backing.ExternalAliasInodes | crates/capfs/src/backing.rs:1126-1149 | the counting loop lists, in order, exactly the inodes whose link count differs from their repository names |
| Backing.ExternalExact | crates/capfs/src/backing.rs:1120-1149 | on a scanned tree those are exactly the non-directory inodes named on both sides of the boundary |
| Backing.RepositoryNames | crates/capfs/src/backing.rs:1151-1156 | exactly the non-directory entries of the inode |
| Backing.RewiredHarmless | crates/capfs/src/backing.rs:1286-1347 | at every point of the repair each name reads as before and no two names were merged |
| Backing.RewiredRepairs | crates/capfs/src/backing.rs:1286-1347 | a finished repair keeps aliasing inside and leaves none across the boundary |
| Backing.Repository.CopyFirst | crates/capfs/src/backing.rs:1354-1450 | the copy has the old contents on a new inode, or nothing moved; the budget error comes exactly from a size above what remains, an I/O error only from a refused system call or a leftover temporary name |
| Backing.Repository.Relink | crates/capfs/src/backing.rs:1325-1338 | the other names move onto the copy one by one |
| Backing.Repository.Materialize | crates/capfs/src/backing.rs:1286-1347 | success: same contents, same aliasing inside, no external alias, outside untouched, exact report; failure: same contents, no merged names, and the budget error names the first inode that does not fit |
| Backing.Repository.ValidateTree | crates/capfs/src/backing.rs:1052-1075 | the manifest describes the final tree, which has no external alias, and the report lists every aliased inode; each error is explained: a refused call or leftover, aliases that do not fit together, or, under refusal, the least aliased inode with its link count and names |
| Backing.OverBudgetMeans | crates/capfs/src/backing.rs:1374-1382 | a budget error means the aliased inodes do not fit together |
| Backing.FirstAlias | crates/capfs/src/backing.rs:1158-1173 | the refusal describes the least aliased inode: its link count and exactly its repository names |
| Moves.PathRegistry.StagePathMoves | crates/capfs/src/backing.rs:944-979 | a checking pass then a moving pass equal the specification |
| Moves.PathRegistry.RestorePathMoves | crates/capfs/src/backing.rs:982-1004 | the rollback equals the specification and fails exactly where the source panics |
| Moves.ShiftExact | crates/capfs/src/backing.rs:974-977 | staging a batch in which no move starts where an earlier one arrived moves exactly the named paths |
| Moves.StageAccepts | crates/capfs/src/backing.rs:944-979 | a batch stages exactly when every move starts from a path registered with its inode and runs into no other; otherwise the first that does not is blamed |
| Moves.RestoreExact | crates/capfs/src/backing.rs:982-1004 | on any registry the rollback panics unless destinations are distinct and registered with their inodes and no source is taken by another inode; then destinations are gone and sources back |
| Moves.StageRestores | crates/capfs/src/backing.rs:944-1004 | a refused batch changes nothing; a staged one is undone exactly if and only if destinations are distinct, no move starts where an earlier one arrived, and every registered destination is moved away by the batch |
| Moves.StageRollsBack | crates/capfs/src/backing.rs:944-1004 | what the rollback of an unchained batch gives: the registry without the destinations it held and did not move |
| Moves.RollbackPanics | crates/capfs/src/backing.rs:982-1004 | a shared destination, or a move from where an earlier one arrived, makes the rollback panic |
| Moves.RollbackLosesALink | crates/capfs/src/backing.rs:944-1004 | a failing input: renaming onto another name of the same inode stages and its rollback loses that name |
| Moves.RollbackPanicsOnShared | crates/capfs/src/backing.rs:944-1004 | a panicking input: two links of one inode moved to one new name |
| Moves.ChainRestores | crates/capfs/src/backing.rs:944-1004 | a registered destination that the batch has moved away does no harm |
| Moves.RebasedDistinct | crates/authority-core/src/path.rs:145-164 | the moves of a subtree rename have pairwise distinct destinations |
| Moves.RebasedSubtree | crates/authority-core/src/path.rs:145-164 | between directories apart from each other a staged subtree rename is undone exactly if and only if no destination was registered; with nothing registered at or below the new name it always stages |
| NodeTable.Table.Remember | crates/capfs/src/node.rs:231-251 | the table stays valid and follows its history; the object resolves under the returned identity and conversely; a rejection leaves no trace |
| NodeTable.Table.ForgetNode | crates/capfs/src/node.rs:311-346 | the table stays valid and follows its history; accepted exactly within the references held, and stale exactly with the last one |
| NodeTable.Table.AllocateNode | crates/capfs/src/node.rs:172-186 | a binding is made only for an unbound object, under an identity that never existed before |
| NodeTable.LookupMeans | crates/capfs/src/node.rs:231-251 | the returned identity and the object are each other's image, a new object gets the next never-used identity with one reference, an old one gains exactly one, and no other binding moves |
| NodeTable.LookupAccepted | crates/capfs/src/node.rs:231-251 | a lookup is refused only for the last node identity or the last reference of a node |
| NodeTable.DisagreementReported | crates/capfs/src/node.rs:172-346 | on any table, valid or not, a disagreement of the two indexes is reported exactly where a call runs into it |
| NodeTable.ForgetMeans | crates/capfs/src/node.rs:311-346 | accepted exactly within the references held, stale exactly with the last one, with the outcome or error that says so, and no other node changes |
| NodeTable.LookupValid | crates/capfs/src/node.rs:231-251 | a lookup keeps the indexes inverse, the root pinned and every count equal to lookups minus forgets |
| NodeTable.DropValid | crates/capfs/src/node.rs:311-346 | a forget keeps the same invariant |
| NodeTable.RunValid | crates/capfs/src/node.rs:159-346 | the invariant holds after every run, and retired identities stay retired |
| NodeTable.NeverRebound | crates/capfs/src/node.rs:259-261 | a node identity never resolves to two objects, and once stale stays stale |
| NodeTable.RejectedUnchanged | crates/capfs/src/node.rs:159-346 | a rejected call changes nothing and no call ever finds the indexes in disagreement |

## Left out

- AttemptCodec.AttemptRoundTrip: encode then decode only; the decoder also accepts version 1 payloads, lower-cases hosts and re-splits joined segments, so decode then encode is not an identity (AttemptCodec.VersionOneAlias).
- JournalDamage.DamageDetected: the four length bytes of a frame are excluded, because a changed length moves the checksum to other bytes.
- Policy.DigestBinds: SHA-256 is a function parameter, so the digest itself is only related to its input.
- Http.NewHost: IP literals are recognised by a function parameter standing for the standard library parser.
- Backing.Repository.Materialize: contents do not change while they are copied, permission bits and timestamps are not modelled, and temporary names are a map of their own, so one that a failure leaves behind does not show as an extra repository name.
- Backing.Repository.ValidateTree: the scan is one pass over an unchanging tree, its entry, depth and kind limits and the sorted order of the manifest are not modelled.
- KernelTheorems.RecordsAreTruthful: together with RepliesAreTrue relies on the executor's documented obligation to classify by its own linearization point.
- Lock poisoning, error text, and the error a transition's caller receives beside the state outcome.
- The read-only inspection callback and epoch query of the kernel, which take shared access and change nothing.
- Opening, ownership, permission and locking checks of the journal file; they appear only as a refused append.
- The sizes reported in an oversized attempt error.
- The broker, the session transport, the namespace registry and the other crates.
