# Etzio: integrity, evidence and recovery, verified in Dafny

A model of the protocol core of Etzio and proofs about it. Etzio keeps mission history as
hash-chained events, publishes heads into an RFC 9162 Merkle log, lets an integrity authority
decide and checkpoint every transition, and admits authority, artifacts and verifier receipts
against retained evidence. `dafny verify dfyconfig.toml` checks the whole project.

| files | component |
|---|---|
| `Bits`, `MerkleTree`, `MerkleVerify`, `MerkleFrontier` | Merkle trees, the two proof checkers, the compact append state |
| `Integrity`, `IntegrityConditions`, `IntegrityRuns` | decision / checkpoint / revocation checks, exactly when they accept, and whole runs of accepted steps |
| `Interleavings`, `RecoveryFence` | schedules of two chains, and the race of an old writer with a recovering one |
| `ArtifactResolution` | the resolve command against a shared log under optimistic concurrency |
| `EvidencePut` | concurrent no-clobber publication of content-addressed files |
| `VerificationArtifacts`, `CasResolution`, `VerifierReceipts` | artifact resolutions, their byte budgets, receipt authentication |
| `Authority` | live admission and the self-verifying admission record |
| `Common` | shared identifiers, results, canonical lists |

The main results:

- **Merkle log.** The bottom-up, index-shifting checkers compute exactly the top-down
  recomputation of the roots. Every generated proof is accepted. Every accepted proof under the
  true head is the generated one, for the true leaf or the true earlier head, unless two
  different pairs of children have one node hash; and a client's whole chain of accepted heads
  consists of heads of true prefixes. A state grown by `append` is the binary decomposition of
  the full tree, its proofs are the RFC's, and reconstruction from a last leaf cannot fail once
  the proof is accepted.
- **Checkpoint runs.** Checks that look at one transition give, over every run: global sequence
  numbers without gap, each mission's hash chain back to genesis, total time order, monotone
  revocation views and floors, head floors that only name the run's own heads, and one history
  per final checkpoint identity and per floor head. Equal-version revocation floors always name
  one snapshot; that they also agree on the root is false, with an accepted run as
  counterexample and the exact condition.
- **Recovery fence.** For every policy, number of reads and schedule, the replay and the
  positional formula agree, and the reachable violations are exactly the missing fences'.
- **Concurrency.** At most one resolution per lease, every returning call names it, and a call
  at another time never returns. Published files never change and are never torn, every
  descriptor a put opens gets exactly one close call, and a put's temporary name outlives it
  only when its own cleanup call failed. Every resolution a call appended was admissible on
  exactly the log before it. Undisturbed calls return, calls that lost the race return the
  winner's resolution, and puts whose calls succeed succeed.
- **Admission, budgets, receipts.** Live admission and historical record agree both ways, up to
  the codec's ceilings, whose effect is stated exactly; the late budget rejections are dead
  code; an eligible receipt is strictly staged in time and its artifacts are pairwise different.
- **Exact conditions.** Each decision of the code (both proof checkers, checkpoint advance and
  binding, revocation advance, resolve, admission, artifact resolution, receipt authentication)
  accepts if and only if a condition written on the input's own fields and lists holds, and
  each refusal reason is shown to be the case.

Hash functions, signatures, envelope codecs and the event reducer are parameters, so every
statement holds for all of them. Where collision freedom matters, the conclusion reads "or there
is a collision". The sources' exceptions are result values or predicates that do not hold.
`hide` statements only keep definitions out of the solver's way.

## Model

| member | source | states |
|---|---|---|
| Bits.SplitFromBits | etzio/kernel/head_authority_adapters_v1.py:532-533 | the code's bit expression is the largest power of two below the size |
| MerkleVerify.VerifyInclusion | etzio/kernel/head_authority_adapters_v1.py:616-674 | the bottom-up loop gives, for every input, the verdict of top-down recomputation, with each refusal |
| MerkleVerify.VerifyConsistency | etzio/kernel/head_authority_adapters_v1.py:677-775 | the shift-and-walk algorithm gives, for every input, the verdict of recomputing both heads top-down |
| MerkleVerify.LevelUp | etzio/kernel/head_authority_adapters_v1.py:645-664 | halving the indices consumes one sibling, or none for a node without sibling, and leaves both heads unchanged |
| MerkleVerify.ClimbLength | etzio/kernel/head_authority_adapters_v1.py:624-629 | an inclusion proof is refused as too long or too short exactly when the geometry asks for another length |
| MerkleVerify.ExtendLength | etzio/kernel/head_authority_adapters_v1.py:745-765 | the same for consistency proofs |
| MerkleVerify.InclusionExactly | etzio/kernel/head_authority_adapters_v1.py:616-674 | which inputs each verdict of the inclusion checker stands for, lengths by the tree's geometry |
| MerkleVerify.ConsistencyExactly | etzio/kernel/head_authority_adapters_v1.py:677-775 | the same for the consistency checker, with the order of the two root comparisons |
| MerkleVerify.InclusionComplete | etzio/kernel/head_authority_adapters_v1.py:552-572 | every generated audit path of a tree up to 2^64 leaves is accepted |
| MerkleVerify.ConsistencyComplete | etzio/kernel/head_authority_adapters_v1.py:575-607 | every generated consistency proof of a tree up to 2^63 leaves is accepted between prefix head and tree head |
| MerkleVerify.InclusionSound | etzio/kernel/head_authority_adapters_v1.py:616-674 | acceptance under the true head means the true leaf and the true path, or a hash collision |
| MerkleVerify.ConsistencySound | etzio/kernel/head_authority_adapters_v1.py:677-775 | acceptance under the true new head pins the old head to the true prefix's head, or there is a hash collision |
| MerkleVerify.RetainedHeadsSound | etzio/kernel/head_authority_adapters_v1.py:677-775 | a chain of heads, each accepted after the one before, that ends in the true head consists of heads of true prefixes, or there is a hash collision |
| MerkleTree.PathLengthBound | etzio/kernel/head_authority_adapters_v1.py:642-643 | a tree of at most 2^j leaves needs at most j path nodes, so the node ceiling never bites |
| MerkleTree.SubProofLengthBound | etzio/kernel/head_authority_adapters_v1.py:703-704 | and at most j + 1 consistency nodes |
| MerkleFrontier.PeakSizesDecompose | etzio/kernel/merkle_frontier_v1.py:18-33 | the subtree sizes are strictly falling powers of two, one per set bit, adding up to the tree size |
| MerkleFrontier.PeaksAreBlockRoots | etzio/kernel/merkle_frontier_v1.py:18-33 | the i-th peak is the Merkle root of the i-th block of leaves |
| MerkleFrontier.RootHash | etzio/kernel/merkle_frontier_v1.py:35-40 | folding the peaks gives the recursive tree head of whatever leaves the state represents |
| MerkleFrontier.Append | etzio/kernel/merkle_frontier_v1.py:63-84 | the carry loop yields the state of the tree with one more leaf; its proofs are PATH and PROOF of RFC 9162; refusal only at the ceiling |
| MerkleFrontier.CarriedIsPeaks | etzio/kernel/merkle_frontier_v1.py:77-83 | merging peaks while the size is odd gives the peaks of the larger tree |
| MerkleFrontier.GrownStateIsTree | etzio/kernel/merkle_frontier_v1.py:77-84 | a state grown leaf by leaf is the full tree's decomposition and has its root |
| MerkleFrontier.AppendedProofsVerify | etzio/kernel/merkle_frontier_v1.py:72-76 | both checkers accept what append hands out, between the old and the new root |
| MerkleFrontier.FromLastLeaf | etzio/kernel/merkle_frontier_v1.py:42-61 | after an accepted proof neither the peak count nor the root comparison can fail; the state is the tree's or there is a collision |
| MerkleFrontier.RebuiltFoldsToRoot | etzio/kernel/merkle_frontier_v1.py:54-60 | any accepted last-leaf proof, honest or not, rebuilds one peak per set bit that fold to the accepted root |
| MerkleFrontier.RebuiltIsPeaks | etzio/kernel/merkle_frontier_v1.py:54-58 | the true last-leaf proof rebuilds exactly the successor state |
| Integrity.RejectionsExhaustive | etzio/integrity_v1.py:3701-3809 | given the floor's constructor invariants neither the final fall-through raise nor the mission gap and branch checks, which the predecessor checks before them imply, can fire |
| Integrity.ForkExclusion | etzio/integrity_v1.py:3654-3755 | an accepted checkpoint is the one the floor names, or extends exactly the floor's global and mission heads, one sequence further in both |
| IntegrityConditions.AdvanceExactly | etzio/integrity_v1.py:3516-3755 | a checkpoint is accepted exactly when it extends both predecessors under its decision and the floor is the catalog state just before it or just after it |
| IntegrityConditions.AcceptedAfterPublication | etzio/integrity_v1.py:3748-3755 | a checkpoint accepted once is accepted again once the catalog names it |
| IntegrityConditions.FloorReasons | etzio/integrity_v1.py:3757-3809 | which other floors are ahead, behind, inconsistent or equivocating, by their numbers and halves alone |
| IntegrityConditions.ContinuityReasons | etzio/integrity_v1.py:3565-3720 | every refusal before the floor names something that is the case |
| IntegrityConditions.FinalExactly | etzio/integrity_v1.py:3812-3863 | final is exactly the checkpoint whose published state the floor is |
| IntegrityConditions.BindingExactly | etzio/integrity_v1.py:3332-3513 | the binding is accepted exactly for the one event that decision and checkpoint determine, on top of the mission's head |
| IntegrityConditions.ViewsLookup | etzio/integrity_v1.py:3059-3061 | the dictionary of a canonical list of views has exactly its entries |
| IntegrityConditions.FloorsLookup | etzio/integrity_v1.py:3056-3058 | so has that of the external floors |
| IntegrityConditions.RevocationExactly | etzio/integrity_v1.py:2899-3161 | revocation views are accepted exactly when each has its own floor at or below it and every earlier view is carried on by one of them |
| Integrity.FinalityUnique | etzio/integrity_v1.py:3812-3863 | one external floor makes at most one checkpoint final |
| Integrity.DeadlineAnswers | etzio/integrity_v1.py:2879-2896 | an answer holds for every instant the interval allows, and there is one whenever all those instants agree |
| IntegrityConditions.CheckpointExactly | etzio/integrity_v1.py:620-735 | which checkpoints construct: identity from content, numbers and times in range, predecessors properly named |
| IntegrityConditions.DecisionExactly | etzio/integrity_v1.py:306-410 | which decisions construct, with their views current throughout the interval |
| IntegrityConditions.HeadFloorExactly | etzio/integrity_v1.py:1866-1943 | which head floors construct |
| IntegrityRuns.GlobalChain | etzio/integrity_v1.py:3650-3689 | the i-th checkpoint of a run has sequence i, one scope, and names its predecessor exactly, back to genesis |
| IntegrityRuns.StepExactly | etzio/integrity_v1.py:3332-3755 | after an accepted history, exactly which transition, event, floors and views are accepted next |
| IntegrityRuns.MissionChain | etzio/integrity_v1.py:3368-3416 | each mission's events are numbered 0, 1, 2, ..., chained by digest to genesis, under one authority and target |
| IntegrityRuns.TimeOrder | etzio/integrity_v1.py:3361-3365 | intervals of earlier steps end before later ones begin, across missions, so event times never decrease |
| IntegrityRuns.DeadlinesStayPassed | etzio/integrity_v1.py:4604-4612 | a deadline once classified as passed is passed for every later accepted decision |
| IntegrityRuns.ViewsMonotone | etzio/integrity_v1.py:3089-3114 | every view of a decision has a successor in every later decision's list: no lower root or version, the same view at the same version |
| IntegrityRuns.FloorsMonotone | etzio/integrity_v1.py:3115-3161 | every external floor has a successor in every later step's list that is no lower and never renames a version's snapshot, although no check compares two floors |
| IntegrityRuns.FloorRootsAgree | etzio/integrity_v1.py:3144-3161 | floors of one version agree on the root exactly when the earlier view's root is its floor's |
| IntegrityRuns.FloorRootsMayDiffer | etzio/integrity_v1.py:3144-3161 | an accepted run in which they do not, for every naming whose first checkpoint id is no genesis id |
| IntegrityRuns.HeadFloorsMonotone | etzio/integrity_v1.py:3722-3755 | head floors never go back and two at one sequence name one checkpoint |
| IntegrityRuns.MissionFloorsMonotone | etzio/integrity_v1.py:3722-3755 | nor do the mission heads of one mission's floors, and two at one event number name one checkpoint |
| IntegrityRuns.MissionOrder | etzio/integrity_v1.py:3368-3416 | one mission's events are numbered in the order of the run, and the next one names the one before it |
| IntegrityRuns.HeadDeterminesHistory | etzio/integrity_v1.py:3663-3689 | two accepted runs ending in one checkpoint identity have the same history, or identities collide |
| IntegrityRuns.FloorDeterminesHistory | etzio/integrity_v1.py:3722-3755 | two runs once held to floors with the same head share their history up to it, whatever they did afterwards, or identities collide |
| Interleavings.ScheduleInterleaves | scripts/replay_recovery_fence_experiment.py:26-34 | everything enumerated is an order-preserving interleaving |
| Interleavings.InterleavingScheduled | scripts/replay_recovery_fence_experiment.py:26-34 | every order-preserving interleaving is enumerated |
| Interleavings.ScheduleCount | scripts/replay_recovery_fence_experiment.py:26-34 | the number of schedules is the binomial coefficient |
| Interleavings.RepeatsExactly | scripts/replay_recovery_fence_experiment.py:26-34 | the enumeration has no repeats exactly when the chains share no event |
| RecoveryFence.Simulate | scripts/replay_recovery_fence_experiment.py:42-95 | the loop over local variables is the fold of the single actions, with its refusal and its step record |
| RecoveryFence.CalculationsAgree | scripts/replay_recovery_fence_experiment.py:98-118 | replay and positional formula agree on publication, commit, effect, cut and violations on every schedule, and positions determine the final ledger |
| RecoveryFence.TraceAgrees | scripts/replay_recovery_fence_experiment.py:91-95 | every line of the step record, acceptance and epoch, is what the positions say |
| RecoveryFence.ViolationShows | scripts/replay_recovery_fence_experiment.py:138-150 | the record up to a violation's action ends in that action, accepted after the fence |
| RecoveryFence.ViolationsExactly | scripts/replay_recovery_fence_experiment.py:163-174 | a violation is reachable exactly when its fence is missing, whatever the number of reads |
| RecoveryFence.OldWriterCanFinish | scripts/replay_recovery_fence_experiment.py:172-174 | under every policy some schedule lets publication, commit and effect succeed without violation |
| RecoveryFence.SchedulesCounted | scripts/replay_recovery_fence_experiment.py:37-39 | each schedule occurs once and there are (reads + 7) choose 3 |
| ArtifactResolution.ExistingResolution | etzio/kernel/artifact_resolution.py:226-241 | the scan finds none, the only one, or refuses two |
| ArtifactResolution.ExistingMeans | etzio/kernel/artifact_resolution.py:226-241 | what the three answers say about the log |
| ArtifactResolution.LeaseOfMeans | etzio/kernel/artifact_resolution.py:192-203 | the lease found is the first retained one of that id |
| ArtifactResolution.PreparedExactly | etzio/kernel/artifact_resolution.py:495-571 | a resolution is prepared exactly when it is admissible on the loaded log, within its lease's window, and the head is the expected one |
| ArtifactResolution.LoadReplays | etzio/kernel/artifact_resolution.py:515-522 | a resolved lease is replayed at its own time and conflicts at another |
| ArtifactResolution.LoadReasons | etzio/kernel/artifact_resolution.py:495-560 | every refusal of the first load names something that is the case |
| ArtifactResolution.StaleExactly | etzio/kernel/artifact_resolution.py:579-593 | after a lost race the retained resolution is replayed, conflicts, or the head is just stale |
| ArtifactResolution.AppendOk | etzio/kernel/artifact_resolution.py:572-578 | an append that passes the head comparison is onto exactly the checked log, or event digests collide |
| ArtifactResolution.RunKeeps | etzio/kernel/artifact_resolution.py:469-619 | the protocol invariant holds in every state of every interleaving, also when an append takes effect and fails all the same |
| ArtifactResolution.OutcomesPossible | etzio/kernel/artifact_resolution.py:572-579 | a prepared call may meet a stale head or an append that fails, without effect or in spite of it |
| ArtifactResolution.OneResolutionPerLease | etzio/kernel/artifact_resolution.py:515-522 | the log never holds two resolutions for one lease |
| ArtifactResolution.ResolutionsAdmissible | etzio/kernel/artifact_resolution.py:495-578 | in every interleaving each resolution a call appended was admissible on exactly the log before it |
| ArtifactResolution.RacedCallReturns | etzio/kernel/artifact_resolution.py:579-593 | in every run a call that lost the race returns the resolution its lease got at the call's own time |
| ArtifactResolution.ReturnedIsRetained | etzio/kernel/artifact_resolution.py:580-619 | what a call returned is then and ever after its lease's only resolution |
| ArtifactResolution.ReturnsAgree | etzio/kernel/artifact_resolution.py:449-466 | any two returning calls for one lease return the same event at the same time |
| ArtifactResolution.OneFreshReturn | etzio/kernel/artifact_resolution.py:594-619 | at most one of them reports a fresh resolution |
| ArtifactResolution.OtherTimeNeverReturns | etzio/kernel/artifact_resolution.py:456-460 | a call for a lease resolved at another time never returns |
| ArtifactResolution.UndisturbedReturns | etzio/kernel/artifact_resolution.py:537-619 | in every run, a call whose load passed, whose log nobody else extends and whose append does not fail is never refused and returns with its second step: exactly its event is appended to the checked log and returned as fresh |
| ArtifactResolution.UndisturbedMoves | etzio/kernel/artifact_resolution.py:572-619 | until it has returned, such a call has that next step to take |
| EvidencePut.ReadDescriptorExact | etzio/evidence.py:333-360 | on a file that may change between any two calls: the bytes returned are the file's whenever its metadata tell of changes; refused exactly when too long if it does not change |
| EvidencePut.GrowthTells | etzio/evidence.py:355-359 | a file that only grows tells by its size, so a read that overlaps growth is refused |
| EvidencePut.StepKeeps | etzio/evidence.py:473-562 | every system call of every put, successful or failing, keeps the invariant |
| EvidencePut.ArtifactsStay | etzio/evidence.py:524-540 | a published artifact never changes |
| EvidencePut.NoTornArtifact | etzio/evidence.py:511-529 | no partial and no new oversize file is ever visible under an artifact name |
| EvidencePut.SuccessLasts | etzio/evidence.py:541-547 | after a successful put, bytes that hash to its digest stay under its name |
| EvidencePut.PresentNotRewritten | etzio/evidence.py:492-505 | a put that finds its artifact present never has a temporary name, in any run |
| EvidencePut.ClosedOnce | etzio/evidence.py:481-562 | descriptors of root, shard, temporary file and reads still to be closed are the put's own; after any exit each has had exactly one close call |
| EvidencePut.ClosesOwn | etzio/evidence.py:517-561 | each close call of a run, even one that fails, is on a descriptor still the put's own, which the put never closes again |
| EvidencePut.NoTemporaryLeft | etzio/evidence.py:548-558 | in every state a new temporary name belongs to a put that still has it or whose own cleanup call failed |
| EvidencePut.TemporaryHandled | etzio/evidence.py:548-558 | each put's temporary name is gone by its own exit unless its own cleanup call failed, whatever other puts do |
| EvidencePut.UnfailingPutSucceeds | etzio/evidence.py:473-562 | a put whose calls succeed never refuses, with any partial writes and any other puts, if its name has one content: on exit exactly its data is there |
| EvidencePut.StepDescends | etzio/evidence.py:508-515 | every step of a put, failing or not, uses up one of a bounded number of steps |
| EvidencePut.PutFinishes | etzio/evidence.py:473-562 | from every state of every run such a put can finish by itself within that bound, successfully |
| EvidencePut.CallsMayFail | etzio/evidence.py:473-558 | every one of the put's other calls may fail, and where that takes it |
| EvidencePut.ClosesMayFail | etzio/evidence.py:517-561 | every close call may fail, having released its descriptor or not |
| EvidencePut.OthersMayFail | etzio/evidence.py:524-558 | so may the shard's inspection, a rename that took place, and the removal of the temporary name |
| CasResolution.ResolveFromCas | etzio/kernel/artifact_resolution.py:289-446 | the exact condition for issuing; an issued resolution binds lease and snapshot exactly and fits grant, typed and overall ceilings; the late ceiling rejections never happen |
| CasResolution.CheckManifest | etzio/evidence.py:859-870 | the loop accepts exactly when metadata and bytes of every file match the manifest |
| CasResolution.BindInputs | etzio/kernel/artifact_resolution.py:403-414 | one binding per digest, sizes adding up to the bytes read, refused exactly on an empty or oversized input |
| CasResolution.LeaseExactly | etzio/verification.py:1594-1628 | a lease constructs exactly when its window is one and its inputs are such as a resolution can bind |
| CasResolution.SnapshotExactly | etzio/evidence.py:683-700 | a snapshot constructs exactly for one to 256 files in path order of 64 MiB together |
| VerificationArtifacts.ProblemExactly | etzio/verification_artifacts.py:386-505 | a resolution constructs exactly when it is dated, listed in order, in role, apart and within both ceilings |
| VerificationArtifacts.ValidExactly | etzio/verification_artifacts.py:109-200 | with its bindings it is valid exactly when also no input is empty and no target oversize |
| VerificationArtifacts.ProblemReasons | etzio/verification_artifacts.py:386-505 | every refusal names something that is the case |
| VerifierReceipts.EligibleReceiptComposes | etzio/verification.py:1109-1352 | issued <= resolved < completed <= decided < expired; inputs, outputs and target digests all differ; receipt, lease and resolution name the same inputs |
| VerifierReceipts.AuthenticatesExactly | etzio/verification.py:1070-1255 | a receipt is authenticated exactly when it stands on its own, an unrevoked trusted verifier key of its verifier signed it, it answers the unrevoked lease with the resolution's inputs, verdict and observations fit, and the times are staged |
| VerifierReceipts.RefusalReasons | etzio/verification.py:1095-1352 | every refusal names something that is the case |
| VerifierReceipts.TimeReasons | etzio/verification.py:1201-1215 | a receipt's time is refused for the first of three reasons that applies |
| VerifierReceipts.RecheckNeverFails | etzio/verification.py:886-933 | the re-check in the result's constructor refuses nothing that authentication passed |
| Authority.SnapshotBody | etzio/authority.py:436-454 | the loops build the snapshot of sorted lists |
| Authority.SnapshotRoundTrip | etzio/authority.py:606-656 | a canonical snapshot is the snapshot of the store it embeds |
| Authority.StoreRoundTrip | etzio/authority.py:436-454 | a store's snapshot is canonical and embeds that store |
| Authority.AdmittedRecordConstructs | etzio/authority.py:481-509 | every live admission yields a record that constructs |
| Authority.RequiredExactly | etzio/authority.py:957-968 | a request is well-formed exactly when it names permitted actions, none twice |
| Authority.AdmitsExactly | etzio/authority.py:766-850 | a grant is admitted exactly when an unrevoked operator key signed it and it covers the request, and the record is determined |
| Authority.RefusalReasons | etzio/authority.py:785-832 | every refusal names something that is the case |
| Authority.RaisesExactly | etzio/authority.py:523-538 | a grant that passes every check still ends in the codec's error exactly when a key of the store has too many roles or issuers to write down, or another codec ceiling is hit |
| Authority.ChecksMayPassWithoutRecord | etzio/authority.py:341-376 | a valid store and grant for which that happens |
| Authority.RecordReplays | etzio/authority.py:659-709 | every record that constructs is admitted again from its own contents and rebuilt identically |

## Left out

- Authority.RaisesExactly: the codec's ceilings on nodes, strings and bytes are one parameter; only its array ceiling is spelled out.
- Canonical JSON, envelopes, Ed25519, SHA-256 and Base64: parameters of the model.
- Shape checks on identifiers, digests, field sets and evidence references: settled by one branch each; a checkpoint body carries its evidence as one opaque value.
- Re-authentication of decisions and checkpoints against trust stores: steps carry authenticated values.
- Identifiers are natural numbers; only their identity and order are used.
- The event reducer: predicates on logs; other commands may append any event that is not a resolution.
- The SQLite store: its port contract only (load, and append when the head is the expected one).
- ArtifactResolution.RunKeeps: the command is a state machine of three atomic steps, since calls interleave; `_resolve_from_cas` inside it is an arbitrary outcome.
- EvidencePut.StepKeeps: the put is a state machine of calls, since puts interleave; the chunks of one read are one step, as artifacts never change; no token is drawn that some put still has to remove; file modes, ownership and hard links are not modelled.
- VerifierReceipts.EligibleReceiptComposes: re-reading the artifacts from the store is one boolean outcome.
- The counters of `explore` are not kept.
- `retain_snapshot` and the reading of fixtures from the package tree: only the snapshot's constructor ceilings are used.
- Legacy loop, engines, harness, scanners, command line, platform collectors and third-party inspectors.
