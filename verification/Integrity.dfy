/**
 The integrity decision and head-checkpoint checks of etzio/integrity_v1.py. Each
 check looks at one transition; IntegrityRuns.dfy draws the consequences for runs.
 Identifiers are opaque ordered tokens. Values arrive authenticated.
 */
module Integrity {
  import opened Common

  const MAX_REVOCATION_VIEWS: nat := 16

  // ----- values -----

  /** A checkpoint as its successors name it; a genesis carries no provenance. */
  datatype HeadRef = HeadRef(id: Id, attestation: Option<Id>, principal: Option<Id>, trust: Option<Id>)

  datatype Interval = Interval(lower: int, upper: int)

  datatype View = View(namespace: Id, root: int, version: int, snapshot: Id, evidence: Id,
                       validFrom: int, validUntil: int)

  datatype RevocationFloor = RevocationFloor(service: Id, environment: Id, policy: Id, namespace: Id,
                                             root: int, version: int, snapshot: Id)

  datatype Decision = Decision(
    id: Id, service: Id, environment: Id, mission: Id, authority: Id, target: Id,
    priorSequence: int, prior: HeadRef, priorEventSeq: int, priorEventDigest: Id,
    kind: Id, proposedEvent: Id, time: Interval, timePolicy: Id, policy: Id, views: seq<View>)

  /** `evidence` stands for the time and anchor evidence, which no check here looks into. */
  datatype Body = Body(
    service: Id, environment: Id, sequence: int, previous: HeadRef, previousMission: HeadRef,
    mission: Id, authority: Id, target: Id, eventSeq: int, eventDigest: Id,
    decision: Id, decisionAttestation: Id, decisionPrincipal: Id, decisionTrust: Id,
    time: Interval, timePolicy: Id, anchorPolicy: Id, evidence: Id)

  datatype AuthDecision = AuthDecision(value: Decision, attestation: Id, signer: Id, key: Id, trust: Id)

  datatype AuthCheckpoint = AuthCheckpoint(id: Id, body: Body, attestation: Id, signer: Id, key: Id, trust: Id)

  datatype HeadFloor = HeadFloor(service: Id, environment: Id, sequence: int, head: HeadRef,
                                 mission: Id, eventSeq: int, missionHead: HeadRef)

  datatype Event = Event(mission: Id, seq_: int, kind: Id, authority: Id, target: Id,
                         decisionTime: int, prevDigest: Id, digest: Id)

  datatype Policy = Policy(decisionPolicy: Id, decisionTimePolicy: Id, maxDecisionUncertainty: int,
                           checkpointTimePolicy: Id, anchorPolicy: Id, maxCheckpointUncertainty: int,
                           requiredNamespaces: set<Id>)

  /** The content-derived identities. */
  datatype Naming = Naming(globalGenesis: (Id, Id) -> Id, missionGenesis: (Id, Id, Id) -> Id,
                           eventGenesis: Id, checkpointId: Body -> Id)

  // ----- constructor invariants -----

  predicate Provenance(sequence: int, r: HeadRef) {
    if sequence == -1 then r.attestation.None? && r.principal.None? && r.trust.None?
    else r.attestation.Some? && r.principal.Some? && r.trust.Some?
  }

  /** A reference at sequence -1 is the genesis, and only there. */
  predicate Anchored(sequence: int, r: HeadRef, genesis: Id) {
    Provenance(sequence, r) && (sequence == -1 <==> r.id == genesis)
  }

  predicate ValidInterval(t: Interval) {
    0 <= t.lower <= t.upper <= MAX_EPOCH_SECOND
  }

  predicate ValidView(v: View) {
    && 0 < v.root <= MAX_EPOCH_SECOND && 0 < v.version <= MAX_EPOCH_SECOND
    && 0 <= v.validFrom < v.validUntil <= MAX_EPOCH_SECOND
  }

  predicate ValidRevocationFloor(f: RevocationFloor) {
    0 < f.root <= MAX_EPOCH_SECOND && 0 < f.version <= MAX_EPOCH_SECOND
  }

  /** Sorted by namespace, without repetition. */
  predicate Canonical(views: seq<View>) {
    forall i, j | 0 <= i < j < |views| :: views[i].namespace < views[j].namespace
  }

  predicate ValidDecision(N: Naming, d: Decision) {
    && -1 <= d.priorSequence < MAX_EPOCH_SECOND
    && Anchored(d.priorSequence, d.prior, N.globalGenesis(d.service, d.environment))
    && -1 <= d.priorEventSeq < MAX_EPOCH_SECOND
    && (d.priorEventSeq == -1 <==> d.priorEventDigest == N.eventGenesis)
    && ValidInterval(d.time)
    && 0 < |d.views| <= MAX_REVOCATION_VIEWS && Canonical(d.views)
    && (forall v | v in d.views :: ValidView(v) && v.validFrom <= d.time.lower && d.time.upper < v.validUntil)
  }

  predicate ValidCheckpoint(N: Naming, c: AuthCheckpoint) {
    var b := c.body;
    && 0 <= b.eventSeq <= b.sequence <= MAX_EPOCH_SECOND
    && Anchored(b.sequence - 1, b.previous, N.globalGenesis(b.service, b.environment))
    && Anchored(b.eventSeq - 1, b.previousMission, N.missionGenesis(b.service, b.environment, b.mission))
    && (b.previous.id == b.previousMission.id ==> b.previous == b.previousMission)
    && ValidInterval(b.time)
    && c.id == N.checkpointId(b)
  }

  predicate ValidHeadFloor(N: Naming, f: HeadFloor) {
    && -1 <= f.eventSeq <= f.sequence <= MAX_EPOCH_SECOND
    && Anchored(f.sequence, f.head, N.globalGenesis(f.service, f.environment))
    && Anchored(f.eventSeq, f.missionHead, N.missionGenesis(f.service, f.environment, f.mission))
    && (f.head.id == f.missionHead.id ==> f.head == f.missionHead)
  }

  // ----- shared helpers -----

  /** How a successor names this checkpoint. */
  function RefOf(c: AuthCheckpoint): HeadRef {
    HeadRef(c.id, Some(c.attestation), Some(c.signer), Some(c.trust))
  }

  predicate DecisionMeetsPolicy(d: Decision, p: Policy) {
    && d.policy == p.decisionPolicy && d.timePolicy == p.decisionTimePolicy
    && d.time.upper - d.time.lower <= p.maxDecisionUncertainty
    && p.requiredNamespaces <= (set v | v in d.views :: v.namespace)
  }

  predicate CheckpointMeetsPolicy(c: AuthCheckpoint, p: Policy) {
    && c.body.timePolicy == p.checkpointTimePolicy && c.body.anchorPolicy == p.anchorPolicy
    && c.body.time.upper - c.body.time.lower <= p.maxCheckpointUncertainty
  }

  predicate Separated(c: AuthCheckpoint, d: AuthDecision) {
    c.signer != d.signer && c.key != d.key
  }

  predicate BindsProvenance(b: Body, d: AuthDecision) {
    && b.service == d.value.service && b.environment == d.value.environment
    && b.decision == d.value.id && b.decisionAttestation == d.attestation
    && b.decisionPrincipal == d.signer && b.decisionTrust == d.trust
  }

  /** `_validate_checkpoint_decision_semantics` */
  predicate BindsDecision(b: Body, d: AuthDecision) {
    var v := d.value;
    && b.service == v.service && b.environment == v.environment
    && b.mission == v.mission && b.authority == v.authority && b.target == v.target
    && BindsProvenance(b, d)
    && b.sequence == v.priorSequence + 1 && b.previous == v.prior
    && b.eventSeq == v.priorEventSeq + 1 && b.eventDigest == v.proposedEvent
    && v.time.upper <= b.time.lower
  }

  predicate SameScope(b: Body, previous: Body) {
    b.service == previous.service && b.environment == previous.environment
  }

  predicate Follows(d: Decision, c: AuthCheckpoint) {
    c.body.time.upper <= d.time.lower
  }

  /** `_validate_decision_mission_predecessor` */
  predicate ExtendsMission(N: Naming, b: Body, d: Decision, previous: Option<AuthCheckpoint>) {
    if d.priorEventSeq == -1 then
      previous.None? && b.previousMission.id == N.missionGenesis(b.service, b.environment, b.mission)
    else
      && previous.Some?
      && var p := previous.value;
         && SameScope(b, p.body)
         && p.body.mission == b.mission && p.body.authority == b.authority && p.body.target == b.target
         && d.priorEventSeq == p.body.eventSeq && d.priorEventDigest == p.body.eventDigest
         && b.previousMission == RefOf(p)
  }

  /** `_require_checkpoint_projection_consistency` */
  predicate ConsistentProjections(previousGlobal: Option<AuthCheckpoint>, previousMission: Option<AuthCheckpoint>) {
    previousMission.Some? ==>
      && previousGlobal.Some?
      && previousMission.value.body.sequence <= previousGlobal.value.body.sequence
      && (previousMission.value.body.sequence == previousGlobal.value.body.sequence ==>
            RefOf(previousMission.value) == RefOf(previousGlobal.value))
  }

  predicate GlobalFloorIs(f: HeadFloor, c: AuthCheckpoint) {
    f.sequence == c.body.sequence && f.head == RefOf(c)
  }

  predicate MissionFloorIs(f: HeadFloor, c: AuthCheckpoint) {
    f.eventSeq == c.body.eventSeq && f.missionHead == RefOf(c)
  }

  // ----- validate_checkpoint_binding -----

  predicate BindingAccepted(N: Naming, c: AuthCheckpoint, d: AuthDecision, e: Event,
                            previousMission: Option<AuthCheckpoint>, p: Policy) {
    var v := d.value;
    && CheckpointMeetsPolicy(c, p) && DecisionMeetsPolicy(v, p)
    && (previousMission.Some? ==> CheckpointMeetsPolicy(previousMission.value, p))
    && Separated(c, d)
    && BindsDecision(c.body, d)
    && c.body.eventSeq == e.seq_ && c.body.eventDigest == e.digest && e.digest == v.proposedEvent
    && e.mission == v.mission && e.authority == v.authority && e.target == v.target
    && e.prevDigest == v.priorEventDigest && e.seq_ == v.priorEventSeq + 1 && e.kind == v.kind
    && e.decisionTime == v.time.upper
    && ExtendsMission(N, c.body, v, previousMission)
    && (previousMission.Some? ==> Follows(v, previousMission.value))
  }

  // ----- validate_checkpoint_advance -----

  datatype Reason =
    | PolicyMismatch
    | PrincipalSeparation
    | ProjectionBranch
    | BindingMismatch
    | FloorScopeMismatch
    | GlobalGap
    | GlobalBranch
    | DecisionPrecedesCheckpoint
    | MissionPredecessor
    | MissionGap
    | MissionBranch
    | BelowExternalFloor
    | FloorProjectionsDisagree
    | FloorEquivocation
    | FloorRollback
    | FloorIrreconcilable

  datatype Verdict = Accept | Reject(reason: Reason)

  /** The checks before the floor is compared, in order. */
  function ContinuityVerdict(N: Naming, c: AuthCheckpoint, d: AuthDecision,
                             previousGlobal: Option<AuthCheckpoint>, previousMission: Option<AuthCheckpoint>,
                             f: HeadFloor, p: Policy): Verdict {
    var b := c.body;
    if !(CheckpointMeetsPolicy(c, p) && DecisionMeetsPolicy(d.value, p)) then Reject(PolicyMismatch)
    else if !Separated(c, d) then Reject(PrincipalSeparation)
    else if previousGlobal.Some? && !CheckpointMeetsPolicy(previousGlobal.value, p) then Reject(PolicyMismatch)
    else if previousMission.Some? && !CheckpointMeetsPolicy(previousMission.value, p) then Reject(PolicyMismatch)
    else if !ConsistentProjections(previousGlobal, previousMission) then Reject(ProjectionBranch)
    else if !BindsDecision(b, d) then Reject(BindingMismatch)
    else if f.service != b.service || f.environment != b.environment || f.mission != b.mission then
      Reject(FloorScopeMismatch)
    else if previousGlobal.None? && (b.sequence != 0 || b.previous.id != N.globalGenesis(b.service, b.environment)) then
      Reject(GlobalGap)
    else if previousGlobal.Some? && !(&& SameScope(b, previousGlobal.value.body)
                                      && b.sequence == previousGlobal.value.body.sequence + 1
                                      && b.previous == RefOf(previousGlobal.value)) then
      Reject(GlobalBranch)
    else if previousGlobal.Some? && !Follows(d.value, previousGlobal.value) then Reject(DecisionPrecedesCheckpoint)
    else if !ExtendsMission(N, b, d.value, previousMission) then Reject(MissionPredecessor)
    else if previousMission.None?
            && (b.eventSeq != 0 || b.previousMission.id != N.missionGenesis(b.service, b.environment, b.mission)) then
      Reject(MissionGap)
    else if previousMission.Some? && !(&& SameScope(b, previousMission.value.body)
                                       && b.eventSeq == previousMission.value.body.eventSeq + 1
                                       && b.previousMission.id == previousMission.value.id) then
      Reject(MissionBranch)
    else Accept
  }

  predicate GlobalFloorIsPredecessor(N: Naming, b: Body, previous: Option<AuthCheckpoint>, f: HeadFloor) {
    match previous
    case None => f.sequence == -1 && f.head.id == N.globalGenesis(b.service, b.environment)
    case Some(c) => GlobalFloorIs(f, c)
  }

  predicate MissionFloorIsPredecessor(N: Naming, b: Body, previous: Option<AuthCheckpoint>, f: HeadFloor) {
    match previous
    case None => f.eventSeq == -1 && f.missionHead.id == N.missionGenesis(b.service, b.environment, b.mission)
    case Some(c) => MissionFloorIs(f, c)
  }

  /** How the external floor relates to the checkpoint and its predecessors. */
  function FloorVerdict(N: Naming, c: AuthCheckpoint,
                        previousGlobal: Option<AuthCheckpoint>, previousMission: Option<AuthCheckpoint>,
                        f: HeadFloor): Verdict {
    var b := c.body;
    var globalCurrent, missionCurrent := GlobalFloorIs(f, c), MissionFloorIs(f, c);
    var globalBefore := GlobalFloorIsPredecessor(N, b, previousGlobal, f);
    var missionBefore := MissionFloorIsPredecessor(N, b, previousMission, f);
    if (globalCurrent && missionCurrent) || (globalBefore && missionBefore) then Accept
    else if f.sequence > b.sequence || f.eventSeq > b.eventSeq then Reject(BelowExternalFloor)
    else if globalCurrent || missionCurrent || globalBefore || missionBefore then Reject(FloorProjectionsDisagree)
    else if || f.sequence == b.sequence || f.eventSeq == b.eventSeq
            || (previousGlobal.Some? && f.sequence == previousGlobal.value.body.sequence)
            || (previousMission.Some? && f.eventSeq == previousMission.value.body.eventSeq) then
      Reject(FloorEquivocation)
    else if || (previousGlobal.Some? && f.sequence < previousGlobal.value.body.sequence)
            || (previousMission.Some? && f.eventSeq < previousMission.value.body.eventSeq) then
      Reject(FloorRollback)
    else Reject(FloorIrreconcilable)
  }

  function AdvanceVerdict(N: Naming, c: AuthCheckpoint, d: AuthDecision,
                          previousGlobal: Option<AuthCheckpoint>, previousMission: Option<AuthCheckpoint>,
                          f: HeadFloor, p: Policy): Verdict {
    var v := ContinuityVerdict(N, c, d, previousGlobal, previousMission, f, p);
    if v.Accept? then FloorVerdict(N, c, previousGlobal, previousMission, f) else v
  }

  /**
   Three rejections of the code are dead: the mission checks that repeat what the decision
   and predecessor checks established, and the last one, as every floor case is already named.
   */
  lemma RejectionsExhaustive(N: Naming, c: AuthCheckpoint, d: AuthDecision,
                             previousGlobal: Option<AuthCheckpoint>, previousMission: Option<AuthCheckpoint>,
                             f: HeadFloor, p: Policy)
    requires ValidHeadFloor(N, f)
    ensures AdvanceVerdict(N, c, d, previousGlobal, previousMission, f, p)
            !in {Reject(FloorIrreconcilable), Reject(MissionGap), Reject(MissionBranch)}
  {
  }

  /**
   Above a floor there is no third possibility: the accepted checkpoint is the one the
   floor names, or it extends exactly the global and the mission head the floor names.
   */
  lemma ForkExclusion(N: Naming, c: AuthCheckpoint, d: AuthDecision,
                      previousGlobal: Option<AuthCheckpoint>, previousMission: Option<AuthCheckpoint>,
                      f: HeadFloor, p: Policy)
    requires ValidHeadFloor(N, f) && ValidCheckpoint(N, c) && ValidDecision(N, d.value)
    requires AdvanceVerdict(N, c, d, previousGlobal, previousMission, f, p) == Accept
    ensures || (&& f.head == RefOf(c) == f.missionHead
                && f.sequence == c.body.sequence && f.eventSeq == c.body.eventSeq)
            || (&& c.body.previous == f.head && c.body.previousMission == f.missionHead
                && c.body.sequence == f.sequence + 1 && c.body.eventSeq == f.eventSeq + 1)
  {
  }

  // ----- require_external_floor_is_current -----

  predicate FinalUnder(c: AuthCheckpoint, f: HeadFloor, p: Policy) {
    && CheckpointMeetsPolicy(c, p)
    && f.service == c.body.service && f.environment == c.body.environment && f.mission == c.body.mission
    && GlobalFloorIs(f, c) && MissionFloorIs(f, c)
  }

  ghost predicate NamingCollision(N: Naming) {
    exists a, b: Body :: a != b && N.checkpointId(a) == N.checkpointId(b)
  }

  lemma SameIdSameBody(N: Naming, a: AuthCheckpoint, b: AuthCheckpoint)
    requires ValidCheckpoint(N, a) && ValidCheckpoint(N, b) && a.id == b.id
    ensures a.body == b.body || NamingCollision(N)
  {
    assert N.checkpointId(a.body) == N.checkpointId(b.body);
  }

  /** One floor makes at most one checkpoint final. */
  lemma FinalityUnique(N: Naming, a: AuthCheckpoint, b: AuthCheckpoint, f: HeadFloor, p: Policy, q: Policy)
    requires ValidCheckpoint(N, a) && ValidCheckpoint(N, b)
    requires FinalUnder(a, f, p) && FinalUnder(b, f, q)
    ensures RefOf(a) == RefOf(b) && (a.body == b.body || NamingCollision(N))
  {
    SameIdSameBody(N, a, b);
  }

  // ----- validate_revocation_advance -----

  /** The dictionary of views: the last entry for a namespace wins. */
  function ByNamespace(views: seq<View>): map<Id, View> {
    if views == [] then map[] else
    var last := |views| - 1;
    ByNamespace(views[..last])[views[last].namespace := views[last]]
  }

  function FloorsByNamespace(floors: seq<RevocationFloor>): map<Id, RevocationFloor> {
    if floors == [] then map[] else
    var last := |floors| - 1;
    FloorsByNamespace(floors[..last])[floors[last].namespace := floors[last]]
  }

  predicate ViewAdvances(prior: View, candidate: View) {
    && prior.root <= candidate.root && prior.version <= candidate.version
    && (prior.version == candidate.version ==> prior == candidate)
  }

  predicate FloorCoversHistory(prior: View, f: RevocationFloor) {
    && prior.root <= f.root && prior.version <= f.version
    && (prior.version == f.version ==> prior.root == f.root && prior.snapshot == f.snapshot)
  }

  predicate ViewMeetsFloor(v: View, f: RevocationFloor) {
    f.root <= v.root && f.version <= v.version && (v.version == f.version ==> v.snapshot == f.snapshot)
  }

  predicate RevocationAccepted(previous: Option<(AuthDecision, AuthCheckpoint)>, current: AuthDecision,
                               floors: seq<RevocationFloor>, p: Policy) {
    var v := current.value;
    var views, floorOf := ByNamespace(v.views), FloorsByNamespace(floors);
    && DecisionMeetsPolicy(v, p)
    && (match previous
        case None => v.priorSequence == -1
        case Some((d, c)) =>
          && DecisionMeetsPolicy(d.value, p) && CheckpointMeetsPolicy(c, p) && Separated(c, d)
          && BindsProvenance(c.body, d) && BindsDecision(c.body, d)
          && v.priorSequence == c.body.sequence && v.prior == RefOf(c)
          && Follows(v, c))
    && 0 < |floors| <= MAX_REVOCATION_VIEWS
    && (forall f | f in floors :: ValidRevocationFloor(f))
    && (forall i, j | 0 <= i < j < |floors| :: floors[i].namespace < floors[j].namespace)
    && (forall f | f in floors :: f.service == v.service && f.environment == v.environment && f.policy == v.policy)
    && views.Keys == floorOf.Keys
    && (previous.Some? ==>
          var prior := previous.value.0.value;
          var priorViews := ByNamespace(prior.views);
          && prior.service == v.service && prior.environment == v.environment
          && priorViews.Keys <= views.Keys
          && (forall n | n in priorViews ::
                ViewAdvances(priorViews[n], views[n]) && FloorCoversHistory(priorViews[n], floorOf[n])))
    && (forall n | n in views :: ViewMeetsFloor(views[n], floorOf[n]))
  }

  // ----- classify_deadline -----

  datatype Side = Before | AtOrAfter

  /** None is the refusal of an interval that straddles the deadline. */
  function ClassifyDeadline(t: Interval, deadline: int): Option<Side> {
    if t.upper < deadline then Some(Before)
    else if t.lower >= deadline then Some(AtOrAfter)
    else None
  }

  /** The true instant is somewhere in the interval. */
  predicate MayBe(t: Interval, instant: int) {
    t.lower <= instant <= t.upper
  }

  /**
   An answer is the one every possible instant has, and there is an answer whenever all
   possible instants agree.
   */
  lemma DeadlineAnswers(t: Interval, deadline: int)
    requires ValidInterval(t)
    ensures ClassifyDeadline(t, deadline) == Some(Before) <==> forall x | MayBe(t, x) :: x < deadline
    ensures ClassifyDeadline(t, deadline) == Some(AtOrAfter) <==> forall x | MayBe(t, x) :: x >= deadline
    ensures ClassifyDeadline(t, deadline) == None <==>
            exists x, y :: MayBe(t, x) && MayBe(t, y) && x < deadline <= y
  {
    assert MayBe(t, t.lower) && MayBe(t, t.upper);
  }
}
