/**
 Exactly when the checks of etzio/integrity_v1.py accept, said field by field and list by
 list, and what each refusal means. The helper predicates of the checks do not appear here.
 */
module IntegrityConditions {
  import opened Common
  import opened Integrity

  // ----- what acceptance asks of the values -----

  ghost predicate WithinPolicy(b: Body, p: Policy) {
    && (b.timePolicy, b.anchorPolicy) == (p.checkpointTimePolicy, p.anchorPolicy)
    && b.time.upper <= b.time.lower + p.maxCheckpointUncertainty
  }

  ghost predicate DecidedWithinPolicy(v: Decision, p: Policy) {
    && (v.policy, v.timePolicy) == (p.decisionPolicy, p.decisionTimePolicy)
    && v.time.upper <= v.time.lower + p.maxDecisionUncertainty
    && forall n | n in p.requiredNamespaces :: exists i :: 0 <= i < |v.views| && v.views[i].namespace == n
  }

  /** One transition, decided by one party and checkpointed by another one afterwards. */
  ghost predicate Decided(c: AuthCheckpoint, d: AuthDecision) {
    var b, v := c.body, d.value;
    && c.signer != d.signer && c.key != d.key
    && (b.service, b.environment, b.mission) == (v.service, v.environment, v.mission)
    && (b.authority, b.target, b.eventDigest) == (v.authority, v.target, v.proposedEvent)
    && (b.decision, b.decisionAttestation) == (v.id, d.attestation)
    && (b.decisionPrincipal, b.decisionTrust) == (d.signer, d.trust)
    && b.sequence - 1 == v.priorSequence && b.previous == v.prior && b.eventSeq - 1 == v.priorEventSeq
    && v.time.upper <= b.time.lower
  }

  /** Successor of the mission's head, in number, digest and name. */
  ghost predicate NextOfMission(b: Body, v: Decision, previous: Option<AuthCheckpoint>) {
    match previous
    case None => b.eventSeq == 0
    case Some(m) =>
      && (m.body.service, m.body.environment, m.body.mission) == (b.service, b.environment, b.mission)
      && (m.body.authority, m.body.target) == (b.authority, b.target)
      && b.eventSeq == m.body.eventSeq + 1 && v.priorEventDigest == m.body.eventDigest
      && b.previousMission == HeadRef(m.id, Some(m.attestation), Some(m.signer), Some(m.trust))
  }

  /** Successor of the global head, in number, name and time. */
  ghost predicate NextOfInstance(b: Body, v: Decision, previous: Option<AuthCheckpoint>) {
    match previous
    case None => b.sequence == 0
    case Some(g) =>
      && (g.body.service, g.body.environment) == (b.service, b.environment)
      && b.sequence == g.body.sequence + 1 && g.body.time.upper <= v.time.lower
      && b.previous == HeadRef(g.id, Some(g.attestation), Some(g.signer), Some(g.trust))
  }

  /** The two predecessors can belong to one history. */
  ghost predicate OneHistory(previousGlobal: Option<AuthCheckpoint>, previousMission: Option<AuthCheckpoint>) {
    match previousMission
    case None => true
    case Some(m) =>
      && previousGlobal.Some?
      && var g := previousGlobal.value;
         || m.body.sequence < g.body.sequence
         || (&& m.body.sequence == g.body.sequence && m.id == g.id && m.attestation == g.attestation
             && m.signer == g.signer && m.trust == g.trust)
  }

  ghost predicate Extends(c: AuthCheckpoint, d: AuthDecision, previousGlobal: Option<AuthCheckpoint>,
                          previousMission: Option<AuthCheckpoint>, p: Policy) {
    && WithinPolicy(c.body, p) && DecidedWithinPolicy(d.value, p) && Decided(c, d)
    && (previousGlobal.Some? ==> WithinPolicy(previousGlobal.value.body, p))
    && (previousMission.Some? ==> WithinPolicy(previousMission.value.body, p))
    && OneHistory(previousGlobal, previousMission)
    && NextOfInstance(c.body, d.value, previousGlobal) && NextOfMission(c.body, d.value, previousMission)
  }

  /** The catalog state before a checkpoint is published, and after. */
  function FloorBefore(c: AuthCheckpoint): HeadFloor {
    var b := c.body;
    HeadFloor(b.service, b.environment, b.sequence - 1, b.previous, b.mission, b.eventSeq - 1, b.previousMission)
  }

  function FloorAfter(c: AuthCheckpoint): HeadFloor {
    var b, head := c.body, HeadRef(c.id, Some(c.attestation), Some(c.signer), Some(c.trust));
    HeadFloor(b.service, b.environment, b.sequence, head, b.mission, b.eventSeq, head)
  }

  /** What the constructors guarantee of everything a check is given. */
  ghost predicate Constructed(N: Naming, c: AuthCheckpoint, d: AuthDecision, previousGlobal: Option<AuthCheckpoint>,
                              previousMission: Option<AuthCheckpoint>) {
    && ValidCheckpoint(N, c) && ValidDecision(N, d.value)
    && (previousGlobal.Some? ==> ValidCheckpoint(N, previousGlobal.value))
    && (previousMission.Some? ==> ValidCheckpoint(N, previousMission.value))
  }

  // ----- the constructors -----

  /** A reference to the head at a sequence: at -1 the bare genesis, later another identity with full provenance. */
  ghost predicate NamesHead(sequence: int, r: HeadRef, genesis: Id) {
    if sequence == -1 then r == HeadRef(genesis, None, None, None)
    else r.id != genesis && r.attestation != None && r.principal != None && r.trust != None
  }

  /** A checkpoint's identity is its content's, its numbers and times are in range, its predecessors properly named. */
  lemma CheckpointExactly(N: Naming, c: AuthCheckpoint)
    ensures ValidCheckpoint(N, c) <==>
            var b := c.body;
            && c.id == N.checkpointId(b) && 0 <= b.eventSeq && b.eventSeq <= b.sequence
            && b.sequence <= 0x7fff_ffff_ffff_ffff
            && 0 <= b.time.lower && b.time.lower <= b.time.upper && b.time.upper <= 0x7fff_ffff_ffff_ffff
            && NamesHead(b.sequence - 1, b.previous, N.globalGenesis(b.service, b.environment))
            && NamesHead(b.eventSeq - 1, b.previousMission, N.missionGenesis(b.service, b.environment, b.mission))
            && (b.previous.id != b.previousMission.id || b.previous == b.previousMission)
  {
  }

  lemma DecisionExactly(N: Naming, d: Decision)
    ensures ValidDecision(N, d) <==>
            && -1 <= d.priorSequence && d.priorSequence < 0x7fff_ffff_ffff_ffff
            && -1 <= d.priorEventSeq && d.priorEventSeq < 0x7fff_ffff_ffff_ffff
            && NamesHead(d.priorSequence, d.prior, N.globalGenesis(d.service, d.environment))
            && (if d.priorEventSeq == -1 then d.priorEventDigest == N.eventGenesis
                else d.priorEventDigest != N.eventGenesis)
            && 0 <= d.time.lower && d.time.lower <= d.time.upper && d.time.upper <= 0x7fff_ffff_ffff_ffff
            && 1 <= |d.views| && |d.views| <= 16 && Increasing(Namespaces(d.views))
            && (forall i | 0 <= i < |d.views| :: Current(d.views[i], d.time))
  {
    var names := Namespaces(d.views);
    if Increasing(names) {
      forall i, j | 0 <= i < j < |d.views| ensures d.views[i].namespace < d.views[j].namespace {
        assert names[i] < names[j];
      }
    }
    assert forall i | 0 <= i < |d.views| :: d.views[i] in d.views;
  }

  /** A well-formed view that is valid throughout the decision's interval. */
  ghost predicate Current(v: View, t: Interval) {
    && 1 <= v.root && v.root <= 0x7fff_ffff_ffff_ffff && 1 <= v.version && v.version <= 0x7fff_ffff_ffff_ffff
    && 0 <= v.validFrom && v.validFrom < v.validUntil && v.validUntil <= 0x7fff_ffff_ffff_ffff
    && v.validFrom <= t.lower && t.upper < v.validUntil
  }

  lemma HeadFloorExactly(N: Naming, f: HeadFloor)
    ensures ValidHeadFloor(N, f) <==>
            && -1 <= f.eventSeq && f.eventSeq <= f.sequence && f.sequence <= 0x7fff_ffff_ffff_ffff
            && NamesHead(f.sequence, f.head, N.globalGenesis(f.service, f.environment))
            && NamesHead(f.eventSeq, f.missionHead, N.missionGenesis(f.service, f.environment, f.mission))
            && (f.head.id != f.missionHead.id || f.head == f.missionHead)
  {
  }

  // ----- validate_checkpoint_advance -----

  lemma PolicyExactly(v: Decision, p: Policy)
    ensures DecisionMeetsPolicy(v, p) <==> DecidedWithinPolicy(v, p)
  {
    var found := set w | w in v.views :: w.namespace;
    if DecidedWithinPolicy(v, p) {
      forall n | n in p.requiredNamespaces ensures n in found {
        var i :| 0 <= i < |v.views| && v.views[i].namespace == n;
        assert v.views[i] in v.views;
      }
    }
    if DecisionMeetsPolicy(v, p) {
      forall n | n in p.requiredNamespaces ensures exists i :: 0 <= i < |v.views| && v.views[i].namespace == n {
        assert n in found;
        var w :| w in v.views && w.namespace == n;
        var i :| 0 <= i < |v.views| && v.views[i] == w;
      }
    }
  }

  lemma ContinuityExactly(N: Naming, c: AuthCheckpoint, d: AuthDecision, previousGlobal: Option<AuthCheckpoint>,
                          previousMission: Option<AuthCheckpoint>, f: HeadFloor, p: Policy)
    requires Constructed(N, c, d, previousGlobal, previousMission)
    ensures ContinuityVerdict(N, c, d, previousGlobal, previousMission, f, p) == Accept <==>
            && Extends(c, d, previousGlobal, previousMission, p)
            && (f.service, f.environment, f.mission) == (c.body.service, c.body.environment, c.body.mission)
  {
    hide DecisionMeetsPolicy, DecidedWithinPolicy;
    PolicyExactly(d.value, p);
  }

  /** Between a checkpoint's predecessors and itself the floor has exactly two places to be. */
  lemma FloorExactly(N: Naming, c: AuthCheckpoint, d: AuthDecision, previousGlobal: Option<AuthCheckpoint>,
                     previousMission: Option<AuthCheckpoint>, f: HeadFloor, p: Policy)
    requires Constructed(N, c, d, previousGlobal, previousMission) && ValidHeadFloor(N, f)
    requires Extends(c, d, previousGlobal, previousMission, p)
    requires (f.service, f.environment, f.mission) == (c.body.service, c.body.environment, c.body.mission)
    ensures FloorVerdict(N, c, previousGlobal, previousMission, f) == Accept <==>
            f == FloorBefore(c) || f == FloorAfter(c)
  {
    hide DecidedWithinPolicy, WithinPolicy, OneHistory;
  }

  /**
   A checkpoint is accepted exactly when it extends both predecessors under its decision
   and the floor is the catalog state just before it or just after it.
   */
  lemma AdvanceExactly(N: Naming, c: AuthCheckpoint, d: AuthDecision, previousGlobal: Option<AuthCheckpoint>,
                       previousMission: Option<AuthCheckpoint>, f: HeadFloor, p: Policy)
    requires Constructed(N, c, d, previousGlobal, previousMission) && ValidHeadFloor(N, f)
    ensures AdvanceVerdict(N, c, d, previousGlobal, previousMission, f, p) == Accept <==>
            Extends(c, d, previousGlobal, previousMission, p) && (f == FloorBefore(c) || f == FloorAfter(c))
  {
    hide Extends, ContinuityVerdict, FloorVerdict;
    ContinuityExactly(N, c, d, previousGlobal, previousMission, f, p);
    if ContinuityVerdict(N, c, d, previousGlobal, previousMission, f, p) == Accept {
      FloorExactly(N, c, d, previousGlobal, previousMission, f, p);
    }
  }

  /** So a checkpoint accepted once is accepted again after the catalog has published it. */
  lemma AcceptedAfterPublication(N: Naming, c: AuthCheckpoint, d: AuthDecision, previousGlobal: Option<AuthCheckpoint>,
                                 previousMission: Option<AuthCheckpoint>, f: HeadFloor, g: HeadFloor, p: Policy)
    requires Constructed(N, c, d, previousGlobal, previousMission) && ValidHeadFloor(N, f) && ValidHeadFloor(N, g)
    requires AdvanceVerdict(N, c, d, previousGlobal, previousMission, f, p) == Accept && FinalUnder(c, g, p)
    ensures AdvanceVerdict(N, c, d, previousGlobal, previousMission, g, p) == Accept
  {
    hide AdvanceVerdict, Extends;
    AdvanceExactly(N, c, d, previousGlobal, previousMission, f, p);
    AdvanceExactly(N, c, d, previousGlobal, previousMission, g, p);
  }

  /** Final is what the catalog state just after publication makes final. */
  lemma FinalExactly(c: AuthCheckpoint, f: HeadFloor, p: Policy)
    ensures FinalUnder(c, f, p) <==> WithinPolicy(c.body, p) && f == FloorAfter(c)
  {
  }

  /** One of the floor's two halves is that of the state before or after. */
  ghost predicate HalfRight(c: AuthCheckpoint, f: HeadFloor) {
    var a, b := FloorBefore(c), FloorAfter(c);
    || (f.sequence, f.head) == (a.sequence, a.head) || (f.sequence, f.head) == (b.sequence, b.head)
    || (f.eventSeq, f.missionHead) == (a.eventSeq, a.missionHead)
    || (f.eventSeq, f.missionHead) == (b.eventSeq, b.missionHead)
  }

  /** What is wrong with any other floor, by its numbers and its halves. */
  lemma FloorReasons(N: Naming, c: AuthCheckpoint, d: AuthDecision, previousGlobal: Option<AuthCheckpoint>,
                     previousMission: Option<AuthCheckpoint>, f: HeadFloor, p: Policy)
    requires Constructed(N, c, d, previousGlobal, previousMission) && ValidHeadFloor(N, f)
    requires Extends(c, d, previousGlobal, previousMission, p)
    requires (f.service, f.environment, f.mission) == (c.body.service, c.body.environment, c.body.mission)
    requires f != FloorBefore(c) && f != FloorAfter(c)
    ensures var v, b := FloorVerdict(N, c, previousGlobal, previousMission, f), c.body;
            var ahead, behind := f.sequence > b.sequence || f.eventSeq > b.eventSeq,
                                 f.sequence < b.sequence - 1 && f.eventSeq < b.eventSeq - 1;
            && (v == Reject(BelowExternalFloor) <==> ahead)
            && (v == Reject(FloorRollback) <==> behind)
            && (v == Reject(FloorProjectionsDisagree) <==> !ahead && HalfRight(c, f))
            && (v == Reject(FloorEquivocation) <==> !ahead && !behind && !HalfRight(c, f))
  {
    hide DecidedWithinPolicy, WithinPolicy, OneHistory;
  }

  /** A refusal before the floor is looked at names something that is the case. */
  ghost predicate Truthful(why: Reason, c: AuthCheckpoint, d: AuthDecision, previousGlobal: Option<AuthCheckpoint>,
                           previousMission: Option<AuthCheckpoint>, f: HeadFloor, p: Policy) {
    var b, v := c.body, d.value;
    match why
    case PolicyMismatch =>
      || !WithinPolicy(b, p) || !DecidedWithinPolicy(v, p)
      || (previousGlobal.Some? && !WithinPolicy(previousGlobal.value.body, p))
      || (previousMission.Some? && !WithinPolicy(previousMission.value.body, p))
    case PrincipalSeparation => c.signer == d.signer || c.key == d.key
    case ProjectionBranch => !OneHistory(previousGlobal, previousMission)
    case BindingMismatch => c.signer != d.signer && c.key != d.key && !Decided(c, d)
    case FloorScopeMismatch => (f.service, f.environment, f.mission) != (b.service, b.environment, b.mission)
    case GlobalGap => previousGlobal.None? && b.sequence != 0
    case GlobalBranch =>
      && previousGlobal.Some?
      && var g := previousGlobal.value;
         || (g.body.service, g.body.environment) != (b.service, b.environment) || b.sequence != g.body.sequence + 1
         || b.previous != HeadRef(g.id, Some(g.attestation), Some(g.signer), Some(g.trust))
    case DecisionPrecedesCheckpoint => previousGlobal.Some? && v.time.lower < previousGlobal.value.body.time.upper
    case MissionPredecessor => !NextOfMission(b, v, previousMission)
    case _ => false
  }

  lemma ContinuityReasons(N: Naming, c: AuthCheckpoint, d: AuthDecision, previousGlobal: Option<AuthCheckpoint>,
                          previousMission: Option<AuthCheckpoint>, f: HeadFloor, p: Policy)
    requires Constructed(N, c, d, previousGlobal, previousMission)
    ensures var v := ContinuityVerdict(N, c, d, previousGlobal, previousMission, f, p);
            v.Reject? ==> Truthful(v.reason, c, d, previousGlobal, previousMission, f, p)
  {
    hide DecisionMeetsPolicy, DecidedWithinPolicy;
    PolicyExactly(d.value, p);
  }

  // ----- validate_checkpoint_binding -----

  /** A checkpoint binds its decision to exactly one event. */
  lemma BindingExactly(N: Naming, c: AuthCheckpoint, d: AuthDecision, e: Event,
                       previousMission: Option<AuthCheckpoint>, p: Policy)
    requires Constructed(N, c, d, None, previousMission)
    ensures BindingAccepted(N, c, d, e, previousMission, p) <==>
            var b, v := c.body, d.value;
            && WithinPolicy(b, p) && DecidedWithinPolicy(v, p) && Decided(c, d)
            && e == Event(b.mission, b.eventSeq, v.kind, b.authority, b.target, v.time.upper, v.priorEventDigest,
                          b.eventDigest)
            && NextOfMission(b, v, previousMission)
            && (previousMission.Some? ==>
                  && WithinPolicy(previousMission.value.body, p)
                  && previousMission.value.body.time.upper <= v.time.lower)
  {
    hide DecisionMeetsPolicy, DecidedWithinPolicy;
    PolicyExactly(d.value, p);
  }

  // ----- validate_revocation_advance -----

  function Namespaces(views: seq<View>): (r: seq<Id>)
    ensures |r| == |views| && forall i | 0 <= i < |views| :: r[i] == views[i].namespace
  {
    seq(|views|, i requires 0 <= i < |views| => views[i].namespace)
  }

  function FloorNamespaces(floors: seq<RevocationFloor>): (r: seq<Id>)
    ensures |r| == |floors| && forall i | 0 <= i < |floors| :: r[i] == floors[i].namespace
  {
    seq(|floors|, i requires 0 <= i < |floors| => floors[i].namespace)
  }

  lemma ElementsGrow(s: seq<Id>, x: Id)
    ensures Elements(s + [x]) == Elements(s) + {x}
  {
  }

  /** The dictionary of a canonical list of views has exactly its entries. */
  lemma {:induction false} ViewsLookup(views: seq<View>)
    requires Canonical(views)
    ensures ByNamespace(views).Keys == Elements(Namespaces(views))
    ensures forall i | 0 <= i < |views| ::
              views[i].namespace in ByNamespace(views) && ByNamespace(views)[views[i].namespace] == views[i]
  {
    hide Elements;
    if views == [] {
      NoElements(Namespaces(views));
    } else {
      var last := |views| - 1;
      ViewsLookup(views[..last]);
      ElementsGrow(Namespaces(views[..last]), views[last].namespace);
      assert Namespaces(views) == Namespaces(views[..last]) + [views[last].namespace];
      forall i | 0 <= i < last ensures ByNamespace(views)[views[i].namespace] == views[i] {
        assert views[..last][i] == views[i] && views[i].namespace < views[last].namespace;
      }
    }
  }

  lemma {:induction false} FloorsLookup(floors: seq<RevocationFloor>)
    requires Increasing(FloorNamespaces(floors))
    ensures FloorsByNamespace(floors).Keys == Elements(FloorNamespaces(floors))
    ensures forall i | 0 <= i < |floors| ::
              && floors[i].namespace in FloorsByNamespace(floors)
              && FloorsByNamespace(floors)[floors[i].namespace] == floors[i]
  {
    hide Elements, FloorNamespaces;
    var names := FloorNamespaces(floors);
    if floors == [] {
      NoElements(names);
    } else {
      var last := |floors| - 1;
      FloorNamesSplit(floors);
      FloorsLookup(floors[..last]);
      ElementsGrow(FloorNamespaces(floors[..last]), floors[last].namespace);
      forall i | 0 <= i < last ensures FloorsByNamespace(floors)[floors[i].namespace] == floors[i] {
        assert floors[..last][i] == floors[i] && names[i] < names[last];
      }
    }
  }

  lemma FloorNamesSplit(floors: seq<RevocationFloor>)
    requires floors != [] && Increasing(FloorNamespaces(floors))
    ensures var init := floors[..|floors| - 1];
            && FloorNamespaces(floors) == FloorNamespaces(init) + [floors[|floors| - 1].namespace]
            && Increasing(FloorNamespaces(init))
  {
    var names, init := FloorNamespaces(floors), FloorNamespaces(floors[..|floors| - 1]);
    assert init == names[..|floors| - 1];
    assert forall i, j | 0 <= i < j < |init| :: init[i] == names[i] && init[j] == names[j] && names[i] < names[j];
  }

  /** A floor for a view: the view's namespace, the decision's scope, and nothing above the view. */
  ghost predicate Supports(f: RevocationFloor, w: View, v: Decision) {
    && f.namespace == w.namespace && (f.service, f.environment, f.policy) == (v.service, v.environment, v.policy)
    && 0 < f.root <= MAX_EPOCH_SECOND && 0 < f.version <= MAX_EPOCH_SECOND
    && f.root <= w.root && f.version <= w.version && (f.version == w.version ==> f.snapshot == w.snapshot)
  }

  /** A view and its floor, both at or after a view of the decision before. */
  ghost predicate Carries(w: View, f: RevocationFloor, prior: View) {
    && w.namespace == prior.namespace && prior.root <= w.root && prior.version <= w.version
    && (prior.version == w.version ==> prior == w)
    && prior.root <= f.root && prior.version <= f.version
    && (prior.version == f.version ==> prior.root == f.root && prior.snapshot == f.snapshot)
  }

  /** The decision before, and the checkpoint that published it, are this decision's predecessor. */
  ghost predicate Precedes(previous: Option<(AuthDecision, AuthCheckpoint)>, v: Decision, p: Policy) {
    match previous
    case None => v.priorSequence == -1
    case Some((d, c)) =>
      && DecidedWithinPolicy(d.value, p) && WithinPolicy(c.body, p) && Decided(c, d)
      && (d.value.service, d.value.environment) == (v.service, v.environment)
      && v.priorSequence == c.body.sequence && c.body.time.upper <= v.time.lower
      && v.prior == HeadRef(c.id, Some(c.attestation), Some(c.signer), Some(c.trust))
  }

  /** One floor per view, in the views' order, each supporting its view. */
  ghost predicate Supported(v: Decision, floors: seq<RevocationFloor>) {
    && 0 < |floors| == |v.views| <= MAX_REVOCATION_VIEWS
    && forall i | 0 <= i < |floors| :: Supports(floors[i], v.views[i], v)
  }

  /** Every view of the decision before is carried on. */
  ghost predicate Carried(prior: seq<View>, views: seq<View>, floors: seq<RevocationFloor>)
    requires |floors| == |views|
  {
    forall w | w in prior :: CarriedOn(w, views, floors)
  }

  ghost predicate CarriedOn(prior: View, views: seq<View>, floors: seq<RevocationFloor>)
    requires |floors| == |views|
  {
    exists i :: 0 <= i < |views| && Carries(views[i], floors[i], prior)
  }

  lemma SameNamespaces(views: seq<View>, floors: seq<RevocationFloor>)
    requires Canonical(views) && Increasing(FloorNamespaces(floors))
    ensures ByNamespace(views).Keys == FloorsByNamespace(floors).Keys <==> Namespaces(views) == FloorNamespaces(floors)
  {
    hide ByNamespace, FloorsByNamespace, Elements, Namespaces, FloorNamespaces;
    ViewsLookup(views);
    FloorsLookup(floors);
    if Elements(Namespaces(views)) == Elements(FloorNamespaces(floors)) {
      CanonicalNames(views);
      CanonicalList(Namespaces(views), FloorNamespaces(floors));
    }
  }

  lemma CanonicalNames(views: seq<View>)
    requires Canonical(views)
    ensures Increasing(Namespaces(views))
  {
  }

  lemma Pointwise(views: seq<View>, floors: seq<RevocationFloor>)
    ensures Namespaces(views) == FloorNamespaces(floors) <==>
            |views| == |floors| && forall i | 0 <= i < |views| :: views[i].namespace == floors[i].namespace
  {
    var a, b := Namespaces(views), FloorNamespaces(floors);
    if |views| == |floors| && forall i | 0 <= i < |views| :: views[i].namespace == floors[i].namespace {
      assert forall i | 0 <= i < |a| :: a[i] == b[i];
    }
    if a == b {
      assert forall i | 0 <= i < |a| :: a[i] == b[i];
    }
  }

  /** The dictionaries' entries are the lists' entries, side by side. */
  ghost predicate SideBySide(views: seq<View>, floors: seq<RevocationFloor>, m: map<Id, View>,
                             f: map<Id, RevocationFloor>) {
    && |views| == |floors| && m.Keys == f.Keys
    && (forall i | 0 <= i < |views| ::
          && views[i].namespace == floors[i].namespace && views[i].namespace in m
          && m[views[i].namespace] == views[i] && f[views[i].namespace] == floors[i])
    && (forall n | n in m :: exists i :: 0 <= i < |views| && views[i].namespace == n)
  }

  lemma Aligned(views: seq<View>, floors: seq<RevocationFloor>)
    requires Canonical(views) && |views| == |floors|
    requires forall i | 0 <= i < |views| :: views[i].namespace == floors[i].namespace
    ensures Increasing(FloorNamespaces(floors))
    ensures SideBySide(views, floors, ByNamespace(views), FloorsByNamespace(floors))
  {
    hide ByNamespace, FloorsByNamespace, Elements;
    Pointwise(views, floors);
    CanonicalNames(views);
    ViewsLookup(views);
    FloorsLookup(floors);
    forall n | n in ByNamespace(views) ensures exists i :: 0 <= i < |views| && views[i].namespace == n {
      Listed(views, n);
    }
  }

  lemma Listed(views: seq<View>, n: Id)
    requires n in Elements(Namespaces(views))
    ensures exists i :: 0 <= i < |views| && views[i].namespace == n
  {
    var names := Namespaces(views);
    var i :| 0 <= i < |names| && names[i] == n;
    assert views[i].namespace == n;
  }

  lemma MeetsExactly(views: seq<View>, floors: seq<RevocationFloor>, m: map<Id, View>, f: map<Id, RevocationFloor>)
    requires SideBySide(views, floors, m, f)
    ensures (forall n | n in m :: ViewMeetsFloor(m[n], f[n])) <==>
            forall i | 0 <= i < |views| :: ViewMeetsFloor(views[i], floors[i])
  {
    if forall n | n in m :: ViewMeetsFloor(m[n], f[n]) {
      forall i | 0 <= i < |views| ensures ViewMeetsFloor(views[i], floors[i]) {
        assert views[i].namespace in m;
      }
    }
  }

  /** The dictionary form of carrying every earlier view on. */
  ghost predicate Continued(was: map<Id, View>, m: map<Id, View>, f: map<Id, RevocationFloor>)
    requires m.Keys == f.Keys
  {
    && was.Keys <= m.Keys
    && forall n | n in was :: ViewAdvances(was[n], m[n]) && FloorCoversHistory(was[n], f[n])
  }

  lemma ContinuedCarries(prior: seq<View>, views: seq<View>, floors: seq<RevocationFloor>, m: map<Id, View>,
                         f: map<Id, RevocationFloor>)
    requires Canonical(prior) && SideBySide(views, floors, m, f) && Continued(ByNamespace(prior), m, f)
    ensures Carried(prior, views, floors)
  {
    hide ByNamespace, Elements;
    ViewsLookup(prior);
    forall w | w in prior ensures CarriedOn(w, views, floors) {
      var a :| 0 <= a < |prior| && prior[a] == w;
      var n := prior[a].namespace;
      assert n in ByNamespace(prior) && n in m;
      var i :| 0 <= i < |views| && views[i].namespace == n;
      assert Carries(views[i], floors[i], w);
    }
  }

  lemma CarriedContinues(prior: seq<View>, views: seq<View>, floors: seq<RevocationFloor>, m: map<Id, View>,
                         f: map<Id, RevocationFloor>)
    requires Canonical(prior) && SideBySide(views, floors, m, f) && Carried(prior, views, floors)
    ensures Continued(ByNamespace(prior), m, f)
  {
    hide ByNamespace, Elements;
    var was := ByNamespace(prior);
    ViewsLookup(prior);
    forall n | n in was ensures n in m && ViewAdvances(was[n], m[n]) && FloorCoversHistory(was[n], f[n]) {
      Listed(prior, n);
      var a :| 0 <= a < |prior| && prior[a].namespace == n;
      assert CarriedOn(prior[a], views, floors);
      var i :| 0 <= i < |views| && Carries(views[i], floors[i], prior[a]);
    }
  }

  lemma PrecedesExactly(previous: Option<(AuthDecision, AuthCheckpoint)>, v: Decision, p: Policy)
    ensures Precedes(previous, v, p) <==>
            match previous
            case None => v.priorSequence == -1
            case Some((d, c)) =>
              && DecisionMeetsPolicy(d.value, p) && CheckpointMeetsPolicy(c, p) && Separated(c, d)
              && BindsProvenance(c.body, d) && BindsDecision(c.body, d)
              && v.priorSequence == c.body.sequence && v.prior == RefOf(c) && Follows(v, c)
              && d.value.service == v.service && d.value.environment == v.environment
  {
    hide DecisionMeetsPolicy, DecidedWithinPolicy;
    if previous.Some? { PolicyExactly(previous.value.0.value, p); }
  }

  /** The checks on one decision's floors alone. */
  ghost predicate FloorsAccepted(v: Decision, floors: seq<RevocationFloor>) {
    && 0 < |floors| <= MAX_REVOCATION_VIEWS
    && (forall f | f in floors :: ValidRevocationFloor(f))
    && (forall i, j | 0 <= i < j < |floors| :: floors[i].namespace < floors[j].namespace)
    && (forall f | f in floors :: f.service == v.service && f.environment == v.environment && f.policy == v.policy)
    && ByNamespace(v.views).Keys == FloorsByNamespace(floors).Keys
    && (forall n | n in ByNamespace(v.views) :: ViewMeetsFloor(ByNamespace(v.views)[n], FloorsByNamespace(floors)[n]))
  }

  lemma FloorsAcceptedSupport(v: Decision, floors: seq<RevocationFloor>)
    requires Canonical(v.views) && FloorsAccepted(v, floors)
    ensures Supported(v, floors)
  {
    hide ByNamespace, FloorsByNamespace;
    assert Increasing(FloorNamespaces(floors));
    SameNamespaces(v.views, floors);
    Pointwise(v.views, floors);
    Aligned(v.views, floors);
    MeetsExactly(v.views, floors, ByNamespace(v.views), FloorsByNamespace(floors));
    assert forall i | 0 <= i < |floors| :: floors[i] in floors;
  }

  lemma SupportedFloorsAccepted(v: Decision, floors: seq<RevocationFloor>)
    requires Canonical(v.views) && Supported(v, floors)
    ensures FloorsAccepted(v, floors)
  {
    hide ByNamespace, FloorsByNamespace;
    Aligned(v.views, floors);
    var names := FloorNamespaces(floors);
    assert forall i, j | 0 <= i < j < |names| :: names[i] < names[j];
    MeetsExactly(v.views, floors, ByNamespace(v.views), FloorsByNamespace(floors));
  }

  lemma RevocationParts(previous: Option<(AuthDecision, AuthCheckpoint)>, current: AuthDecision,
                        floors: seq<RevocationFloor>, p: Policy)
    ensures RevocationAccepted(previous, current, floors, p) <==>
            var v := current.value;
            && DecidedWithinPolicy(v, p) && Precedes(previous, v, p) && FloorsAccepted(v, floors)
            && (previous.Some? ==>
                  Continued(ByNamespace(previous.value.0.value.views), ByNamespace(v.views), FloorsByNamespace(floors)))
  {
    hide DecisionMeetsPolicy, DecidedWithinPolicy, Precedes, ByNamespace, FloorsByNamespace, BindsDecision,
         BindsProvenance, CheckpointMeetsPolicy, ViewAdvances, FloorCoversHistory, ViewMeetsFloor;
    PolicyExactly(current.value, p);
    PrecedesExactly(previous, current.value, p);
  }

  /**
   A decision's revocation views are accepted exactly when each has its own floor at or
   below it and every view of the decision before is carried on by one of them.
   */
  lemma RevocationExactly(previous: Option<(AuthDecision, AuthCheckpoint)>, current: AuthDecision,
                          floors: seq<RevocationFloor>, p: Policy)
    requires Canonical(current.value.views) && (previous.Some? ==> Canonical(previous.value.0.value.views))
    ensures RevocationAccepted(previous, current, floors, p) <==>
            var v := current.value;
            && DecidedWithinPolicy(v, p) && Precedes(previous, v, p) && Supported(v, floors)
            && (previous.Some? ==> Carried(previous.value.0.value.views, v.views, floors))
  {
    hide RevocationAccepted, DecidedWithinPolicy, Precedes, ByNamespace, FloorsByNamespace, Carried, FloorsAccepted,
         Continued, Supports;
    var v := current.value;
    var m, f := ByNamespace(v.views), FloorsByNamespace(floors);
    RevocationParts(previous, current, floors, p);
    if FloorsAccepted(v, floors) { FloorsAcceptedSupport(v, floors); }
    if Supported(v, floors) {
      SupportedFloorsAccepted(v, floors);
      SupportedAligned(v, floors);
      if previous.Some? {
        var prior := previous.value.0.value.views;
        if Continued(ByNamespace(prior), m, f) { ContinuedCarries(prior, v.views, floors, m, f); }
        if Carried(prior, v.views, floors) { CarriedContinues(prior, v.views, floors, m, f); }
      }
    }
  }

  lemma SupportedAligned(v: Decision, floors: seq<RevocationFloor>)
    requires Canonical(v.views) && Supported(v, floors)
    ensures SideBySide(v.views, floors, ByNamespace(v.views), FloorsByNamespace(floors))
  {
    hide ByNamespace, FloorsByNamespace;
    Aligned(v.views, floors);
  }
}
