/**
 Receipt authentication of etzio/verification.py: a signed receipt, its lease and its
 artifact resolution have to compose into one ordered, role-disjoint whole.
 */
module VerifierReceipts {
  import opened Common
  import opened VerificationArtifacts

  const MAX_OUTPUT_BYTES: int := 64 * MIB
  const VERIFIER_ROLE: Id := 1

  datatype Verdict = Confirmed | NotReproduced | InvalidClaim | Inconclusive

  datatype Receipt = Receipt(
    id: Id, resolution: Id, lease: Id, mission: Id, authority: Id, snapshot: Id, candidate: Id, producer: Id,
    poc: Id, evidence: seq<Id>, environment: Id, effectOracle: Id, verifier: Id, key: Id,
    outputs: seq<Id>, outputSizes: seq<int>, modeledTier: bool,
    verdict: Verdict, effectObserved: bool, oracleSatisfied: bool, completedAt: int)

  datatype Signed = Signed(envelope: Bytes, key: Id, signature: Bytes)

  datatype TrustedKey = TrustedKey(verifier: Id, publicKey: Bytes, roles: set<Id>)

  datatype TrustStore = TrustStore(keys: map<Id, TrustedKey>, revokedKeys: set<Id>, revokedLeases: set<Id>,
                                   revokedReceipts: set<Id>, snapshot: Id)

  /** Signatures, canonical envelopes and content identities. */
  datatype Crypto = Crypto(verifies: (Bytes, Bytes, Bytes) -> bool, parse: Bytes -> Option<Receipt>,
                           encode: Receipt -> Bytes, resolutionId: Resolution -> Id)

  // ----- constructor invariants -----

  function Total(s: seq<int>): int {
    if s == [] then 0 else Total(s[..|s| - 1]) + s[|s| - 1]
  }

  /** `_validate_receipt_values` */
  predicate ValidReceipt(r: Receipt) {
    && ValidEvidence(r.evidence)
    && |r.outputs| == 4 && Distinct(r.outputs)
    && (forall o | o in r.outputs :: o !in [r.poc] + r.evidence + [r.environment, r.effectOracle])
    && |r.outputSizes| == 4 && (forall n | n in r.outputSizes :: 0 < n <= MAX_OUTPUT_BYTES)
    && Total(r.outputSizes) <= MAX_OUTPUT_BYTES
    && r.modeledTier && 0 <= r.completedAt <= MAX_EPOCH_SECOND
  }

  // ----- _artifact_resolution_binding_reason -----

  datatype Refusal =
    | SelfVerification | LeaseRevoked | LeaseNotYetValid | LeaseExpired
    | KeyRevoked | UnknownKey | KeyMissingRole | InvalidSignature | InvalidEnvelope | NoncanonicalEnvelope
    | MalformedReceipt | ReceiptRevoked | SignerKeyMismatch | VerifierIdentityMismatch | LeaseFieldMismatch
    | ReceiptBeforeLease | ReceiptAfterExpiry | ReceiptFromFuture | VerdictMismatch | VerdictInconsistent
    | ResolutionMismatch | ResolutionBeforeLease | ResolutionAfterExpiry | ResolutionAfterReceipt
    | ResolutionFromFuture | EvidenceCountMismatch | InputMismatch | OutputCollision
    | InvalidDecisionTime | IncoherentResult | LeaseConsumed | ArtifactsUnavailable

  /** One input in its role: the leased digest, the role's type, nonempty. */
  predicate BoundAs(b: Binding, digest: Id, kind: ArtifactType) {
    b.digest == digest && b.kind == kind && b.size > 0
  }

  predicate InputsBound(res: Resolution, l: Lease)
    requires |res.evidence| == |l.evidence|
  {
    && BoundAs(res.poc, l.poc, PocInput)
    && (forall i | 0 <= i < |l.evidence| :: BoundAs(res.evidence[i], l.evidence[i], SupportingEvidence))
    && BoundAs(res.environment, l.environment, EnvironmentSpec)
    && BoundAs(res.effectOracle, l.effectOracle, EffectOracleSpec)
  }

  function BindingReason(C: Crypto, res: Resolution, l: Lease, r: Receipt, decisionTime: int): Option<Refusal> {
    if !(&& r.resolution == C.resolutionId(res) && res.lease == l.id && res.mission == l.mission
         && res.authority == l.authority && res.snapshot == l.snapshot && res.candidate == l.candidate) then
      Some(ResolutionMismatch)
    else if res.resolvedAt < l.issuedAt then Some(ResolutionBeforeLease)
    else if res.resolvedAt >= l.expiresAt then Some(ResolutionAfterExpiry)
    else if res.resolvedAt >= r.completedAt then Some(ResolutionAfterReceipt)
    else if res.resolvedAt > decisionTime then Some(ResolutionFromFuture)
    else if |res.evidence| != |l.evidence| then Some(EvidenceCountMismatch)
    else if !InputsBound(res, l) then Some(InputMismatch)
    else if exists o | o in r.outputs :: o in TargetDigests(res.targets) || o in InputDigests(res) then
      Some(OutputCollision)
    else None
  }

  /** `_verdict_consistency_reason` is silent. */
  predicate VerdictConsistent(r: Receipt) {
    match r.verdict
    case Confirmed => r.effectObserved && r.oracleSatisfied
    case NotReproduced => !r.effectObserved && !r.oracleSatisfied
    case InvalidClaim => !r.effectObserved && !r.oracleSatisfied
    case Inconclusive => !(r.effectObserved && r.oracleSatisfied)
  }

  predicate AgreesWithLease(r: Receipt, l: Lease) {
    && r.lease == l.id && r.mission == l.mission && r.authority == l.authority && r.snapshot == l.snapshot
    && r.candidate == l.candidate && r.producer == l.producer && r.poc == l.poc && r.evidence == l.evidence
    && r.environment == l.environment && r.effectOracle == l.effectOracle
    && r.verifier == l.verifier && r.key == l.key
  }

  // ----- authenticate_verifier_receipt -----

  datatype Authenticated = Authenticated(signed: Signed, receipt: Receipt, lease: Lease, resolution: Resolution,
                                         trust: Id)

  /** The result's own constructor, which repeats the binding check at the end of time. */
  function Construct(C: Crypto, a: Authenticated): Result<Authenticated, Refusal> {
    if a.signed.key != a.receipt.key || a.signed.envelope != C.encode(a.receipt) then Err(IncoherentResult)
    else if BindingReason(C, a.resolution, a.lease, a.receipt, MAX_EPOCH_SECOND).Some? then Err(IncoherentResult)
    else Ok(a)
  }

  function Authenticate(C: Crypto, t: TrustStore, signed: Signed, l: Lease, res: Resolution,
                        decisionTime: int, expected: Option<Verdict>): Result<Authenticated, Refusal> {
    if !(0 <= decisionTime <= MAX_EPOCH_SECOND) then Err(InvalidDecisionTime)
    else if l.producer == l.verifier then Err(SelfVerification)
    else if l.id in t.revokedLeases then Err(LeaseRevoked)
    else if decisionTime < l.issuedAt then Err(LeaseNotYetValid)
    else if decisionTime >= l.expiresAt then Err(LeaseExpired)
    else if signed.key in t.revokedKeys then Err(KeyRevoked)
    else if signed.key !in t.keys then Err(UnknownKey)
    else
      var key := t.keys[signed.key];
      if VERIFIER_ROLE !in key.roles then Err(KeyMissingRole)
      else if !C.verifies(key.publicKey, signed.envelope, signed.signature) then Err(InvalidSignature)
      else
        var parsed := C.parse(signed.envelope);
        if parsed.None? then Err(InvalidEnvelope)
        else
          var r := parsed.value;
          if C.encode(r) != signed.envelope then Err(NoncanonicalEnvelope)
          else if !ValidReceipt(r) then Err(MalformedReceipt)
          else if r.id in t.revokedReceipts then Err(ReceiptRevoked)
          else if r.key != signed.key then Err(SignerKeyMismatch)
          else if r.verifier != key.verifier then Err(VerifierIdentityMismatch)
          else if !AgreesWithLease(r, l) then Err(LeaseFieldMismatch)
          else if r.completedAt < l.issuedAt then Err(ReceiptBeforeLease)
          else if r.completedAt >= l.expiresAt then Err(ReceiptAfterExpiry)
          else if r.completedAt > decisionTime then Err(ReceiptFromFuture)
          else if expected.Some? && r.verdict != expected.value then Err(VerdictMismatch)
          else if !VerdictConsistent(r) then Err(VerdictInconsistent)
          else
            var reason := BindingReason(C, res, l, r, decisionTime);
            if reason.Some? then Err(reason.value)
            else Construct(C, Authenticated(signed, r, l, res, t.snapshot))
  }

  /** `validate_verifier_receipt`; `artifactsHeld` is the outcome of re-reading every artifact. */
  function Validate(C: Crypto, t: TrustStore, signed: Signed, l: Lease, res: Resolution, decisionTime: int,
                    expected: Option<Verdict>, consumed: set<Id>, artifactsHeld: bool): Result<Authenticated, Refusal> {
    var a := Authenticate(C, t, signed, l, res, decisionTime, expected);
    if a.Err? then a
    else if l.id in consumed then Err(LeaseConsumed)
    else if !artifactsHeld then Err(ArtifactsUnavailable)
    else a
  }

  /** The constructor's re-check never refuses what authentication passed. */
  lemma RecheckNeverFails(C: Crypto, t: TrustStore, signed: Signed, l: Lease, res: Resolution,
                          decisionTime: int, expected: Option<Verdict>)
    ensures Authenticate(C, t, signed, l, res, decisionTime, expected) != Err(IncoherentResult)
  {
  }

  /** Every digest that takes part. */
  function AllDigests(res: Resolution, r: Receipt): seq<Id> {
    InputDigests(res) + r.outputs
  }

  /**
   An eligible receipt: its times are strictly staged, its inputs are the resolution's and
   the lease's, and all inputs and outputs are different from one another and from the target.
   */
  lemma EligibleReceiptComposes(C: Crypto, t: TrustStore, signed: Signed, l: Lease, res: Resolution,
                                decisionTime: int, expected: Option<Verdict>, consumed: set<Id>, artifactsHeld: bool)
    requires Valid(res)
    requires Validate(C, t, signed, l, res, decisionTime, expected, consumed, artifactsHeld).Ok?
    ensures var a := Validate(C, t, signed, l, res, decisionTime, expected, consumed, artifactsHeld).value;
            && a.lease == l && a.resolution == res
            && l.issuedAt <= res.resolvedAt < a.receipt.completedAt <= decisionTime < l.expiresAt
            && Distinct(AllDigests(res, a.receipt))
            && (forall d | d in TargetDigests(res.targets) :: d !in AllDigests(res, a.receipt))
            && Digests(res.evidence) == l.evidence == a.receipt.evidence
            && res.poc.digest == l.poc == a.receipt.poc
            && res.environment.digest == l.environment == a.receipt.environment
            && res.effectOracle.digest == l.effectOracle == a.receipt.effectOracle
            && signed.key == l.key && l.verifier != l.producer && l.id !in consumed
            && C.verifies(t.keys[signed.key].publicKey, C.encode(a.receipt), signed.signature)
  {
    var r := Validate(C, t, signed, l, res, decisionTime, expected, consumed, artifactsHeld).value.receipt;
    DisjointConcat(InputDigests(res), r.outputs);
    assert Digests(res.evidence) == l.evidence;
  }

  // ----- exactly when a receipt is authenticated -----

  /** A receipt that stands on its own: canonical evidence, four outputs apart from the inputs, within their ceiling. */
  ghost predicate Sound(r: Receipt) {
    && 0 < |r.evidence| <= 256 && (forall i, j | 0 <= i < j < |r.evidence| :: r.evidence[i] < r.evidence[j])
    && |r.outputs| == 4 && (forall i, j | 0 <= i < j < 4 :: r.outputs[i] != r.outputs[j])
    && (forall o | o in r.outputs ::
          o != r.poc && o != r.environment && o != r.effectOracle && o !in r.evidence)
    && |r.outputSizes| == 4 && (forall n | n in r.outputSizes :: n > 0)
    && r.outputSizes[0] + r.outputSizes[1] + r.outputSizes[2] + r.outputSizes[3] <= 64 * MIB
    && r.modeledTier && 0 <= r.completedAt <= MAX_EPOCH_SECOND
  }

  lemma SoundExactly(r: Receipt)
    ensures ValidReceipt(r) <==> Sound(r)
  {
    var inputs := [r.poc] + r.evidence + [r.environment, r.effectOracle];
    assert forall o :: o in inputs <==> o == r.poc || o in r.evidence || o == r.environment || o == r.effectOracle;
    if |r.outputSizes| == 4 {
      var n := r.outputSizes;
      TotalOfFour(n);
      assert n[0] in n && n[1] in n && n[2] in n && n[3] in n;
      assert n == [n[0], n[1], n[2], n[3]];
    }
  }

  lemma TotalOfFour(s: seq<int>)
    requires |s| == 4
    ensures Total(s) == s[0] + s[1] + s[2] + s[3]
  {
    assert s[..3][..2] == s[..2] && s[..2][..1] == s[..1] && s[..1][..0] == [];
    assert Total(s[..1]) == s[0] && Total(s[..2]) == Total(s[..1]) + s[1] && Total(s[..3]) == Total(s[..2]) + s[2];
  }

  /** A trusted, unrevoked verifier key of the named verifier signed this envelope. */
  ghost predicate SignedByVerifier(C: Crypto, t: TrustStore, signed: Signed, r: Receipt) {
    && signed.key in t.keys && signed.key !in t.revokedKeys && r.id !in t.revokedReceipts
    && VERIFIER_ROLE in t.keys[signed.key].roles && t.keys[signed.key].verifier == r.verifier && r.key == signed.key
    && C.verifies(t.keys[signed.key].publicKey, signed.envelope, signed.signature)
  }

  /** Receipt and lease are about the same candidate, producer, inputs and verifier. */
  ghost predicate Answers(r: Receipt, l: Lease) {
    && (r.lease, r.mission, r.authority, r.snapshot) == (l.id, l.mission, l.authority, l.snapshot)
    && (r.candidate, r.producer, r.verifier, r.key) == (l.candidate, l.producer, l.verifier, l.key)
    && (r.poc, r.environment, r.effectOracle, r.evidence) == (l.poc, l.environment, l.effectOracle, l.evidence)
  }

  /** Confirmed means that both were observed, and the two negative verdicts that neither was. */
  ghost predicate Observed(r: Receipt) {
    && (r.verdict == Confirmed <==> r.effectObserved && r.oracleSatisfied)
    && (r.verdict == NotReproduced || r.verdict == InvalidClaim ==> !r.effectObserved && !r.oracleSatisfied)
  }

  /** The resolution named by the receipt resolves exactly the lease's inputs, and none of them is an output. */
  ghost predicate ResolvedFor(C: Crypto, res: Resolution, l: Lease, r: Receipt) {
    && r.resolution == C.resolutionId(res) && (res.lease, res.mission, res.authority) == (l.id, l.mission, l.authority)
    && (res.snapshot, res.candidate) == (l.snapshot, l.candidate)
    && (res.poc.digest, res.poc.kind) == (l.poc, PocInput) && res.poc.size > 0
    && (res.environment.digest, res.environment.kind) == (l.environment, EnvironmentSpec) && res.environment.size > 0
    && (res.effectOracle.digest, res.effectOracle.kind) == (l.effectOracle, EffectOracleSpec)
    && res.effectOracle.size > 0
    && |res.evidence| == |l.evidence|
    && (forall i | 0 <= i < |l.evidence| ::
          && res.evidence[i].digest == l.evidence[i] && res.evidence[i].kind == SupportingEvidence
          && res.evidence[i].size > 0)
    && (forall o | o in r.outputs ::
          && o != l.poc && o != l.environment && o != l.effectOracle && o !in l.evidence
          && forall i | 0 <= i < |res.targets| :: res.targets[i].digest != o)
  }

  /** Strictly staged: lease, resolution, receipt, decision, expiry. */
  ghost predicate Staged(l: Lease, res: Resolution, r: Receipt, decisionTime: int) {
    && 0 <= decisionTime <= MAX_EPOCH_SECOND
    && l.issuedAt <= res.resolvedAt < r.completedAt <= decisionTime < l.expiresAt
  }

  lemma BindingExactly(C: Crypto, res: Resolution, l: Lease, r: Receipt, decisionTime: int)
    ensures BindingReason(C, res, l, r, decisionTime).None? <==>
            && ResolvedFor(C, res, l, r)
            && l.issuedAt <= res.resolvedAt < l.expiresAt && res.resolvedAt < r.completedAt
            && res.resolvedAt <= decisionTime
  {
    hide InputDigests, TargetDigests;
    var targets := TargetDigests(res.targets);
    if |res.evidence| == |l.evidence| && InputsBound(res, l) { ResolvedInputs(res, l); }
    forall o ensures o in targets <==> exists i :: 0 <= i < |res.targets| && res.targets[i].digest == o {
      if o in targets {
        var i :| 0 <= i < |targets| && targets[i] == o;
        assert res.targets[i].digest == o;
      }
      if exists i :: 0 <= i < |res.targets| && res.targets[i].digest == o {
        var i :| 0 <= i < |res.targets| && res.targets[i].digest == o;
        assert targets[i] == o;
      }
    }
  }

  lemma ResolvedInputs(res: Resolution, l: Lease)
    requires |res.evidence| == |l.evidence| && InputsBound(res, l)
    ensures forall o :: o in InputDigests(res) <==>
              o == l.poc || o == l.environment || o == l.effectOracle || o in l.evidence
  {
    assert Digests(res.evidence) == l.evidence;
  }

  /**
   A receipt is authenticated exactly when it stands on its own, a trusted verifier other
   than the producer signed it, it answers the unrevoked lease with the resolution's inputs,
   the verdict is the expected one and fits the observations, and the times are staged.
   */
  lemma AuthenticatesExactly(C: Crypto, t: TrustStore, signed: Signed, l: Lease, res: Resolution,
                             decisionTime: int, expected: Option<Verdict>, r: Receipt)
    ensures Authenticate(C, t, signed, l, res, decisionTime, expected)
            == Ok(Authenticated(signed, r, l, res, t.snapshot)) <==>
            && C.parse(signed.envelope) == Some(r) && C.encode(r) == signed.envelope && Sound(r)
            && SignedByVerifier(C, t, signed, r) && l.verifier != l.producer && l.id !in t.revokedLeases
            && Answers(r, l) && ResolvedFor(C, res, l, r) && Staged(l, res, r, decisionTime)
            && Observed(r) && (expected.Some? ==> r.verdict == expected.value)
  {
    hide BindingReason, ValidReceipt, Sound, ResolvedFor;
    SoundExactly(r);
    BindingExactly(C, res, l, r, decisionTime);
    BindingExactly(C, res, l, r, MAX_EPOCH_SECOND);
  }

  /** Eligible is authenticated, with the lease unconsumed and every artifact held. */
  lemma EligibleExactly(C: Crypto, t: TrustStore, signed: Signed, l: Lease, res: Resolution, decisionTime: int,
                        expected: Option<Verdict>, consumed: set<Id>, artifactsHeld: bool)
    ensures Validate(C, t, signed, l, res, decisionTime, expected, consumed, artifactsHeld).Ok? <==>
            && Authenticate(C, t, signed, l, res, decisionTime, expected).Ok? && l.id !in consumed && artifactsHeld
    ensures var v := Validate(C, t, signed, l, res, decisionTime, expected, consumed, artifactsHeld);
            v.Ok? ==> v == Authenticate(C, t, signed, l, res, decisionTime, expected)
  {
  }

  /** Each refusal names something that is the case. */
  ghost predicate Truthful(C: Crypto, t: TrustStore, signed: Signed, l: Lease, res: Resolution, decisionTime: int,
                           expected: Option<Verdict>, why: Refusal) {
    var parsed, trusted := C.parse(signed.envelope), signed.key in t.keys;
    match why
    case InvalidDecisionTime => decisionTime < 0 || decisionTime > MAX_EPOCH_SECOND
    case SelfVerification => l.producer == l.verifier
    case LeaseRevoked => l.id in t.revokedLeases
    case LeaseNotYetValid => decisionTime < l.issuedAt
    case LeaseExpired => l.expiresAt <= decisionTime
    case KeyRevoked => signed.key in t.revokedKeys
    case UnknownKey => !trusted
    case KeyMissingRole => trusted && VERIFIER_ROLE !in t.keys[signed.key].roles
    case InvalidSignature => trusted && !C.verifies(t.keys[signed.key].publicKey, signed.envelope, signed.signature)
    case InvalidEnvelope => parsed.None?
    case _ => parsed.Some? && TruthfulOf(C, t, signed, l, res, decisionTime, expected, parsed.value, why)
  }

  ghost predicate TruthfulOf(C: Crypto, t: TrustStore, signed: Signed, l: Lease, res: Resolution, decisionTime: int,
                             expected: Option<Verdict>, r: Receipt, why: Refusal) {
    match why
    case NoncanonicalEnvelope => C.encode(r) != signed.envelope
    case MalformedReceipt => !Sound(r)
    case ReceiptRevoked => r.id in t.revokedReceipts
    case SignerKeyMismatch => r.key != signed.key
    case VerifierIdentityMismatch => signed.key in t.keys && r.verifier != t.keys[signed.key].verifier
    case LeaseFieldMismatch => !Answers(r, l)
    case ReceiptBeforeLease => r.completedAt < l.issuedAt
    case ReceiptAfterExpiry => l.expiresAt <= r.completedAt
    case ReceiptFromFuture => decisionTime < r.completedAt
    case VerdictMismatch => expected.Some? && r.verdict != expected.value
    case VerdictInconsistent => !Observed(r)
    case ResolutionBeforeLease => res.resolvedAt < l.issuedAt
    case ResolutionAfterExpiry => l.expiresAt <= res.resolvedAt
    case ResolutionAfterReceipt => r.completedAt <= res.resolvedAt
    case ResolutionFromFuture => decisionTime < res.resolvedAt
    case EvidenceCountMismatch => |res.evidence| != |l.evidence|
    case ResolutionMismatch => !ResolvedFor(C, res, l, r)
    case InputMismatch => !ResolvedFor(C, res, l, r)
    case OutputCollision => !ResolvedFor(C, res, l, r) && |res.evidence| == |l.evidence| && InputsBound(res, l)
    case _ => false
  }

  lemma BindingReasons(C: Crypto, t: TrustStore, signed: Signed, l: Lease, res: Resolution, decisionTime: int,
                       expected: Option<Verdict>, r: Receipt)
    ensures var why := BindingReason(C, res, l, r, decisionTime);
            why.Some? ==> TruthfulOf(C, t, signed, l, res, decisionTime, expected, r, why.value)
  {
    hide InputsBound, InputDigests, TargetDigests, Sound, Answers, Observed;
    BindingExactly(C, res, l, r, decisionTime);
  }

  lemma AnswersExactly(r: Receipt, l: Lease)
    ensures AgreesWithLease(r, l) <==> Answers(r, l)
    ensures VerdictConsistent(r) <==> Observed(r)
  {
  }

  lemma ConstructOnly(C: Crypto, a: Authenticated)
    ensures Construct(C, a) == Ok(a) || Construct(C, a) == Err(IncoherentResult)
  {
  }

  /** The checks that do not look into the receipt. */
  ghost predicate EnvelopeTrusted(C: Crypto, t: TrustStore, signed: Signed, l: Lease, decisionTime: int) {
    && 0 <= decisionTime <= MAX_EPOCH_SECOND && l.producer != l.verifier && l.id !in t.revokedLeases
    && l.issuedAt <= decisionTime < l.expiresAt && signed.key !in t.revokedKeys && signed.key in t.keys
    && VERIFIER_ROLE in t.keys[signed.key].roles
    && C.verifies(t.keys[signed.key].publicKey, signed.envelope, signed.signature) && C.parse(signed.envelope).Some?
  }

  lemma EarlyReasons(C: Crypto, t: TrustStore, signed: Signed, l: Lease, res: Resolution, decisionTime: int,
                     expected: Option<Verdict>)
    requires !EnvelopeTrusted(C, t, signed, l, decisionTime)
    ensures var a := Authenticate(C, t, signed, l, res, decisionTime, expected);
            a.Err? && Truthful(C, t, signed, l, res, decisionTime, expected, a.error)
  {
    hide ValidReceipt, BindingReason, Construct, AgreesWithLease, VerdictConsistent, TruthfulOf;
  }

  lemma LateReasons(C: Crypto, t: TrustStore, signed: Signed, l: Lease, res: Resolution, decisionTime: int,
                    expected: Option<Verdict>)
    requires EnvelopeTrusted(C, t, signed, l, decisionTime)
    ensures var a, r := Authenticate(C, t, signed, l, res, decisionTime, expected), C.parse(signed.envelope).value;
            a.Err? ==> TruthfulOf(C, t, signed, l, res, decisionTime, expected, r, a.error)
  {
    hide ValidReceipt, Sound, ResolvedFor, BindingReason, Construct, Answers, AgreesWithLease, Observed,
         VerdictConsistent;
    var r := C.parse(signed.envelope).value;
    RecheckNeverFails(C, t, signed, l, res, decisionTime, expected);
    SoundExactly(r);
    AnswersExactly(r, l);
    ConstructOnly(C, Authenticated(signed, r, l, res, t.snapshot));
    BindingReasons(C, t, signed, l, res, decisionTime, expected, r);
  }

  /** Past the other comparisons the receipt's time is refused for the first of three reasons that applies. */
  lemma TimeReasons(C: Crypto, t: TrustStore, signed: Signed, l: Lease, res: Resolution, decisionTime: int,
                    expected: Option<Verdict>, r: Receipt)
    requires EnvelopeTrusted(C, t, signed, l, decisionTime) && C.parse(signed.envelope) == Some(r)
    requires C.encode(r) == signed.envelope && Sound(r) && SignedByVerifier(C, t, signed, r) && Answers(r, l)
    ensures var a := Authenticate(C, t, signed, l, res, decisionTime, expected);
            && (a == Err(ReceiptBeforeLease) <==> r.completedAt < l.issuedAt)
            && (a == Err(ReceiptAfterExpiry) <==> l.expiresAt <= r.completedAt)
            && (a == Err(ReceiptFromFuture) <==> decisionTime < r.completedAt < l.expiresAt)
  {
    hide ValidReceipt, Sound, BindingReason, Construct, Answers, AgreesWithLease, VerdictConsistent, Observed;
    SoundExactly(r);
    AnswersExactly(r, l);
    ConstructOnly(C, Authenticated(signed, r, l, res, t.snapshot));
    NotTimeReasons(C, res, l, r, decisionTime);
  }

  lemma NotTimeReasons(C: Crypto, res: Resolution, l: Lease, r: Receipt, decisionTime: int)
    ensures BindingReason(C, res, l, r, decisionTime)
            !in {Some(ReceiptBeforeLease), Some(ReceiptAfterExpiry), Some(ReceiptFromFuture)}
  {
  }

  lemma RefusalReasons(C: Crypto, t: TrustStore, signed: Signed, l: Lease, res: Resolution, decisionTime: int,
                       expected: Option<Verdict>)
    ensures var a := Authenticate(C, t, signed, l, res, decisionTime, expected);
            a.Err? ==> Truthful(C, t, signed, l, res, decisionTime, expected, a.error)
  {
    hide Authenticate, Sound, ResolvedFor, Answers, Observed, InputsBound;
    if EnvelopeTrusted(C, t, signed, l, decisionTime) {
      LateReasons(C, t, signed, l, res, decisionTime, expected);
    } else {
      EarlyReasons(C, t, signed, l, res, decisionTime, expected);
    }
  }

  lemma DisjointConcat(a: seq<Id>, b: seq<Id>)
    requires Distinct(a) && Distinct(b) && forall x | x in b :: x !in a
    ensures Distinct(a + b)
  {
    var c := a + b;
    forall i, j | 0 <= i < j < |c| ensures c[i] != c[j] {
      if i < |a| <= j { assert c[j] in b && c[i] in a; }
    }
  }
}
