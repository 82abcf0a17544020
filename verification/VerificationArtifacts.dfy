/** The retained artifact resolution of etzio/verification_artifacts.py and what its constructor demands. */
module VerificationArtifacts {
  import opened Common

  const MIB: int := 0x10_0000
  const MAX_SINGLE_ARTIFACT_BYTES: int := 64 * MIB
  const MAX_TYPED_INPUT_BYTES: int := 64 * MIB
  const MAX_RESOLUTION_BYTES: int := 128 * MIB
  const MAX_ARTIFACTS_PER_ROLE: nat := 256

  datatype ArtifactType =
    | PocInput | EnvironmentSpec | EffectOracleSpec | SupportingEvidence
    | ExecutionOutput | EffectOutput | MeasuredEnvironmentOutput | TerminationOutput

  datatype Binding = Binding(digest: Id, kind: ArtifactType, size: int)

  datatype TargetBinding = TargetBinding(digest: Id, path: Id, size: int)

  predicate ValidBinding(b: Binding) {
    0 < b.size <= MAX_SINGLE_ARTIFACT_BYTES
  }

  predicate ValidTarget(b: TargetBinding) {
    0 <= b.size <= MAX_SINGLE_ARTIFACT_BYTES
  }

  /** The verification lease, as far as resolution and receipts look at it. */
  datatype Lease = Lease(
    id: Id, mission: Id, authority: Id, snapshot: Id, candidate: Id, producer: Id,
    poc: Id, evidence: seq<Id>, environment: Id, effectOracle: Id,
    verifier: Id, key: Id, issuedAt: int, expiresAt: int)

  const MAX_EVIDENCE_ARTIFACTS: nat := 256

  /** `_validate_evidence_tuple` */
  predicate ValidEvidence(e: seq<Id>) {
    0 < |e| <= MAX_EVIDENCE_ARTIFACTS && Increasing(e)
  }

  /** `_validate_lease_values` */
  predicate ValidLease(l: Lease) {
    && ValidEvidence(l.evidence) && Distinct([l.poc] + l.evidence + [l.environment, l.effectOracle])
    && 0 <= l.issuedAt < l.expiresAt <= MAX_EPOCH_SECOND
  }

  datatype Resolution = Resolution(
    authority: Id, candidate: Id, mission: Id, snapshot: Id, lease: Id, resolvedAt: int,
    poc: Binding, environment: Binding, effectOracle: Binding, evidence: seq<Binding>, targets: seq<TargetBinding>)

  // ----- byte sums -----

  function Sizes(bs: seq<Binding>): int {
    if bs == [] then 0 else Sizes(bs[..|bs| - 1]) + bs[|bs| - 1].size
  }

  function TargetSizes(bs: seq<TargetBinding>): int {
    if bs == [] then 0 else TargetSizes(bs[..|bs| - 1]) + bs[|bs| - 1].size
  }

  function TypedInputBytes(r: Resolution): int {
    r.poc.size + r.environment.size + r.effectOracle.size + Sizes(r.evidence)
  }

  function TotalBytes(r: Resolution): int {
    TargetSizes(r.targets) + TypedInputBytes(r)
  }

  // ----- canonical order and disjoint roles -----

  function Digests(bs: seq<Binding>): (r: seq<Id>)
    ensures |r| == |bs| && forall i | 0 <= i < |bs| :: r[i] == bs[i].digest
  {
    seq(|bs|, i requires 0 <= i < |bs| => bs[i].digest)
  }

  function TargetDigests(bs: seq<TargetBinding>): (r: seq<Id>)
    ensures |r| == |bs| && forall i | 0 <= i < |bs| :: r[i] == bs[i].digest
  {
    seq(|bs|, i requires 0 <= i < |bs| => bs[i].digest)
  }

  function Paths(bs: seq<TargetBinding>): (r: seq<Id>)
    ensures |r| == |bs| && forall i | 0 <= i < |bs| :: r[i] == bs[i].path
  {
    seq(|bs|, i requires 0 <= i < |bs| => bs[i].path)
  }

  /** The digests of the typed inputs. */
  function InputDigests(r: Resolution): seq<Id> {
    [r.poc.digest, r.environment.digest, r.effectOracle.digest] + Digests(r.evidence)
  }

  datatype Reason =
    | InvalidResolvedAt | InvalidTargets | NoncanonicalTargets | InvalidEvidence | NoncanonicalEvidence
    | RoleMismatch | RoleCollision | TypedCeiling | OverallCeiling

  /** `_validate_values`, in order; None is acceptance. */
  function Problem(r: Resolution): Option<Reason> {
    if !(0 <= r.resolvedAt <= MAX_EPOCH_SECOND) then Some(InvalidResolvedAt)
    else if !(0 < |r.targets| <= MAX_ARTIFACTS_PER_ROLE) then Some(InvalidTargets)
    else if !Increasing(Paths(r.targets)) then Some(NoncanonicalTargets)
    else if !(0 < |r.evidence| <= MAX_ARTIFACTS_PER_ROLE) then Some(InvalidEvidence)
    else if !Increasing(Digests(r.evidence)) then Some(NoncanonicalEvidence)
    else if !(r.poc.kind.PocInput? && r.environment.kind.EnvironmentSpec? && r.effectOracle.kind.EffectOracleSpec?) then
      Some(RoleMismatch)
    else if exists b | b in r.evidence :: !b.kind.SupportingEvidence? then Some(RoleMismatch)
    else if !Distinct(InputDigests(r)) then Some(RoleCollision)
    else if exists d | d in TargetDigests(r.targets) :: d in InputDigests(r) then Some(RoleCollision)
    else if TypedInputBytes(r) > MAX_TYPED_INPUT_BYTES then Some(TypedCeiling)
    else if TotalBytes(r) > MAX_RESOLUTION_BYTES then Some(OverallCeiling)
    else None
  }

  predicate Valid(r: Resolution) {
    && ValidBinding(r.poc) && ValidBinding(r.environment) && ValidBinding(r.effectOracle)
    && (forall b | b in r.evidence :: ValidBinding(b)) && (forall t | t in r.targets :: ValidTarget(t))
    && Problem(r).None?
  }

  // ----- exactly what the constructor accepts -----

  /** Both lists nonempty, bounded and in strict order. */
  ghost predicate Listed(r: Resolution) {
    && 0 < |r.targets| <= 256 && (forall i, j | 0 <= i < j < |r.targets| :: r.targets[i].path < r.targets[j].path)
    && 0 < |r.evidence| <= 256
    && (forall i, j | 0 <= i < j < |r.evidence| :: r.evidence[i].digest < r.evidence[j].digest)
  }

  /** Every input in its role. */
  ghost predicate InRole(r: Resolution) {
    && (r.poc.kind, r.environment.kind, r.effectOracle.kind) == (PocInput, EnvironmentSpec, EffectOracleSpec)
    && forall i | 0 <= i < |r.evidence| :: r.evidence[i].kind == SupportingEvidence
  }

  /** No digest has two roles. */
  ghost predicate Apart(r: Resolution) {
    && r.poc.digest != r.environment.digest && r.poc.digest != r.effectOracle.digest
    && r.environment.digest != r.effectOracle.digest
    && (forall b | b in r.evidence ::
          b.digest != r.poc.digest && b.digest != r.environment.digest && b.digest != r.effectOracle.digest)
    && (forall i, j | 0 <= i < j < |r.evidence| :: r.evidence[i].digest != r.evidence[j].digest)
    && (forall t | t in r.targets :: NoInput(r, t.digest))
  }

  ghost predicate NoInput(r: Resolution, d: Id) {
    && d != r.poc.digest && d != r.environment.digest && d != r.effectOracle.digest
    && forall b | b in r.evidence :: b.digest != d
  }

  lemma ListedExactly(r: Resolution)
    ensures Listed(r) <==> && 0 < |r.targets| <= MAX_ARTIFACTS_PER_ROLE && Increasing(Paths(r.targets))
                           && 0 < |r.evidence| <= MAX_ARTIFACTS_PER_ROLE && Increasing(Digests(r.evidence))
  {
    var p, d := Paths(r.targets), Digests(r.evidence);
    if Listed(r) {
      assert forall i, j | 0 <= i < j < |p| :: p[i] < p[j];
      assert forall i, j | 0 <= i < j < |d| :: d[i] < d[j];
    }
    if Increasing(p) {
      forall i, j | 0 <= i < j < |r.targets| ensures r.targets[i].path < r.targets[j].path { assert p[i] < p[j]; }
    }
    if Increasing(d) {
      forall i, j | 0 <= i < j < |r.evidence| ensures r.evidence[i].digest < r.evidence[j].digest {
        assert d[i] < d[j];
      }
    }
  }

  lemma DistinctInputs(a: Id, b: Id, c: Id, rest: seq<Id>)
    ensures Distinct([a, b, c] + rest) <==>
            && a != b && a != c && b != c && Distinct(rest) && a !in rest && b !in rest && c !in rest
  {
    var s := [a, b, c] + rest;
    if Distinct(s) {
      assert s[0] == a && s[1] == b && s[2] == c;
      forall i | 0 <= i < |rest| ensures rest[i] != a && rest[i] != b && rest[i] != c { assert s[3 + i] == rest[i]; }
      forall i, j | 0 <= i < j < |rest| ensures rest[i] != rest[j] {
        assert s[3 + i] == rest[i] && s[3 + j] == rest[j];
      }
    }
  }

  lemma InDigests(bs: seq<Binding>, d: Id)
    ensures d in Digests(bs) <==> exists b | b in bs :: b.digest == d
  {
    var ds := Digests(bs);
    if d in ds {
      var i :| 0 <= i < |ds| && ds[i] == d;
      assert bs[i] in bs && bs[i].digest == d;
    }
    if b :| b in bs && b.digest == d {
      var i :| 0 <= i < |bs| && bs[i] == b;
      assert ds[i] == d;
    }
  }

  lemma InTargetDigests(ts: seq<TargetBinding>, d: Id)
    ensures d in TargetDigests(ts) <==> exists t | t in ts :: t.digest == d
  {
    var ds := TargetDigests(ts);
    if d in ds {
      var i :| 0 <= i < |ds| && ds[i] == d;
      assert ts[i] in ts && ts[i].digest == d;
    }
    if t :| t in ts && t.digest == d {
      var i :| 0 <= i < |ts| && ts[i] == t;
      assert ds[i] == d;
    }
  }

  lemma NoInputExactly(r: Resolution, d: Id)
    ensures NoInput(r, d) <==> d !in InputDigests(r)
  {
    hide Digests;
    InDigests(r.evidence, d);
  }

  lemma ApartExactly(r: Resolution)
    ensures Apart(r) <==>
            Distinct(InputDigests(r)) && forall d | d in TargetDigests(r.targets) :: d !in InputDigests(r)
  {
    hide TargetDigests, NoInput, Distinct;
    var rest, targets := Digests(r.evidence), TargetDigests(r.targets);
    DistinctInputs(r.poc.digest, r.environment.digest, r.effectOracle.digest, rest);
    DistinctDigests(r.evidence);
    InDigests(r.evidence, r.poc.digest);
    InDigests(r.evidence, r.environment.digest);
    InDigests(r.evidence, r.effectOracle.digest);
    TargetsExactly(r);
  }

  lemma TargetsExactly(r: Resolution)
    ensures (forall t | t in r.targets :: NoInput(r, t.digest)) <==>
            forall d | d in TargetDigests(r.targets) :: d !in InputDigests(r)
  {
    hide TargetDigests, NoInput, InputDigests;
    forall d ensures NoInput(r, d) <==> d !in InputDigests(r) { NoInputExactly(r, d); }
    forall d ensures d in TargetDigests(r.targets) <==> exists t | t in r.targets :: t.digest == d {
      InTargetDigests(r.targets, d);
    }
  }

  lemma DistinctDigests(bs: seq<Binding>)
    ensures Distinct(Digests(bs)) <==> forall i, j | 0 <= i < j < |bs| :: bs[i].digest != bs[j].digest
  {
    var ds := Digests(bs);
    if Distinct(ds) {
      forall i, j | 0 <= i < j < |bs| ensures bs[i].digest != bs[j].digest { assert ds[i] != ds[j]; }
    }
  }

  /** The constructor accepts exactly what is dated, listed, in role, apart and within both ceilings. */
  lemma ProblemExactly(r: Resolution)
    ensures Problem(r).None? <==>
            && 0 <= r.resolvedAt <= MAX_EPOCH_SECOND && Listed(r) && InRole(r) && Apart(r)
            && TypedInputBytes(r) <= 64 * MIB && TotalBytes(r) <= 128 * MIB
  {
    hide Increasing, Distinct, Digests, TargetDigests, Paths, InputDigests, TypedInputBytes, TotalBytes, Listed, Apart;
    ListedExactly(r);
    ApartExactly(r);
  }

  /** With its bindings constructed, it is valid exactly when also no input is empty and no target oversize. */
  lemma ValidExactly(r: Resolution)
    ensures Valid(r) <==>
            && Problem(r).None? && r.poc.size > 0 && r.environment.size > 0 && r.effectOracle.size > 0
            && (forall i | 0 <= i < |r.evidence| :: r.evidence[i].size > 0)
            && (forall i | 0 <= i < |r.targets| :: 0 <= r.targets[i].size <= 64 * MIB)
  {
    hide Problem;
    if Problem(r).None? {
      ProblemExactly(r);
      if r.poc.size > 0 && r.environment.size > 0 && r.effectOracle.size > 0
         && forall i | 0 <= i < |r.evidence| :: r.evidence[i].size > 0 {
        SizesPositive(r.evidence);
        forall b | b in r.evidence ensures ValidBinding(b) {
          var i :| 0 <= i < |r.evidence| && r.evidence[i] == b;
          SizeWithin(r.evidence, i);
        }
      }
      assert forall i | 0 <= i < |r.evidence| :: r.evidence[i] in r.evidence;
      assert forall i | 0 <= i < |r.targets| :: r.targets[i] in r.targets;
    }
  }

  lemma {:induction false} SizesPositive(bs: seq<Binding>)
    requires forall i | 0 <= i < |bs| :: bs[i].size > 0
    ensures Sizes(bs) >= 0
  {
    if bs != [] { SizesPositive(bs[..|bs| - 1]); }
  }

  lemma {:induction false} SizeWithin(bs: seq<Binding>, i: nat)
    requires i < |bs| && forall k | 0 <= k < |bs| :: bs[k].size > 0
    ensures bs[i].size <= Sizes(bs)
  {
    var n := |bs| - 1;
    if i < n { SizeWithin(bs[..n], i); } else { SizesPositive(bs[..n]); }
  }

  /** Each refusal names something that is the case. */
  lemma ProblemReasons(r: Resolution)
    ensures match Problem(r)
            case None => true
            case Some(InvalidResolvedAt) => !(0 <= r.resolvedAt <= MAX_EPOCH_SECOND)
            case Some(InvalidTargets) => r.targets == [] || |r.targets| > 256
            case Some(NoncanonicalTargets) => !Listed(r) && 0 < |r.targets| <= 256
            case Some(InvalidEvidence) => r.evidence == [] || |r.evidence| > 256
            case Some(NoncanonicalEvidence) => !Listed(r) && 0 < |r.evidence| <= 256
            case Some(RoleMismatch) => !InRole(r)
            case Some(RoleCollision) => !Apart(r)
            case Some(TypedCeiling) => TypedInputBytes(r) > 64 * MIB
            case Some(OverallCeiling) => TotalBytes(r) > 128 * MIB
  {
    hide Increasing, Distinct, Digests, TargetDigests, Paths, InputDigests, TypedInputBytes, TotalBytes, Listed, Apart;
    ListedExactly(r);
    ApartExactly(r);
  }
}
