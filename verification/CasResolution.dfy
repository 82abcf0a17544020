/**
 `_resolve_from_cas` of etzio/kernel/artifact_resolution.py with the snapshot ceilings of
 etzio/evidence.py: three files of byte budgets that have to compose.
 */
module CasResolution {
  import opened Common
  import opened VerificationArtifacts

  const MAX_SNAPSHOT_BYTES: int := 64 * MIB
  const MAX_SNAPSHOT_FILES: nat := 256

  datatype SnapshotFile = SnapshotFile(path: Id, digest: Id, size: int)

  datatype Snapshot = Snapshot(id: Id, files: seq<SnapshotFile>)

  function FileSizes(fs: seq<SnapshotFile>): int {
    if fs == [] then 0 else FileSizes(fs[..|fs| - 1]) + fs[|fs| - 1].size
  }

  /** `TargetSnapshotV1.__post_init__` */
  ghost predicate ValidSnapshot(s: Snapshot) {
    && 0 < |s.files| <= MAX_SNAPSHOT_FILES
    && (forall f | f in s.files :: f.size >= 0)
    && FileSizes(s.files) <= MAX_SNAPSHOT_BYTES
    && (forall i, j | 0 <= i < j < |s.files| :: s.files[i].path < s.files[j].path)
  }

  /** The snapshot of some files, as `retain_snapshot` takes it. */
  function SnapshotFrom(id: Id, paths: seq<Id>, hash: Bytes -> Id, data: seq<Bytes>): Snapshot
    requires |paths| == |data|
  {
    Snapshot(id, seq(|data|, i requires 0 <= i < |data| => SnapshotFile(paths[i], hash(data[i]), |data[i]|)))
  }

  /** It constructs exactly for one to 256 files, in strict path order, of 64 MiB together; empty files are fine. */
  lemma SnapshotExactly(id: Id, paths: seq<Id>, hash: Bytes -> Id, data: seq<Bytes>)
    requires |paths| == |data|
    ensures ValidSnapshot(SnapshotFrom(id, paths, hash, data)) <==>
            0 < |data| <= 256 && Increasing(paths) && Lengths(data) <= 64 * MIB
  {
    hide FileSizes, Lengths;
    var files := SnapshotFrom(id, paths, hash, data).files;
    SizesOfData(files, data);
    assert |files| == |paths| && forall i | 0 <= i < |files| :: files[i].path == paths[i];
    if ValidSnapshot(SnapshotFrom(id, paths, hash, data)) {
      forall i, j | 0 <= i < j < |paths| ensures paths[i] < paths[j] { assert files[i].path < files[j].path; }
    }
  }

  lemma {:induction false} SizesOfData(files: seq<SnapshotFile>, data: seq<Bytes>)
    requires |files| == |data| && forall i | 0 <= i < |data| :: files[i].size == |data[i]|
    ensures FileSizes(files) == Lengths(data)
  {
    if data != [] { SizesOfData(files[..|data| - 1], data[..|data| - 1]); }
  }

  datatype Error =
    | TargetMismatch
    | TargetsExhaustGrant
    | SourcesUnavailable
    | ManifestMismatch
    | InputsUnavailable
    | InputsExceedLimit
    | InvalidArtifactSize
    | Invalid(reason: Reason)
    | IssuedExceedsGrant
    | IssuedExceedsOverall

  function Lengths(bs: seq<Bytes>): int {
    if bs == [] then 0 else Lengths(bs[..|bs| - 1]) + |bs[|bs| - 1]|
  }

  /** `validate_etzio_fixture_snapshot_bytes`: metadata and bytes both match the manifest. */
  ghost predicate MatchesManifest(manifest: map<Id, (int, Id)>, hash: Bytes -> Id,
                                  files: seq<SnapshotFile>, data: seq<Bytes>)
    requires |files| == |data|
  {
    forall i | 0 <= i < |files| ::
      && files[i].path in manifest
      && (files[i].size, files[i].digest) == manifest[files[i].path]
      && |data[i]| == files[i].size && hash(data[i]) == files[i].digest
  }

  function Min(a: int, b: int): int {
    if a < b then a else b
  }

  method CheckManifest(manifest: map<Id, (int, Id)>, hash: Bytes -> Id, files: seq<SnapshotFile>, data: seq<Bytes>)
    returns (ok: bool)
    requires |files| == |data|
    ensures ok <==> MatchesManifest(manifest, hash, files, data)
  {
    for i := 0 to |files|
      invariant MatchesManifest(manifest, hash, files[..i], data[..i])
    {
      var f := files[i];
      if f.path !in manifest || (f.size, f.digest) != manifest[f.path]
         || |data[i]| != f.size || hash(data[i]) != f.digest {
        return false;
      }
    }
    assert files[..|files|] == files && data[..|files|] == data;
    return true;
  }

  lemma ManifestSizes(manifest: map<Id, (int, Id)>, hash: Bytes -> Id, files: seq<SnapshotFile>, data: seq<Bytes>)
    requires |files| == |data| && MatchesManifest(manifest, hash, files, data)
    ensures forall i | 0 <= i < |files| :: |data[i]| == files[i].size
  {
  }

  method BindTargets(files: seq<SnapshotFile>, data: seq<Bytes>) returns (targets: seq<TargetBinding>)
    requires |files| == |data| && forall i | 0 <= i < |files| :: |data[i]| == files[i].size
    ensures |targets| == |files| && TargetSizes(targets) == FileSizes(files)
    ensures forall i | 0 <= i < |files| :: targets[i] == TargetBinding(files[i].digest, files[i].path, files[i].size)
  {
    targets := [];
    for i := 0 to |files|
      invariant |targets| == i && TargetSizes(targets) == FileSizes(files[..i])
      invariant forall k | 0 <= k < i :: targets[k] == TargetBinding(files[k].digest, files[k].path, files[k].size)
    {
      assert files[..i + 1][..i] == files[..i];
      var b := TargetBinding(files[i].digest, files[i].path, |data[i]|);
      assert (targets + [b])[..i] == targets;
      targets := targets + [b];
    }
    assert files[..|files|] == files;
  }

  /** One binding per requested digest, each nonempty and within the single-artifact ceiling. */
  method BindInputs(kinds: seq<ArtifactType>, digests: seq<Id>, data: seq<Bytes>)
    returns (r: Result<seq<Binding>, Error>)
    requires |kinds| == |digests| == |data|
    ensures r.Ok? <==> forall i | 0 <= i < |data| :: 0 < |data[i]| <= MAX_SINGLE_ARTIFACT_BYTES
    ensures r.Err? ==> r.error == InvalidArtifactSize
    ensures r.Ok? ==> |r.value| == |data| && Sizes(r.value) == Lengths(data)
    ensures r.Ok? ==> forall i | 0 <= i < |data| :: r.value[i] == Binding(digests[i], kinds[i], |data[i]|)
  {
    var out: seq<Binding> := [];
    for i := 0 to |data|
      invariant |out| == i && Sizes(out) == Lengths(data[..i])
      invariant forall k | 0 <= k < i :: out[k] == Binding(digests[k], kinds[k], |data[k]|) && ValidBinding(out[k])
    {
      assert data[..i + 1][..i] == data[..i];
      var b := Binding(digests[i], kinds[i], |data[i]|);
      if !ValidBinding(b) { return Err(InvalidArtifactSize); }
      assert (out + [b])[..i] == out;
      out := out + [b];
    }
    assert data[..|data|] == data;
    return Ok(out);
  }

  lemma {:induction false} FileBounds(fs: seq<SnapshotFile>, i: nat)
    requires i < |fs| && forall f | f in fs :: f.size >= 0
    ensures 0 <= fs[i].size <= FileSizes(fs)
  {
    var n := |fs| - 1;
    assert forall f | f in fs[..n] :: f in fs;
    assert fs[n] in fs;
    if i < n {
      FileBounds(fs[..n], i);
    } else {
      FileSizesNonnegative(fs[..n]);
    }
  }

  lemma {:induction false} FileSizesNonnegative(fs: seq<SnapshotFile>)
    requires forall f | f in fs :: f.size >= 0
    ensures FileSizes(fs) >= 0
  {
    if fs != [] {
      assert fs[|fs| - 1] in fs;
      FileSizesNonnegative(fs[..|fs| - 1]);
    }
  }

  lemma {:induction false} SizesSplit(a: seq<Binding>, b: seq<Binding>)
    ensures Sizes(a + b) == Sizes(a) + Sizes(b)
  {
    if b == [] {
      assert a + b == a;
    } else {
      var n := |b| - 1;
      assert (a + b)[..|a| + n] == a + b[..n];
      SizesSplit(a, b[..n]);
    }
  }

  lemma FirstThree(bs: seq<Binding>)
    requires |bs| >= 3
    ensures Sizes(bs) == bs[0].size + bs[1].size + bs[2].size + Sizes(bs[3..])
  {
    assert bs == [bs[0], bs[1], bs[2]] + bs[3..];
    SizesSplit([bs[0], bs[1], bs[2]], bs[3..]);
    var t := [bs[0], bs[1], bs[2]];
    assert t[..2] == [bs[0], bs[1]] && t[..2][..1] == [bs[0]] && t[..2][..1][..0] == [];
    assert Sizes([bs[0]]) == bs[0].size;
    assert Sizes(t[..2]) == Sizes(t[..2][..1]) + bs[1].size;
  }

  function Kinds(n: nat): (r: seq<ArtifactType>)
    ensures |r| == 3 + n && r[..3] == [PocInput, EnvironmentSpec, EffectOracleSpec]
    ensures forall i | 3 <= i < |r| :: r[i] == SupportingEvidence
  {
    [PocInput, EnvironmentSpec, EffectOracleSpec] + seq(n, _ => SupportingEvidence)
  }

  /** What an issued resolution is: the lease's digests in their roles, the snapshot's files, within budget. */
  ghost predicate Fits(r: Resolution, snapshot: Snapshot, lease: Lease, resolvedAt: int, maxBytes: int) {
    && Valid(r) && r.resolvedAt == resolvedAt && r.lease == lease.id && r.snapshot == snapshot.id == lease.snapshot
    && r.poc.digest == lease.poc && r.environment.digest == lease.environment
    && r.effectOracle.digest == lease.effectOracle && Digests(r.evidence) == lease.evidence
    && r.authority == lease.authority && r.candidate == lease.candidate && r.mission == lease.mission
    && |r.targets| == |snapshot.files| && TargetSizes(r.targets) == FileSizes(snapshot.files)
    && (forall i | 0 <= i < |r.targets| ::
          r.targets[i] == TargetBinding(snapshot.files[i].digest, snapshot.files[i].path, snapshot.files[i].size))
    && TotalBytes(r) <= maxBytes
    && TypedInputBytes(r) <= Min(maxBytes - FileSizes(snapshot.files), MAX_TYPED_INPUT_BYTES)
    && TotalBytes(r) <= MAX_RESOLUTION_BYTES
  }

  function InputsOf(lease: Lease): seq<Id> {
    [lease.poc, lease.environment, lease.effectOracle] + lease.evidence
  }

  /** The store hands back what the manifest says and nonempty inputs, all within the grant and the typed ceiling. */
  ghost predicate Available(manifest: map<Id, (int, Id)>, hash: Bytes -> Id, snapshot: Snapshot, lease: Lease,
                            maxBytes: int, sources: Option<seq<Bytes>>, inputs: Option<seq<Bytes>>) {
    && snapshot.id == lease.snapshot && FileSizes(snapshot.files) <= maxBytes
    && sources.Some? && |sources.value| == |snapshot.files|
    && MatchesManifest(manifest, hash, snapshot.files, sources.value)
    && inputs.Some? && |inputs.value| == |InputsOf(lease)|
    && Lengths(inputs.value) <= Min(maxBytes - FileSizes(snapshot.files), MAX_TYPED_INPUT_BYTES)
    && (forall i | 0 <= i < |inputs.value| :: inputs.value[i] != [])
  }

  /** The time is a time, and the lease's inputs are canonical, all different and none of them a target. */
  ghost predicate Orderly(snapshot: Snapshot, lease: Lease, resolvedAt: int) {
    && 0 <= resolvedAt <= MAX_EPOCH_SECOND
    && 0 < |lease.evidence| <= MAX_ARTIFACTS_PER_ROLE && Increasing(lease.evidence)
    && Distinct(InputsOf(lease))
    && (forall f | f in snapshot.files :: f.digest !in InputsOf(lease))
  }

  /** Within the typed ceiling no single input is too large, so only an empty one is refused. */
  lemma InputsWithin(data: seq<Bytes>, limit: int)
    requires Lengths(data) <= limit <= MAX_SINGLE_ARTIFACT_BYTES
    ensures forall i | 0 <= i < |data| :: |data[i]| <= MAX_SINGLE_ARTIFACT_BYTES
  {
    forall i | 0 <= i < |data| ensures |data[i]| <= MAX_SINGLE_ARTIFACT_BYTES { LengthBounds(data, i); }
  }

  lemma {:induction false} LengthBounds(data: seq<Bytes>, i: nat)
    requires i <= |data|
    ensures Lengths(data) >= if i < |data| then |data[i]| else 0
  {
    if data != [] {
      var n := |data| - 1;
      LengthBounds(data[..n], if i < n then i else n);
    }
  }

  /** Bindings made for the lease's inputs have the lease's evidence digests after the first three. */
  lemma EvidenceDigests(lease: Lease, bindings: seq<Binding>)
    requires |bindings| == |InputsOf(lease)|
    requires forall i | 0 <= i < |bindings| :: bindings[i].digest == InputsOf(lease)[i]
    ensures Digests(bindings[3..]) == lease.evidence
  {
    forall i | 0 <= i < |lease.evidence| ensures Digests(bindings[3..])[i] == lease.evidence[i] {
      assert InputsOf(lease)[3 + i] == lease.evidence[i];
    }
  }

  lemma PathsIncrease(snapshot: Snapshot, targets: seq<TargetBinding>)
    requires ValidSnapshot(snapshot) && |targets| == |snapshot.files|
    requires forall i | 0 <= i < |targets| :: targets[i].path == snapshot.files[i].path
    ensures Increasing(Paths(targets))
  {
  }

  lemma TargetsApart(snapshot: Snapshot, targets: seq<TargetBinding>, inputs: seq<Id>)
    requires |targets| == |snapshot.files|
    requires forall i | 0 <= i < |targets| :: targets[i].digest == snapshot.files[i].digest
    ensures (forall d | d in TargetDigests(targets) :: d !in inputs) <==>
            forall f | f in snapshot.files :: f.digest !in inputs
  {
    var digests := TargetDigests(targets);
    forall f | f in snapshot.files ensures f.digest in digests {
      var i :| 0 <= i < |snapshot.files| && snapshot.files[i] == f;
      assert digests[i] == f.digest;
    }
    forall d | d in digests ensures exists f | f in snapshot.files :: f.digest == d {
      var i :| 0 <= i < |digests| && digests[i] == d;
      assert snapshot.files[i].digest == d;
    }
  }

  /** The constructor's checks that are left once the sizes are within their ceilings. */
  lemma ProblemLeft(snapshot: Snapshot, lease: Lease, r: Resolution)
    requires ValidSnapshot(snapshot)
    requires |r.targets| == |snapshot.files|
    requires forall i | 0 <= i < |r.targets| ::
               r.targets[i].digest == snapshot.files[i].digest && r.targets[i].path == snapshot.files[i].path
    requires InputDigests(r) == InputsOf(lease) && Digests(r.evidence) == lease.evidence
    requires r.poc.kind.PocInput? && r.environment.kind.EnvironmentSpec? && r.effectOracle.kind.EffectOracleSpec?
    requires forall b | b in r.evidence :: b.kind.SupportingEvidence?
    requires TypedInputBytes(r) <= MAX_TYPED_INPUT_BYTES && TotalBytes(r) <= MAX_RESOLUTION_BYTES
    ensures Problem(r).None? <==> Orderly(snapshot, lease, r.resolvedAt)
    ensures Problem(r) !in {Some(TypedCeiling), Some(OverallCeiling)}
  {
    hide Sizes, TargetSizes, TypedInputBytes, TotalBytes, Increasing, Distinct, FileSizes, InputDigests, InputsOf,
         TargetDigests, Paths;
    PathsIncrease(snapshot, r.targets);
    TargetsApart(snapshot, r.targets, InputsOf(lease));
  }

  /** A lease constructs exactly when its window is one and its inputs are such as a resolution can bind. */
  lemma LeaseExactly(l: Lease)
    ensures ValidLease(l) <==>
            0 <= l.issuedAt < l.expiresAt <= MAX_EPOCH_SECOND && Orderly(Snapshot(l.snapshot, []), l, l.issuedAt)
  {
    hide Distinct;
    Rearranged(l);
  }

  lemma Rearranged(l: Lease)
    ensures Distinct([l.poc] + l.evidence + [l.environment, l.effectOracle]) <==> Distinct(InputsOf(l))
  {
    var a, b, n := [l.poc] + l.evidence + [l.environment, l.effectOracle], InputsOf(l), |l.evidence|;
    if Distinct(a) {
      forall i, j | 0 <= i < j < |b| ensures b[i] != b[j] {
        var p, q := Place(n, i), Place(n, j);
        assert a[p] == b[i] && a[q] == b[j];
      }
    }
    if Distinct(b) {
      forall p, q | 0 <= p < q < |a| ensures a[p] != a[q] {
        var i, j := Back(n, p), Back(n, q);
        assert b[i] == a[p] && b[j] == a[q];
      }
    }
  }

  /** Where the lease's own order has the input that is at `i` in the resolution's order, and back. */
  function Place(n: nat, i: nat): nat {
    if i == 0 then 0 else if i <= 2 then n + i else i - 2
  }

  function Back(n: nat, p: nat): nat {
    if p == 0 then 0 else if p <= n then p + 2 else p - n
  }

  /** What the bindings of a lease's inputs are. */
  ghost predicate Binds(lease: Lease, bindings: seq<Binding>) {
    && |bindings| == |InputsOf(lease)|
    && forall i | 0 <= i < |bindings| ::
         && bindings[i].digest == InputsOf(lease)[i] && bindings[i].kind == Kinds(|lease.evidence|)[i]
         && ValidBinding(bindings[i])
  }

  /** The last part of `_resolve_from_cas`: the resolution is constructed and measured once more. */
  method IssueResolution(snapshot: Snapshot, lease: Lease, resolvedAt: int, maxBytes: int,
                         targets: seq<TargetBinding>, bindings: seq<Binding>)
    returns (r: Result<Resolution, Error>)
    requires ValidSnapshot(snapshot) && snapshot.id == lease.snapshot && Binds(lease, bindings)
    requires |targets| == |snapshot.files| && TargetSizes(targets) == FileSizes(snapshot.files) <= maxBytes
    requires forall i | 0 <= i < |targets| ::
               targets[i] == TargetBinding(snapshot.files[i].digest, snapshot.files[i].path, snapshot.files[i].size)
    requires Sizes(bindings) <= Min(maxBytes - FileSizes(snapshot.files), MAX_TYPED_INPUT_BYTES)
    ensures r.Ok? <==> Orderly(snapshot, lease, resolvedAt)
    ensures r.Ok? ==> Fits(r.value, snapshot, lease, resolvedAt, maxBytes)
    ensures r.Err? ==> r.error.Invalid? && r.error !in {Invalid(TypedCeiling), Invalid(OverallCeiling)}
  {
    hide Sizes, FileSizes, TargetSizes, Increasing, Distinct, Digests, Problem, Orderly, Kinds;
    TargetsValid(snapshot, targets);
    FirstThree(bindings);
    var resolution := Resolution(lease.authority, lease.candidate, lease.mission, lease.snapshot, lease.id, resolvedAt,
                                 bindings[0], bindings[1], bindings[2], bindings[3..], targets);
    EvidenceDigests(lease, bindings);
    KindsBound(lease, bindings);
    ProblemLeft(snapshot, lease, resolution);
    var problem := Problem(resolution);
    if problem.Some? { return Err(Invalid(problem.value)); }
    var typedLimit := Min(maxBytes - FileSizes(snapshot.files), MAX_TYPED_INPUT_BYTES);
    if TypedInputBytes(resolution) > typedLimit || TotalBytes(resolution) > maxBytes { return Err(IssuedExceedsGrant); }
    if TotalBytes(resolution) > MAX_RESOLUTION_BYTES { return Err(IssuedExceedsOverall); }
    return Ok(resolution);
  }

  lemma KindsBound(lease: Lease, bindings: seq<Binding>)
    requires Binds(lease, bindings)
    ensures bindings[0].kind == PocInput && bindings[1].kind == EnvironmentSpec && bindings[2].kind == EffectOracleSpec
    ensures forall b | b in bindings[3..] :: b.kind == SupportingEvidence && ValidBinding(b)
  {
    var kinds := Kinds(|lease.evidence|);
    assert kinds[0] == kinds[..3][0] && kinds[1] == kinds[..3][1] && kinds[2] == kinds[..3][2];
  }

  /** Each refusal names something that is the case. */
  ghost predicate Truthful(manifest: map<Id, (int, Id)>, hash: Bytes -> Id, snapshot: Snapshot, lease: Lease,
                           resolvedAt: int, maxBytes: int, sources: Option<seq<Bytes>>, inputs: Option<seq<Bytes>>,
                           why: Error) {
    match why
    case TargetMismatch => snapshot.id != lease.snapshot
    case TargetsExhaustGrant => FileSizes(snapshot.files) > maxBytes
    case SourcesUnavailable => sources.None? || |sources.value| != |snapshot.files|
    case ManifestMismatch =>
      && sources.Some? && |sources.value| == |snapshot.files|
      && !MatchesManifest(manifest, hash, snapshot.files, sources.value)
    case InputsUnavailable => inputs.None? || |inputs.value| != 3 + |lease.evidence|
    case InputsExceedLimit =>
      && inputs.Some?
      && (|| Lengths(inputs.value) > MAX_TYPED_INPUT_BYTES
          || FileSizes(snapshot.files) + Lengths(inputs.value) > maxBytes)
    case InvalidArtifactSize => inputs.Some? && exists i :: 0 <= i < |inputs.value| && inputs.value[i] == []
    case Invalid(_) => !Orderly(snapshot, lease, resolvedAt)
    case _ => false
  }

  /** `sources` and `inputs` are what the event store hands back, or None where it refuses. */
  method ResolveFromCas(manifest: map<Id, (int, Id)>, hash: Bytes -> Id, snapshot: Snapshot, lease: Lease,
                        resolvedAt: int, maxBytes: int, sources: Option<seq<Bytes>>, inputs: Option<seq<Bytes>>)
    returns (r: Result<Resolution, Error>)
    requires ValidSnapshot(snapshot)
    ensures r.Ok? <==> && Available(manifest, hash, snapshot, lease, maxBytes, sources, inputs)
                       && Orderly(snapshot, lease, resolvedAt)
    ensures r.Ok? ==> Fits(r.value, snapshot, lease, resolvedAt, maxBytes)
    // The last two budget rejections, and the constructor's own two, never happen.
    ensures r.Err? ==> r.error !in {IssuedExceedsGrant, IssuedExceedsOverall}
    ensures r.Err? ==> r.error !in {Invalid(TypedCeiling), Invalid(OverallCeiling)}
    ensures r.Err? ==> Truthful(manifest, hash, snapshot, lease, resolvedAt, maxBytes, sources, inputs, r.error)
  {
    hide Sizes, Lengths, FileSizes, TargetSizes, Increasing, Distinct, Digests, Problem, Orderly, MatchesManifest,
         Kinds, Fits;
    if snapshot.id != lease.snapshot { return Err(TargetMismatch); }
    var targetBytes := FileSizes(snapshot.files);
    if targetBytes > maxBytes { return Err(TargetsExhaustGrant); }
    if sources.None? || |sources.value| != |snapshot.files| { return Err(SourcesUnavailable); }
    var matches := CheckManifest(manifest, hash, snapshot.files, sources.value);
    if !matches { return Err(ManifestMismatch); }
    ManifestSizes(manifest, hash, snapshot.files, sources.value);
    var targets := BindTargets(snapshot.files, sources.value);

    var typedLimit := Min(maxBytes - targetBytes, MAX_TYPED_INPUT_BYTES);
    var digests := InputsOf(lease);
    if inputs.None? || |inputs.value| != |digests| { return Err(InputsUnavailable); }
    if Lengths(inputs.value) > typedLimit { return Err(InputsExceedLimit); }
    var kinds := Kinds(|lease.evidence|);
    var bound := BindInputs(kinds, digests, inputs.value);
    InputsWithin(inputs.value, typedLimit);
    if bound.Err? { return Err(bound.error); }
    assert Binds(lease, bound.value);
    r := IssueResolution(snapshot, lease, resolvedAt, maxBytes, targets, bound.value);
  }

  lemma TargetsValid(s: Snapshot, targets: seq<TargetBinding>)
    requires ValidSnapshot(s) && |targets| == |s.files|
    requires forall i | 0 <= i < |targets| :: targets[i].size == s.files[i].size
    ensures forall t | t in targets :: ValidTarget(t)
  {
    forall i | 0 <= i < |targets| ensures ValidTarget(targets[i]) { FileBounds(s.files, i); }
  }
}
