/**
  The bundle manifest and its validation (`BundleManifest::validate_inner` in
  evidence.rs, for current manifests), and the check of a directory against it
  (`verify_artifact_tree`).

  A directory is the map from relative paths to the bytes of its regular files.
 */
module Manifest {
  import opened Basics

  const MANIFEST_VERSION: nat := 2
  const MAX_MANIFEST_BYTES: nat := 4 * 1024 * 1024
  const MAX_ARTIFACT_COUNT: nat := 10_000
  const MAX_ARTIFACT_BYTES: nat := 256 * 1024 * 1024
  const MAX_TOTAL_ARTIFACT_BYTES: nat := 2 * 1024 * 1024 * 1024
  const U64_MAX: nat := 0xFFFF_FFFF_FFFF_FFFF
  const MANIFEST_PATH: string := "manifest.json"

  type Bytes = seq<bv8>

  type Directory = map<string, Bytes>

  datatype Bounds = Bounds(artifactCount: nat, artifactBytes: nat, totalBytes: nat)

  datatype Role =
    | ExperimentPlan | ResolvedPlan | EnvironmentFingerprint
    | TrialResult | ComparisonSummary | ReportDocument
    | OtherRole(name: string)

  datatype ArtifactRecord = ArtifactRecord(
    path: string, role: Role, mediaType: string, byteSize: nat, sha256: string)

  datatype ExecutionStatus = Completed | Failed | Cancelled | InvalidRun

  datatype TrialDescriptor = TrialDescriptor(id: nat, result: string, artifacts: seq<string>)

  datatype BundleManifest = BundleManifest(
    schemaVersion: nat, executionStatus: Option<ExecutionStatus>, comparisonVerdict: Option<string>,
    plan: string, resolvedPlan: string, environment: string, trials: seq<TrialDescriptor>,
    comparison: Option<string>, report: Option<string>, drivers: seq<string>,
    createdMs: Option<nat>, finalizedMs: Option<nat>,
    limits: Bounds, artifacts: seq<ArtifactRecord>, finalized: bool)

  // ---- What a valid manifest is ----

  predicate BoundsSupported(bounds: Bounds) {
    && bounds.artifactBytes != 0
    && bounds.totalBytes >= bounds.artifactBytes
    && bounds.artifactCount <= MAX_ARTIFACT_COUNT
    && bounds.artifactBytes <= MAX_ARTIFACT_BYTES
    && bounds.totalBytes <= MAX_TOTAL_ARTIFACT_BYTES
  }

  predicate LowerHex(c: char) { '0' <= c <= '9' || 'a' <= c <= 'f' }

  predicate HexDigest(digest: string) {
    |digest| == 64 && forall c :: c in digest ==> LowerHex(c)
  }

  predicate MediaTypeOk(mediaType: string) {
    mediaType != [] && Utf8Length(mediaType) <= 255 && forall c :: c in mediaType ==> !IsControl(c)
  }

  predicate RecordOk(record: ArtifactRecord, limits: Bounds) {
    HexDigest(record.sha256) && MediaTypeOk(record.mediaType) && record.byteSize <= limits.artifactBytes
  }

  function TotalSize(artifacts: seq<ArtifactRecord>): nat {
    if artifacts == [] then 0
    else TotalSize(artifacts[..|artifacts| - 1]) + artifacts[|artifacts| - 1].byteSize
  }

  function RoleCount(artifacts: seq<ArtifactRecord>, role: Role): nat {
    if artifacts == [] then 0
    else RoleCount(artifacts[..|artifacts| - 1], role) + if artifacts[|artifacts| - 1].role == role then 1 else 0
  }

  predicate DistinctPaths(artifacts: seq<ArtifactRecord>) {
    forall i, j :: 0 <= i < j < |artifacts| ==> artifacts[i].path != artifacts[j].path
  }

  predicate Listed(artifacts: seq<ArtifactRecord>, path: string) {
    exists i :: 0 <= i < |artifacts| && artifacts[i].path == path
  }

  predicate ListedAs(artifacts: seq<ArtifactRecord>, path: string, role: Role) {
    exists i :: 0 <= i < |artifacts| && artifacts[i].path == path && artifacts[i].role == role
  }

  predicate Distinct(names: seq<string>) {
    forall i, j :: 0 <= i < j < |names| ==> names[i] != names[j]
  }

  predicate ArtifactsOk(artifacts: seq<ArtifactRecord>, limits: Bounds) {
    && |artifacts| <= limits.artifactCount
    && DistinctPaths(artifacts)
    && (forall i :: 0 <= i < |artifacts| ==> RecordOk(artifacts[i], limits))
    && TotalSize(artifacts) <= limits.totalBytes
  }

  predicate TrialOk(trial: TrialDescriptor, artifacts: seq<ArtifactRecord>) {
    && ListedAs(artifacts, trial.result, TrialResult)
    && Distinct(trial.artifacts)
    && forall p :: p in trial.artifacts ==> Listed(artifacts, p)
  }

  predicate TrialsOk(trials: seq<TrialDescriptor>, artifacts: seq<ArtifactRecord>) {
    && (forall i, j :: 0 <= i < j < |trials| ==> trials[i].id != trials[j].id)
    && forall i :: 0 <= i < |trials| ==> TrialOk(trials[i], artifacts)
  }

  predicate HeaderOk(m: BundleManifest) {
    && m.schemaVersion == MANIFEST_VERSION
    && m.executionStatus.Some?
    && (m.comparison.None? <==> m.comparisonVerdict.None?)
    && !(m.executionStatus.value in {Failed, Cancelled} && m.comparisonVerdict.Some?)
    && m.finalized
  }

  predicate RolesOk(m: BundleManifest) {
    && RoleCount(m.artifacts, ExperimentPlan) == 1
    && RoleCount(m.artifacts, ResolvedPlan) == 1
    && RoleCount(m.artifacts, EnvironmentFingerprint) == 1
    && RoleCount(m.artifacts, ComparisonSummary) <= 1
    && RoleCount(m.artifacts, ReportDocument) <= 1
    && ListedAs(m.artifacts, m.plan, ExperimentPlan)
    && ListedAs(m.artifacts, m.resolvedPlan, ResolvedPlan)
    && ListedAs(m.artifacts, m.environment, EnvironmentFingerprint)
  }

  predicate TailOk(m: BundleManifest) {
    && (m.comparison.Some? ==> ListedAs(m.artifacts, m.comparison.value, ComparisonSummary))
    && (m.report.Some? ==> ListedAs(m.artifacts, m.report.value, ReportDocument))
    && |m.trials| <= MAX_ARTIFACT_COUNT
    && |m.drivers| <= 256 && Distinct(m.drivers)
    && (m.createdMs.Some? && m.finalizedMs.Some? ==> m.createdMs.value <= m.finalizedMs.value)
  }

  predicate ManifestValid(m: BundleManifest) {
    && HeaderOk(m) && BoundsSupported(m.limits) && ArtifactsOk(m.artifacts, m.limits)
    && RolesOk(m) && TrialsOk(m.trials, m.artifacts) && TailOk(m)
  }

  // ---- The validator ----

  /** Path to record, the later record winning. */
  function PathMap(artifacts: seq<ArtifactRecord>): map<string, ArtifactRecord> {
    if artifacts == [] then map[]
    else
      var last := artifacts[|artifacts| - 1];
      PathMap(artifacts[..|artifacts| - 1])[last.path := last]
  }

  lemma {:induction false} PathMapMeaning(artifacts: seq<ArtifactRecord>)
    ensures forall p :: p in PathMap(artifacts) <==> Listed(artifacts, p)
    ensures DistinctPaths(artifacts) ==>
              forall p, role ::
                p in PathMap(artifacts) && PathMap(artifacts)[p].role == role <==> ListedAs(artifacts, p, role)
  {
    if artifacts != [] {
      var n := |artifacts| - 1;
      var init, last := artifacts[..n], artifacts[n];
      PathMapMeaning(init);
      forall p
        ensures Listed(artifacts, p) <==> Listed(init, p) || last.path == p
      {
        if Listed(init, p) {
          var i :| 0 <= i < n && init[i].path == p;
          assert artifacts[i].path == p;
        }
        assert last.path == p ==> artifacts[n].path == p;
      }
      forall p, role
        ensures ListedAs(artifacts, p, role) <==> ListedAs(init, p, role) || (last.path == p && last.role == role)
      {
        if ListedAs(init, p, role) {
          var i :| 0 <= i < n && init[i].path == p && init[i].role == role;
          assert artifacts[i].path == p && artifacts[i].role == role;
        }
        assert last.path == p && last.role == role ==> artifacts[n].path == p && artifacts[n].role == role;
      }
      if DistinctPaths(artifacts) {
        assert !Listed(init, last.path);
        assert forall role :: ListedAs(init, last.path, role) ==> Listed(init, last.path);
      }
    }
  }

  lemma Snoc(artifacts: seq<ArtifactRecord>, last: ArtifactRecord)
    ensures DistinctPaths(artifacts + [last]) <==> DistinctPaths(artifacts) && !Listed(artifacts, last.path)
    ensures PathMap(artifacts + [last]) == PathMap(artifacts)[last.path := last]
    ensures TotalSize(artifacts + [last]) == TotalSize(artifacts) + last.byteSize
    ensures forall r :: RoleCount(artifacts + [last], r) == RoleCount(artifacts, r) + if r == last.role then 1 else 0
  {
    var longer := artifacts + [last];
    assert longer[..|artifacts|] == artifacts;
    if DistinctPaths(longer) {
      forall i | 0 <= i < |artifacts|
        ensures artifacts[i].path != last.path
      {
        assert longer[i].path != longer[|artifacts|].path;
      }
      forall i, j | 0 <= i < j < |artifacts|
        ensures artifacts[i].path != artifacts[j].path
      {
        assert longer[i].path != longer[j].path;
      }
    }
  }

  lemma DuplicateSpoils(artifacts: seq<ArtifactRecord>, i: nat)
    requires i < |artifacts| && Listed(artifacts[..i], artifacts[i].path)
    ensures !DistinctPaths(artifacts)
  {
    var j :| 0 <= j < i && artifacts[..i][j].path == artifacts[i].path;
    assert artifacts[j].path == artifacts[i].path;
  }

  /** The loop over artifacts: builds the path and role tables, or fails. */
  method ScanArtifacts(artifacts: seq<ArtifactRecord>, limits: Bounds)
    returns (ok: bool, paths: map<string, ArtifactRecord>, roles: map<Role, nat>)
    requires |artifacts| <= limits.artifactCount && limits.totalBytes <= U64_MAX
    ensures ok <==> ArtifactsOk(artifacts, limits)
    ensures ok ==> paths == PathMap(artifacts)
    ensures ok ==> forall r :: RoleCount(artifacts, r) == if r in roles then roles[r] else 0
  {
    hide HexDigest, MediaTypeOk, TotalSize, RoleCount, PathMap, Listed, ListedAs, DistinctPaths;
    paths, roles := map[], map[];
    var total := 0;
    NothingScanned();
    for i := 0 to |artifacts|
      invariant DistinctPaths(artifacts[..i]) && paths == PathMap(artifacts[..i])
      invariant forall j :: 0 <= j < i ==> RecordOk(artifacts[j], limits)
      invariant total == TotalSize(artifacts[..i]) <= U64_MAX
      invariant forall r :: RoleCount(artifacts[..i], r) == if r in roles then roles[r] else 0
    {
      var artifact := artifacts[i];
      assert artifacts[..i + 1] == artifacts[..i] + [artifact];
      PathMapMeaning(artifacts[..i]);
      Snoc(artifacts[..i], artifact);
      if artifact.path in paths {
        DuplicateSpoils(artifacts, i);
        return false, paths, roles;
      }
      paths := paths[artifact.path := artifact];
      roles := roles[artifact.role := if artifact.role in roles then roles[artifact.role] + 1 else 1];
      var digestOk := CheckDigest(artifact.sha256);
      var mediaTypeOk := CheckMediaType(artifact.mediaType);
      if !digestOk || !mediaTypeOk || artifact.byteSize > limits.artifactBytes {
        assert !RecordOk(artifacts[i], limits);
        return false, paths, roles;
      }
      TotalGrows(artifacts, i + 1);
      if total + artifact.byteSize > U64_MAX {
        return false, paths, roles;
      }
      total := total + artifact.byteSize;
    }
    assert artifacts[..|artifacts|] == artifacts;
    ok := total <= limits.totalBytes;
  }

  /** A digest is 64 characters of lower-case hexadecimal. */
  method CheckDigest(digest: string) returns (ok: bool)
    ensures ok == HexDigest(digest)
  {
    return |digest| == 64 && forall c :: c in digest ==> ('0' <= c && c <= '9') || ('a' <= c && c <= 'f');
  }

  method CheckMediaType(mediaType: string) returns (ok: bool)
    ensures ok == MediaTypeOk(mediaType)
  {
    hide Utf8Length;
    return !(mediaType == [] || Utf8Length(mediaType) > 255 || exists c :: c in mediaType && IsControl(c));
  }

  /** `BundleBounds::validate`. */
  method CheckBounds(bounds: Bounds) returns (ok: bool)
    ensures ok == BoundsSupported(bounds)
  {
    if bounds.artifactBytes == 0 || bounds.totalBytes < bounds.artifactBytes {
      return false;
    }
    return !(bounds.artifactCount > 10_000 || bounds.artifactBytes > 268_435_456 || bounds.totalBytes > 2_147_483_648);
  }

  method CheckDistinct(names: seq<string>) returns (ok: bool)
    ensures ok == Distinct(names)
  {
    var seen: set<string> := {};
    for i := 0 to |names|
      invariant forall p :: p in seen <==> p in names[..i]
      invariant Distinct(names[..i])
    {
      assert names[..i + 1] == names[..i] + [names[i]];
      if names[i] in seen {
        var j :| 0 <= j < i && names[..i][j] == names[i];
        assert names[j] == names[i];
        return false;
      }
      seen := seen + {names[i]};
    }
    assert names[..|names|] == names;
    return true;
  }

  lemma NothingScanned()
    ensures DistinctPaths([]) && PathMap([]) == map[] && TotalSize([]) == 0
    ensures forall r :: RoleCount([], r) == 0
  {
  }

  lemma {:induction false} TotalGrows(artifacts: seq<ArtifactRecord>, i: nat)
    requires i <= |artifacts|
    ensures TotalSize(artifacts[..i]) <= TotalSize(artifacts)
    decreases |artifacts|
  {
    if i < |artifacts| {
      var init := artifacts[..|artifacts| - 1];
      TotalGrows(init, i);
      assert init[..i] == artifacts[..i];
    } else {
      assert artifacts[..i] == artifacts;
    }
  }

  method ScanTrials(trials: seq<TrialDescriptor>, artifacts: seq<ArtifactRecord>, paths: map<string, ArtifactRecord>)
    returns (ok: bool)
    requires DistinctPaths(artifacts) && paths == PathMap(artifacts)
    ensures ok <==> TrialsOk(trials, artifacts)
  {
    PathMapMeaning(artifacts);
    var ids: set<nat> := {};
    for i := 0 to |trials|
      invariant forall id :: id in ids <==> exists j :: 0 <= j < i && trials[j].id == id
      invariant forall j, k :: 0 <= j < k < i ==> trials[j].id != trials[k].id
      invariant forall j :: 0 <= j < i ==> TrialOk(trials[j], artifacts)
    {
      var trial := trials[i];
      if trial.id in ids {
        return false;
      }
      ids := ids + {trial.id};
      if trial.result !in paths || paths[trial.result].role != TrialResult {
        return false;
      }
      var referencesOk := ScanReferences(trial.artifacts, artifacts, paths);
      if !referencesOk {
        return false;
      }
    }
    return true;
  }

  /** The references of one trial: distinct, and each to a listed artifact. */
  method ScanReferences(references: seq<string>, artifacts: seq<ArtifactRecord>, paths: map<string, ArtifactRecord>)
    returns (ok: bool)
    requires forall p :: p in paths <==> Listed(artifacts, p)
    ensures ok <==> Distinct(references) && forall p :: p in references ==> Listed(artifacts, p)
  {
    hide Listed;
    var seen: set<string> := {};
    for k := 0 to |references|
      invariant forall p :: p in seen <==> p in references[..k]
      invariant Distinct(references[..k])
      invariant forall p :: p in references[..k] ==> Listed(artifacts, p)
    {
      var path := references[k];
      assert references[..k + 1] == references[..k] + [path];
      if path in seen {
        assert !Distinct(references) by {
          var j :| 0 <= j < k && references[..k][j] == path;
          assert references[j] == references[k];
        }
        return false;
      }
      seen := seen + {path};
      if path !in paths {
        assert path in references;
        return false;
      }
    }
    assert references[..|references|] == references;
    return true;
  }

  predicate RoleAt(paths: map<string, ArtifactRecord>, path: string, role: Role) {
    path in paths && paths[path].role == role
  }

  lemma BoundsAreSmall(bounds: Bounds, artifacts: seq<ArtifactRecord>)
    ensures BoundsSupported(bounds) ==> bounds.artifactCount <= MAX_ARTIFACT_COUNT && bounds.totalBytes <= U64_MAX
    ensures ArtifactsOk(artifacts, bounds) ==> |artifacts| <= bounds.artifactCount
  {
  }

  lemma ScannedPaths(artifacts: seq<ArtifactRecord>, limits: Bounds)
    requires ArtifactsOk(artifacts, limits)
    ensures DistinctPaths(artifacts)
    ensures |artifacts| <= limits.artifactCount
    ensures forall p, role :: RoleAt(PathMap(artifacts), p, role) <==> ListedAs(artifacts, p, role)
  {
    PathMapMeaning(artifacts);
  }

  /** Validation succeeds exactly on valid manifests. */
  method Validate(m: BundleManifest) returns (ok: bool)
    ensures ok <==> ManifestValid(m)
  {
    hide ArtifactsOk, TrialsOk, Listed, ListedAs, RoleCount, PathMap, Distinct, BoundsSupported;
    BoundsAreSmall(m.limits, m.artifacts);
    if m.schemaVersion != MANIFEST_VERSION || m.executionStatus.None? {
      return false;
    }
    if m.comparison.None? && m.comparisonVerdict.Some? {
      return false;
    }
    if m.comparison.Some? && m.comparisonVerdict.None? {
      return false;
    }
    if m.executionStatus.value in {Failed, Cancelled} && m.comparisonVerdict.Some? {
      return false;
    }
    if !m.finalized {
      return false;
    }
    var boundsOk := CheckBounds(m.limits);
    if !boundsOk || |m.artifacts| > m.limits.artifactCount {
      return false;
    }
    var scanned, paths, roles := ScanArtifacts(m.artifacts, m.limits);
    if !scanned {
      return false;
    }
    ScannedPaths(m.artifacts, m.limits);
    var required := [ExperimentPlan, ResolvedPlan, EnvironmentFingerprint];
    for i := 0 to |required|
      invariant forall j :: 0 <= j < i ==> RoleCount(m.artifacts, required[j]) == 1
    {
      if required[i] !in roles || roles[required[i]] != 1 {
        assert RoleCount(m.artifacts, required[i]) != 1;
        return false;
      }
    }
    assert RoleCount(m.artifacts, required[0]) == 1 && RoleCount(m.artifacts, required[1]) == 1
           && RoleCount(m.artifacts, required[2]) == 1;
    if (ComparisonSummary in roles && roles[ComparisonSummary] > 1)
       || (ReportDocument in roles && roles[ReportDocument] > 1) {
      return false;
    }
    if !RoleAt(paths, m.plan, ExperimentPlan) || !RoleAt(paths, m.resolvedPlan, ResolvedPlan)
       || !RoleAt(paths, m.environment, EnvironmentFingerprint) {
      return false;
    }
    var trialsOk := ScanTrials(m.trials, m.artifacts, paths);
    if !trialsOk {
      return false;
    }
    if (m.comparison.Some? && !RoleAt(paths, m.comparison.value, ComparisonSummary))
       || (m.report.Some? && !RoleAt(paths, m.report.value, ReportDocument)) {
      return false;
    }
    if |m.artifacts| > MAX_ARTIFACT_COUNT || |m.trials| > MAX_ARTIFACT_COUNT || |m.drivers| > 256 {
      return false;
    }
    var driversOk := CheckDistinct(m.drivers);
    if !driversOk {
      return false;
    }
    return !(m.createdMs.Some? && m.finalizedMs.Some? && m.finalizedMs.value < m.createdMs.value);
  }

  // ---- Checking a directory against a manifest ----

  /** The directory holds exactly the listed artifacts (and the manifest, when it is
      expected), each with the recorded size and digest. */
  ghost predicate TreeMatches(directory: Directory, artifacts: seq<ArtifactRecord>, manifestPresent: bool,
                              digest: Bytes -> string) {
    && (forall p :: p in directory && !(manifestPresent && p == MANIFEST_PATH) ==> Listed(artifacts, p))
    && (forall i :: 0 <= i < |artifacts| ==> ArtifactMatches(directory, artifacts[i], manifestPresent, digest))
  }

  predicate ArtifactMatches(directory: Directory, artifact: ArtifactRecord, manifestPresent: bool,
                            digest: Bytes -> string) {
    && artifact.path in directory
    && !(manifestPresent && artifact.path == MANIFEST_PATH)
    && |directory[artifact.path]| == artifact.byteSize
    && digest(directory[artifact.path]) == artifact.sha256
  }

  method VerifyArtifactTree(directory: Directory, artifacts: seq<ArtifactRecord>, manifestPresent: bool,
                            digest: Bytes -> string)
    returns (ok: bool)
    ensures ok <==> TreeMatches(directory, artifacts, manifestPresent, digest)
  {
    var expected := set artifact | artifact in artifacts :: artifact.path;
    var actual := directory.Keys;
    if manifestPresent {
      actual := actual - {MANIFEST_PATH};
    }
    assert forall p :: p in expected <==> Listed(artifacts, p) by {
      forall p
        ensures p in expected <==> Listed(artifacts, p)
      {
        if Listed(artifacts, p) {
          var i :| 0 <= i < |artifacts| && artifacts[i].path == p;
          assert artifacts[i] in artifacts;
        }
      }
    }
    if actual - expected != {} {
      var extra :| extra in actual - expected;
      return false;
    }
    if expected - actual != {} {
      var missing :| missing in expected - actual;
      assert Listed(artifacts, missing);
      var i :| 0 <= i < |artifacts| && artifacts[i].path == missing;
      assert !ArtifactMatches(directory, artifacts[i], manifestPresent, digest);
      return false;
    }
    assert forall p :: p in actual ==> p in expected by {
      forall p | p in actual
        ensures p in expected
      {
        assert p !in actual - expected;
      }
    }
    for i := 0 to |artifacts|
      invariant forall j :: 0 <= j < i ==> ArtifactMatches(directory, artifacts[j], manifestPresent, digest)
    {
      assert artifacts[i].path in expected && artifacts[i].path !in expected - actual;
      var bytes := directory[artifacts[i].path];
      if |bytes| != artifacts[i].byteSize || digest(bytes) != artifacts[i].sha256 {
        return false;
      }
    }
    return true;
  }
}
