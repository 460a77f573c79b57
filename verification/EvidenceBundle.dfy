/**
  The evidence bundle life cycle (`BundleWriter` and `BundleReader` in evidence.rs): artifacts are staged under bounds,
  then finalization writes a manifest and publishes.  `history` records the disk after every file-system operation of
  finalization, so that a statement about all of it is a statement about a crash at any point.
 */
module EvidenceBundle {
  import opened Basics
  import opened Manifest
  import opened Ordering

  /** Digest and manifest codec of the platform.  Digests have 64 hexadecimal digits, so
      they cannot be injective; where a law needs two contents not to collide, it says so. */
  datatype Platform = Platform(
    digest: Bytes -> string, encode: BundleManifest -> Bytes, decode: Bytes -> Option<BundleManifest>)
  {
    ghost predicate Valid() {
      && (forall b :: HexDigest(digest(b)))
      && (forall m :: decode(encode(m)) == Some(m))
    }
  }

  /** A digest in form, if a poor one. */
  function ZeroDigest(bytes: Bytes): string {
    seq(64, _ => '0')
  }

  /** Every codec that loses nothing belongs to a valid platform. */
  lemma ValidPlatformExists(encode: BundleManifest -> Bytes, decode: Bytes -> Option<BundleManifest>)
    requires forall m :: decode(encode(m)) == Some(m)
    ensures Platform(ZeroDigest, encode, decode).Valid()
  {
    forall b
      ensures HexDigest(ZeroDigest(b))
    {
    }
  }

  datatype Disk = Disk(staging: Option<Directory>, destination: Option<Directory>)

  // ---- Names ----

  predicate Contains(s: string, part: string) {
    |s| >= |part| && (s[..|part|] == part || (s != [] && Contains(s[1..], part)))
  }

  predicate HasBundleExtension(name: string) {
    |name| > 5 && name[|name| - 5..] == ".eggb"
  }

  const STAGING_MARK: string := ".staging-"

  function StagingName(name: string, unique: string): string {
    "." + name + ".staging-" + unique
  }

  // ---- The reader ----

  /** `BundleReader::open`: the manifest of a finalized bundle, if it is one. */
  function Open(name: string, directory: Option<Directory>, platform: Platform): Option<BundleManifest> {
    if Contains(name, STAGING_MARK) || !HasBundleExtension(name) then None
    else if directory.None? || MANIFEST_PATH !in directory.value then None
    else if |directory.value[MANIFEST_PATH]| > MAX_MANIFEST_BYTES then None
    else match platform.decode(directory.value[MANIFEST_PATH])
      case None => None
      case Some(m) => if ManifestValid(m) then Some(m) else None
  }

  /** What `open` followed by `verify` accepts. */
  ghost predicate Accepted(name: string, directory: Option<Directory>, platform: Platform) {
    var found := Open(name, directory, platform);
    found.Some? && TreeMatches(directory.value, found.value.artifacts, true, platform.digest)
  }

  method OpenAndVerify(name: string, directory: Option<Directory>, platform: Platform)
    returns (manifest: Option<BundleManifest>)
    ensures manifest.Some? <==> Accepted(name, directory, platform)
    ensures manifest.Some? ==> manifest == Open(name, directory, platform)
  {
    if Contains(name, ".staging-") || |name| <= 5 || name[|name| - 5..] != ".eggb" {
      return None;
    }
    if directory.None? || MANIFEST_PATH !in directory.value {
      return None;
    }
    var bytes := directory.value[MANIFEST_PATH];
    if |bytes| > MAX_MANIFEST_BYTES {
      return None;
    }
    var decoded := platform.decode(bytes);
    if decoded.None? {
      return None;
    }
    var valid := Validate(decoded.value);
    if !valid {
      return None;
    }
    var intact := VerifyArtifactTree(directory.value, decoded.value.artifacts, true, platform.digest);
    return if intact then decoded else None;
  }

  /** The digest tells the files of two directories apart, path by path. */
  ghost predicate NoCollision(a: Directory, b: Directory, digest: Bytes -> string) {
    forall p :: p in a && p in b && digest(a[p]) == digest(b[p]) ==> a[p] == b[p]
  }

  /** Verification pins the content down: two accepted directories with the same
      manifest bytes are the same directory, exactly when no two of their files collide. */
  lemma {:induction false} AcceptedContentIsUnique(name: string, a: Directory, b: Directory, platform: Platform)
    requires Accepted(name, Some(a), platform) && Accepted(name, Some(b), platform)
    requires a[MANIFEST_PATH] == b[MANIFEST_PATH]
    ensures a.Keys == b.Keys
    ensures a == b <==> NoCollision(a, b, platform.digest)
  {
    var m := Open(name, Some(a), platform).value;
    forall p | p in a || p in b
      ensures p in a && p in b && platform.digest(a[p]) == platform.digest(b[p])
    {
      if p != MANIFEST_PATH {
        var i :| 0 <= i < |m.artifacts| && m.artifacts[i].path == p;
        assert ArtifactMatches(a, m.artifacts[i], true, platform.digest);
        assert ArtifactMatches(b, m.artifacts[i], true, platform.digest);
      }
    }
  }

  lemma {:induction false} ContainsMiddle(before: string, part: string, after: string)
    ensures Contains(before + part + after, part)
  {
    var s := before + part + after;
    if before == [] {
      assert s[..|part|] == part;
    } else {
      ContainsMiddle(before[1..], part, after);
      assert s[1..] == before[1..] + part + after;
    }
  }

  lemma {:induction false} ContainedSomewhere(s: string, part: string) returns (before: string, after: string)
    requires Contains(s, part)
    ensures s == before + part + after
    decreases |s|
  {
    if s[..|part|] == part {
      before, after := [], s[|part|..];
    } else {
      before, after := ContainedSomewhere(s[1..], part);
      before := [s[0]] + before;
    }
  }

  /** Containment means just that. */
  lemma ContainsMeaning(s: string, part: string)
    ensures Contains(s, part) <==> exists before, after :: s == before + part + after
  {
    hide Contains;
    if Contains(s, part) {
      var before, after := ContainedSomewhere(s, part);
    }
    if before, after :| s == before + part + after {
      ContainsMiddle(before, part, after);
    }
  }

  /** A staging directory is never openable, whatever it holds. */
  lemma StagingIsNeverOpenable(name: string, unique: string, directory: Option<Directory>, platform: Platform)
    ensures Open(StagingName(name, unique), directory, platform).None?
  {
    ContainsMiddle("." + name, STAGING_MARK, unique);
    assert StagingName(name, unique) == "." + name + STAGING_MARK + unique;
  }

  // ---- Streaming one artifact ----

  /** One read of the source: some bytes (none at the end) or a failure. */
  datatype Read = Data(bytes: Bytes) | ReadFailure

  /** The bytes delivered before the end of the stream. */
  function Content(source: seq<Read>): Bytes {
    if source == [] || source[0].ReadFailure? || source[0].bytes == [] then []
    else source[0].bytes + Content(source[1..])
  }

  /** Whether the stream ends without a failure. */
  predicate EndsCleanly(source: seq<Read>) {
    source == [] || (source[0].Data? && (source[0].bytes == [] || EndsCleanly(source[1..])))
  }

  lemma StreamStep(source: seq<Read>, i: nat, written: Bytes)
    requires i < |source|
    ensures source[i].ReadFailure? ==> !EndsCleanly(source[i..])
    ensures source[i].Data? && source[i].bytes == [] ==>
              EndsCleanly(source[i..]) && written + Content(source[i..]) == written
    ensures source[i].Data? && source[i].bytes != [] ==>
              && (EndsCleanly(source[i..]) <==> EndsCleanly(source[i + 1..]))
              && written + Content(source[i..]) == (written + source[i].bytes) + Content(source[i + 1..])
  {
    var rest := source[i..];
    assert rest[0] == source[i] && rest[1..] == source[i + 1..];
  }

  /** The copy loop of `add_artifact`: stop at the end of the stream, at a failed read, or
      before the first block that would exceed a bound. */
  method StreamArtifact(source: seq<Read>, bounds: Bounds, before: nat) returns (written: Bytes, failed: bool)
    requires before <= bounds.totalBytes
    ensures !failed <==> && EndsCleanly(source) && |Content(source)| <= bounds.artifactBytes
                         && before + |Content(source)| <= bounds.totalBytes
    ensures !failed ==> written == Content(source)
    ensures |written| <= bounds.artifactBytes && before + |written| <= bounds.totalBytes
  {
    assert Content([]) == [] && EndsCleanly([]);
    hide Content, EndsCleanly;
    var size, total := 0, before;
    written, failed := [], false;
    for i := 0 to |source|
      invariant size == |written| <= bounds.artifactBytes && total == before + size <= bounds.totalBytes
      invariant !failed && Content(source) == written + Content(source[i..])
      invariant EndsCleanly(source) <==> EndsCleanly(source[i..])
    {
      StreamStep(source, i, written);
      if source[i].ReadFailure? {
        return written, true;
      }
      var bytes := source[i].bytes;
      if bytes == [] {
        return written, false;
      }
      var nextSize, nextTotal := size + |bytes|, total + |bytes|;
      if nextSize > bounds.artifactBytes || nextTotal > bounds.totalBytes {
        return written, true;
      }
      written := written + bytes;
      size, total := nextSize, nextTotal;
    }
    assert source[|source|..] == [];
  }

  function RecordPath(record: ArtifactRecord): string { record.path }

  /** The registry is an ordered map from paths. */
  function InsertRecord(record: ArtifactRecord, records: seq<ArtifactRecord>): seq<ArtifactRecord> {
    InsertBy(record, records, RecordPath)
  }

  lemma InsertRecordDistinct(record: ArtifactRecord, records: seq<ArtifactRecord>)
    requires DistinctPaths(records) && forall r :: r in records ==> r.path != record.path
    ensures DistinctPaths(InsertRecord(record, records))
  {
    hide InsertBy;
    var all, longer := [record] + records, InsertRecord(record, records);
    InsertByMembers(record, records, RecordPath);
    assert multiset(all) == multiset(longer);
    forall i, j | 0 <= i < j < |all|
      ensures RecordPath(all[i]) != RecordPath(all[j])
    {
      assert all[j] in records;
    }
    DistinctMove(all, longer, RecordPath);
    forall i, j | 0 <= i < j < |longer|
      ensures longer[i].path != longer[j].path
    {
      assert RecordPath(longer[i]) != RecordPath(longer[j]);
    }
  }

  lemma {:induction false} TotalOfInsert(record: ArtifactRecord, records: seq<ArtifactRecord>)
    ensures TotalSize(InsertRecord(record, records)) == TotalSize(records) + record.byteSize
    decreases |records|
  {
    if records == [] || NameLess(record.path, records[0].path) {
      TotalCons(record, records);
    } else {
      TotalOfInsert(record, records[1..]);
      TotalCons(records[0], InsertRecord(record, records[1..]));
      TotalCons(records[0], records[1..]);
      assert [records[0]] + records[1..] == records;
    }
  }

  lemma {:induction false} TotalCons(record: ArtifactRecord, records: seq<ArtifactRecord>)
    ensures TotalSize([record] + records) == record.byteSize + TotalSize(records)
    decreases |records|
  {
    var all := [record] + records;
    if records == [] {
      assert all[..0] == [];
    } else {
      var init := records[..|records| - 1];
      TotalCons(record, init);
      assert all[..|all| - 1] == [record] + init;
    }
  }

  // ---- The writer ----

  /** What a writer keeps between calls. */
  datatype WriterState = WriterState(artifacts: seq<ArtifactRecord>, total: nat, staging: Directory)

  /** Failures of the environment around one call; `leftover` is the partial file that a
      failed removal leaves behind. */
  datatype Faults = Faults(opening: bool, writing: bool, leftover: Option<Bytes>)

  /** One call of `add_artifact`. */
  datatype AddCall = AddCall(path: string, role: Role, mediaType: string, source: seq<Read>, faults: Faults)

  /** The books are right: every bound holds, the total is the sum of the recorded sizes,
      and every registered file is staged with its size and digest. */
  ghost predicate AccountingOk(s: WriterState, bounds: Bounds, digest: Bytes -> string) {
    && BoundsSupported(bounds)
    && ArtifactsOk(s.artifacts, bounds)
    && s.total == TotalSize(s.artifacts)
    && (forall i :: 0 <= i < |s.artifacts| ==> s.artifacts[i].path != MANIFEST_PATH)
    && MANIFEST_PATH !in s.staging
    && (forall i :: 0 <= i < |s.artifacts| ==> ArtifactMatches(s.staging, s.artifacts[i], false, digest))
  }

  /** Staging holds registered files only. */
  ghost predicate NothingLeftOver(s: WriterState) {
    forall p :: p in s.staging ==> Listed(s.artifacts, p)
  }

  /** Whether a call gets as far as creating its file. */
  predicate FileCreated(s: WriterState, call: AddCall, bounds: Bounds) {
    && MediaTypeOk(call.mediaType) && !Listed(s.artifacts, call.path)
    && |s.artifacts| < bounds.artifactCount && |s.artifacts| < MAX_ARTIFACT_COUNT
    && !call.faults.opening && call.path !in s.staging
  }

  /** Exactly when an artifact is accepted. */
  predicate Admissible(s: WriterState, call: AddCall, bounds: Bounds) {
    && FileCreated(s, call, bounds)
    && EndsCleanly(call.source) && !call.faults.writing
    && |Content(call.source)| <= bounds.artifactBytes
    && s.total + |Content(call.source)| <= bounds.totalBytes
  }

  function RecordOf(call: AddCall, digest: Bytes -> string): ArtifactRecord {
    ArtifactRecord(call.path, call.role, call.mediaType, |Content(call.source)|, digest(Content(call.source)))
  }

  /** The effect of one call: it registers exactly the bytes read, or changes nothing but
      for a partial file that could not be removed. */
  function AfterAdd(s: WriterState, call: AddCall, bounds: Bounds, digest: Bytes -> string): WriterState {
    if Admissible(s, call, bounds) then
      WriterState(InsertRecord(RecordOf(call, digest), s.artifacts), s.total + |Content(call.source)|,
                  s.staging[call.path := Content(call.source)])
    else if FileCreated(s, call, bounds) && call.faults.leftover.Some? then
      s.(staging := s.staging[call.path := call.faults.leftover.value])
    else s
  }

  class BundleWriter {
    const name: string
    const bounds: Bounds
    const platform: Platform
    const createdMs: nat
    var artifacts: seq<ArtifactRecord>
    var totalBytes: nat
    var staging: Option<Directory>
    var destination: Option<Directory>
    ghost var history: seq<Disk>

    function State(): WriterState
      requires staging.Some?
      reads this
    {
      WriterState(artifacts, totalBytes, staging.value)
    }

    /** What every call keeps, even one whose cleanup fails. */
    ghost predicate Valid()
      reads this
    {
      && platform.Valid() && HasBundleExtension(name)
      && staging.Some? && AccountingOk(State(), bounds, platform.digest)
    }

    constructor (name: string, bounds: Bounds, platform: Platform, createdMs: nat)
      requires platform.Valid() && HasBundleExtension(name) && BoundsSupported(bounds)
      ensures Valid() && artifacts == [] && totalBytes == 0
      ensures staging == Some(map[]) && destination == None && history == []
      ensures this.name == name && this.bounds == bounds && this.createdMs == createdMs
      ensures this.platform == platform
    {
      this.name, this.bounds, this.platform, this.createdMs := name, bounds, platform, createdMs;
      artifacts, totalBytes, staging, destination, history := [], 0, Some(map[]), None, [];
    }

    /** `BundleWriter::create`: a writer exists exactly when the name ends in `.eggb`, the
        destination is free, its parent exists, the bounds are supported, and neither
        creating the staging directory nor reading the clock fails. */
    static method Create(name: string, destinationFree: bool, parentExists: bool, bounds: Bounds,
                         platform: Platform, staged: bool, clock: Option<nat>)
      returns (writer: Option<BundleWriter>)
      requires platform.Valid()
      ensures writer.Some? <==> HasBundleExtension(name) && destinationFree && parentExists && BoundsSupported(bounds)
                                && staged && clock.Some?
      ensures writer.Some? ==>
                && fresh(writer.value) && writer.value.Valid()
                && writer.value.name == name && writer.value.bounds == bounds && writer.value.platform == platform
                && writer.value.State() == WriterState([], 0, map[])
                && writer.value.destination.None? && Some(writer.value.createdMs) == clock
    {
      var boundsOk := CheckBounds(bounds);
      if |name| <= 5 || name[|name| - 5..] != ".eggb" || !destinationFree || !parentExists || !boundsOk {
        return None;
      }
      if !staged || clock.None? {
        return None;
      }
      var created := new BundleWriter(name, bounds, platform, clock.value);
      return Some(created);
    }

    /** Never underflows: the total stays within the bound, whatever failed before. */
    function RemainingTotalBytes(): (remaining: nat)
      requires Valid()
      reads this
      ensures remaining + totalBytes == bounds.totalBytes
    {
      bounds.totalBytes - totalBytes
    }

    /** Stream one artifact into staging. */
    method AddArtifact(call: AddCall) returns (added: bool)
      requires Valid() && call.path != MANIFEST_PATH
      modifies this`artifacts, this`totalBytes, this`staging
      ensures Valid()
      ensures added <==> old(Admissible(State(), call, bounds))
      ensures State() == AfterAdd(old(State()), call, bounds, platform.digest)
      ensures !added ==> artifacts == old(artifacts) && totalBytes == old(totalBytes)
      ensures !added && call.faults.leftover.None? ==> staging == old(staging)
    {
      hide InsertRecord, HexDigest, MediaTypeOk, Contains, HasBundleExtension, AccountingOk, Listed, Content,
           EndsCleanly;
      AddKeepsAccounting(State(), call, bounds, platform);
      var mediaTypeOk := CheckMediaType(call.mediaType);
      if !mediaTypeOk || Listed(artifacts, call.path) {
        return false;
      }
      if |artifacts| >= bounds.artifactCount || |artifacts| >= MAX_ARTIFACT_COUNT {
        return false;
      }
      if call.faults.opening || call.path in staging.value {
        return false;
      }
      AccountingBounds(State(), bounds, platform.digest);
      var files := staging.value;
      var written, failed := StreamArtifact(call.source, bounds, totalBytes);
      if failed || call.faults.writing {
        // The partial file is removed again, if removal works.
        if call.faults.leftover.Some? {
          staging := Some(files[call.path := call.faults.leftover.value]);
        }
        return false;
      }
      var record := ArtifactRecord(call.path, call.role, call.mediaType, |written|, platform.digest(written));
      staging := Some(files[call.path := written]);
      totalBytes := totalBytes + |written|;
      artifacts := InsertRecord(record, artifacts);
      return true;
    }

    /** The manifest finalization writes, if the three primary artifacts are staged. */
    function Candidate(facts: RunFacts): Option<BundleManifest>
      reads this`artifacts
    {
      var plan := FindRole(artifacts, ExperimentPlan);
      var resolvedPlan := FindRole(artifacts, ResolvedPlan);
      var environment := FindRole(artifacts, EnvironmentFingerprint);
      if plan.None? || resolvedPlan.None? || environment.None? then None
      else Some(BundleManifest(
        MANIFEST_VERSION, Some(facts.executionStatus), facts.comparisonVerdict,
        plan.value, resolvedPlan.value, environment.value, facts.trials,
        facts.comparison, facts.report, facts.drivers,
        Some(createdMs), Some(facts.finalizedMs), bounds, artifacts, true))
    }

    lemma CandidateCarries(facts: RunFacts)
      ensures Candidate(facts).Some? ==> Carries(Candidate(facts).value, facts, artifacts, bounds, createdMs)
    {
      FindRoleMeaning(artifacts, ExperimentPlan);
      FindRoleMeaning(artifacts, ResolvedPlan);
      FindRoleMeaning(artifacts, EnvironmentFingerprint);
    }

    /** Some valid manifest of storable size carries the facts. */
    ghost predicate Sealable(facts: RunFacts)
      reads this`artifacts
    {
      exists m ::
        && Carries(m, facts, artifacts, bounds, createdMs) && ManifestValid(m)
        && |platform.encode(m)| <= MAX_MANIFEST_BYTES
    }

    /** Exactly when finalization succeeds. */
    ghost predicate Finalizable(facts: RunFacts, faults: FinalizeFaults)
      requires staging.Some?
      reads this
    {
      && NothingLeftOver(State()) && destination.None? && faults == NoFaults(faults.bytesWritten)
      && Sealable(facts) && !Contains(name, STAGING_MARK)
    }

    /** The candidate is the only manifest that can carry the facts and be valid. */
    lemma SealableMeaning(facts: RunFacts)
      ensures Sealable(facts)
         <==> && Candidate(facts).Some? && ManifestValid(Candidate(facts).value)
              && |platform.encode(Candidate(facts).value)| <= MAX_MANIFEST_BYTES
    {
      hide ManifestValid, FindRole;
      CandidateCarries(facts);
      if m :| && Carries(m, facts, artifacts, bounds, createdMs) && ManifestValid(m)
              && |platform.encode(m)| <= MAX_MANIFEST_BYTES {
        ValidRoles(m);
        FindRoleMeaning(artifacts, ExperimentPlan);
        FindRoleMeaning(artifacts, ResolvedPlan);
        FindRoleMeaning(artifacts, EnvironmentFingerprint);
        RoleUnique(artifacts, ExperimentPlan, m.plan, FindRole(artifacts, ExperimentPlan).value);
        RoleUnique(artifacts, ResolvedPlan, m.resolvedPlan, FindRole(artifacts, ResolvedPlan).value);
        RoleUnique(artifacts, EnvironmentFingerprint, m.environment,
                   FindRole(artifacts, EnvironmentFingerprint).value);
        assert Candidate(facts) == Some(m);
      }
    }

    ghost function Snapshot(): Disk
      reads this
    {
      Disk(staging, destination)
    }

    /** Write the manifest, publish the staging directory by one rename that refuses
        to replace, and reopen it.  Success hands back the manifest that was
        written; whatever happens, and wherever it stops, the destination only ever
        goes from absent to a complete bundle. */
    method Finalize(facts: RunFacts, faults: FinalizeFaults) returns (result: Option<BundleManifest>)
      requires Valid()
      modifies this`staging, this`destination, this`history
      ensures result.Some? <==> old(Finalizable(facts, faults))
      ensures result.Some? ==>
                && result == old(Candidate(facts)) && result == Open(name, destination, platform)
                && Accepted(name, destination, platform) && staging.None?
                && destination == Some(old(staging.value)[MANIFEST_PATH := platform.encode(result.value)])
      ensures result.Some? ==> Carries(result.value, facts, old(artifacts), bounds, createdMs)
      ensures |history| > 0 && history[|history| - 1] == Snapshot()
      ensures forall i :: 0 <= i < |history| ==>
                || history[i].destination == old(destination)
                || (old(destination).None? && history[i].destination.Some?
                    && Complete(history[i].destination.value, platform))
      ensures destination.Some? && old(destination).None? ==> staging.None?
    {
      hide ManifestValid, Contains, HasBundleExtension, Complete, Accepted, Candidate, AccountingOk, Open, Carries,
           NothingLeftOver, Sealable;
      history := [Snapshot()];
      CandidateCarries(facts);
      var sealed := SealStaging(facts, faults);
      if !sealed {
        return None;
      }
      var before := staging.value;
      if destination.Some? || faults.publishing {
        return None;
      }
      destination, staging := staging, None;
      history := history + [Snapshot()];
      if faults.syncingParent {
        return None;
      }
      CompleteIsAccepted(name, before, platform);
      ghost var manifest := Candidate(facts).value;
      assert platform.decode(platform.encode(manifest)) == Some(manifest);
      result := OpenAndVerify(name, destination, platform);
    }

    /** The part of finalization before publication: validate, check the staged files
        and write the manifest next to them. */
    method SealStaging(facts: RunFacts, faults: FinalizeFaults) returns (sealed: bool)
      requires Valid() && history == [Snapshot()]
      modifies this`staging, this`history
      ensures sealed <==> && old(NothingLeftOver(State())) && old(Sealable(facts))
                          && !faults.creating && !faults.writing && !faults.syncing
      ensures sealed ==>
                && old(Candidate(facts)).Some? && staging.Some? && Complete(staging.value, platform)
                && var bytes := platform.encode(old(Candidate(facts)).value);
                   staging.value == old(staging.value)[MANIFEST_PATH := bytes]
      ensures |history| > 0 && history[|history| - 1] == Snapshot()
      ensures forall i :: 0 <= i < |history| ==> history[i].destination == destination
    {
      hide ManifestValid, Contains, HasBundleExtension, Complete, TreeMatches, FindRole, ArtifactsOk, BoundsSupported,
           Sealable, TotalSize, NothingLeftOver, ArtifactMatches;
      var candidate := Candidate(facts);
      SealableMeaning(facts);
      if candidate.None? {
        return false;
      }
      var manifest := candidate.value;
      var valid := Validate(manifest);
      if !valid {
        return false;
      }
      var intact := VerifyArtifactTree(staging.value, manifest.artifacts, false, platform.digest);
      IntactMeaning(State(), bounds, platform.digest);
      if !intact {
        return false;
      }
      var bytes := platform.encode(manifest);
      if |bytes| > MAX_MANIFEST_BYTES {
        return false;
      }
      SealedIsComplete(staging.value, manifest, platform);
      sealed := WriteManifest(bytes, faults);
    }

    /** Write the manifest next to the staged files, in two steps that may fail between. */
    method WriteManifest(bytes: Bytes, faults: FinalizeFaults) returns (written: bool)
      requires staging.Some? && history == [Snapshot()]
      modifies this`staging, this`history
      ensures written <==> !faults.creating && !faults.writing && !faults.syncing
      ensures written ==> staging == Some(old(staging.value)[MANIFEST_PATH := bytes])
      ensures |history| > 0 && history[|history| - 1] == Snapshot()
      ensures forall i :: 0 <= i < |history| ==> history[i].destination == destination
    {
      if faults.creating {
        return false;
      }
      var files := staging.value;
      staging := Some(files[MANIFEST_PATH := []]);
      history := history + [Snapshot()];
      var k := if faults.bytesWritten <= |bytes| then faults.bytesWritten else |bytes|;
      staging := Some(files[MANIFEST_PATH := bytes[..k]]);
      history := history + [Snapshot()];
      if faults.writing {
        return false;
      }
      staging := Some(files[MANIFEST_PATH := bytes]);
      history := history + [Snapshot()];
      return !faults.syncing;
    }
  }

  /** What the caller of finalization supplies. */
  datatype RunFacts = RunFacts(
    executionStatus: ExecutionStatus, comparisonVerdict: Option<string>, drivers: seq<string>,
    trials: seq<TrialDescriptor>, comparison: Option<string>, report: Option<string>, finalizedMs: nat)

  /** What a manifest carries: the caller's facts, the writer's bounds and times, the registered
      artifacts, and as plan, resolved plan and environment paths registered as such. */
  ghost predicate Carries(m: BundleManifest, facts: RunFacts, artifacts: seq<ArtifactRecord>, bounds: Bounds,
                          createdMs: nat) {
    && m.executionStatus == Some(facts.executionStatus) && m.comparisonVerdict == facts.comparisonVerdict
    && m.trials == facts.trials && m.drivers == facts.drivers
    && m.comparison == facts.comparison && m.report == facts.report
    && m.createdMs == Some(createdMs) && m.finalizedMs == Some(facts.finalizedMs)
    && m.limits == bounds && m.artifacts == artifacts
    && ListedAs(artifacts, m.plan, ExperimentPlan)
    && ListedAs(artifacts, m.resolvedPlan, ResolvedPlan)
    && ListedAs(artifacts, m.environment, EnvironmentFingerprint)
  }

  /** Where finalization is interrupted by a failing operation; `bytesWritten` is how
      much of the manifest is on disk halfway through writing it. */
  datatype FinalizeFaults = FinalizeFaults(
    creating: bool, bytesWritten: nat, writing: bool, syncing: bool, publishing: bool, syncingParent: bool)

  function NoFaults(bytesWritten: nat): FinalizeFaults {
    FinalizeFaults(false, bytesWritten, false, false, false, false)
  }

  function FindRole(artifacts: seq<ArtifactRecord>, role: Role): Option<string> {
    if artifacts == [] then None
    else if artifacts[0].role == role then Some(artifacts[0].path)
    else FindRole(artifacts[1..], role)
  }

  lemma ValidRoles(m: BundleManifest)
    requires ManifestValid(m)
    ensures m.schemaVersion == MANIFEST_VERSION && m.finalized
    ensures RoleCount(m.artifacts, ExperimentPlan) == RoleCount(m.artifacts, ResolvedPlan)
         == RoleCount(m.artifacts, EnvironmentFingerprint) == 1
  {
  }

  lemma {:induction false} RoleCounted(artifacts: seq<ArtifactRecord>, role: Role, i: nat, j: nat)
    requires i <= j < |artifacts| && artifacts[i].role == artifacts[j].role == role
    ensures RoleCount(artifacts, role) >= if i < j then 2 else 1
    decreases |artifacts|
  {
    var init := artifacts[..|artifacts| - 1];
    if j < |init| {
      RoleCounted(init, role, i, j);
    } else if i < j {
      RoleCounted(init, role, i, i);
    }
  }

  /** A role that one artifact has names one path. */
  lemma RoleUnique(artifacts: seq<ArtifactRecord>, role: Role, p: string, q: string)
    requires RoleCount(artifacts, role) == 1 && ListedAs(artifacts, p, role) && ListedAs(artifacts, q, role)
    ensures p == q
  {
    var i :| 0 <= i < |artifacts| && artifacts[i].path == p && artifacts[i].role == role;
    var j :| 0 <= j < |artifacts| && artifacts[j].path == q && artifacts[j].role == role;
    RoleCounted(artifacts, role, if i <= j then i else j, if i <= j then j else i);
  }

  lemma {:induction false} FindRoleMeaning(artifacts: seq<ArtifactRecord>, role: Role)
    ensures FindRole(artifacts, role).Some? ==> ListedAs(artifacts, FindRole(artifacts, role).value, role)
    ensures FindRole(artifacts, role).None? ==> forall path :: !ListedAs(artifacts, path, role)
    decreases |artifacts|
  {
    if artifacts != [] {
      var rest := artifacts[1..];
      FindRoleMeaning(rest, role);
      assert forall i :: 0 <= i < |rest| ==> rest[i] == artifacts[i + 1];
      forall path | ListedAs(artifacts, path, role) && artifacts[0].role != role
        ensures ListedAs(rest, path, role)
      {
        var i :| 0 <= i < |artifacts| && artifacts[i].path == path && artifacts[i].role == role;
        assert rest[i - 1] == artifacts[i];
      }
    }
  }

  /** A directory that holds a valid manifest and exactly what it lists. */
  ghost predicate Complete(directory: Directory, platform: Platform) {
    && MANIFEST_PATH in directory && |directory[MANIFEST_PATH]| <= MAX_MANIFEST_BYTES
    && platform.decode(directory[MANIFEST_PATH]).Some?
    && var m := platform.decode(directory[MANIFEST_PATH]).value;
       ManifestValid(m) && TreeMatches(directory, m.artifacts, true, platform.digest)
  }

  /** A complete bundle opens and verifies under exactly the names without the
      staging mark. */
  lemma CompleteIsAccepted(name: string, directory: Directory, platform: Platform)
    requires Complete(directory, platform) && HasBundleExtension(name)
    ensures Accepted(name, Some(directory), platform) <==> !Contains(name, STAGING_MARK)
    ensures !Contains(name, STAGING_MARK) ==>
              Open(name, Some(directory), platform) == platform.decode(directory[MANIFEST_PATH])
  {
  }

  lemma SealedIsComplete(files: Directory, manifest: BundleManifest, platform: Platform)
    requires platform.Valid() && ManifestValid(manifest)
    requires TreeMatches(files, manifest.artifacts, false, platform.digest)
    requires forall i :: 0 <= i < |manifest.artifacts| ==> manifest.artifacts[i].path != MANIFEST_PATH
    requires |platform.encode(manifest)| <= MAX_MANIFEST_BYTES
    ensures Complete(files[MANIFEST_PATH := platform.encode(manifest)], platform)
  {
    var directory := files[MANIFEST_PATH := platform.encode(manifest)];
    forall i | 0 <= i < |manifest.artifacts|
      ensures ArtifactMatches(directory, manifest.artifacts[i], true, platform.digest)
    {
      assert ArtifactMatches(files, manifest.artifacts[i], false, platform.digest);
    }
  }

  /** `create` accepts some names that `open` refuses: a bundle finalized under this
      one is complete on disk and can never be opened by its own name. */
  lemma StagingMarkInBundleName()
    ensures HasBundleExtension("a.staging-b.eggb")
    ensures forall directory, platform :: Open("a.staging-b.eggb", directory, platform).None?
  {
    var name := "a.staging-b.eggb";
    assert name[|name| - 5..] == ".eggb";
    ContainsMiddle("a", STAGING_MARK, "b.eggb");
    assert "a" + STAGING_MARK + "b.eggb" == name;
  }

  /** The tree check of finalization fails exactly on a leftover file. */
  lemma IntactMeaning(s: WriterState, bounds: Bounds, digest: Bytes -> string)
    requires AccountingOk(s, bounds, digest)
    ensures TreeMatches(s.staging, s.artifacts, false, digest) <==> NothingLeftOver(s)
  {
  }

  lemma AddedMember(artifacts: seq<ArtifactRecord>, record: ArtifactRecord, i: nat)
    requires i < |InsertRecord(record, artifacts)|
    ensures InsertRecord(record, artifacts)[i] == record || InsertRecord(record, artifacts)[i] in artifacts
    ensures |InsertRecord(record, artifacts)| == |artifacts| + 1
  {
    var longer := InsertRecord(record, artifacts);
    InsertByMembers(record, artifacts, RecordPath);
    assert longer[i] in multiset(longer);
  }

  lemma {:induction false} AddedArtifactsOk(artifacts: seq<ArtifactRecord>, bounds: Bounds, record: ArtifactRecord)
    requires ArtifactsOk(artifacts, bounds) && !Listed(artifacts, record.path)
    requires |artifacts| < bounds.artifactCount && RecordOk(record, bounds)
    requires TotalSize(artifacts) + record.byteSize <= bounds.totalBytes
    ensures ArtifactsOk(InsertRecord(record, artifacts), bounds)
  {
    hide RecordOk, InsertRecord;
    var longer := InsertRecord(record, artifacts);
    InsertRecordDistinct(record, artifacts);
    TotalOfInsert(record, artifacts);
    InsertedLength(record, artifacts);
    forall i | 0 <= i < |longer|
      ensures RecordOk(longer[i], bounds)
    {
      AddedMember(artifacts, record, i);
    }
  }

  lemma InsertedLength(record: ArtifactRecord, artifacts: seq<ArtifactRecord>)
    ensures |InsertRecord(record, artifacts)| == |artifacts| + 1
  {
  }

  lemma AddedFilesMatch(artifacts: seq<ArtifactRecord>, staging: Directory, digest: Bytes -> string,
                        record: ArtifactRecord, bytes: Bytes)
    requires forall i :: 0 <= i < |artifacts| ==> ArtifactMatches(staging, artifacts[i], false, digest)
    requires !Listed(artifacts, record.path)
    requires record.byteSize == |bytes| && record.sha256 == digest(bytes)
    ensures var longer := InsertRecord(record, artifacts);
            forall i :: 0 <= i < |longer| ==> ArtifactMatches(staging[record.path := bytes], longer[i], false, digest)
  {
    hide InsertRecord;
    var longer := InsertRecord(record, artifacts);
    forall i | 0 <= i < |longer|
      ensures ArtifactMatches(staging[record.path := bytes], longer[i], false, digest)
    {
      AddedMember(artifacts, record, i);
      if longer[i] in artifacts {
        var j :| 0 <= j < |artifacts| && artifacts[j] == longer[i];
        assert ArtifactMatches(staging, artifacts[j], false, digest);
      }
    }
  }

  // ---- Accounting over every run of calls ----

  /** One call, successful or not, keeps the books right. */
  lemma AddKeepsAccounting(s: WriterState, call: AddCall, bounds: Bounds, platform: Platform)
    requires platform.Valid() && AccountingOk(s, bounds, platform.digest) && call.path != MANIFEST_PATH
    ensures AccountingOk(AfterAdd(s, call, bounds, platform.digest), bounds, platform.digest)
  {
    if Admissible(s, call, bounds) {
      AdmissibleKeepsAccounting(s, call, bounds, platform);
    } else if FileCreated(s, call, bounds) && call.faults.leftover.Some? {
      hide ArtifactsOk, MediaTypeOk;
      forall i | 0 <= i < |s.artifacts|
        ensures ArtifactMatches(s.staging[call.path := call.faults.leftover.value], s.artifacts[i], false,
                                platform.digest)
      {
        assert s.artifacts[i] in s.artifacts;
        assert ArtifactMatches(s.staging, s.artifacts[i], false, platform.digest);
      }
    }
  }

  lemma AdmissibleKeepsAccounting(s: WriterState, call: AddCall, bounds: Bounds, platform: Platform)
    requires platform.Valid() && AccountingOk(s, bounds, platform.digest) && call.path != MANIFEST_PATH
    requires Admissible(s, call, bounds)
    ensures AccountingOk(AfterAdd(s, call, bounds, platform.digest), bounds, platform.digest)
  {
    hide ArtifactsOk, ArtifactMatches, InsertRecord, TotalSize, HexDigest, MediaTypeOk, Listed, BoundsSupported,
         Content;
    var record := RecordOf(call, platform.digest);
    AddedArtifactsOk(s.artifacts, bounds, record);
    AddedFilesMatch(s.artifacts, s.staging, platform.digest, record, Content(call.source));
    TotalOfInsert(record, s.artifacts);
    var longer := InsertRecord(record, s.artifacts);
    forall i | 0 <= i < |longer|
      ensures longer[i].path != MANIFEST_PATH
    {
      AddedMember(s.artifacts, record, i);
    }
  }

  /** The state after a run of calls. */
  function AfterAll(s: WriterState, calls: seq<AddCall>, bounds: Bounds, digest: Bytes -> string): WriterState {
    if calls == [] then s
    else AfterAdd(AfterAll(s, calls[..|calls| - 1], bounds, digest), calls[|calls| - 1], bounds, digest)
  }

  /** The bytes that the accepted calls of a run delivered. */
  function AcceptedBytes(s: WriterState, calls: seq<AddCall>, bounds: Bounds, digest: Bytes -> string): nat {
    if calls == [] then 0
    else
      var init, last := calls[..|calls| - 1], calls[|calls| - 1];
      AcceptedBytes(s, init, bounds, digest)
      + if Admissible(AfterAll(s, init, bounds, digest), last, bounds) then |Content(last.source)| else 0
  }

  /** Over every run of successful and failing calls, failed cleanups included, the books
      stay right: the total is the sum of the recorded sizes and of the bytes accepted,
      within its bound; and staging holds registered files only as long as every failed
      call could clean up. */
  lemma {:induction false} AccountingOverRuns(calls: seq<AddCall>, bounds: Bounds, platform: Platform)
    requires platform.Valid() && BoundsSupported(bounds)
    requires forall c :: c in calls ==> c.path != MANIFEST_PATH
    ensures var start := WriterState([], 0, map[]);
            var s := AfterAll(start, calls, bounds, platform.digest);
            && AccountingOk(s, bounds, platform.digest)
            && s.total == TotalSize(s.artifacts) == AcceptedBytes(start, calls, bounds, platform.digest)
            && s.total <= bounds.totalBytes && |s.artifacts| <= bounds.artifactCount
            && ((forall c :: c in calls ==> c.faults.leftover.None?) ==> NothingLeftOver(s))
    decreases |calls|
  {
    hide AccountingOk, Admissible, NothingLeftOver, FileCreated, TotalSize, BoundsSupported;
    var start := WriterState([], 0, map[]);
    if calls == [] {
      EmptyAccounting(bounds, platform.digest);
    } else {
      var init, last := calls[..|calls| - 1], calls[|calls| - 1];
      assert calls == init + [last];
      AccountingOverRuns(init, bounds, platform);
      var s := AfterAll(start, init, bounds, platform.digest);
      AddKeepsAccounting(s, last, bounds, platform);
      if NothingLeftOver(s) && last.faults.leftover.None? {
        AddLeavesNothing(s, last, bounds, platform.digest);
      }
    }
    AccountingBounds(AfterAll(start, calls, bounds, platform.digest), bounds, platform.digest);
  }

  lemma EmptyAccounting(bounds: Bounds, digest: Bytes -> string)
    requires BoundsSupported(bounds)
    ensures AccountingOk(WriterState([], 0, map[]), bounds, digest) && NothingLeftOver(WriterState([], 0, map[]))
  {
  }

  lemma AccountingBounds(s: WriterState, bounds: Bounds, digest: Bytes -> string)
    requires AccountingOk(s, bounds, digest)
    ensures s.total == TotalSize(s.artifacts) <= bounds.totalBytes && |s.artifacts| <= bounds.artifactCount
  {
  }

  lemma AddLeavesNothing(s: WriterState, call: AddCall, bounds: Bounds, digest: Bytes -> string)
    requires NothingLeftOver(s) && call.faults.leftover.None?
    ensures NothingLeftOver(AfterAdd(s, call, bounds, digest))
  {
    hide FileCreated, InsertRecord;
    if Admissible(s, call, bounds) {
      var record := RecordOf(call, digest);
      var longer := InsertRecord(record, s.artifacts);
      forall p | p in s.staging[call.path := Content(call.source)]
        ensures Listed(longer, p)
      {
        var source := record;
        if p != call.path {
          var j :| 0 <= j < |s.artifacts| && s.artifacts[j].path == p;
          source := s.artifacts[j];
        }
        StillListed(record, s.artifacts, source);
      }
    }
  }

  lemma StillListed(record: ArtifactRecord, artifacts: seq<ArtifactRecord>, member: ArtifactRecord)
    requires member == record || member in artifacts
    ensures Listed(InsertRecord(record, artifacts), member.path)
  {
    var longer := InsertRecord(record, artifacts);
    InsertByMembers(record, artifacts, RecordPath);
    assert member in multiset(longer);
    var i :| 0 <= i < |longer| && longer[i] == member;
    assert longer[i].path == member.path;
  }
}
