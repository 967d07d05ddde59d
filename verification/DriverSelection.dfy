/** Selection of the best driver package for a device (selector.rs). */
module DriverSelection {
  import opened Wrappers
  import opened Text
  import opened Orderings
  import opened Inventory
  import opened KernelRange
  import HardwareMatching
  import RepositoryManifests

  datatype PackageMetadata = PackageMetadata(
    driverName: string,
    version: DriverVersion,
    architecture: string,
    kernelCompat: KernelCompatibility,
    signingKeyId: Option<string>,
    sourceId: string
  )

  datatype SourceType = Mission | Linux | Vendor | Community | Local {
    predicate DefaultTrusted() {
      Mission? || Linux?
    }
  }

  datatype SourceConfig = SourceConfig(
    id: string,
    sourceType: SourceType,
    enabled: bool,
    priority: nat,
    trustedKeyIds: seq<string>
  )

  datatype Rejection =
    | NotCompatible
    | NoPackage
    | WrongArchitecture
    | WrongKernel
    | NotTrusted

  datatype SelectionCandidate = SelectionCandidate(
    driver: DriverEntry,
    metadata: Option<PackageMetadata>,
    sourceId: string,
    score: nat,
    trusted: bool,
    rejections: seq<Rejection>
  ) {
    predicate Qualified() {
      rejections == []
    }
  }

  // ── Sources ────────────────────────────────────────────────────

  predicate SourceEnabled(sources: seq<SourceConfig>, id: string) {
    exists s :: s in sources && s.id == id && s.enabled
  }

  /** First source with the id. */
  function GetSource(sources: seq<SourceConfig>, id: string): (source: Option<SourceConfig>)
    ensures source.Some? ==> source.value in sources && source.value.id == id
    ensures source.None? ==> forall s | s in sources :: s.id != id
  {
    if sources == [] then None
    else if sources[0].id == id then Some(sources[0])
    else GetSource(sources[1..], id)
  }

  /** Without configured keys, or without a signing key, trust follows the source type. */
  predicate SourceTrusted(sources: seq<SourceConfig>, id: string, signingKey: Option<string>) {
    match GetSource(sources, id)
    case None => false
    case Some(source) =>
      if source.trustedKeyIds == [] then source.sourceType.DefaultTrusted()
      else if signingKey.Some? then signingKey.value in source.trustedKeyIds
      else source.sourceType.DefaultTrusted()
  }

  ghost predicate FirstSource(sources: seq<SourceConfig>, i: nat, id: string) {
    && i < |sources| && sources[i].id == id
    && forall j: nat | j < i :: sources[j].id != id
  }

  lemma {:induction false} GetSourceIsFirst(sources: seq<SourceConfig>, i: nat, id: string)
    requires FirstSource(sources, i, id)
    ensures GetSource(sources, id) == Some(sources[i])
  {
    if i > 0 {
      assert sources[0].id != id;
      GetSourceIsFirst(sources[1..], i - 1, id);
    }
  }

  lemma {:induction false} FirstSourceExists(sources: seq<SourceConfig>, id: string)
    requires exists s :: s in sources && s.id == id
    ensures exists i: nat :: FirstSource(sources, i, id)
  {
    if sources[0].id == id {
      assert FirstSource(sources, 0, id);
    } else {
      FirstSourceExists(sources[1..], id);
      var i: nat :| FirstSource(sources[1..], i, id);
      assert FirstSource(sources, i + 1, id);
    }
  }

  /** Some entry with the id is enabled. */
  ghost predicate EnabledSource(sources: seq<SourceConfig>, id: string) {
    exists i :: 0 <= i < |sources| && sources[i].id == id && sources[i].enabled
  }

  /**
   The first source with the id is behind the package: by one of its keys, or by being of the
   project or the kernel, when no keys are configured or no key is named.
   */
  ghost predicate TrustedSource(sources: seq<SourceConfig>, id: string, key: Option<string>) {
    exists i: nat :: FirstSource(sources, i, id) && (
      || (key.Some? && key.value in sources[i].trustedKeyIds)
      || (sources[i].sourceType in {Mission, Linux} && (sources[i].trustedKeyIds == [] || key.None?)))
  }

  lemma SourcesExactly(sources: seq<SourceConfig>, id: string, key: Option<string>)
    ensures SourceEnabled(sources, id) <==> EnabledSource(sources, id)
    ensures SourceTrusted(sources, id, key) <==> TrustedSource(sources, id, key)
  {
    if GetSource(sources, id).Some? {
      FirstSourceExists(sources, id);
    }
    forall i: nat | FirstSource(sources, i, id) ensures GetSource(sources, id) == Some(sources[i]) {
      GetSourceIsFirst(sources, i, id);
    }
  }

  /**
   With keys configured, trust means a signature by one of them exactly for source types that
   are not trusted by default: the others are also trusted without a signing key.
   */
  lemma KeysBindExactly(sources: seq<SourceConfig>, id: string)
    requires GetSource(sources, id).Some? && GetSource(sources, id).value.trustedKeyIds != []
    ensures var source := GetSource(sources, id).value;
            (forall key: Option<string> | SourceTrusted(sources, id, key) ::
               key.Some? && key.value in source.trustedKeyIds) <==>
            !source.sourceType.DefaultTrusted()
    ensures SourceTrusted(sources, id, None) <==> GetSource(sources, id).value.sourceType.DefaultTrusted()
  {
    var unsigned: Option<string> := None;
    assert SourceTrusted(sources, id, unsigned) <==> GetSource(sources, id).value.sourceType.DefaultTrusted();
  }

  // ── Package checks ─────────────────────────────────────────────

  function NormalizedArchitecture(p: PackageMetadata): string {
    var arch := Lower(p.architecture);
    if arch == "amd64" then "x86_64" else if arch == "arm64" then "aarch64" else arch
  }

  predicate ArchitectureCompatible(host: string, p: PackageMetadata) {
    var system, package := Lower(host), NormalizedArchitecture(p);
    || system == package
    || (system, package) in {("x86_64", "amd64"), ("amd64", "x86_64"), ("aarch64", "arm64"), ("arm64", "aarch64")}
  }

  /** Normalizing the package side does not change which architectures fit. */
  lemma NormalizationIsHarmless(host: string, p: PackageMetadata)
    ensures ArchitectureCompatible(host, p) <==> ArchitecturesMatch(host, p.architecture)
  {
    LowerTwice(p.architecture);
  }

  lemma LowerTwice(s: string)
    ensures Lower(Lower(s)) == Lower(s)
  {
  }

  /** The selector's copy of the kernel range check. */
  method IsKernelCompatible(kernelVersion: string, compat: KernelCompatibility) returns (compatible: bool)
    ensures compatible <==> !Rejects(kernelVersion, compat.minVersion, compat.maxVersion)
  {
    var parts := SystemParts(kernelVersion);
    if parts == [] {
      return true;
    }
    RejectsByParts(kernelVersion, compat.minVersion, compat.maxVersion);
    var min := BoundParts(compat.minVersion);
    for i := 0 to |min|
      invariant CmpUpTo(parts, min, i).Equal?
    {
      ComponentDecides(parts, min, i);
      if At(parts, i) < min[i] {
        return false;
      }
      if At(parts, i) > min[i] {
        break;
      }
    }
    if compat.maxVersion.Some? {
      var max := BoundParts(compat.maxVersion.value);
      for i := 0 to |max|
        invariant CmpUpTo(parts, max, i).Equal?
      {
        ComponentDecides(parts, max, i);
        if At(parts, i) > max[i] {
          return false;
        }
        if At(parts, i) < max[i] {
          break;
        }
      }
    }
    return true;
  }

  // ── The ranking ────────────────────────────────────────────────

  /** What the comparator reads besides the two candidates. */
  datatype Ranking = Ranking(sources: seq<SourceConfig>, manifests: map<string, RepositoryManifests.Verification>)

  function ManifestTrustScore(r: Ranking, sourceId: string): int {
    if sourceId !in r.manifests then 1
    else
      match r.manifests[sourceId]
      case Verified(_) => 2
      case Unverified => 1
      case InvalidSignature => 0
      case UnknownKey => 0
  }

  function SourcePriority(r: Ranking, sourceId: string): int {
    match GetSource(r.sources, sourceId)
    case Some(s) => s.priority
    case None => 100
  }

  /** `Option::cmp`: no metadata below any version. */
  function ComparePackageVersions(a: Option<PackageMetadata>, b: Option<PackageMetadata>): Cmp {
    match (a, b)
    case (None, None) => Equal
    case (None, Some(_)) => Less
    case (Some(_), None) => Greater
    case (Some(x), Some(y)) => CompareVersion(x.version, y.version)
  }

  ghost predicate ManifestVerified(r: Ranking, id: string) {
    id in r.manifests && r.manifests[id].Verified?
  }

  ghost predicate ManifestFailed(r: Ranking, id: string) {
    id in r.manifests && (r.manifests[id].InvalidSignature? || r.manifests[id].UnknownKey?)
  }

  /** A verified manifest is above none and above an unverified one, and those are above a failed one. */
  lemma ManifestScoreExactly(r: Ranking, a: string, b: string)
    ensures ManifestTrustScore(r, a) > ManifestTrustScore(r, b) <==>
            || (ManifestVerified(r, a) && !ManifestVerified(r, b))
            || (ManifestFailed(r, b) && !ManifestFailed(r, a))
  {
  }

  /** The priority of the first source with the id, or 100. */
  lemma SourcePriorityExactly(r: Ranking, id: string, i: nat)
    ensures FirstSource(r.sources, i, id) ==> SourcePriority(r, id) == r.sources[i].priority
    ensures (forall s | s in r.sources :: s.id != id) ==> SourcePriority(r, id) == 100
  {
    if FirstSource(r.sources, i, id) {
      GetSourceIsFirst(r.sources, i, id);
    }
  }

  /** No package is below any package; of two, the lower version is. */
  lemma PackageVersionsExactly(a: Option<PackageMetadata>, b: Option<PackageMetadata>)
    ensures ComparePackageVersions(a, b).Less? <==>
            b.Some? && (a.None? || LowerVersion(a.value.version, b.value.version))
  {
    if a.Some? && b.Some? {
      CompareVersionExactly(a.value.version, b.value.version);
    }
  }

  /** The four numeric levels: trust, manifest, score, priority (low first). */
  function CompareRanks(r: Ranking, a: SelectionCandidate, b: SelectionCandidate): Cmp {
    CmpInt(if a.trusted then 1 else 0, if b.trusted then 1 else 0)
      .Then(CmpInt(ManifestTrustScore(r, a.sourceId), ManifestTrustScore(r, b.sourceId)))
      .Then(CmpInt(a.score, b.score))
      .Then(CmpInt(SourcePriority(r, a.sourceId), SourcePriority(r, b.sourceId)).Flip())
  }

  /** Six levels: the numeric ones, then version, then name. */
  function Compare(r: Ranking, a: SelectionCandidate, b: SelectionCandidate): Cmp {
    CompareRanks(r, a, b)
      .Then(ComparePackageVersions(a.metadata, b.metadata))
      .Then(CmpString(a.driver.id.name, b.driver.id.name))
  }

  lemma PackageVersionsPreorder(a: Option<PackageMetadata>, b: Option<PackageMetadata>, c: Option<PackageMetadata>)
    ensures ComparePackageVersions(b, a) == ComparePackageVersions(a, b).Flip()
    ensures Composes(ComparePackageVersions(a, b), ComparePackageVersions(b, c), ComparePackageVersions(a, c))
  {
    if a.Some? && b.Some? {
      CompareVersionTotalOrder(a.value.version, b.value.version,
                               if c.Some? then c.value.version else a.value.version);
    }
  }

  lemma CompareRanksPreorder(r: Ranking, a: SelectionCandidate, b: SelectionCandidate, c: SelectionCandidate)
    ensures CompareRanks(r, b, a) == CompareRanks(r, a, b).Flip()
    ensures Composes(CompareRanks(r, a, b), CompareRanks(r, b, c), CompareRanks(r, a, c))
  {
  }

  lemma CompareDual(r: Ranking, a: SelectionCandidate, b: SelectionCandidate)
    ensures Compare(r, b, a) == Compare(r, a, b).Flip()
  {
    CompareRanksPreorder(r, a, b, a);
    PackageVersionsPreorder(a.metadata, b.metadata, a.metadata);
    CmpStringDual(a.driver.id.name, b.driver.id.name);
  }

  /** The comparator is a total preorder. */
  lemma CompareTotalPreorder(r: Ranking, a: SelectionCandidate, b: SelectionCandidate, c: SelectionCandidate)
    ensures Compare(r, b, a) == Compare(r, a, b).Flip()
    ensures Composes(Compare(r, a, b), Compare(r, b, c), Compare(r, a, c))
  {
    CompareDual(r, a, b);
    CompareRanksPreorder(r, a, b, c);
    PackageVersionsPreorder(a.metadata, b.metadata, c.metadata);
    CmpStringComposes(a.driver.id.name, b.driver.id.name, c.driver.id.name);
    var ab, bc, ac := CompareRanks(r, a, b), CompareRanks(r, b, c), CompareRanks(r, a, c);
    var ab', bc', ac' := ComparePackageVersions(a.metadata, b.metadata),
                         ComparePackageVersions(b.metadata, c.metadata),
                         ComparePackageVersions(a.metadata, c.metadata);
    ThenComposes(ab, bc, ac, ab', bc', ac');
    ThenComposes(ab.Then(ab'), bc.Then(bc'), ac.Then(ac'),
                 CmpString(a.driver.id.name, b.driver.id.name),
                 CmpString(b.driver.id.name, c.driver.id.name),
                 CmpString(a.driver.id.name, c.driver.id.name));
  }

  /** Candidates that compare equal agree on all six levels. */
  lemma CompareEqualExactly(r: Ranking, a: SelectionCandidate, b: SelectionCandidate)
    ensures Compare(r, a, b).Equal? <==>
            && a.trusted == b.trusted
            && ManifestTrustScore(r, a.sourceId) == ManifestTrustScore(r, b.sourceId)
            && a.score == b.score
            && SourcePriority(r, a.sourceId) == SourcePriority(r, b.sourceId)
            && ComparePackageVersions(a.metadata, b.metadata).Equal?
            && a.driver.id.name == b.driver.id.name
  {
    CmpStringEqual(a.driver.id.name, b.driver.id.name);
  }

  // ── The documented precedence ──────────────────────────────────

  /** Manifest, source trust, version, source priority, name: no level for the score. */
  ghost function CompareDocumented(r: Ranking, a: SelectionCandidate, b: SelectionCandidate): Cmp {
    CmpInt(ManifestTrustScore(r, a.sourceId), ManifestTrustScore(r, b.sourceId))
      .Then(CmpInt(if a.trusted then 1 else 0, if b.trusted then 1 else 0))
      .Then(ComparePackageVersions(a.metadata, b.metadata))
      .Then(CmpInt(SourcePriority(r, a.sourceId), SourcePriority(r, b.sourceId)).Flip())
      .Then(CmpString(a.driver.id.name, b.driver.id.name))
  }

  /** Two orders of two levels agree. */
  ghost predicate Swappable(x: Cmp, y: Cmp) {
    x.Equal? || y.Equal? || x == y
  }

  /**
   The comparator follows the documented precedence on two candidates exactly when trust and
   manifest do not conflict and, where both tie, the score decides as the documented levels
   below would, or ties with version and source priority not in conflict.
   */
  lemma DocumentedPrecedenceExactly(r: Ranking, a: SelectionCandidate, b: SelectionCandidate)
    ensures var trust := CmpInt(if a.trusted then 1 else 0, if b.trusted then 1 else 0);
            var manifest := CmpInt(ManifestTrustScore(r, a.sourceId), ManifestTrustScore(r, b.sourceId));
            var score := CmpInt(a.score, b.score);
            var priority := CmpInt(SourcePriority(r, a.sourceId), SourcePriority(r, b.sourceId)).Flip();
            var version := ComparePackageVersions(a.metadata, b.metadata);
            var name := CmpString(a.driver.id.name, b.driver.id.name);
            Compare(r, a, b) == CompareDocumented(r, a, b) <==>
            if !(trust.Equal? && manifest.Equal?) then Swappable(trust, manifest)
            else if !score.Equal? then score == version.Then(priority).Then(name)
            else Swappable(version, priority)
  {
  }

  /** A source with a lower priority number wins over a higher version, against the documented precedence. */
  lemma PriorityBeatsVersion(r: Ranking, a: SelectionCandidate, b: SelectionCandidate)
    requires a.trusted && b.trusted && a.score == b.score
    requires ManifestTrustScore(r, a.sourceId) == ManifestTrustScore(r, b.sourceId)
    requires SourcePriority(r, a.sourceId) < SourcePriority(r, b.sourceId)
    requires ComparePackageVersions(a.metadata, b.metadata).Less?
    ensures Compare(r, a, b).Greater? && CompareDocumented(r, a, b).Less?
  {
  }

  // ── The best candidate ─────────────────────────────────────────

  /** Position `i` holds a qualified candidate that no other beats and every later one is below. */
  ghost predicate BestAt(r: Ranking, candidates: seq<SelectionCandidate>, i: nat) {
    && i < |candidates| && candidates[i].Qualified()
    && (forall j | 0 <= j < |candidates| && candidates[j].Qualified() ::
          !Compare(r, candidates[j], candidates[i]).Greater?)
    && (forall j | i < j < |candidates| && candidates[j].Qualified() ::
          Compare(r, candidates[j], candidates[i]).Less?)
  }

  /** `max_by` over the qualified candidates: of several largest, the last. */
  method SelectBestCandidate(r: Ranking, candidates: seq<SelectionCandidate>)
    returns (selected: Option<SelectionCandidate>)
    ensures selected.None? <==> forall c | c in candidates :: !c.Qualified()
    ensures selected.Some? ==> exists i: nat :: BestAt(r, candidates, i) && candidates[i] == selected.value
  {
    var best: Option<nat> := None;
    for i := 0 to |candidates|
      invariant best.None? ==> forall j | 0 <= j < i :: !candidates[j].Qualified()
      invariant best.Some? ==> best.value < i && BestAt(r, candidates[..i], best.value)
    {
      var prefix := candidates[..i];
      assert candidates[..i + 1] == prefix + [candidates[i]];
      if candidates[i].Qualified() {
        CompareTotalPreorder(r, candidates[i], candidates[i], candidates[i]);
        if best.None? {
          best := Some(i);
        } else {
          Challenge(r, prefix, best.value, candidates[i]);
          if !Compare(r, candidates[best.value], candidates[i]).Greater? {
            best := Some(i);
          }
        }
      }
    }
    assert candidates[..|candidates|] == candidates;
    if best.None? {
      return None;
    }
    assert candidates[best.value] in candidates;
    return Some(candidates[best.value]);
  }

  /** A newcomer that is not below the best so far takes its place. */
  lemma Challenge(r: Ranking, before: seq<SelectionCandidate>, best: nat, newcomer: SelectionCandidate)
    requires BestAt(r, before, best) && newcomer.Qualified()
    ensures if Compare(r, before[best], newcomer).Greater? then BestAt(r, before + [newcomer], best)
            else BestAt(r, before + [newcomer], |before|)
  {
    var after := before + [newcomer];
    CompareTotalPreorder(r, before[best], newcomer, newcomer);
    CompareTotalPreorder(r, newcomer, newcomer, newcomer);
    forall j | 0 <= j < |before| && before[j].Qualified()
      ensures !Compare(r, before[best], newcomer).Greater? ==> !Compare(r, before[j], newcomer).Greater?
    {
      CompareTotalPreorder(r, before[j], before[best], newcomer);
    }
  }

  /** Listing the candidates in another order selects one that compares equal. */
  lemma OrderDoesNotMatter(r: Ranking, a: seq<SelectionCandidate>, b: seq<SelectionCandidate>, i: nat, j: nat)
    requires multiset(a) == multiset(b)
    requires BestAt(r, a, i) && BestAt(r, b, j)
    ensures Compare(r, a[i], b[j]).Equal?
  {
    assert a[i] in multiset(a) && b[j] in multiset(b);
    assert a[i] in b && b[j] in a;
    CompareTotalPreorder(r, a[i], b[j], a[i]);
  }

  // ── The selector ───────────────────────────────────────────────

  class DriverSelector {
    /** System description of the hardware matcher. */
    const matcherSystem: SystemInfo
    /** Kernel version read anew for the package check. */
    const detectedKernel: string
    /** Architecture that the service was built for. */
    const hostArchitecture: string
    const sources: seq<SourceConfig>
    var verifiedManifests: map<string, RepositoryManifests.Verification>

    constructor (matcherSystem: SystemInfo, detectedKernel: string, hostArchitecture: string,
                 sources: seq<SourceConfig>)
      ensures this.matcherSystem == matcherSystem && this.detectedKernel == detectedKernel
      ensures this.hostArchitecture == hostArchitecture && this.sources == sources
      ensures verifiedManifests == map[]
    {
      this.matcherSystem, this.detectedKernel := matcherSystem, detectedKernel;
      this.hostArchitecture, this.sources := hostArchitecture, sources;
      verifiedManifests := map[];
    }

    method UpdateManifestVerification(sourceId: string, verification: RepositoryManifests.Verification)
      modifies this
      ensures verifiedManifests == old(verifiedManifests)[sourceId := verification]
    {
      verifiedManifests := verifiedManifests[sourceId := verification];
    }

    method ClearManifestVerification(sourceId: string)
      modifies this
      ensures verifiedManifests == old(verifiedManifests) - {sourceId}
    {
      verifiedManifests := verifiedManifests - {sourceId};
    }

    function CurrentRanking(): Ranking
      reads this
    {
      Ranking(sources, verifiedManifests)
    }

    /** The package belongs to the driver and comes from an enabled source. */
    predicate Offers(driver: DriverEntry, p: PackageMetadata) {
      EqIgnoreCase(p.driverName, driver.id.name) && SourceEnabled(sources, p.sourceId)
    }

    /** Compatible driver, offered package, architecture and kernel within limits, trusted source. */
    ghost predicate Eligible(device: HardwareDevice, driver: DriverEntry, p: PackageMetadata) {
      && HardwareMatching.IsCompatible(matcherSystem, driver, device)
      && EqIgnoreCase(p.driverName, driver.id.name)
      && EnabledSource(sources, p.sourceId)
      && ArchitectureName(Lower(hostArchitecture)) == ArchitectureName(Lower(p.architecture))
      && !Rejects(detectedKernel, p.kernelCompat.minVersion, p.kernelCompat.maxVersion)
      && TrustedSource(sources, p.sourceId, p.signingKeyId)
    }

    lemma EligibleExactly(device: HardwareDevice, driver: DriverEntry, p: PackageMetadata)
      ensures Eligible(device, driver, p) <==>
              && HardwareMatching.IsCompatible(matcherSystem, driver, device)
              && Offers(driver, p) && ArchitectureCompatible(hostArchitecture, p)
              && !Rejects(detectedKernel, p.kernelCompat.minVersion, p.kernelCompat.maxVersion)
              && SourceTrusted(sources, p.sourceId, p.signingKeyId)
    {
      SourcesExactly(sources, p.sourceId, p.signingKeyId);
      NormalizationIsHarmless(hostArchitecture, p);
      ArchitecturesMatchExactly(hostArchitecture, p.architecture);
    }

    ghost function EligibleCandidate(device: HardwareDevice, driver: DriverEntry, p: PackageMetadata): SelectionCandidate {
      SelectionCandidate(driver, Some(p), p.sourceId,
                         HardwareMatching.ScoreOf(matcherSystem, driver, device), true, [])
    }

    method PackageCandidate(device: HardwareDevice, driver: DriverEntry, score: nat, p: PackageMetadata)
      returns (candidate: SelectionCandidate)
      requires HardwareMatching.IsCompatible(matcherSystem, driver, device) && Offers(driver, p)
      requires score == HardwareMatching.ScoreOf(matcherSystem, driver, device)
      ensures candidate.Qualified() <==> Eligible(device, driver, p)
      ensures candidate.Qualified() ==> candidate == EligibleCandidate(device, driver, p)
    {
      EligibleExactly(device, driver, p);
      var reasons: seq<Rejection> := [];
      if !ArchitectureCompatible(hostArchitecture, p) {
        reasons := reasons + [WrongArchitecture];
      }
      var kernelFits := IsKernelCompatible(detectedKernel, p.kernelCompat);
      if !kernelFits {
        reasons := reasons + [WrongKernel];
      }
      var trusted := SourceTrusted(sources, p.sourceId, p.signingKeyId);
      if !trusted {
        reasons := reasons + [NotTrusted];
      }
      candidate := SelectionCandidate(driver, Some(p), p.sourceId, score, trusted, reasons);
    }

    /** Every qualified candidate is an eligible pair of the given drivers and packages. */
    ghost predicate Sound(device: HardwareDevice, drivers: seq<DriverEntry>, packages: seq<PackageMetadata>,
                          candidates: seq<SelectionCandidate>)
    {
      forall c | c in candidates && c.Qualified() ::
        exists d, p :: d in drivers && p in packages && Eligible(device, d, p) && c == EligibleCandidate(device, d, p)
    }

    /** Every eligible pair of the given drivers and packages is among the candidates. */
    ghost predicate Complete(device: HardwareDevice, drivers: seq<DriverEntry>, packages: seq<PackageMetadata>,
                             candidates: seq<SelectionCandidate>)
    {
      forall d, p | d in drivers && p in packages && Eligible(device, d, p) ::
        EligibleCandidate(device, d, p) in candidates
    }

    method DriverCandidates(device: HardwareDevice, driver: DriverEntry, packages: seq<PackageMetadata>)
      returns (candidates: seq<SelectionCandidate>)
      ensures candidates != []
      ensures Sound(device, [driver], packages, candidates) && Complete(device, [driver], packages, candidates)
    {
      var info := HardwareMatching.EvaluateCompatibility(matcherSystem, driver, device);
      if !info.compatible {
        candidates := [SelectionCandidate(driver, None, "", 0, false, [NotCompatible])];
        Placeholder(device, driver, packages, candidates[0]);
        return;
      }
      candidates := [];
      for i := 0 to |packages|
        invariant Sound(device, [driver], packages, candidates)
        invariant Complete(device, [driver], packages[..i], candidates)
      {
        var p := packages[i];
        EligibleExactly(device, driver, p);
        if Offers(driver, p) {
          var candidate := PackageCandidate(device, driver, info.score, p);
          StaysSound(device, driver, packages, i, candidates, candidate);
          StaysComplete(device, driver, packages, i, candidates, [candidate]);
          candidates := candidates + [candidate];
        } else {
          StaysComplete(device, driver, packages, i, candidates, []);
          assert candidates + [] == candidates;
        }
      }
      assert packages[..|packages|] == packages;
      if candidates == [] {
        candidates := [SelectionCandidate(driver, None, "", info.score, false, [NoPackage])];
        Placeholder(device, driver, packages, candidates[0]);
      }
    }

    /** A driver without an eligible package contributes one candidate, which does not qualify. */
    lemma Placeholder(device: HardwareDevice, driver: DriverEntry, packages: seq<PackageMetadata>, c: SelectionCandidate)
      requires !c.Qualified() && forall p | p in packages :: !Eligible(device, driver, p)
      ensures Sound(device, [driver], packages, [c]) && Complete(device, [driver], packages, [c])
    {
    }

    lemma StaysSound(device: HardwareDevice, driver: DriverEntry, packages: seq<PackageMetadata>, i: nat,
                     candidates: seq<SelectionCandidate>, c: SelectionCandidate)
      requires i < |packages| && Sound(device, [driver], packages, candidates)
      requires c.Qualified() ==> Eligible(device, driver, packages[i])
      requires c.Qualified() ==> c == EligibleCandidate(device, driver, packages[i])
      ensures Sound(device, [driver], packages, candidates + [c])
    {
      assert packages[i] in packages && driver in [driver];
    }

    lemma StaysComplete(device: HardwareDevice, driver: DriverEntry, packages: seq<PackageMetadata>, i: nat,
                        candidates: seq<SelectionCandidate>, added: seq<SelectionCandidate>)
      requires i < |packages| && Complete(device, [driver], packages[..i], candidates)
      requires Eligible(device, driver, packages[i]) ==> EligibleCandidate(device, driver, packages[i]) in added
      ensures Complete(device, [driver], packages[..i + 1], candidates + added)
    {
      forall d, p | d in [driver] && p in packages[..i + 1] && Eligible(device, d, p)
        ensures EligibleCandidate(device, d, p) in candidates + added
      {
        assert d == driver && (p in packages[..i] || p == packages[i]);
      }
    }

    method CollectCandidates(device: HardwareDevice, drivers: seq<DriverEntry>, packages: seq<PackageMetadata>)
      returns (candidates: seq<SelectionCandidate>)
      ensures candidates == [] <==> drivers == []
      ensures Sound(device, drivers, packages, candidates) && Complete(device, drivers, packages, candidates)
    {
      candidates := [];
      for i := 0 to |drivers|
        invariant Sound(device, drivers, packages, candidates)
        invariant Complete(device, drivers[..i], packages, candidates)
        invariant candidates == [] <==> i == 0
      {
        var added := DriverCandidates(device, drivers[i], packages);
        assert drivers[..i + 1] == drivers[..i] + [drivers[i]];
        assert drivers[i] in drivers;
        candidates := candidates + added;
      }
      assert drivers[..|drivers|] == drivers;
    }

    /** The best eligible pair of a driver and a package, if there is one. */
    method SelectForDevice(device: HardwareDevice, drivers: seq<DriverEntry>, packages: seq<PackageMetadata>)
      returns (selected: Option<SelectionCandidate>, candidates: seq<SelectionCandidate>, foundAny: bool)
      ensures foundAny <==> drivers != []
      ensures selected.None? <==> forall d, p | d in drivers && p in packages :: !Eligible(device, d, p)
      ensures selected.Some? ==>
                && selected.value.trusted
                && exists d, p :: d in drivers && p in packages && Eligible(device, d, p)
                               && selected.value == EligibleCandidate(device, d, p)
      ensures selected.Some? ==>
                forall d, p | d in drivers && p in packages && Eligible(device, d, p) ::
                  !Compare(CurrentRanking(), EligibleCandidate(device, d, p), selected.value).Greater?
    {
      candidates := CollectCandidates(device, drivers, packages);
      foundAny := candidates != [];
      selected := SelectBestCandidate(CurrentRanking(), candidates);
      NoneExactly(device, drivers, packages, candidates);
      if selected.Some? {
        ghost var i: nat :| BestAt(CurrentRanking(), candidates, i) && candidates[i] == selected.value;
        BestOfEligible(device, drivers, packages, candidates, CurrentRanking(), i);
      }
    }

    lemma BestOfEligible(device: HardwareDevice, drivers: seq<DriverEntry>, packages: seq<PackageMetadata>,
                         candidates: seq<SelectionCandidate>, r: Ranking, i: nat)
      requires Sound(device, drivers, packages, candidates) && Complete(device, drivers, packages, candidates)
      requires BestAt(r, candidates, i)
      ensures exists d, p :: d in drivers && p in packages && Eligible(device, d, p)
                          && candidates[i] == EligibleCandidate(device, d, p)
      ensures forall d, p | d in drivers && p in packages && Eligible(device, d, p) ::
                !Compare(r, EligibleCandidate(device, d, p), candidates[i]).Greater?
    {
      assert candidates[i] in candidates;
      forall d, p | d in drivers && p in packages && Eligible(device, d, p)
        ensures !Compare(r, EligibleCandidate(device, d, p), candidates[i]).Greater?
      {
        var j :| 0 <= j < |candidates| && candidates[j] == EligibleCandidate(device, d, p);
      }
    }

    lemma NoneExactly(device: HardwareDevice, drivers: seq<DriverEntry>, packages: seq<PackageMetadata>,
                      candidates: seq<SelectionCandidate>)
      requires Sound(device, drivers, packages, candidates) && Complete(device, drivers, packages, candidates)
      ensures (forall c | c in candidates :: !c.Qualified()) <==>
              (forall d, p | d in drivers && p in packages :: !Eligible(device, d, p))
    {
      forall d, p | d in drivers && p in packages && Eligible(device, d, p)
        ensures EligibleCandidate(device, d, p) in candidates && EligibleCandidate(device, d, p).Qualified()
      {
      }
    }
  }
}
