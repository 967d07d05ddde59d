/**
 Hardware matching (matching.rs): which drivers fit a device, and how well.  Scores are the
 binary64 numbers that the source adds up, in the units of `BinaryScore`.
 */
module HardwareMatching {
  import opened Wrappers
  import opened Text
  import opened BinaryScore
  import opened Inventory
  import opened KernelRange
  import opened ModaliasPattern
  import opened StableSort

  datatype KernelCheck = KernelCompatible | KernelIncompatible | KernelUnknown

  datatype FeatureCheck = AllPresent | Missing(features: seq<string>) | FeaturesUnknown

  datatype Issue =
    | NoPattern
    | NoIds
    | KernelOutOfRange
    | UnreadableKernel
    | ArchitectureMismatch
    | MissingFeatures(features: seq<string>)

  datatype CompatibilityInfo = CompatibilityInfo(compatible: bool, score: nat, issues: seq<Issue>)

  datatype Match = Match(driver: DriverEntry, info: CompatibilityInfo)

  // ── Reference meanings ─────────────────────────────────────────

  ghost predicate PatternFits(driver: DriverEntry, device: HardwareDevice) {
    exists i :: 0 <= i < |driver.supportedHardware|
             && Accepts(driver.supportedHardware[i], device.hardwareId.modalias)
  }

  /** `trim_start_matches`: every repetition of the prefix goes. */
  function TrimStartMatches(s: string, prefix: string): string
    requires prefix != []
  {
    if StartsWith(s, prefix) then TrimStartMatches(s[|prefix|..], prefix) else s
  }

  predicate MentionsId(pattern: string, id: string) {
    Contains(pattern, TrimStartMatches(id, "0x")) || Contains(pattern, TrimStartMatches(id, "0X"))
  }

  predicate MentionsIds(pattern: string, id: HardwareId) {
    MentionsId(pattern, id.vendorId) && MentionsId(pattern, id.deviceId)
  }

  /** The pattern contains both ids, each without its hex prefix. */
  ghost predicate ContainsIds(pattern: string, id: HardwareId) {
    exists vendor, product ::
      && Unprefixed(id.vendorId, vendor) && Unprefixed(id.deviceId, product)
      && Contains(pattern, vendor) && Contains(pattern, product)
  }

  ghost predicate IdsFit(driver: DriverEntry, device: HardwareDevice) {
    exists i :: 0 <= i < |driver.supportedHardware| && ContainsIds(driver.supportedHardware[i], device.hardwareId)
  }

  /** What is left of an id when every `0x` in front of it is taken away, or every `0X`. */
  ghost predicate Unprefixed(id: string, rest: string) {
    exists prefix, n: nat :: prefix in {"0x", "0X"} && id == Repeated(prefix, n) + rest && !StartsWith(rest, prefix)
  }

  ghost function Repeated(prefix: string, n: nat): string {
    if n == 0 then "" else prefix + Repeated(prefix, n - 1)
  }

  lemma {:induction false} TrimmedIsUnprefixed(s: string, prefix: string) returns (n: nat)
    requires prefix != []
    ensures s == Repeated(prefix, n) + TrimStartMatches(s, prefix) && !StartsWith(TrimStartMatches(s, prefix), prefix)
  {
    if StartsWith(s, prefix) {
      var rest := s[|prefix|..];
      var m := TrimmedIsUnprefixed(rest, prefix);
      n := m + 1;
      assert s == prefix + rest;
      assert Repeated(prefix, n) == prefix + Repeated(prefix, m);
    } else {
      n := 0;
    }
  }

  lemma {:induction false} UnprefixedIsTrimmed(prefix: string, n: nat, rest: string)
    requires prefix != [] && !StartsWith(rest, prefix)
    ensures TrimStartMatches(Repeated(prefix, n) + rest, prefix) == rest
  {
    var s := Repeated(prefix, n) + rest;
    if n == 0 {
      assert s == rest;
    } else {
      UnprefixedIsTrimmed(prefix, n - 1, rest);
      assert s == prefix + (Repeated(prefix, n - 1) + rest);
      assert s[..|prefix|] == prefix && s[|prefix|..] == Repeated(prefix, n - 1) + rest;
    }
  }

  lemma MentionsExactly(pattern: string, id: string)
    ensures MentionsId(pattern, id) <==> exists rest :: Unprefixed(id, rest) && Contains(pattern, rest)
  {
    forall prefix | prefix in {"0x", "0X"} ensures Unprefixed(id, TrimStartMatches(id, prefix)) {
      var n := TrimmedIsUnprefixed(id, prefix);
    }
    forall rest | Unprefixed(id, rest) ensures rest in {TrimStartMatches(id, "0x"), TrimStartMatches(id, "0X")} {
      var prefix, n: nat :| prefix in {"0x", "0X"} && id == Repeated(prefix, n) + rest && !StartsWith(rest, prefix);
      UnprefixedIsTrimmed(prefix, n, rest);
    }
  }

  lemma MentionsBothExactly(pattern: string, id: HardwareId)
    ensures MentionsIds(pattern, id) <==> ContainsIds(pattern, id)
  {
    MentionsExactly(pattern, id.vendorId);
    MentionsExactly(pattern, id.deviceId);
  }

  ghost predicate KernelBlocks(system: SystemInfo, driver: DriverEntry) {
    Rejects(system.kernelVersion, driver.id.kernelCompat.minVersion, driver.id.kernelCompat.maxVersion)
  }

  ghost predicate KernelKnown(system: SystemInfo) {
    SystemParts(system.kernelVersion) != []
  }

  ghost predicate FeaturesPresent(system: SystemInfo, driver: DriverEntry) {
    forall f | f in driver.id.kernelCompat.requiredFeatures :: f in system.kernelFeatures
  }

  ghost predicate Blocked(system: SystemInfo, driver: DriverEntry) {
    KernelBlocks(system, driver) || !ArchitecturesMatch(system.architecture, driver.id.arch)
  }

  /** Compatible: not blocked, and a pattern fits.  Nothing else reaches one half. */
  ghost predicate IsCompatible(system: SystemInfo, driver: DriverEntry, device: HardwareDevice) {
    !Blocked(system, driver) && PatternFits(driver, device)
  }

  ghost function FindingsOf(system: SystemInfo, driver: DriverEntry, device: HardwareDevice): Findings {
    Findings(PatternFits(driver, device), IdsFit(driver, device), KernelKnown(system),
             if FeaturesPresent(system, driver) then All
             else if system.kernelFeatures == [] then Unknown else Lacking)
  }

  ghost function ScoreOf(system: SystemInfo, driver: DriverEntry, device: HardwareDevice): nat {
    if Blocked(system, driver) then 0 else Score(FindingsOf(system, driver, device))
  }

  /** Compatible drivers are those that score from one half to one. */
  lemma ScoreDecides(system: SystemInfo, driver: DriverEntry, device: HardwareDevice)
    ensures ScoreOf(system, driver, device) >= W500 <==> IsCompatible(system, driver, device)
    ensures ScoreOf(system, driver, device) <= ONE
  {
    PatternDecides(FindingsOf(system, driver, device));
  }

  /** Everything but the pattern scores in full. */
  ghost predicate FullWithoutAPattern(system: SystemInfo, driver: DriverEntry, device: HardwareDevice) {
    && !PatternFits(driver, device)
    && IdsFit(driver, device) && KernelKnown(system) && FeaturesPresent(system, driver)
  }

  /** What the decision would be if the weights were added exactly. */
  ghost predicate ExactlyCompatible(system: SystemInfo, driver: DriverEntry, device: HardwareDevice) {
    !Blocked(system, driver) && Exact(FindingsOf(system, driver, device)) >= 500
  }

  /** Rounding changes the decision exactly for full findings without a pattern, which add up to one half. */
  lemma RoundingDecidesExactly(system: SystemInfo, driver: DriverEntry, device: HardwareDevice)
    ensures ExactlyCompatible(system, driver, device) <==>
            !Blocked(system, driver) && (PatternFits(driver, device) || FullWithoutAPattern(system, driver, device))
    ensures (IsCompatible(system, driver, device) <==> ExactlyCompatible(system, driver, device)) <==>
            !(!Blocked(system, driver) && FullWithoutAPattern(system, driver, device))
  {
    DecisionsPartExactly(FindingsOf(system, driver, device));
  }

  // ── A driver that rounding drops ───────────────────────────────

  const USB_PATTERN := "usb:v8086dA0C8"
  const PCI_DEVICE := HardwareId("pci:v00008086d0000A0C8", "8086", "A0C8")

  /** Both ids are mentioned and all else is in order, so the weights add up to one half; the sum falls short. */
  lemma IdsAloneFallShort(system: SystemInfo, driver: DriverEntry, device: HardwareDevice)
    requires driver.supportedHardware == [USB_PATTERN] && device.hardwareId == PCI_DEVICE
    requires driver.id.kernelCompat == KernelCompatibility("0", None, []) && system.kernelVersion == "6.8.0"
    requires driver.id.arch == system.architecture
    ensures ExactlyCompatible(system, driver, device) && !IsCompatible(system, driver, device)
  {
    IdsWithoutPattern(driver, device);
    KernelInOrder(system.kernelVersion);
    RoundingDecidesExactly(system, driver, device);
  }

  lemma IdsWithoutPattern(driver: DriverEntry, device: HardwareDevice)
    requires driver.supportedHardware == [USB_PATTERN] && device.hardwareId == PCI_DEVICE
    ensures !PatternFits(driver, device) && IdsFit(driver, device)
  {
    StartsOtherwise(PCI_DEVICE.modalias, USB_PATTERN);
    StartsOtherwise("8086", "0x");
    StartsOtherwise("A0C8", "0x");
    assert OccursAt(USB_PATTERN, "8086", 5) && OccursAt(USB_PATTERN, "A0C8", 10);
    assert MentionsIds(driver.supportedHardware[0], device.hardwareId);
    MentionsBothExactly(driver.supportedHardware[0], device.hardwareId);
  }

  lemma StartsOtherwise(text: string, piece: string)
    requires text != [] && piece != [] && text[0] != piece[0]
    ensures !StartsWith(text, piece)
  {
    assert |piece| <= |text| ==> text[..|piece|][0] == text[0];
  }

  lemma KernelInOrder(kernelVersion: string)
    requires kernelVersion == "6.8.0"
    ensures SystemParts(kernelVersion) != [] && !Rejects(kernelVersion, "0", None)
  {
    assert kernelVersion[1..] == ".8.0";
    assert DigitRuns(".8.0")[0] == [];
    assert DigitRuns(kernelVersion)[0] == "6";
    assert ParseU64("6").Some?;
    RejectsByParts(kernelVersion, "0", None);
    assert SplitOn("0", '.') == ["0"] by { SplitWithoutSeparator("0", '.'); }
    assert BoundParts("0") == [0];
  }

  // ── Checks ─────────────────────────────────────────────────────

  method CheckModaliasMatch(driver: DriverEntry, device: HardwareDevice) returns (fits: bool)
    ensures fits <==> PatternFits(driver, device)
  {
    var patterns := driver.supportedHardware;
    for i := 0 to |patterns|
      invariant forall j | 0 <= j < i :: !Accepts(patterns[j], device.hardwareId.modalias)
    {
      var matched := ModaliasPatternMatch(patterns[i], device.hardwareId.modalias);
      if matched {
        return true;
      }
    }
    return false;
  }

  method CheckVendorDeviceMatch(driver: DriverEntry, device: HardwareDevice) returns (fits: bool)
    ensures fits <==> IdsFit(driver, device)
  {
    var patterns := driver.supportedHardware;
    for i := 0 to |patterns|
      invariant forall j | 0 <= j < i :: !ContainsIds(patterns[j], device.hardwareId)
    {
      MentionsBothExactly(patterns[i], device.hardwareId);
      if MentionsIds(patterns[i], device.hardwareId) {
        return true;
      }
    }
    return false;
  }

  /** The matcher's copy of the kernel range check. */
  method CheckKernelCompatibility(kernelVersion: string, compat: KernelCompatibility) returns (result: KernelCheck)
    ensures result.KernelUnknown? <==> SystemParts(kernelVersion) == []
    ensures result.KernelIncompatible? <==> Rejects(kernelVersion, compat.minVersion, compat.maxVersion)
  {
    var system := SystemParts(kernelVersion);
    if system == [] {
      return KernelUnknown;
    }
    RejectsByParts(kernelVersion, compat.minVersion, compat.maxVersion);
    var min := BoundParts(compat.minVersion);
    for i := 0 to |min|
      invariant CmpUpTo(system, min, i).Equal?
    {
      var part := At(system, i);
      ComponentDecides(system, min, i);
      if part < min[i] {
        return KernelIncompatible;
      }
      if part > min[i] {
        break;
      }
    }
    if compat.maxVersion.Some? {
      var max := BoundParts(compat.maxVersion.value);
      for i := 0 to |max|
        invariant CmpUpTo(system, max, i).Equal?
      {
        var part := At(system, i);
        ComponentDecides(system, max, i);
        if part > max[i] {
          return KernelIncompatible;
        }
        if part < max[i] {
          break;
        }
      }
    }
    return KernelCompatible;
  }

  function MissingOf(required: seq<string>, available: seq<string>): (missing: seq<string>)
    ensures missing == [] <==> forall f | f in required :: f in available
    ensures forall f :: f in missing <==> f in required && f !in available
  {
    if required == [] then []
    else (if required[0] in available then [] else [required[0]]) + MissingOf(required[1..], available)
  }

  function CheckKernelFeatures(system: SystemInfo, driver: DriverEntry): (result: FeatureCheck)
    ensures result.AllPresent? <==> FeaturesPresent(system, driver)
    ensures result.FeaturesUnknown? <==> !FeaturesPresent(system, driver) && system.kernelFeatures == []
    ensures result.Missing? ==>
              forall f :: f in result.features <==>
                f in driver.id.kernelCompat.requiredFeatures && f !in system.kernelFeatures
  {
    var required := driver.id.kernelCompat.requiredFeatures;
    if required == [] then AllPresent
    else if system.kernelFeatures == [] then
      assert required[0] in required;
      FeaturesUnknown
    else
      var missing := MissingOf(required, system.kernelFeatures);
      if missing == [] then AllPresent else Missing(missing)
  }

  // ── Scoring ────────────────────────────────────────────────────

  /** The first two checks: the pattern and the ids. */
  method CheckIdentity(driver: DriverEntry, device: HardwareDevice, ghost findings: Findings)
    returns (totalScore: nat, issues: seq<Issue>)
    requires findings.pattern == PatternFits(driver, device) && findings.ids == IdsFit(driver, device)
    ensures totalScore == AfterIds(findings)
    ensures issues == [] <==> PatternFits(driver, device) && IdsFit(driver, device)
  {
    issues := [];
    totalScore := 0;
    var patternFits := CheckModaliasMatch(driver, device);
    if patternFits {
      totalScore := Plus(totalScore, W500);
    } else {
      issues := issues + [NoPattern];
    }
    var idsFit := CheckVendorDeviceMatch(driver, device);
    if idsFit {
      totalScore := Plus(totalScore, W200);
    } else {
      issues := issues + [NoIds];
    }
  }

  method EvaluateCompatibility(system: SystemInfo, driver: DriverEntry, device: HardwareDevice)
    returns (info: CompatibilityInfo)
    ensures info.score == ScoreOf(system, driver, device)
    ensures info.compatible <==> IsCompatible(system, driver, device)
    ensures info.issues == [] <==>
              && IsCompatible(system, driver, device) && IdsFit(driver, device) && KernelKnown(system)
              && (FeaturesPresent(system, driver) || system.kernelFeatures == [])
  {
    ghost var findings := FindingsOf(system, driver, device);
    var totalScore, issues := CheckIdentity(driver, device, findings);

    var kernel := CheckKernelCompatibility(system.kernelVersion, driver.id.kernelCompat);
    match kernel {
      case KernelCompatible => totalScore := Plus(totalScore, W150);
      case KernelIncompatible => return CompatibilityInfo(false, 0, [KernelOutOfRange]);
      case KernelUnknown =>
        totalScore := Plus(totalScore, W50);
        issues := issues + [UnreadableKernel];
    }

    if ArchitecturesMatch(system.architecture, driver.id.arch) {
      totalScore := Plus(totalScore, W100);
    } else {
      return CompatibilityInfo(false, 0, issues + [ArchitectureMismatch]);
    }
    assert totalScore == AfterArchitecture(findings);

    match CheckKernelFeatures(system, driver) {
      case AllPresent => totalScore := Plus(totalScore, W50);
      case Missing(features) => issues := issues + [MissingFeatures(features)];
      case FeaturesUnknown => totalScore := Plus(totalScore, W25);
    }

    assert totalScore == Total(findings);
    PatternDecides(findings);
    assert totalScore >= W500 <==> PatternFits(driver, device);
    return CompatibilityInfo(totalScore >= W500, if totalScore > ONE then ONE else totalScore, issues);
  }

  // ── Finding drivers ────────────────────────────────────────────

  function Descending(m: Match): int {
    0 - m.info.score
  }

  /** Positions of `drivers` that produced `found`, in order: the compatible ones, each once. */
  ghost predicate Collects(system: SystemInfo, device: HardwareDevice, drivers: seq<DriverEntry>, found: seq<Match>)
    decreases |drivers|
  {
    if drivers == [] then found == []
    else
      var last := drivers[|drivers| - 1];
      if IsCompatible(system, last, device) then
        && found != []
        && found[|found| - 1].driver == last
        && found[|found| - 1].info.score == ScoreOf(system, last, device)
        && Collects(system, device, drivers[..|drivers| - 1], found[..|found| - 1])
      else
        Collects(system, device, drivers[..|drivers| - 1], found)
  }

  method CollectCompatible(system: SystemInfo, device: HardwareDevice, drivers: seq<DriverEntry>)
    returns (found: seq<Match>)
    ensures Collects(system, device, drivers, found)
    ensures forall m | m in found :: m.info.compatible && W500 <= m.info.score <= ONE
  {
    found := [];
    for i := 0 to |drivers|
      invariant Collects(system, device, drivers[..i], found)
      invariant forall m | m in found :: m.info.compatible && W500 <= m.info.score <= ONE
    {
      var info := EvaluateCompatibility(system, drivers[i], device);
      ScoreDecides(system, drivers[i], device);
      assert drivers[..i + 1][..i] == drivers[..i];
      if info.compatible {
        var m := Match(drivers[i], info);
        assert (found + [m])[..|found|] == found;
        found := found + [m];
      }
    }
    assert drivers[..|drivers|] == drivers;
  }

  /**
   The compatible drivers, each once, best score first; equal scores keep the order of
   the inventory (`unsorted` is the list in that order).
   */
  method FindMatchingDrivers(system: SystemInfo, device: HardwareDevice, drivers: seq<DriverEntry>)
    returns (matches: seq<Match>, ghost unsorted: seq<Match>)
    ensures Collects(system, device, drivers, unsorted)
    ensures multiset(matches) == multiset(unsorted)
    ensures forall i, j | 0 <= i < j < |matches| :: matches[i].info.score >= matches[j].info.score
    ensures forall k :: WithKey(matches, Descending, k) == WithKey(unsorted, Descending, k)
    ensures forall m | m in matches :: m.info.compatible && W500 <= m.info.score <= ONE
    ensures forall d :: (d in drivers && IsCompatible(system, d, device)) <==> Lists(matches, d)
  {
    var found := CollectCompatible(system, device, drivers);
    unsorted := found;
    matches := SortByKey(found, Descending);
    CollectsExactly(system, device, drivers, unsorted);
    SameMembers(matches, unsorted);
    SortedDescends(matches);
  }

  lemma SortedDescends(matches: seq<Match>)
    requires Sorted(matches, Descending)
    ensures forall i, j | 0 <= i < j < |matches| :: matches[i].info.score >= matches[j].info.score
  {
    forall i, j | 0 <= i < j < |matches| ensures matches[i].info.score >= matches[j].info.score {
      assert Descending(matches[i]) <= Descending(matches[j]);
    }
  }

  lemma SameMembers(a: seq<Match>, b: seq<Match>)
    requires multiset(a) == multiset(b)
    ensures forall m :: m in a <==> m in b
  {
    forall m ensures m in a <==> m in b {
      assert m in a <==> m in multiset(a);
      assert m in b <==> m in multiset(b);
    }
  }

  ghost predicate Lists(found: seq<Match>, d: DriverEntry) {
    exists m :: m in found && m.driver == d
  }

  lemma LastOrBefore<T>(s: seq<T>)
    requires s != []
    ensures forall x :: x in s <==> x in s[..|s| - 1] || x == s[|s| - 1]
  {
    assert s == s[..|s| - 1] + [s[|s| - 1]];
  }

  lemma ListsOneMore(found: seq<Match>)
    requires found != []
    ensures forall d :: Lists(found, d) <==> Lists(found[..|found| - 1], d) || d == found[|found| - 1].driver
  {
    LastOrBefore(found);
  }

  lemma {:induction false} CollectsExactly(system: SystemInfo, device: HardwareDevice,
                                           drivers: seq<DriverEntry>, found: seq<Match>)
    requires Collects(system, device, drivers, found)
    ensures forall d :: (d in drivers && IsCompatible(system, d, device)) <==> Lists(found, d)
    decreases |drivers|
  {
    if drivers != [] {
      var init, last := drivers[..|drivers| - 1], drivers[|drivers| - 1];
      LastOrBefore(drivers);
      if IsCompatible(system, last, device) {
        CollectsExactly(system, device, init, found[..|found| - 1]);
        ListsOneMore(found);
      } else {
        CollectsExactly(system, device, init, found);
      }
    }
  }
}
