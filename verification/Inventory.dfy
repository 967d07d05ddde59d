/** Driver and hardware records, and driver versions (inventory.rs). */
module Inventory {
  import opened Wrappers
  import opened Text
  import opened Orderings

  // ── Driver versions ────────────────────────────────────────────

  datatype DriverVersion = DriverVersion(major: nat, minor: nat, patch: nat, preRelease: Option<string>)

  datatype VersionError = EmptyVersion | TooFewComponents | InvalidMajor | InvalidMinor | InvalidPatch

  /** Cut at the first dash; nothing after it means no pre-release text. */
  function CutPreRelease(input: string): (string, Option<string>) {
    match Find(input, '-')
    case None => (input, None)
    case Some(k) => (input[..k], if k + 1 < |input| then Some(input[k + 1..]) else None)
  }

  function ParseVersion(text: string): Result<DriverVersion, VersionError> {
    var input := Trim(text);
    if input == [] then Err(EmptyVersion)
    else
      var (numeric, pre) := CutPreRelease(input);
      var parts := SplitOn(numeric, '.');
      if |parts| < 3 then Err(TooFewComponents)
      else
        match (ParseU64(parts[0]), ParseU64(parts[1]), ParseU64(parts[2]))
        case (None, _, _) => Err(InvalidMajor)
        case (_, None, _) => Err(InvalidMinor)
        case (_, _, None) => Err(InvalidPatch)
        case (Some(major), Some(minor), Some(patch)) => Ok(DriverVersion(major, minor, patch, pre))
  }

  function Numeric(v: DriverVersion): string {
    Join([Decimal(v.major), Decimal(v.minor), Decimal(v.patch)], '.')
  }

  function DisplayVersion(v: DriverVersion): string {
    Numeric(v) + (if v.preRelease.Some? then ['-'] + v.preRelease.value else [])
  }

  function CompareOptional(a: Option<string>, b: Option<string>): Cmp {
    match (a, b)
    case (None, None) => Equal
    case (None, Some(_)) => Greater
    case (Some(_), None) => Less
    case (Some(x), Some(y)) => CmpString(x, y)
  }

  function CompareVersion(v: DriverVersion, w: DriverVersion): Cmp {
    CmpInt(v.major, w.major)
      .Then(CmpInt(v.minor, w.minor))
      .Then(CmpInt(v.patch, w.patch))
      .Then(CompareOptional(v.preRelease, w.preRelease))
  }

  /** `DriverVersion::cmp` is a total order: equal only on equal versions. */
  lemma CompareVersionTotalOrder(u: DriverVersion, v: DriverVersion, w: DriverVersion)
    ensures CompareVersion(v, u) == CompareVersion(u, v).Flip()
    ensures Composes(CompareVersion(u, v), CompareVersion(v, w), CompareVersion(u, w))
    ensures CompareVersion(u, v).Equal? <==> u == v
  {
    if u.preRelease.Some? && v.preRelease.Some? {
      CmpStringDual(u.preRelease.value, v.preRelease.value);
      CmpStringEqual(u.preRelease.value, v.preRelease.value);
      if w.preRelease.Some? {
        CmpStringComposes(u.preRelease.value, v.preRelease.value, w.preRelease.value);
      }
    }
  }

  /**
   A version below another: the first of major, minor and patch in which they differ is smaller;
   or they agree and a pre-release stands against none, or against a later one in dictionary order.
   */
  ghost predicate LowerVersion(v: DriverVersion, w: DriverVersion) {
    || v.major < w.major
    || (v.major == w.major && v.minor < w.minor)
    || (v.major == w.major && v.minor == w.minor && v.patch < w.patch)
    || (v.major == w.major && v.minor == w.minor && v.patch == w.patch && v.preRelease.Some?
        && (w.preRelease.None? || TextBefore(v.preRelease.value, w.preRelease.value)))
  }

  lemma CompareVersionExactly(v: DriverVersion, w: DriverVersion)
    ensures CompareVersion(v, w).Less? <==> LowerVersion(v, w)
    ensures CompareVersion(v, w).Greater? <==> LowerVersion(w, v)
  {
    if v.preRelease.Some? && w.preRelease.Some? {
      CmpStringExactly(v.preRelease.value, w.preRelease.value);
      CmpStringExactly(w.preRelease.value, v.preRelease.value);
      CmpStringDual(v.preRelease.value, w.preRelease.value);
    }
  }

  // ── Printing and parsing driver versions ───────────────────────

  /** A pre-release text that the trimming parser keeps: not empty, no white space at its end. */
  ghost predicate Printable(v: DriverVersion) {
    && v.major < U64_LIMIT && v.minor < U64_LIMIT && v.patch < U64_LIMIT
    && (v.preRelease.Some? ==>
          var pre := v.preRelease.value;
          pre != [] && !IsWhiteSpace(pre[|pre| - 1]))
  }

  lemma NumericPart(v: DriverVersion)
    ensures var core := Numeric(v);
            && SplitOn(core, '.') == [Decimal(v.major), Decimal(v.minor), Decimal(v.patch)]
            && '-' !in core && |core| > 0 && IsDigit(core[0]) && IsDigit(core[|core| - 1])
  {
    var parts := [Decimal(v.major), Decimal(v.minor), Decimal(v.patch)];
    SplitOfJoin(parts, '.');
    JoinMembers(parts, '.', '-');
    var tail := Decimal(v.minor) + ['.'] + Decimal(v.patch);
    assert Join(parts[1..], '.') == tail by {
      assert parts[1..][1..] == [Decimal(v.patch)];
    }
    assert Numeric(v) == Decimal(v.major) + ['.'] + tail;
  }

  lemma TrimKeeps(s: string)
    requires s != [] && !IsWhiteSpace(s[0]) && !IsWhiteSpace(s[|s| - 1])
    ensures Trim(s) == s
  {
  }

  lemma DisplayCuts(v: DriverVersion)
    requires Printable(v)
    ensures CutPreRelease(DisplayVersion(v)) == (Numeric(v), v.preRelease)
    ensures Trim(DisplayVersion(v)) == DisplayVersion(v) != []
  {
    NumericPart(v);
    var core, shown := Numeric(v), DisplayVersion(v);
    if v.preRelease.Some? {
      var pre := v.preRelease.value;
      assert shown == core + ['-'] + pre;
      FindFirst(core, '-', pre);
      assert shown[|shown| - 1] == pre[|pre| - 1];
    } else {
      assert shown == core;
    }
    TrimKeeps(shown);
  }

  lemma PrintableParses(v: DriverVersion)
    requires Printable(v)
    ensures ParseVersion(DisplayVersion(v)) == Ok(v)
  {
    DisplayCuts(v);
    NumericPart(v);
    ParseOfDecimal(v.major);
    ParseOfDecimal(v.minor);
    ParseOfDecimal(v.patch);
  }

  lemma CutKeepsEnd(input: string)
    requires input != [] && !IsWhiteSpace(input[|input| - 1])
    ensures var pre := CutPreRelease(input).1;
            pre.Some? ==> pre.value != [] && !IsWhiteSpace(pre.value[|pre.value| - 1])
  {
  }

  lemma ParsedIsPrintable(text: string)
    requires ParseVersion(text).Ok?
    ensures Printable(ParseVersion(text).value)
  {
    ParsedParts(text);
    CutKeepsEnd(Trim(text));
  }

  lemma ParsedParts(text: string)
    requires ParseVersion(text).Ok?
    ensures var v := ParseVersion(text).value;
            && Trim(text) != [] && v.preRelease == CutPreRelease(Trim(text)).1
            && v.major < U64_LIMIT && v.minor < U64_LIMIT && v.patch < U64_LIMIT
  {
  }

  /** Printing then parsing returns a driver version exactly for the printable ones. */
  lemma RoundTripExactly(v: DriverVersion)
    ensures ParseVersion(DisplayVersion(v)) == Ok(v) <==> Printable(v)
  {
    if Printable(v) {
      PrintableParses(v);
    }
    if ParseVersion(DisplayVersion(v)) == Ok(v) {
      ParsedIsPrintable(DisplayVersion(v));
    }
  }

  /** Components after the third are dropped: different texts can name one version. */
  lemma FourthComponentIsDropped(v: DriverVersion)
    requires Printable(v) && v.preRelease.None?
    ensures ParseVersion(DisplayVersion(v) + ".0") == ParseVersion(DisplayVersion(v)) == Ok(v)
  {
    PrintableParses(v);
    ParseOfDecimal(v.major);
    ParseOfDecimal(v.minor);
    ParseOfDecimal(v.patch);
    assert DisplayVersion(v) == Numeric(v);
    FourPartsSplit(v);
    FourPartsKept(v);
  }

  lemma FourPartsKept(v: DriverVersion)
    ensures var longer := Numeric(v) + ".0";
            Trim(longer) == longer && longer != [] && CutPreRelease(longer) == (longer, None)
  {
    NumericPart(v);
    var longer := Numeric(v) + ".0";
    assert '-' !in longer;
    assert longer[0] == Numeric(v)[0] && longer[|longer| - 1] == '0';
    TrimKeeps(longer);
  }

  lemma FourPartsSplit(v: DriverVersion)
    ensures SplitOn(Numeric(v) + ".0", '.') == [Decimal(v.major), Decimal(v.minor), Decimal(v.patch), "0"]
  {
    var parts := [Decimal(v.major), Decimal(v.minor), Decimal(v.patch)];
    JoinAppend(parts, "0", '.');
    assert Numeric(v) + ".0" == Join(parts + ["0"], '.');
    SplitOfJoin(parts + ["0"], '.');
  }

  /**
   The texts that are read as a version: three numbers between dots, further components after
   them, and a pre-release text after a dash, which may be empty.
   */
  ghost predicate SpellsVersion(text: string, v: DriverVersion) {
    exists a, b, c, more, tail ::
      && text == (a + ['.'] + b + ['.'] + c + more) + tail
      && ParseU64(a) == Some(v.major) && ParseU64(b) == Some(v.minor) && ParseU64(c) == Some(v.patch)
      && (more == [] || more[0] == '.') && '-' !in more
      && tail in (if v.preRelease.None? then {"", "-"} else {"-" + v.preRelease.value})
      && v.preRelease != Some("")
  }

  lemma ParseVersionExactly(text: string, v: DriverVersion)
    ensures ParseVersion(text) == Ok(v) <==> SpellsVersion(Trim(text), v)
  {
    if ParseVersion(text) == Ok(v) {
      ParsedIsSpelled(Trim(text), v);
    }
    forall a, b, c, more, tail |
      && Trim(text) == (a + ['.'] + b + ['.'] + c + more) + tail
      && ParseU64(a) == Some(v.major) && ParseU64(b) == Some(v.minor) && ParseU64(c) == Some(v.patch)
      && (more == [] || more[0] == '.') && '-' !in more
      && tail in (if v.preRelease.None? then {"", "-"} else {"-" + v.preRelease.value})
      && v.preRelease != Some("")
      ensures ParseVersion(text) == Ok(v)
    {
      SpelledParses(text, v, a, b, c, more, tail);
    }
  }

  lemma SpelledParses(text: string, v: DriverVersion, a: string, b: string, c: string, more: string, tail: string)
    requires Trim(text) == (a + ['.'] + b + ['.'] + c + more) + tail
    requires ParseU64(a) == Some(v.major) && ParseU64(b) == Some(v.minor) && ParseU64(c) == Some(v.patch)
    requires (more == [] || more[0] == '.') && '-' !in more
    requires tail in (if v.preRelease.None? then {"", "-"} else {"-" + v.preRelease.value})
    requires v.preRelease != Some("")
    ensures ParseVersion(text) == Ok(v)
  {
    NumbersHoldNoDash(a);
    NumbersHoldNoDash(b);
    NumbersHoldNoDash(c);
    SpelledCuts(a + ['.'] + b + ['.'] + c + more, tail, v.preRelease);
    ComponentsSplit(a, b, c, more);
  }

  lemma NumbersHoldNoDash(s: string)
    requires ParseU64(s).Some?
    ensures '-' !in s && '.' !in s && s != []
  {
    assert forall i | 1 <= i < |s| :: s[i] == s[1..][i - 1];
  }

  lemma SpelledCuts(numeric: string, tail: string, pre: Option<string>)
    requires '-' !in numeric && pre != Some("")
    requires tail in (if pre.None? then {"", "-"} else {"-" + pre.value})
    ensures CutPreRelease(numeric + tail) == (numeric, pre)
  {
    if tail == "" {
      assert numeric + tail == numeric;
    } else {
      FindFirst(numeric, '-', tail[1..]);
      assert numeric + tail == numeric + ['-'] + tail[1..];
    }
  }

  lemma ComponentsSplit(a: string, b: string, c: string, more: string)
    requires '.' !in a && '.' !in b && '.' !in c && (more == [] || more[0] == '.')
    ensures var parts := SplitOn(a + ['.'] + b + ['.'] + c + more, '.');
            |parts| >= 3 && parts[0] == a && parts[1] == b && parts[2] == c
  {
    var last := c + more;
    DotsFirst(a, b, c, more);
    SplitAtSeparator(a, b + ['.'] + last, '.');
    SplitAtSeparator(b, last, '.');
    LastComponent(c, more);
  }

  lemma DotsFirst(a: string, b: string, c: string, more: string)
    ensures a + ['.'] + b + ['.'] + c + more == a + ['.'] + (b + ['.'] + (c + more))
  {
  }

  lemma LastComponent(c: string, more: string)
    requires '.' !in c && (more == [] || more[0] == '.')
    ensures SplitOn(c + more, '.')[0] == c
  {
    DotApart(c, more);
    if more == [] {
      SplitWithoutSeparator(c, '.');
    } else {
      SplitAtSeparator(c, more[1..], '.');
    }
  }

  lemma DotApart(c: string, more: string)
    ensures c + more == if more == [] then c else c + [more[0]] + more[1..]
  {
  }

  lemma ParsedIsSpelled(input: string, v: DriverVersion)
    requires Trim(input) == input && ParseVersion(input) == Ok(v)
    ensures SpellsVersion(input, v)
  {
    var numeric := CutPreRelease(input).0;
    var parts := SplitOn(numeric, '.');
    FirstThree(parts, numeric);
    var more := numeric[|parts[0]| + |parts[1]| + |parts[2]| + 2..];
    CutIsTail(input);
    SpelledBy(input, v, parts[0], parts[1], parts[2], more, input[|numeric|..]);
  }

  /** What the cut leaves of a text. */
  lemma CutIsTail(input: string)
    ensures var (numeric, pre) := CutPreRelease(input);
            && |numeric| <= |input| && input == numeric + input[|numeric|..] && '-' !in numeric
            && input[|numeric|..] in (if pre.None? then {"", "-"} else {"-" + pre.value})
            && pre != Some("")
  {
    match Find(input, '-')
    case None => assert input[|input|..] == "";
    case Some(k) =>
      assert input[k..] == "-" + input[k + 1..];
      assert input[k + 1..] == "" ==> input[k..] == "-";
  }

  lemma SpelledBy(text: string, v: DriverVersion, a: string, b: string, c: string, more: string, tail: string)
    requires text == (a + ['.'] + b + ['.'] + c + more) + tail
    requires ParseU64(a) == Some(v.major) && ParseU64(b) == Some(v.minor) && ParseU64(c) == Some(v.patch)
    requires (more == [] || more[0] == '.') && '-' !in more
    requires tail in (if v.preRelease.None? then {"", "-"} else {"-" + v.preRelease.value})
    requires v.preRelease != Some("")
    ensures SpellsVersion(text, v)
  {
  }

  lemma FirstThree(parts: seq<string>, numeric: string)
    requires |parts| >= 3 && numeric == Join(parts, '.')
    ensures var n := |parts[0]| + |parts[1]| + |parts[2]| + 2;
            && n <= |numeric| && numeric == parts[0] + ['.'] + parts[1] + ['.'] + parts[2] + numeric[n..]
            && (numeric[n..] == [] || numeric[n..][0] == '.')
  {
    assert Join(parts[1..], '.') == parts[1] + ['.'] + Join(parts[1..][1..], '.');
    assert parts[1..][1..] == parts[2..];
    if |parts| > 3 {
      assert Join(parts[2..], '.') == parts[2] + ['.'] + Join(parts[2..][1..], '.');
    }
  }

  // ── Records ────────────────────────────────────────────────────

  datatype KernelCompatibility = KernelCompatibility(
    minVersion: string,
    maxVersion: Option<string>,
    requiredFeatures: seq<string>
  )

  datatype ModuleType = KernelModule | Firmware | Userspace | DeviceTreeOverlay

  datatype DriverId = DriverId(
    name: string,
    provider: string,
    version: DriverVersion,
    arch: string,
    kernelCompat: KernelCompatibility,
    moduleType: ModuleType
  )

  datatype DriverStatus =
    Available | Installed | Active | Failed | PendingReboot | Removed | UpdateAvailable
  {
    predicate IsOperational() {
      Active? || Installed?
    }
  }

  datatype DriverEntry = DriverEntry(
    id: DriverId,
    status: DriverStatus,
    supportedHardware: seq<string>,
    metadata: map<string, string>,
    description: string,
    packageSizeBytes: Option<nat>
  )

  datatype HardwareId = HardwareId(modalias: string, vendorId: string, deviceId: string)

  datatype HardwareDevice = HardwareDevice(hardwareId: HardwareId, deviceName: string)

  datatype SystemInfo = SystemInfo(
    kernelVersion: string,
    architecture: string,
    kernelFeatures: seq<string>
  )

  /** Equal up to letter case, or one of the two common alias pairs. */
  predicate ArchitecturesMatch(system: string, driver: string) {
    var s, d := Lower(system), Lower(driver);
    || s == d
    || (s, d) in {("x86_64", "amd64"), ("amd64", "x86_64"), ("aarch64", "arm64"), ("arm64", "aarch64")}
  }

  /** The one name of an architecture, in lower case. */
  ghost function ArchitectureName(lower: string): string {
    if lower == "amd64" then "x86_64" else if lower == "arm64" then "aarch64" else lower
  }

  /** Architectures match exactly when they have one name: an equivalence. */
  lemma ArchitecturesMatchExactly(system: string, driver: string)
    ensures ArchitecturesMatch(system, driver) <==>
            ArchitectureName(Lower(system)) == ArchitectureName(Lower(driver))
  {
  }

  /** The drivers, the devices and the time of the last change: one mutable inventory. */
  class DriverInventory {
    var drivers: seq<DriverEntry>
    var devices: seq<HardwareDevice>
    var lastScanTimestamp: nat

    constructor ()
      ensures drivers == [] && devices == [] && lastScanTimestamp == 0
    {
      drivers, devices, lastScanTimestamp := [], [], 0;
    }
  }
}
