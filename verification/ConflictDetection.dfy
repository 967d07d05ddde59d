/** Conflict detection ahead of an operation (conflict.rs). */
module ConflictDetection {
  import opened Text
  import opened Inventory
  import opened KernelRange
  import opened ModaliasPattern
  import HardwareMatching

  datatype ConflictType =
    | IncompatibleKernel
    | UnsupportedArchitecture
    | ConflictingModule
    | DuplicateInstallation
    | ModuleInUse

  datatype ConflictResult = ConflictResult(hasConflicts: bool, conflicts: seq<ConflictType>) {
    ghost predicate Valid() {
      hasConflicts <==> conflicts != []
    }

    function Merge(other: ConflictResult): (r: ConflictResult)
      requires Valid() && other.Valid()
      ensures r.Valid() && r.conflicts == conflicts + other.conflicts
    {
      if other.hasConflicts then ConflictResult(true, conflicts + other.conflicts) else this
    }
  }

  const NO_CONFLICTS := ConflictResult(false, [])

  function Single(conflict: ConflictType): ConflictResult {
    ConflictResult(true, [conflict])
  }

  function When(condition: bool, conflict: ConflictType): ConflictResult {
    if condition then Single(conflict) else NO_CONFLICTS
  }

  // ── Reference meanings ─────────────────────────────────────────

  /** The same driver up to letter case, installed or active. */
  predicate InstalledAs(existing: DriverEntry, driver: DriverEntry) {
    && EqIgnoreCase(existing.id.name, driver.id.name)
    && EqIgnoreCase(existing.id.provider, driver.id.provider)
    && existing.status.IsOperational()
  }

  /** The same driver up to letter case, installed or active, in the words of the requirement. */
  ghost predicate Copy(existing: DriverEntry, driver: DriverEntry) {
    && existing.status in {Installed, Active}
    && EqIgnoreCase(existing.id.name, driver.id.name) && EqIgnoreCase(existing.id.provider, driver.id.provider)
  }

  /** The first installed copy has the very same version. */
  ghost predicate Duplicate(driver: DriverEntry, drivers: seq<DriverEntry>) {
    exists i :: 0 <= i < |drivers|
             && Copy(drivers[i], driver)
             && drivers[i].id.version == driver.id.version
             && forall j | 0 <= j < i :: !Copy(drivers[j], driver)
  }

  /** Modules that must not be loaded together. */
  function Rivals(lowerName: string): set<string> {
    if lowerName == "nvidia" then {"nouveau"}
    else if lowerName == "nouveau" then {"nvidia"}
    else if lowerName == "iwlwifi" then {"iwlegacy"}
    else {}
  }

  /** `nvidia` and `nouveau` exclude each other, and `iwlwifi` excludes `iwlegacy`, whatever the letter case. */
  ghost predicate RivalOf(name: string, m: string) {
    || (EqIgnoreCase(name, "nvidia") && EqIgnoreCase(m, "nouveau"))
    || (EqIgnoreCase(name, "nouveau") && EqIgnoreCase(m, "nvidia"))
    || (EqIgnoreCase(name, "iwlwifi") && EqIgnoreCase(m, "iwlegacy"))
  }

  ghost predicate RivalLoaded(driver: DriverEntry, loaded: seq<string>) {
    && driver.id.moduleType.KernelModule?
    && exists i :: 0 <= i < |loaded| && RivalOf(driver.id.name, loaded[i])
  }

  /** Some other driver names this one in a required feature. */
  predicate DependsOn(other: DriverEntry, driver: DriverEntry) {
    && Lower(other.id.name) != Lower(driver.id.name)
    && exists f :: f in other.id.kernelCompat.requiredFeatures && Contains(Lower(f), Lower(driver.id.name))
  }

  /** Another driver requires a feature whose text contains this name, whatever the letter case. */
  ghost predicate Dependent(driver: DriverEntry, drivers: seq<DriverEntry>) {
    exists d, f, before, after ::
      && d in drivers && !EqIgnoreCase(d.id.name, driver.id.name)
      && f in d.id.kernelCompat.requiredFeatures && Lower(f) == before + Lower(driver.id.name) + after
  }

  lemma DependsExactly(driver: DriverEntry, drivers: seq<DriverEntry>)
    ensures Dependent(driver, drivers) <==> exists d :: d in drivers && DependsOn(d, driver)
  {
    if d :| d in drivers && DependsOn(d, driver) {
      var f :| f in d.id.kernelCompat.requiredFeatures && Contains(Lower(f), Lower(driver.id.name));
      ContainsExactly(Lower(f), Lower(driver.id.name));
    }
    if d, f, before, after :|
        && d in drivers && !EqIgnoreCase(d.id.name, driver.id.name)
        && f in d.id.kernelCompat.requiredFeatures && Lower(f) == before + Lower(driver.id.name) + after {
      ContainsExactly(Lower(f), Lower(driver.id.name));
      assert DependsOn(d, driver);
    }
  }

  /** Lower-case names stay as they are. */
  lemma KnownNames()
    ensures Lower("nvidia") == "nvidia" && Lower("nouveau") == "nouveau"
    ensures Lower("iwlwifi") == "iwlwifi" && Lower("iwlegacy") == "iwlegacy"
  {
  }

  /** The table of rivals, applied to lower-case names. */
  lemma RivalsExactly(name: string, m: string)
    ensures Lower(m) in Rivals(Lower(name)) <==> RivalOf(name, m)
  {
    KnownNames();
  }

  ghost predicate InUse(driver: DriverEntry, loaded: seq<string>) {
    && driver.status in {Installed, Active}
    && driver.id.moduleType.KernelModule?
    && Lower(driver.id.name) in loaded
  }

  ghost predicate InstallBlocked(system: SystemInfo, driver: DriverEntry, drivers: seq<DriverEntry>,
                                 loaded: seq<string>)
  {
    || HardwareMatching.Blocked(system, driver)
    || Duplicate(driver, drivers)
    || RivalLoaded(driver, loaded)
  }

  ghost predicate RemoveBlocked(driver: DriverEntry, drivers: seq<DriverEntry>, loaded: seq<string>) {
    || InUse(driver, loaded)
    || Dependent(driver, drivers)
  }

  // ── Checks ─────────────────────────────────────────────────────

  /** The conflict detector's copy of the kernel range check. */
  method CheckKernel(system: SystemInfo, driver: DriverEntry) returns (result: ConflictResult)
    ensures result == When(HardwareMatching.KernelBlocks(system, driver), IncompatibleKernel)
  {
    var compat := driver.id.kernelCompat;
    var parts := SystemParts(system.kernelVersion);
    if parts == [] {
      return NO_CONFLICTS;
    }
    RejectsByParts(system.kernelVersion, compat.minVersion, compat.maxVersion);
    var min := BoundParts(compat.minVersion);
    for i := 0 to |min|
      invariant CmpUpTo(parts, min, i).Equal?
    {
      ComponentDecides(parts, min, i);
      if At(parts, i) < min[i] {
        return Single(IncompatibleKernel);
      }
      if At(parts, i) > min[i] {
        break;
      }
    }
    if compat.maxVersion.Some? {
      var max := BoundParts(compat.maxVersion.value);
      for i := 0 to |max|
        invariant CmpUpTo(parts, max, i).Equal?
      {
        ComponentDecides(parts, max, i);
        if At(parts, i) > max[i] {
          return Single(IncompatibleKernel);
        }
        if At(parts, i) < max[i] {
          break;
        }
      }
    }
    return NO_CONFLICTS;
  }

  function CheckArchitecture(system: SystemInfo, driver: DriverEntry): ConflictResult {
    When(!ArchitecturesMatch(system.architecture, driver.id.arch), UnsupportedArchitecture)
  }

  method CheckDuplicate(driver: DriverEntry, drivers: seq<DriverEntry>) returns (result: ConflictResult)
    ensures result == When(Duplicate(driver, drivers), DuplicateInstallation)
  {
    for i := 0 to |drivers|
      invariant forall j | 0 <= j < i :: !InstalledAs(drivers[j], driver)
    {
      if InstalledAs(drivers[i], driver) {
        if drivers[i].id.version == driver.id.version {
          return Single(DuplicateInstallation);
        }
        return NO_CONFLICTS;
      }
    }
    return NO_CONFLICTS;
  }

  method CheckConflictingModules(driver: DriverEntry, loaded: seq<string>) returns (result: ConflictResult)
    ensures result == When(RivalLoaded(driver, loaded), ConflictingModule)
  {
    if !driver.id.moduleType.KernelModule? {
      return NO_CONFLICTS;
    }
    var rivals := Rivals(Lower(driver.id.name));
    for i := 0 to |loaded|
      invariant forall j | 0 <= j < i :: !RivalOf(driver.id.name, loaded[j])
    {
      RivalsExactly(driver.id.name, loaded[i]);
      if Lower(loaded[i]) in rivals {
        return Single(ConflictingModule);
      }
    }
    return NO_CONFLICTS;
  }

  /** Hardware never blocks: a driver without matching hardware is only unusual. */
  method CheckHardware(driver: DriverEntry, hardware: seq<HardwareDevice>) returns (result: ConflictResult)
    ensures result == NO_CONFLICTS
  {
    for i := 0 to |hardware| {
      for j := 0 to |driver.supportedHardware| {
        var fits := ModaliasPatternMatch(driver.supportedHardware[j], hardware[i].hardwareId.modalias);
        if fits {
          return NO_CONFLICTS;
        }
      }
    }
    return NO_CONFLICTS;
  }

  method CheckInstall(system: SystemInfo, driver: DriverEntry, drivers: seq<DriverEntry>,
                      loaded: seq<string>, hardware: seq<HardwareDevice>)
    returns (result: ConflictResult)
    ensures result.Valid()
    ensures result.hasConflicts <==> InstallBlocked(system, driver, drivers, loaded)
    ensures DuplicateInstallation in result.conflicts <==> Duplicate(driver, drivers)
  {
    result := NO_CONFLICTS;
    var kernel := CheckKernel(system, driver);
    result := result.Merge(kernel);
    result := result.Merge(CheckArchitecture(system, driver));
    var duplicate := CheckDuplicate(driver, drivers);
    result := result.Merge(duplicate);
    var modules := CheckConflictingModules(driver, loaded);
    result := result.Merge(modules);
    var fit := CheckHardware(driver, hardware);
    result := result.Merge(fit);
  }

  function CheckModuleInUse(driver: DriverEntry, loaded: seq<string>): ConflictResult {
    When(driver.id.moduleType.KernelModule? && Lower(driver.id.name) in loaded, ModuleInUse)
  }

  function CheckDependents(driver: DriverEntry, drivers: seq<DriverEntry>): ConflictResult {
    When(exists d :: d in drivers && DependsOn(d, driver), ConflictingModule)
  }

  method CheckRemove(driver: DriverEntry, loaded: seq<string>, drivers: seq<DriverEntry>)
    returns (result: ConflictResult)
    ensures result.Valid()
    ensures result.hasConflicts <==> RemoveBlocked(driver, drivers, loaded)
  {
    result := NO_CONFLICTS;
    if driver.status.IsOperational() {
      result := result.Merge(CheckModuleInUse(driver, loaded));
    }
    DependsExactly(driver, drivers);
    result := result.Merge(CheckDependents(driver, drivers));
  }
}
