/**
 The driver execution engine (execution.rs): install, remove and update as transactions
 over the inventory, with a saved state for rollback and an audit trail.

 Everything outside the service answers through a `World` value: the authorizer, the
 signature verifier, the kernel and the clock.
 */
module DriverExecution {
  import opened Wrappers
  import opened Text
  import opened Inventory
  import opened OperationTracking
  import opened ConflictDetection

  // ── Requests, results and the outside world ────────────────────

  datatype InstallRequest = InstallRequest(driverName: string, provider: string, force: bool) {
    predicate Valid() { Trim(driverName) != [] && Trim(provider) != [] }
  }

  datatype RemoveRequest = RemoveRequest(driverName: string, force: bool) {
    predicate Valid() { Trim(driverName) != [] }
  }

  datatype UpdateRequest = UpdateRequest(driverName: string, targetVersion: Option<string>, allowDowngrade: bool) {
    predicate Valid() { Trim(driverName) != [] }
  }

  datatype OperationStatus = Completed | Failed

  datatype Failure =
    | NotAuthorized
    | InvalidRequest
    | DriverNotFound
    | BlockedByConflicts
    | VerificationFailed
    | DowngradeRejected
    | InvalidTargetVersion
    | RolledBack

  datatype OperationResult = OperationResult(status: OperationStatus, failure: Option<Failure>, driverName: string)

  datatype Authorization = Authorized | Denied | Indeterminate

  datatype Verification = Valid | Invalid | MissingSignature | UntrustedKey | VerificationError

  datatype World = World(
    authorization: Authorization,
    loadedModules: seq<string>,
    verification: Verification,
    wasLoaded: bool,
    loadedAtExecution: bool,
    packageExists: bool,
    moduleAvailable: bool,
    loadSucceeds: bool,
    unloadSucceeds: bool,
    copySucceeds: bool,
    firmwareExists: bool,
    deleteSucceeds: bool,
    now: nat
  )

  /** What the engine asks of the host. */
  datatype HostAction =
    | LoadModule(name: string)
    | UnloadModule(name: string, force: bool)
    | CopyFirmware(name: string)
    | DeleteFirmware(name: string)

  datatype Category = DriverInstall | DriverRemove | DriverUpdate | DriverVerification

  datatype Action =
    | OperationRequested
    | OperationFailed
    | OperationCompleted
    | DowngradeReported
    | RollbackCompleted
    | RollbackFailed
    | Verified(outcome: Verification)

  datatype AuditEvent = AuditEvent(category: Category, action: Action, caller: string)

  // ── Lookups ────────────────────────────────────────────────────

  /** The searches of the source, loosest first: two that choose an entry, two that find it again. */
  datatype Search =
    | Named(name: string)
    | NamedFrom(name: string, provider: string)
    | NamedFromExactly(name: string, provider: string)
    | SameId(name: string, provider: string)
  {
    predicate Finds(d: DriverEntry) {
      match this
      case Named(name) => EqIgnoreCase(d.id.name, name)
      case NamedFrom(name, provider) => EqIgnoreCase(d.id.name, name) && EqIgnoreCase(d.id.provider, provider)
      case NamedFromExactly(name, provider) => EqIgnoreCase(d.id.name, name) && d.id.provider == provider
      case SameId(name, provider) => d.id.name == name && d.id.provider == provider
    }
  }

  function SearchId(id: DriverId): Search {
    SameId(id.name, id.provider)
  }

  /** Position of the first driver found: `iter().position`. */
  function FirstIndex(drivers: seq<DriverEntry>, search: Search): (at: Option<nat>)
    ensures at.Some? ==> at.value < |drivers| && search.Finds(drivers[at.value])
    ensures at.Some? ==> forall j | 0 <= j < at.value :: !search.Finds(drivers[j])
    ensures at.None? ==> forall j | 0 <= j < |drivers| :: !search.Finds(drivers[j])
  {
    if drivers == [] then None
    else if search.Finds(drivers[0]) then Some(0)
    else
      match FirstIndex(drivers[1..], search)
      case None => None
      case Some(k) => Some(k + 1)
  }

  /** The first driver found: `iter().find`. */
  function FirstFound(drivers: seq<DriverEntry>, search: Search): Option<DriverEntry> {
    match FirstIndex(drivers, search)
    case None => None
    case Some(at) => Some(drivers[at])
  }

  /**
   The later, stricter search lands on the index that the first, looser one chose:
   what it finds the looser one finds too, and it finds the chosen entry.
   */
  lemma StricterSearchSameIndex(drivers: seq<DriverEntry>, loose: Search, strict: Search)
    requires forall j | 0 <= j < |drivers| && strict.Finds(drivers[j]) :: loose.Finds(drivers[j])
    requires FirstIndex(drivers, loose).Some?
    requires strict.Finds(drivers[FirstIndex(drivers, loose).value])
    ensures FirstIndex(drivers, strict) == FirstIndex(drivers, loose)
  {
  }

  /** The rollback and status updates find the entry of an installation request again. */
  lemma InstallSearchesAgree(drivers: seq<DriverEntry>, name: string, provider: string)
    ensures var at := FirstIndex(drivers, NamedFrom(name, provider));
            at.Some? ==> FirstIndex(drivers, SearchId(drivers[at.value].id)) == at
  {
    var at := FirstIndex(drivers, NamedFrom(name, provider));
    if at.Some? {
      StricterSearchSameIndex(drivers, NamedFrom(name, provider), SearchId(drivers[at.value].id));
    }
  }

  /** The same for the lookups by name alone, and for the search that an update ends with. */
  lemma NameSearchesAgree(drivers: seq<DriverEntry>, name: string)
    ensures var at := FirstIndex(drivers, Named(name));
            at.Some? ==>
              && FirstIndex(drivers, SearchId(drivers[at.value].id)) == at
              && FirstIndex(drivers, NamedFromExactly(name, drivers[at.value].id.provider)) == at
  {
    var at := FirstIndex(drivers, Named(name));
    if at.Some? {
      StricterSearchSameIndex(drivers, Named(name), SearchId(drivers[at.value].id));
      StricterSearchSameIndex(drivers, Named(name), NamedFromExactly(name, drivers[at.value].id.provider));
    }
  }

  // ── What a request asks for ────────────────────────────────────

  /** The entry has the requested name and, if one is given, the requested provider, up to letter case. */
  ghost predicate AsRequested(d: DriverEntry, name: string, provider: Option<string>) {
    && EqIgnoreCase(d.id.name, name)
    && (provider.Some? ==> EqIgnoreCase(d.id.provider, provider.value))
  }

  ghost predicate FirstRequested(drivers: seq<DriverEntry>, i: nat, name: string, provider: Option<string>) {
    && i < |drivers| && AsRequested(drivers[i], name, provider)
    && forall j | 0 <= j < i :: !AsRequested(drivers[j], name, provider)
  }

  ghost predicate NoneRequested(drivers: seq<DriverEntry>, name: string, provider: Option<string>) {
    forall j | 0 <= j < |drivers| :: !AsRequested(drivers[j], name, provider)
  }

  /** The two lookups choose the first entry that is as requested. */
  lemma LookupsChooseFirst(drivers: seq<DriverEntry>, name: string, provider: string)
    ensures var at := FirstIndex(drivers, NamedFrom(name, provider));
            if at.Some? then FirstRequested(drivers, at.value, name, Some(provider))
            else NoneRequested(drivers, name, Some(provider))
    ensures var at := FirstIndex(drivers, Named(name));
            if at.Some? then FirstRequested(drivers, at.value, name, None)
            else NoneRequested(drivers, name, None)
  {
    forall j | 0 <= j < |drivers|
      ensures NamedFrom(name, provider).Finds(drivers[j]) <==> AsRequested(drivers[j], name, Some(provider))
      ensures Named(name).Finds(drivers[j]) <==> AsRequested(drivers[j], name, None)
    {
    }
  }

  /** The search of rollbacks and status updates finds the first entry with just this name and provider. */
  lemma SameIdIsExact(drivers: seq<DriverEntry>, id: DriverId)
    ensures match FirstIndex(drivers, SearchId(id))
            case Some(at) =>
              && drivers[at].id.name == id.name && drivers[at].id.provider == id.provider
              && forall j | 0 <= j < at :: drivers[j].id.name != id.name || drivers[j].id.provider != id.provider
            case None => forall d | d in drivers :: d.id.name != id.name || d.id.provider != id.provider
  {
  }

  /** Exactly the status of the first requested entry changes. */
  ghost predicate ChangesFirst(before: seq<DriverEntry>, after: seq<DriverEntry>, name: string,
                               provider: Option<string>, status: DriverStatus)
  {
    exists i: nat :: FirstRequested(before, i, name, provider) && after == before[i := before[i].(status := status)]
  }

  /** What the lookups choose is what changes. */
  lemma ChosenIsFirst(before: seq<DriverEntry>, after: seq<DriverEntry>, name: string, provider: string,
                      status: DriverStatus)
    ensures OnlyStatusChanges(before, after, NamedFrom(name, provider), status) ==>
              ChangesFirst(before, after, name, Some(provider), status)
    ensures OnlyStatusChanges(before, after, Named(name), status) ==> ChangesFirst(before, after, name, None, status)
  {
    LookupsChooseFirst(before, name, provider);
  }

  // ── Saved ids ──────────────────────────────────────────────────

  /** Every saved id was drawn before the counter reached `n`. */
  ghost predicate DrawnBefore(saved: seq<SavedState>, n: nat) {
    forall s | s in saved :: exists t: nat :: t < n && s.correlationId == OperationId(t)
  }

  /** Ids drawn before one number were drawn before every later one. */
  lemma DrawnBeforeLater(saved: seq<SavedState>, m: nat, n: nat)
    requires m <= n
    ensures DrawnBefore(saved, m) ==> DrawnBefore(saved, n)
  {
  }

  /** The id of a ticket just drawn is not among the saved ones. */
  lemma FreshId(saved: seq<SavedState>, ticket: nat)
    requires ticket < U64_LIMIT && DrawnBefore(saved, ticket)
    ensures forall s | s in saved :: s.correlationId != OperationId(ticket)
  {
    forall s | s in saved ensures s.correlationId != OperationId(ticket) {
      var t: nat :| t < ticket && s.correlationId == OperationId(t);
      IdsWithinWindowDiffer(t, ticket);
    }
  }

  // ── Audit trails ───────────────────────────────────────────────

  ghost predicate IsTerminal(action: Action) {
    action in {OperationFailed, OperationCompleted, RollbackCompleted, RollbackFailed}
  }

  /** One `requested` event first, one terminal event last that agrees with the status, no other of either. */
  ghost predicate WellFormedTrail(trail: seq<AuditEvent>, category: Category, caller: string, status: OperationStatus) {
    && |trail| >= 2
    && trail[0] == AuditEvent(category, OperationRequested, caller)
    && (status.Completed? ==> trail[|trail| - 1] == AuditEvent(category, OperationCompleted, caller))
    && (status.Failed? ==>
          || trail[|trail| - 1] == AuditEvent(category, OperationFailed, caller)
          || trail[|trail| - 1] == AuditEvent(DriverInstall, RollbackCompleted, caller))
    && forall k | 0 < k < |trail| - 1 ::
         !IsTerminal(trail[k].action) && !trail[k].action.OperationRequested?
  }

  /** A trail that still lacks its terminal event. */
  ghost predicate OpenTrail(trail: seq<AuditEvent>, category: Category, caller: string) {
    && trail != []
    && trail[0] == AuditEvent(category, OperationRequested, caller)
    && forall k | 0 < k < |trail| :: !IsTerminal(trail[k].action) && !trail[k].action.OperationRequested?
  }

  /** The event that ends an executed operation; rollbacks are filed under installation. */
  ghost function LastEvent(category: Category, caller: string, status: OperationStatus): AuditEvent {
    if status.Completed? then AuditEvent(category, OperationCompleted, caller)
    else AuditEvent(DriverInstall, RollbackCompleted, caller)
  }

  /** The requested event and a verification report leave the trail open. */
  lemma BeginningIsOpen(category: Category, caller: string, report: seq<AuditEvent>)
    requires forall e | e in report :: e.action.Verified?
    ensures OpenTrail([AuditEvent(category, OperationRequested, caller)] + report, category, caller)
    ensures OpenTrail([AuditEvent(category, OperationRequested, caller)], category, caller)
  {
  }

  /** The last event of an executed operation closes its trail. */
  lemma LastEventCloses(trail: seq<AuditEvent>, category: Category, caller: string, status: OperationStatus)
    requires OpenTrail(trail, category, caller)
    ensures WellFormedTrail(trail + [LastEvent(category, caller, status)], category, caller, status)
  {
  }

  // ── What an operation needs to succeed ─────────────────────────

  /** The texts of a request say something. */
  ghost predicate Filled(name: string, provider: Option<string>) {
    !Blank(name) && (provider.Some? ==> !Blank(provider.value))
  }

  predicate NeedsVerification(driver: DriverEntry) {
    driver.id.moduleType.KernelModule? || driver.id.moduleType.Firmware?
  }

  /** Authorized, well formed, found, and free of conflicts or forced. */
  ghost predicate InstallScreened(system: SystemInfo, request: InstallRequest, drivers: seq<DriverEntry>, world: World) {
    var at := FirstIndex(drivers, NamedFrom(request.driverName, request.provider));
    && world.authorization.Authorized?
    && Filled(request.driverName, Some(request.provider))
    && at.Some?
    && (InstallBlocked(system, drivers[at.value], drivers, world.loadedModules) ==> request.force)
  }

  /** Kernel modules and firmware need a valid signature, unless unsigned packages are allowed. */
  ghost predicate VerificationPasses(driver: DriverEntry, allowUnsigned: bool, world: World) {
    driver.id.moduleType in {KernelModule, Firmware} ==> world.verification.Valid? || allowUnsigned
  }

  /** In order so far, but no entry is as requested. */
  ghost predicate InstallFindsNone(request: InstallRequest, drivers: seq<DriverEntry>, world: World) {
    && world.authorization.Authorized? && Filled(request.driverName, Some(request.provider))
    && NoneRequested(drivers, request.driverName, Some(request.provider))
  }

  /** The same for removals and updates, which name no provider. */
  ghost predicate NameFindsNone(name: string, drivers: seq<DriverEntry>, world: World) {
    world.authorization.Authorized? && Filled(name, None) && NoneRequested(drivers, name, None)
  }

  /** The gates before an installation is executed. */
  ghost predicate InstallAllowed(system: SystemInfo, allowUnsigned: bool, request: InstallRequest,
                                 drivers: seq<DriverEntry>, world: World)
  {
    && InstallScreened(system, request, drivers, world)
    && VerificationPasses(drivers[FirstIndex(drivers, NamedFrom(request.driverName, request.provider)).value],
                          allowUnsigned, world)
  }

  ghost predicate RemoveAllowed(request: RemoveRequest, drivers: seq<DriverEntry>, world: World) {
    var at := FirstIndex(drivers, Named(request.driverName));
    && world.authorization.Authorized?
    && Filled(request.driverName, None)
    && at.Some?
    && (RemoveBlocked(drivers[at.value], drivers, world.loadedModules) ==> request.force)
  }

  /** The target is readable and, unless downgrades are allowed, not below the installed version. */
  ghost predicate TargetAllowed(request: UpdateRequest, installed: DriverVersion) {
    request.targetVersion.Some? ==>
      var target := ParseVersion(request.targetVersion.value);
      && target.Ok?
      && (LowerVersion(target.value, installed) ==> request.allowDowngrade)
  }

  /** The target is readable and below the installed version. */
  ghost predicate Downgrades(request: UpdateRequest, installed: DriverVersion) {
    && request.targetVersion.Some?
    && var target := ParseVersion(request.targetVersion.value);
       target.Ok? && LowerVersion(target.value, installed)
  }

  /** Everything else is in order, but the target would be a downgrade that was not asked for. */
  ghost predicate DowngradeRefused(request: UpdateRequest, drivers: seq<DriverEntry>, world: World) {
    var at := FirstIndex(drivers, Named(request.driverName));
    && world.authorization.Authorized?
    && Filled(request.driverName, None)
    && at.Some?
    && Downgrades(request, drivers[at.value].id.version)
    && !request.allowDowngrade
  }

  ghost predicate UpdateAllowed(request: UpdateRequest, drivers: seq<DriverEntry>, world: World) {
    var at := FirstIndex(drivers, Named(request.driverName));
    && world.authorization.Authorized?
    && Filled(request.driverName, None)
    && at.Some?
    && TargetAllowed(request, drivers[at.value].id.version)
  }

  ghost predicate InstallExecutes(driver: DriverEntry, world: World) {
    match driver.id.moduleType
    case KernelModule => if world.packageExists then world.loadSucceeds else world.moduleAvailable
    case Firmware => world.copySucceeds
    case Userspace => true
    case DeviceTreeOverlay => false
  }

  ghost predicate RemoveExecutes(driver: DriverEntry, world: World) {
    match driver.id.moduleType
    case KernelModule => world.loadedAtExecution ==> world.unloadSucceeds
    case Firmware => world.firmwareExists ==> world.deleteSucceeds
    case Userspace => true
    case DeviceTreeOverlay => false
  }

  ghost predicate UpdateExecutes(driver: DriverEntry, world: World) {
    (world.loadedAtExecution ==> world.unloadSucceeds) && InstallExecutes(driver, world)
  }

  // ── What an operation asks of the host ─────────────────────────

  ghost function InstallActions(driver: DriverEntry, world: World): seq<HostAction> {
    match driver.id.moduleType
    case KernelModule => if world.packageExists then [LoadModule(driver.id.name)] else []
    case Firmware => [CopyFirmware(driver.id.name)]
    case _ => []
  }

  ghost function RemoveActions(driver: DriverEntry, force: bool, world: World): seq<HostAction> {
    match driver.id.moduleType
    case KernelModule => if world.loadedAtExecution then [UnloadModule(driver.id.name, force)] else []
    case Firmware => if world.firmwareExists then [DeleteFirmware(driver.id.name)] else []
    case _ => []
  }

  /** An update unloads without force, and installs only when that worked. */
  ghost function UpdateActions(driver: DriverEntry, world: World): seq<HostAction> {
    if !world.loadedAtExecution then InstallActions(driver, world)
    else [UnloadModule(driver.id.name, false)] +
         (if world.unloadSucceeds then InstallActions(driver, world) else [])
  }

  /** A rollback reloads the module when it was loaded at the time of saving. */
  ghost function RecoveryActions(driver: DriverEntry, world: World, status: OperationStatus): seq<HostAction> {
    if status.Failed? && world.wasLoaded then [LoadModule(driver.id.name)] else []
  }

  /** An operation changes nothing, or the status of the one entry that its lookup chose. */
  ghost predicate OnlyStatusChanges(before: seq<DriverEntry>, after: seq<DriverEntry>,
                                    search: Search, status: DriverStatus)
  {
    var at := FirstIndex(before, search);
    at.Some? && after == before[at.value := before[at.value].(status := status)]
  }

  // ── The engine ─────────────────────────────────────────────────

  class DriverExecutionEngine {
    const system: SystemInfo
    const allowUnsigned: bool
    const tracker: OperationTracker
    /** The process-wide counter behind correlation ids. */
    var sequence: nat
    var auditLog: seq<AuditEvent>
    var hostActions: seq<HostAction>

    /** Saved ids were drawn from the counter, which has room for the two draws of one operation. */
    ghost predicate Ready()
      reads this`sequence, tracker
    {
      && sequence + 2 < U64_LIMIT
      && SavedIdsDrawn()
    }

    ghost predicate SavedIdsDrawn()
      reads this`sequence, tracker
    {
      DrawnBefore(tracker.savedStates, sequence)
    }

    constructor (system: SystemInfo, allowUnsigned: bool)
      ensures Ready() && sequence == 0 && auditLog == [] && hostActions == []
      ensures tracker.savedStates == [] && fresh(tracker)
      ensures this.system == system && this.allowUnsigned == allowUnsigned
    {
      this.system, this.allowUnsigned := system, allowUnsigned;
      tracker := new OperationTracker();
      sequence, auditLog, hostActions := 0, [], [];
    }

    // ── Small steps ──────────────────────────────────────────────

    method NextSequence() returns (ticket: nat)
      requires sequence < U64_LIMIT
      modifies this`sequence
      ensures ticket == old(sequence)
      ensures sequence == if old(sequence) + 1 == U64_LIMIT then 0 else old(sequence) + 1
      ensures old(SavedIdsDrawn()) && sequence != 0 ==> SavedIdsDrawn()
    {
      ticket := sequence;
      sequence := if sequence + 1 == U64_LIMIT then 0 else sequence + 1;
    }

    method Audit(category: Category, action: Action, caller: string)
      modifies this`auditLog
      ensures auditLog == old(auditLog) + [AuditEvent(category, action, caller)]
    {
      auditLog := auditLog + [AuditEvent(category, action, caller)];
    }

    /** Every operation draws a number and audits its request. */
    method Request(category: Category, caller: string) returns (ghost trail: seq<AuditEvent>)
      requires Ready()
      modifies this`auditLog, this`sequence
      ensures sequence == old(sequence) + 1 && SavedIdsDrawn()
      ensures trail == [AuditEvent(category, OperationRequested, caller)] && auditLog == old(auditLog) + trail
      ensures OpenTrail(trail, category, caller)
    {
      var _ := NextSequence();
      Audit(category, OperationRequested, caller);
      trail := [AuditEvent(category, OperationRequested, caller)];
    }

    /** Audit the failure and close the trail with it. */
    method FailOperation(driverName: string, failure: Failure, caller: string, category: Category,
                         ghost trail: seq<AuditEvent>)
      returns (result: OperationResult, ghost closed: seq<AuditEvent>)
      requires OpenTrail(trail, category, caller)
      modifies this`auditLog
      ensures result == OperationResult(OperationStatus.Failed, Some(failure), driverName)
      ensures auditLog == old(auditLog) + [AuditEvent(category, OperationFailed, caller)]
      ensures closed == trail + [AuditEvent(category, OperationFailed, caller)]
      ensures WellFormedTrail(closed, category, caller, OperationStatus.Failed)
    {
      Audit(category, OperationFailed, caller);
      result := OperationResult(OperationStatus.Failed, Some(failure), driverName);
      closed := trail + [AuditEvent(category, OperationFailed, caller)];
    }

    method Ask(action: HostAction)
      modifies this`hostActions
      ensures hostActions == old(hostActions) + [action]
    {
      hostActions := hostActions + [action];
    }

    // ── Execution steps ──────────────────────────────────────────

    method ExecuteInstall(driver: DriverEntry, world: World) returns (ok: bool)
      modifies this`hostActions
      ensures ok <==> InstallExecutes(driver, world)
      ensures hostActions == old(hostActions) + InstallActions(driver, world)
    {
      match driver.id.moduleType {
        case KernelModule =>
          if world.packageExists {
            Ask(LoadModule(driver.id.name));
            return world.loadSucceeds;
          } else if world.moduleAvailable {
            return true;
          } else {
            return false;
          }
        case Firmware =>
          Ask(CopyFirmware(driver.id.name));
          return world.copySucceeds;
        case Userspace =>
          return true;
        case DeviceTreeOverlay =>
          return false;
      }
    }

    method ExecuteRemove(driver: DriverEntry, force: bool, world: World) returns (ok: bool)
      modifies this`hostActions
      ensures ok <==> RemoveExecutes(driver, world)
      ensures hostActions == old(hostActions) + RemoveActions(driver, force, world)
    {
      match driver.id.moduleType {
        case KernelModule =>
          if world.loadedAtExecution {
            Ask(UnloadModule(driver.id.name, force));
            return world.unloadSucceeds;
          }
          return true;
        case Firmware =>
          if world.firmwareExists {
            Ask(DeleteFirmware(driver.id.name));
            return world.deleteSucceeds;
          }
          return true;
        case Userspace =>
          return true;
        case DeviceTreeOverlay =>
          return false;
      }
    }

    method ExecuteUpdate(driver: DriverEntry, world: World) returns (ok: bool)
      modifies this`hostActions
      ensures ok <==> UpdateExecutes(driver, world)
      ensures hostActions == old(hostActions) + UpdateActions(driver, world)
    {
      if world.loadedAtExecution {
        Ask(UnloadModule(driver.id.name, false));
        if !world.unloadSucceeds {
          return false;
        }
      }
      ok := ExecuteInstall(driver, world);
    }

    /** Restore the saved entry, reload its module if it was loaded, and forget the saved state. */
    method RollbackOperation(id: string, inventory: DriverInventory, caller: string)
      modifies this`auditLog, this`hostActions, tracker, inventory`drivers
      ensures tracker.savedStates == Without(old(tracker.savedStates), id)
      ensures match old(tracker.FindState(id))
              case Some(saved) =>
                && auditLog == old(auditLog) + [AuditEvent(DriverInstall, RollbackCompleted, caller)]
                && inventory.drivers == Restored(old(inventory.drivers), saved.driver)
                && hostActions == old(hostActions) +
                     (if saved.wasLoaded then [LoadModule(saved.driver.id.name)] else [])
              case None =>
                && auditLog == old(auditLog) + [AuditEvent(DriverInstall, RollbackFailed, caller)]
                && inventory.drivers == old(inventory.drivers) && hostActions == old(hostActions)
    {
      var state := tracker.FindState(id);
      match state {
        case Some(saved) =>
          var pos := FirstIndex(inventory.drivers, SearchId(saved.driver.id));
          if pos.Some? {
            inventory.drivers := inventory.drivers[pos.value := saved.driver];
          }
          if saved.wasLoaded {
            Ask(LoadModule(saved.driver.id.name));
          }
          Audit(DriverInstall, RollbackCompleted, caller);
          tracker.RemoveState(id);
        case None =>
          Audit(DriverInstall, RollbackFailed, caller);
          NothingToRemove(tracker.savedStates, id);
      }
    }

    /** A success is audited and its saved state forgotten. */
    method Complete(id: string, category: Category, caller: string)
      modifies this`auditLog, tracker
      ensures auditLog == old(auditLog) + [AuditEvent(category, OperationCompleted, caller)]
      ensures tracker.savedStates == Without(old(tracker.savedStates), id)
    {
      Audit(category, OperationCompleted, caller);
      tracker.RemoveState(id);
    }

    /** A rollback from the operation's own snapshot while its entry is unchanged: it puts back what is there. */
    method RollbackOwn(id: string, ghost driver: DriverEntry, ghost wasLoaded: bool, inventory: DriverInventory,
                       caller: string)
      requires tracker.FindState(id) == Some(SavedState(driver, wasLoaded, id))
      requires var at := FirstIndex(inventory.drivers, SearchId(driver.id));
               at.Some? && inventory.drivers[at.value] == driver
      modifies this`auditLog, this`hostActions, tracker, inventory`drivers
      ensures inventory.drivers == old(inventory.drivers)
      ensures tracker.savedStates == Without(old(tracker.savedStates), id)
      ensures auditLog == old(auditLog) + [AuditEvent(DriverInstall, RollbackCompleted, caller)]
      ensures hostActions == old(hostActions) + (if wasLoaded then [LoadModule(driver.id.name)] else [])
    {
      RollbackOperation(id, inventory, caller);
    }

    static ghost function Restored(drivers: seq<DriverEntry>, saved: DriverEntry): seq<DriverEntry> {
      var pos := FirstIndex(drivers, SearchId(saved.id));
      if pos.Some? then drivers[pos.value := saved] else drivers
    }

    method UpdateDriverStatus(inventory: DriverInventory, id: DriverId, status: DriverStatus, now: nat)
      modifies inventory
      ensures inventory.devices == old(inventory.devices)
      ensures inventory.lastScanTimestamp == now
      ensures var at := FirstIndex(old(inventory.drivers), SearchId(id));
              inventory.drivers == if at.None? then old(inventory.drivers)
                else old(inventory.drivers)[at.value := old(inventory.drivers)[at.value].(status := status)]
    {
      var at := FirstIndex(inventory.drivers, SearchId(id));
      if at.Some? {
        inventory.drivers := inventory.drivers[at.value := inventory.drivers[at.value].(status := status)];
      }
      inventory.lastScanTimestamp := now;
    }

    /** Save the driver for rollback under a fresh id; removing that id will undo the save. */
    method BeginOperation(driver: DriverEntry, wasLoaded: bool) returns (id: string)
      requires sequence + 1 < U64_LIMIT && SavedIdsDrawn()
      modifies this`sequence, tracker
      ensures sequence == old(sequence) + 1
      ensures tracker.savedStates == old(tracker.savedStates) + [SavedState(driver, wasLoaded, id)]
      ensures tracker.FindState(id) == Some(SavedState(driver, wasLoaded, id))
      ensures Without(tracker.savedStates, id) == old(tracker.savedStates)
      ensures forall s | s in old(tracker.savedStates) :: s.correlationId != id
    {
      var ticket := NextSequence();
      FreshId(tracker.savedStates, ticket);
      id := tracker.SaveState(driver, wasLoaded, ticket);
      SaveThenRemove(old(tracker.savedStates), SavedState(driver, wasLoaded, id));
      SavedIsFound(old(tracker.savedStates), SavedState(driver, wasLoaded, id));
    }

    /** Record a success under the new status, or roll back to the snapshot. */
    method RecordOrRollBack(ok: bool, id: string, driver: DriverEntry, category: Category, status: DriverStatus,
                            caller: string, inventory: DriverInventory, world: World)
      returns (result: OperationResult)
      requires tracker.FindState(id) == Some(SavedState(driver, world.wasLoaded, id))
      requires FirstFound(inventory.drivers, SearchId(driver.id)) == Some(driver)
      modifies this`auditLog, this`hostActions, tracker, inventory
      ensures tracker.savedStates == Without(old(tracker.savedStates), id)
      ensures auditLog == old(auditLog) + [LastEvent(category, caller, result.status)]
      ensures hostActions == old(hostActions) + RecoveryActions(driver, world, result.status)
      ensures result.status == if ok then Completed else OperationStatus.Failed
      ensures result.failure == if ok then None else Some(RolledBack)
      ensures inventory.devices == old(inventory.devices)
      ensures ok ==>
                && OnlyStatusChanges(old(inventory.drivers), inventory.drivers, SearchId(driver.id), status)
                && inventory.lastScanTimestamp == world.now
      ensures !ok ==>
                && inventory.drivers == old(inventory.drivers)
                && inventory.lastScanTimestamp == old(inventory.lastScanTimestamp)
    {
      if ok {
        UpdateDriverStatus(inventory, driver.id, status, world.now);
        Complete(id, category, caller);
        result := OperationResult(Completed, None, driver.id.name);
      } else {
        RollbackOwn(id, driver, world.wasLoaded, inventory, caller);
        result := OperationResult(OperationStatus.Failed, Some(RolledBack), driver.id.name);
      }
    }

    /** Steps 7 to 11 of an installation: save, execute, then record the success or roll back. */
    method RunInstall(request: InstallRequest, driver: DriverEntry, caller: string,
                      inventory: DriverInventory, world: World)
      returns (result: OperationResult)
      requires sequence + 1 < U64_LIMIT && SavedIdsDrawn()
      requires var at := FirstIndex(inventory.drivers, NamedFrom(request.driverName, request.provider));
               at.Some? && inventory.drivers[at.value] == driver
      modifies this, tracker, inventory
      ensures SavedIdsDrawn() && tracker.savedStates == old(tracker.savedStates)
      ensures auditLog == old(auditLog) + [LastEvent(DriverInstall, caller, result.status)]
      ensures inventory.devices == old(inventory.devices)
      ensures result.status.Completed? <==> InstallExecutes(driver, world)
      ensures result.failure == if result.status.Completed? then None else Some(RolledBack)
      ensures hostActions == old(hostActions) + InstallActions(driver, world) + RecoveryActions(driver, world, result.status)
      ensures result.status.Completed? ==>
                && ChangesFirst(old(inventory.drivers), inventory.drivers,
                                request.driverName, Some(request.provider), Installed)
                && inventory.lastScanTimestamp == world.now
      ensures result.status.Failed? ==>
                && inventory.drivers == old(inventory.drivers)
                && inventory.lastScanTimestamp == old(inventory.lastScanTimestamp)
    {
      InstallSearchesAgree(inventory.drivers, request.driverName, request.provider);
      ghost var first := sequence;
      var id := BeginOperation(driver, world.wasLoaded);
      var ok := ExecuteInstall(driver, world);
      result := RecordOrRollBack(ok, id, driver, DriverInstall, Installed, caller, inventory, world);
      ChosenIsFirst(old(inventory.drivers), inventory.drivers, request.driverName, request.provider, Installed);
      DrawnBeforeLater(tracker.savedStates, first, sequence);
    }

    method RunRemove(request: RemoveRequest, driver: DriverEntry, caller: string,
                     inventory: DriverInventory, world: World)
      returns (result: OperationResult)
      requires sequence + 1 < U64_LIMIT && SavedIdsDrawn()
      requires var at := FirstIndex(inventory.drivers, Named(request.driverName));
               at.Some? && inventory.drivers[at.value] == driver
      modifies this, tracker, inventory
      ensures SavedIdsDrawn() && tracker.savedStates == old(tracker.savedStates)
      ensures auditLog == old(auditLog) + [LastEvent(DriverRemove, caller, result.status)]
      ensures inventory.devices == old(inventory.devices)
      ensures result.status.Completed? <==> RemoveExecutes(driver, world)
      ensures result.failure == if result.status.Completed? then None else Some(RolledBack)
      ensures hostActions == old(hostActions) + RemoveActions(driver, request.force, world) + RecoveryActions(driver, world, result.status)
      ensures result.status.Completed? ==>
                && ChangesFirst(old(inventory.drivers), inventory.drivers, request.driverName, None, Removed)
                && inventory.lastScanTimestamp == world.now
      ensures result.status.Failed? ==>
                && inventory.drivers == old(inventory.drivers)
                && inventory.lastScanTimestamp == old(inventory.lastScanTimestamp)
    {
      NameSearchesAgree(inventory.drivers, request.driverName);
      ghost var first := sequence;
      var id := BeginOperation(driver, world.wasLoaded);
      var ok := ExecuteRemove(driver, request.force, world);
      result := RecordOrRollBack(ok, id, driver, DriverRemove, Removed, caller, inventory, world);
      ChosenIsFirst(old(inventory.drivers), inventory.drivers, request.driverName, "", Removed);
      DrawnBeforeLater(tracker.savedStates, first, sequence);
    }

    /** Put the updated entry, now active, back at the position of the requested name. */
    method MarkUpdated(name: string, driver: DriverEntry, inventory: DriverInventory)
      requires var at := FirstIndex(inventory.drivers, Named(name));
               at.Some? && inventory.drivers[at.value] == driver
      modifies inventory`drivers
      ensures OnlyStatusChanges(old(inventory.drivers), inventory.drivers, Named(name), Active)
    {
      NameSearchesAgree(inventory.drivers, name);
      var updated := driver.(status := Installed);
      var pos := FirstIndex(inventory.drivers, NamedFromExactly(name, driver.id.provider));
      if pos.Some? {
        updated := updated.(status := Active);
        inventory.drivers := inventory.drivers[pos.value := updated];
      }
    }

    method RunUpdate(request: UpdateRequest, driver: DriverEntry, caller: string,
                     inventory: DriverInventory, world: World)
      returns (result: OperationResult)
      requires sequence + 1 < U64_LIMIT && SavedIdsDrawn()
      requires var at := FirstIndex(inventory.drivers, Named(request.driverName));
               at.Some? && inventory.drivers[at.value] == driver
      modifies this, tracker, inventory`drivers
      ensures SavedIdsDrawn() && tracker.savedStates == old(tracker.savedStates)
      ensures auditLog == old(auditLog) + [LastEvent(DriverUpdate, caller, result.status)]
      ensures result.status.Completed? <==> UpdateExecutes(driver, world)
      ensures result.failure == if result.status.Completed? then None else Some(RolledBack)
      ensures hostActions == old(hostActions) + UpdateActions(driver, world) + RecoveryActions(driver, world, result.status)
      ensures result.status.Completed? ==>
                ChangesFirst(old(inventory.drivers), inventory.drivers, request.driverName, None, Active)
      ensures result.status.Failed? ==> inventory.drivers == old(inventory.drivers)
    {
      NameSearchesAgree(inventory.drivers, request.driverName);
      ghost var first := sequence;
      var id := BeginOperation(driver, world.wasLoaded);
      var ok := ExecuteUpdate(driver, world);
      if ok {
        MarkUpdated(request.driverName, driver, inventory);
        ChosenIsFirst(old(inventory.drivers), inventory.drivers, request.driverName, "", Active);
        Complete(id, DriverUpdate, caller);
        result := OperationResult(Completed, None, request.driverName);
      } else {
        RollbackOwn(id, driver, world.wasLoaded, inventory, caller);
        result := OperationResult(OperationStatus.Failed, Some(RolledBack), request.driverName);
      }
      DrawnBeforeLater(tracker.savedStates, first, sequence);
    }

    // ── Operations ───────────────────────────────────────────────

    static ghost function VerificationReport(driver: DriverEntry, world: World): (report: seq<AuditEvent>)
      ensures forall e | e in report :: e.action.Verified?
    {
      if driver.id.moduleType in {KernelModule, Firmware}
      then [AuditEvent(DriverVerification, Verified(world.verification), "verification_service")]
      else []
    }

    /** Kernel modules and firmware are verified, with an audited outcome. */
    method VerifyDriver(driver: DriverEntry, world: World) returns (verified: bool)
      modifies this`auditLog
      ensures verified <==> VerificationPasses(driver, allowUnsigned, world)
      ensures auditLog == old(auditLog) + VerificationReport(driver, world)
    {
      verified := true;
      if NeedsVerification(driver) {
        Audit(DriverVerification, Verified(world.verification), "verification_service");
        verified := world.verification.Valid? || allowUnsigned;
      }
    }

    /** The checks of install that only look: the entry, or the first reason to refuse. */
    method ScreenInstall(request: InstallRequest, drivers: seq<DriverEntry>,
                         hardware: seq<HardwareDevice>, world: World)
      returns (screened: Result<DriverEntry, Failure>)
      ensures screened == Err(NotAuthorized) <==> !world.authorization.Authorized?
      ensures screened == Err(InvalidRequest) <==>
                world.authorization.Authorized? && !Filled(request.driverName, Some(request.provider))
      ensures screened == Err(DriverNotFound) <==>
                && world.authorization.Authorized? && Filled(request.driverName, Some(request.provider))
                && NoneRequested(drivers, request.driverName, Some(request.provider))
      ensures screened.Ok? <==> InstallScreened(system, request, drivers, world)
      ensures screened.Err? ==> screened.error in {NotAuthorized, InvalidRequest, DriverNotFound, BlockedByConflicts}
      ensures screened.Ok? ==>
                Some(screened.value) == FirstFound(drivers, NamedFrom(request.driverName, request.provider))
    {
      TrimExactly(request.driverName);
      TrimExactly(request.provider);
      LookupsChooseFirst(drivers, request.driverName, request.provider);
      if !world.authorization.Authorized? {
        return Err(NotAuthorized);
      }
      if !request.Valid() {
        return Err(InvalidRequest);
      }
      var found := FirstIndex(drivers, NamedFrom(request.driverName, request.provider));
      if found.None? {
        return Err(DriverNotFound);
      }
      var driver := drivers[found.value];
      var conflicts := CheckInstall(system, driver, drivers, world.loadedModules, hardware);
      if conflicts.hasConflicts && !request.force {
        return Err(BlockedByConflicts);
      }
      return Ok(driver);
    }

    /** The checks before an installation, in order; a failed one is audited and ends the operation. */
    method AdmitInstall(request: InstallRequest, caller: string, inventory: DriverInventory,
                        hardware: seq<HardwareDevice>, world: World)
      returns (admitted: Result<DriverEntry, OperationResult>, ghost trail: seq<AuditEvent>)
      requires Ready()
      modifies this`auditLog, this`sequence
      ensures sequence == old(sequence) + 1 && SavedIdsDrawn()
      ensures admitted.Ok? <==> InstallAllowed(system, allowUnsigned, request, inventory.drivers, world)
      ensures admitted.Ok? ==>
                Some(admitted.value) == FirstFound(inventory.drivers, NamedFrom(request.driverName, request.provider))
      ensures admitted.Err? ==> admitted.error.status.Failed? && admitted.error.failure != Some(RolledBack)
      ensures admitted.Err? ==>
                (admitted.error.failure == Some(DriverNotFound) <==> InstallFindsNone(request, inventory.drivers, world))
      ensures admitted.Err? ==>
                (admitted.error.failure == Some(VerificationFailed) <==>
                 InstallScreened(system, request, inventory.drivers, world))
      ensures auditLog == old(auditLog) + trail
      ensures admitted.Ok? ==>
                && OpenTrail(trail, DriverInstall, caller)
                && trail == [AuditEvent(DriverInstall, OperationRequested, caller)] + VerificationReport(admitted.value, world)
      ensures admitted.Err? ==> WellFormedTrail(trail, DriverInstall, caller, OperationStatus.Failed)
    {
      trail := Request(DriverInstall, caller);
      var screened := ScreenInstall(request, inventory.drivers, hardware, world);
      var failure: Option<Failure> := None;
      match screened {
        case Err(reason) =>
          failure := Some(reason);
        case Ok(driver) =>
          admitted := Ok(driver);
          var verified := VerifyDriver(driver, world);
          BeginningIsOpen(DriverInstall, caller, VerificationReport(driver, world));
          trail := trail + VerificationReport(driver, world);
          if !verified {
            failure := Some(VerificationFailed);
          }
      }
      if failure.Some? {
        var result;
        result, trail := FailOperation(request.driverName, failure.value, caller, DriverInstall, trail);
        admitted := Err(result);
      }
    }

    /** `chosen` is the entry that an admitted request is about. */
    method InstallDriver(request: InstallRequest, caller: string, inventory: DriverInventory,
                         hardware: seq<HardwareDevice>, world: World)
      returns (result: OperationResult, ghost trail: seq<AuditEvent>, ghost chosen: Option<DriverEntry>)
      requires Ready()
      modifies this, tracker, inventory
      ensures SavedIdsDrawn() && tracker.savedStates == old(tracker.savedStates)
      ensures inventory.devices == old(inventory.devices)
      ensures result.status.Failed? ==>
                && inventory.drivers == old(inventory.drivers)
                && inventory.lastScanTimestamp == old(inventory.lastScanTimestamp)
      ensures result.status.Completed? ==>
                && ChangesFirst(old(inventory.drivers), inventory.drivers,
                                request.driverName, Some(request.provider), Installed)
                && inventory.lastScanTimestamp == world.now
      ensures result.failure == Some(DriverNotFound) <==> InstallFindsNone(request, old(inventory.drivers), world)
      ensures chosen.Some? <==> InstallAllowed(system, allowUnsigned, request, old(inventory.drivers), world)
      ensures chosen.Some? ==>
                chosen == FirstFound(old(inventory.drivers), NamedFrom(request.driverName, request.provider))
      ensures result.status.Completed? <==> chosen.Some? && InstallExecutes(chosen.value, world)
      ensures result.failure == Some(VerificationFailed) <==>
                chosen.None? && InstallScreened(system, request, old(inventory.drivers), world)
      ensures result.failure == Some(RolledBack) <==> chosen.Some? && !InstallExecutes(chosen.value, world)
      ensures hostActions == old(hostActions) +
                (if chosen.None? then []
                 else InstallActions(chosen.value, world) + RecoveryActions(chosen.value, world, result.status))
      ensures chosen.Some? ==>
                trail == [AuditEvent(DriverInstall, OperationRequested, caller)]
                         + VerificationReport(chosen.value, world) + [LastEvent(DriverInstall, caller, result.status)]
      ensures auditLog == old(auditLog) + trail && WellFormedTrail(trail, DriverInstall, caller, result.status)
    {
      var admitted, begun := AdmitInstall(request, caller, inventory, hardware, world);
      match admitted {
        case Err(failure) =>
          result, trail, chosen := failure, begun, None;
        case Ok(driver) =>
          result := RunInstall(request, driver, caller, inventory, world);
          LastEventCloses(begun, DriverInstall, caller, result.status);
          trail, chosen := begun + [LastEvent(DriverInstall, caller, result.status)], Some(driver);
      }
    }

    /** The checks of remove that only look: the entry, or the first reason to refuse. */
    method ScreenRemove(request: RemoveRequest, drivers: seq<DriverEntry>, world: World)
      returns (screened: Result<DriverEntry, Failure>)
      ensures screened == Err(NotAuthorized) <==> !world.authorization.Authorized?
      ensures screened == Err(InvalidRequest) <==>
                world.authorization.Authorized? && !Filled(request.driverName, None)
      ensures screened == Err(DriverNotFound) <==>
                && world.authorization.Authorized? && Filled(request.driverName, None)
                && NoneRequested(drivers, request.driverName, None)
      ensures screened.Ok? <==> RemoveAllowed(request, drivers, world)
      ensures screened != Err(RolledBack)
      ensures screened.Ok? ==>
                Some(screened.value) == FirstFound(drivers, Named(request.driverName))
    {
      TrimExactly(request.driverName);
      LookupsChooseFirst(drivers, request.driverName, "");
      if !world.authorization.Authorized? {
        return Err(NotAuthorized);
      }
      if !request.Valid() {
        return Err(InvalidRequest);
      }
      var found := FirstIndex(drivers, Named(request.driverName));
      if found.None? {
        return Err(DriverNotFound);
      }
      var driver := drivers[found.value];
      var conflicts := CheckRemove(driver, world.loadedModules, drivers);
      if conflicts.hasConflicts && !request.force {
        return Err(BlockedByConflicts);
      }
      return Ok(driver);
    }

    /** `chosen` is the entry that an admitted request is about. */
    method RemoveDriver(request: RemoveRequest, caller: string, inventory: DriverInventory, world: World)
      returns (result: OperationResult, ghost trail: seq<AuditEvent>, ghost chosen: Option<DriverEntry>)
      requires Ready()
      modifies this, tracker, inventory
      ensures SavedIdsDrawn() && tracker.savedStates == old(tracker.savedStates)
      ensures inventory.devices == old(inventory.devices)
      ensures result.status.Failed? ==>
                && inventory.drivers == old(inventory.drivers)
                && inventory.lastScanTimestamp == old(inventory.lastScanTimestamp)
      ensures result.status.Completed? ==>
                && ChangesFirst(old(inventory.drivers), inventory.drivers, request.driverName, None, Removed)
                && inventory.lastScanTimestamp == world.now
      ensures result.failure == Some(DriverNotFound) <==> NameFindsNone(request.driverName, old(inventory.drivers), world)
      ensures chosen.Some? <==> RemoveAllowed(request, old(inventory.drivers), world)
      ensures chosen.Some? ==> chosen == FirstFound(old(inventory.drivers), Named(request.driverName))
      ensures result.status.Completed? <==> chosen.Some? && RemoveExecutes(chosen.value, world)
      ensures result.failure == Some(RolledBack) <==> chosen.Some? && !RemoveExecutes(chosen.value, world)
      ensures hostActions == old(hostActions) +
                (if chosen.None? then []
                 else RemoveActions(chosen.value, request.force, world)
                      + RecoveryActions(chosen.value, world, result.status))
      ensures chosen.Some? ==>
                trail == [AuditEvent(DriverRemove, OperationRequested, caller), LastEvent(DriverRemove, caller, result.status)]
      ensures auditLog == old(auditLog) + trail && WellFormedTrail(trail, DriverRemove, caller, result.status)
    {
      trail := Request(DriverRemove, caller);
      var screened := ScreenRemove(request, inventory.drivers, world);
      match screened {
        case Err(reason) =>
          result, trail := FailOperation(request.driverName, reason, caller, DriverRemove, trail);
          chosen := None;
        case Ok(driver) =>
          result := RunRemove(request, driver, caller, inventory, world);
          LastEventCloses(trail, DriverRemove, caller, result.status);
          trail, chosen := trail + [LastEvent(DriverRemove, caller, result.status)], Some(driver);
      }
    }

    /** Downgrade protection. */
    static function CheckTarget(request: UpdateRequest, installed: DriverVersion): (refusal: Option<Failure>)
      ensures refusal.None? <==> TargetAllowed(request, installed)
      ensures refusal == Some(DowngradeRejected) <==> Downgrades(request, installed) && !request.allowDowngrade
      ensures refusal in {None, Some(DowngradeRejected), Some(InvalidTargetVersion)}
    {
      match request.targetVersion
      case None => None
      case Some(text) =>
        match ParseVersion(text)
        case Err(_) => Some(InvalidTargetVersion)
        case Ok(target) =>
          CompareVersionExactly(installed, target);
          if CompareVersion(installed, target).Greater? && !request.allowDowngrade
          then Some(DowngradeRejected) else None
    }

    /** The checks of update that only look: the entry, or the first reason to refuse. */
    method ScreenUpdate(request: UpdateRequest, drivers: seq<DriverEntry>, world: World)
      returns (screened: Result<DriverEntry, Failure>)
      ensures screened == Err(NotAuthorized) <==> !world.authorization.Authorized?
      ensures screened == Err(InvalidRequest) <==>
                world.authorization.Authorized? && !Filled(request.driverName, None)
      ensures screened == Err(DriverNotFound) <==>
                && world.authorization.Authorized? && Filled(request.driverName, None)
                && NoneRequested(drivers, request.driverName, None)
      ensures screened.Ok? <==> UpdateAllowed(request, drivers, world)
      ensures screened == Err(DowngradeRejected) <==> DowngradeRefused(request, drivers, world)
      ensures screened != Err(RolledBack)
      ensures screened.Ok? ==>
                Some(screened.value) == FirstFound(drivers, Named(request.driverName))
    {
      TrimExactly(request.driverName);
      LookupsChooseFirst(drivers, request.driverName, "");
      if !world.authorization.Authorized? {
        return Err(NotAuthorized);
      }
      if !request.Valid() {
        return Err(InvalidRequest);
      }
      var found := FirstIndex(drivers, Named(request.driverName));
      if found.None? {
        return Err(DriverNotFound);
      }
      var driver := drivers[found.value];
      var refusal := CheckTarget(request, driver.id.version);
      if refusal.Some? {
        return Err(refusal.value);
      }
      return Ok(driver);
    }

    static ghost function Refusal(reason: Failure, caller: string): seq<AuditEvent> {
      (if reason.DowngradeRejected? then [AuditEvent(DriverUpdate, DowngradeReported, caller)] else [])
      + [AuditEvent(DriverUpdate, OperationFailed, caller)]
    }

    /** A refused downgrade is audited as such before the operation fails. */
    method RefuseUpdate(driverName: string, reason: Failure, caller: string, ghost trail: seq<AuditEvent>)
      returns (result: OperationResult, ghost closed: seq<AuditEvent>)
      requires OpenTrail(trail, DriverUpdate, caller)
      modifies this`auditLog
      ensures result == OperationResult(OperationStatus.Failed, Some(reason), driverName)
      ensures closed == trail + Refusal(reason, caller) && auditLog == old(auditLog) + Refusal(reason, caller)
      ensures WellFormedTrail(closed, DriverUpdate, caller, OperationStatus.Failed)
    {
      closed := trail;
      if reason.DowngradeRejected? {
        Audit(DriverUpdate, DowngradeReported, caller);
        closed := closed + [AuditEvent(DriverUpdate, DowngradeReported, caller)];
      }
      result, closed := FailOperation(driverName, reason, caller, DriverUpdate, closed);
    }

    /**
     A successful update marks the entry active and keeps its version and the scan time.
     `chosen` is the entry that an admitted request is about.
     */
    method UpdateDriver(request: UpdateRequest, caller: string, inventory: DriverInventory, world: World)
      returns (result: OperationResult, ghost trail: seq<AuditEvent>, ghost chosen: Option<DriverEntry>)
      requires Ready()
      modifies this, tracker, inventory`drivers
      ensures SavedIdsDrawn() && tracker.savedStates == old(tracker.savedStates)
      ensures result.status.Failed? ==> inventory.drivers == old(inventory.drivers)
      ensures result.status.Completed? ==>
                ChangesFirst(old(inventory.drivers), inventory.drivers, request.driverName, None, Active)
      ensures result.failure == Some(DriverNotFound) <==> NameFindsNone(request.driverName, old(inventory.drivers), world)
      ensures chosen.Some? <==> UpdateAllowed(request, old(inventory.drivers), world)
      ensures chosen.Some? ==> chosen == FirstFound(old(inventory.drivers), Named(request.driverName))
      ensures result.status.Completed? <==> chosen.Some? && UpdateExecutes(chosen.value, world)
      ensures result.failure == Some(DowngradeRejected) <==> DowngradeRefused(request, old(inventory.drivers), world)
      ensures result.failure == Some(RolledBack) <==> chosen.Some? && !UpdateExecutes(chosen.value, world)
      ensures hostActions == old(hostActions) +
                (if chosen.None? then []
                 else UpdateActions(chosen.value, world) + RecoveryActions(chosen.value, world, result.status))
      ensures chosen.Some? ==>
                trail == [AuditEvent(DriverUpdate, OperationRequested, caller), LastEvent(DriverUpdate, caller, result.status)]
      ensures auditLog == old(auditLog) + trail && WellFormedTrail(trail, DriverUpdate, caller, result.status)
    {
      trail := Request(DriverUpdate, caller);
      var screened := ScreenUpdate(request, inventory.drivers, world);
      match screened {
        case Err(reason) =>
          result, trail := RefuseUpdate(request.driverName, reason, caller, trail);
          chosen := None;
        case Ok(driver) =>
          result := RunUpdate(request, driver, caller, inventory, world);
          LastEventCloses(trail, DriverUpdate, caller, result.status);
          trail, chosen := trail + [LastEvent(DriverUpdate, caller, result.status)], Some(driver);
      }
    }

    static lemma NothingToRemove(saved: seq<SavedState>, id: string)
      requires LookUp(saved, id).None?
      ensures Without(saved, id) == saved
    {
    }
  }

  // ── Operations after one another ───────────────────────────────

  /** Once installed, an unforced second installation of the same driver is always refused. */
  lemma SecondInstallIsRefused(system: SystemInfo, allowUnsigned: bool, request: InstallRequest,
                               before: seq<DriverEntry>, after: seq<DriverEntry>, world: World)
    requires ChangesFirst(before, after, request.driverName, Some(request.provider), Installed)
    requires !request.force
    ensures !InstallAllowed(system, allowUnsigned, request, after, world)
  {
    var i: nat :| FirstRequested(before, i, request.driverName, Some(request.provider))
              && after == before[i := before[i].(status := Installed)];
    LookupsChooseFirst(after, request.driverName, request.provider);
    assert forall j | 0 <= j < i :: after[j] == before[j];
    assert FirstRequested(after, i, request.driverName, Some(request.provider));
    var driver := after[i];
    forall j | 0 <= j < i ensures !Copy(after[j], driver) {
      assert !AsRequested(after[j], request.driverName, Some(request.provider));
    }
    assert Copy(driver, driver);
    assert Duplicate(driver, after);
  }
}
