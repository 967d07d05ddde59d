# A verified model of the driver service

The driver service (`src/services/driverd`) finds drivers for hardware, downloads and caches
their packages, checks repository manifests, and installs, removes and updates drivers with
rollback. This project models the parts of it that compute or keep state, and the version type
of `src/libraries/core`, and proves what they promise. `dafny verify dfyconfig.toml` checks
everything.

## What is proved

- **Glob matching** (`ModaliasPattern`). The greedy, leftmost, never-backtracking segment loop
  decides the recursive glob meaning for every pattern that holds a star and every text. The heart
  is an exchange argument: if the remaining segments fit at all, they fit after the leftmost
  occurrence of the next one.
- **Transactions** (`DriverExecution`, `OperationTracking`, `OperationRuns`). An operation that
  fails, at whatever stage, leaves the inventory and the saved states as they were; one that
  succeeds changes the status of the first entry that has the requested name (and provider, for
  installations) up to letter case. This needs that the case-insensitive lookups and the later,
  stricter searches agree on one index. A downgrade is refused by the first number that differs. The
  host is asked for nothing before every gate is passed, and the audit trail is exactly determined.
  Over every interleaving of tracker steps, each rollback finds its own snapshot.
- **Downloads** (`PackageDownload`, `PackageFetching`, `RetryPolicies`, `ContentRange`). Network and
  disk answer from arbitrary scripts. A success means that the destination has the expected digest,
  by the hash that the digest's algorithm names; a digest mismatch means that nothing of the
  download remains; effort and waiting are bounded; resuming, the first time or after any number of
  replies that broke off, joins exactly the bodies that arrived.
- **The cache** (`PackageCache`). Eviction removes exactly the shortest oldest-first prefix that
  meets both limits, with running counters that always equal the true sums; no package that goes was
  modified after one that stays. No sequence of operations leaves metadata without its package.
- **Versions** (`SemVer`, `Inventory`). Printing and parsing are inverse exactly where stated, and
  the order of core versions is the precedence of Semantic Versioning 2.0.0. The parsers read
  exactly the texts that spell a version.
- **Ranges, matching, selection** (`KernelRange`, `HardwareMatching`, `ConflictDetection`,
  `BinaryScore`, `DriverSelection`, `StableSort`). Three separately written kernel range checks are
  proved against one definition, so they agree on every input, and that definition is decided by the
  first differing number of the versions as they are written. Scores are added up in binary64, as
  the source does, and compared with the exact sums (`BinaryScore`). The selected package is a
  maximum of a total preorder over exactly the eligible pairs.
- **Manifests and digests** (`RepositoryManifests`, `PackageDigest`). Acceptance is characterised
  exactly, down to the first validating key and the inputs on which the decoder panics. The three
  hex decoders agree on ASCII text, and two of them are shown to part exactly where a character is
  cut.

Objects whose methods update fields are classes here (`DriverExecutionEngine`,
`OperationTracker`, `DriverInventory`, `DownloadManager`, `CacheManager`, `DriverSelector`,
`Disk`, `Network`). The host, the clock, the network, the hash and the signature verifier are
arbitrary values or functions, so the results hold whatever they do.

## Where the code departs from its comments

The model follows the code. These are theorems of the project where a member is named.

- The comment of the glob matcher (`src/services/driverd/src/matching.rs:480-490`) makes `?` a
  wildcard; the code reads it literally, and reads a non-empty pattern without stars as a prefix. It
  decides the documented meaning exactly for patterns that are empty, or hold a star and no `?`
  (`DocumentedExactly`).
- On paper the weights of everything but the pattern add up to one half, the threshold. In binary64
  their sum falls short by one last place, so only drivers with a fitting pattern are compatible
  (`RoundingDecidesExactly`, `IdsAloneFallShort`).
- Numeric identifiers beyond 64 bits are ordered as text (`IdentifierOrderExactly`). Versions that
  compare equal can differ in build metadata or in leading zeros, although derived equality tells
  them apart (`CompareEqualExactly`).
- A maximum of `6.8` accepts every 6.8.x; padding it to `6.8.0` does not relax it. Maxima are
  monotone exactly when `MaximumMonotoneExactly` says so.
- A comment says that client errors are not retried (`src/services/driverd/src/download.rs:616`).
  They become the same error as server errors, and every refused request is retried exactly while
  retries are left (`RefusalIsRetried`).
- The resume offset is measured once. After replies that broke off, a retry still asks from there, and
  the bodies of all of them are joined (`BrokenBodiesAreJoined`); the digest check then judges those
  bytes, and the size check only the last of them. After a 200 reply removed the partial file and its
  fetch failed, a reply that continues that file ends the download (`RestartLosesPartial`).
- Temporary files are described as cleaned up; exactly a reply that passes every check and breaks off
  leaves its bytes behind (`PackageFetching.Download`). A destination that itself ends in `.tmp` is its
  own temporary file, so a failed fetch can change it (`SafeOutcome` excludes only that case).
- Not every download ends with a closing audit event and a verified or removed file. On a reliable
  disk the exception is exactly a fetched file whose algorithm is not supported: it stays at the
  destination (`ClosesExactly`, `FirstReplySettles`, and `EndsAsSupported` in the contract of
  `Download`). On any disk there are two more: a directory that cannot be made, and a file that cannot
  be read for hashing.
- The Content-Range check accepts complete lengths that section 14.4 of RFC 9110 excludes and
  refuses the unknown length `*` that it allows.
- The hex decoders promise to refuse what is not hex. They all take a plus sign in front of a digit
  (`PlusIsASpelling`); the metadata decoder also reads a pair that cuts a character as zero, and the
  repository decoder panics on texts that its slices cut inside a character after hex pairs only
  (`ThreeAnswers`). These are the only exceptions (`RepositoryAcceptsExactly`,
  `VerifierAcceptsExactly`, `MetadataAcceptsExactly`, `PanicsExactly`).
- The duplicate check of a manifest compares texts (`DuplicateVersionsPass`).
- Cache paths depend on the digest bytes alone, not on the algorithm (`SharedPathExactly`).
- A completed update changes neither the version nor the scan time, and rollbacks of removals and
  updates are audited in the installation category.
- A package without a signing key from a source that is trusted by its type is trusted even when
  keys are configured for that source (`KeysBindExactly`).
- The documented precedence of candidates (`src/services/driverd/src/selector.rs:88-97`) puts the
  version before the source priority and knows no score. The comparator puts score and priority first;
  `DocumentedPrecedenceExactly` says on which pairs the two agree.

## Model

| member | source | states |
|---|---|---|
| `ModaliasPattern.ModaliasPatternMatch` | src/services/driverd/src/matching.rs:491-546 | the greedy segment loop answers exactly `Accepts`: the character-by-character glob meaning for every pattern with a star, a prefix test for a non-empty star-free one, equality with the empty string for the empty one |
| `ModaliasPattern.FindsLeftmost` | src/services/driverd/src/matching.rs:549-556 | the subslice search finds an occurrence before which there is none, and nothing exactly when there is none |
| `ModaliasPattern.LeftmostIsEnough` | src/services/driverd/src/matching.rs:531-541 | exchange argument: the remaining segments fit after some occurrence of the next one exactly when they fit after the leftmost one |
| `ModaliasPattern.GapsGrow` | src/services/driverd/src/matching.rs:531-541 | segments that fit with gaps into a suffix fit into the whole text |
| `ModaliasPattern.Step` | src/services/driverd/src/matching.rs:507-543 | each iteration loses no match and invents none: the remaining segments match from here exactly when the iteration goes on and the next ones match from where it puts the position |
| `ModaliasPattern.SegmentsAreGlob` | src/services/driverd/src/matching.rs:480-490 | splitting at the stars loses nothing: segments in order with arbitrary gaps, anchored at both ends, are the recursive glob meaning |
| `ModaliasPattern.SegmentsDecideAccepts` | src/services/driverd/src/matching.rs:491-546 | the segment reading decides acceptance for every non-empty pattern, star-free ones included |
| `ModaliasPattern.DepartsFromGlobExactly` | src/services/driverd/src/matching.rs:511-516 | the matcher and the glob meaning disagree on a pair exactly when the pattern is non-empty, star-free and a proper prefix |
| `ModaliasPattern.TrailingStarIsImplicit` | src/services/driverd/src/matching.rs:511-516 | a non-empty star-free pattern accepts the same texts as the pattern with a star appended |
| `ModaliasPattern.DocumentedExactly` | src/services/driverd/src/matching.rs:480-490 | the matcher decides the documented meaning, in which `?` is a wildcard, on all texts exactly when the pattern is empty, or holds a star and no `?` |
| `ModaliasPattern.QuestionMarkIsLiteral` | src/services/driverd/src/matching.rs:480-490 | the recursive glob accepts only what the documented meaning accepts, and the same when the pattern holds no `?` |
| `HardwareMatching.CheckModaliasMatch` | src/services/driverd/src/matching.rs:314-321 | true exactly when some supported pattern accepts the modalias |
| `HardwareMatching.CheckVendorDeviceMatch` | src/services/driverd/src/matching.rs:325-341 | true exactly when some pattern mentions both ids without their hex prefix |
| `HardwareMatching.MentionsBothExactly` | src/services/driverd/src/matching.rs:325-341 | for every pattern and both ids: the repeated trimming finds exactly the ids that are left when as many `0x`, or as many `0X`, as there are have been taken off |
| `HardwareMatching.CheckKernelCompatibility` | src/services/driverd/src/matching.rs:344-405 | this copy of the range check rejects exactly `Rejects`, which `WrittenRangeExactly` says on the written numbers, and is undecided exactly on unreadable kernel versions |
| `HardwareMatching.CheckKernelFeatures` | src/services/driverd/src/matching.rs:425-446 | all present exactly when every required feature is in the system list; unknown exactly when it is not and the system list is empty; otherwise exactly the missing ones are listed |
| `HardwareMatching.CheckIdentity` | src/services/driverd/src/matching.rs:206-224 | the first two additions: the pattern and the ids |
| `HardwareMatching.EvaluateCompatibility` | src/services/driverd/src/matching.rs:200-310 | the score is the binary64 sum of the weights in the order of the source (0 when blocked), clamped to one; compatible exactly when not blocked and a pattern fits; no issue is listed exactly for compatible drivers with fitting ids, a readable kernel and no feature known to be missing |
| `HardwareMatching.ScoreDecides` | src/services/driverd/src/matching.rs:284-300 | the score reaches one half exactly for compatible drivers, and never exceeds one |
| `HardwareMatching.RoundingDecidesExactly` | src/services/driverd/src/matching.rs:206-286 | exactly added, the weights would also admit unblocked drivers for which everything but the pattern scores in full; rounding changes the decision exactly for those |
| `HardwareMatching.IdsAloneFallShort` | src/services/driverd/src/matching.rs:206-286 | a concrete driver and device for which exact weights reach one half and the sum of the source does not |
| `BinaryScore.WeightsAreLiterals` | src/services/driverd/src/matching.rs:210-282 | each weight is a binary64 number, and a nearest one to its decimal literal |
| `BinaryScore.TotalIsNear` | src/services/driverd/src/matching.rs:206-284 | the rounded additions stay within a hundred-millionth of a millionth of the exact sum |
| `BinaryScore.PatternDecides` | src/services/driverd/src/matching.rs:206-286 | the rounded sum reaches one half exactly when the pattern fits |
| `BinaryScore.FullWithoutPatternFallsShort` | src/services/driverd/src/matching.rs:206-286 | 0.2 + 0.15 + 0.1 + 0.05 in this order is the last number below one half |
| `BinaryScore.DecisionsPartExactly` | src/services/driverd/src/matching.rs:206-286 | the exact and the rounded decision part exactly for full findings without a pattern |
| `BinaryScore.OrderIsExact` | src/services/driverd/src/matching.rs:186-194 | scores compare, and tie, as the exact sums do |
| `HardwareMatching.CollectCompatible` | src/services/driverd/src/matching.rs:170-185 | the matches found, in inventory order, are those of the compatible drivers, one for each occurrence |
| `HardwareMatching.FindMatchingDrivers` | src/services/driverd/src/matching.rs:170-196 | the result is a permutation of the compatible drivers, best score first, equal scores in inventory order, every score from one half to one |
| `HardwareMatching.CollectsExactly` | src/services/driverd/src/matching.rs:170-185 | a driver is listed exactly when it is in the inventory and compatible |
| `StableSort.SortByKey` | src/services/driverd/src/matching.rs:186-194 | sorted by key, the same multiset, and the elements of each single key in their old order |
| `KernelRange.BoundIsRead` | src/services/driverd/src/matching.rs:355-379 | the dotted decimal form of any non-empty list of 64-bit numbers is read as exactly these numbers, in order |
| `KernelRange.SystemIsRead` | src/services/driverd/src/matching.rs:349-353 | so is a kernel version, whatever suffix follows that does not start with a digit; the numbers of the suffix come after them |
| `KernelRange.WrittenRangeExactly` | src/services/driverd/src/matching.rs:344-405 | on written versions with a suffix without digits: rejected exactly when the first number in which the version and the minimum differ is smaller, or the first in which it and the maximum differ is larger; a missing number counts as zero, as long as the bound goes on |
| `KernelRange.RejectsAtFirstDifference` | src/services/driverd/src/matching.rs:355-405 | a readable system version is rejected exactly when its first difference from the minimum, before the end of the minimum, is below it, or its first difference from the maximum is above it |
| `KernelRange.ComponentDecides` | src/services/driverd/src/matching.rs:364-400 | the first differing component decides the comparison up to the length of the bound |
| `KernelRange.AcceptedVersionsFormInterval` | src/services/driverd/src/matching.rs:344-405 | between two accepted system versions, in the zero-padded order, every version is accepted |
| `KernelRange.MinimumMonotoneExactly` | src/services/driverd/src/matching.rs:364-379 | one minimum accepts all that another accepts exactly when it accepts that other minimum itself |
| `KernelRange.MaximumMonotoneExactly` | src/services/driverd/src/matching.rs:381-400 | one maximum accepts all that another accepts exactly when it accepts the other one continued with the largest 64-bit numbers |
| `KernelRange.PaddingTightensMaximum` | src/services/driverd/src/matching.rs:381-400 | maximum 6.8 accepts 6.8.5 while 6.8.0 does not, although the two compare equal when zero-padded |
| `ConflictDetection.CheckKernel` | src/services/driverd/src/conflict.rs:246-319 | the detector's copy of the range check reports a conflict exactly where `Rejects` holds, as the matcher's and the selector's copies do |
| `ConflictDetection.CheckDuplicate` | src/services/driverd/src/conflict.rs:353-384 | a duplicate is reported exactly when the first operational entry with that name and provider has the same version |
| `ConflictDetection.CheckConflictingModules` | src/services/driverd/src/conflict.rs:387-428 | reported exactly when a kernel module's rival is loaded |
| `ConflictDetection.RivalsExactly` | src/services/driverd/src/conflict.rs:387-428 | up to letter case, nvidia and nouveau are rivals of each other, iwlegacy is one of iwlwifi, and no other module has one |
| `ConflictDetection.DependsExactly` | src/services/driverd/src/conflict.rs:485-519 | another entry depends on a driver exactly when one of its required features has the driver's name inside it and its own name is another, all up to letter case |
| `ConflictDetection.ConflictResult.Merge` | src/services/driverd/src/conflict.rs:126-133 | merging appends the conflicts and keeps the flag equal to their presence |
| `ConflictDetection.CheckInstall` | src/services/driverd/src/conflict.rs:163-194 | conflicts exist exactly when kernel or architecture block, the entry is a duplicate, or a rival is loaded |
| `ConflictDetection.CheckRemove` | src/services/driverd/src/conflict.rs:197-214 | conflicts exist exactly when the operational module is loaded or another driver depends on it |
| `DriverExecution.FirstIndex` | src/services/driverd/src/execution.rs:196-215 | position of the first entry that a search finds; none earlier, and absence means no entry |
| `DriverExecution.LookupsChooseFirst` | src/services/driverd/src/inventory.rs:694-698 | the lookups choose the first entry whose name, and for installations also whose provider, is the requested one up to letter case; nothing exactly when no entry is |
| `DriverExecution.SameIdIsExact` | src/services/driverd/src/execution.rs:684-700 | rollbacks and status updates choose the first entry with exactly that name and provider |
| `DriverExecution.StricterSearchSameIndex` | src/services/driverd/src/execution.rs:684-738 | a stricter search that still finds the chosen entry lands on the same index |
| `DriverExecution.InstallSearchesAgree` | src/services/driverd/src/execution.rs:777-794 | the exact name and provider search finds the index that the case-insensitive install lookup chose |
| `DriverExecution.NameSearchesAgree` | src/services/driverd/src/execution.rs:437-586 | the same for lookups by name alone, and for the mixed search that ends an update |
| `DriverExecution.DriverExecutionEngine.BeginOperation` | src/services/driverd/src/execution.rs:58-76 | saves under an id that no saved state carries; looking it up finds this state and removing it restores the list |
| `DriverExecution.DriverExecutionEngine.RollbackOperation` | src/services/driverd/src/execution.rs:684-741 | restores the saved entry at the first exact match, reloads its module if it was loaded, forgets the state; without a state it only audits the failure |
| `DriverExecution.DriverExecutionEngine.RollbackOwn` | src/services/driverd/src/execution.rs:684-741 | a rollback from the operation's own snapshot leaves the inventory as it was |
| `DriverExecution.DriverExecutionEngine.UpdateDriverStatus` | src/services/driverd/src/execution.rs:777-794 | changes only the status of the first exact match, and the timestamp |
| `DriverExecution.DriverExecutionEngine.FailOperation` | src/services/driverd/src/execution.rs:797-813 | audits one failure event, which completes the trail |
| `DriverExecution.DriverExecutionEngine.RecordOrRollBack` | src/services/driverd/src/execution.rs:263-310 | success: one status and the timestamp change; failure: the inventory is as before; either way the saved state is forgotten and one closing event is audited |
| `DriverExecution.DriverExecutionEngine.RunInstall` | src/services/driverd/src/execution.rs:263-310 | from the saved state on: completed exactly when execution succeeds, and then exactly the status of the first entry with the requested name and provider has changed; on failure the inventory is as before; the saved list is as before in either case |
| `DriverExecution.DriverExecutionEngine.RunRemove` | src/services/driverd/src/execution.rs:385-434 | the same for removal |
| `DriverExecution.DriverExecutionEngine.MarkUpdated` | src/services/driverd/src/execution.rs:545-562 | exactly the entry that the name lookup chose becomes active, and nothing else of it changes |
| `DriverExecution.DriverExecutionEngine.RunUpdate` | src/services/driverd/src/execution.rs:520-586 | the same for update |
| `DriverExecution.DriverExecutionEngine.VerifyDriver` | src/services/driverd/src/execution.rs:226-262 | kernel modules and firmware pass when valid or when unsigned packages are allowed; the outcome is audited; other types pass unaudited |
| `DriverExecution.DriverExecutionEngine.ScreenInstall` | src/services/driverd/src/execution.rs:163-225 | the first failed gate, in order: authorization, texts that are not blank, an entry with the requested name and provider, conflicts unless forced |
| `DriverExecution.DriverExecutionEngine.AdmitInstall` | src/services/driverd/src/execution.rs:152-262 | admitted exactly when every gate is passed, with exactly the requested and verification events so far; a refusal is a complete failed trail |
| `DriverExecution.DriverExecutionEngine.InstallDriver` | src/services/driverd/src/execution.rs:152-310 | completed exactly when all gates and the execution succeed; a failure at any stage leaves drivers, devices, timestamp and saved states as they were; a success changes the timestamp and the status of the first entry that has the requested name and provider up to letter case; not found is reported exactly when an authorized request that is not blank has no such entry; the host is asked for nothing unless every gate passed, and then for exactly the listed actions; verification failures and rollbacks are reported exactly as such; one requested event first and one agreeing terminal event last |
| `DriverExecution.DriverExecutionEngine.ScreenRemove` | src/services/driverd/src/execution.rs:320-384 | the first failed gate of a removal |
| `DriverExecution.DriverExecutionEngine.RemoveDriver` | src/services/driverd/src/execution.rs:313-434 | the transaction guarantee of install, for removal, of the first entry with the requested name; the trail of an admitted one is the requested and the closing event |
| `DriverExecution.DriverExecutionEngine.CheckTarget` | src/services/driverd/src/execution.rs:478-518 | passes exactly without a target, or with a readable one that is not below the installed version unless downgrades are allowed, below in the first differing number of major, minor and patch, or in the pre-release; a downgrade and an unreadable target are told apart |
| `DriverExecution.DriverExecutionEngine.ScreenUpdate` | src/services/driverd/src/execution.rs:445-518 | the first failed gate of an update |
| `DriverExecution.DriverExecutionEngine.RefuseUpdate` | src/services/driverd/src/execution.rs:485-518 | a refusal ends the trail with a failure, preceded by a downgrade report exactly for refused downgrades |
| `DriverExecution.DriverExecutionEngine.UpdateDriver` | src/services/driverd/src/execution.rs:437-586 | the transaction guarantee for update, of the first entry with the requested name; version and scan time never change; a downgrade is refused exactly when everything else is in order, the target is below the installed version in the first number that differs or in the pre-release, and downgrades were not allowed |
| `DriverExecution.SecondInstallIsRefused` | src/services/driverd/src/conflict.rs:353-384 | after a completed installation an unforced second one of the same driver is refused in every later world |
| `OperationTracking.IdsCollideExactly` | src/services/driverd/src/execution.rs:65-76 | two tickets give one correlation id exactly when they are equal modulo 2^64 |
| `OperationTracking.LookUpIsFirst` | src/services/driverd/src/execution.rs:78-82 | the state found is the first with the id |
| `OperationTracking.SavedIsFound` | src/services/driverd/src/execution.rs:78-82 | a state saved under a fresh id is the one found |
| `OperationTracking.SaveThenRemove` | src/services/driverd/src/execution.rs:84-87 | saving under a fresh id and removing that id restores the list |
| `OperationTracking.OperationTracker.SaveState` | src/services/driverd/src/execution.rs:65-76 | appends the snapshot under the id of its ticket |
| `OperationTracking.OperationTracker.RemoveState` | src/services/driverd/src/execution.rs:84-87 | keeps exactly the states with other ids, in order |
| `OperationRuns.LookUpFindsOwn` | src/services/driverd/src/execution.rs:690-700 | in every consistent state the id of an operation in flight leads to the state that it saved |
| `OperationRuns.StepKeepsConsistent` | src/services/driverd/src/execution.rs:58-88 | each tracker step of any operation keeps: distinct ids in flight, saved states exactly those of operations in flight, rollbacks holding their own snapshot |
| `OperationRuns.RunsStayConsistent` | src/services/driverd/src/execution.rs:265-309 | the same over every interleaving of any length |
| `OperationRuns.RollbackNeverFails` | src/services/driverd/src/execution.rs:690-737 | from the start every rollback has found its own snapshot, so the failure branch is unreachable, and nothing stays saved when nothing is in flight |
| `PackageFetching.StreamBody` | src/services/driverd/src/fetch.rs:328-366 | the whole body, or on a reliable disk nothing when it exceeds the size limit |
| `PackageFetching.DownloadToFile` | src/services/driverd/src/fetch.rs:267-375 | success: a whole reply, within the size limit, is the content of the temporary file; no other path is touched; on a reliable disk the outcome and the files are exactly determined by the reply |
| `PackageFetching.Download` | src/services/driverd/src/fetch.rs:196-227 | success: the destination holds the whole reply and the temporary file is gone; an error changes at most the temporary file, and on a reliable disk leaves a new one there exactly when the reply passed every check and broke off |
| `PackageFetching.HashFile` | src/services/driverd/src/fetch.rs:92-115 | the digest is the sha256 hash of the file for `sha256` and `SHA256`, the blake3 hash for `blake3` and `BLAKE3`; unsupported algorithms and read errors are told apart |
| `PackageFetching.TemporaryPathsExactly` | src/services/driverd/src/fetch.rs:214 | two destinations share a temporary file exactly when they differ in the extension alone; a destination is its own exactly when it ends in `.tmp` |
| `PackageDownload.DownloadManager.StreamRest` | src/services/driverd/src/download.rs:640-675 | appends the whole body within the size limit; a failure only makes the partial file longer |
| `PackageDownload.DownloadManager.ResumeDownload` | src/services/driverd/src/download.rs:581-697 | a checked 206 reply extends the partial file and moves it to the destination; one that breaks off leaves exactly its bytes appended; without a partial file it fails; a 200 reply removes the partial file and starts over; an error leaves the destination alone |
| `PackageDownload.DownloadManager.AppendRest` | src/services/driverd/src/download.rs:627-684 | destination = old partial bytes followed by the body, with the reported size equal to offset plus body; certain when the disk is reliable and the reply complete |
| `PackageDownload.DownloadManager.PerformDownloadWithResume` | src/services/driverd/src/download.rs:549-578 | resumes at exactly the given positive offset, otherwise fetches from the start |
| `PackageDownload.DownloadManager.PartialPathsExactly` | src/services/driverd/src/download.rs:270-273 | two downloads share a partial file exactly when their digests have the same bytes |
| `PackageDownload.DownloadManager.MeasurePartial` | src/services/driverd/src/download.rs:402-414 | the size of the partial file when it is there and can be examined |
| `PackageDownload.DownloadManager.AcceptFetched` | src/services/driverd/src/download.rs:432-517 | hashed exactly when the algorithm is supported and the file can be read; then the digest, by the hash that its algorithm names, and the size decide: accepted only with that digest, a mismatch only without it, with exactly one closing event, and a mismatch removes the file, for the digest the partial file too; otherwise no event, and the file stays |
| `PackageDownload.DownloadManager.Attempt` | src/services/driverd/src/download.rs:422-520 | one round: an attempt that fetched nothing leaves the destination alone and the trail open for the loop; one that fetched a file ends the download; a complete first reply is settled |
| `PackageDownload.DownloadManager.NextRound` | src/services/driverd/src/download.rs:422-520 | the attempt follows the rounds before it and keeps what holds after each round |
| `PackageDownload.DownloadManager.Download` | src/services/driverd/src/download.rs:375-546 | for every network script, disk script, policy and initial partial file: Ok means that the algorithm is supported and the destination has the expected digest under sha256 or blake3, whichever the algorithm names; a digest mismatch means that neither file remains; only a file that was not hashed can stay unverified, on a reliable disk exactly one with an unsupported algorithm; the audit trail is the start, the retries and the closing event of the ending, and only the start when the directory cannot be made; at most max_retries retries, each after a transient error, with exactly the policy's delays and within both bounds on their sum; for every number of replies that break off before a complete one, exactly the verdict on all their joined bodies |
| `PackageDownload.DownloadManager.RunRounds` | src/services/driverd/src/download.rs:422-545 | the loop: its rounds follow one another, every one but the last failed with a transient error, and the last did not or was the last allowed; the trail grows by the retries and the closing event of the ending |
| `PackageDownload.DownloadManager.RefusalIsRetried` | src/services/driverd/src/download.rs:616-617 | a refused request, whatever its status, is retried exactly while retries are left |
| `PackageDownload.DownloadManager.RefusalsExhaust` | src/services/driverd/src/download.rs:616-617 | when every request is refused, all retries are used up |
| `PackageDownload.DownloadManager.FirstReplySettles` | src/services/driverd/src/download.rs:432-517 | without anything to resume a complete first reply is judged, or left at the destination when its algorithm is not supported |
| `PackageDownload.DownloadManager.ClosesExactly` | src/services/driverd/src/download.rs:440-443 | on a reliable disk the trail gets one closing event exactly for supported algorithms and abandoned downloads, and none otherwise |
| `PackageDownload.DownloadManager.RoundAfterBreaks` | src/services/driverd/src/download.rs:402-414 | after any number of replies that broke off, the partial file is the old one followed by all their bodies, while the next request still asks from the first offset |
| `PackageDownload.DownloadManager.BrokenBodiesAreJoined` | src/services/driverd/src/download.rs:402-414 | what is judged after such replies and a complete one is the old partial bytes, the bodies of all broken replies and the last body; the size that is judged is the first offset plus the last body only |
| `PackageDownload.DownloadManager.RestartLosesPartial` | src/services/driverd/src/download.rs:686-690 | after a 200 reply whose fresh fetch failed, a reply that continues the partial file ends the download with an internal error |
| `RetryPolicies.DelayIsMinimum` | src/services/driverd/src/download.rs:149-157 | a delay is the minimum of the cap and the initial one times a power of the factor, and never zero for a valid policy |
| `RetryPolicies.DelaysGrowToCap` | src/services/driverd/src/download.rs:149-157 | delays never shrink and never exceed the cap or their uncapped value |
| `RetryPolicies.TotalWaitCapped` | src/services/driverd/src/download.rs:149-157 | all waits together stay within retries times cap |
| `RetryPolicies.TotalWaitGeometric` | src/services/driverd/src/download.rs:149-157 | all waits together stay within the geometric sum |
| `RetryPolicies.DelaysAreBounded` | src/services/driverd/src/download.rs:149-157 | however many retries are made, their waits stay within both bounds for all of them |
| `RetryPolicies.GeometricClosedForm` | src/services/driverd/src/download.rs:149-157 | the closed form of that sum |
| `ContentRange.AcceptedExactly` | src/services/driverd/src/download.rs:700-766 | a header is accepted with three numbers exactly when it spells them as `bytes a-b/c`, up to surrounding white space, the first is the offset and the ends are in order |
| `ContentRange.PrintedRangeExactly` | src/services/driverd/src/download.rs:700-766 | every printed range is accepted, and its three numbers recovered, exactly at its own offset and with its ends in order |
| `ContentRange.DepartsFromStandardExactly` | src/services/driverd/src/download.rs:700-766 | the check departs from section 14.4 of RFC 9110 exactly on complete lengths not above the last position |
| `ContentRange.UnknownLengthIsRefused` | src/services/driverd/src/download.rs:700-766 | a range with unknown complete length, legal in the standard, is refused |
| `PackageCache.SharedPathExactly` | src/services/driverd/src/cache.rs:148-163 | two digests share their package, partial or metadata path exactly when their bytes are equal |
| `PackageCache.FileNamesInjective` | src/services/driverd/src/cache.rs:148-163 | no two of the three file kinds, and no two hex texts, share a name |
| `PackageCache.NameTellsKind` | src/services/driverd/src/cache.rs:328-371 | what the code reads off a name tells the three kinds apart |
| `PackageCache.MetadataOfPackage` | src/services/driverd/src/cache.rs:408-414 | replacing the extension of a package file names its metadata file |
| `PackageCache.CacheManager.Finalize` | src/services/driverd/src/cache.rs:220-275 | moves the partial file into place with its metadata, or says how far the disk let it: nothing changed, the package without new metadata, or with a part of it; without a partial file nothing changes |
| `PackageCache.CacheManager.VerifyCacheEntry` | src/services/driverd/src/cache.rs:278-295 | an error exactly for a package that is there but cannot be read or has an unsupported algorithm, and then nothing changes; otherwise a hit exactly when the bytes have the digest under the hash that the algorithm names, and afterwards the package is present exactly on a hit; a corrupt one goes with its metadata |
| `PackageCache.CacheManager.RemoveEntry` | src/services/driverd/src/cache.rs:298-309 | removes the package and its metadata and nothing else |
| `PackageCache.CacheManager.CleanupPartials` | src/services/driverd/src/cache.rs:312-325 | removes exactly the partial files and counts them |
| `PackageCache.CacheManager.CurrentCacheSize` | src/services/driverd/src/cache.rs:328-346 | the total size of the package files |
| `PackageCache.CacheManager.CacheEntryCount` | src/services/driverd/src/cache.rs:349-368 | the number of package files |
| `PackageCache.TotalSizeOfPermutation` | src/services/driverd/src/cache.rs:374-382 | the running size that starts the eviction loop does not depend on the order of the entries |
| `PackageCache.CacheManager.EvictOldest` | src/services/driverd/src/cache.rs:398-419 | the loop with running size and count removes exactly the shortest prefix that meets both limits; the running numbers are the true remaining sums |
| `PackageCache.CacheManager.EnforceLimits` | src/services/driverd/src/cache.rs:374-422 | exactly the shortest oldest-first prefix goes, each with its metadata, and everything else is untouched; no package that is gone was modified after one that is kept; every listing of the directory afterwards is within both limits |
| `PackageCache.PrefixIsOldest` | src/services/driverd/src/cache.rs:398-419 | evicting any prefix of the sorted entries leaves no package that was modified before one that is gone |
| `PackageCache.LeftIsWithoutEvicted` | src/services/driverd/src/cache.rs:398-419 | evicting one after the other leaves what removing the whole prefix leaves |
| `PackageCache.CacheManager.Clear` | src/services/driverd/src/cache.rs:425-443 | empties the directory and counts every file |
| `PackageCache.OperationKeepsConsistent` | src/services/driverd/src/cache.rs:193-443 | no cache operation leaves metadata without its package |
| `PackageCache.RunsStayConsistent` | src/services/driverd/src/cache.rs:193-443 | nor does any sequence of operations of any length |
| `SemVer.RoundTripExactly` | src/libraries/core/src/version.rs:191-287 | parsing undoes printing exactly for the printable versions, over all constructible versions |
| `SemVer.ParsedRoundTrip` | src/libraries/core/src/version.rs:191-265 | whatever the parser accepts survives printing and parsing again |
| `SemVer.ParsedIsPrintable` | src/libraries/core/src/version.rs:191-265 | the parser produces printable versions only |
| `SemVer.ParseExactly` | src/libraries/core/src/version.rs:191-265 | the texts that are read as a version are exactly three numbers between dots, then a list of identifiers after a dash and one after a plus sign, either of which may be empty |
| `SemVer.CompareTotalPreorder` | src/libraries/core/src/version.rs:300-349 | the comparison is dual and transitive, through both identifier classes and the length rule |
| `SemVer.CompareEqualExactly` | src/libraries/core/src/version.rs:300-349 | versions compare equal exactly when numbers agree and pre-release identifiers are the same text or number; build never counts |
| `SemVer.ComparePreIsSection11` | src/libraries/core/src/version.rs:329-338 | pre-release lists are ordered by their first difference, as section 11.4 of Semantic Versioning 2.0.0 says |
| `SemVer.CompareIsSection11` | src/libraries/core/src/version.rs:300-349 | the order is the precedence of section 11 of Semantic Versioning 2.0.0 while numeric identifiers fit 64 bits |
| `SemVer.IdentifierOrderExactly` | src/libraries/core/src/version.rs:341-349 | for all valid identifiers: the order departs from section 11.4 exactly where text order misplaces a number beyond 64 bits |
| `SemVer.OversizedNumbersMisordered` | src/libraries/core/src/version.rs:341-349 | a concrete departure |
| `Inventory.CompareVersionTotalOrder` | src/services/driverd/src/inventory.rs:306-330 | the driver version comparison is a total order, equal only on equal versions; which order it is says `CompareVersionExactly` |
| `Inventory.CompareVersionExactly` | src/services/driverd/src/inventory.rs:306-330 | a version is below another exactly when the first of major, minor and patch in which they differ is smaller, or they agree and a pre-release stands against none or against one later in the dictionary |
| `Inventory.RoundTripExactly` | src/services/driverd/src/inventory.rs:226-298 | parsing undoes printing exactly for numbers within 64 bits and a non-empty pre-release text without white space at its end |
| `Inventory.ParsedIsPrintable` | src/services/driverd/src/inventory.rs:226-270 | the parser produces such versions only |
| `Inventory.ParseVersionExactly` | src/services/driverd/src/inventory.rs:226-270 | the texts that are read as a driver version are exactly, up to white space around them, three numbers between dots, ignored components after a further dot, and a pre-release text after a dash |
| `Text.ParseU64Exactly` | src/services/driverd/src/inventory.rs:226-270 | a text is read as a number exactly when it is, after an optional plus sign and zeros, the decimal form of that number within 64 bits |
| `Orderings.CmpStringExactly` | src/services/driverd/src/inventory.rs:306-330 | texts compare by the first character in which they differ, or by being a proper prefix |
| `Inventory.FourthComponentIsDropped` | src/services/driverd/src/inventory.rs:226-270 | a fourth component changes the text but not the parsed version |
| `DriverSelection.IsKernelCompatible` | src/services/driverd/src/selector.rs:384-435 | the selector's copy of the range check rejects exactly `Rejects`, which `WrittenRangeExactly` says on the written numbers |
| `DriverSelection.NormalizationIsHarmless` | src/services/driverd/src/selector.rs:369-381 | lowering the letters of the package architecture first does not change the architecture check |
| `Inventory.ArchitecturesMatchExactly` | src/services/driverd/src/selector.rs:369-381 | architectures match exactly when they are one name, up to letter case and with amd64 for x86_64 and arm64 for aarch64 |
| `DriverSelection.SourcesExactly` | src/services/driverd/src/selector.rs:348-366 | a source counts as enabled when some entry with its id is; trust is decided by the first: by a configured key that signed, or, without keys or without a signature, by a type that is trusted by default |
| `DriverSelection.KeysBindExactly` | src/services/driverd/src/selector.rs:348-366 | with keys configured, trust implies a signature by one of them exactly for source types that are not trusted by default |
| `DriverSelection.DocumentedPrecedenceExactly` | src/services/driverd/src/selector.rs:88-97 | for every pair of candidates: the comparator gives the documented precedence exactly when trust and manifest do not conflict and, where both tie, the score decides as the documented levels below would, or ties with version and priority not in conflict |
| `DriverSelection.PriorityBeatsVersion` | src/services/driverd/src/selector.rs:88-97 | a departure: a lower priority number wins over a higher version |
| `DriverSelection.ManifestScoreExactly` | src/services/driverd/src/selector.rs:324-337 | one manifest ranks above another exactly when it alone is verified, or the other alone failed its verification |
| `DriverSelection.SourcePriorityExactly` | src/services/driverd/src/selector.rs:340-345 | the priority is that of the first source with the id, and 100 without one |
| `DriverSelection.PackageVersionsExactly` | src/services/driverd/src/selector.rs:307-313 | no package ranks below any, and of two packages the lower version does |
| `DriverSelection.CompareTotalPreorder` | src/services/driverd/src/selector.rs:257-321 | the six-level comparison of candidates is dual and transitive |
| `DriverSelection.CompareEqualExactly` | src/services/driverd/src/selector.rs:257-321 | candidates tie exactly when all six levels agree |
| `DriverSelection.SelectBestCandidate` | src/services/driverd/src/selector.rs:257-321 | the choice is a qualified candidate that no qualified one exceeds; none exactly when none qualifies |
| `DriverSelection.OrderDoesNotMatter` | src/services/driverd/src/selector.rs:257-321 | best candidates of two listings of the same candidates tie |
| `DriverSelection.DriverSelector.PackageCandidate` | src/services/driverd/src/selector.rs:190-240 | a candidate qualifies exactly when architecture, kernel and trust all pass |
| `DriverSelection.DriverSelector.DriverCandidates` | src/services/driverd/src/selector.rs:165-240 | the qualified candidates of one driver are exactly its eligible packages |
| `DriverSelection.DriverSelector.CollectCandidates` | src/services/driverd/src/selector.rs:153-245 | the same over all drivers |
| `DriverSelection.DriverSelector.EligibleExactly` | src/services/driverd/src/selector.rs:165-240 | the checks together admit exactly the pairs that are eligible in words of first sources, architecture names and written versions |
| `DriverSelection.DriverSelector.SelectForDevice` | src/services/driverd/src/selector.rs:153-253 | the selection is an eligible pair (compatible driver, enabled and trusted source, kernel and architecture within limits) that no eligible pair exceeds; none exactly when there is no eligible pair |
| `RepositoryManifests.EntriesValidMeaning` | src/services/driverd/src/repository.rs:480-503 | entry by entry acceptance means: every entry valid, names and version texts pairwise distinct |
| `RepositoryManifests.Validate` | src/services/driverd/src/repository.rs:446-503 | the checks in their order accept exactly a header whose texts are not blank and whose times are in order, with entries that are each valid field by field and whose names and version texts are pairwise distinct |
| `RepositoryManifests.CheckEntry` | src/services/driverd/src/repository.rs:313-406 | the checks of one entry accept exactly a name and a version that are not blank, an address without `..` and backslashes, a size that is not zero, a digest of 64 hex digits under a known algorithm, a known architecture and a known channel |
| `RepositoryManifests.CheckUrl` | src/services/driverd/src/repository.rs:409-440 | an address passes exactly when it is absolute or http, without `..` and backslashes |
| `RepositoryManifests.ValidateEntries` | src/services/driverd/src/repository.rs:480-503 | the loop with its set of seen keys decides exactly that |
| `RepositoryManifests.DuplicateVersionsPass` | src/services/driverd/src/repository.rs:480-503 | two entries with one name and one parsed version pass when their version texts differ |
| `RepositoryManifests.FreshExactly` | src/services/driverd/src/repository.rs:507-539 | the accepted clock values are one interval, and each refusal has its exact cause |
| `RepositoryManifests.StaleStaysRejected` | src/services/driverd/src/repository.rs:507-539 | on a clock that never runs back a stale manifest stays rejected |
| `RepositoryManifests.FirstAcceptingKey` | src/services/driverd/src/repository.rs:596-619 | the search stops at the first key that accepts or panics, skipping malformed ones |
| `RepositoryManifests.VerifySignature` | src/services/driverd/src/repository.rs:578-627 | a key validates when it is 32 bytes of hex, the signature 64, and the verifier accepts; verified exactly when some key is the first to validate, with no panic before it; that key is reported; panics exactly when the signature, or a key that the search reaches, is cut inside a character |
| `RepositoryManifests.SomeKeyIsFirst` | src/services/driverd/src/repository.rs:578-627 | without panicking keys that is the same as some trusted key validating |
| `RepositoryManifests.VerifyManifest` | src/services/driverd/src/repository.rs:817-872 | accepted exactly when structure, window and signature hold, naming the first validating key; each error has its exact cause |
| `RepositoryManifests.AsciiHexNeverPanics` | src/services/driverd/src/repository.rs:769-778 | ASCII text never makes the decoder panic |
| `PackageDigest.DigestRoundTripExactly` | src/services/driverd/src/metadata.rs:105-136 | parsing undoes printing exactly for 32-byte sha256 and blake3 digests |
| `PackageDigest.ParseDigestExactly` | src/services/driverd/src/metadata.rs:105-125 | the texts that are read as a digest are exactly an algorithm name, a colon and the hex of 32 bytes; the digest carries the lower-case name of that algorithm |
| `PackageDigest.HexValueExactly` | src/services/driverd/src/metadata.rs:292-309 | the digits that are read, in either case, and their values |
| `PackageDigest.DecodeOfEncode` | src/services/driverd/src/metadata.rs:287-309 | decoding undoes encoding for every byte string |
| `PackageDigest.EncodeInjective` | src/services/driverd/src/metadata.rs:287-290 | different byte strings have different hex texts |
| `PackageDigest.MatchesIsEquality` | src/services/driverd/src/metadata.rs:139-151 | the OR of XORs is zero exactly on equal bytes |
| `PackageDigest.RepositoryAcceptsExactly` | src/services/driverd/src/repository.rs:767-778 | the repository decoder reads a text exactly when it is an even number of hex digits, or readable pairs some of which start with a plus sign; its promise to answer `None` for all other texts fails exactly where it takes a plus sign or panics |
| `PackageDigest.VerifierAcceptsExactly` | src/services/driverd/src/verification.rs:454-472 | the verification decoder accepts exactly hex, except exactly where it takes a plus sign |
| `PackageDigest.MetadataAcceptsExactly` | src/services/driverd/src/metadata.rs:292-309 | the metadata decoder accepts exactly hex, except exactly where it takes a plus sign, or reads pairs that cut a character as zero |
| `PackageDigest.ReadableExactly` | src/services/driverd/src/repository.rs:767-778 | texts of readable pairs are the valid ones and those with a plus sign, and no text is both |
| `PackageDigest.PlusIsASpelling` | src/services/driverd/src/repository.rs:767-778 | `+5` and `05` are one value for all three decoders |
| `PackageDigest.PanicsExactly` | src/services/driverd/src/repository.rs:769-778 | the decoder panics exactly on texts of even length in UTF-8 in which an even position falls inside a character and only whole characters and hex pairs come before |
| `PackageDigest.BoundaryExactly` | src/services/driverd/src/repository.rs:769-778 | a slice may start exactly where some prefix of the text ends |
| `PackageDigest.Utf8CharReadsBack` | src/services/driverd/src/repository.rs:769-778 | the bytes of every character give it back by the rules of section 3 of RFC 3629; only its first byte is not a continuation byte |
| `PackageDigest.ThreeAnswers` | src/services/driverd/src/repository.rs:769-778 | a text on which one decoder panics, one reads zeros and one refuses |
| `PackageDigest.DecodersAgreeOnAscii` | src/services/driverd/src/repository.rs:769-778 | the three hex decoders agree on every ASCII text |
| `PackageDigest.DecodersPartExactly` | src/services/driverd/src/verification.rs:454-472 | the metadata and verification decoders part exactly on even-length texts with a cut character and no other bad pair |
| `PackageDigest.PieceIsUtf8Exactly` | src/services/driverd/src/metadata.rs:298-303 | two bytes are read as text exactly when some text has just these bytes |

## Left out

- D-Bus and PolKit plumbing, the authorizer's own audit events, and the service's tasks: authorization is a verdict in `World`.
- Hashing and signatures: arbitrary functions. Nothing is claimed about their strength.
- sysfs scanning, `/proc` parsing and module system calls: their answers are values of `World`, and `hostActions` lists what was asked. An active status does not mean that the module is loaded.
- TLS and URL text checks: `urlAccepted` and `finalUrlSecure` are their verdicts.
- Floating-point rounding of delays: they are reals. Scores are rounded as in the source.
- Unicode lower-casing: only ASCII letters change case in the model, which is exact for the ASCII names that the service uses.
- Message texts: errors, issues and rejections are constructors.
- Mutexes: each locked section is one step in `OperationRuns`. The inventory is borrowed exclusively, so operations on it do not overlap.
- File removals and directory listings: assumed to succeed, in `Disk.Remove` and in the cache. Other disk operations of downloads may fail at any time, and so may the rename, the metadata write and the read of the cache (`FinalizeIo`, `readable`).
- Overflow of sizes and attempt numbers beyond 64 and 32 bits. `Download` asks for a retry limit whose successor fits 32 bits; `RetryPolicy::validate` allows at most 10.
- DriverExecution.DriverExecutionEngine.InstallDriver: asks that the 64-bit counter not wrap during the operation, and so do the other operations of the engine; what a wrap does is exact in `IdsCollideExactly` and in the window of `OperationRuns`.
- RepositoryManifests.VerifyManifest: asks that the clock plus the permitted skew fit 64 bits; beyond that the source overflows.
- ContentRange.DepartsFromStandardExactly: is about printed headers; other spellings that the parser also takes, such as leading plus signs, are not compared with the standard.
- Entries that change in the cache directory between the two listings of one eviction: one listing serves all three passes of `EnforceLimits`.
- Foreign files in the cache directory: only the three kinds are modelled.
- Serialised cache metadata, stale-partial clean-up by age, download progress states: bookkeeping around the modelled state.
- `check_update`, package metadata and source registry validation, repository identifiers, freshness policy bounds: chains of single checks that would add easy members only.
- The inventory scanner and its built-in table: data.
- `expected_digest` of a fetch: the manager always passes none and checks the digest itself.
