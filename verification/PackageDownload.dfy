/**
 Downloads with resume and bounded retries (download.rs).

 Whatever the network and the disk do, a download that succeeds leaves a file with the
 expected digest at the destination.
 */
module PackageDownload {
  import opened Wrappers
  import opened RetryPolicies
  import opened ContentRange
  import opened PackageFetching
  import PackageDigest

  datatype Event =
    | DownloadStarted
    | DownloadRetry(attempt: nat, error: ServiceError)
    | DownloadAbandoned(error: ServiceError)
    | DigestMismatch
    | SizeMismatch
    | DownloadCompleted

  /** How a download ended; only the first and the third kind leave no closing event. */
  datatype Ending = NoDirectory | Abandoned(error: ServiceError) | Unhashed | Decided

  /** The closing event of the checks on a fetched file. */
  ghost function Verdict(result: Result<Path, ServiceError>): Event {
    match result
    case Ok(_) => DownloadCompleted
    case Err(VerificationFailed) => DigestMismatch
    case Err(_) => SizeMismatch
  }

  ghost function ClosingEvents(ending: Ending, result: Result<Path, ServiceError>): seq<Event> {
    match ending
    case Abandoned(error) => [DownloadAbandoned(error)]
    case Decided => [Verdict(result)]
    case _ => []
  }

  /** The 206 reply of a server that continues at `offset`. */
  ghost predicate Continues(response: Response, offset: nat) {
    && response.Reply? && response.status == 206
    && response.contentRange.Some?
    && ValidateContentRange(response.contentRange.value, offset).Some?
  }

  ghost function BodyOf(response: Response): Bytes {
    if response.Reply? then Concat(response.chunks) else []
  }

  /** A successful attempt on that reply joined the old partial file and the body at the destination. */
  ghost predicate Joined(before: map<Path, Bytes>, after: map<Path, Bytes>, partial: Path, destination: Path,
                         offset: nat, response: Response, result: Result<DownloadResult, ServiceError>)
    requires response.Reply?
  {
    result.Ok? ==>
      && partial in before && destination in after
      && after[destination] == before[partial] + Concat(response.chunks)
      && result.value == DownloadResult(destination, offset + |Concat(response.chunks)|)
  }

  /** One round of the loop: the files and the request number before and after, and what came of it. */
  datatype Round = Round(
    before: map<Path, Bytes>,
    after: map<Path, Bytes>,
    request: nat,
    next: nat,
    failure: Option<ServiceError>,
    result: Result<Path, ServiceError>
  )

  class DownloadManager {
    const disk: Disk
    const network: Network
    const hash: Hash
    const config: FetchConfig
    const policy: RetryPolicy
    const partialDirectory: string
    var audit: seq<Event>
    var sleeps: seq<real>

    constructor (disk: Disk, network: Network, hash: Hash, config: FetchConfig, policy: RetryPolicy,
                 partialDirectory: string)
      ensures this.disk == disk && this.network == network && this.hash == hash && this.config == config
      ensures this.policy == policy && this.partialDirectory == partialDirectory
      ensures audit == [] && sleeps == []
    {
      this.disk, this.network, this.hash, this.config := disk, network, hash, config;
      this.policy, this.partialDirectory := policy, partialDirectory;
      audit, sleeps := [], [];
    }

    // ── Partial files ────────────────────────────────────────────

    function PartialPath(digest: PackageDigest.PackageDigest): Path {
      Path(partialDirectory, "dl-" + PackageDigest.ToHex(digest), Some("part"))
    }

    /** Two downloads share a partial file exactly when their digests have the same bytes. */
    lemma PartialPathsExactly(d: PackageDigest.PackageDigest, e: PackageDigest.PackageDigest)
      ensures PartialPath(d) == PartialPath(e) <==> d.value == e.value
    {
      if PartialPath(d) == PartialPath(e) {
        assert PackageDigest.ToHex(d) == PartialPath(d).stem[3..];
        PackageDigest.EncodeInjective(d.value, e.value);
      }
    }

    /** The paths that an attempt may touch. */
    ghost function Touched(digest: PackageDigest.PackageDigest, destination: Path): set<Path> {
      {PartialPath(digest), destination, destination.WithExtension("tmp")}
    }

    /** The reply is complete and its bytes fit the size limit. */
    ghost predicate Fits(response: Response, offset: nat)
      requires response.Reply?
    {
      !response.broken && offset + |Concat(response.chunks)| <= config.maxResponseSize
    }

    /** The request fails, by a transport error or a status error of any code. */
    ghost predicate RefusedAt(request: nat) {
      disk.Reliable() && config.urlAccepted && !network.script(request).Reply?
    }

    ghost predicate AlwaysRefused() {
      forall n :: RefusedAt(n)
    }

    /** The reply passes every check and is complete. */
    ghost predicate WholeAt(request: nat, expectedSize: Option<nat>) {
      && disk.Reliable() && config.urlAccepted
      && Streams(network.script(request), config, expectedSize) && !network.script(request).broken
    }

    /** The reply continues at `offset` and breaks off, within the size limit. */
    ghost predicate BreaksOff(response: Response, offset: nat) {
      Continues(response, offset) && response.broken && WithinLimit(response, offset)
    }

    ghost predicate WithinLimit(response: Response, offset: nat) {
      offset + |BodyOf(response)| <= config.maxResponseSize
    }

    /** The bodies of `n` replies from number `request` on. */
    ghost function Bodies(request: nat, n: nat): Bytes {
      if n == 0 then [] else Bodies(request, n - 1) + BodyOf(network.script(request + n - 1))
    }

    // ── One attempt ──────────────────────────────────────────────

    /** What an attempt makes of a reply that continues at `offset`, which the partial file may have outgrown. */
    ghost predicate Continued(before: map<Path, Bytes>, after: map<Path, Bytes>, partial: Path, destination: Path,
                              offset: nat, response: Response, result: Result<DownloadResult, ServiceError>)
    {
      && response.Reply?
      && Joined(before, after, partial, destination, offset, response, result)
      && (partial !in before ==> result == Err(Internal) && after == before)
      && (disk.Reliable() && partial in before && Fits(response, offset) ==> result.Ok?)
      && (disk.Reliable() && partial in before && WithinLimit(response, offset) && response.broken ==>
            result == Err(DownloadFailed) && after == before[partial := before[partial] + BodyOf(response)])
    }

    /** Reply number `request` starts over, and the request that follows it fails. */
    ghost predicate RestartFails(request: nat) {
      && disk.Reliable() && config.urlAccepted
      && network.script(request).Reply? && network.script(request).status == 200
      && !network.script(request + 1).Reply?
    }

    /**
     Ask for the rest of a partial file.  A valid 206 reply is appended to it and the file
     moved to the destination; a 200 reply starts over; a failed attempt may leave the
     partial file longer than it was.
     */
    method ResumeDownload(partial: Path, offset: nat, destination: Path)
      returns (result: Result<DownloadResult, ServiceError>)
      requires partial != destination && partial != destination.WithExtension("tmp")
      modifies disk, network
      ensures |old(network.requests)| < |network.requests| <= |old(network.requests)| + 2
      ensures network.requests[|old(network.requests)|] == From(offset)
      ensures old(network.requests) <= network.requests
      ensures AgreeOutside(old(disk.files), disk.files,
                           {partial, destination, destination.WithExtension("tmp")})
      ensures result.Err? ==>
                AgreeOutside(old(disk.files), disk.files, {partial, destination.WithExtension("tmp")})
      ensures result.Err? && partial in disk.files ==>
                partial in old(disk.files) && old(disk.files)[partial] <= disk.files[partial]
      ensures result.Ok? ==> destination in disk.files && partial !in disk.files
      ensures result.Ok? && destination != destination.WithExtension("tmp") ==>
                result.value.path == destination || result.value.path !in disk.files
      ensures result.Ok? ==> result.value.path in {destination, destination.WithExtension("tmp")}
      ensures result.Err? ==> result.error in {DownloadFailed, InvalidArgument, Internal}
      ensures !network.script(|old(network.requests)|).Reply? ==> result == Err(DownloadFailed)
      ensures var response := network.script(|old(network.requests)|);
              Continues(response, offset) ==>
                && network.requests == old(network.requests) + [From(offset)]
                && Continued(old(disk.files), disk.files, partial, destination, offset, response, result)
      ensures RestartFails(|old(network.requests)|) ==>
                && result == Err(DownloadFailed) && disk.files == old(disk.files) - {partial}
                && |network.requests| == |old(network.requests)| + 2
    {
      var response := network.Get(From(offset));
      if !response.Reply? {
        return Err(DownloadFailed);
      }
      if response.status == 206 {
        if response.contentRange.None? {
          return Err(DownloadFailed);
        }
        if ValidateContentRange(response.contentRange.value, offset).None? {
          return Err(DownloadFailed);
        }
        result := AppendRest(response, partial, offset, destination);
      } else if response.status == 200 {
        disk.Remove(partial);
        result := PackageFetching.Download(disk, network, config, destination, None);
      } else {
        return Err(DownloadFailed);
      }
    }

    /** No file changed but the partial one, which at most got longer. */
    ghost predicate OnlyGrew(before: map<Path, Bytes>, after: map<Path, Bytes>, partial: Path) {
      && AgreeOutside(before, after, {partial})
      && (partial in after ==> partial in before && before[partial] <= after[partial])
    }

    /** Append the body of a 206 reply to the partial file, within the size limit. */
    method StreamRest(response: Response, partial: Path, offset: nat) returns (total: Result<nat, ServiceError>)
      requires response.Reply? && partial in disk.files
      modifies disk
      ensures total.Ok? ==>
                && disk.files == old(disk.files)[partial := old(disk.files)[partial] + BodyOf(response)]
                && total.value == offset + |BodyOf(response)|
      ensures total.Err? ==> OnlyGrew(old(disk.files), disk.files, partial) && total.error in {InvalidArgument, Internal}
      ensures disk.Reliable() && WithinLimit(response, offset) ==> total.Ok?
    {
      ghost var before := disk.files[partial];
      assert before + Concat(response.chunks[..0]) == before;
      var totalBytes := offset;
      for i := 0 to |response.chunks|
        invariant disk.files == old(disk.files)[partial := before + Concat(response.chunks[..i])]
        invariant totalBytes == offset + |Concat(response.chunks[..i])|
      {
        ConcatNext(response.chunks, i);
        ConcatGrows(response.chunks, i + 1);
        totalBytes := totalBytes + |response.chunks[i]|;
        if totalBytes > config.maxResponseSize {
          return Err(InvalidArgument);
        }
        assert before + Concat(response.chunks[..i]) + response.chunks[i] ==
               before + Concat(response.chunks[..i + 1]);
        var ok := disk.Append(partial, response.chunks[i]);
        if !ok {
          return Err(Internal);
        }
      }
      assert response.chunks[..|response.chunks|] == response.chunks;
      return Ok(totalBytes);
    }

    /** Stream a 206 reply onto the partial file and move it to the destination. */
    method AppendRest(response: Response, partial: Path, offset: nat, destination: Path)
      returns (result: Result<DownloadResult, ServiceError>)
      requires response.Reply? && partial != destination
      modifies disk
      ensures AgreeOutside(old(disk.files), disk.files, {partial, destination})
      ensures result.Err? ==>
                && OnlyGrew(old(disk.files), disk.files, partial)
                && result.error in {DownloadFailed, InvalidArgument, Internal}
      ensures result.Ok? ==> partial !in disk.files
      ensures Continued(old(disk.files), disk.files, partial, destination, offset, response, result)
    {
      var ready := disk.Try();
      if !ready || partial !in disk.files {
        return Err(Internal);
      }
      var total := StreamRest(response, partial, offset);
      if total.Err? {
        return Err(total.error);
      }
      if response.broken {
        return Err(DownloadFailed);
      }
      var ok := disk.Try();
      if !ok {
        return Err(Internal);
      }
      ok := disk.Rename(partial, destination);
      if !ok {
        return Err(Internal);
      }
      return Ok(DownloadResult(destination, total.value));
    }

    method PerformDownloadWithResume(digest: PackageDigest.PackageDigest, destination: Path,
                                     expectedSize: Option<nat>, resumeOffset: Option<nat>)
      returns (result: Result<DownloadResult, ServiceError>)
      requires PartialPath(digest) != destination
      modifies disk, network
      ensures |old(network.requests)| <= |network.requests| <= |old(network.requests)| + 2
      ensures old(network.requests) <= network.requests
      ensures AgreeOutside(old(disk.files), disk.files, Touched(digest, destination))
      ensures result.Err? ==>
                AgreeOutside(old(disk.files), disk.files, {PartialPath(digest), destination.WithExtension("tmp")})
      ensures result.Err? ==> result.error in {DownloadFailed, InvalidArgument, Internal}
      ensures result.Ok? ==> destination in disk.files
      ensures result.Ok? ==> result.value.path == destination || result.value.path !in disk.files
      ensures RefusedAt(|old(network.requests)|) ==> result == Err(DownloadFailed)
      ensures (resumeOffset.None? || resumeOffset.value == 0) && WholeAt(|old(network.requests)|, expectedSize) ==>
                var body := BodyOf(network.script(|old(network.requests)|));
                result.Ok? && disk.files[destination] == body && result.value.actualSize == |body|
      ensures resumeOffset.Some? && resumeOffset.value > 0 ==>
                var offset := resumeOffset.value;
                var partial := PartialPath(digest);
                var response := network.script(|old(network.requests)|);
                && |network.requests| > |old(network.requests)|
                && network.requests[|old(network.requests)|] == From(offset)
                && (Continues(response, offset) ==>
                      && network.requests == old(network.requests) + [From(offset)]
                      && Continued(old(disk.files), disk.files, partial, destination, offset, response, result))
                && (RestartFails(|old(network.requests)|) ==>
                      && result == Err(DownloadFailed) && disk.files == old(disk.files) - {partial}
                      && |network.requests| == |old(network.requests)| + 2)
    {
      if resumeOffset.Some? && resumeOffset.value > 0 {
        result := ResumeDownload(PartialPath(digest), resumeOffset.value, destination);
      } else {
        result := PackageFetching.Download(disk, network, config, destination, expectedSize);
      }
    }

    // ── The whole download ───────────────────────────────────────

    method Record(event: Event)
      modifies this`audit
      ensures audit == old(audit) + [event]
    {
      audit := audit + [event];
    }

    /** The retry events of a download: numbered from 1, each after a transient error. */
    ghost predicate RetryEvents(events: seq<Event>) {
      forall k | 0 <= k < |events| ::
        events[k].DownloadRetry? && events[k].attempt == k + 1 && events[k].error in {DownloadFailed, BackendUnavailable}
    }

    /** The verdict on a content and the size that its last attempt reported. */
    ghost function Judged(digest: PackageDigest.PackageDigest, destination: Path, expectedSize: Option<nat>,
                          content: Bytes, reported: nat): Result<Path, ServiceError>
    {
      if !HasDigest(hash, digest, content) then Err(VerificationFailed)
      else if expectedSize.Some? && expectedSize.value != reported then Err(InvalidArgument)
      else Ok(destination)
    }

    /** On a reliable disk a fetched content is judged, or left where it is when its algorithm is not supported. */
    ghost predicate Settled(digest: PackageDigest.PackageDigest, destination: Path, expectedSize: Option<nat>,
                            content: Bytes, after: map<Path, Bytes>, result: Result<Path, ServiceError>)
    {
      if AlgorithmSupported(digest.algorithm) then
        && result == Judged(digest, destination, expectedSize, content, |content|)
        && (result.Ok? ==> destination in after && after[destination] == content)
      else
        result == Err(NotSupported) && destination in after && after[destination] == content
    }

    /** Check the digest and the size of the fetched file; a file that fails either is removed. */
    method AcceptFetched(digest: PackageDigest.PackageDigest, destination: Path, expectedSize: Option<nat>,
                         fetched: DownloadResult)
      returns (result: Result<Path, ServiceError>, ghost hashed: bool)
      requires PartialPath(digest) != destination && destination in disk.files
      requires fetched.path == destination || fetched.path !in disk.files
      modifies disk, this`audit
      ensures AgreeOutside(old(disk.files), disk.files, {PartialPath(digest), destination})
      ensures result.Ok? ==>
                && result.value == destination && destination in disk.files && PartialPath(digest) !in disk.files
                && disk.files[destination] == old(disk.files)[destination]
                && HasDigest(hash, digest, disk.files[destination])
                && (expectedSize.Some? ==> expectedSize.value == fetched.actualSize)
      ensures result == Err(VerificationFailed) ==> !HasDigest(hash, digest, old(disk.files)[destination])
      ensures result.Err? && hashed ==>
                && destination !in disk.files
                && ((result.error.VerificationFailed? && PartialPath(digest) !in disk.files)
                    || result.error.InvalidArgument?)
      ensures hashed <==> AlgorithmSupported(digest.algorithm) && !disk.fails(old(disk.clock))
      ensures audit == old(audit) + (if hashed then [Verdict(result)] else [])
      ensures !hashed ==>
                && result == Err(if AlgorithmSupported(digest.algorithm) then Internal else NotSupported)
                && disk.files == old(disk.files)
      ensures disk.Reliable() && AlgorithmSupported(digest.algorithm) ==>
                result == Judged(digest, destination, expectedSize, old(disk.files)[destination], fetched.actualSize)
    {
      var verifiedPath := if fetched.path in disk.files then fetched.path else destination;
      // The rename that would follow when these differ is never needed.
      assert verifiedPath == destination;
      var actual := HashFile(disk, hash, digest.algorithm, verifiedPath);
      if actual.Err? {
        return Err(actual.error), false;
      }
      hashed := true;
      PackageDigest.MatchesIsEquality(digest, actual.value);
      CanonicalExactly(hash, digest, disk.files[verifiedPath]);
      if !PackageDigest.Matches(digest, actual.value) {
        Record(DigestMismatch);
        disk.Remove(verifiedPath);
        disk.Remove(PartialPath(digest));
        return Err(VerificationFailed), true;
      }
      if expectedSize.Some? && expectedSize.value != fetched.actualSize {
        Record(SizeMismatch);
        disk.Remove(verifiedPath);
        return Err(InvalidArgument), true;
      }
      disk.Remove(PartialPath(digest));
      Record(DownloadCompleted);
      return Ok(destination), true;
    }

    ghost predicate BreaksAt(request: nat, offset: nat) {
      BreaksOff(network.script(request), offset)
    }

    ghost predicate ServesRestAt(request: nat, offset: nat) {
      Continues(network.script(request), offset) && Fits(network.script(request), offset)
    }

    /** From request number `request` on, `breaks` replies break off and the next is complete, all from `offset`. */
    ghost predicate BreaksThenServes(request: nat, breaks: nat, offset: nat) {
      forall j | request <= j <= request + breaks ::
        if j < request + breaks then BreaksAt(j, offset) else ServesRestAt(j, offset)
    }

    /** A download of a supported digest on a reliable disk, with something to resume. */
    ghost predicate Resumable(digest: PackageDigest.PackageDigest, files: map<Path, Bytes>) {
      && disk.Reliable() && AlgorithmSupported(digest.algorithm)
      && PartialPath(digest) in files && |files[PartialPath(digest)]| > 0
    }

    /** What `n` broken replies from number `request` on make of the partial file among `files`. */
    ghost function Broken(files: map<Path, Bytes>, partial: Path, request: nat, n: nat): map<Path, Bytes> {
      if partial !in files then files else files[partial := files[partial] + Bodies(request, n)]
    }

    lemma NothingBroken(files: map<Path, Bytes>, partial: Path, request: nat)
      ensures Broken(files, partial, request, 0) == files
    {
      if partial in files {
        assert files[partial] + [] == files[partial];
      }
    }

    lemma OneMoreBroken(files: map<Path, Bytes>, partial: Path, request: nat, n: nat)
      requires partial in files
      ensures var before := Broken(files, partial, request, n);
              && partial in before
              && before[partial] + BodyOf(network.script(request + n)) == files[partial] + Bodies(request, n + 1)
              && before[partial := before[partial] + BodyOf(network.script(request + n))] ==
                 Broken(files, partial, request, n + 1)
    {
    }

    /** Reply `request` starts over, which removes the partial file, the next fails, the third continues at `offset`. */
    ghost predicate LosesPartial(request: nat, offset: nat) {
      RestartFails(request) && Continues(network.script(request + 2), offset)
    }

    /** The size of the partial file, unless it is missing or cannot be examined. */
    method MeasurePartial(digest: PackageDigest.PackageDigest) returns (size: Option<nat>)
      modifies disk`clock
      ensures size.Some? ==> PartialPath(digest) in disk.files && size.value == |disk.files[PartialPath(digest)]|
      ensures disk.Reliable() && PartialPath(digest) in disk.files ==> size.Some?
    {
      size := None;
      if PartialPath(digest) in disk.files {
        var readable := disk.Try();
        if readable {
          size := Some(|disk.files[PartialPath(digest)]|);
        }
      }
    }

    /** What a round does that resumes at `offset`, with request number `request` and those before `next`. */
    ghost predicate Resumed(digest: PackageDigest.PackageDigest, destination: Path, expectedSize: Option<nat>,
                            offset: nat, before: map<Path, Bytes>, after: map<Path, Bytes>, request: nat, next: nat,
                            failure: Option<ServiceError>, result: Result<Path, ServiceError>)
    {
      var partial, response := PartialPath(digest), network.script(request);
      && (Continues(response, offset) ==> next == request + 1)
      && (Continues(response, offset) && partial !in before ==> failure == Some(Internal) && after == before)
      && (disk.Reliable() && partial in before && BreaksOff(response, offset) ==>
            failure == Some(DownloadFailed) && after == before[partial := before[partial] + BodyOf(response)])
      && (disk.Reliable() && AlgorithmSupported(digest.algorithm) && partial in before
          && Continues(response, offset) && Fits(response, offset) ==>
            var whole := before[partial] + BodyOf(response);
            && failure.None?
            && result == Judged(digest, destination, expectedSize, whole, offset + |BodyOf(response)|)
            && (result.Ok? ==> destination in after && after[destination] == whole))
      && (RestartFails(request) ==>
            failure == Some(DownloadFailed) && after == before - {partial} && next == request + 2)
    }

    /** One round of the loop: an attempt and, if it fetched a file, its checks. */
    method Attempt(digest: PackageDigest.PackageDigest, destination: Path, expectedSize: Option<nat>,
                   existingSize: Option<nat>)
      returns (failure: Option<ServiceError>, result: Result<Path, ServiceError>, ghost hashed: bool)
      requires PartialPath(digest) != destination
      modifies disk, network, this`audit
      ensures old(network.requests) <= network.requests && |network.requests| <= |old(network.requests)| + 2
      ensures failure.Some? ==>
                && hashed && audit == old(audit)
                && AgreeOutside(old(disk.files), disk.files, {PartialPath(digest), destination.WithExtension("tmp")})
                && failure.value in {DownloadFailed, InvalidArgument, Internal}
      ensures AgreeOutside(old(disk.files), disk.files, Touched(digest, destination))
      ensures RefusedAt(|old(network.requests)|) ==> failure == Some(DownloadFailed)
      ensures failure.None? ==> audit == old(audit) + (if hashed then [Verdict(result)] else [])
      ensures failure.None? && hashed ==> AlgorithmSupported(digest.algorithm)
      ensures failure.None? && disk.Reliable() ==> (hashed <==> AlgorithmSupported(digest.algorithm))
      ensures (existingSize.None? || existingSize.value == 0) && WholeAt(|old(network.requests)|, expectedSize) ==>
                failure.None? && Settled(digest, destination, expectedSize,
                                         BodyOf(network.script(|old(network.requests)|)), disk.files, result)
      ensures failure.None? && result.Ok? ==>
                && result.value == destination && destination in disk.files
                && HasDigest(hash, digest, disk.files[destination]) && PartialPath(digest) !in disk.files
      ensures failure.None? && result == Err(VerificationFailed) ==>
                destination !in disk.files && PartialPath(digest) !in disk.files
      ensures failure.None? && result.Err? && hashed ==> destination !in disk.files
      ensures failure.None? && !hashed ==>
                && result == Err(if AlgorithmSupported(digest.algorithm) then Internal else NotSupported)
                && destination in disk.files
      ensures existingSize.Some? && existingSize.value > 0 ==>
                Resumed(digest, destination, expectedSize, existingSize.value, old(disk.files), disk.files,
                        |old(network.requests)|, |network.requests|, failure, result)
    {
      hashed := true;
      var fetched := PerformDownloadWithResume(digest, destination, expectedSize, existingSize);
      match fetched {
        case Err(error) =>
          failure, result := Some(error), Err(error);
        case Ok(file) =>
          failure := None;
          result, hashed := AcceptFetched(digest, destination, expectedSize, file);
      }
    }

    // ── Rounds ───────────────────────────────────────────────────

    /** The rounds lead from `files` and request number `first` to `after` and `next`. */
    ghost predicate Chained(rounds: seq<Round>, files: map<Path, Bytes>, first: nat,
                            after: map<Path, Bytes>, next: nat)
      decreases |rounds|
    {
      if rounds == [] then files == after && first == next
      else
        var last := rounds[|rounds| - 1];
        last.after == after && last.next == next && Chained(rounds[..|rounds| - 1], files, first, last.before, last.request)
    }

    lemma OneMoreRound(rounds: seq<Round>, files: map<Path, Bytes>, first: nat, r: Round)
      requires Chained(rounds, files, first, r.before, r.request)
      ensures Chained(rounds + [r], files, first, r.after, r.next)
      ensures RefusalsFail(rounds) && RefusalFails(r) ==> RefusalsFail(rounds + [r])
      ensures AllTransient(rounds) ==> EarlierTransient(rounds + [r])
      ensures AllTransient(rounds) && Transient(r) ==> AllTransient(rounds + [r])
    {
      assert (rounds + [r])[..|rounds|] == rounds;
    }

    lemma OneMoreAsked(digest: PackageDigest.PackageDigest, destination: Path, expectedSize: Option<nat>,
                       existingSize: Option<nat>, rounds: seq<Round>, r: Round)
      ensures AllAsked(digest, destination, expectedSize, existingSize, rounds)
              && RoundAsked(digest, destination, expectedSize, existingSize, r) ==>
                AllAsked(digest, destination, expectedSize, existingSize, rounds + [r])
    {
    }

    /** A refused request fails its round as a download failure. */
    ghost predicate RefusalFails(r: Round) {
      RefusedAt(r.request) ==> r.failure == Some(DownloadFailed)
    }

    ghost predicate RefusalsFail(rounds: seq<Round>) {
      forall k | 0 <= k < |rounds| :: RefusalFails(rounds[k])
    }

    /** Whatever its status, a refused request is retried exactly while retries are left. */
    lemma RefusalIsRetried(rounds: seq<Round>, k: nat)
      requires Exhausted(rounds) && RefusalsFail(rounds) && k < |rounds| && RefusedAt(rounds[k].request)
      ensures k < policy.maxRetries <==> k + 1 < |rounds|
    {
      assert RefusalFails(rounds[k]);
    }

    ghost predicate AllTransient(rounds: seq<Round>) {
      forall k | 0 <= k < |rounds| :: Transient(rounds[k])
    }

    ghost predicate EarlierTransient(rounds: seq<Round>) {
      forall k | 0 <= k < |rounds| - 1 :: Transient(rounds[k])
    }

    /** A round resumes when something was there to resume, and fetches from the start otherwise. */
    ghost predicate RoundAsked(digest: PackageDigest.PackageDigest, destination: Path, expectedSize: Option<nat>,
                               existingSize: Option<nat>, r: Round)
    {
      if existingSize.Some? && existingSize.value > 0
      then RoundResumed(digest, destination, expectedSize, existingSize.value, r)
      else RoundFetched(digest, destination, expectedSize, r)
    }

    ghost predicate AllAsked(digest: PackageDigest.PackageDigest, destination: Path, expectedSize: Option<nat>,
                             existingSize: Option<nat>, rounds: seq<Round>)
    {
      forall k | 0 <= k < |rounds| :: RoundAsked(digest, destination, expectedSize, existingSize, rounds[k])
    }

    /** A round that fetches from the start settles a complete reply. */
    ghost predicate RoundFetched(digest: PackageDigest.PackageDigest, destination: Path, expectedSize: Option<nat>,
                                 r: Round)
    {
      WholeAt(r.request, expectedSize) ==>
        && r.failure.None?
        && Settled(digest, destination, expectedSize, BodyOf(network.script(r.request)), r.after, r.result)
    }

    /** Without anything to resume, a complete first reply is the only one. */
    lemma FirstReplySettles(digest: PackageDigest.PackageDigest, destination: Path, expectedSize: Option<nat>,
                            existingSize: Option<nat>, rounds: seq<Round>, files: map<Path, Bytes>, first: nat,
                            after: map<Path, Bytes>, next: nat)
      requires Chained(rounds, files, first, after, next) && Exhausted(rounds)
      requires AllAsked(digest, destination, expectedSize, existingSize, rounds)
      requires existingSize.None? || existingSize.value == 0
      ensures WholeAt(first, expectedSize) ==>
                && |rounds| == 1 && rounds[0].failure.None?
                && Settled(digest, destination, expectedSize, BodyOf(network.script(first)), after, rounds[0].result)
    {
      ChainedInOrder(rounds, files, first, after, next);
      assert RoundAsked(digest, destination, expectedSize, existingSize, rounds[0]);
      if rounds[0].failure.None? {
        NotRetried(rounds, 0);
      }
    }

    /** When every request is refused, all retries are used up. */
    lemma RefusalsExhaust(rounds: seq<Round>)
      requires Exhausted(rounds) && RefusalsFail(rounds)
      ensures AlwaysRefused() ==>
                |rounds| == policy.maxRetries + 1 && rounds[|rounds| - 1].failure == Some(DownloadFailed)
    {
      var last := rounds[|rounds| - 1];
      assert RefusalFails(last);
      assert AlwaysRefused() ==> RefusedAt(last.request);
    }

    /** Each is a round that resumes at `offset`. */
    ghost predicate AllResumed(digest: PackageDigest.PackageDigest, destination: Path, expectedSize: Option<nat>,
                               offset: nat, rounds: seq<Round>)
    {
      forall k | 0 <= k < |rounds| :: RoundResumed(digest, destination, expectedSize, offset, rounds[k])
    }

    ghost predicate RoundResumed(digest: PackageDigest.PackageDigest, destination: Path, expectedSize: Option<nat>,
                                 offset: nat, r: Round)
    {
      Resumed(digest, destination, expectedSize, offset, r.before, r.after, r.request, r.next, r.failure, r.result)
    }

    lemma AskedAreResumed(digest: PackageDigest.PackageDigest, destination: Path, expectedSize: Option<nat>,
                          offset: nat, rounds: seq<Round>)
      requires offset > 0 && AllAsked(digest, destination, expectedSize, Some(offset), rounds)
      ensures AllResumed(digest, destination, expectedSize, offset, rounds)
    {
      forall k | 0 <= k < |rounds| ensures RoundResumed(digest, destination, expectedSize, offset, rounds[k]) {
        assert RoundAsked(digest, destination, expectedSize, Some(offset), rounds[k]);
      }
    }

    lemma BreakingRound(digest: PackageDigest.PackageDigest, destination: Path, expectedSize: Option<nat>,
                        offset: nat, r: Round)
      requires RoundResumed(digest, destination, expectedSize, offset, r)
      requires disk.Reliable() && PartialPath(digest) in r.before && BreaksAt(r.request, offset)
      ensures r.failure == Some(DownloadFailed) && r.next == r.request + 1
      ensures var partial := PartialPath(digest);
              r.after == r.before[partial := r.before[partial] + BodyOf(network.script(r.request))]
    {
    }

    lemma LosingRounds(digest: PackageDigest.PackageDigest, destination: Path, expectedSize: Option<nat>,
                       offset: nat, r: Round, s: Round)
      requires RoundResumed(digest, destination, expectedSize, offset, r)
      requires RoundResumed(digest, destination, expectedSize, offset, s)
      requires LosesPartial(r.request, offset)
      ensures r.failure == Some(DownloadFailed)
      ensures s.before == r.after && s.request == r.next ==>
                s.failure == Some(Internal) && PartialPath(digest) !in s.after
    {
    }

    /** Every round but the last failed with a transient error; the last did not, or there are no more retries. */
    ghost predicate Exhausted(rounds: seq<Round>) {
      && 0 < |rounds| <= policy.maxRetries + 1
      && EarlierTransient(rounds)
      && (|rounds| <= policy.maxRetries ==> !Transient(rounds[|rounds| - 1]))
    }

    ghost predicate Transient(r: Round) {
      r.failure.Some? && ShouldRetry(policy, r.failure.value)
    }

    /** Each round starts where the one before it ended. */
    ghost predicate InOrder(rounds: seq<Round>, files: map<Path, Bytes>, first: nat) {
      && (rounds != [] ==> rounds[0].before == files && rounds[0].request == first)
      && forall k | 0 < k < |rounds| :: rounds[k].before == rounds[k - 1].after && rounds[k].request == rounds[k - 1].next
    }

    lemma {:induction false} ChainedInOrder(rounds: seq<Round>, files: map<Path, Bytes>, first: nat,
                                            after: map<Path, Bytes>, next: nat)
      requires Chained(rounds, files, first, after, next)
      ensures InOrder(rounds, files, first)
      ensures rounds != [] ==> rounds[|rounds| - 1].after == after
    {
      if rounds != [] {
        var before, last := rounds[..|rounds| - 1], rounds[|rounds| - 1];
        ChainedInOrder(before, files, first, last.before, last.request);
        ChainEnds(before, files, first, last.before, last.request);
      }
    }

    lemma ChainEnds(rounds: seq<Round>, files: map<Path, Bytes>, first: nat, after: map<Path, Bytes>, next: nat)
      requires Chained(rounds, files, first, after, next)
      ensures if rounds == [] then files == after && first == next
              else rounds[|rounds| - 1].after == after && rounds[|rounds| - 1].next == next
    {
    }

    /** A round on a reply that breaks off makes the partial file longer and is worth a retry. */
    ghost predicate Grows(r: Round, partial: Path) {
      && r.failure == Some(DownloadFailed) && r.next == r.request + 1
      && partial in r.before
      && r.after == r.before[partial := r.before[partial] + BodyOf(network.script(r.request))]
    }

    ghost predicate GrowsOnBreaks(rounds: seq<Round>, partial: Path, offset: nat) {
      forall k | 0 <= k < |rounds| && BreaksAt(rounds[k].request, offset) && partial in rounds[k].before ::
        Grows(rounds[k], partial)
    }

    lemma ResumedGrow(digest: PackageDigest.PackageDigest, destination: Path, expectedSize: Option<nat>,
                      offset: nat, rounds: seq<Round>)
      requires disk.Reliable() && AllResumed(digest, destination, expectedSize, offset, rounds)
      ensures GrowsOnBreaks(rounds, PartialPath(digest), offset)
    {
      forall k | 0 <= k < |rounds| && BreaksAt(rounds[k].request, offset) && PartialPath(digest) in rounds[k].before
        ensures Grows(rounds[k], PartialPath(digest))
      {
        BreakingRound(digest, destination, expectedSize, offset, rounds[k]);
      }
    }

    /** A round on a complete reply joins its body to the partial file and is judged. */
    ghost predicate IsJudged(digest: PackageDigest.PackageDigest, destination: Path, expectedSize: Option<nat>,
                             offset: nat, r: Round)
    {
      var partial, body := PartialPath(digest), BodyOf(network.script(r.request));
      && r.failure.None? && partial in r.before
      && r.result == Judged(digest, destination, expectedSize, r.before[partial] + body, offset + |body|)
      && (r.result.Ok? ==> destination in r.after && r.after[destination] == r.before[partial] + body)
    }

    ghost predicate JudgedOnServes(digest: PackageDigest.PackageDigest, destination: Path, expectedSize: Option<nat>,
                                   offset: nat, rounds: seq<Round>)
    {
      forall k | 0 <= k < |rounds| :: JudgedIfServed(digest, destination, expectedSize, offset, rounds[k])
    }

    ghost predicate JudgedIfServed(digest: PackageDigest.PackageDigest, destination: Path, expectedSize: Option<nat>,
                                   offset: nat, r: Round)
    {
      ServesRestAt(r.request, offset) && PartialPath(digest) in r.before ==>
        IsJudged(digest, destination, expectedSize, offset, r)
    }

    lemma ResumedJudged(digest: PackageDigest.PackageDigest, destination: Path, expectedSize: Option<nat>,
                        offset: nat, rounds: seq<Round>)
      requires disk.Reliable() && AlgorithmSupported(digest.algorithm)
      requires AllResumed(digest, destination, expectedSize, offset, rounds)
      ensures JudgedOnServes(digest, destination, expectedSize, offset, rounds)
    {
    }

    /** Broken rounds only make the partial file longer. */
    lemma {:induction false} RoundAfterBreaks(rounds: seq<Round>, partial: Path, offset: nat,
                                              files: map<Path, Bytes>, first: nat, k: nat)
      requires InOrder(rounds, files, first) && GrowsOnBreaks(rounds, partial, offset)
      requires partial in files && k < |rounds|
      requires forall j | first <= j < first + k :: BreaksAt(j, offset)
      ensures rounds[k].request == first + k
      ensures rounds[k].before == Broken(files, partial, first, k)
      decreases k
    {
      if k == 0 {
        NothingBroken(files, partial, first);
      } else {
        RoundAfterBreaks(rounds, partial, offset, files, first, k - 1);
        OneMoreBroken(files, partial, first, k - 1);
        assert Grows(rounds[k - 1], partial);
        GrowsBroken(rounds[k - 1], partial, files, first, k - 1);
      }
    }

    /** A broken round leads from one broken state to the next. */
    lemma GrowsBroken(r: Round, partial: Path, files: map<Path, Bytes>, first: nat, n: nat)
      requires partial in files && r.request == first + n && r.before == Broken(files, partial, first, n)
      ensures Grows(r, partial) ==> r.next == first + n + 1 && r.after == Broken(files, partial, first, n + 1)
    {
      OneMoreBroken(files, partial, first, n);
      SameBody(r.request, first + n);
    }

    lemma SameBody(a: nat, b: nat)
      requires a == b
      ensures BodyOf(network.script(a)) == BodyOf(network.script(b))
    {
    }

    lemma BreakIsTransient(rounds: seq<Round>, partial: Path, offset: nat,
                           files: map<Path, Bytes>, first: nat, k: nat)
      requires InOrder(rounds, files, first) && GrowsOnBreaks(rounds, partial, offset)
      requires partial in files && k < |rounds| && policy.maxRetries > 0
      requires forall j | first <= j <= first + k :: BreaksAt(j, offset)
      ensures Transient(rounds[k])
    {
      RoundAfterBreaks(rounds, partial, offset, files, first, k);
      OneMoreBroken(files, partial, first, k);
      assert Grows(rounds[k], partial);
    }

    /** The rounds do not end before the reply that is complete, and meet it with all that landed before. */
    lemma ReachesServing(rounds: seq<Round>, partial: Path, offset: nat,
                         files: map<Path, Bytes>, first: nat, breaks: nat)
      requires InOrder(rounds, files, first) && GrowsOnBreaks(rounds, partial, offset) && Exhausted(rounds)
      requires partial in files && BreaksThenServes(first, breaks, offset) && breaks <= policy.maxRetries
      ensures breaks < |rounds|
      ensures rounds[breaks].request == first + breaks && partial in rounds[breaks].before
      ensures rounds[breaks].before[partial] == files[partial] + Bodies(first, breaks)
    {
      if |rounds| <= breaks {
        BreakIsTransient(rounds, partial, offset, files, first, |rounds| - 1);
      }
      RoundAfterBreaks(rounds, partial, offset, files, first, breaks);
    }

    lemma NotRetried(rounds: seq<Round>, k: nat)
      requires Exhausted(rounds) && k < |rounds| && rounds[k].failure.None?
      ensures k == |rounds| - 1
    {
      assert !Transient(rounds[k]);
    }

    /** What `breaks` broken replies and a complete one lead to: all their bodies, joined. */
    ghost predicate JoinsAll(digest: PackageDigest.PackageDigest, destination: Path, expectedSize: Option<nat>,
                             start: Bytes, first: nat, breaks: nat, rounds: nat, after: map<Path, Bytes>,
                             result: Result<Path, ServiceError>)
    {
      var last := BodyOf(network.script(first + breaks));
      var whole := start + Bodies(first, breaks) + last;
      && rounds == breaks + 1
      && result == Judged(digest, destination, expectedSize, whole, |start| + |last|)
      && (result.Ok? ==> destination in after && after[destination] == whole)
    }

    /**
     Every resume asks from the first offset and appends to all that landed before: the
     content that is judged holds the bodies of the broken replies and of the complete one.
     The size that is judged counts only the last of them.
     */
    lemma BrokenBodiesAreJoined(digest: PackageDigest.PackageDigest, destination: Path, expectedSize: Option<nat>,
                                rounds: seq<Round>, files: map<Path, Bytes>, first: nat,
                                after: map<Path, Bytes>, next: nat, breaks: nat)
      requires Resumable(digest, files) && Chained(rounds, files, first, after, next) && Exhausted(rounds)
      requires AllResumed(digest, destination, expectedSize, |files[PartialPath(digest)]|, rounds)
      requires BreaksThenServes(first, breaks, |files[PartialPath(digest)]|) && breaks <= policy.maxRetries
      ensures JoinsAll(digest, destination, expectedSize, files[PartialPath(digest)], first, breaks, |rounds|,
                       after, rounds[|rounds| - 1].result)
      ensures rounds[|rounds| - 1].failure.None?
    {
      var start := files[PartialPath(digest)];
      ChainedInOrder(rounds, files, first, after, next);
      ResumedGrow(digest, destination, expectedSize, |start|, rounds);
      ResumedJudged(digest, destination, expectedSize, |start|, rounds);
      ReachesServing(rounds, PartialPath(digest), |start|, files, first, breaks);
      RoundsJoin(digest, destination, expectedSize, rounds, start, first, breaks);
      NotRetried(rounds, breaks);
    }

    lemma ServedIsJudged(digest: PackageDigest.PackageDigest, destination: Path, expectedSize: Option<nat>,
                         offset: nat, rounds: seq<Round>, first: nat, breaks: nat)
      requires JudgedOnServes(digest, destination, expectedSize, offset, rounds)
      requires breaks < |rounds| && rounds[breaks].request == first + breaks
      requires PartialPath(digest) in rounds[breaks].before
      ensures BreaksThenServes(first, breaks, offset) ==>
                IsJudged(digest, destination, expectedSize, offset, rounds[breaks])
    {
      assert JudgedIfServed(digest, destination, expectedSize, offset, rounds[breaks]);
    }

    lemma JudgedIsJoined(digest: PackageDigest.PackageDigest, destination: Path, expectedSize: Option<nat>,
                         start: Bytes, first: nat, breaks: nat, r: Round)
      requires r.request == first + breaks
      requires PartialPath(digest) in r.before && r.before[PartialPath(digest)] == start + Bodies(first, breaks)
      ensures IsJudged(digest, destination, expectedSize, |start|, r) ==>
                && JoinsAll(digest, destination, expectedSize, start, first, breaks, breaks + 1, r.after, r.result)
                && r.failure.None?
    {
      assert network.script(first + breaks) == network.script(r.request);
    }

    lemma RoundsJoin(digest: PackageDigest.PackageDigest, destination: Path, expectedSize: Option<nat>,
                     rounds: seq<Round>, start: Bytes, first: nat, breaks: nat)
      requires JudgedOnServes(digest, destination, expectedSize, |start|, rounds) && breaks < |rounds|
      requires rounds[breaks].request == first + breaks && PartialPath(digest) in rounds[breaks].before
      requires rounds[breaks].before[PartialPath(digest)] == start + Bodies(first, breaks)
      ensures BreaksThenServes(first, breaks, |start|) ==>
                && JoinsAll(digest, destination, expectedSize, start, first, breaks, breaks + 1,
                            rounds[breaks].after, rounds[breaks].result)
                && rounds[breaks].failure.None?
    {
      ServedIsJudged(digest, destination, expectedSize, |start|, rounds, first, breaks);
      JudgedIsJoined(digest, destination, expectedSize, start, first, breaks, rounds[breaks]);
    }

    /** A reply that starts over removes the partial file: a later reply that continues it finds nothing to extend. */
    lemma RestartLosesPartial(digest: PackageDigest.PackageDigest, destination: Path, expectedSize: Option<nat>,
                              rounds: seq<Round>, files: map<Path, Bytes>, first: nat,
                              after: map<Path, Bytes>, next: nat)
      requires Resumable(digest, files) && Chained(rounds, files, first, after, next) && Exhausted(rounds)
      requires AllResumed(digest, destination, expectedSize, |files[PartialPath(digest)]|, rounds)
      requires LosesPartial(first, |files[PartialPath(digest)]|) && policy.maxRetries > 0
      ensures |rounds| == 2 && rounds[1].failure == Some(Internal) && PartialPath(digest) !in after
    {
      ChainedInOrder(rounds, files, first, after, next);
      var offset := |files[PartialPath(digest)]|;
      LosingRounds(digest, destination, expectedSize, offset, rounds[0], rounds[0]);
      assert |rounds| > 1;
      LosingRounds(digest, destination, expectedSize, offset, rounds[0], rounds[1]);
      assert !Transient(rounds[1]);
    }

    /** Both results for all numbers of breaks. */
    lemma ResumeFacts(digest: PackageDigest.PackageDigest, destination: Path, expectedSize: Option<nat>,
                      rounds: seq<Round>, files: map<Path, Bytes>, first: nat, after: map<Path, Bytes>, next: nat)
      requires Chained(rounds, files, first, after, next) && Exhausted(rounds)
      requires Resumable(digest, files) ==>
                 AllResumed(digest, destination, expectedSize, |files[PartialPath(digest)]|, rounds)
      ensures Resumable(digest, files) ==>
                var start, last := files[PartialPath(digest)], rounds[|rounds| - 1];
                && (forall breaks: nat | breaks <= policy.maxRetries && BreaksThenServes(first, breaks, |start|) ::
                      JoinsAll(digest, destination, expectedSize, start, first, breaks, |rounds|, after, last.result)
                      && last.failure.None?)
                && (policy.maxRetries > 0 && LosesPartial(first, |start|) ==>
                      last.failure == Some(Internal) && |rounds| == 2 && PartialPath(digest) !in after)
    {
      if Resumable(digest, files) {
        var start := files[PartialPath(digest)];
        forall breaks: nat | breaks <= policy.maxRetries && BreaksThenServes(first, breaks, |start|)
          ensures JoinsAll(digest, destination, expectedSize, start, first, breaks, |rounds|, after,
                           rounds[|rounds| - 1].result) && rounds[|rounds| - 1].failure.None?
        {
          BrokenBodiesAreJoined(digest, destination, expectedSize, rounds, files, first, after, next, breaks);
        }
        if policy.maxRetries > 0 && LosesPartial(first, |start|) {
          RestartLosesPartial(digest, destination, expectedSize, rounds, files, first, after, next);
        }
      }
    }

    // ── The loop ─────────────────────────────────────────────────

    /** What holds of the files and the result, whatever the network and the disk did. */
    ghost predicate SafeOutcome(digest: PackageDigest.PackageDigest, destination: Path,
                                before: map<Path, Bytes>, after: map<Path, Bytes>,
                                result: Result<Path, ServiceError>, ending: Ending)
    {
      && AgreeOutside(before, after, Touched(digest, destination))
      && (result.Ok? ==>
            && result.value == destination && destination in after
            && AlgorithmSupported(digest.algorithm)
            && HasDigest(hash, digest, after[destination]) && PartialPath(digest) !in after)
      && (result == Err(VerificationFailed) ==> destination !in after && PartialPath(digest) !in after)
      && (result.Err? && !ending.Unhashed? && destination.extension != Some("tmp") ==>
            || destination !in after
            || (destination in before && after[destination] == before[destination]))
      && (ending.Unhashed? ==>
            && result == Err(if AlgorithmSupported(digest.algorithm) then Internal else NotSupported)
            && destination in after)
    }

    /** On a reliable disk, a file that was fetched is not hashed exactly when its algorithm is not supported. */
    ghost predicate EndsAsSupported(digest: PackageDigest.PackageDigest, ending: Ending) {
      && (ending.Decided? ==> AlgorithmSupported(digest.algorithm))
      && (disk.Reliable() ==> !ending.NoDirectory? && (ending.Unhashed? ==> !AlgorithmSupported(digest.algorithm)))
    }

    /** On a reliable disk the trail closes, with one event, exactly for supported algorithms and abandoned downloads. */
    lemma ClosesExactly(digest: PackageDigest.PackageDigest, ending: Ending, result: Result<Path, ServiceError>)
      requires disk.Reliable() && EndsAsSupported(digest, ending)
      ensures |ClosingEvents(ending, result)| == if AlgorithmSupported(digest.algorithm) || ending.Abandoned? then 1 else 0
    {
    }

    /** What holds after a round, whether it is the last or not. */
    ghost predicate SafeRound(digest: PackageDigest.PackageDigest, destination: Path, files: map<Path, Bytes>,
                              after: map<Path, Bytes>, failure: Option<ServiceError>,
                              result: Result<Path, ServiceError>, hashed: bool)
    {
      match failure
      case Some(error) =>
        && AgreeOutside(files, after, {PartialPath(digest), destination.WithExtension("tmp")})
        && SafeOutcome(digest, destination, files, after, Err(error), Abandoned(error))
      case None =>
        var ending := if hashed then Decided else Unhashed;
        SafeOutcome(digest, destination, files, after, result, ending) && EndsAsSupported(digest, ending)
    }

    /** An attempt, appended to the rounds before it. */
    method NextRound(digest: PackageDigest.PackageDigest, destination: Path, expectedSize: Option<nat>,
                     existingSize: Option<nat>, ghost rounds: seq<Round>, ghost files: map<Path, Bytes>, ghost first: nat)
      returns (failure: Option<ServiceError>, result: Result<Path, ServiceError>, ghost hashed: bool,
               ghost more: seq<Round>)
      requires PartialPath(digest) != destination
      requires Chained(rounds, files, first, disk.files, |network.requests|) && RefusalsFail(rounds)
      requires AgreeOutside(files, disk.files, {PartialPath(digest), destination.WithExtension("tmp")})
      requires AllAsked(digest, destination, expectedSize, existingSize, rounds)
      modifies disk, network, this`audit
      ensures |network.requests| <= |old(network.requests)| + 2
      ensures SafeRound(digest, destination, files, disk.files, failure, result, hashed)
      ensures audit == old(audit) + (if failure.None? && hashed then [Verdict(result)] else [])
      ensures |more| == |rounds| + 1 && more[|rounds|].failure == failure && more[|rounds|].result == result
      ensures Chained(more, files, first, disk.files, |network.requests|) && RefusalsFail(more)
      ensures AllAsked(digest, destination, expectedSize, existingSize, more)
      ensures AllTransient(rounds) ==> EarlierTransient(more)
      ensures AllTransient(rounds) && failure.Some? && ShouldRetry(policy, failure.value) ==> AllTransient(more)
    {
      ghost var before, request := disk.files, |network.requests|;
      failure, result, hashed := Attempt(digest, destination, expectedSize, existingSize);
      ghost var done := Round(before, disk.files, request, |network.requests|, failure, result);
      OneMoreRound(rounds, files, first, done);
      OneMoreAsked(digest, destination, expectedSize, existingSize, rounds, done);
      more := rounds + [done];
    }

    /** Attempts until one fetches a file, fails for good, or is the last. */
    method RunRounds(digest: PackageDigest.PackageDigest, destination: Path, expectedSize: Option<nat>,
                     existingSize: Option<nat>)
      returns (result: Result<Path, ServiceError>, ghost retries: seq<Event>, ghost ending: Ending,
               ghost rounds: seq<Round>)
      requires PartialPath(digest) != destination
      requires policy.maxRetries + 1 < 0x1_0000_0000
      modifies disk, network, this`audit, this`sleeps
      ensures SafeOutcome(digest, destination, old(disk.files), disk.files, result, ending)
      ensures EndsAsSupported(digest, ending) && !ending.NoDirectory?
      ensures RetryEvents(retries) && audit == old(audit) + retries + ClosingEvents(ending, result)
      ensures sleeps == old(sleeps) + Delays(policy, |retries|)
      ensures |network.requests| <= |old(network.requests)| + 2 * (|retries| + 1)
      ensures RefusalsFail(rounds)
      ensures Exhausted(rounds) && |rounds| == |retries| + 1
      ensures Chained(rounds, old(disk.files), |old(network.requests)|, disk.files, |network.requests|)
      ensures AllAsked(digest, destination, expectedSize, existingSize, rounds)
      ensures var last := rounds[|rounds| - 1];
              match last.failure
              case Some(error) => ending == Abandoned(error) && result == Err(error)
              case None => !ending.Abandoned? && result == last.result
    {
      ghost var hashed := true;
      retries, rounds := [], [];
      var attempt := 0;
      var maxAttempts := policy.maxRetries + 1;
      while true
        invariant attempt == |retries| == |rounds| <= policy.maxRetries && RetryEvents(retries)
        invariant sleeps == old(sleeps) + Delays(policy, attempt)
        invariant audit == old(audit) + retries
        invariant |network.requests| <= |old(network.requests)| + 2 * attempt
        invariant AgreeOutside(old(disk.files), disk.files,
                               {PartialPath(digest), destination.WithExtension("tmp")})
        invariant AllTransient(rounds) && RefusalsFail(rounds)
        invariant Chained(rounds, old(disk.files), |old(network.requests)|, disk.files, |network.requests|)
        invariant AllAsked(digest, destination, expectedSize, existingSize, rounds)
        decreases maxAttempts - attempt
      {
        var failure;
        failure, result, hashed, rounds := NextRound(digest, destination, expectedSize, existingSize, rounds,
                                                     old(disk.files), |old(network.requests)|);
        if failure.None? {
          ending := if hashed then Decided else Unhashed;
          break;
        }
        attempt := attempt + 1;
        if attempt < maxAttempts && ShouldRetry(policy, failure.value) {
          Record(DownloadRetry(attempt, failure.value));
          retries := retries + [DownloadRetry(attempt, failure.value)];
          sleeps := sleeps + [DelayForAttempt(policy, attempt - 1)];
        } else {
          Record(DownloadAbandoned(failure.value));
          result, ending := Err(failure.value), Abandoned(failure.value);
          break;
        }
      }
    }

    /** `retries` lists the retries that were made; a fetched file that cannot be hashed stays where it is. */
    method Download(digest: PackageDigest.PackageDigest, destination: Path, expectedSize: Option<nat>)
      returns (result: Result<Path, ServiceError>, ghost retries: seq<Event>, ghost ending: Ending)
      requires PartialPath(digest) != destination
      requires policy.maxRetries + 1 < 0x1_0000_0000
      modifies disk, network, this`audit, this`sleeps
      ensures SafeOutcome(digest, destination, old(disk.files), disk.files, result, ending)
      // The audit trail, and when it stays open.
      ensures audit == old(audit) + [DownloadStarted] + retries + ClosingEvents(ending, result)
      ensures EndsAsSupported(digest, ending)
      ensures ending.NoDirectory? ==> result == Err(Internal) && retries == [] && disk.files == old(disk.files)
      ensures (PartialPath(digest) in old(disk.files) ==> old(disk.files)[PartialPath(digest)] == [])
              && WholeAt(|old(network.requests)|, expectedSize) ==>
                && retries == [] && (ending.Unhashed? <==> !AlgorithmSupported(digest.algorithm)) && !ending.Abandoned?
                && Settled(digest, destination, expectedSize,
                           BodyOf(network.script(|old(network.requests)|)), disk.files, result)
      // Bounded effort.
      ensures |retries| <= policy.maxRetries && RetryEvents(retries)
      ensures sleeps == old(sleeps) + Delays(policy, |retries|)
      ensures policy.WellFormed() && policy.Valid() ==> WaitsBounded(policy, Delays(policy, |retries|))
      ensures |network.requests| <= |old(network.requests)| + 2 * (|retries| + 1)
      // Status errors count as transient, client errors included.
      ensures AlwaysRefused() ==> result == Err(DownloadFailed) && |retries| == policy.maxRetries
      // Resuming, the first time and after replies that broke off or started over.
      ensures Resumable(digest, old(disk.files)) ==>
                var start, first := old(disk.files)[PartialPath(digest)], |old(network.requests)|;
                && (forall breaks: nat | breaks <= policy.maxRetries && BreaksThenServes(first, breaks, |start|) ::
                      JoinsAll(digest, destination, expectedSize, start, first, breaks, |retries| + 1, disk.files, result))
                && (policy.maxRetries > 0 && LosesPartial(first, |start|) ==>
                      result == Err(Internal) && |retries| == 1 && PartialPath(digest) !in disk.files)
    {
      ghost var files, first := disk.files, |network.requests|;
      Record(DownloadStarted);
      var existingSize := MeasurePartial(digest);
      var ready := disk.Try();
      assert AlwaysRefused() ==> RefusedAt(first);
      if !ready {
        result, retries, ending := Err(Internal), [], NoDirectory;
      } else {
        ghost var rounds;
        result, retries, ending, rounds := RunRounds(digest, destination, expectedSize, existingSize);
        RefusalsExhaust(rounds);
        if existingSize.Some? && existingSize.value > 0 {
          AskedAreResumed(digest, destination, expectedSize, existingSize.value, rounds);
          ResumeFacts(digest, destination, expectedSize, rounds, files, first, disk.files, |network.requests|);
        } else {
          FirstReplySettles(digest, destination, expectedSize, existingSize, rounds, files, first,
                            disk.files, |network.requests|);
        }
      }
      if policy.WellFormed() && policy.Valid() {
        DelaysAreBounded(policy, |retries|);
      }
    }
  }
}
