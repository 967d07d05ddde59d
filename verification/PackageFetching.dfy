/**
 Fetching a package over the network into a file (fetch.rs).

 The disk is a map from paths to contents whose operations may fail at any time; the
 network answers every request from an arbitrary script.
 */
module PackageFetching {
  import opened Wrappers
  import opened RetryPolicies
  import PackageDigest

  type Bytes = seq<bv8>

  // ── The disk ───────────────────────────────────────────────────

  datatype Path = Path(directory: string, stem: string, extension: Option<string>) {
    function WithExtension(extension: string): Path {
      this.(extension := Some(extension))
    }
  }

  /** Destinations share a temporary file exactly when they differ in the extension alone. */
  lemma TemporaryPathsExactly(p: Path, q: Path)
    ensures p.WithExtension("tmp") == q.WithExtension("tmp") <==> p.directory == q.directory && p.stem == q.stem
    ensures p.WithExtension("tmp") == p <==> p.extension == Some("tmp")
  {
  }

  /** The two contents agree on every path outside `touched`. */
  ghost predicate AgreeOutside(before: map<Path, Bytes>, after: map<Path, Bytes>, touched: set<Path>) {
    forall p | p !in touched ::
      (p in before <==> p in after) && (p in before ==> after[p] == before[p])
  }

  class Disk {
    /** Whether the n-th local operation fails. */
    const fails: nat -> bool
    /** How much of a failing n-th write still lands. */
    const landed: nat -> nat
    var files: map<Path, Bytes>
    var clock: nat

    ghost predicate Reliable() {
      forall n :: !fails(n)
    }

    constructor (fails: nat -> bool, landed: nat -> nat, files: map<Path, Bytes>)
      ensures this.fails == fails && this.landed == landed && this.files == files && clock == 0
    {
      this.fails, this.landed, this.files, clock := fails, landed, files, 0;
    }

    /** Any operation that changes no contents: creating directories, flushing. */
    method Try() returns (ok: bool)
      modifies this`clock
      ensures Reliable() ==> ok
    {
      ok := !fails(clock);
      clock := clock + 1;
    }

    method Create(path: Path) returns (ok: bool)
      modifies this
      ensures Reliable() ==> ok
      ensures files == if ok then old(files)[path := []] else old(files)
    {
      ok := !fails(clock);
      clock := clock + 1;
      if ok {
        files := files[path := []];
      }
    }

    /** Appending to a file that does not exist fails; a failing write may land in part. */
    method Append(path: Path, data: Bytes) returns (ok: bool)
      modifies this
      ensures path !in old(files) ==> !ok && files == old(files)
      ensures path in old(files) ==> path in files && old(files)[path] <= files[path]
      ensures AgreeOutside(old(files), files, {path})
      ensures ok ==> files == old(files)[path := old(files)[path] + data]
      ensures Reliable() && path in old(files) ==> ok
    {
      ok := path in files && !fails(clock);
      if ok {
        files := files[path := files[path] + data];
      } else if path in files {
        var kept := if landed(clock) <= |data| then data[..landed(clock)] else data;
        files := files[path := files[path] + kept];
      }
      clock := clock + 1;
    }

    method Rename(source: Path, target: Path) returns (ok: bool)
      modifies this
      ensures ok ==> source in old(files) && files == (old(files) - {source})[target := old(files)[source]]
      ensures !ok ==> files == old(files)
      ensures Reliable() && source in old(files) ==> ok
    {
      ok := source in files && !fails(clock);
      clock := clock + 1;
      if ok {
        files := (files - {source})[target := files[source]];
      }
    }

    /** Removals are assumed to succeed. */
    method Remove(path: Path)
      modifies this`files
      ensures files == old(files) - {path}
    {
      files := files - {path};
    }

    method Read(path: Path) returns (content: Option<Bytes>)
      modifies this`clock
      ensures content.Some? ==> path in files && content.value == files[path]
      ensures content.Some? <==> path in files && !fails(old(clock))
    {
      content := if path in files && !fails(clock) then Some(files[path]) else None;
      clock := clock + 1;
    }
  }

  // ── The network ────────────────────────────────────────────────

  datatype Request = Full | From(offset: nat)

  /** A reply streams its chunks and then ends, or breaks off when `broken`. */
  datatype Response =
    | TransportError
    | StatusError(code: nat)
    | Reply(status: nat, finalUrlSecure: bool, contentRange: Option<string>, contentLength: Option<nat>,
            chunks: seq<Bytes>, broken: bool)

  class Network {
    const script: nat -> Response
    var requests: seq<Request>

    constructor (script: nat -> Response)
      ensures this.script == script && requests == []
    {
      this.script, requests := script, [];
    }

    method Get(request: Request) returns (response: Response)
      modifies this
      ensures requests == old(requests) + [request]
      ensures response == script(|old(requests)|)
    {
      response := script(|requests|);
      requests := requests + [request];
    }
  }

  /** The bytes of a sequence of chunks. */
  ghost function Concat(chunks: seq<Bytes>): Bytes {
    if chunks == [] then [] else Concat(chunks[..|chunks| - 1]) + chunks[|chunks| - 1]
  }

  lemma ConcatNext(chunks: seq<Bytes>, i: nat)
    requires i < |chunks|
    ensures Concat(chunks[..i + 1]) == Concat(chunks[..i]) + chunks[i]
  {
    assert chunks[..i + 1][..i] == chunks[..i];
  }

  // ── Hashing ────────────────────────────────────────────────────

  predicate AlgorithmSupported(algorithm: string) {
    algorithm in {"sha256", "SHA256", "blake3", "BLAKE3"}
  }

  function CanonicalAlgorithm(algorithm: string): string {
    if algorithm in {"sha256", "SHA256"} then "sha256" else "blake3"
  }

  /** The digest of some contents under an algorithm name, by an arbitrary hash. */
  type Hash = (string, Bytes) -> Bytes

  /** The content has the digest under the hash that the algorithm names. */
  ghost predicate HasDigest(hash: Hash, digest: PackageDigest.PackageDigest, content: Bytes) {
    || (digest.algorithm in {"sha256", "SHA256"} && hash("sha256", content) == digest.value)
    || (digest.algorithm in {"blake3", "BLAKE3"} && hash("blake3", content) == digest.value)
  }

  /** A hash in the algorithm's own name, for the algorithms that there are. */
  lemma CanonicalExactly(hash: Hash, digest: PackageDigest.PackageDigest, content: Bytes)
    ensures AlgorithmSupported(digest.algorithm) <==> digest.algorithm in {"sha256", "SHA256", "blake3", "BLAKE3"}
    ensures AlgorithmSupported(digest.algorithm) ==>
              (hash(CanonicalAlgorithm(digest.algorithm), content) == digest.value <==> HasDigest(hash, digest, content))
  {
  }

  method HashFile(disk: Disk, hash: Hash, algorithm: string, path: Path) returns (digest: Result<Bytes, ServiceError>)
    modifies disk`clock
    ensures digest.Ok? ==> path in disk.files
    ensures digest.Ok? && algorithm in {"sha256", "SHA256"} ==> digest.value == hash("sha256", disk.files[path])
    ensures digest.Ok? && algorithm in {"blake3", "BLAKE3"} ==> digest.value == hash("blake3", disk.files[path])
    ensures digest == Err(NotSupported) <==> algorithm !in {"sha256", "SHA256", "blake3", "BLAKE3"}
    ensures digest.Ok? <==> AlgorithmSupported(algorithm) && path in disk.files && !disk.fails(old(disk.clock))
    ensures digest.Err? ==> digest.error == if AlgorithmSupported(algorithm) then Internal else NotSupported
  {
    if !AlgorithmSupported(algorithm) {
      return Err(NotSupported);
    }
    var content := disk.Read(path);
    if content.None? {
      return Err(Internal);
    }
    return Ok(hash(CanonicalAlgorithm(algorithm), content.value));
  }

  // ── Fetching ───────────────────────────────────────────────────

  datatype FetchConfig = FetchConfig(maxResponseSize: nat, urlAccepted: bool)

  datatype DownloadResult = DownloadResult(path: Path, actualSize: nat)

  /** The reply passes the checks that are made before a file is created. */
  ghost predicate HeadersPass(response: Response, config: FetchConfig, expectedSize: Option<nat>) {
    && response.Reply? && response.finalUrlSecure
    && (expectedSize.Some? && response.contentLength.Some? ==> response.contentLength == expectedSize)
    && (response.contentLength.Some? ==> response.contentLength.value <= config.maxResponseSize)
  }

  /** It also passes every check that is made while it is streamed. */
  ghost predicate Streams(response: Response, config: FetchConfig, expectedSize: Option<nat>) {
    && HeadersPass(response, config, expectedSize)
    && |Concat(response.chunks)| <= config.maxResponseSize
  }

  /** What streaming leaves on a reliable disk: all of the reply, or nothing when it is too long. */
  ghost function Streamed(files: map<Path, Bytes>, tmp: Path, response: Response, config: FetchConfig,
                          expectedSize: Option<nat>): map<Path, Bytes>
  {
    if !HeadersPass(response, config, expectedSize) then files
    else if Streams(response, config, expectedSize) then files[tmp := Concat(response.chunks)]
    else files - {tmp}
  }

  lemma ConcatGrows(chunks: seq<Bytes>, i: nat)
    requires i <= |chunks|
    ensures |Concat(chunks[..i])| <= |Concat(chunks)|
    decreases |chunks| - i
  {
    if i < |chunks| {
      ConcatNext(chunks, i);
      ConcatGrows(chunks, i + 1);
    } else {
      assert chunks[..i] == chunks;
    }
  }

  /** Write the chunks of a reply to `tmp`; the file of a reply that exceeds the size limit is removed. */
  method StreamBody(disk: Disk, config: FetchConfig, tmp: Path, response: Response)
    returns (total: Result<nat, ServiceError>)
    requires response.Reply?
    modifies disk
    ensures AgreeOutside(old(disk.files), disk.files, {tmp})
    ensures total.Ok? ==>
              && disk.files == old(disk.files)[tmp := Concat(response.chunks)]
              && total.value == |Concat(response.chunks)| <= config.maxResponseSize
    ensures total.Err? ==> total.error in {InvalidArgument, Internal}
    ensures disk.Reliable() ==>
              && (total.Ok? <==> |Concat(response.chunks)| <= config.maxResponseSize)
              && (total.Err? ==> disk.files == old(disk.files) - {tmp})
  {
    var ok := disk.Create(tmp);
    if !ok {
      return Err(Internal);
    }
    var totalBytes: nat := 0;
    for i := 0 to |response.chunks|
      invariant disk.files == old(disk.files)[tmp := Concat(response.chunks[..i])]
      invariant totalBytes == |Concat(response.chunks[..i])| <= config.maxResponseSize
    {
      ConcatNext(response.chunks, i);
      ConcatGrows(response.chunks, i + 1);
      totalBytes := totalBytes + |response.chunks[i]|;
      if totalBytes > config.maxResponseSize {
        disk.Remove(tmp);
        return Err(InvalidArgument);
      }
      ok := disk.Append(tmp, response.chunks[i]);
      if !ok {
        return Err(Internal);
      }
    }
    assert response.chunks[..|response.chunks|] == response.chunks;
    return Ok(totalBytes);
  }

  /** Stream the whole response into `tmp`; a reply that breaks off leaves its bytes behind there. */
  method DownloadToFile(disk: Disk, network: Network, config: FetchConfig, tmp: Path, expectedSize: Option<nat>)
    returns (result: Result<DownloadResult, ServiceError>)
    modifies disk, network
    ensures network.requests == old(network.requests) + [Full]
    ensures AgreeOutside(old(disk.files), disk.files, {tmp})
    ensures result.Ok? ==>
              var response := network.script(|old(network.requests)|);
              && response.Reply? && !response.broken
              && disk.files == old(disk.files)[tmp := Concat(response.chunks)]
              && result.value == DownloadResult(tmp, |Concat(response.chunks)|)
              && result.value.actualSize <= config.maxResponseSize
    ensures result.Err? ==> result.error in {DownloadFailed, InvalidArgument, Internal}
    ensures !network.script(|old(network.requests)|).Reply? ==> result == Err(DownloadFailed)
    ensures var response := network.script(|old(network.requests)|);
            disk.Reliable() ==>
              && disk.files == Streamed(old(disk.files), tmp, response, config, expectedSize)
              && (result.Ok? <==> Streams(response, config, expectedSize) && !response.broken)
              && (Streams(response, config, expectedSize) && response.broken ==> result == Err(DownloadFailed))
  {
    var response := network.Get(Full);
    if !response.Reply? {
      return Err(DownloadFailed);
    }
    if !response.finalUrlSecure {
      return Err(InvalidArgument);
    }
    if expectedSize.Some? && response.contentLength.Some? && response.contentLength != expectedSize {
      return Err(InvalidArgument);
    }
    if response.contentLength.Some? && response.contentLength.value > config.maxResponseSize {
      return Err(InvalidArgument);
    }
    var total := StreamBody(disk, config, tmp, response);
    if total.Err? {
      return Err(total.error);
    }
    if response.broken {
      return Err(DownloadFailed);
    }
    var ok := disk.Try();
    if !ok {
      return Err(Internal);
    }
    return Ok(DownloadResult(tmp, total.value));
  }

  /**
   Download through a temporary file beside the destination.  Only success changes the
   destination, unless its own extension is `tmp`.
   */
  method Download(disk: Disk, network: Network, config: FetchConfig, destination: Path, expectedSize: Option<nat>)
    returns (result: Result<DownloadResult, ServiceError>)
    modifies disk, network
    ensures |network.requests| <= |old(network.requests)| + 1 && old(network.requests) <= network.requests
    ensures var tmp := destination.WithExtension("tmp");
            && AgreeOutside(old(disk.files), disk.files, {tmp, destination})
            && (result.Err? ==> AgreeOutside(old(disk.files), disk.files, {tmp}))
            && (result.Ok? ==> tmp != destination ==> tmp !in disk.files)
    ensures result.Ok? ==>
              && network.requests == old(network.requests) + [Full]
              && var response := network.script(|old(network.requests)|);
              && response.Reply? && !response.broken
              && destination in disk.files && disk.files[destination] == Concat(response.chunks)
              && result.value == DownloadResult(destination.WithExtension("tmp"), |Concat(response.chunks)|)
    ensures result.Err? ==> result.error in {DownloadFailed, InvalidArgument, Internal}
    ensures disk.Reliable() && config.urlAccepted ==> network.requests == old(network.requests) + [Full]
    ensures disk.Reliable() && config.urlAccepted && !network.script(|old(network.requests)|).Reply? ==>
              result == Err(DownloadFailed)
    // Cleaning up is not complete: exactly a reply that breaks off stays in the temporary file.
    ensures var response, tmp := network.script(|old(network.requests)|), destination.WithExtension("tmp");
            disk.Reliable() && config.urlAccepted ==>
              && (result.Ok? <==> Streams(response, config, expectedSize) && !response.broken)
              && (result.Err? ==> disk.files == Streamed(old(disk.files), tmp, response, config, expectedSize))
              && (result.Err? && tmp !in old(disk.files) ==>
                    (tmp in disk.files <==> Streams(response, config, expectedSize) && response.broken))
  {
    if !config.urlAccepted {
      return Err(InvalidArgument);
    }
    var ok := disk.Try();
    if !ok {
      return Err(Internal);
    }
    var tmp := destination.WithExtension("tmp");
    result := DownloadToFile(disk, network, config, tmp, expectedSize);
    if result.Err? {
      return result;
    }
    ok := disk.Rename(tmp, destination);
    if !ok {
      return Err(Internal);
    }
  }
}
