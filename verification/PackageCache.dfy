/** The package cache: digest-named files, verification on use, and eviction (cache.rs). */
module PackageCache {
  import opened Wrappers
  import opened Text
  import opened StableSort
  import opened PackageDigest
  import opened PackageFetching
  import opened RetryPolicies

  // ── File names ─────────────────────────────────────────────────

  type Hex = s: string | HexText(s) witness ""

  /** The three kinds of file that the cache directory holds. */
  datatype Name = Package(hex: Hex) | Partial(hex: Hex) | Metadata(hex: Hex)

  const PREFIX: string := "pkg-"

  /** The name on disk. */
  function FileName(n: Name): string {
    match n
    case Package(hex) => PREFIX + hex
    case Partial(hex) => PREFIX + hex + "." + "part"
    case Metadata(hex) => PREFIX + hex + "." + "meta"
  }

  function HexOf(d: PackageDigest): Hex {
    EncodeShape(d.value);
    ToHex(d)
  }

  function PackageName(d: PackageDigest): Name { Package(HexOf(d)) }

  function PartialName(d: PackageDigest): Name { Partial(HexOf(d)) }

  function MetadataName(d: PackageDigest): Name { Metadata(HexOf(d)) }

  function LastDot(name: string): (at: Option<nat>)
    ensures at.None? <==> '.' !in name
    ensures at.Some? ==> at.value < |name| && name[at.value] == '.' && '.' !in name[at.value + 1..]
  {
    if name == [] then None
    else if name[|name| - 1] == '.' then Some(|name| - 1)
    else
      var before := LastDot(name[..|name| - 1]);
      assert before.Some? ==> name[before.value + 1..] == name[..|name| - 1][before.value + 1..] + [name[|name| - 1]];
      before
  }

  /** `Path::extension` of a file name. */
  function Extension(name: string): Option<string> {
    match LastDot(name)
    case None => None
    case Some(k) => if k == 0 || name == ".." then None else Some(name[k + 1..])
  }

  /** `Path::with_extension("meta")` of a file name. */
  function WithMetaExtension(name: string): string {
    (if Extension(name).Some? then name[..LastDot(name).value] else name) + "." + "meta"
  }

  /** Neither a partial download nor a metadata file. */
  predicate IsData(name: string) {
    Extension(name) !in {Some("part"), Some("meta")}
  }

  lemma DotAt(stem: string, extension: string)
    requires '.' !in stem && '.' !in extension
    ensures LastDot(stem + "." + extension) == Some(|stem|)
  {
    var name := stem + "." + extension;
    assert name[|stem|] == '.';
    assert name[|stem| + 1..] == extension;
    OneLastDot(name, |stem|, LastDot(name).value);
  }

  lemma OneLastDot(name: string, j: nat, k: nat)
    requires j < |name| && name[j] == '.' && '.' !in name[j + 1..]
    requires k < |name| && name[k] == '.' && '.' !in name[k + 1..]
    ensures j == k
  {
  }

  lemma StemHasNoDot(hex: Hex)
    ensures '.' !in PREFIX + hex
  {
    var stem := PREFIX + hex;
    forall i | 0 <= i < |stem| ensures stem[i] != '.' {
      if i >= |PREFIX| {
        assert stem[i] == hex[i - |PREFIX|];
      }
    }
  }

  lemma ExtensionAfterStem(hex: Hex, extension: string)
    requires '.' !in extension
    ensures Extension(PREFIX + hex + "." + extension) == Some(extension)
    ensures LastDot(PREFIX + hex + "." + extension) == Some(|PREFIX + hex|)
  {
    StemHasNoDot(hex);
    DotAt(PREFIX + hex, extension);
    var name := PREFIX + hex + "." + extension;
    assert name[0] == 'p';
    assert name[|PREFIX + hex| + 1..] == extension;
  }

  /** What the code reads off a file name tells the three kinds apart. */
  lemma NameTellsKind(n: Name)
    ensures Extension(FileName(n)) == match n case Package(_) => None case Partial(_) => Some("part") case Metadata(_) => Some("meta")
    ensures IsData(FileName(n)) <==> n.Package?
    ensures StartsWith(FileName(n), PREFIX)
  {
    match n
    case Package(hex) => StemHasNoDot(hex);
    case Partial(hex) => ExtensionAfterStem(hex, "part");
    case Metadata(hex) => ExtensionAfterStem(hex, "meta");
  }

  /** The metadata file of a package, found by replacing its extension. */
  lemma MetadataOfPackage(hex: Hex)
    ensures WithMetaExtension(FileName(Package(hex))) == FileName(Metadata(hex))
  {
    NameTellsKind(Package(hex));
  }

  /** The three kinds of file never collide, and different hex texts give different files. */
  lemma FileNamesInjective(m: Name, n: Name)
    requires FileName(m) == FileName(n)
    ensures m == n
  {
    NameTellsKind(m);
    NameTellsKind(n);
    HexInName(m);
    HexInName(n);
  }

  lemma HexInName(n: Name)
    ensures var name := FileName(n);
            |name| == |PREFIX| + |n.hex| + (if n.Package? then 0 else 5)
            && name[|PREFIX|..|PREFIX| + |n.hex|] == n.hex
  {
  }

  /** Two digests share their files exactly when their bytes are equal, whatever the algorithm. */
  lemma SharedPathExactly(a: PackageDigest, b: PackageDigest)
    ensures FileName(PackageName(a)) == FileName(PackageName(b)) <==> a.value == b.value
    ensures FileName(PartialName(a)) == FileName(PartialName(b)) <==> a.value == b.value
    ensures FileName(MetadataName(a)) == FileName(MetadataName(b)) <==> a.value == b.value
  {
    if HexOf(a) == HexOf(b) {
      EncodeInjective(a.value, b.value);
    }
    if FileName(PackageName(a)) == FileName(PackageName(b)) {
      FileNamesInjective(PackageName(a), PackageName(b));
    }
    if FileName(PartialName(a)) == FileName(PartialName(b)) {
      FileNamesInjective(PartialName(a), PartialName(b));
    }
    if FileName(MetadataName(a)) == FileName(MetadataName(b)) {
      FileNamesInjective(MetadataName(a), MetadataName(b));
    }
  }

  // ── The directory ──────────────────────────────────────────────

  datatype File = File(content: Bytes, modified: nat)

  type Directory = map<Name, File>

  /** No metadata without its package. */
  ghost predicate Consistent(dir: Directory) {
    forall n | n in dir && n.Metadata? :: Package(n.hex) in dir
  }

  /** What `read_dir` yields: every name once, in some order. */
  ghost predicate Lists(listing: seq<Name>, dir: Directory) {
    multiset(listing) == multiset(dir.Keys)
  }

  ghost predicate Distinct(names: seq<Name>) {
    forall n :: multiset(names)[n] <= 1
  }

  lemma ListedNames(listing: seq<Name>, dir: Directory)
    requires Lists(listing, dir)
    ensures Distinct(listing)
    ensures forall n :: n in listing <==> n in dir
  {
    forall n ensures n in listing <==> n in dir {
      assert n in listing <==> n in multiset(listing);
      assert n in dir <==> n in multiset(dir.Keys);
    }
  }

  /** A name listed once does not come again. */
  lemma NotBefore(names: seq<Name>, i: nat)
    requires Distinct(names) && i < |names|
    ensures names[i] !in names[..i]
    ensures forall n :: n in names[..i + 1] <==> n in names[..i] || n == names[i]
  {
    var x := names[i];
    assert names == names[..i] + [x] + names[i + 1..];
    assert multiset(names)[x] == multiset(names[..i])[x] + 1 + multiset(names[i + 1..])[x];
    assert names[..i + 1] == names[..i] + [x];
  }

  /** The package files of a listing, in its order. */
  function DataNames(listing: seq<Name>): seq<Name> {
    if listing == [] then []
    else DataNames(listing[..|listing| - 1]) +
         (if listing[|listing| - 1].Package? then [listing[|listing| - 1]] else [])
  }

  lemma NextDataNames(listing: seq<Name>, i: nat)
    requires i < |listing|
    ensures DataNames(listing[..i + 1]) ==
            DataNames(listing[..i]) + (if listing[i].Package? then [listing[i]] else [])
  {
    assert listing[..i + 1][..i] == listing[..i];
  }

  lemma {:induction false} DataNamesMultiset(listing: seq<Name>)
    ensures forall n :: multiset(DataNames(listing))[n] == if n.Package? then multiset(listing)[n] else 0
  {
    if listing != [] {
      DataNamesMultiset(listing[..|listing| - 1]);
      assert listing == listing[..|listing| - 1] + [listing[|listing| - 1]];
    }
  }

  ghost function SizeOf(n: Name, dir: Directory): nat {
    if n in dir then |dir[n].content| else 0
  }

  ghost function TotalSize(names: seq<Name>, dir: Directory): nat {
    if names == [] then 0 else SizeOf(names[0], dir) + TotalSize(names[1..], dir)
  }

  lemma TotalSizeSplit(a: seq<Name>, b: seq<Name>, dir: Directory)
    ensures TotalSize(a + b, dir) == TotalSize(a, dir) + TotalSize(b, dir)
  {
    if a == [] {
      assert a + b == b;
    } else {
      assert (a + b)[1..] == a[1..] + b;
      TotalSizeSplit(a[1..], b, dir);
    }
  }

  lemma NextTotalSize(listing: seq<Name>, i: nat, dir: Directory)
    requires i < |listing|
    ensures TotalSize(DataNames(listing[..i + 1]), dir) ==
            TotalSize(DataNames(listing[..i]), dir) + (if listing[i].Package? then SizeOf(listing[i], dir) else 0)
  {
    NextDataNames(listing, i);
    TotalSizeSplit(DataNames(listing[..i]), if listing[i].Package? then [listing[i]] else [], dir);
  }

  /** The total does not depend on the order. */
  lemma {:induction false} TotalSizeOfPermutation(a: seq<Name>, b: seq<Name>, dir: Directory)
    requires multiset(a) == multiset(b)
    ensures TotalSize(a, dir) == TotalSize(b, dir)
  {
    if a == [] {
      assert |multiset(b)| == 0;
    } else {
      assert a[0] in multiset(b);
      var k :| 0 <= k < |b| && b[k] == a[0];
      SameRest(a, b, k);
      TotalSizeOfPermutation(a[1..], b[..k] + b[k + 1..], dir);
      TotalSizeWithoutOne(b, k, dir);
    }
  }

  lemma SameRest(a: seq<Name>, b: seq<Name>, k: nat)
    requires multiset(a) == multiset(b) && a != [] && k < |b| && b[k] == a[0]
    ensures multiset(a[1..]) == multiset(b[..k] + b[k + 1..])
  {
    WithoutFirst(a);
    WithoutOne(b, k);
  }

  lemma WithoutFirst(a: seq<Name>)
    requires a != []
    ensures multiset(a[1..]) == multiset(a) - multiset{a[0]}
  {
    assert a == [a[0]] + a[1..];
  }

  lemma WithoutOne(b: seq<Name>, k: nat)
    requires k < |b|
    ensures multiset(b[..k] + b[k + 1..]) == multiset(b) - multiset{b[k]}
  {
    assert b == b[..k] + [b[k]] + b[k + 1..];
  }

  lemma TotalSizeWithoutOne(b: seq<Name>, k: nat, dir: Directory)
    requires k < |b|
    ensures TotalSize(b, dir) == SizeOf(b[k], dir) + TotalSize(b[..k] + b[k + 1..], dir)
  {
    var tail := [b[k]] + b[k + 1..];
    assert b == b[..k] + tail && tail[1..] == b[k + 1..];
    TotalSizeSplit(b[..k], tail, dir);
    TotalSizeSplit(b[..k], b[k + 1..], dir);
  }

  // ── Eviction ───────────────────────────────────────────────────

  datatype CacheConfig = CacheConfig(maxSizeBytes: nat, maxEntries: nat)

  ghost predicate Within(config: CacheConfig, names: seq<Name>, dir: Directory) {
    TotalSize(names, dir) <= config.maxSizeBytes && |names| <= config.maxEntries
  }

  function ModifiedIn(dir: Directory): Name -> int {
    (n: Name) => if n in dir then dir[n].modified else 0
  }

  /** The data files, oldest first; equally old ones as listed. */
  function OldestFirst(listing: seq<Name>, dir: Directory): seq<Name> {
    SortByKey(DataNames(listing), ModifiedIn(dir))
  }

  /** The evicted names and their metadata. */
  ghost function Evicted(names: seq<Name>): set<Name> {
    (set n | n in names) + (set n | n in names :: Metadata(n.hex))
  }

  /** Evicting the first `k` leaves the cache within its limits, and evicting fewer does not. */
  ghost predicate ShortestPrefix(config: CacheConfig, sorted: seq<Name>, dir: Directory, k: nat) {
    && k <= |sorted|
    && Within(config, sorted[k..], dir)
    && forall j | 0 <= j < k :: !Within(config, sorted[j..], dir)
  }

  lemma OldestFirstMembers(listing: seq<Name>, dir: Directory)
    requires Lists(listing, dir)
    ensures multiset(OldestFirst(listing, dir)) == multiset(DataNames(listing))
    ensures Distinct(OldestFirst(listing, dir))
    ensures forall n :: n in OldestFirst(listing, dir) <==> n in dir && n.Package?
    ensures forall n :: n in DataNames(listing) <==> n in dir && n.Package?
  {
    DataNamesMultiset(listing);
    var names, sorted := DataNames(listing), OldestFirst(listing, dir);
    forall n ensures (n in sorted <==> n in dir && n.Package?) && (n in names <==> n in dir && n.Package?) {
      assert n in sorted <==> multiset(sorted)[n] > 0;
      assert n in names <==> multiset(names)[n] > 0;
      assert n in dir <==> multiset(dir.Keys)[n] > 0;
    }
  }

  /** What the first `k` evictions leave, one after the other. */
  ghost function Left(names: seq<Name>, k: nat, before: Directory): Directory
    requires k <= |names|
  {
    if k == 0 then before
    else Left(names, k - 1, before) - {names[k - 1]} - {Metadata(names[k - 1].hex)}
  }

  lemma {:induction false} LeftIsWithoutEvicted(names: seq<Name>, k: nat, before: Directory)
    requires k <= |names|
    ensures Left(names, k, before) == before - Evicted(names[..k])
  {
    if k == 0 {
      assert Evicted(names[..0]) == {};
    } else {
      LeftIsWithoutEvicted(names, k - 1, before);
      var n := names[k - 1];
      assert names[..k] == names[..k - 1] + [n];
      assert Evicted(names[..k]) == Evicted(names[..k - 1]) + {n, Metadata(n.hex)};
    }
  }

  /** Evicting fewer than `k` is not enough. */
  ghost predicate NoneWithin(config: CacheConfig, names: seq<Name>, before: Directory, k: nat)
    requires k <= |names|
  {
    forall j | 0 <= j < k :: !Within(config, names[j..], before)
  }

  lemma NotEnough(config: CacheConfig, names: seq<Name>, before: Directory, k: nat)
    requires k < |names| && NoneWithin(config, names, before, k)
    requires !Within(config, names[k..], before)
    ensures NoneWithin(config, names, before, k + 1)
  {
  }

  /** A package is still there, unchanged, when the loop reaches it, and part of the running size. */
  lemma Reached(names: seq<Name>, k: nat, before: Directory)
    requires k < |names| && Distinct(names)
    requires forall n | n in names :: n in before && n.Package?
    ensures names[k] in Left(names, k, before)
    ensures Left(names, k, before)[names[k]] == before[names[k]]
    ensures TotalSize(names[k..], before) == |before[names[k]].content| + TotalSize(names[k + 1..], before)
  {
    LeftIsWithoutEvicted(names, k, before);
    NotBefore(names, k);
    assert names[k..][1..] == names[k + 1..] && names[k] in names;
  }

  /** What is listed after the evictions is the rest of the old order. */
  lemma Remainder(sorted: seq<Name>, before: Directory, k: nat, after: seq<Name>)
    requires k <= |sorted| && Distinct(sorted)
    requires forall n :: n in sorted <==> n in before && n.Package?
    requires Lists(after, before - Evicted(sorted[..k]))
    ensures multiset(DataNames(after)) == multiset(sorted[k..])
    ensures |DataNames(after)| == |sorted[k..]|
    ensures forall n | n in sorted[k..] :: n in before - Evicted(sorted[..k])
  {
    var now := before - Evicted(sorted[..k]);
    forall n ensures multiset(DataNames(after))[n] == multiset(sorted[k..])[n] && (n in sorted[k..] ==> n in now) {
      ListedOnce(after, now, n);
      OnceInParts(sorted, k, n);
    }
    SameCounts(DataNames(after), sorted[k..]);
  }

  lemma ListedOnce(listing: seq<Name>, dir: Directory, n: Name)
    requires Lists(listing, dir)
    ensures multiset(DataNames(listing))[n] == if n in dir && n.Package? then 1 else 0
  {
    DataNamesMultiset(listing);
    assert n in dir <==> n in dir.Keys;
    assert multiset(dir.Keys)[n] == if n in dir.Keys then 1 else 0;
  }

  lemma SameCounts(a: seq<Name>, b: seq<Name>)
    requires forall n :: multiset(a)[n] == multiset(b)[n]
    ensures multiset(a) == multiset(b) && |a| == |b|
  {
    assert |multiset(a)| == |a| && |multiset(b)| == |b|;
  }

  lemma OnceInParts(names: seq<Name>, k: nat, n: Name)
    requires k <= |names| && Distinct(names)
    ensures multiset(names[k..])[n] == if n in names && n !in names[..k] then 1 else 0
    ensures n in names[k..] <==> n in names && n !in names[..k]
  {
    assert names == names[..k] + names[k..];
    assert multiset(names)[n] == multiset(names[..k])[n] + multiset(names[k..])[n];
    assert n in names[k..] <==> multiset(names[k..])[n] > 0;
    assert n in names[..k] <==> multiset(names[..k])[n] > 0;
  }

  lemma SameSizes(names: seq<Name>, before: Directory, now: Directory)
    requires forall n | n in names :: n in before && n in now && now[n] == before[n]
    ensures TotalSize(names, now) == TotalSize(names, before)
  {
  }

  lemma RemovedCount(dir: Directory, gone: set<Name>)
    requires gone <= dir.Keys
    ensures |dir - gone| + |gone| == |dir|
  {
    var kept := dir - gone;
    assert kept.Keys == dir.Keys - gone;
    assert |kept| == |kept.Keys| && |dir| == |dir.Keys|;
  }

  ghost function NamesIn(names: seq<Name>): set<Name> {
    set n | n in names
  }

  ghost function PartialsIn(names: seq<Name>): set<Name> {
    set n | n in names && n.Partial?
  }

  /** What one more name of a listing adds to the files gone. */
  lemma NextName(listing: seq<Name>, i: nat, before: Directory)
    requires Distinct(listing) && i < |listing|
    ensures var name, gone, next := listing[i], NamesIn(listing[..i]), NamesIn(listing[..i + 1]);
            |next| == |gone| + 1 && before - gone - {name} == before - next
  {
    NotBefore(listing, i);
    assert NamesIn(listing[..i + 1]) == NamesIn(listing[..i]) + {listing[i]};
    OneMoreGone(before, NamesIn(listing[..i]), listing[i]);
  }

  lemma NextPartial(listing: seq<Name>, i: nat, before: Directory)
    requires Distinct(listing) && i < |listing|
    ensures var name, gone, next := listing[i], PartialsIn(listing[..i]), PartialsIn(listing[..i + 1]);
            if name.Partial? then |next| == |gone| + 1 && before - gone - {name} == before - next else next == gone
  {
    NotBefore(listing, i);
    if listing[i].Partial? {
      assert PartialsIn(listing[..i + 1]) == PartialsIn(listing[..i]) + {listing[i]};
      OneMoreGone(before, PartialsIn(listing[..i]), listing[i]);
    } else {
      assert PartialsIn(listing[..i + 1]) == PartialsIn(listing[..i]);
    }
  }

  lemma OneMoreGone(before: Directory, gone: set<Name>, name: Name)
    ensures before - gone - {name} == before - (gone + {name})
  {
  }

  /** How far finalizing gets: rename, then metadata, which a failing write may cut short. */
  datatype FinalizeIo = NotRenamed | NotWritten | PartlyWritten(content: Bytes) | Whole

  /** Whatever package is gone was not modified after any package that is kept. */
  ghost predicate OldestGoFirst(before: Directory, after: Directory) {
    forall n, m | n in before && n.Package? && n !in after && m in before && m in after && m.Package? ::
      before[n].modified <= before[m].modified
  }

  lemma PrefixIsOldest(listing: seq<Name>, before: Directory, k: nat)
    requires Lists(listing, before) && k <= |OldestFirst(listing, before)|
    ensures OldestGoFirst(before, before - Evicted(OldestFirst(listing, before)[..k]))
  {
    OldestFirstMembers(listing, before);
    var sorted := OldestFirst(listing, before);
    var after := before - Evicted(sorted[..k]);
    forall n, m | n in before && n.Package? && n !in after && m in before && m in after && m.Package?
      ensures before[n].modified <= before[m].modified
    {
      assert n in sorted[..k] && m in sorted && m !in sorted[..k];
      var i :| 0 <= i < k && sorted[i] == n;
      OnceInParts(sorted, k, m);
      var j :| 0 <= j < |sorted[k..]| && sorted[k..][j] == m;
      assert ModifiedIn(before)(sorted[i]) <= ModifiedIn(before)(sorted[k + j]);
    }
  }

  // ── The manager ────────────────────────────────────────────────

  class CacheManager {
    const config: CacheConfig
    const hash: Hash
    var dir: Directory

    constructor (config: CacheConfig, hash: Hash)
      ensures this.config == config && this.hash == hash && dir == map[] && Consistent(dir)
    {
      this.config, this.hash, dir := config, hash, map[];
    }

    /** A caller obtains the partial path and writes the download there. */
    method StagePartial(d: PackageDigest, content: Bytes, now: nat)
      modifies this`dir
      ensures dir == Staged(old(dir), d, content, now)
    {
      dir := dir[PartialName(d) := File(content, now)];
    }

    /** Move the partial file into place and write its metadata, as far as the disk lets it. */
    method Finalize(d: PackageDigest, metadata: Bytes, now: nat, io: FinalizeIo)
      returns (result: Result<Name, ServiceError>)
      modifies this`dir
      ensures dir == Finalized(old(dir), d, metadata, now, io)
      ensures result == if PartialName(d) !in old(dir) then Err(NotFound)
                        else if io.Whole? then Ok(PackageName(d)) else Err(Internal)
      ensures result == Err(NotFound) || io.NotRenamed? ==> dir == old(dir)
    {
      if PartialName(d) !in dir {
        return Err(NotFound);
      }
      if io.NotRenamed? {
        return Err(Internal);
      }
      var part := dir[PartialName(d)];
      dir := (dir - {PartialName(d)})[PackageName(d) := part];
      match io {
        case Whole =>
          dir := dir[MetadataName(d) := File(metadata, now)];
          return Ok(PackageName(d));
        case PartlyWritten(content) =>
          dir := dir[MetadataName(d) := File(content, now)];
          return Err(Internal);
        case _ =>
          return Err(Internal);
      }
    }

    /** A hit counts only after its bytes were hashed again; a corrupt entry is removed with its metadata. */
    method VerifyCacheEntry(d: PackageDigest, readable: bool) returns (result: Result<bool, ServiceError>)
      modifies this`dir
      ensures dir == VerifiedDir(hash, old(dir), d, readable)
      ensures result.Ok? ==> (result.value <==> PackageName(d) in old(dir)
                                                && HasDigest(hash, d, old(dir)[PackageName(d)].content))
      ensures result.Ok? ==> (result.value <==> PackageName(d) in dir)
      ensures result.Err? <==> PackageName(d) in old(dir)
                               && !(d.algorithm in {"sha256", "SHA256", "blake3", "BLAKE3"} && readable)
      ensures result.Err? ==> result.error.Internal? && dir == old(dir)
    {
      var name := PackageName(d);
      if name !in dir {
        return Ok(false);
      }
      if !AlgorithmSupported(d.algorithm) || !readable {
        return Err(Internal);
      }
      CanonicalExactly(hash, d, dir[name].content);
      var actual := hash(CanonicalAlgorithm(d.algorithm), dir[name].content);
      MatchesIsEquality(d, actual);
      if Matches(d, actual) {
        return Ok(true);
      }
      dir := dir - {name};
      dir := dir - {MetadataName(d)};
      return Ok(false);
    }

    method RemoveEntry(d: PackageDigest)
      modifies this`dir
      ensures dir == old(dir) - {PackageName(d), MetadataName(d)}
    {
      if PackageName(d) in dir {
        dir := dir - {PackageName(d)};
      }
      if MetadataName(d) in dir {
        dir := dir - {MetadataName(d)};
      }
    }

    static method HasPartialExtension(name: Name) returns (yes: bool)
      ensures yes <==> name.Partial?
    {
      NameTellsKind(name);
      yes := Extension(FileName(name)) == Some("part");
    }

    /** Remove every partial download; the others stay. */
    method CleanupPartials(listing: seq<Name>) returns (removed: nat)
      requires Lists(listing, dir)
      modifies this`dir
      ensures dir == WithoutPartials(old(dir))
      ensures |dir| + removed == |old(dir)|
    {
      removed := 0;
      ListedNames(listing, dir);
      for i := 0 to |listing|
        invariant dir == old(dir) - PartialsIn(listing[..i]) && |PartialsIn(listing[..i])| == removed
      {
        var name := listing[i];
        NextPartial(listing, i, old(dir));
        var isPartial := HasPartialExtension(name);
        if isPartial {
          dir := dir - {name};
          removed := removed + 1;
        }
      }
      assert listing[..|listing|] == listing;
      assert PartialsIn(listing) == set n | n in old(dir) && n.Partial?;
      RemovedCount(old(dir), PartialsIn(listing));
    }

    method CurrentCacheSize(listing: seq<Name>) returns (total: nat)
      requires Lists(listing, dir)
      ensures total == TotalSize(DataNames(listing), dir)
    {
      total := 0;
      ListedNames(listing, dir);
      for i := 0 to |listing|
        invariant total == TotalSize(DataNames(listing[..i]), dir)
      {
        NextTotalSize(listing, i, dir);
        NameTellsKind(listing[i]);
        assert listing[i] in listing;
        if IsData(FileName(listing[i])) {
          total := total + |dir[listing[i]].content|;
        }
      }
      assert listing[..|listing|] == listing;
    }

    method CacheEntryCount(listing: seq<Name>) returns (count: nat)
      requires Lists(listing, dir)
      ensures count == |DataNames(listing)|
    {
      count := 0;
      for i := 0 to |listing|
        invariant count == |DataNames(listing[..i])|
      {
        NextDataNames(listing, i);
        NameTellsKind(listing[i]);
        if IsData(FileName(listing[i])) && StartsWith(FileName(listing[i]), PREFIX) {
          count := count + 1;
        }
      }
      assert listing[..|listing|] == listing;
    }

    /**
     Evict the oldest data files until both limits hold: exactly the shortest oldest-first
     prefix goes, each with its metadata, and everything else stays.
     */
    method EnforceLimits(listing: seq<Name>) returns (ghost k: nat)
      requires Lists(listing, dir)
      modifies this`dir
      ensures ShortestPrefix(config, OldestFirst(listing, old(dir)), old(dir), k)
      ensures dir == old(dir) - Evicted(OldestFirst(listing, old(dir))[..k])
      ensures forall after | Lists(after, dir) :: Within(config, DataNames(after), dir)
      ensures OldestGoFirst(old(dir), dir)
    {
      var currentSize := CurrentCacheSize(listing);
      var count := CacheEntryCount(listing);
      var entries := OldestFirst(listing, dir);
      OldestFirstMembers(listing, dir);
      TotalSizeOfPermutation(DataNames(listing), entries, dir);
      if currentSize <= config.maxSizeBytes && count <= config.maxEntries {
        NothingToEvict(entries, dir);
        LimitsHold(listing, dir, 0);
        PrefixIsOldest(listing, dir, 0);
        return 0;
      }
      ghost var before := dir;
      k := EvictOldest(entries, currentSize);
      LimitsHold(listing, before, k);
      PrefixIsOldest(listing, before, k);
    }

    /** The limits hold of what is left, however it is listed. */
    lemma LimitsHold(listing: seq<Name>, before: Directory, k: nat)
      requires Lists(listing, before) && ShortestPrefix(config, OldestFirst(listing, before), before, k)
      ensures var now := before - Evicted(OldestFirst(listing, before)[..k]);
              forall after | Lists(after, now) :: Within(config, DataNames(after), now)
    {
      var sorted := OldestFirst(listing, before);
      var now := before - Evicted(sorted[..k]);
      OldestFirstMembers(listing, before);
      forall after | Lists(after, now) ensures Within(config, DataNames(after), now) {
        Remainder(sorted, before, k, after);
        TotalSizeOfPermutation(DataNames(after), sorted[k..], now);
        SameSizes(sorted[k..], before, now);
      }
    }

    lemma NothingToEvict(entries: seq<Name>, dir: Directory)
      requires Within(config, entries, dir)
      ensures ShortestPrefix(config, entries, dir, 0) && dir - Evicted(entries[..0]) == dir
    {
      assert entries[0..] == entries;
      LeftIsWithoutEvicted(entries, 0, dir);
    }

    /** Remove a package file and the metadata file beside it. */
    method EvictFile(name: Name)
      requires name.Package?
      modifies this`dir
      ensures dir == old(dir) - {name} - {Metadata(name.hex)}
    {
      dir := dir - {name};
      MetadataOfPackage(name.hex);
      dir := dir - {Metadata(name.hex)};
    }

    /** The eviction loop, with its running size and count. */
    method EvictOldest(entries: seq<Name>, currentSize: nat) returns (ghost k: nat)
      requires forall n | n in entries :: n in dir && n.Package?
      requires Distinct(entries)
      requires currentSize == TotalSize(entries, dir)
      modifies this`dir
      ensures ShortestPrefix(config, entries, old(dir), k)
      ensures dir == old(dir) - Evicted(entries[..k])
    {
      ghost var before := dir;
      var size, count := currentSize, |entries|;
      var i := 0;
      assert entries[0..] == entries;
      while i < |entries| && !(size <= config.maxSizeBytes && count <= config.maxEntries)
        invariant 0 <= i <= |entries|
        invariant size == TotalSize(entries[i..], before) && count == |entries| - i
        invariant dir == Left(entries, i, before)
        invariant NoneWithin(config, entries, before, i)
      {
        var name := entries[i];
        Reached(entries, i, before);
        NotEnough(config, entries, before, i);
        size := if size < |dir[name].content| then 0 else size - |dir[name].content|;
        EvictFile(name);
        count := if count < 1 then 0 else count - 1;
        i := i + 1;
      }
      k := i;
      LeftIsWithoutEvicted(entries, k, before);
    }

    static method BelongsToCache(name: Name) returns (yes: bool)
      ensures yes
    {
      NameTellsKind(name);
      yes := LooksLikeCache(FileName(name));
    }

    /** Remove everything that looks like a cache file: every file there is. */
    method Clear(listing: seq<Name>) returns (removed: nat)
      requires Lists(listing, dir)
      modifies this`dir
      ensures dir == map[] && removed == |old(dir)|
    {
      removed := 0;
      ListedNames(listing, dir);
      for i := 0 to |listing|
        invariant dir == old(dir) - NamesIn(listing[..i]) && |NamesIn(listing[..i])| == removed
      {
        var name := listing[i];
        NextName(listing, i, old(dir));
        var belongs := BelongsToCache(name);
        if belongs {
          dir := dir - {name};
          removed := removed + 1;
        }
      }
      assert listing[..|listing|] == listing;
      assert NamesIn(listing) == old(dir).Keys;
      RemovedCount(old(dir), NamesIn(listing));
    }
  }

  // ── Operations on values ───────────────────────────────────────

  predicate LooksLikeCache(name: string) {
    StartsWith(name, PREFIX) || EndsWith(name, ".part") || EndsWith(name, ".meta")
  }

  ghost function Staged(dir: Directory, d: PackageDigest, content: Bytes, now: nat): Directory {
    dir[PartialName(d) := File(content, now)]
  }

  ghost function Finalized(dir: Directory, d: PackageDigest, metadata: Bytes, now: nat, io: FinalizeIo): Directory {
    if PartialName(d) !in dir || io.NotRenamed? then dir
    else
      var renamed := (dir - {PartialName(d)})[PackageName(d) := dir[PartialName(d)]];
      match io
      case Whole => renamed[MetadataName(d) := File(metadata, now)]
      case PartlyWritten(content) => renamed[MetadataName(d) := File(content, now)]
      case _ => renamed
  }

  ghost function VerifiedDir(hash: Hash, dir: Directory, d: PackageDigest, readable: bool): Directory {
    if PackageName(d) in dir && AlgorithmSupported(d.algorithm) && readable
       && !HasDigest(hash, d, dir[PackageName(d)].content)
    then dir - {PackageName(d), MetadataName(d)} else dir
  }

  ghost function WithoutPartials(dir: Directory): Directory {
    dir - (set n | n in dir && n.Partial?)
  }

  datatype Operation =
    | Stage(d: PackageDigest, content: Bytes, now: nat)
    | Finish(d: PackageDigest, metadata: Bytes, now: nat, io: FinalizeIo)
    | Verify(d: PackageDigest, readable: bool)
    | Remove(d: PackageDigest)
    | Cleanup
    | Enforce(listing: seq<Name>, k: nat)
    | ClearAll

  ghost predicate Enabled(config: CacheConfig, dir: Directory, op: Operation) {
    op.Enforce? ==>
      && Lists(op.listing, dir)
      && ShortestPrefix(config, OldestFirst(op.listing, dir), dir, op.k)
  }

  ghost function Next(config: CacheConfig, hash: Hash, dir: Directory, op: Operation): Directory
    requires Enabled(config, dir, op)
  {
    match op
    case Stage(d, content, now) => Staged(dir, d, content, now)
    case Finish(d, metadata, now, io) => Finalized(dir, d, metadata, now, io)
    case Verify(d, readable) => VerifiedDir(hash, dir, d, readable)
    case Remove(d) => dir - {PackageName(d), MetadataName(d)}
    case Cleanup => WithoutPartials(dir)
    case Enforce(listing, k) => dir - Evicted(OldestFirst(listing, dir)[..k])
    case ClearAll => map[]
  }

  lemma OperationKeepsConsistent(config: CacheConfig, hash: Hash, dir: Directory, op: Operation)
    requires Consistent(dir) && Enabled(config, dir, op)
    ensures Consistent(Next(config, hash, dir, op))
  {
    match op
    case Stage(_, _, _) =>
    case Finish(_, _, _, _) =>
    case Verify(_, _) =>
    case Remove(_) =>
    case Cleanup =>
    case Enforce(listing, k) => EvictionKeepsConsistent(listing, dir, k);
    case ClearAll =>
  }

  lemma EvictionKeepsConsistent(listing: seq<Name>, dir: Directory, k: nat)
    requires Consistent(dir) && Lists(listing, dir) && k <= |OldestFirst(listing, dir)|
    ensures Consistent(dir - Evicted(OldestFirst(listing, dir)[..k]))
  {
    OldestFirstMembers(listing, dir);
    var names := OldestFirst(listing, dir)[..k];
    forall n | n in dir - Evicted(names) && n.Metadata? ensures Package(n.hex) in dir - Evicted(names) {
      assert Package(n.hex) !in names;
    }
  }

  /** A run of operations, each possible where it happens. */
  ghost predicate Possible(config: CacheConfig, hash: Hash, dir: Directory, ops: seq<Operation>)
    decreases |ops|
  {
    ops == [] || (Enabled(config, dir, ops[0]) && Possible(config, hash, Next(config, hash, dir, ops[0]), ops[1..]))
  }

  ghost function Run(config: CacheConfig, hash: Hash, dir: Directory, ops: seq<Operation>): Directory
    requires Possible(config, hash, dir, ops)
    decreases |ops|
  {
    if ops == [] then dir else Run(config, hash, Next(config, hash, dir, ops[0]), ops[1..])
  }

  /** Every run of cache operations keeps the cache consistent. */
  lemma {:induction false} RunsStayConsistent(config: CacheConfig, hash: Hash, dir: Directory, ops: seq<Operation>)
    requires Consistent(dir) && Possible(config, hash, dir, ops)
    ensures Consistent(Run(config, hash, dir, ops))
    decreases |ops|
  {
    if ops != [] {
      OperationKeepsConsistent(config, hash, dir, ops[0]);
      RunsStayConsistent(config, hash, Next(config, hash, dir, ops[0]), ops[1..]);
    }
  }
}
