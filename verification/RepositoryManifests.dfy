/** Repository manifests: structure, freshness and signature (repository.rs). */
module RepositoryManifests {
  import opened Wrappers
  import opened Text
  import opened Inventory
  import opened PackageDigest

  datatype PackageEntry = PackageEntry(
    name: string,
    version: string,
    url: string,
    size: Option<nat>,
    digestAlgorithm: string,
    digestValue: string,
    architecture: Option<string>,
    channel: Option<string>
  )

  datatype Verification =
    | Unverified
    | Verified(keyId: string)
    | InvalidSignature
    | UnknownKey

  datatype Manifest = Manifest(
    repositoryId: string,
    manifestVersion: nat,
    issuedAt: nat,
    expiresAt: nat,
    signingKeyId: string,
    packages: seq<PackageEntry>,
    verification: Verification
  )

  datatype FreshnessPolicy = FreshnessPolicy(clockSkewSecs: nat, maxAgeSecs: nat)

  // ── Structure ──────────────────────────────────────────────────

  predicate IsHexChar(c: char) {
    '0' <= c <= '9' || 'a' <= c <= 'f' || 'A' <= c <= 'F'
  }

  /** An absolute path or a web address, without a step to a parent directory and without backslashes. */
  ghost predicate UrlValid(text: string) {
    var url := Trim(text);
    && (StartsWith(url, "http://") || StartsWith(url, "https://") || StartsWith(url, "/"))
    && !Contains(url, "..")
    && !Contains(url, "\\")
  }

  /** The checks of the address in the source's order. */
  function CheckUrl(text: string): (ok: bool)
    ensures ok <==> UrlValid(text)
  {
    var url := Trim(text);
    if url == [] then false
    else if Contains(url, "..") then false
    else if Contains(url, "\\") then false
    else if !StartsWith(url, "http://") && !StartsWith(url, "https://") && !StartsWith(url, "/") then false
    else true
  }

  ghost predicate NameValid(name: string) {
    !Blank(name) && |Utf8(name)| <= 256
  }

  ghost predicate VersionValid(version: string) {
    !Blank(version) && ParseVersion(version).Ok?
  }

  ghost predicate DigestValid(algorithm: string, value: string) {
    && (EqIgnoreCase(algorithm, "sha256") || EqIgnoreCase(algorithm, "blake3"))
    && |value| == 64
    && forall i | 0 <= i < |value| :: value[i] in "0123456789abcdefABCDEF"
  }

  ghost predicate ArchitectureValid(architecture: string) {
    || EqIgnoreCase(architecture, "x86_64") || EqIgnoreCase(architecture, "amd64")
    || EqIgnoreCase(architecture, "aarch64") || EqIgnoreCase(architecture, "arm64")
  }

  ghost predicate EntryValid(p: PackageEntry) {
    && NameValid(p.name)
    && VersionValid(p.version)
    && UrlValid(p.url)
    && p.size != Some(0)
    && DigestValid(p.digestAlgorithm, p.digestValue)
    && (p.architecture.Some? ==> ArchitectureValid(p.architecture.value))
    && (p.channel.Some? ==> p.channel.value in {"stable", "beta", "testing", "nightly", "rc"})
  }

  lemma LowerKeeps(s: string)
    requires forall i | 0 <= i < |s| :: !('A' <= s[i] <= 'Z')
    ensures Lower(s) == s
  {
  }

  lemma ArchitectureNames()
    ensures forall name | name in ["x86_64", "amd64", "aarch64", "arm64"] :: Lower(name) == name
  {
    LowerKeeps("x86_64");
    LowerKeeps("amd64");
    LowerKeeps("aarch64");
    LowerKeeps("arm64");
  }

  /** Hex digits take one byte each. */
  lemma HexIsAscii(value: string)
    ensures (forall i | 0 <= i < |value| :: IsHexChar(value[i])) ==> |Utf8(value)| == |value|
    ensures forall i | 0 <= i < |value| :: IsHexChar(value[i]) <==> value[i] in "0123456789abcdefABCDEF"
  {
    if forall i | 0 <= i < |value| :: IsHexChar(value[i]) {
      Utf8OfAscii(value);
    }
    HexCharExactly();
  }

  lemma HexCharExactly()
    ensures forall c :: IsHexChar(c) <==> c in "0123456789abcdefABCDEF"
  {
    var hex := "0123456789abcdefABCDEF";
    assert hex[0] == '0' && hex[1] == '1' && hex[2] == '2' && hex[3] == '3' && hex[4] == '4' && hex[5] == '5';
    assert hex[6] == '6' && hex[7] == '7' && hex[8] == '8' && hex[9] == '9' && hex[10] == 'a' && hex[11] == 'b';
    assert hex[12] == 'c' && hex[13] == 'd' && hex[14] == 'e' && hex[15] == 'f' && hex[16] == 'A' && hex[17] == 'B';
    assert hex[18] == 'C' && hex[19] == 'D' && hex[20] == 'E' && hex[21] == 'F';
  }

  function CheckDigest(algorithm: string, value: string): (ok: bool)
    ensures ok <==> DigestValid(algorithm, value)
  {
    LowerKeeps("sha256");
    LowerKeeps("blake3");
    HexIsAscii(value);
    var name := Lower(algorithm);
    if name !in ["sha256", "blake3"] then false
    else if |Utf8(value)| != 64 then false
    else if exists i | 0 <= i < |value| :: !IsHexChar(value[i]) then false
    else true
  }

  function CheckName(name: string): (ok: bool)
    ensures ok <==> NameValid(name)
  {
    TrimExactly(name);
    if Trim(name) == [] then false else if |Utf8(name)| > 256 then false else true
  }

  function CheckVersion(version: string): (ok: bool)
    ensures ok <==> VersionValid(version)
  {
    TrimExactly(version);
    if Trim(version) == [] then false else if ParseVersion(version).Err? then false else true
  }

  function CheckArchitecture(architecture: string): (ok: bool)
    ensures ok <==> ArchitectureValid(architecture)
  {
    ArchitectureNames();
    Lower(architecture) in ["x86_64", "amd64", "aarch64", "arm64"]
  }

  /** The checks of one entry in the source's order. */
  function CheckEntry(p: PackageEntry): (ok: bool)
    ensures ok <==> EntryValid(p)
  {
    if !CheckName(p.name) then false
    else if !CheckVersion(p.version) then false
    else if !CheckUrl(p.url) then false
    else if p.size.Some? && p.size.value == 0 then false
    else if !CheckDigest(p.digestAlgorithm, p.digestValue) then false
    else if p.architecture.Some? && !CheckArchitecture(p.architecture.value) then false
    else if p.channel.Some? && p.channel.value !in ["stable", "beta", "testing", "nightly", "rc"] then false
    else true
  }

  ghost predicate HeaderValid(m: Manifest) {
    && !Blank(m.repositoryId)
    && m.manifestVersion == 1
    && !Blank(m.signingKeyId)
    && 0 < m.issuedAt < m.expiresAt
  }

  /** The checks of the header in the source's order. */
  function CheckHeader(m: Manifest): (ok: bool)
    ensures ok <==> HeaderValid(m)
  {
    TrimExactly(m.repositoryId);
    TrimExactly(m.signingKeyId);
    if Trim(m.repositoryId) == [] then false
    else if m.manifestVersion != 1 then false
    else if Trim(m.signingKeyId) == [] then false
    else if m.issuedAt == 0 then false
    else if m.expiresAt == 0 then false
    else if m.expiresAt <= m.issuedAt then false
    else true
  }

  function Key(p: PackageEntry): (string, string) {
    (p.name, p.version)
  }

  ghost function Keys(packages: seq<PackageEntry>): set<(string, string)> {
    set p | p in packages :: Key(p)
  }

  /** The check of a single entry. */
  type Check = PackageEntry -> bool

  /** Entry by entry: valid, and its name and version text not seen before. */
  ghost predicate EntriesValid(packages: seq<PackageEntry>, valid: Check) {
    packages == [] ||
    var before, last := packages[..|packages| - 1], packages[|packages| - 1];
    EntriesValid(before, valid) && valid(last) && Key(last) !in Keys(before)
  }

  /** No two entries have the same name and version text. */
  ghost predicate DistinctKeys(packages: seq<PackageEntry>) {
    forall i, j | 0 <= i < j < |packages| ::
      packages[i].name != packages[j].name || packages[i].version != packages[j].version
  }

  /** Every entry is valid and no two have the same name and version text. */
  lemma {:induction false} EntriesValidMeaning(packages: seq<PackageEntry>, valid: Check)
    ensures EntriesValid(packages, valid) <==>
            (forall i | 0 <= i < |packages| :: valid(packages[i])) && DistinctKeys(packages)
  {
    if packages != [] {
      var before, last := packages[..|packages| - 1], packages[|packages| - 1];
      EntriesValidMeaning(before, valid);
      LastKeyIsNew(packages);
      assert forall i | 0 <= i < |before| :: packages[i] == before[i];
    }
  }

  lemma LastKeyIsNew(packages: seq<PackageEntry>)
    requires packages != []
    ensures var before, last := packages[..|packages| - 1], packages[|packages| - 1];
            DistinctKeys(packages) <==> DistinctKeys(before) && Key(last) !in Keys(before)
  {
    var before, last := packages[..|packages| - 1], packages[|packages| - 1];
    KeysAt(before);
    assert forall i | 0 <= i < |before| :: packages[i] == before[i];
    if Key(last) in Keys(before) {
      var i :| 0 <= i < |before| && Key(before[i]) == Key(last);
      assert Key(packages[i]) == Key(packages[|before|]);
    }
  }

  lemma KeysAt(packages: seq<PackageEntry>)
    ensures forall i | 0 <= i < |packages| :: Key(packages[i]) in Keys(packages)
    ensures forall k | k in Keys(packages) :: exists i :: 0 <= i < |packages| && Key(packages[i]) == k
  {
    forall i | 0 <= i < |packages| ensures Key(packages[i]) in Keys(packages) {
      assert packages[i] in packages;
    }
  }

  lemma KeysSnoc(before: seq<PackageEntry>, last: PackageEntry, valid: Check)
    ensures Keys(before + [last]) == Keys(before) + {Key(last)}
    ensures EntriesValid(before + [last], valid) <==>
            EntriesValid(before, valid) && valid(last) && Key(last) !in Keys(before)
  {
    assert (before + [last])[..|before|] == before;
  }

  /** One invalid prefix makes the whole invalid. */
  lemma {:induction false} PrefixOfValid(packages: seq<PackageEntry>, valid: Check, i: nat)
    requires i <= |packages| && EntriesValid(packages, valid)
    ensures EntriesValid(packages[..i], valid)
  {
    if i < |packages| {
      var before := packages[..|packages| - 1];
      PrefixOfValid(before, valid, i);
      assert before[..i] == packages[..i];
    } else {
      assert packages[..i] == packages;
    }
  }

  /** A valid header, valid entries, and no two entries with one name and version text. */
  ghost predicate Structured(m: Manifest) {
    && HeaderValid(m)
    && (forall i | 0 <= i < |m.packages| :: EntryValid(m.packages[i]))
    && DistinctKeys(m.packages)
  }

  method Validate(m: Manifest) returns (valid: bool)
    ensures valid <==> Structured(m)
  {
    if !CheckHeader(m) {
      return false;
    }
    EntriesValidMeaning(m.packages, CheckEntry);
    valid := ValidateEntries(m.packages, CheckEntry);
  }

  method ValidateEntries(packages: seq<PackageEntry>, valid: Check) returns (ok: bool)
    ensures ok <==> EntriesValid(packages, valid)
  {
    var seen: set<(string, string)> := {};
    for i := 0 to |packages|
      invariant EntriesValid(packages[..i], valid)
      invariant seen == Keys(packages[..i])
    {
      var p := packages[i];
      KeysSnoc(packages[..i], p, valid);
      assert packages[..i + 1] == packages[..i] + [p];
      if !valid(p) || Key(p) in seen {
        if EntriesValid(packages, valid) {
          PrefixOfValid(packages, valid, i + 1);
        }
        return false;
      }
      seen := seen + {Key(p)};
    }
    assert packages[..|packages|] == packages;
    return true;
  }

  /** The duplicate check compares texts: two entries can carry one name and one parsed version. */
  lemma DuplicateVersionsPass(v: DriverVersion, p: PackageEntry, q: PackageEntry)
    requires Printable(v) && v.preRelease.None?
    requires p.version == DisplayVersion(v) && q.version == DisplayVersion(v) + ".0"
    ensures ParseVersion(p.version) == ParseVersion(q.version)
    ensures forall valid: Check | valid(p) && valid(q) :: EntriesValid([p, q], valid)
  {
    FourthComponentIsDropped(v);
    assert |p.version| != |q.version|;
    PairIsValid(p, q);
  }

  lemma PairIsValid(p: PackageEntry, q: PackageEntry)
    requires p.version != q.version
    ensures forall valid: Check | valid(p) && valid(q) :: EntriesValid([p, q], valid)
  {
    forall valid: Check | valid(p) && valid(q) ensures EntriesValid([p, q], valid) {
      EntriesValidMeaning([p, q], valid);
    }
  }

  // ── Freshness ──────────────────────────────────────────────────

  datatype Staleness = Fresh | FromTheFuture | Expired | TooOld

  function SaturatingSub(a: nat, b: nat): nat {
    if a < b then 0 else a - b
  }

  /** 64-bit addition. */
  function WrappingAdd(a: nat, b: nat): nat {
    if a + b < U64_LIMIT then a + b else a + b - U64_LIMIT
  }

  function CheckFreshness(m: Manifest, policy: FreshnessPolicy, now: nat): Staleness
    requires now < U64_LIMIT && policy.clockSkewSecs < U64_LIMIT
  {
    if m.issuedAt > WrappingAdd(now, policy.clockSkewSecs) then FromTheFuture
    else if m.expiresAt < SaturatingSub(now, policy.clockSkewSecs) then Expired
    else if SaturatingSub(now, m.issuedAt) > policy.maxAgeSecs then TooOld
    else Fresh
  }

  /** The accepted clock values are one interval, while the skewed clock fits 64 bits. */
  lemma FreshExactly(m: Manifest, policy: FreshnessPolicy, now: nat)
    requires now + policy.clockSkewSecs < U64_LIMIT
    ensures CheckFreshness(m, policy, now).Fresh? <==>
            && m.issuedAt - policy.clockSkewSecs <= now
            && now <= m.expiresAt + policy.clockSkewSecs
            && now <= m.issuedAt + policy.maxAgeSecs
    ensures CheckFreshness(m, policy, now).FromTheFuture? <==> now + policy.clockSkewSecs < m.issuedAt
    ensures CheckFreshness(m, policy, now).Expired? <==>
            m.issuedAt <= now + policy.clockSkewSecs && m.expiresAt + policy.clockSkewSecs < now
  {
  }

  /** No replay: on a clock that never runs back, a manifest once stale stays rejected. */
  lemma StaleStaysRejected(m: Manifest, policy: FreshnessPolicy, now: nat, later: nat)
    requires now <= later < U64_LIMIT && policy.clockSkewSecs < U64_LIMIT
    requires CheckFreshness(m, policy, now) in {Expired, TooOld}
    ensures !CheckFreshness(m, policy, later).Fresh?
  {
  }

  // ── Signature ──────────────────────────────────────────────────

  datatype VerifyAnswer = Valid | Invalid | Malformed

  /** Public key, message and signature. */
  type Verifier = (Bytes, Bytes, Bytes) -> VerifyAnswer

  predicate Decodes(hex: string, length: nat)
    ensures Decodes(hex, length) <==> exists bytes :: RepositoryDecode(hex) == Decoded(Some(bytes)) && |bytes| == length
  {
    match RepositoryDecode(hex)
    case Decoded(Some(bytes)) => |bytes| == length
    case _ => false
  }

  function Contents(hex: string): (bytes: Bytes)
    requires RepositoryDecode(hex).Decoded? && RepositoryDecode(hex).value.Some?
    ensures RepositoryDecode(hex) == Decoded(Some(bytes))
  {
    RepositoryDecode(hex).value.value
  }

  /** A well-formed key under which the signature is valid. */
  ghost predicate KeyAccepts(verify: Verifier, json: Bytes, signature: Bytes, key: string) {
    Decodes(key, 32) && verify(Contents(key), json, signature).Valid?
  }

  /** A well-formed signature and a key that accepts it. */
  ghost predicate Validates(verify: Verifier, json: Bytes, signatureHex: string, key: string) {
    match (RepositoryDecode(signatureHex), RepositoryDecode(key))
    case (Decoded(Some(signature)), Decoded(Some(publicKey))) =>
      |signature| == 64 && |publicKey| == 32 && verify(publicKey, json, signature) == Valid
    case _ => false
  }

  /** The decoder's slicing panics on the text: `PackageDigest.PanicsExactly`. */
  ghost predicate Panics(hex: string) {
    CutsCharacter(hex)
  }

  datatype KeySearch = Accepting(at: nat) | NoKey | PanicAt(at: nat)

  function Stop(found: KeySearch, keys: seq<string>): nat {
    match found case Accepting(i) => i case PanicAt(i) => i case NoKey => |keys|
  }

  /** Where the search ends: at the first key that accepts or panics, or after the last key. */
  ghost predicate StopsAt(verify: Verifier, json: Bytes, signature: Bytes, keys: seq<string>, found: KeySearch) {
    var stop := Stop(found, keys);
    && stop <= |keys|
    && (forall j | 0 <= j < stop :: !KeyAccepts(verify, json, signature, keys[j]) && !Panics(keys[j]))
    && (found.Accepting? ==> stop < |keys| && KeyAccepts(verify, json, signature, keys[stop]))
    && (found.PanicAt? ==> stop < |keys| && Panics(keys[stop]))
  }

  /** Try the trusted keys in order, skipping malformed ones. */
  method FirstAcceptingKey(verify: Verifier, json: Bytes, signature: Bytes, keys: seq<string>)
    returns (found: KeySearch)
    ensures StopsAt(verify, json, signature, keys, found)
  {
    for i := 0 to |keys|
      invariant forall j | 0 <= j < i :: !KeyAccepts(verify, json, signature, keys[j]) && !Panics(keys[j])
    {
      PanicsExactly(keys[i]);
      if RepositoryDecode(keys[i]).Panic? {
        return PanicAt(i);
      }
      if !Decodes(keys[i], 32) {
        continue;
      }
      match verify(Contents(keys[i]), json, signature) {
        case Valid => return Accepting(i);
        case Invalid => continue;
        case Malformed => continue;
      }
    }
    return NoKey;
  }

  /** Key `i` is the first that validates, and no key before it panics. */
  ghost predicate FirstValid(verify: Verifier, json: Bytes, signatureHex: string, keys: seq<string>, i: nat) {
    && i < |keys| && Validates(verify, json, signatureHex, keys[i])
    && forall j | 0 <= j < i :: !Validates(verify, json, signatureHex, keys[j]) && !Panics(keys[j])
  }

  /** The search reaches key `i`, which panics. */
  ghost predicate ReachesPanic(verify: Verifier, json: Bytes, signatureHex: string, keys: seq<string>, i: nat) {
    && i < |keys| && Panics(keys[i])
    && forall j | 0 <= j < i :: !Validates(verify, json, signatureHex, keys[j])
  }

  ghost predicate SignaturePanics(verify: Verifier, json: Bytes, signatureHex: string, keys: seq<string>) {
    Panics(signatureHex) || (Decodes(signatureHex, 64) && exists i: nat :: ReachesPanic(verify, json, signatureHex, keys, i))
  }

  /** The same stop, told in terms of the signature text. */
  ghost predicate Settles(verify: Verifier, json: Bytes, signatureHex: string, keys: seq<string>, found: KeySearch) {
    var stop := Stop(found, keys);
    && stop <= |keys|
    && (forall j | 0 <= j < stop :: !Validates(verify, json, signatureHex, keys[j]) && !Panics(keys[j]))
    && (found.Accepting? ==> stop < |keys| && Validates(verify, json, signatureHex, keys[stop]))
    && (found.PanicAt? ==> stop < |keys| && Panics(keys[stop]))
  }

  lemma KeyValidates(verify: Verifier, json: Bytes, signatureHex: string, key: string)
    requires Decodes(signatureHex, 64)
    ensures Validates(verify, json, signatureHex, key) <==> KeyAccepts(verify, json, Contents(signatureHex), key)
  {
  }

  lemma StopSettles(verify: Verifier, json: Bytes, signatureHex: string, keys: seq<string>, found: KeySearch)
    requires Decodes(signatureHex, 64) && StopsAt(verify, json, Contents(signatureHex), keys, found)
    ensures Settles(verify, json, signatureHex, keys, found)
  {
    forall j | 0 <= j < |keys|
      ensures Validates(verify, json, signatureHex, keys[j]) <==>
              KeyAccepts(verify, json, Contents(signatureHex), keys[j])
    {
      KeyValidates(verify, json, signatureHex, keys[j]);
    }
  }

  lemma SearchDecides(verify: Verifier, json: Bytes, signatureHex: string, keys: seq<string>, found: KeySearch)
    requires Settles(verify, json, signatureHex, keys, found)
    ensures (exists i: nat :: FirstValid(verify, json, signatureHex, keys, i)) <==> found.Accepting?
    ensures found.Accepting? ==> FirstValid(verify, json, signatureHex, keys, found.at)
    ensures (exists i: nat :: ReachesPanic(verify, json, signatureHex, keys, i)) <==> found.PanicAt?
  {
    assert found.Accepting? ==> FirstValid(verify, json, signatureHex, keys, found.at);
    assert found.PanicAt? ==> ReachesPanic(verify, json, signatureHex, keys, found.at);
    forall i: nat | i < |keys| && FirstValid(verify, json, signatureHex, keys, i) ensures found.Accepting? {
      StopsAtValid(verify, json, signatureHex, keys, found, i);
    }
    forall i: nat | i < |keys| && ReachesPanic(verify, json, signatureHex, keys, i) ensures found.PanicAt? {
      StopsAtPanic(verify, json, signatureHex, keys, found, i);
    }
  }

  /** What the two kinds of key leave behind them. */
  lemma KeyBefore(verify: Verifier, json: Bytes, signatureHex: string, keys: seq<string>, i: nat, j: nat)
    requires j < i && i < |keys|
    ensures FirstValid(verify, json, signatureHex, keys, i) ==>
              !Validates(verify, json, signatureHex, keys[j]) && !Panics(keys[j])
    ensures ReachesPanic(verify, json, signatureHex, keys, i) ==> !Validates(verify, json, signatureHex, keys[j])
  {
  }

  lemma StopsAtValid(verify: Verifier, json: Bytes, signatureHex: string, keys: seq<string>, found: KeySearch, i: nat)
    requires Settles(verify, json, signatureHex, keys, found) && i < |keys|
    ensures FirstValid(verify, json, signatureHex, keys, i) ==> found == Accepting(i)
  {
    ValidatesOrPanics(verify, json, signatureHex, keys[i]);
    if Stop(found, keys) < i {
      KeyBefore(verify, json, signatureHex, keys, i, Stop(found, keys));
    }
  }

  lemma StopsAtPanic(verify: Verifier, json: Bytes, signatureHex: string, keys: seq<string>, found: KeySearch, i: nat)
    requires Settles(verify, json, signatureHex, keys, found) && i < |keys|
    ensures ReachesPanic(verify, json, signatureHex, keys, i) ==> found.PanicAt?
  {
    var stop := Stop(found, keys);
    ValidatesOrPanics(verify, json, signatureHex, keys[i]);
    if stop <= i {
      StopIsPanic(verify, json, signatureHex, keys, found);
      if stop < i {
        KeyBefore(verify, json, signatureHex, keys, i, stop);
      }
    }
  }

  lemma StopIsPanic(verify: Verifier, json: Bytes, signatureHex: string, keys: seq<string>, found: KeySearch)
    requires Settles(verify, json, signatureHex, keys, found) && Stop(found, keys) < |keys|
    ensures Validates(verify, json, signatureHex, keys[Stop(found, keys)]) || found.PanicAt?
  {
  }

  lemma ValidatesOrPanics(verify: Verifier, json: Bytes, signatureHex: string, key: string)
    ensures !Validates(verify, json, signatureHex, key) || !Panics(key)
  {
    PanicsExactly(key);
  }

  /** `None` is a panic. */
  method VerifySignature(verify: Verifier, json: Bytes, signatureHex: string, trustedKeys: seq<string>)
    returns (result: Option<Verification>)
    ensures result.None? <==> SignaturePanics(verify, json, signatureHex, trustedKeys)
    ensures result.Some? && result.value.Verified? <==>
              exists i: nat :: FirstValid(verify, json, signatureHex, trustedKeys, i)
    ensures result.Some? && result.value.Verified? ==>
              exists i: nat :: FirstValid(verify, json, signatureHex, trustedKeys, i)
                            && result.value.keyId == trustedKeys[i]
    ensures result == Some(UnknownKey) <==> Decodes(signatureHex, 64) && trustedKeys == []
    ensures result != Some(Unverified)
  {
    PanicsExactly(signatureHex);
    if RepositoryDecode(signatureHex).Panic? {
      result := None;
    } else if !Decodes(signatureHex, 64) {
      result := Some(InvalidSignature);
    } else {
      var found := FirstAcceptingKey(verify, json, Contents(signatureHex), trustedKeys);
      StopSettles(verify, json, signatureHex, trustedKeys, found);
      SearchDecides(verify, json, signatureHex, trustedKeys, found);
      match found {
        case PanicAt(i) =>
          result := None;
        case Accepting(i) =>
          result := Some(Verified(trustedKeys[i]));
        case NoKey =>
          result := Some(if trustedKeys == [] then UnknownKey else InvalidSignature);
      }
    }
  }

  /** Without panicking keys, the order of the keys does not decide whether one validates. */
  lemma SomeKeyIsFirst(verify: Verifier, json: Bytes, signatureHex: string, keys: seq<string>)
    requires forall k | k in keys :: !Panics(k)
    ensures (exists i: nat :: FirstValid(verify, json, signatureHex, keys, i)) <==>
            (exists k :: k in keys && Validates(verify, json, signatureHex, k))
  {
    if k :| k in keys && Validates(verify, json, signatureHex, k) {
      var i: nat :| i < |keys| && keys[i] == k;
      FirstUpTo(verify, json, signatureHex, keys, i);
    }
  }

  lemma {:induction false} FirstUpTo(verify: Verifier, json: Bytes, signatureHex: string, keys: seq<string>, i: nat)
    requires forall k | k in keys :: !Panics(k)
    requires i < |keys| && Validates(verify, json, signatureHex, keys[i])
    ensures exists first: nat :: FirstValid(verify, json, signatureHex, keys, first)
  {
    if j: nat :| j < i && Validates(verify, json, signatureHex, keys[j]) {
      FirstUpTo(verify, json, signatureHex, keys, j);
    } else {
      assert FirstValid(verify, json, signatureHex, keys, i);
    }
  }

  lemma AsciiHexNeverPanics(hex: string)
    requires Ascii(hex)
    ensures !Panics(hex)
  {
    DecodersAgreeOnAscii(hex);
    PanicsExactly(hex);
  }

  // ── The whole check ────────────────────────────────────────────

  datatype ManifestError = Malstructured | Stale(staleness: Staleness) | BadSignature | NoTrustedKeys | NotVerified | Panicked

  ghost predicate InWindow(m: Manifest, policy: FreshnessPolicy, now: nat) {
    && m.issuedAt - policy.clockSkewSecs <= now
    && now <= m.expiresAt + policy.clockSkewSecs
    && now <= m.issuedAt + policy.maxAgeSecs
  }

  /**
   Accepted exactly when the structure is valid, the clock is inside the window and some
   trusted key validates the received bytes; the manifest then names the first such key.
   */
  method VerifyManifest(policy: FreshnessPolicy, verify: Verifier, json: Bytes, manifest: Manifest,
                        signatureHex: string, trustedKeys: seq<string>, now: nat)
    returns (result: Result<Manifest, ManifestError>)
    requires now + policy.clockSkewSecs < U64_LIMIT
    ensures result.Ok? <==>
              && Structured(manifest) && InWindow(manifest, policy, now)
              && exists i: nat :: FirstValid(verify, json, signatureHex, trustedKeys, i)
    ensures result.Ok? ==>
              exists i: nat :: FirstValid(verify, json, signatureHex, trustedKeys, i)
                            && result.value == manifest.(verification := Verified(trustedKeys[i]))
    ensures result == Err(Malstructured) <==> !Structured(manifest)
    ensures result.Err? && result.error.Stale? <==> Structured(manifest) && !InWindow(manifest, policy, now)
    ensures result == Err(Panicked) <==>
              && Structured(manifest) && InWindow(manifest, policy, now)
              && SignaturePanics(verify, json, signatureHex, trustedKeys)
    ensures result == Err(NoTrustedKeys) <==>
              && Structured(manifest) && InWindow(manifest, policy, now)
              && Decodes(signatureHex, 64) && trustedKeys == []
    ensures result != Err(NotVerified)
  {
    var valid := Validate(manifest);
    if !valid {
      return Err(Malstructured);
    }
    FreshExactly(manifest, policy, now);
    var staleness := CheckFreshness(manifest, policy, now);
    if !staleness.Fresh? {
      return Err(Stale(staleness));
    }
    var verification := VerifySignature(verify, json, signatureHex, trustedKeys);
    match verification {
      case None => return Err(Panicked);
      case Some(Verified(key)) => return Ok(manifest.(verification := Verified(key)));
      case Some(InvalidSignature) => return Err(BadSignature);
      case Some(UnknownKey) => return Err(NoTrustedKeys);
      case Some(Unverified) => return Err(NotVerified);
    }
  }
}
