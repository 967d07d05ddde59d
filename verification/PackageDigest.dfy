/**
 Package digests and the three hex decoders of the service (metadata.rs, repository.rs,
 verification.rs).  The decoders work on the UTF-8 bytes of a text.
 */
module PackageDigest {
  import opened Wrappers
  import opened Text

  /** Digest and package contents. */
  type Bytes = seq<bv8>

  /** One byte of UTF-8 text. */
  newtype CodeUnit = x: int | 0 <= x < 256

  // ── UTF-8 ──────────────────────────────────────────────────────

  function Utf8Char(c: char): (units: seq<CodeUnit>)
    ensures 1 <= |units| <= 4
    ensures c as int < 128 ==> units == [c as int as CodeUnit]
    ensures c as int >= 128 ==> forall b | b in units :: b >= 128
  {
    var n := c as int;
    if n < 0x80 then [n as CodeUnit]
    else if n < 0x800 then [(0xC0 + n / 64) as CodeUnit, (0x80 + n % 64) as CodeUnit]
    else if n < 0x10000 then
      [(0xE0 + n / 4096) as CodeUnit, (0x80 + n / 64 % 64) as CodeUnit, (0x80 + n % 64) as CodeUnit]
    else
      [(0xF0 + n / 262144) as CodeUnit, (0x80 + n / 4096 % 64) as CodeUnit,
       (0x80 + n / 64 % 64) as CodeUnit, (0x80 + n % 64) as CodeUnit]
  }

  function Utf8(s: string): seq<CodeUnit> {
    if s == [] then [] else Utf8Char(s[0]) + Utf8(s[1..])
  }

  ghost predicate Ascii(s: string) {
    forall i | 0 <= i < |s| :: (s[i] as int) < 128
  }

  lemma {:induction false} Utf8OfAscii(s: string)
    requires Ascii(s)
    ensures |Utf8(s)| == |s| && forall i | 0 <= i < |s| :: Utf8(s)[i] as int == s[i] as int
  {
    if s != [] {
      Utf8OfAscii(s[1..]);
    }
  }

  // ── Hex ────────────────────────────────────────────────────────

  function HexDigit(n: bv8): (c: char)
    requires n < 16
    ensures '0' <= c <= '9' || 'a' <= c <= 'f'
    ensures HexValue(c as int as CodeUnit) == Some(n)
  {
    match n
    case 0 => '0' case 1 => '1' case 2 => '2' case 3 => '3'
    case 4 => '4' case 5 => '5' case 6 => '6' case 7 => '7'
    case 8 => '8' case 9 => '9' case 10 => 'a' case 11 => 'b'
    case 12 => 'c' case 13 => 'd' case 14 => 'e' case _ => 'f'
  }

  function HexEncode(bytes: Bytes): string {
    if bytes == [] then []
    else [HexDigit(bytes[0] >> 4), HexDigit(bytes[0] & 15)] + HexEncode(bytes[1..])
  }

  function HexValue(u: CodeUnit): Option<bv8> {
    if u >= 128 then None
    else
      match u as int as char
      case '0' => Some(0) case '1' => Some(1) case '2' => Some(2) case '3' => Some(3)
      case '4' => Some(4) case '5' => Some(5) case '6' => Some(6) case '7' => Some(7)
      case '8' => Some(8) case '9' => Some(9)
      case 'a' | 'A' => Some(10) case 'b' | 'B' => Some(11) case 'c' | 'C' => Some(12)
      case 'd' | 'D' => Some(13) case 'e' | 'E' => Some(14) case 'f' | 'F' => Some(15)
      case _ => None
  }

  /** `u8::from_str_radix(_, 16)` on two ASCII characters: a leading plus sign is allowed. */
  function PairValue(a: CodeUnit, b: CodeUnit): Option<bv8> {
    if a as int == '+' as int then HexValue(b)
    else
      match (HexValue(a), HexValue(b))
      case (Some(h), Some(l)) => Some((h << 4) | l)
      case _ => None
  }

  predicate IsAscii(b: CodeUnit) {
    b < 128
  }

  /** A two-byte piece that is UTF-8 on its own. */
  predicate PieceIsUtf8(a: CodeUnit, b: CodeUnit) {
    (IsAscii(a) && IsAscii(b)) || (0xC2 <= a <= 0xDF && 0x80 <= b <= 0xBF)
  }

  /** The metadata decoder: a piece that is not UTF-8 counts as `00`. */
  function MetadataPieces(units: seq<CodeUnit>): Option<Bytes>
    requires |units| % 2 == 0
  {
    if units == [] then Some([])
    else
      var value := if PieceIsUtf8(units[0], units[1]) then PairValue(units[0], units[1]) else Some(0);
      match (value, MetadataPieces(units[2..]))
      case (Some(v), Some(rest)) => Some([v] + rest)
      case _ => None
  }

  function MetadataDecode(text: string): Option<Bytes> {
    var units := Utf8(Trim(text));
    if |units| % 2 != 0 then None else MetadataPieces(units)
  }

  /** The verifier's decoder keeps the readable pieces and then counts them. */
  function ReadablePieces(units: seq<CodeUnit>): (values: Bytes)
    requires |units| % 2 == 0
    ensures |values| <= |units| / 2
  {
    if units == [] then []
    else
      var rest := ReadablePieces(units[2..]);
      if PieceIsUtf8(units[0], units[1]) && PairValue(units[0], units[1]).Some?
      then [PairValue(units[0], units[1]).value] + rest
      else rest
  }

  function VerifierDecode(text: string): Option<Bytes> {
    var units := Utf8(Trim(text));
    if |units| % 2 != 0 then None
    else
      var values := ReadablePieces(units);
      if |values| == |units| / 2 then Some(values) else None
  }

  datatype Decoded = Decoded(value: Option<Bytes>) | Panic

  /** A slice may start or end only where a character does. */
  predicate IsBoundary(units: seq<CodeUnit>, i: nat)
    requires i <= |units|
  {
    i == |units| || !(0x80 <= units[i] <= 0xBF)
  }

  /** The repository decoder slices the text by two and stops at the first unreadable slice. */
  function RepositoryPieces(units: seq<CodeUnit>): Decoded
    requires |units| % 2 == 0
  {
    if units == [] then Decoded(Some([]))
    else if !IsBoundary(units, 0) || !IsBoundary(units, 2) then Panic
    else
      match PairValue(units[0], units[1])
      case None => Decoded(None)
      case Some(v) =>
        match RepositoryPieces(units[2..])
        case Decoded(Some(rest)) => Decoded(Some([v] + rest))
        case other => other
  }

  function RepositoryDecode(text: string): Decoded {
    var units := Utf8(Trim(text));
    if |units| % 2 != 0 then Decoded(None) else RepositoryPieces(units)
  }

  // ── When the repository decoder panics ─────────────────────────

  predicate IsHexPair(units: seq<CodeUnit>, i: nat)
    requires i + 1 < |units|
  {
    PairValue(units[i], units[i + 1]).Some?
  }

  /** Slicing reaches the even position `i`, which is inside a character, over hex pairs only. */
  ghost predicate CutsAt(units: seq<CodeUnit>, i: nat) {
    && i <= |units| && i % 2 == 0 && !IsBoundary(units, i)
    && (forall j: nat | j < i && j % 2 == 0 :: IsBoundary(units, j))
    && (forall j: nat | j + 2 < i && j % 2 == 0 :: IsHexPair(units, j))
  }

  lemma {:induction false} PiecesPanicExactly(units: seq<CodeUnit>)
    requires |units| % 2 == 0
    ensures RepositoryPieces(units).Panic? <==> exists i: nat :: CutsAt(units, i)
  {
    if units == [] {
      assert forall i: nat | i <= 0 :: IsBoundary(units, i);
    } else if !IsBoundary(units, 0) {
      assert CutsAt(units, 0);
    } else if !IsBoundary(units, 2) {
      assert CutsAt(units, 2);
    } else {
      PiecesPanicExactly(units[2..]);
      if i: nat :| CutsAt(units[2..], i) {
        CutMovesBy(units, i);
      }
      if i: nat :| CutsAt(units, i) {
        CutMovesBy(units, i - 2);
      }
    }
  }

  /** Past a whole first pair, a cut of the text is a cut of the rest. */
  lemma CutMovesBy(units: seq<CodeUnit>, i: nat)
    requires |units| >= 2 && |units| % 2 == 0 && IsBoundary(units, 0) && IsBoundary(units, 2)
    ensures CutsAt(units, i + 2) <==> CutsAt(units[2..], i) && IsHexPair(units, 0)
  {
    var rest := units[2..];
    assert forall k: nat | k <= |rest| :: IsBoundary(rest, k) <==> IsBoundary(units, k + 2);
    assert forall k: nat | k + 1 < |rest| :: IsHexPair(rest, k) <==> IsHexPair(units, k + 2);
    if CutsAt(rest, i) && IsHexPair(units, 0) {
      assert i > 0;
      forall j: nat | j < i + 2 && j % 2 == 0 ensures IsBoundary(units, j) {
        assert j >= 2 ==> IsBoundary(rest, j - 2);
      }
      forall j: nat | j + 2 < i + 2 && j % 2 == 0 ensures IsHexPair(units, j) {
        assert j >= 2 ==> IsHexPair(rest, j - 2);
      }
    }
    if CutsAt(units, i + 2) {
      assert IsBoundary(units, 2) && i > 0;
      assert IsHexPair(units, 0);
    }
  }

  /**
   The repository decoder panics exactly on texts of even length in UTF-8 whose first slice
   boundary inside a character comes after hex pairs only.
   */
  ghost predicate CutsCharacter(text: string) {
    var units := Utf8(Trim(text));
    |units| % 2 == 0 && exists i: nat :: CutsAt(units, i)
  }

  lemma PanicsExactly(text: string)
    ensures RepositoryDecode(text).Panic? <==> CutsCharacter(text)
  {
    var units := Utf8(Trim(text));
    if |units| % 2 == 0 {
      PiecesPanicExactly(units);
    }
  }

  // ── What the byte tests mean ───────────────────────────────────

  /** A hex digit in either case, with its value. */
  lemma HexValueExactly(u: CodeUnit, n: bv8)
    ensures HexValue(u) == Some(n) <==>
            || ('0' as int <= u as int <= '9' as int && n as int == u as int - '0' as int)
            || ('a' as int <= u as int <= 'f' as int && n as int == u as int - 'a' as int + 10)
            || ('A' as int <= u as int <= 'F' as int && n as int == u as int - 'A' as int + 10)
  {
  }

  /** The number of a character, read back from its UTF-8 bytes as RFC 3629 defines them. */
  function CodePoint(units: seq<CodeUnit>): int {
    if |units| == 1 then units[0] as int
    else if |units| == 2 then (units[0] as int - 0xC0) * 64 + (units[1] as int - 0x80)
    else if |units| == 3 then
      (units[0] as int - 0xE0) * 4096 + (units[1] as int - 0x80) * 64 + (units[2] as int - 0x80)
    else if |units| == 4 then
      (units[0] as int - 0xF0) * 262144 + (units[1] as int - 0x80) * 4096
      + (units[2] as int - 0x80) * 64 + (units[3] as int - 0x80)
    else 0
  }

  predicate IsContinuation(u: CodeUnit) {
    0x80 <= u <= 0xBF
  }

  /** Dividing by 64 once, twice and three times. */
  lemma Digits64(n: nat)
    ensures n == n / 64 * 64 + n % 64
    ensures n == n / 4096 * 4096 + n / 64 % 64 * 64 + n % 64
    ensures n == n / 262144 * 262144 + n / 4096 % 64 * 4096 + n / 64 % 64 * 64 + n % 64
  {
    DivideTwice(n);
    DivideThrice(n);
  }

  lemma DivideTwice(n: nat)
    ensures n / 4096 == n / 64 / 64
  {
    var m, r := n / 64, n % 64;
    var q, t := m / 64, m % 64;
    assert n == 4096 * q + (64 * t + r) && 64 * t + r < 4096;
  }

  lemma DivideThrice(n: nat)
    ensures n / 262144 == n / 4096 / 64
  {
    var m, r := n / 4096, n % 4096;
    var q, t := m / 64, m % 64;
    assert n == 262144 * q + (4096 * t + r) && 4096 * t + r < 262144;
  }

  /** The bytes of a character give it back; the first one alone is not a continuation byte. */
  lemma Utf8CharReadsBack(c: char)
    ensures CodePoint(Utf8Char(c)) == c as int
    ensures !IsContinuation(Utf8Char(c)[0]) && forall i | 0 < i < |Utf8Char(c)| :: IsContinuation(Utf8Char(c)[i])
  {
    Digits64(c as int);
    CodePointSums(c);
    LeadAndContinuations(c);
  }

  lemma CodePointSums(c: char)
    ensures var n := c as int;
            CodePoint(Utf8Char(c)) ==
              if n < 0x80 then n
              else if n < 0x800 then n / 64 * 64 + n % 64
              else if n < 0x10000 then n / 4096 * 4096 + n / 64 % 64 * 64 + n % 64
              else n / 262144 * 262144 + n / 4096 % 64 * 4096 + n / 64 % 64 * 64 + n % 64
  {
  }

  lemma LeadAndContinuations(c: char)
    ensures !IsContinuation(Utf8Char(c)[0]) && forall i | 0 < i < |Utf8Char(c)| :: IsContinuation(Utf8Char(c)[i])
  {
  }

  /** Slices may start exactly where a character does. */
  lemma {:induction false} BoundaryExactly(text: string, i: nat)
    requires i <= |Utf8(text)|
    ensures IsBoundary(Utf8(text), i) <==> exists k: nat :: k <= |text| && i == |Utf8(text[..k])|
  {
    if text == [] {
      assert text[..0] == [];
    } else {
      var first, rest := Utf8Char(text[0]), text[1..];
      Utf8CharReadsBack(text[0]);
      assert Utf8(text) == first + Utf8(rest);
      forall k: nat | k <= |rest| ensures |Utf8(text[..k + 1])| == |first| + |Utf8(rest[..k])| {
        assert text[..k + 1][1..] == rest[..k];
      }
      assert |Utf8(text[..0])| == 0;
      if i >= |first| {
        BoundaryExactly(rest, i - |first|);
        if k: nat :| k <= |rest| && i - |first| == |Utf8(rest[..k])| {
          assert i == |Utf8(text[..k + 1])|;
        }
        if k: nat :| k <= |text| && i == |Utf8(text[..k])| {
          assert k > 0 && i == |first| + |Utf8(rest[..k - 1])|;
        }
      } else {
        forall k: nat | 0 < k <= |text| ensures |Utf8(text[..k])| >= |first| {
          assert |Utf8(text[..(k - 1) + 1])| == |first| + |Utf8(rest[..k - 1])|;
        }
      }
    }
  }

  // ── Agreement of the decoders ──────────────────────────────────

  lemma {:induction false} PiecesAgree(units: seq<CodeUnit>)
    requires |units| % 2 == 0 && forall i | 0 <= i < |units| :: IsAscii(units[i])
    ensures RepositoryPieces(units) == Decoded(MetadataPieces(units))
    ensures MetadataPieces(units) ==
            if |ReadablePieces(units)| == |units| / 2 then Some(ReadablePieces(units)) else None
  {
    if units != [] {
      PiecesAgree(units[2..]);
    }
  }

  lemma TrimWithin(text: string)
    ensures forall c | c in Trim(text) :: c in text
  {
    TrimStartWithin(text);
    TrimEndWithin(TrimStart(text));
  }

  lemma TrimStartWithin(s: string)
    ensures forall c | c in TrimStart(s) :: c in s
  {
  }

  lemma TrimEndWithin(s: string)
    ensures forall c | c in TrimEnd(s) :: c in s
  {
    TrimEndEdge(s);
  }

  /** The three hex decoders agree on every ASCII text. */
  lemma DecodersAgreeOnAscii(text: string)
    requires Ascii(text)
    ensures MetadataDecode(text) == VerifierDecode(text)
    ensures RepositoryDecode(text) == Decoded(MetadataDecode(text))
  {
    TrimWithin(text);
    var trimmed := Trim(text);
    forall i | 0 <= i < |trimmed| ensures (trimmed[i] as int) < 128 {
      assert trimmed[i] in text;
    }
    Utf8OfAscii(trimmed);
    if |trimmed| % 2 == 0 {
      PiecesAgree(Utf8(trimmed));
    }
  }

  /** Some two-byte piece is not UTF-8. */
  ghost predicate Straddles(units: seq<CodeUnit>) {
    exists i :: 0 <= i < |units| - 1 && i % 2 == 0 && !PieceIsUtf8(units[i], units[i + 1])
  }

  /** Some two-byte piece is UTF-8 but not a hex pair. */
  ghost predicate HasBadPair(units: seq<CodeUnit>) {
    exists i :: 0 <= i < |units| - 1 && i % 2 == 0 && PieceIsUtf8(units[i], units[i + 1])
             && PairValue(units[i], units[i + 1]).None?
  }

  lemma {:induction false} PiecesExactly(units: seq<CodeUnit>)
    requires |units| % 2 == 0
    ensures MetadataPieces(units).Some? <==> !HasBadPair(units)
    ensures |ReadablePieces(units)| == |units| / 2 <==> !HasBadPair(units) && !Straddles(units)
    ensures !HasBadPair(units) && !Straddles(units) ==> MetadataPieces(units) == Some(ReadablePieces(units))
  {
    if units != [] {
      var rest := units[2..];
      PiecesExactly(rest);
      FirstOrLaterStraddles(units);
      FirstOrLaterBadPair(units);
    }
  }

  lemma FirstOrLaterStraddles(units: seq<CodeUnit>)
    requires |units| >= 2
    ensures Straddles(units) <==> !PieceIsUtf8(units[0], units[1]) || Straddles(units[2..])
  {
    var rest := units[2..];
    if i :| 0 <= i < |rest| - 1 && i % 2 == 0 && !PieceIsUtf8(rest[i], rest[i + 1]) {
      assert !PieceIsUtf8(units[i + 2], units[i + 3]);
    }
    if i :| 2 <= i < |units| - 1 && i % 2 == 0 && !PieceIsUtf8(units[i], units[i + 1]) {
      assert !PieceIsUtf8(rest[i - 2], rest[i - 1]);
    }
  }

  lemma FirstOrLaterBadPair(units: seq<CodeUnit>)
    requires |units| >= 2
    ensures HasBadPair(units) <==>
            (PieceIsUtf8(units[0], units[1]) && PairValue(units[0], units[1]).None?) || HasBadPair(units[2..])
  {
    var rest := units[2..];
    if i :| 0 <= i < |rest| - 1 && i % 2 == 0 && PieceIsUtf8(rest[i], rest[i + 1])
            && PairValue(rest[i], rest[i + 1]).None? {
      assert PieceIsUtf8(units[i + 2], units[i + 3]);
    }
    if i :| 2 <= i < |units| - 1 && i % 2 == 0 && PieceIsUtf8(units[i], units[i + 1])
            && PairValue(units[i], units[i + 1]).None? {
      assert PieceIsUtf8(rest[i - 2], rest[i - 1]);
    }
  }

  /**
   The metadata and verifier decoders part exactly on texts of even length in which some
   piece cuts a character and no other piece is bad: metadata reads such pieces as zero.
   */
  lemma DecodersPartExactly(text: string)
    ensures var units := Utf8(Trim(text));
            MetadataDecode(text) != VerifierDecode(text) <==>
            |units| % 2 == 0 && Straddles(units) && !HasBadPair(units)
  {
    var units := Utf8(Trim(text));
    if |units| % 2 == 0 {
      PiecesExactly(units);
    }
  }

  /** One text on which the decoders give three answers: a euro sign and a digit. */
  const EURO: string := "\U{20AC}0"

  lemma ThreeAnswers()
    ensures RepositoryDecode(EURO).Panic?
    ensures MetadataDecode(EURO) == Some([0, 0]) && VerifierDecode(EURO).None?
  {
    assert !IsWhiteSpace(EURO[0]) && !IsWhiteSpace(EURO[1]);
    assert Trim(EURO) == EURO;
    var units := Utf8(EURO);
    assert units == [0xE2, 0x82, 0xAC, 0x30] by { EuroUnits(EURO); }
    assert !IsBoundary(units, 2);
    var rest := units[2..];
    assert rest == [0xAC, 0x30] && rest[2..] == [];
    assert !PieceIsUtf8(units[0], units[1]) && !PieceIsUtf8(rest[0], rest[1]);
    var zero: Bytes := [0];
    assert zero + [] == zero && zero + zero == [0, 0];
    CutPiece(rest, []);
    CutPiece(units, zero);
  }

  /** The metadata decoder reads a pair that is not UTF-8 as zero. */
  lemma CutPiece(units: seq<CodeUnit>, rest: Bytes)
    requires |units| >= 2 && |units| % 2 == 0 && !PieceIsUtf8(units[0], units[1])
    requires MetadataPieces(units[2..]) == Some(rest)
    ensures MetadataPieces(units) == Some([0] + rest)
  {
  }

  lemma EuroUnits(text: string)
    requires |text| == 2 && text[0] as int == 0x20AC && text[1] == '0'
    ensures Utf8(text) == [0xE2, 0x82, 0xAC, 0x30]
  {
    assert Utf8Char(text[0]) == [0xE2, 0x82, 0xAC];
    assert Utf8(text[1..]) == [0x30] by { assert text[1..][1..] == []; }
  }

  // ── Which texts are accepted as hex ────────────────────────────

  /** Every pair is readable: two hex digits, or a plus sign and one. */
  ghost predicate AllReadable(units: seq<CodeUnit>) {
    |units| % 2 == 0 && forall i: nat | i < |units| && i % 2 == 0 :: IsHexPair(units, i)
  }

  /** What the decoders promise to read: an even number of hex digits. */
  ghost predicate ValidHex(text: string) {
    var units := Utf8(Trim(text));
    |units| % 2 == 0 && forall i: nat | i < |units| :: HexValue(units[i]).Some?
  }

  /** Readable, but some pair starts with a plus sign. */
  ghost predicate PlusOnly(text: string) {
    var units := Utf8(Trim(text));
    AllReadable(units) && exists i: nat :: i < |units| && i % 2 == 0 && units[i] as int == '+' as int
  }

  lemma PlusIsNoDigit(u: CodeUnit)
    ensures HexValue(u).Some? ==> IsAscii(u) && u as int != '+' as int
  {
  }

  /** A readable pair holds two hex digits, or a plus sign first. */
  lemma ReadablePair(units: seq<CodeUnit>, i: nat)
    requires i + 1 < |units|
    ensures IsHexPair(units, i) <==>
            HexValue(units[i + 1]).Some? && (HexValue(units[i]).Some? || units[i] as int == '+' as int)
    ensures IsHexPair(units, i) ==> IsAscii(units[i]) && IsAscii(units[i + 1])
  {
    PlusIsNoDigit(units[i]);
    PlusIsNoDigit(units[i + 1]);
  }

  /** The readable texts are the valid ones and those with a plus sign, and no text is both. */
  lemma ReadableExactly(text: string)
    ensures AllReadable(Utf8(Trim(text))) <==> ValidHex(text) || PlusOnly(text)
    ensures !(ValidHex(text) && PlusOnly(text))
  {
    var units := Utf8(Trim(text));
    if |units| % 2 == 0 {
      forall i: nat | i < |units| && i % 2 == 0
        ensures IsHexPair(units, i) <==>
                HexValue(units[i + 1]).Some? && (HexValue(units[i]).Some? || units[i] as int == '+' as int)
      {
        ReadablePair(units, i);
      }
      if AllReadable(units) && !PlusOnly(text) {
        forall i: nat | i < |units| ensures HexValue(units[i]).Some? {
          assert IsHexPair(units, if i % 2 == 0 then i else i - 1);
        }
      }
      if ValidHex(text) && PlusOnly(text) {
        var i: nat :| i < |units| && i % 2 == 0 && units[i] as int == '+' as int;
        PlusIsNoDigit(units[i]);
      }
    }
  }

  /** Readability is decided pair by pair. */
  lemma FirstPairFirst(units: seq<CodeUnit>)
    requires |units| >= 2
    ensures AllReadable(units) <==> IsHexPair(units, 0) && AllReadable(units[2..])
  {
    var rest := units[2..];
    assert forall k: nat | k + 1 < |rest| :: IsHexPair(rest, k) <==> IsHexPair(units, k + 2);
    if IsHexPair(units, 0) && AllReadable(rest) {
      forall i: nat | i < |units| && i % 2 == 0 ensures IsHexPair(units, i) {
        assert i >= 2 ==> IsHexPair(rest, i - 2);
      }
    }
    if AllReadable(units) {
      forall i: nat | i < |rest| && i % 2 == 0 ensures IsHexPair(rest, i) {
        assert IsHexPair(units, i + 2);
      }
    }
  }

  lemma {:induction false} RepositoryReadsExactly(units: seq<CodeUnit>)
    requires |units| % 2 == 0
    ensures RepositoryPieces(units).Decoded? && RepositoryPieces(units).value.Some? <==> AllReadable(units)
  {
    if units != [] {
      FirstPairFirst(units);
      ReadablePair(units, 0);
      RepositoryReadsExactly(units[2..]);
      if AllReadable(units) && |units| > 2 {
        ReadablePair(units, 2);
      }
    }
  }

  lemma {:induction false} VerifierReadsExactly(units: seq<CodeUnit>)
    requires |units| % 2 == 0
    ensures |ReadablePieces(units)| == |units| / 2 <==> AllReadable(units)
  {
    if units != [] {
      FirstPairFirst(units);
      ReadablePair(units, 0);
      VerifierReadsExactly(units[2..]);
    }
  }

  /**
   The repository decoder answers `None` for all and only the texts that are not hex, except
   exactly where it panics and where it takes a plus sign.
   */
  lemma RepositoryAcceptsExactly(text: string)
    ensures (RepositoryDecode(text) == Decoded(None) <==> !ValidHex(text)) <==>
            !(CutsCharacter(text) || PlusOnly(text))
    ensures RepositoryDecode(text).Decoded? && RepositoryDecode(text).value.Some? <==>
            ValidHex(text) || PlusOnly(text)
  {
    ReadableExactly(text);
    PanicsExactly(text);
    var units := Utf8(Trim(text));
    if |units| % 2 == 0 {
      RepositoryReadsExactly(units);
    }
  }

  /** The verifier's decoder accepts exactly hex, except where it takes a plus sign. */
  lemma VerifierAcceptsExactly(text: string)
    ensures (VerifierDecode(text).Some? <==> ValidHex(text)) <==> !PlusOnly(text)
  {
    ReadableExactly(text);
    var units := Utf8(Trim(text));
    if |units| % 2 == 0 {
      VerifierReadsExactly(units);
    }
  }

  /** Some pair is not UTF-8 and every other pair is readable. */
  ghost predicate CutOnly(text: string) {
    var units := Utf8(Trim(text));
    |units| % 2 == 0 && Straddles(units) && !HasBadPair(units)
  }

  /** The metadata decoder accepts exactly hex, except where it takes a plus sign or reads cut characters as zero. */
  lemma MetadataAcceptsExactly(text: string)
    ensures (MetadataDecode(text).Some? <==> ValidHex(text)) <==> !(PlusOnly(text) || CutOnly(text))
  {
    VerifierAcceptsExactly(text);
    ReadableExactly(text);
    var units := Utf8(Trim(text));
    if |units| % 2 == 0 {
      PiecesExactly(units);
      VerifierReadsExactly(units);
    }
  }

  /** One value has two spellings for every decoder. */
  lemma PlusIsASpelling()
    ensures PlusOnly("+5") && ValidHex("05")
    ensures RepositoryDecode("+5") == RepositoryDecode("05") == Decoded(Some([5]))
    ensures MetadataDecode("+5") == MetadataDecode("05") == Some([5])
    ensures VerifierDecode("+5") == VerifierDecode("05") == Some([5])
  {
    TwoCharacters("+5");
    TwoCharacters("05");
  }

  lemma TwoCharacters(text: string)
    requires text in {"+5", "05"}
    ensures Trim(text) == text && Utf8(text) == [text[0] as int as CodeUnit, text[1] as int as CodeUnit]
    ensures RepositoryDecode(text) == Decoded(Some([5])) && MetadataDecode(text) == Some([5])
    ensures VerifierDecode(text) == Some([5])
  {
    assert !IsWhiteSpace(text[0]) && !IsWhiteSpace(text[1]);
    assert text[1..][1..] == [];
    var units := Utf8(text);
    assert units == Utf8Char(text[0]) + Utf8Char(text[1]);
    assert units[2..] == [];
    var five: Bytes := [5];
    assert five + [] == five;
    assert PairValue(units[0], units[1]) == Some(5);
  }

  // ── Two-byte pieces ────────────────────────────────────────────

  /** A two-byte piece is UTF-8 exactly when some text has just these bytes. */
  lemma PieceIsUtf8Exactly(a: CodeUnit, b: CodeUnit)
    ensures PieceIsUtf8(a, b) <==> exists text :: Utf8(text) == [a, b]
  {
    if PieceIsUtf8(a, b) {
      if IsAscii(a) {
        TextOfTwo(a as int as char, b as int as char);
      } else {
        TextOfOne(((a as int - 0xC0) * 64 + (b as int - 0x80)) as char);
      }
    }
    if text :| Utf8(text) == [a, b] {
      TwoBytes(text, a, b);
    }
  }

  lemma TextOfTwo(c: char, d: char)
    requires (c as int) < 128 && (d as int) < 128
    ensures Utf8([c, d]) == [c as int as CodeUnit, d as int as CodeUnit]
  {
    assert [c, d][1..] == [d];
    TextOfOne(d);
  }

  lemma TextOfOne(c: char)
    ensures Utf8([c]) == Utf8Char(c)
  {
    assert [c][1..] == [];
  }

  lemma TwoBytes(text: string, a: CodeUnit, b: CodeUnit)
    requires Utf8(text) == [a, b]
    ensures PieceIsUtf8(a, b)
  {
    var first := Utf8Char(text[0]);
    Utf8CharReadsBack(text[0]);
    var whole: seq<CodeUnit> := [a, b];
    assert whole == first + Utf8(text[1..]);
    assert a == whole[0] && b == whole[1];
    if |first| == 1 {
      var rest := text[1..];
      var last: seq<CodeUnit> := [b];
      assert whole[1..] == last && whole[1..] == Utf8(rest);
      Utf8CharReadsBack(rest[0]);
      assert last == Utf8Char(rest[0]) + Utf8(rest[1..]);
      assert b == last[0] && |Utf8Char(rest[0])| == 1;
    } else {
      assert |first| == 2;
    }
  }

  // ── Digests ────────────────────────────────────────────────────

  datatype PackageDigest = PackageDigest(algorithm: string, value: Bytes)

  datatype DigestError = MissingColon | UnsupportedAlgorithm | InvalidHex | WrongLength

  function OfLength32(algorithm: string, bytes: Bytes): Result<PackageDigest, DigestError> {
    if |bytes| != 32 then Err(WrongLength) else Ok(PackageDigest(algorithm, bytes))
  }

  function ParseDigest(text: string): Result<PackageDigest, DigestError> {
    var input := Trim(text);
    match Find(input, ':')
    case None => Err(MissingColon)
    case Some(k) =>
      var algorithm, hex := input[..k], input[k + 1..];
      if algorithm in {"sha256", "SHA256"} then
        match MetadataDecode(hex) case None => Err(InvalidHex) case Some(b) => OfLength32("sha256", b)
      else if algorithm in {"blake3", "BLAKE3"} then
        match MetadataDecode(hex) case None => Err(InvalidHex) case Some(b) => OfLength32("blake3", b)
      else
        Err(UnsupportedAlgorithm)
  }

  function ToHex(d: PackageDigest): string {
    HexEncode(d.value)
  }

  function ToStringFull(d: PackageDigest): string {
    d.algorithm + ":" + ToHex(d)
  }

  /** What hex text consists of: no white space, no dot, no colon. */
  ghost predicate HexText(s: string) {
    forall i | 0 <= i < |s| :: '0' <= s[i] <= '9' || 'a' <= s[i] <= 'f'
  }

  lemma {:induction false} EncodeShape(bytes: Bytes)
    ensures |HexEncode(bytes)| == 2 * |bytes| && HexText(HexEncode(bytes))
  {
    if bytes != [] {
      EncodeShape(bytes[1..]);
    }
  }

  lemma NibblesMeet(x: bv8)
    ensures ((x >> 4) << 4) | (x & 15) == x && x >> 4 < 16 && x & 15 < 16
  {
  }

  lemma PairOfEncoded(x: bv8)
    ensures x >> 4 < 16 && x & 15 < 16
    ensures var a, b := HexDigit(x >> 4) as int as CodeUnit, HexDigit(x & 15) as int as CodeUnit;
            PieceIsUtf8(a, b) && PairValue(a, b) == Some(x)
  {
    NibblesMeet(x);
  }

  lemma {:induction false} DecodeOfEncode(bytes: Bytes)
    ensures |Utf8(HexEncode(bytes))| == 2 * |bytes|
    ensures MetadataPieces(Utf8(HexEncode(bytes))) == Some(bytes)
  {
    if bytes != [] {
      EncodedHead(bytes);
      DecodeOfEncode(bytes[1..]);
      NextPiece(Utf8(HexEncode(bytes)), bytes[0], bytes[1..]);
      assert [bytes[0]] + bytes[1..] == bytes;
    }
  }

  lemma EncodedHead(bytes: Bytes)
    requires bytes != []
    ensures var units, rest := Utf8(HexEncode(bytes)), Utf8(HexEncode(bytes[1..]));
            && |units| == 2 + |rest| && units[2..] == rest
            && PieceIsUtf8(units[0], units[1]) && PairValue(units[0], units[1]) == Some(bytes[0])
  {
    PairOfEncoded(bytes[0]);
    Utf8OfPair(HexDigit(bytes[0] >> 4), HexDigit(bytes[0] & 15), HexEncode(bytes[1..]));
  }

  lemma NextPiece(units: seq<CodeUnit>, value: bv8, rest: Bytes)
    requires |units| >= 2 && |units| % 2 == 0
    requires PieceIsUtf8(units[0], units[1]) && PairValue(units[0], units[1]) == Some(value)
    requires MetadataPieces(units[2..]) == Some(rest)
    ensures MetadataPieces(units) == Some([value] + rest)
  {
  }

  lemma Utf8OfPair(a: char, b: char, rest: string)
    requires (a as int) < 128 && (b as int) < 128
    ensures var units := Utf8([a, b] + rest);
            |units| == 2 + |Utf8(rest)| && units[0] as int == a as int && units[1] as int == b as int
            && units[2..] == Utf8(rest)
  {
    var text := [a, b] + rest;
    assert text[1..][1..] == rest;
    assert Utf8(text[1..]) == Utf8Char(b) + Utf8(rest);
  }

  lemma TrimOfHex(s: string)
    requires HexText(s)
    ensures Trim(s) == s
  {
    if s != [] {
      assert !IsWhiteSpace(s[0]) && !IsWhiteSpace(s[|s| - 1]);
    }
  }

  /** Distinct values have distinct hex texts. */
  lemma EncodeInjective(a: Bytes, b: Bytes)
    requires HexEncode(a) == HexEncode(b)
    ensures a == b
  {
    DecodeOfEncode(a);
    DecodeOfEncode(b);
  }

  lemma FullIsTrimmed(d: PackageDigest)
    requires d.algorithm in {"sha256", "blake3"} && |d.value| == 32
    ensures Trim(ToStringFull(d)) == ToStringFull(d)
    ensures Find(ToStringFull(d), ':') == Some(|d.algorithm|)
    ensures ToStringFull(d)[..|d.algorithm|] == d.algorithm
    ensures ToStringFull(d)[|d.algorithm| + 1..] == ToHex(d)
  {
    var hex, full := ToHex(d), ToStringFull(d);
    EncodeShape(d.value);
    assert full == d.algorithm + [':'] + hex;
    FindFirst(d.algorithm, ':', hex);
    assert full[|full| - 1] == hex[|hex| - 1];
    assert !IsWhiteSpace(full[0]) && !IsWhiteSpace(full[|full| - 1]);
  }

  /** Name and hex text of a digest. */
  ghost predicate NamesDigest(name: string, hex: string, d: PackageDigest) {
    && ((name in {"sha256", "SHA256"} && d.algorithm == "sha256")
        || (name in {"blake3", "BLAKE3"} && d.algorithm == "blake3"))
    && MetadataDecode(hex) == Some(d.value) && |d.value| == 32
  }

  /** The texts that are read as a digest: algorithm, colon, hex of 32 bytes. */
  lemma ParseDigestExactly(text: string, d: PackageDigest)
    ensures ParseDigest(text) == Ok(d) <==>
            exists name, hex :: Trim(text) == name + [':'] + hex && ':' !in name && NamesDigest(name, hex, d)
    ensures ParseDigest(text) == Err(MissingColon) <==> ':' !in Trim(text)
  {
    var input := Trim(text);
    if k: nat :| Find(input, ':') == Some(k) {
      assert input == input[..k] + [':'] + input[k + 1..];
      ParseDigestSplit(text, input[..k], input[k + 1..], d);
    }
    forall name, hex | input == name + [':'] + hex && ':' !in name
      ensures ParseDigest(text) == Ok(d) <==> NamesDigest(name, hex, d)
      ensures ':' in input
    {
      ParseDigestSplit(text, name, hex, d);
      assert input[|name|] == ':';
    }
  }

  lemma ParseDigestSplit(text: string, name: string, hex: string, d: PackageDigest)
    requires Trim(text) == name + [':'] + hex && ':' !in name
    ensures ParseDigest(text) == Ok(d) <==> NamesDigest(name, hex, d)
    ensures ParseDigest(text) != Err(MissingColon)
  {
    FindFirst(name, ':', hex);
    assert Trim(text)[..|name|] == name && Trim(text)[|name| + 1..] == hex;
  }

  /** Printing then parsing returns the digest exactly for 32-byte sha256 and blake3 digests. */
  lemma DigestRoundTripExactly(d: PackageDigest)
    ensures ParseDigest(ToStringFull(d)) == Ok(d) <==>
            d.algorithm in {"sha256", "blake3"} && |d.value| == 32
  {
    if d.algorithm in {"sha256", "blake3"} && |d.value| == 32 {
      ParseOfFull(d);
    }
    ParsedShape(ToStringFull(d));
  }

  /** The parser produces nothing but 32-byte sha256 and blake3 digests. */
  lemma ParsedShape(text: string)
    ensures match ParseDigest(text)
            case Ok(d) => d.algorithm in {"sha256", "blake3"} && |d.value| == 32
            case Err(_) => true
  {
  }

  lemma ParseOfFull(d: PackageDigest)
    requires d.algorithm in {"sha256", "blake3"} && |d.value| == 32
    ensures ParseDigest(ToStringFull(d)) == Ok(d)
  {
    FullIsTrimmed(d);
    HexIsReadBack(d);
  }

  lemma HexIsReadBack(d: PackageDigest)
    ensures MetadataDecode(ToHex(d)) == Some(d.value)
  {
    EncodeShape(d.value);
    TrimOfHex(ToHex(d));
    DecodeOfEncode(d.value);
  }

  // ── Comparison ─────────────────────────────────────────────────

  /** The OR of the XORs of corresponding bytes. */
  function Difference(a: Bytes, b: Bytes, acc: bv8): bv8
    requires |a| == |b|
  {
    if a == [] then acc
    else Difference(a[1..], b[1..], Mix(acc, a[0], b[0]))
  }

  function Mix(acc: bv8, x: bv8, y: bv8): (mixed: bv8)
    ensures mixed == 0 <==> acc == 0 && x == y
  {
    acc | (x ^ y)
  }

  predicate Matches(d: PackageDigest, other: Bytes) {
    |other| == |d.value| && Difference(d.value, other, 0) == 0
  }

  lemma HeadAndTail(a: Bytes, b: Bytes)
    requires |a| == |b| > 0
    ensures a == b <==> a[0] == b[0] && a[1..] == b[1..]
  {
    assert a == [a[0]] + a[1..] && b == [b[0]] + b[1..];
  }

  lemma {:induction false} DifferenceIsZero(a: Bytes, b: Bytes, acc: bv8)
    requires |a| == |b|
    ensures Difference(a, b, acc) == 0 <==> acc == 0 && a == b
  {
    if a != [] {
      var next := Mix(acc, a[0], b[0]);
      HeadAndTail(a, b);
      DifferenceIsZero(a[1..], b[1..], next);
    }
  }

  /** The constant-time comparison is equality of the bytes. */
  lemma MatchesIsEquality(d: PackageDigest, other: Bytes)
    ensures Matches(d, other) <==> d.value == other
  {
    if |other| == |d.value| {
      DifferenceIsZero(d.value, other, 0);
    }
  }
}
