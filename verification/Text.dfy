/**
 Text operations of the Rust standard library that the driver service relies on.

 A `string` is the sequence of its Unicode scalar values.  Positions count characters;
 UTF-8 is self-synchronising, so a byte-level substring search finds the same places.
 */
module Text {
  import opened Wrappers

  // ── Splitting and joining ──────────────────────────────────────

  /** `str::split` on one character: the pieces contain no separator and join back to `s`. */
  function SplitOn(s: string, sep: char): (parts: seq<string>)
    ensures |parts| >= 1
    ensures Join(parts, sep) == s
    ensures forall i | 0 <= i < |parts| :: sep !in parts[i]
    ensures |parts| > 1 <==> sep in s
  {
    if s == [] then [[]]
    else
      var rest := SplitOn(s[1..], sep);
      if s[0] == sep then
        [[]] + rest
      else
        JoinHead([s[0]], rest, sep);
        [[s[0]] + rest[0]] + rest[1..]
  }

  function Join(parts: seq<string>, sep: char): string {
    if |parts| == 0 then []
    else if |parts| == 1 then parts[0]
    else parts[0] + [sep] + Join(parts[1..], sep)
  }

  lemma JoinHead(prefix: string, parts: seq<string>, sep: char)
    requires |parts| >= 1
    ensures Join([prefix + parts[0]] + parts[1..], sep) == prefix + Join(parts, sep)
  {
    if |parts| > 1 {
      assert ([prefix + parts[0]] + parts[1..])[1..] == parts[1..];
    }
  }

  lemma {:induction false} SplitAtSeparator(head: string, tail: string, sep: char)
    requires sep !in head
    ensures SplitOn(head + [sep] + tail, sep) == [head] + SplitOn(tail, sep)
  {
    if head == [] {
      assert head + [sep] + tail == [sep] + tail;
      SplitCons(sep, tail, sep);
    } else {
      SplitAtSeparator(head[1..], tail, sep);
      FirstOfConcat(head, [sep], tail);
      SplitCons(head[0], head[1..] + [sep] + tail, sep);
      PutFirst(head, SplitOn(tail, sep));
    }
  }

  /** One character in front goes into the first piece, or starts a new one. */
  lemma SplitCons(c: char, rest: string, sep: char)
    ensures var parts := SplitOn(rest, sep);
            SplitOn([c] + rest, sep) == if c == sep then [[]] + parts else [[c] + parts[0]] + parts[1..]
  {
    assert ([c] + rest)[1..] == rest;
  }

  lemma FirstOfConcat(head: string, middle: string, tail: string)
    requires head != []
    ensures head + middle + tail == [head[0]] + (head[1..] + middle + tail)
  {
    assert head == [head[0]] + head[1..];
  }

  lemma PutFirst(head: string, parts: seq<string>)
    requires head != []
    ensures var shorter := [head[1..]] + parts;
            [[head[0]] + shorter[0]] + shorter[1..] == [head] + parts
  {
    assert [head[0]] + head[1..] == head;
  }

  lemma {:induction false} SplitWithoutSeparator(s: string, sep: char)
    requires sep !in s
    ensures SplitOn(s, sep) == [s]
  {
    if s != [] {
      SplitWithoutSeparator(s[1..], sep);
    }
  }

  /** Splitting undoes joining, for pieces that contain no separator. */
  lemma {:induction false} SplitOfJoin(parts: seq<string>, sep: char)
    requires |parts| >= 1
    requires forall i | 0 <= i < |parts| :: sep !in parts[i]
    ensures SplitOn(Join(parts, sep), sep) == parts
  {
    if |parts| == 1 {
      SplitWithoutSeparator(parts[0], sep);
    } else {
      SplitOfJoin(parts[1..], sep);
      SplitAtSeparator(parts[0], Join(parts[1..], sep), sep);
    }
  }

  lemma {:induction false} JoinMembers(parts: seq<string>, sep: char, c: char)
    requires c != sep
    requires forall i | 0 <= i < |parts| :: c !in parts[i]
    ensures c !in Join(parts, sep)
  {
    if |parts| > 1 {
      JoinMembers(parts[1..], sep, c);
    }
  }

  lemma {:induction false} PartsOfJoin(parts: seq<string>, sep: char, c: char, i: nat)
    requires i < |parts|
    requires c !in Join(parts, sep)
    ensures c !in parts[i]
  {
    if |parts| > 1 && i > 0 {
      PartsOfJoin(parts[1..], sep, c, i - 1);
    }
  }

  lemma {:induction false} JoinAppend(parts: seq<string>, last: string, sep: char)
    requires |parts| >= 1
    ensures Join(parts + [last], sep) == Join(parts, sep) + [sep] + last
  {
    assert (parts + [last])[1..] == parts[1..] + [last];
    if |parts| > 1 {
      JoinAppend(parts[1..], last, sep);
    }
  }

  lemma {:induction false} JoinEmpty(parts: seq<string>, sep: char)
    requires |parts| >= 1 && Join(parts, sep) == []
    ensures parts == [[]]
  {
  }

  // ── Searching ──────────────────────────────────────────────────

  /** `str::find` of one character. */
  function Find(s: string, c: char): (at: Option<nat>)
    ensures at.None? <==> c !in s
    ensures at.Some? ==> at.value < |s| && s[at.value] == c && c !in s[..at.value]
  {
    if s == [] then None
    else if s[0] == c then Some(0)
    else
      match Find(s[1..], c)
      case None => None
      case Some(k) => assert s[..k + 1] == [s[0]] + s[1..][..k]; Some(k + 1)
  }

  lemma FindFirst(head: string, c: char, tail: string)
    requires c !in head
    ensures Find(head + [c] + tail, c) == Some(|head|)
  {
    var whole := head + [c] + tail;
    assert whole[|head|] == c;
  }

  predicate OccursAt(text: string, piece: string, k: int) {
    0 <= k <= |text| - |piece| && text[k..k + |piece|] == piece
  }

  predicate StartsWith(text: string, piece: string) {
    |piece| <= |text| && text[..|piece|] == piece
  }

  predicate EndsWith(text: string, piece: string) {
    |piece| <= |text| && text[|text| - |piece|..] == piece
  }

  /** `str::contains` of a substring. */
  predicate Contains(text: string, piece: string) {
    exists k :: 0 <= k <= |text| && OccursAt(text, piece, k)
  }

  /** A piece is contained exactly when the text is something, the piece, and something. */
  lemma ContainsExactly(text: string, piece: string)
    ensures Contains(text, piece) <==> exists before, after :: text == before + piece + after
  {
    if k :| 0 <= k <= |text| && OccursAt(text, piece, k) {
      assert text == text[..k] + piece + text[k + |piece|..];
    }
    if before, after :| text == before + piece + after {
      assert text[|before|..|before| + |piece|] == piece;
      assert OccursAt(text, piece, |before|);
    }
  }

  // ── Trimming and case ──────────────────────────────────────────

  /** The Unicode property White_Space, which `str::trim` removes. */
  predicate IsWhiteSpace(c: char) {
    var n := c as int;
    || 9 <= n <= 13 || n == 0x20 || n == 0x85 || n == 0xA0 || n == 0x1680
    || 0x2000 <= n <= 0x200A || n == 0x2028 || n == 0x2029 || n == 0x202F
    || n == 0x205F || n == 0x3000
  }

  function TrimStart(s: string): string {
    if s != [] && IsWhiteSpace(s[0]) then TrimStart(s[1..]) else s
  }

  function TrimEnd(s: string): string {
    if s != [] && IsWhiteSpace(s[|s| - 1]) then TrimEnd(s[..|s| - 1]) else s
  }

  function Trim(s: string): (t: string)
    ensures t != [] ==> !IsWhiteSpace(t[0]) && !IsWhiteSpace(t[|t| - 1])
  {
    TrimStartEdge(s);
    TrimEndEdge(TrimStart(s));
    TrimEnd(TrimStart(s))
  }

  lemma TrimStartEdge(s: string)
    ensures TrimStart(s) != [] ==> !IsWhiteSpace(TrimStart(s)[0])
  {
  }

  lemma TrimEndEdge(s: string)
    ensures TrimEnd(s) != [] ==> !IsWhiteSpace(TrimEnd(s)[|TrimEnd(s)| - 1])
    ensures TrimEnd(s) <= s
  {
  }

  ghost predicate Blank(s: string) {
    forall i | 0 <= i < |s| :: IsWhiteSpace(s[i])
  }

  lemma {:induction false} TrimStartSplits(s: string) returns (blank: string)
    ensures Blank(blank) && s == blank + TrimStart(s)
  {
    blank := "";
    if s != [] && IsWhiteSpace(s[0]) {
      var rest := TrimStartSplits(s[1..]);
      blank := [s[0]] + rest;
      PutInFront(s, rest, TrimStart(s[1..]));
    }
  }

  lemma PutInFront(s: string, a: string, b: string)
    requires s != [] && s[1..] == a + b
    ensures s == [s[0]] + a + b
  {
  }

  lemma {:induction false} TrimEndSplits(s: string) returns (blank: string)
    ensures Blank(blank) && s == TrimEnd(s) + blank
  {
    blank := "";
    if s != [] && IsWhiteSpace(s[|s| - 1]) {
      var rest := TrimEndSplits(s[..|s| - 1]);
      blank := rest + [s[|s| - 1]];
      PutAtEnd(s, TrimEnd(s[..|s| - 1]), rest);
    }
  }

  lemma PutAtEnd(s: string, a: string, b: string)
    requires s != [] && s[..|s| - 1] == a + b
    ensures s == a + (b + [s[|s| - 1]])
  {
  }

  /** Only white space is trimmed: around what is left there was nothing else. */
  lemma TrimExactly(s: string)
    ensures exists before, after :: Blank(before) && Blank(after) && s == before + Trim(s) + after
    ensures Trim(s) == [] <==> Blank(s)
  {
    var before := TrimStartSplits(s);
    var after := TrimEndSplits(TrimStart(s));
    assert s == before + Trim(s) + after;
    if Trim(s) != [] {
      assert s[|before|] == Trim(s)[0];
    }
  }

  /** `to_lowercase`, on ASCII letters. */
  function Lower(s: string): (l: string)
    ensures |l| == |s|
  {
    seq(|s|, i requires 0 <= i < |s| => LowerChar(s[i]))
  }

  function LowerChar(c: char): char {
    if 'A' <= c <= 'Z' then (c as int + 32) as char else c
  }

  predicate EqIgnoreCase(a: string, b: string) {
    Lower(a) == Lower(b)
  }

  /** The same character, or the same ASCII letter in the other case. */
  ghost predicate SameLetter(c: char, d: char) {
    || c == d
    || ('A' <= c <= 'Z' && d as int - c as int == 'a' as int - 'A' as int)
    || ('A' <= d <= 'Z' && c as int - d as int == 'a' as int - 'A' as int)
  }

  lemma EqIgnoreCaseExactly(a: string, b: string)
    ensures EqIgnoreCase(a, b) <==> |a| == |b| && forall i | 0 <= i < |a| :: SameLetter(a[i], b[i])
  {
    if EqIgnoreCase(a, b) {
      forall i | 0 <= i < |a| ensures SameLetter(a[i], b[i]) {
        assert Lower(a)[i] == Lower(b)[i];
      }
    }
  }

  // ── Decimal numbers ────────────────────────────────────────────

  const U64_LIMIT := 0x1_0000_0000_0000_0000

  predicate IsDigit(c: char) {
    '0' <= c <= '9'
  }

  predicate AllDigits(s: string) {
    forall i | 0 <= i < |s| :: IsDigit(s[i])
  }

  function Digit(n: nat): (c: char)
    requires n < 10
    ensures IsDigit(c) && DigitValue(c) == n
  {
    ('0' as int + n) as char
  }

  function DigitValue(c: char): nat
    requires IsDigit(c)
  {
    c as int - '0' as int
  }

  /** The decimal form that `{}` prints for an unsigned number. */
  function Decimal(n: nat): (s: string)
    ensures |s| >= 1 && AllDigits(s)
    ensures DigitsValue(s) == n
  {
    if n < 10 then [Digit(n)] else Decimal(n / 10) + [Digit(n % 10)]
  }

  function DigitsValue(s: string): nat
    requires AllDigits(s)
  {
    if s == [] then 0
    else 10 * DigitsValue(s[..|s| - 1]) + DigitValue(s[|s| - 1])
  }

  /** `str::parse::<u64>`: an optional plus sign, then at least one digit, below 2^64. */
  function ParseU64(s: string): (n: Option<nat>)
    ensures n.Some? ==> n.value < U64_LIMIT
  {
    var digits := if s != [] && s[0] == '+' then s[1..] else s;
    if digits != [] && AllDigits(digits) && DigitsValue(digits) < U64_LIMIT
    then Some(DigitsValue(digits))
    else None
  }

  /** Printing a 64-bit number and reading it back gives the number. */
  lemma ParseOfDecimal(n: nat)
    requires n < U64_LIMIT
    ensures ParseU64(Decimal(n)) == Some(n)
  {
    assert IsDigit(Decimal(n)[0]);
  }

  lemma DecimalInjective(m: nat, n: nat)
    requires Decimal(m) == Decimal(n)
    ensures m == n
  {
    assert DigitsValue(Decimal(m)) == DigitsValue(Decimal(n));
  }

  ghost predicate OnlyZeros(s: string) {
    forall i | 0 <= i < |s| :: s[i] == '0'
  }

  lemma {:induction false} ZerosInFront(zeros: string, s: string)
    requires OnlyZeros(zeros) && AllDigits(s)
    ensures AllDigits(zeros + s) && DigitsValue(zeros + s) == DigitsValue(s)
  {
    var whole := zeros + s;
    if whole != [] {
      if s == [] {
        assert whole[..|whole| - 1] == zeros[..|zeros| - 1] + [];
        ZerosInFront(zeros[..|zeros| - 1], []);
      } else {
        assert whole[..|whole| - 1] == zeros + s[..|s| - 1];
        ZerosInFront(zeros, s[..|s| - 1]);
      }
    }
  }

  lemma {:induction false} DigitsSplit(s: string) returns (zeros: string)
    requires s != [] && AllDigits(s)
    ensures OnlyZeros(zeros) && s == zeros + Decimal(DigitsValue(s))
  {
    var init, last := s[..|s| - 1], s[|s| - 1];
    var n := DigitsValue(init);
    assert s == init + [last] && DigitsValue(s) == 10 * n + DigitValue(last);
    OneMoreDigit(n, last);
    if init == [] {
      zeros := "";
    } else {
      zeros := DigitsSplit(init);
      if n == 0 {
        zeros := init;
      } else {
        Regroup(zeros, Decimal(n), last);
      }
    }
  }

  lemma Regroup(a: string, b: string, c: char)
    ensures (a + b) + [c] == a + (b + [c])
  {
  }

  lemma OneMoreDigit(n: nat, last: char)
    requires IsDigit(last)
    ensures Decimal(10 * n + DigitValue(last)) == if n == 0 then [last] else Decimal(n) + [last]
    ensures Decimal(0) == "0"
  {
    assert Digit(DigitValue(last)) == last;
  }

  /** The texts that are read as a number: an optional plus sign, zeros, and its decimal form. */
  ghost predicate SpellsNumber(s: string, n: nat) {
    exists sign, zeros :: sign in {"", "+"} && OnlyZeros(zeros) && s == sign + zeros + Decimal(n)
  }

  lemma ParseU64Exactly(s: string, n: nat)
    ensures ParseU64(s) == Some(n) <==> n < U64_LIMIT && SpellsNumber(s, n)
  {
    if ParseU64(s) == Some(n) {
      ParsedSpells(s, n);
    }
    if n < U64_LIMIT {
      forall sign, zeros | sign in {"", "+"} && OnlyZeros(zeros) && s == sign + zeros + Decimal(n)
        ensures ParseU64(s) == Some(n)
      {
        SpelledParses(sign, zeros, n);
      }
    }
  }

  lemma ParsedSpells(s: string, n: nat)
    requires ParseU64(s) == Some(n)
    ensures SpellsNumber(s, n)
  {
    if s[0] == '+' {
      var zeros := DigitsSplit(s[1..]);
      assert s == "+" + zeros + Decimal(n);
    } else {
      var zeros := DigitsSplit(s);
      assert s == "" + zeros + Decimal(n);
    }
  }

  lemma SpelledParses(sign: string, zeros: string, n: nat)
    requires n < U64_LIMIT && sign in {"", "+"} && OnlyZeros(zeros)
    ensures ParseU64(sign + zeros + Decimal(n)) == Some(n)
  {
    var s, digits := sign + zeros + Decimal(n), zeros + Decimal(n);
    ZerosInFront(zeros, Decimal(n));
    assert s == sign + digits;
    if sign == "+" {
      assert s[1..] == digits;
    } else {
      assert s == digits && IsDigit(s[0]);
    }
  }
}
