/**
 Release versions: parser, printer and precedence (`mission-core`, version.rs).

 The printer and parser are compared with each other; the order is compared with
 section 11 of Semantic Versioning 2.0.0.
 */
module SemVer {
  import opened Wrappers
  import opened Text
  import opened Orderings

  datatype Version = Version(
    major: nat,
    minor: nat,
    patch: nat,
    pre: seq<string>,
    build: seq<string>
  )

  datatype ParseError =
    | Empty
    | MissingComponent
    | InvalidMajor
    | InvalidMinor
    | InvalidPatch
    | TrailingInput(rest: string)

  // ── Parser and printer ─────────────────────────────────────────

  /** Split off what follows the first `mark`; an empty remainder gives no identifiers. */
  function SplitTail(s: string, mark: char): (string, seq<string>) {
    match Find(s, mark)
    case None => (s, [])
    case Some(k) =>
      var tail := s[k + 1..];
      (s[..k], if tail == [] then [] else SplitOn(tail, '.'))
  }

  function Parse(input: string): Result<Version, ParseError> {
    if input == [] then Err(Empty)
    else
      var (core, build) := SplitTail(input, '+');
      var (numeric, pre) := SplitTail(core, '-');
      var parts := SplitOn(numeric, '.');
      if |parts| < 3 then Err(MissingComponent)
      else if |parts| > 3 then Err(TrailingInput(Join(parts[3..], '.')))
      else
        match (ParseU64(parts[0]), ParseU64(parts[1]), ParseU64(parts[2]))
        case (None, _, _) => Err(InvalidMajor)
        case (_, None, _) => Err(InvalidMinor)
        case (_, _, None) => Err(InvalidPatch)
        case (Some(major), Some(minor), Some(patch)) =>
          Ok(Version(major, minor, patch, pre, build))
  }

  function Suffix(mark: char, ids: seq<string>): string {
    if ids == [] then [] else [mark] + Join(ids, '.')
  }

  function Core(major: nat, minor: nat, patch: nat): string {
    Join([Decimal(major), Decimal(minor), Decimal(patch)], '.')
  }

  function Display(v: Version): string {
    Core(v.major, v.minor, v.patch) + Suffix('-', v.pre) + Suffix('+', v.build)
  }

  // ── Round trips ────────────────────────────────────────────────

  /** An identifier list that splitting a non-empty text on dots can produce, or no list. */
  ghost predicate Listable(ids: seq<string>) {
    && ids != [""]
    && forall i | 0 <= i < |ids| :: '.' !in ids[i]
  }

  ghost predicate Printable(v: Version) {
    && v.major < U64_LIMIT && v.minor < U64_LIMIT && v.patch < U64_LIMIT
    && Listable(v.pre) && Listable(v.build)
    && forall i | 0 <= i < |v.pre| :: '+' !in v.pre[i]
  }

  lemma SplitTailOfSuffix(head: string, mark: char, ids: seq<string>)
    requires mark !in head && Listable(ids)
    ensures SplitTail(head + Suffix(mark, ids), mark) == (head, ids)
  {
    if ids == [] {
      assert head + Suffix(mark, ids) == head;
    } else {
      var tail := Join(ids, '.');
      assert head + Suffix(mark, ids) == head + [mark] + tail;
      FindFirst(head, mark, tail);
      if tail == [] {
        JoinEmpty(ids, '.');
      }
      SplitOfJoin(ids, '.');
    }
  }

  lemma SplitTailListable(s: string, mark: char)
    ensures var (head, ids) := SplitTail(s, mark);
            Listable(ids) && mark !in head
  {
  }

  /** The identifiers after a mark hold only characters of the whole. */
  lemma TailAvoids(s: string, mark: char, c: char)
    requires c !in s && c != '.'
    ensures var ids := SplitTail(s, mark).1;
            forall i | 0 <= i < |ids| :: c !in ids[i]
  {
    var ids := SplitTail(s, mark).1;
    forall i | 0 <= i < |ids| ensures c !in ids[i] {
      PartsOfJoin(ids, '.', c, i);
    }
  }

  lemma CoreSplits(major: nat, minor: nat, patch: nat)
    ensures SplitOn(Core(major, minor, patch), '.') == [Decimal(major), Decimal(minor), Decimal(patch)]
    ensures forall c | c in Core(major, minor, patch) :: IsDigit(c) || c == '.'
    ensures Core(major, minor, patch) != [] && IsDigit(Core(major, minor, patch)[0])
  {
    var parts := [Decimal(major), Decimal(minor), Decimal(patch)];
    SplitOfJoin(parts, '.');
    forall c | c in Core(major, minor, patch) ensures IsDigit(c) || c == '.' {
      if c != '.' && !IsDigit(c) {
        JoinMembers(parts, '.', c);
      }
    }
    assert Core(major, minor, patch)[0] == Decimal(major)[0];
  }

  lemma PrintableParses(v: Version)
    requires Printable(v)
    ensures Parse(Display(v)) == Ok(v)
  {
    CoreSplits(v.major, v.minor, v.patch);
    var core := Core(v.major, v.minor, v.patch);
    var numeric := core + Suffix('-', v.pre);
    if '+' in numeric {
      if v.pre != [] {
        JoinMembers(v.pre, '.', '+');
      }
    }
    SplitTailOfSuffix(numeric, '+', v.build);
    SplitTailOfSuffix(core, '-', v.pre);
    ParseOfDecimal(v.major);
    ParseOfDecimal(v.minor);
    ParseOfDecimal(v.patch);
  }

  lemma ParsedIsPrintable(s: string)
    requires Parse(s).Ok?
    ensures Printable(Parse(s).value)
  {
    SplitTailListable(s, '+');
    SplitTailListable(SplitTail(s, '+').0, '-');
    TailAvoids(SplitTail(s, '+').0, '-', '+');
  }

  /** Printing then parsing returns the version exactly for the printable versions. */
  lemma RoundTripExactly(v: Version)
    ensures Parse(Display(v)) == Ok(v) <==> Printable(v)
  {
    if Printable(v) {
      PrintableParses(v);
    }
    if Parse(Display(v)) == Ok(v) {
      ParsedIsPrintable(Display(v));
    }
  }

  /** Whatever the parser accepts survives printing and parsing again. */
  lemma ParsedRoundTrip(s: string)
    requires Parse(s).Ok?
    ensures Parse(Display(Parse(s).value)) == Parse(s)
  {
    ParsedIsPrintable(s);
    PrintableParses(Parse(s).value);
  }

  /** What may follow a mark: nothing, the mark alone, or the mark and identifiers between dots. */
  ghost predicate TailOf(tail: string, mark: char, ids: seq<string>) {
    if ids == [] then tail in {"", [mark]} else Listable(ids) && tail == [mark] + Join(ids, '.')
  }

  /** The texts that are read as a version: three numbers between dots, a pre-release tail and a build tail. */
  ghost predicate SpellsVersion(s: string, v: Version) {
    exists a, b, c, pre, build ::
      && s == (a + ['.'] + b + ['.'] + c + pre) + build
      && '+' !in a + b + c + pre
      && ParseU64(a) == Some(v.major) && ParseU64(b) == Some(v.minor) && ParseU64(c) == Some(v.patch)
      && TailOf(pre, '-', v.pre) && TailOf(build, '+', v.build)
  }

  lemma ParseExactly(s: string, v: Version)
    ensures Parse(s) == Ok(v) <==> SpellsVersion(s, v)
  {
    if Parse(s) == Ok(v) {
      ParsedIsSpelled(s, v);
    }
    forall a, b, c, pre, build |
      && s == (a + ['.'] + b + ['.'] + c + pre) + build
      && '+' !in a + b + c + pre
      && ParseU64(a) == Some(v.major) && ParseU64(b) == Some(v.minor) && ParseU64(c) == Some(v.patch)
      && TailOf(pre, '-', v.pre) && TailOf(build, '+', v.build)
      ensures Parse(s) == Ok(v)
    {
      SpelledParses(v, a, b, c, pre, build);
    }
  }

  lemma SpelledParses(v: Version, a: string, b: string, c: string, pre: string, build: string)
    requires '+' !in a + b + c + pre
    requires ParseU64(a) == Some(v.major) && ParseU64(b) == Some(v.minor) && ParseU64(c) == Some(v.patch)
    requires TailOf(pre, '-', v.pre) && TailOf(build, '+', v.build)
    ensures Parse((a + ['.'] + b + ['.'] + c + pre) + build) == Ok(v)
  {
    var numeric := a + ['.'] + b + ['.'] + c;
    NumberChars(a);
    NumberChars(b);
    NumberChars(c);
    NoneOf(a, b, c, pre, '+');
    NoneOf(a, b, c, "", '-');
    TailIsSplit(numeric + pre, '+', v.build, build);
    TailIsSplit(numeric, '-', v.pre, pre);
    ThreeParts(a, b, c);
  }

  lemma NoneOf(a: string, b: string, c: string, rest: string, mark: char)
    requires mark != '.'
    ensures mark in a + ['.'] + b + ['.'] + c + rest <==> mark in a + b + c + rest
    ensures rest == "" ==> a + ['.'] + b + ['.'] + c + rest == a + ['.'] + b + ['.'] + c
    ensures mark in a + b + c + rest <==> mark in a || mark in b || mark in c || mark in rest
  {
  }

  lemma NumberChars(s: string)
    requires ParseU64(s).Some?
    ensures s != [] && '-' !in s && '.' !in s
  {
    assert forall i | 1 <= i < |s| :: s[i] == s[1..][i - 1];
  }

  lemma TailIsSplit(head: string, mark: char, ids: seq<string>, tail: string)
    requires mark !in head && TailOf(tail, mark, ids)
    ensures SplitTail(head + tail, mark) == (head, ids)
  {
    if tail == "" {
      assert head + tail == head;
    } else if ids == [] {
      FindFirst(head, mark, "");
      assert head + tail == head + [mark] + "";
    } else {
      SplitTailOfSuffix(head, mark, ids);
    }
  }

  lemma ThreeParts(a: string, b: string, c: string)
    requires '.' !in a && '.' !in b && '.' !in c
    ensures SplitOn(a + ['.'] + b + ['.'] + c, '.') == [a, b, c]
  {
    assert a + ['.'] + b + ['.'] + c == a + ['.'] + (b + ['.'] + c);
    SplitAtSeparator(a, b + ['.'] + c, '.');
    SplitAtSeparator(b, c, '.');
    SplitWithoutSeparator(c, '.');
  }

  /** A split text is its head and a tail. */
  lemma SplitIsTail(s: string, mark: char) returns (tail: string)
    ensures var (head, ids) := SplitTail(s, mark);
            s == head + tail && mark !in head && TailOf(tail, mark, ids)
  {
    SplitTailListable(s, mark);
    match Find(s, mark)
    case None =>
      tail := "";
    case Some(k) =>
      tail := s[k..];
      MarkFirst(s, mark, k);
  }

  lemma MarkFirst(s: string, mark: char, k: nat)
    requires k < |s| && s[k] == mark
    ensures s == s[..k] + s[k..] && s[k..] == [mark] + s[k + 1..]
    ensures s[k + 1..] == "" ==> s[k..] == [mark]
  {
  }

  lemma ParsedIsSpelled(s: string, v: Version)
    requires Parse(s) == Ok(v)
    ensures SpellsVersion(s, v)
  {
    var build := SplitIsTail(s, '+');
    var core := SplitTail(s, '+').0;
    var pre := SplitIsTail(core, '-');
    var parts := SplitOn(SplitTail(core, '-').0, '.');
    JoinOfThree(parts);
    NoneOf(parts[0], parts[1], parts[2], pre, '+');
    SpelledBy(s, v, parts[0], parts[1], parts[2], pre, build);
  }

  lemma JoinOfThree(parts: seq<string>)
    requires |parts| == 3
    ensures Join(parts, '.') == parts[0] + ['.'] + parts[1] + ['.'] + parts[2]
  {
    var last: seq<string> := [parts[2]];
    assert parts[1..][1..] == last && Join(last, '.') == parts[2];
    assert Join(parts[1..], '.') == parts[1] + ['.'] + parts[2];
  }

  lemma SpelledBy(s: string, v: Version, a: string, b: string, c: string, pre: string, build: string)
    requires s == (a + ['.'] + b + ['.'] + c + pre) + build && '+' !in a + b + c + pre
    requires ParseU64(a) == Some(v.major) && ParseU64(b) == Some(v.minor) && ParseU64(c) == Some(v.patch)
    requires TailOf(pre, '-', v.pre) && TailOf(build, '+', v.build)
    ensures SpellsVersion(s, v)
  {
  }

  // ── Precedence ─────────────────────────────────────────────────

  function CompareId(a: string, b: string): Cmp {
    match (ParseU64(a), ParseU64(b))
    case (Some(m), Some(n)) => CmpInt(m, n)
    case (Some(_), None) => Less
    case (None, Some(_)) => Greater
    case (None, None) => CmpString(a, b)
  }

  function ComparePre(a: seq<string>, b: seq<string>): Cmp {
    if a == [] || b == [] then CmpInt(|a|, |b|)
    else CompareId(a[0], b[0]).Then(ComparePre(a[1..], b[1..]))
  }

  function Compare(v: Version, w: Version): Cmp {
    CmpInt(v.major, w.major)
      .Then(CmpInt(v.minor, w.minor))
      .Then(CmpInt(v.patch, w.patch))
      .Then(match (v.pre == [], w.pre == [])
            case (true, true) => Equal
            case (true, false) => Greater
            case (false, true) => Less
            case (false, false) => ComparePre(v.pre, w.pre))
  }

  lemma CompareIdPreorder(a: string, b: string, c: string)
    ensures CompareId(b, a) == CompareId(a, b).Flip()
    ensures Composes(CompareId(a, b), CompareId(b, c), CompareId(a, c))
  {
    CmpStringDual(a, b);
    CmpStringComposes(a, b, c);
  }

  lemma {:induction false} ComparePrePreorder(a: seq<string>, b: seq<string>, c: seq<string>)
    ensures ComparePre(b, a) == ComparePre(a, b).Flip()
    ensures Composes(ComparePre(a, b), ComparePre(b, c), ComparePre(a, c))
  {
    if a != [] && b != [] {
      CompareIdPreorder(a[0], b[0], if c == [] then "" else c[0]);
      ComparePrePreorder(a[1..], b[1..], if c == [] then [] else c[1..]);
    }
  }

  /** `Version::cmp` is a total preorder. */
  lemma CompareTotalPreorder(u: Version, v: Version, w: Version)
    ensures Compare(v, u) == Compare(u, v).Flip()
    ensures Composes(Compare(u, v), Compare(v, w), Compare(u, w))
  {
    ComparePrePreorder(u.pre, v.pre, w.pre);
  }

  /** Identifiers that compare equal: the same text, or the same number. */
  ghost predicate SameId(a: string, b: string) {
    a == b || (ParseU64(a).Some? && ParseU64(a) == ParseU64(b))
  }

  lemma {:induction false} ComparePreEqual(a: seq<string>, b: seq<string>)
    ensures ComparePre(a, b).Equal? <==> |a| == |b| && forall i | 0 <= i < |a| :: SameId(a[i], b[i])
  {
    if a != [] && b != [] {
      CmpStringEqual(a[0], b[0]);
      ComparePreEqual(a[1..], b[1..]);
      assert forall i | 0 < i < |a| :: a[i] == a[1..][i - 1];
      assert forall i | 0 < i < |b| :: b[i] == b[1..][i - 1];
    }
  }

  /** Two versions compare equal exactly when numbers and pre-release identifiers agree; build is ignored. */
  lemma CompareEqualExactly(v: Version, w: Version)
    ensures Compare(v, w).Equal? <==>
            && v.major == w.major && v.minor == w.minor && v.patch == w.patch
            && |v.pre| == |w.pre| && forall i | 0 <= i < |v.pre| :: SameId(v.pre[i], w.pre[i])
  {
    ComparePreEqual(v.pre, w.pre);
  }

  // ── Section 11 of Semantic Versioning 2.0.0 ────────────────────

  /** Section 9: non-empty, ASCII alphanumerics and hyphens, no leading zero in a number. */
  ghost predicate ValidId(s: string) {
    && s != []
    && (forall i | 0 <= i < |s| ::
          IsDigit(s[i]) || 'A' <= s[i] <= 'Z' || 'a' <= s[i] <= 'z' || s[i] == '-')
    && (AllDigits(s) && |s| > 1 ==> s[0] != '0')
  }

  /** Section 11.4: numbers numerically, numbers below words, words in ASCII order. */
  ghost function SpecId(a: string, b: string): Cmp {
    if AllDigits(a) && AllDigits(b) then CmpInt(DigitsValue(a), DigitsValue(b))
    else if AllDigits(a) then Less
    else if AllDigits(b) then Greater
    else CmpString(a, b)
  }

  /** The first difference at position `i` puts `a` below `b`. */
  ghost predicate LowerAt(a: seq<string>, b: seq<string>, i: nat) {
    && i <= |a| && i < |b|
    && (forall j | 0 <= j < i :: SpecId(a[j], b[j]).Equal?)
    && (i == |a| || SpecId(a[i], b[i]).Less?)
  }

  /** Lower precedence, in the words of section 11. */
  ghost predicate SpecLower(v: Version, w: Version) {
    || v.major < w.major
    || (v.major == w.major && v.minor < w.minor)
    || (v.major == w.major && v.minor == w.minor && v.patch < w.patch)
    || (v.major == w.major && v.minor == w.minor && v.patch == w.patch && v.pre != []
        && (w.pre == [] || exists i :: LowerAt(v.pre, w.pre, i)))
  }

  /** A number that does not fit the 64-bit parser. */
  ghost predicate Oversized(s: string) {
    AllDigits(s) && DigitsValue(s) >= U64_LIMIT
  }

  ghost predicate SmallIds(ids: seq<string>) {
    forall i | 0 <= i < |ids| :: ValidId(ids[i]) && !Oversized(ids[i])
  }

  lemma ValidIdParses(s: string)
    requires ValidId(s)
    ensures ParseU64(s) == if AllDigits(s) && !Oversized(s) then Some(DigitsValue(s)) else None
  {
    assert IsDigit(s[0]) || s[0] != '+';
  }

  lemma {:induction false} ComparePreIsSection11(a: seq<string>, b: seq<string>)
    requires SmallIds(a) && SmallIds(b)
    ensures ComparePre(a, b).Less? <==> exists i :: LowerAt(a, b, i)
  {
    if a == [] {
      assert b != [] ==> LowerAt(a, b, 0);
    } else if b != [] {
      ValidIdParses(a[0]);
      ValidIdParses(b[0]);
      ComparePreIsSection11(a[1..], b[1..]);
      if SpecId(a[0], b[0]).Less? {
        assert LowerAt(a, b, 0);
      } else if i: nat :| LowerAt(a[1..], b[1..], i) {
        if SpecId(a[0], b[0]).Equal? {
          LowerAtShifts(a, b, i + 1);
        }
      }
      forall i | LowerAt(a, b, i) ensures ComparePre(a, b).Less? {
        if i > 0 {
          LowerAtShifts(a, b, i);
        }
      }
    }
  }

  lemma LowerAtShifts(a: seq<string>, b: seq<string>, i: nat)
    requires a != [] && b != [] && i > 0
    ensures LowerAt(a, b, i) <==> SpecId(a[0], b[0]).Equal? && LowerAt(a[1..], b[1..], i - 1)
  {
    if SpecId(a[0], b[0]).Equal? && LowerAt(a[1..], b[1..], i - 1) {
      forall j | 0 <= j < i ensures SpecId(a[j], b[j]).Equal? {
        if j > 0 {
          assert a[j] == a[1..][j - 1] && b[j] == b[1..][j - 1];
        }
      }
    }
    if LowerAt(a, b, i) {
      forall j | 0 <= j < i - 1 ensures SpecId(a[1..][j], b[1..][j]).Equal? {
        assert a[1..][j] == a[j + 1] && b[1..][j] == b[j + 1];
      }
    }
  }

  /** `Version::cmp` is the precedence of section 11 while numeric identifiers fit in 64 bits. */
  lemma CompareIsSection11(v: Version, w: Version)
    requires SmallIds(v.pre) && SmallIds(w.pre)
    ensures Compare(v, w).Less? <==> SpecLower(v, w)
    ensures Compare(v, w).Greater? <==> SpecLower(w, v)
  {
    ComparePreIsSection11(v.pre, w.pre);
    ComparePreIsSection11(w.pre, v.pre);
    CompareTotalPreorder(v, w, v);
    ComparePrePreorder(v.pre, w.pre, v.pre);
  }

  // ── Numbers beyond 64 bits ─────────────────────────────────────

  ghost function Pow10(n: nat): (p: nat)
    ensures p >= 1
  {
    if n == 0 then 1 else 10 * Pow10(n - 1)
  }

  lemma {:induction false} DigitsBounds(s: string)
    requires AllDigits(s)
    ensures DigitsValue(s) < Pow10(|s|)
    ensures s != [] && s[0] != '0' ==> DigitsValue(s) >= Pow10(|s| - 1)
  {
    if |s| == 1 {
      assert s[..0] == [];
    } else if s != [] {
      DigitsBounds(s[..|s| - 1]);
    }
  }

  lemma {:induction false} Pow10Monotone(m: nat, n: nat)
    requires m <= n
    ensures Pow10(m) <= Pow10(n)
  {
    if m < n {
      Pow10Monotone(m, n - 1);
    }
  }

  lemma {:induction false} CmpStringSnoc(a: string, b: string)
    requires |a| == |b| > 0
    ensures CmpString(a, b) ==
            CmpString(a[..|a| - 1], b[..|b| - 1]).Then(CmpInt(a[|a| - 1] as int, b[|b| - 1] as int))
  {
    if |a| > 1 && a[0] == b[0] {
      CmpStringSnoc(a[1..], b[1..]);
      assert a[1..][..|a| - 2] == a[..|a| - 1][1..];
      assert b[1..][..|b| - 2] == b[..|b| - 1][1..];
    }
  }

  /** Digit strings of one length are ordered alike as text and as numbers. */
  lemma {:induction false} SameLengthDigits(a: string, b: string)
    requires AllDigits(a) && AllDigits(b) && |a| == |b|
    ensures CmpString(a, b) == CmpInt(DigitsValue(a), DigitsValue(b))
  {
    if a != [] {
      CmpStringSnoc(a, b);
      SameLengthDigits(a[..|a| - 1], b[..|b| - 1]);
    }
  }

  lemma LongerIsLarger(a: string, b: string)
    requires AllDigits(a) && AllDigits(b) && |a| < |b| && b[0] != '0'
    ensures DigitsValue(a) < DigitsValue(b)
  {
    DigitsBounds(a);
    DigitsBounds(b);
    Pow10Monotone(|a|, |b| - 1);
  }

  /**
   The identifier order departs from section 11 exactly when text order is applied to a
   number beyond 64 bits and misplaces it: against a word, or a number of another length.
   */
  lemma IdentifierOrderExactly(a: string, b: string)
    requires ValidId(a) && ValidId(b)
    ensures CompareId(a, b) == SpecId(a, b) <==>
            && (Oversized(a) && Oversized(b) && |a| != |b| ==> (CmpString(a, b).Less? <==> |a| < |b|))
            && (Oversized(a) && !AllDigits(b) ==> CmpString(a, b).Less?)
            && (!AllDigits(a) && Oversized(b) ==> CmpString(a, b).Greater?)
  {
    ValidIdParses(a);
    ValidIdParses(b);
    CmpStringEqual(a, b);
    if AllDigits(a) && AllDigits(b) {
      if |a| == |b| {
        SameLengthDigits(a, b);
      } else if |a| < |b| {
        LongerIsLarger(a, b);
      } else {
        LongerIsLarger(b, a);
      }
    }
  }

  /** A departure: a smaller 21-digit number is placed above a larger 22-digit one. */
  lemma OversizedNumbersMisordered()
    ensures var small, large := "999999999999999999999", "1000000000000000000000";
            && ValidId(small) && ValidId(large)
            && SpecId(small, large).Less? && CompareId(small, large).Greater?
  {
    var small, large := "999999999999999999999", "1000000000000000000000";
    assert small[0] == '9' && large[0] == '1';
    LongerIsLarger(small, large);
    DigitsBounds(small);
    Pow10Of20();
    ValidIdParses(small);
    ValidIdParses(large);
  }

  lemma Pow10Of20()
    ensures Pow10(20) >= U64_LIMIT
  {
    assert Pow10(10) == 10_000_000_000;
    assert Pow10(20) == 100_000_000_000_000_000_000;
  }
}
