/**
 The compatibility score as the source adds it up: binary64 numbers, rounded after each
 addition (matching.rs).  A score is a count of units of 2^-58, the last place of the smallest
 weight, so that every number that arises is a whole one.
 */
module BinaryScore {
  const ONE: nat := 0x400_0000_0000_0000
  const SIGNIFICAND: nat := 0x20_0000_0000_0000

  // ── Rounding ───────────────────────────────────────────────────

  /** The last place of a number: with 53 significant bits, it doubles at every power of two. */
  function LastPlace(v: nat): (place: nat)
    ensures place >= 1
  {
    if v < SIGNIFICAND then 1 else 2 * LastPlace(v / 2)
  }

  /** To the nearest multiple of the last place, ties to the even one. */
  function Round(v: nat): (rounded: nat)
    ensures 2 * Apart(rounded, v) <= LastPlace(v)
  {
    var place := LastPlace(v);
    var rest := v % place;
    RestFits(v, place);
    if 2 * rest < place || (2 * rest == place && v % (2 * place) < place) then v - rest else v - rest + place
  }

  lemma RestFits(v: nat, place: nat)
    requires place > 0
    ensures 0 <= v % place <= v && v % place < place
  {
  }

  /** The distance of two numbers. */
  ghost function Apart(a: int, b: int): nat {
    if a < b then b - a else a - b
  }

  function Plus(a: nat, b: nat): nat {
    Round(a + b)
  }

  /** Numbers with a last place above one fill their 53 bits. */
  lemma {:induction false} LastPlaceFits(v: nat)
    ensures v < LastPlace(v) * SIGNIFICAND
    ensures v >= SIGNIFICAND ==> LastPlace(v) * SIGNIFICAND <= 2 * v
  {
    if v >= SIGNIFICAND {
      LastPlaceFits(v / 2);
    }
  }

  /** Each addition of scores is off by at most half of the last place of numbers up to two. */
  lemma PlusIsClose(a: nat, b: nat)
    requires a + b < 2 * ONE
    ensures Apart(Plus(a, b), a + b) <= 64
  {
    LastPlaceFits(a + b);
  }

  // ── Weights ────────────────────────────────────────────────────

  const W500: nat := 0x200_0000_0000_0000
  const W200: nat := 0xCC_CCCC_CCCC_CCD0
  const W150: nat := 0x99_9999_9999_9998
  const W100: nat := 0x66_6666_6666_6668
  const W50: nat := 0x33_3333_3333_3334
  const W25: nat := 0x19_9999_9999_999A

  /** A binary64 number, and none is nearer to so many thousandths. */
  ghost predicate IsLiteral(w: nat, thousandths: nat) {
    Round(w) == w && 2 * Apart(1000 * w, thousandths * ONE) <= 1000 * LastPlace(w)
  }

  lemma WeightsAreLiterals()
    ensures IsLiteral(W500, 500) && IsLiteral(W200, 200) && IsLiteral(W150, 150)
    ensures IsLiteral(W100, 100) && IsLiteral(W50, 50) && IsLiteral(W25, 25)
  {
    LastPlaces(W500, 5);
    LastPlaces(W200, 3);
    LastPlaces(W150, 3);
    LastPlaces(W100, 2);
    LastPlaces(W50, 1);
    LastPlaces(W25, 0);
  }

  function Pow2(n: nat): nat {
    if n == 0 then 1 else 2 * Pow2(n - 1)
  }

  /** Between two powers of two the last place is one power of two. */
  lemma {:induction false} LastPlaces(v: nat, n: nat)
    requires v < Pow2(n) * SIGNIFICAND && (n > 0 ==> v >= Pow2(n - 1) * SIGNIFICAND)
    ensures LastPlace(v) == Pow2(n)
  {
    if n > 0 {
      LastPlaces(v / 2, n - 1);
    }
  }

  // ── Scores ─────────────────────────────────────────────────────

  datatype Features = All | Unknown | Lacking

  /** What the five checks found, for a driver that is not blocked. */
  datatype Findings = Findings(pattern: bool, ids: bool, kernelKnown: bool, features: Features)

  /** The additions in the order of the source. */
  function AfterIds(f: Findings): nat {
    var a := if f.pattern then Plus(0, W500) else 0;
    if f.ids then Plus(a, W200) else a
  }

  function AfterArchitecture(f: Findings): nat {
    Plus(Plus(AfterIds(f), if f.kernelKnown then W150 else W50), W100)
  }

  function Total(f: Findings): nat {
    match f.features
    case All => Plus(AfterArchitecture(f), W50)
    case Unknown => Plus(AfterArchitecture(f), W25)
    case Lacking => AfterArchitecture(f)
  }

  /** The same sum in exact thousandths. */
  ghost function Exact(f: Findings): nat {
    (if f.pattern then 500 else 0)
    + (if f.ids then 200 else 0)
    + (if f.kernelKnown then 150 else 50)
    + 100
    + (match f.features case All => 50 case Unknown => 25 case Lacking => 0)
  }

  /** Up to a slack in thousandths of a unit, so many thousandths. */
  ghost predicate Near(value: nat, thousandths: nat, slack: nat) {
    Apart(1000 * value, thousandths * ONE) <= slack
  }

  lemma PlusIsNear(a: nat, t: nat, slack: nat, w: nat, tw: nat)
    requires Near(a, t, slack) && Near(w, tw, 20_000) && t + tw <= 1000 && slack <= 500_000
    ensures Near(Plus(a, w), t + tw, slack + 84_000)
  {
    PlusIsClose(a, w);
  }

  lemma WeightsAreNear()
    ensures Near(W500, 500, 20_000) && Near(W200, 200, 20_000) && Near(W150, 150, 20_000)
    ensures Near(W100, 100, 20_000) && Near(W50, 50, 20_000) && Near(W25, 25, 20_000)
  {
  }

  lemma AfterIdsIsNear(f: Findings)
    ensures Near(AfterIds(f), (if f.pattern then 500 else 0) + (if f.ids then 200 else 0), 168_000)
  {
    WeightsAreNear();
    PlusIsNear(0, 0, 0, W500, 500);
    var a, t := if f.pattern then Plus(0, W500) else 0, if f.pattern then 500 else 0;
    assert Near(a, t, 84_000);
    PlusIsNear(a, t, 84_000, W200, 200);
  }

  lemma AfterArchitectureIsNear(f: Findings)
    ensures Near(AfterArchitecture(f), (if f.pattern then 500 else 0) + (if f.ids then 200 else 0)
                                       + (if f.kernelKnown then 150 else 50) + 100, 336_000)
  {
    WeightsAreNear();
    AfterIdsIsNear(f);
    var t := (if f.pattern then 500 else 0) + (if f.ids then 200 else 0);
    var w, tw := if f.kernelKnown then W150 else W50, if f.kernelKnown then 150 else 50;
    PlusIsNear(AfterIds(f), t, 168_000, w, tw);
    PlusIsNear(Plus(AfterIds(f), w), t + tw, 252_000, W100, 100);
  }

  /** Rounding never moves a score by a billionth of a thousandth. */
  lemma TotalIsNear(f: Findings)
    ensures Near(Total(f), Exact(f), 500_000)
  {
    WeightsAreNear();
    AfterArchitectureIsNear(f);
    match f.features
    case All => PlusIsNear(AfterArchitecture(f), Exact(f) - 50, 336_000, W50, 50);
    case Unknown => PlusIsNear(AfterArchitecture(f), Exact(f) - 25, 336_000, W25, 25);
    case Lacking =>
  }

  /** `clamp(0.0, 1.0)`. */
  function Score(f: Findings): (score: nat)
    ensures score <= ONE
  {
    if Total(f) > ONE then ONE else Total(f)
  }

  /** Scores are ordered, and tied, as the exact sums are. */
  lemma OrderIsExact(f: Findings, g: Findings)
    ensures Score(f) < Score(g) <==> Exact(f) < Exact(g)
    ensures Score(f) == Score(g) <==> Exact(f) == Exact(g)
  {
    TotalIsNear(f);
    TotalIsNear(g);
    SumsDiffer(f, g);
    ExactRange(f);
    ExactRange(g);
  }

  /** Different findings have different exact sums, by at least 25 thousandths. */
  lemma SumsDiffer(f: Findings, g: Findings)
    ensures f != g ==> Apart(Exact(f), Exact(g)) >= 25
  {
  }

  /** Everything but the pattern in full: exactly 500 thousandths. */
  ghost predicate FullWithoutPattern(f: Findings) {
    !f.pattern && f.ids && f.kernelKnown && f.features.All?
  }

  /** From a quarter to one half the last place is 16. */
  lemma PlusBelowHalf(a: nat, b: nat)
    requires W500 <= 2 * (a + b) && a + b < W500
    ensures var rest := (a + b) % 16;
            Plus(a, b) == a + b - rest + (if rest < 8 || (rest == 8 && (a + b) % 32 < 16) then 0 else 16)
  {
    assert Pow2(4) == 16 && Pow2(5) == 32;
    LastPlaces(a + b, 4);
  }

  /** 0.2 + 0.15 + 0.1 + 0.05 is the last number below one half. */
  lemma FullWithoutPatternFallsShort(f: Findings)
    requires FullWithoutPattern(f)
    ensures Total(f) == W500 - 16 && Exact(f) == 500
  {
    FullButFeatures(f);
    LastAddition(AfterArchitecture(f));
  }

  lemma LastAddition(a: nat)
    requires a == 0x1CC_CCCC_CCCC_CCC0
    ensures Plus(a, W50) == W500 - 16
  {
    PlusBelowHalf(a, W50);
  }

  lemma FullButFeatures(f: Findings)
    requires FullWithoutPattern(f)
    ensures AfterArchitecture(f) == 0x1CC_CCCC_CCCC_CCC0
  {
    WeightsAreLiterals();
    MiddleAdditions(AfterIds(f));
  }

  lemma MiddleAdditions(a: nat)
    requires a == W200
    ensures Plus(Plus(a, W150), W100) == 0x1CC_CCCC_CCCC_CCC0
  {
    PlusBelowHalf(a, W150);
    ThirdAddition(Plus(a, W150));
  }

  lemma ThirdAddition(a: nat)
    requires a == 0x166_6666_6666_6660
    ensures Plus(a, W100) == 0x1CC_CCCC_CCCC_CCC0
  {
    PlusBelowHalf(a, W100);
  }

  /** One half is reached exactly with a pattern. */
  lemma PatternDecides(f: Findings)
    ensures Total(f) >= W500 <==> f.pattern
  {
    if FullWithoutPattern(f) {
      FullWithoutPatternFallsShort(f);
    } else {
      TotalIsNear(f);
      ExactRange(f);
    }
  }

  lemma ExactRange(f: Findings)
    ensures f.pattern ==> Exact(f) >= 650
    ensures Exact(f) > 975 ==> Exact(f) == 1000
    ensures !f.pattern && !FullWithoutPattern(f) ==> Exact(f) <= 475
  {
  }

  /** The exact decision is another one exactly for full findings without a pattern. */
  lemma DecisionsPartExactly(f: Findings)
    ensures Exact(f) >= 500 <==> f.pattern || FullWithoutPattern(f)
    ensures (Total(f) >= W500 <==> Exact(f) >= 500) <==> !FullWithoutPattern(f)
  {
    PatternDecides(f);
    ExactRange(f);
  }
}
