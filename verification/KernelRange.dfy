/**
 Kernel version ranges.  The service holds three copies of the range check (matcher,
 conflict detector, selector); each is proved against `Rejects`, and the theory of the
 accepted ranges is here.
 */
module KernelRange {
  import opened Wrappers
  import opened Text
  import opened Orderings

  // ── Components ─────────────────────────────────────────────────

  /** The pieces that are 64-bit numbers, in order; the others are dropped. */
  function Numbers(pieces: seq<string>): (numbers: seq<nat>)
    ensures Words(numbers)
  {
    if pieces == [] then []
    else
      var rest := Numbers(pieces[1..]);
      match ParseU64(pieces[0])
      case Some(n) => [n] + rest
      case None => rest
  }

  /** `split(|c| !c.is_ascii_digit())`: maximal runs of digits, empty ones included. */
  function DigitRuns(s: string): (runs: seq<string>)
    ensures |runs| >= 1
  {
    if s == [] then [[]]
    else
      var rest := DigitRuns(s[1..]);
      if IsDigit(s[0]) then [[s[0]] + rest[0]] + rest[1..] else [[]] + rest
  }

  function SystemParts(kernelVersion: string): (parts: seq<nat>)
    ensures Words(parts)
  {
    Numbers(DigitRuns(kernelVersion))
  }

  function BoundParts(version: string): (parts: seq<nat>)
    ensures Words(parts)
  {
    Numbers(SplitOn(version, '.'))
  }

  ghost predicate Words(parts: seq<nat>) {
    forall i | 0 <= i < |parts| :: parts[i] < U64_LIMIT
  }

  /** A missing component counts as zero. */
  function At(parts: seq<nat>, i: nat): nat {
    if i < |parts| then parts[i] else 0
  }

  // ── The check ──────────────────────────────────────────────────

  /** Lexicographic comparison of the first `n` components, padded with zeros. */
  function CmpUpTo(a: seq<nat>, b: seq<nat>, n: nat): Cmp {
    if n == 0 then Equal
    else CmpUpTo(a, b, n - 1).Then(CmpInt(At(a, n - 1), At(b, n - 1)))
  }

  ghost predicate AtLeast(system: seq<nat>, min: seq<nat>) {
    !CmpUpTo(system, min, |min|).Less?
  }

  ghost predicate AtMost(system: seq<nat>, max: seq<nat>) {
    !CmpUpTo(system, max, |max|).Greater?
  }

  ghost predicate InRange(system: seq<nat>, min: seq<nat>, max: Option<seq<nat>>) {
    AtLeast(system, min) && (max.Some? ==> AtMost(system, max.value))
  }

  /** The inputs that every copy of the check rejects; an unreadable system version is never rejected. */
  ghost predicate Rejects(kernelVersion: string, minVersion: string, maxVersion: Option<string>) {
    var system := SystemParts(kernelVersion);
    && system != []
    && !InRange(system, BoundParts(minVersion),
                if maxVersion.Some? then Some(BoundParts(maxVersion.value)) else None)
  }

  /** The rejection in terms of the components, for a system version that can be read. */
  lemma RejectsByParts(kernelVersion: string, minVersion: string, maxVersion: Option<string>)
    requires SystemParts(kernelVersion) != []
    ensures Rejects(kernelVersion, minVersion, maxVersion) <==>
            || CmpUpTo(SystemParts(kernelVersion), BoundParts(minVersion), |BoundParts(minVersion)|).Less?
            || (maxVersion.Some? &&
                  var max := BoundParts(maxVersion.value);
                  CmpUpTo(SystemParts(kernelVersion), max, |max|).Greater?)
  {
  }

  /** The first component in which two versions differ, before the end of the bound. */
  ghost predicate FirstDifference(system: seq<nat>, bound: seq<nat>, i: nat) {
    && i < |bound| && At(system, i) != bound[i]
    && forall j: nat | j < i :: At(system, j) == bound[j]
  }

  lemma {:induction false} ComparedAtFirstDifference(system: seq<nat>, bound: seq<nat>, n: nat)
    requires n <= |bound|
    ensures CmpUpTo(system, bound, n).Equal? <==> forall j: nat | j < n :: At(system, j) == bound[j]
    ensures CmpUpTo(system, bound, n).Less? <==>
            exists i: nat :: i < n && FirstDifference(system, bound, i) && At(system, i) < bound[i]
    ensures CmpUpTo(system, bound, n).Greater? <==>
            exists i: nat :: i < n && FirstDifference(system, bound, i) && At(system, i) > bound[i]
  {
    if n > 0 {
      ComparedAtFirstDifference(system, bound, n - 1);
      if CmpUpTo(system, bound, n - 1).Equal? {
        assert At(system, n - 1) != bound[n - 1] ==> FirstDifference(system, bound, n - 1);
      }
    }
  }

  ghost predicate FirstBelow(system: seq<nat>, min: seq<nat>) {
    exists i: nat :: FirstDifference(system, min, i) && At(system, i) < min[i]
  }

  ghost predicate FirstAbove(system: seq<nat>, max: seq<nat>) {
    exists i: nat :: FirstDifference(system, max, i) && At(system, i) > max[i]
  }

  lemma BoundsAtFirstDifference(system: seq<nat>, bound: seq<nat>)
    ensures AtLeast(system, bound) <==> !FirstBelow(system, bound)
    ensures AtMost(system, bound) <==> !FirstAbove(system, bound)
  {
    ComparedAtFirstDifference(system, bound, |bound|);
  }

  /**
   A readable system version is rejected exactly when its first difference from the minimum is
   below it, or its first difference from the maximum is above it.
   */
  lemma RejectsAtFirstDifference(kernelVersion: string, minVersion: string, maxVersion: Option<string>)
    ensures var system := SystemParts(kernelVersion);
            Rejects(kernelVersion, minVersion, maxVersion) <==>
            && system != []
            && (|| FirstBelow(system, BoundParts(minVersion))
                || (maxVersion.Some? && FirstAbove(system, BoundParts(maxVersion.value))))
  {
    BoundsAtFirstDifference(SystemParts(kernelVersion), BoundParts(minVersion));
    if maxVersion.Some? {
      BoundsAtFirstDifference(SystemParts(kernelVersion), BoundParts(maxVersion.value));
    }
  }

  // ── What is read from a version text ───────────────────────────

  /** Numbers in decimal, each on its own. */
  ghost function Decimals(ns: seq<nat>): (parts: seq<string>)
    ensures |parts| == |ns| && forall i | 0 <= i < |ns| :: parts[i] == Decimal(ns[i])
  {
    if ns == [] then [] else [Decimal(ns[0])] + Decimals(ns[1..])
  }

  /** Numbers joined by dots, as versions are written. */
  ghost function Dotted(ns: seq<nat>): string {
    Join(Decimals(ns), '.')
  }

  lemma {:induction false} NumbersOfDecimals(ns: seq<nat>, more: seq<string>)
    requires Words(ns)
    ensures Numbers(Decimals(ns) + more) == ns + Numbers(more)
  {
    if ns == [] {
      assert Decimals(ns) + more == more;
    } else {
      NumbersOfDecimals(ns[1..], more);
      NumberFirst(ns[0], Decimals(ns[1..]) + more);
      assert Decimals(ns) + more == [Decimal(ns[0])] + (Decimals(ns[1..]) + more);
      PutBack(ns, Numbers(more));
    }
  }

  lemma NumberFirst(n: nat, rest: seq<string>)
    requires n < U64_LIMIT
    ensures Numbers([Decimal(n)] + rest) == [n] + Numbers(rest)
  {
    ParseOfDecimal(n);
    assert ([Decimal(n)] + rest)[1..] == rest;
  }

  lemma PutBack(ns: seq<nat>, more: seq<nat>)
    requires ns != []
    ensures [ns[0]] + (ns[1..] + more) == ns + more
  {
  }

  /** A bound is read as the numbers that it shows, in order. */
  lemma BoundIsRead(ns: seq<nat>)
    requires ns != [] && Words(ns)
    ensures BoundParts(Dotted(ns)) == ns
  {
    SplitOfJoin(Decimals(ns), '.');
    NumbersOfDecimals(ns, []);
    assert Decimals(ns) + [] == Decimals(ns);
  }

  /** Digits up to the next other character are one run. */
  lemma {:induction false} RunThenRest(digits: string, rest: string)
    requires AllDigits(digits) && (rest == [] || !IsDigit(rest[0]))
    ensures DigitRuns(digits + rest) == [digits] + (if rest == [] then [] else DigitRuns(rest[1..]))
  {
    if digits == [] {
      assert digits + rest == rest;
    } else {
      assert (digits + rest)[1..] == digits[1..] + rest;
      RunThenRest(digits[1..], rest);
      assert [digits[0]] + digits[1..] == digits;
    }
  }

  lemma {:induction false} RunsOfDotted(ns: seq<nat>, suffix: string)
    requires ns != [] && (suffix == [] || !IsDigit(suffix[0]))
    ensures DigitRuns(Dotted(ns) + suffix) == Decimals(ns) + (if suffix == [] then [] else DigitRuns(suffix[1..]))
  {
    if |ns| == 1 {
      RunThenRest(Decimal(ns[0]), suffix);
      assert Dotted(ns) == Decimal(ns[0]) && Decimals(ns) == [Decimal(ns[0])];
    } else {
      RunsOfDotted(ns[1..], suffix);
      DottedFirst(ns, suffix);
      var after := Dotted(ns[1..]) + suffix;
      RunThenRest(Decimal(ns[0]), ['.'] + after);
      assert (['.'] + after)[1..] == after;
      DecimalFirst(ns, if suffix == [] then [] else DigitRuns(suffix[1..]));
    }
  }

  lemma DottedFirst(ns: seq<nat>, suffix: string)
    requires |ns| > 1
    ensures Dotted(ns) + suffix == Decimal(ns[0]) + (['.'] + (Dotted(ns[1..]) + suffix))
  {
    assert Decimals(ns)[1..] == Decimals(ns[1..]);
    assert Dotted(ns) == Decimal(ns[0]) + ['.'] + Dotted(ns[1..]);
  }

  lemma DecimalFirst(ns: seq<nat>, more: seq<string>)
    requires ns != []
    ensures [Decimal(ns[0])] + (Decimals(ns[1..]) + more) == Decimals(ns) + more
  {
  }

  /** A system version is read as the numbers that it starts with, in order, and those of its suffix. */
  lemma SystemIsRead(ns: seq<nat>, suffix: string)
    requires ns != [] && Words(ns) && (suffix == [] || !IsDigit(suffix[0]))
    ensures SystemParts(Dotted(ns) + suffix) == ns + (if suffix == [] then [] else SystemParts(suffix[1..]))
  {
    RunsOfDotted(ns, suffix);
    NumbersOfDecimals(ns, if suffix == [] then [] else DigitRuns(suffix[1..]));
  }

  /** A suffix without digits, such as `-generic`, adds nothing. */
  lemma {:induction false} WordsAreSkipped(suffix: string)
    requires forall i | 0 <= i < |suffix| :: !IsDigit(suffix[i])
    ensures SystemParts(suffix) == []
  {
    if suffix == [] {
      assert DigitRuns(suffix)[1..] == [];
    } else {
      WordsAreSkipped(suffix[1..]);
      assert DigitRuns(suffix)[1..] == DigitRuns(suffix[1..]);
    }
  }

  /** The first of the numbers in which `a`, padded with zeros, differs from `b`, is the smaller one. */
  ghost predicate SmallerWithin(a: seq<nat>, b: seq<nat>) {
    exists i: nat :: i < |b| && (if i < |a| then a[i] else 0) < b[i] && AgreeBefore(a, b, i)
  }

  ghost predicate LargerWithin(a: seq<nat>, b: seq<nat>) {
    exists i: nat :: i < |b| && (if i < |a| then a[i] else 0) > b[i] && AgreeBefore(a, b, i)
  }

  ghost predicate AgreeBefore(a: seq<nat>, b: seq<nat>, i: nat) {
    i <= |b| && forall j: nat | j < i :: (if j < |a| then a[j] else 0) == b[j]
  }

  lemma DifferencesWithin(a: seq<nat>, b: seq<nat>)
    ensures FirstBelow(a, b) <==> SmallerWithin(a, b)
    ensures FirstAbove(a, b) <==> LargerWithin(a, b)
  {
    forall i: nat | i < |b| ensures FirstDifference(a, b, i) <==> (if i < |a| then a[i] else 0) != b[i] && AgreeBefore(a, b, i) {
    }
  }

  /**
   Written versions: a kernel such as `6.8.5-generic` is rejected exactly when the first number
   in which it differs from the minimum is smaller, or from the maximum larger.
   */
  lemma WrittenRangeExactly(system: seq<nat>, suffix: string, min: seq<nat>, max: Option<seq<nat>>)
    requires system != [] && Words(system) && min != [] && Words(min)
    requires max.Some? ==> max.value != [] && Words(max.value)
    requires forall i | 0 <= i < |suffix| :: !IsDigit(suffix[i])
    ensures Rejects(Dotted(system) + suffix, Dotted(min), if max.Some? then Some(Dotted(max.value)) else None) <==>
            SmallerWithin(system, min) || (max.Some? && LargerWithin(system, max.value))
  {
    SystemIsRead(system, suffix);
    if suffix != [] {
      WordsAreSkipped(suffix[1..]);
    }
    assert system + [] == system;
    BoundIsRead(min);
    if max.Some? {
      BoundIsRead(max.value);
    }
    RangeByNumbers(Dotted(system) + suffix, Dotted(min), if max.Some? then Some(Dotted(max.value)) else None,
                   system, min, max);
  }

  lemma RangeByNumbers(kernelVersion: string, minVersion: string, maxVersion: Option<string>,
                       system: seq<nat>, min: seq<nat>, max: Option<seq<nat>>)
    requires system != [] && SystemParts(kernelVersion) == system && BoundParts(minVersion) == min
    requires max.Some? <==> maxVersion.Some?
    requires max.Some? ==> BoundParts(maxVersion.value) == max.value
    ensures Rejects(kernelVersion, minVersion, maxVersion) <==>
            SmallerWithin(system, min) || (max.Some? && LargerWithin(system, max.value))
  {
    RejectsAtFirstDifference(kernelVersion, minVersion, maxVersion);
    DifferencesWithin(system, min);
    if max.Some? {
      DifferencesWithin(system, max.value);
    }
  }

  // ── Comparison up to a length ──────────────────────────────────

  /** The first difference decides every longer comparison. */
  lemma {:induction false} Decided(a: seq<nat>, b: seq<nat>, m: nat, n: nat)
    requires m <= n && !CmpUpTo(a, b, m).Equal?
    ensures CmpUpTo(a, b, n) == CmpUpTo(a, b, m)
  {
    if m < n {
      Decided(a, b, m, n - 1);
    }
  }

  /** One step of the check: equal components go on, others decide. */
  lemma ComponentDecides(a: seq<nat>, b: seq<nat>, i: nat)
    requires i < |b| && CmpUpTo(a, b, i).Equal?
    ensures At(a, i) < b[i] ==> CmpUpTo(a, b, |b|).Less?
    ensures At(a, i) > b[i] ==> CmpUpTo(a, b, |b|).Greater?
    ensures At(a, i) == b[i] ==> CmpUpTo(a, b, i + 1).Equal?
  {
    if At(a, i) != b[i] {
      Decided(a, b, i + 1, |b|);
    }
  }

  lemma {:induction false} CmpUpToPreorder(a: seq<nat>, b: seq<nat>, c: seq<nat>, n: nat)
    ensures CmpUpTo(b, a, n) == CmpUpTo(a, b, n).Flip()
    ensures CmpUpTo(a, a, n).Equal?
    ensures Composes(CmpUpTo(a, b, n), CmpUpTo(b, c, n), CmpUpTo(a, c, n))
  {
    if n > 0 {
      CmpUpToPreorder(a, b, c, n - 1);
    }
  }

  /** Comparisons never turn round when cut short. */
  lemma Shorten(a: seq<nat>, b: seq<nat>, m: nat, n: nat)
    requires m <= n
    ensures CmpUpTo(a, b, n).Less? ==> !CmpUpTo(a, b, m).Greater?
    ensures CmpUpTo(a, b, n).Greater? ==> !CmpUpTo(a, b, m).Less?
    ensures CmpUpTo(a, b, n).Equal? ==> CmpUpTo(a, b, m).Equal?
  {
    if !CmpUpTo(a, b, m).Equal? {
      Decided(a, b, m, n);
    }
  }

  /** Beyond the end of `b` every component of `a` is at least the padding. */
  lemma {:induction false} Extend(a: seq<nat>, b: seq<nat>, n: nat)
    requires |b| <= n && AtLeast(a, b)
    ensures !CmpUpTo(a, b, n).Less?
  {
    if |b| < n {
      Extend(a, b, n - 1);
    }
  }

  /** The accepted system versions form an interval of the zero-padded order. */
  lemma AcceptedVersionsFormInterval(low: seq<nat>, mid: seq<nat>, high: seq<nat>,
                                     min: seq<nat>, max: Option<seq<nat>>, n: nat)
    requires |min| <= n && (max.Some? ==> |max.value| <= n)
    requires !CmpUpTo(low, mid, n).Greater? && !CmpUpTo(mid, high, n).Greater?
    requires InRange(low, min, max) && InRange(high, min, max)
    ensures InRange(mid, min, max)
  {
    Shorten(low, mid, |min|, n);
    CmpUpToPreorder(mid, low, min, |min|);
    if max.Some? {
      Shorten(mid, high, |max.value|, n);
      CmpUpToPreorder(mid, high, max.value, |max.value|);
    }
  }

  // ── Comparing ranges ───────────────────────────────────────────

  /** Relaxing a minimum, exactly: `weaker` accepts all that `min` does when it is at most `min`. */
  lemma MinimumMonotoneExactly(min: seq<nat>, weaker: seq<nat>)
    ensures (forall system | AtLeast(system, min) :: AtLeast(system, weaker)) <==> AtLeast(min, weaker)
  {
    CmpUpToPreorder(min, min, min, |min|);
    assert AtLeast(min, min);
    if AtLeast(min, weaker) {
      forall system | AtLeast(system, min) ensures AtLeast(system, weaker) {
        if |weaker| <= |min| {
          Shorten(system, min, |weaker|, |min|);
        } else {
          Extend(system, min, |weaker|);
        }
        CmpUpToPreorder(system, min, weaker, |weaker|);
      }
    }
  }

  /** The largest version that a maximum accepts, to `n` components: absent ones are unbounded. */
  ghost function Top(max: seq<nat>, n: nat): (top: seq<nat>)
    ensures |top| == if n > |max| then n else |max|
    ensures forall i: nat | i < |max| :: top[i] == max[i]
    ensures forall i: nat | |max| <= i < |top| :: top[i] == U64_LIMIT - 1
    decreases n
  {
    if n <= |max| then max else Top(max, n - 1) + [U64_LIMIT - 1]
  }

  lemma {:induction false} BelowTop(system: seq<nat>, max: seq<nat>, m: nat, n: nat)
    requires Words(system) && AtMost(system, max) && m <= |Top(max, n)|
    ensures !CmpUpTo(system, Top(max, n), m).Greater?
  {
    if m <= |max| {
      AgreeUpTo(system, max, Top(max, n), m);
      Shorten(system, max, m, |max|);
    } else {
      BelowTop(system, max, m - 1, n);
    }
  }

  lemma {:induction false} AgreeUpTo(a: seq<nat>, b: seq<nat>, c: seq<nat>, m: nat)
    requires m <= |b| && m <= |c| && forall i: nat | i < m :: b[i] == c[i]
    ensures CmpUpTo(a, b, m) == CmpUpTo(a, c, m)
    ensures CmpUpTo(b, c, m).Equal?
  {
    if m > 0 {
      AgreeUpTo(a, b, c, m - 1);
    }
  }

  /**
   Relaxing a maximum, exactly: the components that `max` leaves out are unbounded, so a
   longer `weaker` must allow the largest 64-bit number there.
   */
  lemma MaximumMonotoneExactly(max: seq<nat>, weaker: seq<nat>)
    requires Words(max)
    ensures (forall system | Words(system) && AtMost(system, max) :: AtMost(system, weaker)) <==>
            AtMost(Top(max, |weaker|), weaker)
  {
    var top := Top(max, |weaker|);
    AgreeUpTo(top, top, max, |max|);
    assert AtMost(top, max);
    assert Words(top);
    if AtMost(top, weaker) {
      forall system | Words(system) && AtMost(system, max) ensures AtMost(system, weaker) {
        BelowTop(system, max, |weaker|, |weaker|);
        CmpUpToPreorder(system, top, weaker, |weaker|);
      }
    }
  }

  /** `6.8` accepts every 6.8.x, so replacing it with the zero-padded `6.8.0` is not a relaxation. */
  lemma PaddingTightensMaximum()
    ensures AtMost([6, 8, 5], [6, 8]) && !AtMost([6, 8, 5], [6, 8, 0])
    ensures CmpUpTo([6, 8], [6, 8, 0], 3).Equal?
  {
    assert CmpUpTo([6, 8, 5], [6, 8], 1).Equal?;
    assert CmpUpTo([6, 8, 5], [6, 8, 0], 1).Equal?;
    assert CmpUpTo([6, 8, 5], [6, 8, 0], 2).Equal?;
    assert CmpUpTo([6, 8], [6, 8, 0], 1).Equal?;
    assert CmpUpTo([6, 8], [6, 8, 0], 2).Equal?;
  }
}
