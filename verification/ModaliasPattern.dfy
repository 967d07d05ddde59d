/**
 The modalias glob matcher of the hardware matcher: greedy, leftmost, no backtracking.

 `Glob` is the reference meaning, one character at a time.  `SegmentsMatch` is the reading
 by literal segments with arbitrary gaps.  The theorems say that the greedy loop decides
 `Glob` for every pattern that holds a star, and exactly where it does not.
 */
module ModaliasPattern {
  import opened Wrappers
  import opened Text

  // ── Reference meanings ─────────────────────────────────────────

  /** `*` stands for any sequence and every other character for itself. */
  ghost predicate Glob(pattern: string, text: string)
    decreases |pattern| + |text|
  {
    if pattern == [] then text == []
    else if pattern[0] == '*' then
      Glob(pattern[1..], text) || (text != [] && Glob(pattern, text[1..]))
    else
      text != [] && text[0] == pattern[0] && Glob(pattern[1..], text[1..])
  }

  /** The segments follow a star: each occurs after the one before, the last one at the end. */
  ghost predicate GapsThen(segments: seq<string>, text: string)
    requires |segments| >= 1
    decreases |segments|
  {
    if |segments| == 1 then EndsWith(text, segments[0])
    else
      exists k :: OccursAt(text, segments[0], k)
               && GapsThen(segments[1..], text[k + |segments[0]|..])
  }

  /** The first segment is a prefix; the others follow with arbitrary gaps. */
  ghost predicate SegmentsMatch(segments: seq<string>, text: string)
    requires |segments| >= 1
  {
    && StartsWith(text, segments[0])
    && (|segments| > 1 ==> GapsThen(segments[1..], text[|segments[0]|..]))
  }

  /** What the matcher decides: `Glob`, except that a non-empty star-free pattern is a prefix test. */
  ghost predicate Accepts(pattern: string, text: string) {
    if pattern == [] then text == []
    else if '*' in pattern then Glob(pattern, text)
    else StartsWith(text, pattern)
  }

  // ── The matcher ────────────────────────────────────────────────

  /** Leftmost occurrence of `needle`. */
  function FindSubslice(haystack: string, needle: string): Option<nat> {
    if needle == [] then Some(0)
    else if |haystack| < |needle| then None
    else if haystack[..|needle|] == needle then Some(0)
    else
      match FindSubslice(haystack[1..], needle)
      case None => None
      case Some(k) => Some(k + 1)
  }

  /** It is an occurrence, none is earlier, and without one there is none. */
  lemma {:induction false} FindsLeftmost(haystack: string, needle: string)
    ensures match FindSubslice(haystack, needle)
            case Some(at) => OccursAt(haystack, needle, at) && forall k | OccursAt(haystack, needle, k) :: at <= k
            case None => forall k :: !OccursAt(haystack, needle, k)
  {
    if needle != [] && |haystack| >= |needle| && haystack[..|needle|] != needle {
      FindsLeftmost(haystack[1..], needle);
      OccurrencesInTail(haystack, needle);
      assert !OccursAt(haystack, needle, 0);
    }
  }

  lemma OccurrencesInTail(haystack: string, needle: string)
    requires 0 < |needle| <= |haystack|
    ensures forall k | k > 0 :: OccursAt(haystack, needle, k) <==> OccursAt(haystack[1..], needle, k - 1)
  {
    forall k | k > 0 ensures OccursAt(haystack, needle, k) <==> OccursAt(haystack[1..], needle, k - 1) {
      if k <= |haystack| - |needle| {
        var tail := haystack[1..];
        assert haystack == [haystack[0]] + tail;
        assert tail[k - 1..k - 1 + |needle|] == haystack[k..k + |needle|];
      }
    }
  }

  method ModaliasPatternMatch(pattern: string, modalias: string) returns (matched: bool)
    ensures matched <==> Accepts(pattern, modalias)
  {
    if pattern == "*" {
      LoneStar(modalias);
      return true;
    }
    var segments := SplitOn(pattern, '*');
    if |segments| == 1 && segments[0] == [] {
      return modalias == [];
    }
    SegmentsDecideAccepts(pattern, modalias);
    ghost var accepts := SegmentsMatch(segments, modalias);
    var pos: nat := 0;
    for i := 0 to |segments|
      invariant pos <= |modalias|
      invariant i == 0 ==> pos == 0
      invariant accepts <==> RestMatches(segments, i, modalias, pos)
    {
      var segment := segments[i];
      Step(segments, i, modalias, pos);
      if segment == [] {
        continue;
      }
      if i == 0 {
        if !StartsWith(modalias, segment) {
          return false;
        }
        pos := |segment|;
      } else if i == |segments| - 1 {
        if !EndsWith(modalias, segment) {
          return false;
        }
        var start := |modalias| - |segment|;
        if start < pos {
          return false;
        }
      } else {
        var found := FindSubslice(modalias[pos..], segment);
        if found.None? {
          return false;
        }
        pos := pos + found.value + |segment|;
      }
    }
    return true;
  }

  /** What is left to match after the first `i` segments were placed, up to `pos`. */
  ghost predicate RestMatches(segments: seq<string>, i: nat, text: string, pos: nat)
    requires i <= |segments| && pos <= |text|
  {
    if i == 0 then |segments| > 0 && SegmentsMatch(segments, text)
    else i < |segments| ==> GapsThen(segments[i..], text[pos..])
  }

  /** Where one iteration of the loop puts `pos`, unless it gives up. */
  function NextPos(segments: seq<string>, i: nat, text: string, pos: nat): (next: Option<nat>)
    requires i < |segments| && pos <= |text| && (i == 0 ==> pos == 0)
    ensures next.Some? ==> next.value <= |text|
  {
    var segment := segments[i];
    if segment == [] then Some(pos)
    else if i == 0 then if StartsWith(text, segment) then Some(|segment|) else None
    else if i == |segments| - 1 then
      if EndsWith(text, segment) && |text| - |segment| >= pos then Some(pos) else None
    else
      FindsLeftmost(text[pos..], segment);
      match FindSubslice(text[pos..], segment)
      case None => None
      case Some(k) => Some(pos + k + |segment|)
  }

  /** One iteration loses no match and invents none. */
  lemma Step(segments: seq<string>, i: nat, text: string, pos: nat)
    requires i < |segments| && pos <= |text| && (i == 0 ==> pos == 0)
    ensures var next := NextPos(segments, i, text, pos);
            RestMatches(segments, i, text, pos) <==> next.Some? && RestMatches(segments, i + 1, text, next.value)
  {
    if i == |segments| - 1 && i > 0 {
      LastStep(segments, text, pos);
    } else if i > 0 {
      MiddleStep(segments, i, text, pos, FindSubslice(text[pos..], segments[i]));
    }
  }

  lemma LastStep(segments: seq<string>, text: string, pos: nat)
    requires |segments| > 1 && pos <= |text|
    ensures var last := segments[|segments| - 1];
            RestMatches(segments, |segments| - 1, text, pos) <==>
            EndsWith(text, last) && pos <= |text| - |last|
  {
    var last := segments[|segments| - 1];
    assert segments[|segments| - 1..] == [last];
    if pos <= |text| - |last| {
      assert text[pos..][|text| - pos - |last|..] == text[|text| - |last|..];
    }
  }

  lemma MiddleStep(segments: seq<string>, i: nat, text: string, pos: nat, found: Option<nat>)
    requires 0 < i < |segments| - 1 && pos <= |text|
    requires found == FindSubslice(text[pos..], segments[i])
    ensures found.Some? ==> pos + found.value + |segments[i]| <= |text|
    ensures RestMatches(segments, i, text, pos) <==>
            found.Some? && RestMatches(segments, i + 1, text, pos + found.value + |segments[i]|)
  {
    var rest := segments[i..];
    assert rest[1..] == segments[i + 1..];
    FindsLeftmost(text[pos..], segments[i]);
    if found.Some? {
      LeftmostIsEnough(rest, text[pos..], found.value);
      assert text[pos..][found.value + |segments[i]|..] == text[pos + found.value + |segments[i]|..];
    }
  }

  // ── Greedy choice never loses a match ──────────────────────────

  /** A longer text offers more gaps: what fits in a suffix fits in the whole. */
  lemma {:induction false} GapsGrow(segments: seq<string>, text: string, skipped: nat)
    requires |segments| >= 1 && skipped <= |text|
    requires GapsThen(segments, text[skipped..])
    ensures GapsThen(segments, text)
  {
    if |segments| == 1 {
      assert text[skipped..][|text| - skipped - |segments[0]|..] == text[|text| - |segments[0]|..];
    } else {
      var head := segments[0];
      var k :| OccursAt(text[skipped..], head, k)
            && GapsThen(segments[1..], text[skipped..][k + |head|..]);
      assert text[skipped..][k..k + |head|] == text[skipped + k..skipped + k + |head|];
      assert text[skipped..][k + |head|..] == text[skipped + k + |head|..];
      assert OccursAt(text, head, skipped + k);
    }
  }

  /** Exchange argument: taking the leftmost occurrence of the next segment is complete. */
  lemma LeftmostIsEnough(segments: seq<string>, text: string, first: nat)
    requires |segments| > 1
    requires OccursAt(text, segments[0], first)
    requires forall k | OccursAt(text, segments[0], k) :: first <= k
    ensures GapsThen(segments, text) <==> GapsThen(segments[1..], text[first + |segments[0]|..])
  {
    var head := segments[0];
    if GapsThen(segments, text) {
      var k :| OccursAt(text, head, k) && GapsThen(segments[1..], text[k + |head|..]);
      var rest := text[first + |head|..];
      assert rest[k - first..] == text[k + |head|..];
      GapsGrow(segments[1..], rest, k - first);
    }
  }

  // ── Segments and characters agree ──────────────────────────────

  lemma {:induction false} StarTakesAnyPrefix(rest: string, text: string, k: nat)
    requires k <= |text| && Glob(rest, text[k..])
    ensures Glob("*" + rest, text)
  {
    assert ("*" + rest)[1..] == rest;
    if k == 0 {
      assert text[0..] == text;
    } else {
      assert text[1..][k - 1..] == text[k..];
      StarTakesAnyPrefix(rest, text[1..], k - 1);
    }
  }

  lemma LoneStar(text: string)
    ensures Accepts("*", text)
  {
    StarTakesAnyPrefix([], text, |text|);
    assert "*" + [] == "*";
    assert "*"[0] == '*';
  }

  lemma {:induction false} StarSplits(rest: string, text: string) returns (k: nat)
    requires Glob("*" + rest, text)
    ensures k <= |text| && Glob(rest, text[k..])
  {
    assert ("*" + rest)[1..] == rest;
    if Glob(rest, text) {
      k := 0;
      assert text[0..] == text;
    } else {
      k := StarSplits(rest, text[1..]);
      assert text[1..][k..] == text[k + 1..];
      k := k + 1;
    }
  }

  lemma {:induction false} LiteralPrefix(literal: string, rest: string, text: string)
    requires '*' !in literal
    ensures Glob(literal + rest, text) <==> StartsWith(text, literal) && Glob(rest, text[|literal|..])
  {
    if literal == [] {
      assert literal + rest == rest && text[0..] == text;
    } else {
      var pattern := literal + rest;
      assert pattern[1..] == literal[1..] + rest;
      if text != [] {
        LiteralPrefix(literal[1..], rest, text[1..]);
        assert literal == [literal[0]] + literal[1..];
        if |literal| <= |text| {
          assert text[1..][|literal| - 1..] == text[|literal|..];
          assert text[..|literal|] == [text[0]] + text[1..][..|literal| - 1];
        }
      }
    }
  }

  lemma {:induction false} GapsAreGlob(segments: seq<string>, text: string)
    requires |segments| >= 1
    requires forall i | 0 <= i < |segments| :: '*' !in segments[i]
    ensures GapsThen(segments, text) <==> Glob("*" + Join(segments, '*'), text)
    decreases |segments|
  {
    var joined := Join(segments, '*');
    var head := segments[0];
    if GapsThen(segments, text) {
      var k := if |segments| == 1 then |text| - |head|
               else var k :| OccursAt(text, head, k) && GapsThen(segments[1..], text[k + |head|..]); k;
      SegmentThenGaps(segments, text, k);
      StarTakesAnyPrefix(joined, text, k);
    }
    if Glob("*" + joined, text) {
      var k := StarSplits(joined, text);
      SegmentThenGaps(segments, text, k);
    }
  }

  /** One segment at position `k`, the others after it, read both ways. */
  lemma {:induction false} SegmentThenGaps(segments: seq<string>, text: string, k: nat)
    requires |segments| >= 1 && k <= |text|
    requires forall i | 0 <= i < |segments| :: '*' !in segments[i]
    ensures Glob(Join(segments, '*'), text[k..]) <==>
            if |segments| == 1 then text[k..] == segments[0]
            else OccursAt(text, segments[0], k) && GapsThen(segments[1..], text[k + |segments[0]|..])
    decreases |segments|, 0
  {
    var head := segments[0];
    var rest := if |segments| == 1 then "" else "*" + Join(segments[1..], '*');
    assert Join(segments, '*') == head + rest;
    LiteralPrefix(head, rest, text[k..]);
    PieceAt(head, text, k);
    if k + |head| <= |text| && |segments| > 1 {
      GapsAreGlob(segments[1..], text[k + |head|..]);
    }
  }

  /** A piece occurs at a position exactly when what follows starts with it. */
  lemma PieceAt(piece: string, text: string, k: nat)
    requires k <= |text|
    ensures StartsWith(text[k..], piece) <==> OccursAt(text, piece, k)
    ensures k + |piece| <= |text| ==> text[k..][|piece|..] == text[k + |piece|..]
  {
    if k + |piece| <= |text| {
      assert text[k..][..|piece|] == text[k..k + |piece|];
    }
  }

  /** Soundness and completeness of the segment reading, for patterns with a star. */
  lemma SegmentsAreGlob(pattern: string, text: string)
    requires '*' in pattern
    ensures SegmentsMatch(SplitOn(pattern, '*'), text) <==> Glob(pattern, text)
  {
    var segments := SplitOn(pattern, '*');
    SegmentThenGaps(segments, text, 0);
    assert text[0..] == text;
  }

  lemma SegmentsDecideAccepts(pattern: string, text: string)
    requires pattern != []
    ensures SegmentsMatch(SplitOn(pattern, '*'), text) <==> Accepts(pattern, text)
  {
    if '*' in pattern {
      SegmentsAreGlob(pattern, text);
    } else {
      SplitWithoutSeparator(pattern, '*');
    }
  }

  // ── Where the matcher departs from the glob meaning ────────────

  lemma StarFreeGlobIsEquality(pattern: string, text: string)
    requires '*' !in pattern
    ensures Glob(pattern, text) <==> pattern == text
  {
    LiteralPrefix(pattern, [], text);
    assert pattern + [] == pattern;
    assert StartsWith(text, pattern) && text[|pattern|..] == [] ==> text == text[..|pattern|];
  }

  /** The matcher accepts more than the glob exactly on non-empty star-free proper prefixes. */
  lemma DepartsFromGlobExactly(pattern: string, text: string)
    ensures (Accepts(pattern, text) <==> Glob(pattern, text)) <==>
            !(pattern != [] && '*' !in pattern && StartsWith(text, pattern) && |pattern| < |text|)
  {
    if '*' !in pattern {
      StarFreeGlobIsEquality(pattern, text);
      assert |pattern| == |text| && StartsWith(text, pattern) ==> text[..|pattern|] == text;
    }
  }

  /** A star at the end loses nothing: every star-free pattern means the same with it. */
  lemma TrailingStarIsImplicit(pattern: string, text: string)
    requires pattern != [] && '*' !in pattern
    ensures Accepts(pattern, text) <==> Accepts(pattern + "*", text)
  {
    LiteralPrefix(pattern, "*", text);
    assert '*' in pattern + "*" by { assert (pattern + "*")[|pattern|] == '*'; }
    if StartsWith(text, pattern) {
      var tail := text[|pattern|..];
      StarTakesAnyPrefix([], tail, |tail|);
      assert "*" + [] == "*";
    }
  }

  /** The documented meaning, in which `?` also stands for any single character. */
  ghost predicate DocumentedGlob(pattern: string, text: string)
    decreases |pattern| + |text|
  {
    if pattern == [] then text == []
    else if pattern[0] == '*' then
      DocumentedGlob(pattern[1..], text) || (text != [] && DocumentedGlob(pattern, text[1..]))
    else
      text != [] && pattern[0] in {'?', text[0]} && DocumentedGlob(pattern[1..], text[1..])
  }

  /** Against `Glob`, the documented meaning only adds texts, and adds none without a `?`. */
  lemma {:induction false} QuestionMarkIsLiteral(pattern: string, text: string)
    ensures Glob(pattern, text) ==> DocumentedGlob(pattern, text)
    ensures '?' !in pattern ==> (Glob(pattern, text) <==> DocumentedGlob(pattern, text))
    decreases |pattern| + |text|
  {
    if pattern != [] {
      QuestionMarkIsLiteral(pattern[1..], text);
      if text != [] {
        QuestionMarkIsLiteral(pattern, text[1..]);
        QuestionMarkIsLiteral(pattern[1..], text[1..]);
      }
    }
  }

  /**
   The matcher decides the documented meaning of a pattern, on all texts, exactly when the
   pattern is empty, or holds a star and no `?`.
   */
  lemma DocumentedExactly(pattern: string)
    ensures (forall text :: Accepts(pattern, text) <==> DocumentedGlob(pattern, text)) <==>
            pattern == [] || ('*' in pattern && '?' !in pattern)
  {
    if pattern != [] && '*' !in pattern {
      var text := pattern + "x";
      assert text[..|pattern|] == pattern && |text| == |pattern| + 1;
      SameLengthWithoutStar(pattern, text);
      assert Accepts(pattern, text) && !DocumentedGlob(pattern, text);
    } else if '?' in pattern {
      FilledIn(pattern);
      NoMarkFromNowhere(pattern, Filled(pattern));
      assert !Accepts(pattern, Filled(pattern));
    } else {
      forall text ensures Accepts(pattern, text) <==> DocumentedGlob(pattern, text) {
        QuestionMarkIsLiteral(pattern, text);
      }
    }
  }

  lemma {:induction false} SameLengthWithoutStar(pattern: string, text: string)
    requires '*' !in pattern
    ensures DocumentedGlob(pattern, text) ==> |pattern| == |text|
  {
    if pattern != [] && text != [] {
      SameLengthWithoutStar(pattern[1..], text[1..]);
    }
  }

  /** The pattern with its stars erased and every `?` replaced. */
  function Filled(pattern: string): (text: string)
    ensures '?' !in text
  {
    if pattern == [] then []
    else
      (match pattern[0] case '*' => "" case '?' => "x" case c => [c]) + Filled(pattern[1..])
  }

  lemma {:induction false} FilledIn(pattern: string)
    ensures DocumentedGlob(pattern, Filled(pattern))
  {
    if pattern != [] {
      FilledIn(pattern[1..]);
      if pattern[0] == '*' {
        assert Filled(pattern) == Filled(pattern[1..]);
      } else {
        assert Filled(pattern)[1..] == Filled(pattern[1..]);
      }
    }
  }

  /** A literal `?` needs one in the text. */
  lemma {:induction false} NoMarkFromNowhere(pattern: string, text: string)
    requires '?' in pattern && '?' !in text
    ensures !Glob(pattern, text)
    decreases |pattern| + |text|
  {
    if text != [] {
      if pattern[0] == '*' {
        NoMarkFromNowhere(pattern[1..], text);
        NoMarkFromNowhere(pattern, text[1..]);
      } else if text[0] == pattern[0] {
        NoMarkFromNowhere(pattern[1..], text[1..]);
      }
    } else if pattern[0] == '*' {
      NoMarkFromNowhere(pattern[1..], text);
    }
  }
}
