/** The Content-Range check before a partial download is extended (download.rs). */
module ContentRange {
  import opened Wrappers
  import opened Text

  const UNIT: string := "bytes "

  /** Start, end and total of `bytes start-end/total`, when start is the expected offset. */
  function ValidateContentRange(header: string, expectedStart: nat): (range: Option<(nat, nat, nat)>)
    ensures range.Some? ==> range.value.0 == expectedStart <= range.value.1
  {
    var trimmed := Trim(header);
    if !StartsWith(trimmed, UNIT) then None
    else
      var rest := trimmed[|UNIT|..];
      if StartsWith(rest, "*/") then None
      else
        var parts := SplitOn(rest, '/');
        if |parts| != 2 then None
        else
          var ends := SplitOn(parts[0], '-');
          if |ends| != 2 then None
          else
            match (ParseU64(ends[0]), ParseU64(ends[1]), ParseU64(parts[1]))
            case (Some(start), Some(end), Some(total)) =>
              if start != expectedStart || end < start then None else Some((start, end, total))
            case _ => None
  }

  // ── Which headers are accepted ─────────────────────────────────

  /** `bytes a-b/c`. */
  predicate Spells(text: string, a: string, b: string, c: string) {
    text == "bytes " + (a + ['-'] + b + ['/'] + c)
  }

  /** The three pieces are numbers, the first is the offset, and the ends are in order. */
  predicate NumbersFit(a: string, b: string, c: string, offset: nat, range: (nat, nat, nat)) {
    && ParseU64(a) == Some(range.0) && ParseU64(b) == Some(range.1) && ParseU64(c) == Some(range.2)
    && offset == range.0 <= range.1
  }

  /** A header is accepted, with these numbers, exactly when it spells them, up to white space around it. */
  lemma AcceptedExactly(header: string, offset: nat, range: (nat, nat, nat))
    ensures ValidateContentRange(header, offset) == Some(range) <==>
            exists a, b, c :: Spells(Trim(header), a, b, c) && NumbersFit(a, b, c, offset, range)
  {
    if ValidateContentRange(header, offset) == Some(range) {
      var parts := SplitOn(Trim(header)[|UNIT|..], '/');
      var ends := SplitOn(parts[0], '-');
      JoinOfTwo(parts, '/');
      JoinOfTwo(ends, '-');
      assert Spells(Trim(header), ends[0], ends[1], parts[1]) && NumbersFit(ends[0], ends[1], parts[1], offset, range);
    }
    forall a, b, c | Spells(Trim(header), a, b, c) && NumbersFit(a, b, c, offset, range)
      ensures ValidateContentRange(header, offset) == Some(range)
    {
      SpelledIsSplit(Trim(header), a, b, c, offset, range);
    }
  }

  lemma JoinOfTwo(parts: seq<string>, sep: char)
    requires |parts| == 2
    ensures Join(parts, sep) == parts[0] + [sep] + parts[1]
  {
    assert parts[1..] == [parts[1]];
  }

  lemma SpelledIsSplit(text: string, a: string, b: string, c: string, offset: nat, range: (nat, nat, nat))
    requires Spells(text, a, b, c) && NumbersFit(a, b, c, offset, range)
    ensures StartsWith(text, UNIT)
    ensures var rest := text[|UNIT|..];
            !StartsWith(rest, "*/") && SplitOn(rest, '/') == [a + ['-'] + b, c]
    ensures SplitOn(a + ['-'] + b, '-') == [a, b]
  {
    EndsAreSplit(a, b);
    PartsAreSplit(a, b, c);
    assert text[|UNIT|..] == (a + ['-'] + b) + ['/'] + c;
  }

  lemma EndsAreSplit(a: string, b: string)
    requires ParseU64(a).Some? && ParseU64(b).Some?
    ensures SplitOn(a + ['-'] + b, '-') == [a, b]
  {
    NumbersHoldNo(a, '-');
    NumbersHoldNo(b, '-');
    SplitAtSeparator(a, b, '-');
    SplitWithoutSeparator(b, '-');
  }

  lemma PartsAreSplit(a: string, b: string, c: string)
    requires ParseU64(a).Some? && ParseU64(b).Some? && ParseU64(c).Some?
    ensures var rest := (a + ['-'] + b) + ['/'] + c;
            !StartsWith(rest, "*/") && SplitOn(rest, '/') == [a + ['-'] + b, c]
  {
    NumbersHoldNo(a, '*');
    NoSlash(a, b);
    NumbersHoldNo(c, '/');
    SlashSplits(a + ['-'] + b, c);
  }

  lemma NoSlash(a: string, b: string)
    requires ParseU64(a).Some? && ParseU64(b).Some?
    ensures '/' !in a + ['-'] + b && a != []
  {
    NumbersHoldNo(a, '/');
    NumbersHoldNo(b, '/');
  }

  lemma SlashSplits(front: string, total: string)
    requires front != [] && front[0] != '*' && '/' !in front && '/' !in total
    ensures !StartsWith(front + ['/'] + total, "*/")
    ensures SplitOn(front + ['/'] + total, '/') == [front, total]
  {
    SplitAtSeparator(front, total, '/');
    SplitWithoutSeparator(total, '/');
    var rest := front + ['/'] + total;
    assert rest[0] == front[0];
  }

  lemma NumbersHoldNo(s: string, c: char)
    requires ParseU64(s).Some? && !IsDigit(c) && c != '+'
    ensures c !in s
  {
    assert forall i | 1 <= i < |s| :: s[i] == s[1..][i - 1];
  }

  // ── Printed headers ────────────────────────────────────────────

  function PrintRange(first: nat, last: nat): string {
    Join([Decimal(first), Decimal(last)], '-')
  }

  /** The header that a server prints, with its complete length as text. */
  function PrintHeader(first: nat, last: nat, total: string): string {
    UNIT + Join([PrintRange(first, last), total], '/')
  }

  lemma RangeSplits(first: nat, last: nat)
    ensures SplitOn(PrintRange(first, last), '-') == [Decimal(first), Decimal(last)]
    ensures '/' !in PrintRange(first, last)
    ensures PrintRange(first, last) != [] && IsDigit(PrintRange(first, last)[0])
  {
    var ends := [Decimal(first), Decimal(last)];
    SplitOfJoin(ends, '-');
    JoinMembers(ends, '-', '/');
    assert PrintRange(first, last)[0] == Decimal(first)[0];
  }

  lemma HeaderParts(first: nat, last: nat, total: string)
    requires total != [] && !IsWhiteSpace(total[|total| - 1])
    ensures var header := PrintHeader(first, last, total);
            && header[|UNIT|..] == PrintRange(first, last) + ['/'] + total
            && StartsWith(header, UNIT) && Trim(header) == header
  {
    var parts := [PrintRange(first, last), total];
    var header := PrintHeader(first, last, total);
    assert Join(parts, '/') == PrintRange(first, last) + ['/'] + total by {
      assert parts[1..] == [total];
    }
    assert header == UNIT + (PrintRange(first, last) + ['/'] + total);
    assert header[|header| - 1] == total[|total| - 1];
    assert header[0] == 'b';
  }

  lemma HeaderSplits(first: nat, last: nat, total: string)
    requires '/' !in total
    ensures var rest := PrintRange(first, last) + ['/'] + total;
            !StartsWith(rest, "*/") && SplitOn(rest, '/') == [PrintRange(first, last), total]
  {
    RangeSplits(first, last);
    SlashSplits(PrintRange(first, last), total);
  }

  /** A printed range is accepted, and its numbers recovered, exactly at its own offset and in order. */
  lemma PrintedRangeExactly(first: nat, last: nat, total: nat, offset: nat)
    requires first < U64_LIMIT && last < U64_LIMIT && total < U64_LIMIT
    ensures ValidateContentRange(PrintHeader(first, last, Decimal(total)), offset) ==
            if first == offset && first <= last then Some((first, last, total)) else None
  {
    var text := Decimal(total);
    assert IsDigit(text[|text| - 1]) && '/' !in text;
    HeaderParts(first, last, text);
    HeaderSplits(first, last, text);
    RangeSplits(first, last);
    ParseOfDecimal(first);
    ParseOfDecimal(last);
    ParseOfDecimal(total);
  }

  /** Section 14.4 of RFC 9110: the last position is not before the first and below the complete length. */
  ghost predicate ValidByStandard(first: nat, last: nat, total: nat) {
    first <= last < total
  }

  /** The check departs from the standard exactly on complete lengths that the range exceeds. */
  lemma DepartsFromStandardExactly(first: nat, last: nat, total: nat)
    requires first < U64_LIMIT && last < U64_LIMIT && total < U64_LIMIT
    ensures (ValidateContentRange(PrintHeader(first, last, Decimal(total)), first).Some?
             <==> ValidByStandard(first, last, total))
            <==> !(first <= last && total <= last)
  {
    PrintedRangeExactly(first, last, total, first);
  }

  /** An unknown complete length, which the standard allows, is refused. */
  lemma UnknownLengthIsRefused(first: nat, last: nat, offset: nat)
    ensures ValidateContentRange(PrintHeader(first, last, "*"), offset).None?
  {
    HeaderParts(first, last, "*");
    HeaderSplits(first, last, "*");
    assert !IsDigit("*"[0]);
  }
}
