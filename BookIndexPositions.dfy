/**
 * A character's place in the book (page, line, character) and its seven-digit "PPPLLCC" format,
 * the ranges the console accepts, and the check that the selection's first character does not
 * come after its last.
 */
module BookIndexPositions {
  import opened Text

  /** One character's place in the book; the console accepts only positive values. */
  datatype BookIndexPosition = BookIndexPosition(page: nat, line: nat, character: nat)

  /** The first and the last character of the selected text (key A). */
  datatype BookIndexPositions = BookIndexPositions(start: BookIndexPosition, end: BookIndexPosition)

  // ---------------------------------------------------------------------------------------------
  // The accepted ranges

  /** A page between 1 and 999, a line and a character between 1 and 99. */
  predicate InRange(p: BookIndexPosition) {
    1 <= p.page <= 999 && 1 <= p.line <= 99 && 1 <= p.character <= 99
  }

  /** The three checks that send the user back: an earlier page, line or character at the end. */
  predicate StartNotAfterEnd(s: BookIndexPosition, e: BookIndexPosition) {
    && !(s.page > e.page)
    && !(s.line > e.line && s.page == e.page)
    && !(s.character > e.character && s.line == e.line && s.page == e.page)
  }

  /** The position as one number, page, line and character from most to least significant. */
  function Position(p: BookIndexPosition): int {
    p.page * 10000 + p.line * 100 + p.character
  }

  /** The checks accept exactly the selections whose start is not after their end in reading order. */
  lemma StartNotAfterEndOrder(s: BookIndexPosition, e: BookIndexPosition)
    requires InRange(s) && InRange(e)
    ensures StartNotAfterEnd(s, e) <==> Position(s) <= Position(e)
  {
  }

  // ---------------------------------------------------------------------------------------------
  // Formatting

  /** The page with leading zeros to three digits. */
  function PaddedPage(page: nat): seq<Digit>
  {
    if page > 99 then DecimalDigits(page)
    else if page > 9 then [0] + DecimalDigits(page)
    else [0, 0] + DecimalDigits(page)
  }

  /** A number below 100 with a leading zero to two digits. */
  function PaddedTwo(n: nat): seq<Digit>
  {
    if n > 9 then DecimalDigits(n) else [0] + DecimalDigits(n)
  }

  /** The format as written: the character's leading zero is decided by the line number. */
  function FormattedAsWritten(p: BookIndexPosition): (r: seq<Digit>)
    ensures r == Formatted(p) <==> (p.line > 9 <==> p.character > 9)
  {
    PaddedPage(p.page) + PaddedTwo(p.line)
      + (if p.line > 9 then DecimalDigits(p.character) else [0] + DecimalDigits(p.character))
  }

  /** The format as documented, "PPPLLCC": each field padded by its own value. */
  function Formatted(p: BookIndexPosition): seq<Digit>
  {
    PaddedPage(p.page) + PaddedTwo(p.line) + PaddedTwo(p.character)
  }

  lemma {:induction false} LeadingZero(ds: seq<Digit>)
    ensures DigitsValue([0] + ds) == DigitsValue(ds)
  {
    if ds != [] {
      assert ([0] + ds)[..|ds|] == [0] + ds[..|ds| - 1];
      LeadingZero(ds[..|ds| - 1]);
    }
  }

  lemma PaddedPageValue(page: nat)
    requires page <= 999
    ensures |PaddedPage(page)| == 3 && DigitsValue(PaddedPage(page)) == page
  {
    DecimalDigitsValue(page);
    if page <= 99 {
      LeadingZero(DecimalDigits(page));
    }
    if page <= 9 {
      LeadingZero([0] + DecimalDigits(page));
      assert [0, 0] + DecimalDigits(page) == [0] + ([0] + DecimalDigits(page));
    }
  }

  lemma PaddedTwoValue(n: nat)
    requires n <= 99
    ensures |PaddedTwo(n)| == 2 && DigitsValue(PaddedTwo(n)) == n
  {
    DecimalDigitsValue(n);
    if n <= 9 {
      LeadingZero(DecimalDigits(n));
    }
  }

  /** The three fields of an in-range position sit at digits 0-2, 3-4 and 5-6 and read back as its numbers. */
  lemma FormattedLayout(p: BookIndexPosition)
    requires InRange(p)
    ensures |Formatted(p)| == 7
    ensures DigitsValue(Formatted(p)[..3]) == p.page
    ensures DigitsValue(Formatted(p)[3..5]) == p.line
    ensures DigitsValue(Formatted(p)[5..]) == p.character
  {
    PaddedPageValue(p.page);
    PaddedTwoValue(p.line);
    PaddedTwoValue(p.character);
    var f := Formatted(p);
    assert f[..3] == PaddedPage(p.page);
    assert f[3..5] == PaddedTwo(p.line);
    assert f[5..] == PaddedTwo(p.character);
  }

  function Pow10(n: nat): nat
  {
    if n == 0 then 1 else 10 * Pow10(n - 1)
  }

  lemma ShiftDigit(x: int, scale: int, y: int)
    ensures (x * scale + y) * 10 == x * (10 * scale) + y * 10
  {
  }

  lemma {:induction false} DigitsValueAppend(a: seq<Digit>, b: seq<Digit>)
    ensures DigitsValue(a + b) == DigitsValue(a) * Pow10(|b|) + DigitsValue(b)
  {
    if b == [] {
      assert a + b == a;
    } else {
      var init := b[..|b| - 1];
      assert (a + b)[..|a + b| - 1] == a + init;
      DigitsValueAppend(a, init);
      assert DigitsValue(a + b) == DigitsValue(a + init) * 10 + b[|b| - 1];
      ShiftDigit(DigitsValue(a), Pow10(|init|), DigitsValue(init));
    }
  }

  /** Read as a number, the format of an in-range position is its place in reading order. */
  lemma FormattedValue(p: BookIndexPosition)
    requires InRange(p)
    ensures DigitsValue(Formatted(p)) == Position(p)
  {
    PaddedPageValue(p.page);
    PaddedTwoValue(p.line);
    PaddedTwoValue(p.character);
    DigitsValueAppend(PaddedPage(p.page), PaddedTwo(p.line));
    DigitsValueAppend(PaddedPage(p.page) + PaddedTwo(p.line), PaddedTwo(p.character));
    assert Pow10(2) == 100;
  }

  /** The format as written agrees with the documented one exactly when line and character are both above 9 or both at most 9. */
  lemma FormattedAsWrittenLength(p: BookIndexPosition)
    requires InRange(p)
    ensures FormattedAsWritten(p) == Formatted(p) <==> (p.line > 9 <==> p.character > 9)
    ensures |FormattedAsWritten(p)| == 7 <==> (p.line > 9 <==> p.character > 9)
  {
    PaddedPageValue(p.page);
    PaddedTwoValue(p.line);
    var tail := if p.line > 9 then DecimalDigits(p.character) else [0] + DecimalDigits(p.character);
    assert FormattedAsWritten(p) == (PaddedPage(p.page) + PaddedTwo(p.line)) + tail;
    assert Formatted(p) == (PaddedPage(p.page) + PaddedTwo(p.line)) + PaddedTwo(p.character);
    if (p.line > 9) != (p.character > 9) {
      assert |tail| != 2;
      assert |FormattedAsWritten(p)| != |Formatted(p)|;
    }
  }

  /** Line 1, character 12 formats to eight digits, line 12, character 1 to six. */
  lemma FormattedAsWrittenExample()
    ensures |FormattedAsWritten(BookIndexPosition(1, 1, 12))| == 8
    ensures |FormattedAsWritten(BookIndexPosition(1, 12, 1))| == 6
  {
  }
}
