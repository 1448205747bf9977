/**
 * The filenames exercised by the parser's tests, checked against the model.
 * Each lemma takes the test's stem as a parameter fixed by its precondition.
 */
module ParserExamples {
  import opened Wrappers
  import opened Text
  import opened Calendar
  import opened Invoices
  import opened FilenameParser

  /** The groups of the test's well-formed filename. */
  lemma TestFieldsOf()
    ensures FieldsOf(Date(2023, 10, 15), "abc", Decimal("19", "9"), "12345678901234567890")
      == Fields("2023", "10", "15", "abc", "19_9", "12345678901234567890")
  {
    assert PadDigits(2023, 4) == "2023";
    assert PadDigits(10, 2) == "10";
    assert PadDigits(15, 2) == "15";
  }

  lemma TestStem()
    ensures Fields("2023", "10", "15", "abc", "19_9", "12345678901234567890").Render()
      == "2023-10-15-abc-19_9-12345678901234567890"
  {
    assert "2023" + "-" + "10" == "2023-10";
    assert "2023-10" + "-" + "15" == "2023-10-15";
    assert "2023-10-15" + "-" + "abc" == "2023-10-15-abc";
    assert "2023-10-15-abc" + "-" + "19_9" == "2023-10-15-abc-19_9";
    assert "2023-10-15-abc-19_9" + "-" + "12345678901234567890" == "2023-10-15-abc-19_9-12345678901234567890";
  }

  /** The values of the test's record meet the grammar. */
  lemma TestValues()
    ensures ValidDate(Date(2023, 10, 15)) && IsLowerWord("abc") && Decimal("19", "9").WellFormed()
    ensures IsDigits("12345678901234567890")
  {
  }

  lemma AppendDotExtension(stem: string, ext: string)
    ensures stem + "." + ext == stem + ("." + ext)
  {
  }

  /** The well-formed filename of the parser's tests parses to the expected
      record. */
  lemma ParserTestAccepts(stem: string)
    requires stem == "2023-10-15-abc-19_9-12345678901234567890"
    ensures Parse(stem + ".pdf") == Success(Some(NewInvoice(Date(2023, 10, 15), "12345678901234567890",
                                                            Decimal("19", "9"), "abc", stem + ".pdf")))
  {
    TestValues();
    var f := FieldsOf(Date(2023, 10, 15), "abc", Decimal("19", "9"), "12345678901234567890");
    TestRendered(stem);
    assert FormatFilename(Date(2023, 10, 15), "abc", Decimal("19", "9"), "12345678901234567890", "pdf")
      == stem + ".pdf" by {
      AppendDotExtension(f.Render(), "pdf");
    }
    ParseRoundTrip(Date(2023, 10, 15), "abc", Decimal("19", "9"), "12345678901234567890", "pdf");
  }

  /** A stem breaking the fixed-width prefix of the grammar never matches. */
  lemma NoMatchOffPrefix(stem: string)
    requires || |stem| < 12
             || !IsDigit(stem[0]) || !IsDigit(stem[1]) || !IsDigit(stem[2]) || !IsDigit(stem[3])
             || stem[4] != '-' || !IsDigit(stem[5]) || !IsDigit(stem[6]) || stem[7] != '-'
             || !IsDigit(stem[8]) || !IsDigit(stem[9]) || stem[10] != '-' || !IsLower(stem[11])
    ensures Match(stem).None?
  {
    MatchAnchoredWidths(stem);
  }

  /** The test filename with a one-digit month: a `-` stands where the
      second month digit must be. */
  lemma ParserTestRejectsShortMonth(stem: string)
    requires stem == "2023-1-15-abc-19_9-12345678901234567890"
    ensures !IsDigit(stem[6])
    ensures Parse(stem + ".pdf") == Success(None)
  {
    assert stem[6] == '-' && stem[0] == '2';
    NoMatchOffPrefix(stem);
    RejectedPdfName(stem, stem + ".pdf");
  }

  /** The test filename with a one-digit day: a `-` stands where the
      second day digit must be. */
  lemma ParserTestRejectsShortDay(stem: string)
    requires stem == "2023-10-1-abc-19_9-12345678901234567890"
    ensures !IsDigit(stem[9])
    ensures Parse(stem + ".pdf") == Success(None)
  {
    assert stem[9] == '-' && stem[0] == '2';
    NoMatchOffPrefix(stem);
    RejectedPdfName(stem, stem + ".pdf");
  }

  /** The test filename with a two-digit year: a `-` stands where the
      third year digit must be. */
  lemma ParserTestRejectsShortYear(stem: string)
    requires stem == "23-10-15-abc-19_9-12345678901234567890"
    ensures !IsDigit(stem[2])
    ensures Parse(stem + ".pdf") == Success(None)
  {
    assert stem[2] == '-' && stem[0] == '2';
    NoMatchOffPrefix(stem);
    RejectedPdfName(stem, stem + ".pdf");
  }

  /** The test filename separating the date with `_`: the first separator
      is not `-`. */
  lemma ParserTestRejectsDateSeparator(stem: string)
    requires stem == "2023_10_15-abc-19_9-12345678901234567890"
    ensures stem[4] != '-'
    ensures Parse(stem + ".pdf") == Success(None)
  {
    assert stem == "2023_" + stem[5..];
    assert stem[4] == '_' && stem[0] == '2';
    NoMatchOffPrefix(stem);
    RejectedPdfName(stem, stem + ".pdf");
  }

  /** The test filename without a buyer: a digit stands where the buyer's
      first letter must be. */
  lemma ParserTestRejectsMissingBuyer(stem: string)
    requires stem == "2023-10-15-19_9-12345678901234567890"
    ensures !IsLower(stem[11])
    ensures Parse(stem + ".pdf") == Success(None)
  {
    assert stem[11] == '1' && stem[0] == '2';
    NoMatchOffPrefix(stem);
    RejectedPdfName(stem, stem + ".pdf");
  }

  /** Five groups joined with `-`, written out. */
  lemma JoinFive(a: string, b: string, c: string, d: string, e: string)
    ensures Join([a, b, c, d, e], '-') == a + "-" + b + "-" + c + "-" + d + "-" + e
  {
    assert Join([e], '-') == e;
    assert [d, e][1..] == [e];
    assert Join([d, e], '-') == d + "-" + e;
    assert [c, d, e][1..] == [d, e];
    assert Join([c, d, e], '-') == c + "-" + (d + "-" + e);
    assert [b, c, d, e][1..] == [c, d, e];
    assert Join([b, c, d, e], '-') == b + "-" + (c + "-" + (d + "-" + e));
    assert [a, b, c, d, e][1..] == [b, c, d, e];
    assert a + "-" + (b + "-" + (c + "-" + (d + "-" + e))) == a + "-" + b + "-" + c + "-" + d + "-" + e;
  }

  /** A `.pdf` name whose stem is five `-`-free groups, the first starting
      with a digit, is a non-match. */
  lemma RejectedFiveGroups(a: string, b: string, c: string, d: string, e: string, stem: string)
    requires '-' !in a && '-' !in b && '-' !in c && '-' !in d && '-' !in e
    requires stem == a + "-" + b + "-" + c + "-" + d + "-" + e
    requires |a| > 0 && IsDigit(a[0])
    ensures Parse(stem + ".pdf") == Success(None)
  {
    JoinFive(a, b, c, d, e);
    var p := [a, b, c, d, e];
    assert forall i :: 0 <= i < 5 ==> '-' !in p[i];
    MissingGroupNoMatch(p);
    assert stem[0] == a[0];
    RejectedPdfName(stem, stem + ".pdf");
  }

  lemma TestGroupsWithoutAmount(stem: string)
    requires stem == "2023-10-15-abc-12345678901234567890"
    ensures "2023" + "-" + "10" + "-" + "15" + "-" + "abc" + "-" + "12345678901234567890" == stem
  {
    assert "2023" + "-" + "10" == "2023-10";
    assert "2023-10" + "-" + "15" == "2023-10-15";
    assert "2023-10-15" + "-" + "abc" == "2023-10-15-abc";
    assert "2023-10-15-abc" + "-" + "12345678901234567890" == stem;
  }

  /** The test filename without an amount. */
  lemma ParserTestRejectsMissingAmount(stem: string)
    requires stem == "2023-10-15-abc-12345678901234567890"
    ensures Parse(stem + ".pdf") == Success(None)
  {
    TestGroupsWithoutAmount(stem);
    RejectedFiveGroups("2023", "10", "15", "abc", "12345678901234567890", stem);
  }

  lemma TestGroupsWithoutNumber(stem: string)
    requires stem == "2023-10-15-abc-19_9"
    ensures "2023" + "-" + "10" + "-" + "15" + "-" + "abc" + "-" + "19_9" == stem
  {
    assert "2023" + "-" + "10" == "2023-10";
    assert "2023-10" + "-" + "15" == "2023-10-15";
    assert "2023-10-15" + "-" + "abc" == "2023-10-15-abc";
    assert "2023-10-15-abc" + "-" + "19_9" == stem;
  }

  /** The test filename without an invoice number. */
  lemma ParserTestRejectsMissingNumber(stem: string)
    requires stem == "2023-10-15-abc-19_9"
    ensures Parse(stem + ".pdf") == Success(None)
  {
    TestGroupsWithoutNumber(stem);
    RejectedFiveGroups("2023", "10", "15", "abc", "19_9", stem);
  }

  /** The test filename writing its amount with a literal `.`. */
  lemma ParserTestRejectsDotAmount(stem: string)
    requires stem == "2023-10-15-abc-19.9-12345678901234567890"
    ensures Parse(stem + ".pdf") == Success(None)
  {
    assert stem[17] == '.' && stem[0] == '2';
    MatchAlphabet(stem);
    assert Match(stem).None?;
    RejectedPdfName(stem, stem + ".pdf");
  }

  /** The test filename that matches nothing: its first character is a
      letter where the year must start. */
  lemma ParserTestRejectsRandom(stem: string)
    requires stem == "just_a_random_string"
    ensures !IsDigit(stem[0])
    ensures Parse(stem + ".pdf") == Success(None)
  {
    assert stem == "j" + stem[1..];
    assert stem[0] == 'j';
    NoMatchOffPrefix(stem);
    RejectedPdfName(stem, stem + ".pdf");
  }

  /** The test's well-formed stem is the rendering of the test's record. */
  lemma TestRendered(stem: string)
    requires stem == "2023-10-15-abc-19_9-12345678901234567890"
    ensures FieldsOf(Date(2023, 10, 15), "abc", Decimal("19", "9"), "12345678901234567890").Render() == stem
  {
    TestFieldsOf();
    TestStem();
  }

  /** The test filename with extension `txt`: `parse` as written accepts
      it, although the test expects `None`; the checked parser rejects it. */
  lemma ParserTestTxtExtension(stem: string, ext: string)
    requires stem == "2023-10-15-abc-19_9-12345678901234567890"
    requires ext == "txt"
    ensures Parse(stem + "." + ext) == Success(Some(NewInvoice(Date(2023, 10, 15), "12345678901234567890",
                                                               Decimal("19", "9"), "abc", stem + "." + ext)))
    ensures ParseChecked(stem + "." + ext) == None
  {
    TestValues();
    TestRendered(stem);
    assert '.' !in ext && !IsSpace(ext[|ext| - 1]);
    NonPdfExtensionAccepted(Date(2023, 10, 15), "abc", Decimal("19", "9"), "12345678901234567890", ext);
  }

  /** The test filename without an extension: `parse` as written raises,
      although the test expects `None`; the checked parser rejects it. */
  lemma ParserTestNoExtension(stem: string)
    requires stem == "2023-10-15-abc-19_9-12345678901234567890"
    ensures Parse(stem) == Failure(NotEnoughValuesToUnpack)
    ensures ParseChecked(stem) == None
  {
    TestValues();
    TestRendered(stem);
    var f := FieldsOf(Date(2023, 10, 15), "abc", Decimal("19", "9"), "12345678901234567890");
    BuildFieldsOf(Date(2023, 10, 15), "abc", Decimal("19", "9"), "12345678901234567890", stem);
    MatchComplete(f);
    NoExtensionRaises(stem);
  }
}
