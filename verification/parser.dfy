/**
 * The filename parser: a stem `YYYY-MM-DD-<buyer>-<amount>-<number>`
 * (taken from the whitespace-stripped filename up to its last `.`) is
 * matched against an anchored grammar, its date checked against the
 * calendar, and a fresh invoice record built from the fields.
 */
module FilenameParser {
  import opened Wrappers
  import opened Text
  import opened Calendar
  import opened Invoices

  /** The six captured groups of the grammar, as text. */
  datatype Fields = Fields(year: string, month: string, day: string,
                           buyer: string, amount: string, number: string)
  {
    /** Each group is in the language of its sub-pattern: `\d{4}`, `\d{2}`,
        `\d{2}`, `[a-z]+`, `\d+(?:_\d+)?`, `\d+`. */
    predicate WellFormed() {
      && |year| == 4 && AllDigits(year)
      && |month| == 2 && AllDigits(month)
      && |day| == 2 && AllDigits(day)
      && IsLowerWord(buyer)
      && IsAmountText(amount)
      && IsDigits(number)
    }

    function Parts(): seq<string> {
      [year, month, day, buyer, amount, number]
    }

    /** The stem the groups spell out, with `-` between consecutive groups. */
    function Render(): string {
      year + "-" + month + "-" + day + "-" + buyer + "-" + amount + "-" + number
    }
  }

  /** `\d+(?:_\d+)?`: digits, optionally followed by `_` and more digits. */
  predicate IsAmountText(a: string) {
    match IndexOf(a, '_')
    case None => IsDigits(a)
    case Some(i) => IsDigits(a[..i]) && IsDigits(a[i + 1..])
  }

  /** The amount group read as an exact decimal, `_` standing for the point. */
  function AmountOf(a: string): (d: Decimal)
    requires IsAmountText(a)
    ensures d.WellFormed()
    ensures d.fraction == "" ==> d.whole == a
    ensures d.fraction != "" ==> a == d.whole + "_" + d.fraction
  {
    match IndexOf(a, '_')
    case None => Decimal(a, "")
    case Some(i) =>
      assert a == a[..i] + "_" + a[i + 1..];
      Decimal(a[..i], a[i + 1..])
  }

  /** How a decimal is written in a filename: `whole` or `whole_fraction`. */
  function AmountText(d: Decimal): string {
    if d.fraction == "" then d.whole else d.whole + "_" + d.fraction
  }

  /** Every character of an amount group is a digit or `_`. */
  lemma AmountAlphabet(a: string)
    requires IsAmountText(a)
    ensures forall k :: 0 <= k < |a| ==> IsDigit(a[k]) || a[k] == '_'
  {
    match IndexOf(a, '_')
    case None =>
    case Some(i) =>
      forall k | 0 <= k < |a|
        ensures IsDigit(a[k]) || a[k] == '_'
      {
        if k < i {
          assert a[k] == a[..i][k];
        } else if k > i {
          assert a[k] == a[i + 1..][k - i - 1];
        }
      }
  }

  /** Writing a well-formed decimal and reading it back is the identity. */
  lemma AmountRoundTrip(d: Decimal)
    requires d.WellFormed()
    ensures IsAmountText(AmountText(d))
    ensures AmountOf(AmountText(d)) == d
  {
    var a := AmountText(d);
    if d.fraction == "" {
      assert '_' !in d.whole by {
        forall k | 0 <= k < |d.whole| ensures d.whole[k] != '_' { assert IsDigit(d.whole[k]); }
      }
    } else {
      assert forall k :: 0 <= k < |d.whole| ==> a[k] == d.whole[k];
      assert a[..|d.whole|] == d.whole;
      assert '_' !in a[..|d.whole|] by {
        forall k | 0 <= k < |d.whole| ensures d.whole[k] != '_' { assert IsDigit(d.whole[k]); }
      }
      assert a[|d.whole|] == '_';
      IndexOfUnique(a, '_', |d.whole|);
      assert a[|d.whole| + 1..] == d.fraction;
    }
  }

  /** `FILE_PATTERN.match(stem)`, anchored at both ends: the groups, or `None`. */
  function Match(stem: string): (r: Option<Fields>)
    ensures r.Some? ==> r.value.WellFormed() && r.value.Render() == stem
  {
    var parts := SplitOn(stem, '-');
    if |parts| != 6 then None
    else
      var f := Fields(parts[0], parts[1], parts[2], parts[3], parts[4], parts[5]);
      if f.WellFormed() then
        JoinSplitOn(stem, '-');
        assert parts == f.Parts();
        JoinParts(f);
        Some(f)
      else None
  }

  lemma JoinParts(f: Fields)
    ensures Join(f.Parts(), '-') == f.Render()
  {
    var p := f.Parts();
    var r5 := f.number;
    var r4 := f.amount + "-" + r5;
    var r3 := f.buyer + "-" + r4;
    var r2 := f.day + "-" + r3;
    var r1 := f.month + "-" + r2;
    assert p[5..] == [f.number];
    assert Join(p[4..], '-') == r4 by { assert p[4..][1..] == p[5..]; }
    assert Join(p[3..], '-') == r3 by { assert p[3..][1..] == p[4..]; }
    assert Join(p[2..], '-') == r2 by { assert p[2..][1..] == p[3..]; }
    assert Join(p[1..], '-') == r1 by { assert p[1..][1..] == p[2..]; }
    assert Join(p, '-') == f.year + "-" + r1;
  }

  /** No group of a well-formed match contains the separator `-`. */
  lemma WellFormedPartsDashFree(f: Fields)
    requires f.WellFormed()
    ensures forall i :: 0 <= i < |f.Parts()| ==> '-' !in f.Parts()[i]
  {
    AmountAlphabet(f.amount);
    assert '-' !in f.year by { forall k | 0 <= k < |f.year| ensures f.year[k] != '-' { assert IsDigit(f.year[k]); } }
    assert '-' !in f.month by { forall k | 0 <= k < |f.month| ensures f.month[k] != '-' { assert IsDigit(f.month[k]); } }
    assert '-' !in f.day by { forall k | 0 <= k < |f.day| ensures f.day[k] != '-' { assert IsDigit(f.day[k]); } }
    assert '-' !in f.buyer by { forall k | 0 <= k < |f.buyer| ensures f.buyer[k] != '-' { assert IsLower(f.buyer[k]); } }
    assert '-' !in f.amount by { forall k | 0 <= k < |f.amount| ensures f.amount[k] != '-' { assert IsDigit(f.amount[k]) || f.amount[k] == '_'; } }
    assert '-' !in f.number by { forall k | 0 <= k < |f.number| ensures f.number[k] != '-' { assert IsDigit(f.number[k]); } }
  }

  /** Every stem the grammar describes is matched, and with exactly its own
      groups: together with the postcondition of `Match`, the matcher accepts
      precisely the language of the pattern and parses it unambiguously. */
  lemma MatchComplete(f: Fields)
    requires f.WellFormed()
    ensures Match(f.Render()) == Some(f)
  {
    WellFormedPartsDashFree(f);
    JoinParts(f);
    SplitOnJoin(f.Parts(), '-');
  }

  /** The fixed-width prefix of a matched stem: four digits, `-`, two digits,
      `-`, two digits, `-`, then a lower-case letter. A one-digit month or day,
      a two-digit year or another date separator is rejected. */
  lemma MatchAnchoredWidths(stem: string)
    ensures Match(stem).Some? ==>
      && |stem| >= 12
      && IsDigit(stem[0]) && IsDigit(stem[1]) && IsDigit(stem[2]) && IsDigit(stem[3])
      && stem[4] == '-' && IsDigit(stem[5]) && IsDigit(stem[6])
      && stem[7] == '-' && IsDigit(stem[8]) && IsDigit(stem[9])
      && stem[10] == '-' && IsLower(stem[11])
  {
    if Match(stem).Some? {
      var f := Match(stem).value;
      assert stem == f.year + ("-" + (f.month + ("-" + (f.day + ("-" + (f.buyer + "-" + f.amount + "-" + f.number))))));
      assert IsLower(f.buyer[0]);
    }
  }

  /** A matched stem holds exactly five `-`: one between each pair of
      consecutive groups, so a missing amount or number never matches. */
  lemma MatchDashCount(stem: string)
    ensures Match(stem).Some? ==> multiset(stem)['-'] == 5
  {
    if Match(stem).Some? {
      var f := Match(stem).value;
      WellFormedPartsDashFree(f);
      var p := f.Parts();
      assert forall i :: 0 <= i < 6 ==> multiset(p[i])['-'] == 0;
      assert stem == f.year + "-" + f.month + "-" + f.day + "-" + f.buyer + "-" + f.amount + "-" + f.number;
    }
  }

  /** Five `-`-free groups joined by `-` (one group missing) never match:
      the split yields five pieces where the grammar needs six. */
  lemma MissingGroupNoMatch(p: seq<string>)
    requires |p| == 5
    requires forall i :: 0 <= i < 5 ==> '-' !in p[i]
    ensures Match(Join(p, '-')).None?
  {
    SplitOnJoin(p, '-');
  }

  /** A matched stem uses only digits, lower-case letters, `-` and `_`; in
      particular an amount written with a literal `.` never matches. */
  lemma MatchAlphabet(stem: string)
    ensures Match(stem).Some? ==> forall k :: 0 <= k < |stem| ==> StemChar(stem[k])
    ensures Match(stem).Some? ==> '.' !in stem
  {
    if Match(stem).None? {
      return;
    }
    var f := Match(stem).value;
    AmountAlphabet(f.amount);
    var p := f.Parts();
    forall i | 0 <= i < 6
      ensures forall k :: 0 <= k < |p[i]| ==> IsDigit(p[i][k]) || IsLower(p[i][k]) || p[i][k] == '_'
    {
    }
    JoinSplitOn(stem, '-');
    assert SplitOn(stem, '-') == p;
    JoinAlphabet(p);
    JoinParts(f);
  }

  /** A stem of the grammar is a plain name: non-empty, starting with a
      digit, without `.` or `/`. */
  lemma RenderedStemPlain(f: Fields)
    requires f.WellFormed()
    ensures var stem := f.Render();
      && |stem| > 0 && IsDigit(stem[0]) && !IsSpace(stem[0])
      && '.' !in stem && '/' !in stem
  {
    var stem := f.Render();
    MatchComplete(f);
    MatchAnchoredWidths(stem);
    MatchAlphabet(stem);
    assert '/' !in stem by {
      forall k | 0 <= k < |stem| ensures stem[k] != '/' { assert StemChar(stem[k]); }
    }
  }

  predicate StemChar(c: char) {
    IsDigit(c) || IsLower(c) || c == '-' || c == '_'
  }

  lemma {:induction false} JoinAlphabet(p: seq<string>)
    requires |p| >= 1
    requires forall i, k :: 0 <= i < |p| && 0 <= k < |p[i]| ==> StemChar(p[i][k])
    ensures forall k :: 0 <= k < |Join(p, '-')| ==> StemChar(Join(p, '-')[k])
  {
    if |p| > 1 {
      JoinAlphabet(p[1..]);
      var t := Join(p[1..], '-');
      var j := Join(p, '-');
      assert j == p[0] + ['-'] + t;
      forall k | 0 <= k < |j| ensures StemChar(j[k]) {
        if k < |p[0]| {
          assert j[k] == p[0][k];
        } else if k > |p[0]| {
          assert j[k] == t[k - |p[0]| - 1];
        }
      }
    }
  }

  /** The exception escaping `parse` when the tuple unpacking of
      `rsplit('.', 1)` finds no `.`. */
  datatype ParseError = NotEnoughValuesToUnpack

  /** The groups a record's fields are written as: the date zero-padded to
      widths 4, 2 and 2. */
  function FieldsOf(d: Date, buyer: string, amount: Decimal, number: string): Fields
    requires ValidDate(d)
  {
    Fields(PadDigits(d.year, 4), PadDigits(d.month, 2), PadDigits(d.day, 2),
           buyer, AmountText(amount), number)
  }

  /** A filename with the given fields and extension. */
  function FormatFilename(d: Date, buyer: string, amount: Decimal, number: string, ext: string): string
    requires ValidDate(d)
  {
    FieldsOf(d, buyer, amount, number).Render() + "." + ext
  }

  /** What a successful parse guarantees of the record it returns: the
      filename verbatim, well-formed fields, a real calendar date, and the
      defaults of a fresh record (no screenshot, no error, not valid). */
  predicate Produced(inv: Invoice, filename: string) {
    && inv.originalFilename == filename
    && inv.screenshotFilenames == [] && inv.validationErrors == []
    && !inv.IsValid()
    && ValidDate(inv.invoiceDate)
    && IsLowerWord(inv.buyer)
    && inv.amount.WellFormed()
    && IsDigits(inv.invoiceNumber)
  }

  /** Date construction and record creation from matched groups. */
  function Build(f: Fields, filename: string): (r: Option<Invoice>)
    requires f.WellFormed()
    ensures r.Some? ==> Produced(r.value, filename)
  {
    match MakeDate(NatOf(f.year), NatOf(f.month), NatOf(f.day))
    case None => None
    case Some(d) => Some(NewInvoice(d, f.number, AmountOf(f.amount), f.buyer, filename))
  }

  function ParseStem(stem: string, filename: string): (r: Option<Invoice>)
    ensures r.Some? ==> Produced(r.value, filename)
  {
    match Match(stem)
    case None => None
    case Some(f) => Build(f, filename)
  }

  /** `FilenameParser.parse`, as written: the extension after the last `.`
      is discarded unchecked, and a name without `.` raises. */
  function Parse(filename: string): (r: Result<Option<Invoice>, ParseError>)
    ensures r.Failure? <==> '.' !in Strip(filename)
    ensures r.Success? && r.value.Some? ==> Produced(r.value.value, filename)
  {
    var name := Strip(filename);
    match LastIndexOf(name, '.')
    case None => Failure(NotEnoughValuesToUnpack)
    case Some(i) => Success(ParseStem(name[..i], filename))
  }

  /** A name `stem.ext` whose extension has no `.` and which neither starts
      nor ends with whitespace is split by `parse` into exactly that stem. */
  lemma ParseOfStemAndExtension(stem: string, ext: string)
    requires |stem| > 0 && !IsSpace(stem[0])
    requires '.' !in ext && (|ext| == 0 || !IsSpace(ext[|ext| - 1]))
    ensures Parse(stem + "." + ext) == Success(ParseStem(stem, stem + "." + ext))
    ensures Extension(stem + "." + ext) == Some(ext)
  {
    var fn := stem + "." + ext;
    assert fn[0] == stem[0];
    assert fn[|fn| - 1] == if |ext| == 0 then '.' else ext[|ext| - 1];
    StripUnpadded(fn);
    assert fn[..|stem|] == stem;
    assert fn[|stem| + 1..] == ext;
    LastIndexOfUnique(fn, '.', |stem|);
  }

  /** Round trip: a filename written from a real date, a buyer, an amount and
      an invoice number parses back to exactly those values, keeping the
      filename itself, whatever the extension. */
  lemma ParseRoundTrip(d: Date, buyer: string, amount: Decimal, number: string, ext: string)
    requires ValidDate(d) && IsLowerWord(buyer) && amount.WellFormed() && IsDigits(number)
    requires '.' !in ext && (|ext| == 0 || !IsSpace(ext[|ext| - 1]))
    ensures var fn := FormatFilename(d, buyer, amount, number, ext);
      Parse(fn) == Success(Some(NewInvoice(d, number, amount, buyer, fn)))
  {
    var f := FieldsOf(d, buyer, amount, number);
    var fn := FormatFilename(d, buyer, amount, number, ext);
    BuildFieldsOf(d, buyer, amount, number, fn);
    RenderedStemPlain(f);
    MatchComplete(f);
    ParseOfStemAndExtension(f.Render(), ext);
  }

  /** The groups written from a real date, a buyer, an amount and a number
      are well formed and build the record of exactly those values. */
  lemma BuildFieldsOf(d: Date, buyer: string, amount: Decimal, number: string, filename: string)
    requires ValidDate(d) && IsLowerWord(buyer) && amount.WellFormed() && IsDigits(number)
    ensures FieldsOf(d, buyer, amount, number).WellFormed()
    ensures Build(FieldsOf(d, buyer, amount, number), filename)
      == Some(NewInvoice(d, number, amount, buyer, filename))
  {
    var f := FieldsOf(d, buyer, amount, number);
    AmountRoundTrip(amount);
    assert Pow10(4) == 10000 && Pow10(2) == 100;
    NatOfPadDigits(d.year, 4);
    NatOfPadDigits(d.month, 2);
    NatOfPadDigits(d.day, 2);
    assert MakeDate(NatOf(f.year), NatOf(f.month), NatOf(f.day)) == Some(d);
  }

  /** Soundness: whatever `Parse` accepts is, after stripping, the stem its
      record's fields spell out, a `.`, and an extension without `.`. The
      date groups are read back at their fixed widths and the amount and
      number verbatim, so no two stems give the same record. */
  lemma ParseSound(filename: string, inv: Invoice)
    requires Parse(filename) == Success(Some(inv))
    ensures var name := Strip(filename);
      var stem := FieldsOf(inv.invoiceDate, inv.buyer, inv.amount, inv.invoiceNumber).Render();
      && |stem| < |name| && name[..|stem|] == stem
      && name[|stem|] == '.' && '.' !in name[|stem| + 1..]
  {
    var name := Strip(filename);
    var i := LastIndexOf(name, '.').value;
    var f := Match(name[..i]).value;
    PadDigitsNatOf(f.year);
    PadDigitsNatOf(f.month);
    PadDigitsNatOf(f.day);
    assert FieldsOf(inv.invoiceDate, inv.buyer, inv.amount, inv.invoiceNumber) == f;
  }

  /** An impossible calendar date (month 00 or 13, a day past the month's
      end, year 0000) makes `parse` return `None`; it never raises. */
  lemma ParseRejectsImpossibleDate(f: Fields, ext: string)
    requires f.WellFormed()
    requires '.' !in ext && (|ext| == 0 || !IsSpace(ext[|ext| - 1]))
    requires !ValidDate(Date(NatOf(f.year), NatOf(f.month), NatOf(f.day)))
    ensures Parse(f.Render() + "." + ext) == Success(None)
  {
    MatchComplete(f);
    MatchAnchoredWidths(f.Render());
    ParseOfStemAndExtension(f.Render(), ext);
  }

  /** A stem outside the grammar is a non-match: `None`, not an exception. */
  lemma ParseRejectsNonMatch(filename: string)
    requires '.' in Strip(filename)
    requires Match(Strip(filename)[..LastIndexOf(Strip(filename), '.').value]).None?
    ensures Parse(filename) == Success(None)
  {
  }

  /** Only the stripped name is matched, while the record keeps the filename
      as given: surrounding whitespace changes nothing else. */
  lemma ParseIgnoresSurroundingSpace(filename: string, padded: string)
    requires Strip(padded) == Strip(filename)
    ensures Parse(padded).Failure? <==> Parse(filename).Failure?
    ensures Parse(filename) == Success(None) ==> Parse(padded) == Success(None)
    ensures Parse(filename).Success? && Parse(filename).value.Some? ==>
      Parse(padded) == Success(Some(Parse(filename).value.value.(originalFilename := padded)))
  {
  }

  /** The text after the last `.` of the stripped filename, if it has one. */
  function Extension(filename: string): (r: Option<string>)
    ensures r.None? <==> '.' !in Strip(filename)
    ensures r.Some? ==> '.' !in r.value
  {
    var name := Strip(filename);
    match LastIndexOf(name, '.')
    case None => None
    case Some(i) => Some(name[i + 1..])
  }

  /** The parser as its tests expect it: a name without `.`, or with an
      extension other than `pdf`, is a non-match instead of an exception or
      an accepted record. */
  function ParseChecked(filename: string): (r: Option<Invoice>)
    ensures r.Some? ==> Parse(filename) == Success(r)
    ensures r.Some? ==> Extension(filename) == Some("pdf")
  {
    var name := Strip(filename);
    match LastIndexOf(name, '.')
    case None => None
    case Some(i) =>
      if name[i + 1..] == "pdf" then
        assert Parse(filename) == Success(ParseStem(name[..i], filename));
        ParseStem(name[..i], filename)
      else None
  }

  /** On `.pdf` names the checked parser and the parser as written agree. */
  lemma ParseCheckedOnPdf(filename: string)
    requires Extension(filename) == Some("pdf")
    ensures Parse(filename) == Success(ParseChecked(filename))
  {
  }

  /** A `.pdf` name whose stem the grammar rejects is a non-match. */
  lemma RejectedPdfName(stem: string, name: string)
    requires name == stem + ".pdf"
    requires |stem| > 0 && !IsSpace(stem[0])
    requires Match(stem).None?
    ensures Parse(name) == Success(None)
    ensures ParseChecked(name) == None
  {
    assert name == stem + "." + "pdf";
    ParseOfStemAndExtension(stem, "pdf");
    ParseCheckedOnPdf(name);
  }

  /** A name that is a well-formed stem with no extension at all raises
      from the unpacking in `parse` instead of being a non-match; the checked
      parser returns no record for it. */
  lemma NoExtensionRaises(stem: string)
    requires Match(stem).Some?
    ensures Parse(stem) == Failure(NotEnoughValuesToUnpack)
    ensures ParseChecked(stem) == None
  {
    MatchAnchoredWidths(stem);
    MatchAlphabet(stem);
    assert StemChar(stem[0]) && StemChar(stem[|stem| - 1]);
    StripUnpadded(stem);
  }

  /** A well-formed name with any extension other than `pdf` is accepted by
      `parse` as written, while the checked parser rejects it. */
  lemma NonPdfExtensionAccepted(d: Date, buyer: string, amount: Decimal, number: string, ext: string)
    requires ValidDate(d) && IsLowerWord(buyer) && amount.WellFormed() && IsDigits(number)
    requires '.' !in ext && (|ext| == 0 || !IsSpace(ext[|ext| - 1]))
    requires ext != "pdf"
    ensures var fn := FormatFilename(d, buyer, amount, number, ext);
      && Parse(fn) == Success(Some(NewInvoice(d, number, amount, buyer, fn)))
      && ParseChecked(fn) == None
  {
    ParseRoundTrip(d, buyer, amount, number, ext);
    var f := FieldsOf(d, buyer, amount, number);
    BuildFieldsOf(d, buyer, amount, number, f.Render() + "." + ext);
    RenderedStemPlain(f);
    ParseOfStemAndExtension(f.Render(), ext);
  }

  /** Round trip of the checked parser on `.pdf` names. */
  lemma ParseCheckedRoundTrip(d: Date, buyer: string, amount: Decimal, number: string)
    requires ValidDate(d) && IsLowerWord(buyer) && amount.WellFormed() && IsDigits(number)
    ensures var fn := FormatFilename(d, buyer, amount, number, "pdf");
      ParseChecked(fn) == Some(NewInvoice(d, number, amount, buyer, fn))
  {
    var fn := FormatFilename(d, buyer, amount, number, "pdf");
    ParseRoundTrip(d, buyer, amount, number, "pdf");
    var f := FieldsOf(d, buyer, amount, number);
    BuildFieldsOf(d, buyer, amount, number, fn);
    RenderedStemPlain(f);
    ParseOfStemAndExtension(f.Render(), "pdf");
    ParseCheckedOnPdf(fn);
  }
}
