/**
 * The processing loop of the command: every name of the directory listing
 * whose last `.`-separated piece is `pdf` is parsed, and each record the
 * parser returns is validated against the directory and collected in
 * listing order.
 */
module Pipeline {
  import opened Wrappers
  import opened Text
  import opened Invoices
  import opened FilenameParser
  import opened Validator

  /** The guard `filename.split('.')[-1] == 'pdf'`. */
  predicate IsPdf(filename: string) {
    var parts := SplitOn(filename, '.');
    parts[|parts| - 1] == "pdf"
  }

  /** Without a `.` the guard compares the whole name. */
  lemma IsPdfWithoutDot(filename: string)
    requires '.' !in filename
    ensures IsPdf(filename) <==> filename == "pdf"
  {
    SplitOnWithoutSeparator(filename, '.');
  }

  /** With a `.` the guard compares the text after the last one. */
  lemma IsPdfWithDot(filename: string)
    requires '.' in filename
    ensures IsPdf(filename) <==> |filename| >= 4 && filename[|filename| - 4] == '.' && filename[|filename| - 3..] == "pdf"
  {
    var f := filename;
    var i := LastIndexOf(f, '.').value;
    assert f == f[..i] + ['.'] + f[i + 1..];
    SplitOnLastPiece(f[..i], f[i + 1..], '.');
    if f[i + 1..] == "pdf" {
      assert |f| - 4 == i;
      assert f[|f| - 3..] == f[i + 1..];
    }
    if |f| >= 4 && f[|f| - 4] == '.' && f[|f| - 3..] == "pdf" {
      assert '.' !in "pdf";
      LastIndexOfUnique(f, '.', |f| - 4);
    }
  }

  /** For a name `stem.ext` the guard looks at `ext` alone. */
  lemma IsPdfOfExtension(stem: string, ext: string)
    requires '.' !in ext
    ensures IsPdf(stem + "." + ext) <==> ext == "pdf"
  {
    assert stem + "." + ext == stem + ['.'] + ext;
    SplitOnLastPiece(stem, ext, '.');
  }

  /** The guard admits exactly the names ending in `.pdf`, and the bare
      name `pdf`. */
  lemma IsPdfIff(filename: string)
    ensures IsPdf(filename) <==> filename == "pdf" || (|filename| >= 4 && filename[|filename| - 4..] == ".pdf")
  {
    var f := filename;
    if '.' !in f {
      IsPdfWithoutDot(f);
      if |f| >= 4 {
        assert f[|f| - 4..][0] == f[|f| - 4];
      }
    } else {
      IsPdfWithDot(f);
      assert f != "pdf" by { assert '.' !in "pdf"; }
      if |f| >= 4 {
        assert f[|f| - 4..] == [f[|f| - 4]] + f[|f| - 3..];
      }
    }
  }

  /** A name ending in `.pdf` has the extension `pdf` in the parser's
      sense: surrounding whitespace cannot reach past the `.pdf`. */
  lemma PdfSuffixExtension(filename: string)
    requires |filename| >= 4 && filename[|filename| - 4..] == ".pdf"
    ensures Extension(filename) == Some("pdf")
  {
    var f := filename;
    assert f[|f| - 4] == '.' && f[|f| - 1] == 'f';
    StripKeepsNonSpace(f, |f| - 4);
    StripKeepsNonSpace(f, |f| - 1);
    var lo := LeadingSpaceCount(f);
    var name := Strip(f);
    assert lo + |name| == |f|;
    assert name[|name| - 4] == '.';
    assert name[|name| - 3..] == "pdf";
    LastIndexOfUnique(name, '.', |name| - 4);
  }

  /** One name of the listing, as the loop body is written: the guard, then
      `parse`, whose exception escapes, then validation. */
  function IngestAsWritten(filename: string, dir: set<string>): (r: Result<Option<Invoice>, ParseError>)
    ensures r.Success? && r.value.Some? ==> IsPdf(filename) && r.value.value.originalFilename == filename
  {
    if !IsPdf(filename) then Success(None)
    else match Parse(filename)
      case Failure(e) => Failure(e)
      case Success(None) => Success(None)
      case Success(Some(inv)) => Success(Some(Validate(inv, dir)))
  }

  /** The guard lets the bare name `pdf` through, and it is the only name
      on which the loop body raises. */
  lemma BarePdfRaises(filename: string, dir: set<string>)
    ensures IngestAsWritten(filename, dir).Failure? <==> filename == "pdf"
  {
    IsPdfIff(filename);
    if filename == "pdf" {
      assert !IsSpace('p') && !IsSpace('f');
      StripUnpadded(filename);
      SplitOnWithoutSeparator(filename, '.');
    } else if IsPdf(filename) {
      PdfSuffixExtension(filename);
      ParseCheckedOnPdf(filename);
    }
  }

  /** One name of the listing with the parser checking the extension: no
      exception, and every record returned is a validated record of a
      `.pdf` name whose validity and errors agree. */
  function Ingest(filename: string, dir: set<string>): (r: Option<Invoice>)
    ensures r.Some? ==> IsPdf(filename) && r.value.originalFilename == filename
    ensures r.Some? ==> (r.value.IsValid() <==> HasScreenshot(filename, dir))
    ensures r.Some? ==> (r.value.IsValid() <==> r.value.validationErrors == [])
    ensures r.Some? ==> (!r.value.IsValid() <==> r.value.validationErrors == [MissingScreenshot])
  {
    if !IsPdf(filename) then None
    else match ParseChecked(filename)
      case None => None
      case Some(inv) =>
        ValidateFresh(inv, dir);
        Some(Validate(inv, dir))
  }

  /** Apart from the bare name `pdf`, the corrected step and the step as
      written give the same outcome. */
  lemma IngestAgrees(filename: string, dir: set<string>)
    requires filename != "pdf"
    ensures IngestAsWritten(filename, dir) == Success(Ingest(filename, dir))
  {
    IsPdfIff(filename);
    if IsPdf(filename) {
      PdfSuffixExtension(filename);
      ParseCheckedOnPdf(filename);
    }
  }

  /** The name written from a record's fields with the extension `pdf`
      passes the guard and is read back by the checked parser. */
  lemma FormattedPdfIngested(d: Calendar.Date, buyer: string, amount: Decimal, number: string,
                             fn: string, dir: set<string>)
    requires Calendar.ValidDate(d) && IsLowerWord(buyer) && amount.WellFormed() && IsDigits(number)
    requires fn == FormatFilename(d, buyer, amount, number, "pdf")
    ensures Ingest(fn, dir) == Some(Validate(NewInvoice(d, number, amount, buyer, fn), dir))
  {
    ParseCheckedRoundTrip(d, buyer, amount, number);
    IsPdfOfExtension(FieldsOf(d, buyer, amount, number).Render(), "pdf");
  }

  /** A correctly named invoice `fn` with stem `stem`, whose `.png`
      screenshot lies in the directory and no `.jpg`, comes out valid with
      that screenshot. */
  lemma IngestEndToEnd(d: Calendar.Date, buyer: string, amount: Decimal, number: string,
                       stem: string, fn: string, dir: set<string>)
    requires Calendar.ValidDate(d) && IsLowerWord(buyer) && amount.WellFormed() && IsDigits(number)
    requires stem == FieldsOf(d, buyer, amount, number).Render()
    requires fn == stem + ".pdf"
    requires stem + ".png" in dir && stem + ".jpg" !in dir
    ensures Ingest(fn, dir) == Some(NewInvoice(d, number, amount, buyer, fn).(screenshotFilenames := [stem + ".png"]))
  {
    var inv := NewInvoice(d, number, amount, buyer, fn);
    AmountRoundTrip(amount);
    RenderedStemPlain(FieldsOf(d, buyer, amount, number));
    assert fn == FormatFilename(d, buyer, amount, number, "pdf");
    FormattedPdfIngested(d, buyer, amount, number, fn, dir);
    ValidatorFindsPng(inv, stem, dir);
  }

  /** The loop of `process_invoices` as written: records collected in
      listing order, the first exception ending the run. */
  function ProcessAsWritten(listing: seq<string>, dir: set<string>): (r: Result<seq<Invoice>, ParseError>)
    ensures r.Failure? <==> "pdf" in listing
  {
    if |listing| == 0 then Success([])
    else
      var last := listing[|listing| - 1];
      BarePdfRaises(last, dir);
      assert listing == listing[..|listing| - 1] + [last];
      match ProcessAsWritten(listing[..|listing| - 1], dir)
      case Failure(e) => Failure(e)
      case Success(done) =>
        match IngestAsWritten(last, dir)
        case Failure(e) => Failure(e)
        case Success(None) => Success(done)
        case Success(Some(inv)) => Success(done + [inv])
  }

  /** The records among a sequence of per-name outcomes, in order. */
  function Collect(outcomes: seq<Option<Invoice>>): (r: seq<Invoice>)
    ensures |r| <= |outcomes|
  {
    if |outcomes| == 0 then []
    else
      var done := Collect(outcomes[..|outcomes| - 1]);
      match outcomes[|outcomes| - 1]
      case None => done
      case Some(inv) => done + [inv]
  }

  /** Collecting keeps order: one outcome contributes its record, if any. */
  lemma CollectOne(o: Option<Invoice>)
    ensures Collect([o]) == if o.Some? then [o.value] else []
  {
  }

  /** Collecting keeps order: the records of a concatenation are those of
      the first part followed by those of the second. */
  lemma {:induction false} CollectAppend(a: seq<Option<Invoice>>, b: seq<Option<Invoice>>)
    ensures Collect(a + b) == Collect(a) + Collect(b)
  {
    if |b| == 0 {
      assert a + b == a;
    } else {
      var b' := b[..|b| - 1];
      assert (a + b)[..|a + b| - 1] == a + b';
      assert (a + b)[|a + b| - 1] == b[|b| - 1];
      CollectAppend(a, b');
    }
  }

  /** Everything collected was some outcome. */
  lemma {:induction false} CollectSound(outcomes: seq<Option<Invoice>>)
    ensures forall i :: 0 <= i < |Collect(outcomes)| ==> Some(Collect(outcomes)[i]) in outcomes
  {
    if |outcomes| > 0 {
      var init := outcomes[..|outcomes| - 1];
      CollectSound(init);
      assert forall x :: x in init ==> x in outcomes;
    }
  }

  /** Every outcome holding a record is collected. */
  lemma {:induction false} CollectComplete(outcomes: seq<Option<Invoice>>)
    ensures forall j :: 0 <= j < |outcomes| && outcomes[j].Some? ==> outcomes[j].value in Collect(outcomes)
  {
    if |outcomes| > 0 {
      var init := outcomes[..|outcomes| - 1];
      CollectComplete(init);
      forall j | 0 <= j < |outcomes| && outcomes[j].Some?
        ensures outcomes[j].value in Collect(outcomes)
      {
        if j < |init| {
          assert outcomes[j] == init[j];
        }
      }
    }
  }

  /** The outcome of the corrected step for each listed name. */
  function Outcomes(listing: seq<string>, dir: set<string>): (o: seq<Option<Invoice>>)
    ensures |o| == |listing|
    ensures forall j :: 0 <= j < |listing| ==> o[j] == Ingest(listing[j], dir)
  {
    seq(|listing|, j requires 0 <= j < |listing| => Ingest(listing[j], dir))
  }

  /** The loop with the corrected step: the records `Ingest` returns, in
      listing order. */
  function Process(listing: seq<string>, dir: set<string>): (r: seq<Invoice>)
    ensures |r| <= |listing|
  {
    Collect(Outcomes(listing, dir))
  }

  /** Every collected record is what `Ingest` made of some listed name. */
  lemma ProcessSound(listing: seq<string>, dir: set<string>)
    ensures forall i :: 0 <= i < |Process(listing, dir)| ==>
      exists j :: 0 <= j < |listing| && Ingest(listing[j], dir) == Some(Process(listing, dir)[i])
  {
    var o := Outcomes(listing, dir);
    var r := Process(listing, dir);
    CollectSound(o);
    forall i | 0 <= i < |r|
      ensures exists j :: 0 <= j < |listing| && Ingest(listing[j], dir) == Some(r[i])
    {
      assert Some(r[i]) in o;
      var j :| 0 <= j < |o| && o[j] == Some(r[i]);
      assert Ingest(listing[j], dir) == Some(r[i]);
    }
  }

  /** Every record `Ingest` makes of a listed name is collected. */
  lemma ProcessComplete(listing: seq<string>, dir: set<string>)
    ensures forall j :: 0 <= j < |listing| && Ingest(listing[j], dir).Some? ==>
      Ingest(listing[j], dir).value in Process(listing, dir)
  {
    CollectComplete(Outcomes(listing, dir));
  }

  /** The records of a listing split in two are those of the first part
      followed by those of the second: the loop keeps listing order. */
  lemma ProcessAppend(a: seq<string>, b: seq<string>, dir: set<string>)
    ensures Process(a + b, dir) == Process(a, dir) + Process(b, dir)
  {
    assert Outcomes(a + b, dir) == Outcomes(a, dir) + Outcomes(b, dir);
    CollectAppend(Outcomes(a, dir), Outcomes(b, dir));
  }

  /** A single listed name yields its record, if it has one. */
  lemma ProcessOne(name: string, dir: set<string>)
    ensures Process([name], dir) == if Ingest(name, dir).Some? then [Ingest(name, dir).value] else []
  {
    assert Outcomes([name], dir) == [Ingest(name, dir)];
    CollectOne(Ingest(name, dir));
  }

  /** Without a file named `pdf` in the listing, the loop as written
      collects exactly what the corrected loop collects. */
  lemma {:induction false} ProcessAgrees(listing: seq<string>, dir: set<string>)
    requires "pdf" !in listing
    ensures ProcessAsWritten(listing, dir) == Success(Process(listing, dir))
  {
    if |listing| > 0 {
      var init := listing[..|listing| - 1];
      var last := listing[|listing| - 1];
      assert listing == init + [last];
      ProcessAgrees(init, dir);
      IngestAgrees(last, dir);
      assert Outcomes(listing, dir) == Outcomes(init, dir) + [Ingest(last, dir)];
      CollectAppend(Outcomes(init, dir), [Ingest(last, dir)]);
      CollectOne(Ingest(last, dir));
    }
  }
}
