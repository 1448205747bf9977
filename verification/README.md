# invoice-processor, modelled in Dafny

The invoice processor reads a directory of scanned invoices. Each invoice is
named `YYYY-MM-DD-<buyer>-<amount>-<invoice_number>.pdf`, for example
`2023-10-15-abc-19_9-12345678901234567890.pdf`, where `_` stands for the
decimal point of the amount. For each such name the processor does three
things:

- parses the name into an invoice record (`FilenameParser.parse`);
- looks in the same directory for a purchase screenshot named like the
  invoice but ending in `.jpg`, `.png` or `.jpeg` (`Validator.validate`);
- collects the records in listing order.

This project models those steps and the record they share, and proves what
they guarantee:

- `wrappers.dfy`: `Option` and `Result`.
- `text.dfy`: the string operations the code relies on.
  - `str.strip` over Python's whitespace set.
  - `rsplit('.', 1)` through the last index of a character.
  - `split('.')` and its inverse `join`.
  - Reading and writing fixed-width decimal digit groups.
- `calendar.dfy`: the `datetime.date` constructor's validity rule. It
  accepts years 1 through 9999, months 1 through 12, and days up to the
  month's length under the Gregorian leap-year rule.
- `invoice.dfy`: the `Invoice` record.
  - Validity is derived: a record is valid when it has at least one
    screenshot.
  - The amount is an exact decimal: integer digits and fraction digits.
- `parser.dfy`: the filename grammar `FILE_PATTERN` and `parse` as written.
  It also holds a checked variant that enforces the `.pdf` extension the
  tests expect.
- `parser_examples.dfy`: the filenames of the parser's tests.
- `validator.dfy`: POSIX `os.path.splitext`, the ordered screenshot search
  and `validate`. The directory is the set of names it contains.
- `pipeline.dfy`: the loop of `process_invoices`. It covers the `.pdf`
  guard, parse, validate and collect, both as written and with the checked
  parser.

The record type is one place where the source's files disagree, and the
model reconciles them:

- `invoice.py` has a list `screenshot_filenames` and a read-only, derived
  `is_valid`.
- `parser.py` and `validator.py` use an older shape: a single
  `screenshot_filename`, a writable `is_valid`, and a `validation_errors`
  list.

The model's record holds the list of screenshots and the list of errors,
and derives validity from the list. The validator's "no errors means valid"
rule (`validator.py:25-28`) becomes a proved agreement,
`Validator.ValidateFresh`, and not a stored flag.

Two consequences of the code are worth stating plainly:

- Month and day are exactly two digits (`\d{2}`, `parser.py:13-14`).
- Only the first existing screenshot is associated (`validator.py:44-50`).

## Model

| member | source | states |
|---|---|---|
| Text.SplitOn | src/invoice_processor/main.py:25 | `split('.')` yields at least one piece and no piece contains the separator; `Text.JoinSplitOn` and `Text.SplitOnJoin` make it the inverse of `join` |
| Text.NatOf | src/invoice_processor/parser.py:37-39 | `int()` of a digit string is below ten to its length; `Text.PadDigitsNatOf` and `Text.NatOfPadDigits` make it the inverse of zero-padding |
| Text.Strip | src/invoice_processor/parser.py:31 | `strip()` returns a contiguous slice whose ends are not whitespace and outside of which everything is whitespace; an all-whitespace name strips to empty |
| Text.StripUnpadded | src/invoice_processor/parser.py:31 | a name that neither starts nor ends with whitespace is unchanged by `strip()` |
| Text.LastIndexOf | src/invoice_processor/parser.py:31 | the position `rsplit('.', 1)` splits at: an occurrence of the character with none after it, absent exactly when the character is absent |
| Text.LastIndexOfUnique | src/invoice_processor/parser.py:31 | any occurrence with none after it is the one `LastIndexOf` finds |
| Text.JoinSplitOn | src/invoice_processor/main.py:25 | `split('.')` loses nothing: joining the pieces with `.` gives the name back |
| Text.SplitOnJoin | src/invoice_processor/main.py:25 | splitting a `.`-join of `.`-free pieces gives exactly those pieces |
| Text.SplitOnLastPiece | src/invoice_processor/main.py:25 | the last piece of `split('.')` is the text after the last `.` |
| Text.NatOfPadDigits | src/invoice_processor/parser.py:37-39 | `int()` of a zero-padded digit group gives back the number that was padded |
| Text.PadDigitsNatOf | src/invoice_processor/parser.py:37-39 | re-padding `int()` of a digit group to its width gives the group back, so the fixed-width date groups are read without loss |
| Calendar.MakeDate | src/invoice_processor/parser.py:40 | `date(y, m, d)` succeeds exactly for years 1..9999, months 1..12 and days within the month, and then carries those three numbers |
| Calendar.LeapDay | src/invoice_processor/parser.py:40 | 29 February exists exactly in leap years |
| Calendar.MonthsFillYear | src/invoice_processor/parser.py:40 | the month lengths add up to 366 days in leap years and 365 otherwise |
| Calendar.CalendarExamples | src/invoice_processor/parser.py:40 | the test date 2023-10-15 is accepted; 29 February in 2023 and 1900, month 0 or 13, day 0 and 31 April are rejected |
| Invoices.Decimal.Value | src/invoice_processor/parser.py:41 | the amount's value lies between the number its integer digits spell and one more: the fraction digits add less than one |
| Invoices.ValueFloor | src/invoice_processor/parser.py:37-41 | the same bound in terms of `int()` of the integer digits: they are the amount's floor |
| Invoices.ValueShiftsPoint | src/invoice_processor/parser.py:41 | `replace('_', '.')` puts the point before the fraction digits: the amount followed by as many zero digits as there are fraction digits is the number the digits spell without the point |
| Invoices.ValueTimesPow10 | src/invoice_processor/parser.py:41 | the same as a product: the amount times ten to the number of fraction digits is the number the digits spell without the point |
| Invoices.ValueShiftsPointInt | src/invoice_processor/parser.py:37-41 | the same in integers: the amount with its point moved past its fraction digits is what `int()` reads from the digits with the point removed |
| Invoices.FractionShifts | src/invoice_processor/parser.py:41 | the digits after the point, moved past the point, are the number they spell |
| Invoices.RealOfNatOf | src/invoice_processor/parser.py:37-41 | reading digits in the reals gives the same number as `int()` |
| Invoices.Pow10RealOf | src/invoice_processor/parser.py:41 | ten to the `k` in the reals is the integer power |
| Invoices.RealOfAppend | src/invoice_processor/parser.py:41 | the number a concatenation of digit strings spells is the first part's followed by as many zero digits as the second has, plus the second's |
| Invoices.DecimalExamples | test/test_parser.py:20 | `19_9` denotes 19.9, and `50` and `50_0` both denote 50 |
| Invoices.NewInvoice | src/invoice_processor/invoice.py:5-15 | a record built from its five data fields has no screenshot and no error, and so is not valid |
| Invoices.AppendScreenshot | src/invoice_processor/invoice.py:15-33 | appending any name to the screenshot list makes the record valid, raises the screenshot count by exactly one, and puts that name last |
| Invoices.Invoice.IsValid | src/invoice_processor/invoice.py:17-24 | `is_valid`: at least one associated screenshot, `|screenshotFilenames| > 0`; `Invoices.ValidIffScreenshotNumsPositive` and `Invoices.AppendScreenshot` relate it to the count and to appending |
| Invoices.Invoice.ScreenshotNums | src/invoice_processor/invoice.py:26-33 | `screenshot_nums`: the number of associated screenshots, `|screenshotFilenames|`; `Invoices.AppendScreenshot` shows each append raises it by one |
| Invoices.ValidIffScreenshotNumsPositive | src/invoice_processor/invoice.py:17-33 | the two derived properties agree: valid exactly when the screenshot count is positive |
| FilenameParser.Fields.WellFormed | src/invoice_processor/parser.py:12-17 | each group lies in its sub-pattern: `\d{4}`, `\d{2}`, `\d{2}`, `[a-z]+`, `\d+(?:_\d+)?`, `\d+`; `FilenameParser.Match` and `FilenameParser.MatchComplete` tie it to the whole pattern |
| FilenameParser.IsAmountText | src/invoice_processor/parser.py:16 | the amount sub-pattern: digits, optionally `_` and more digits; `FilenameParser.AmountOf` and `FilenameParser.AmountRoundTrip` read and write it |
| FilenameParser.AmountOf | src/invoice_processor/parser.py:16 | an amount group is an integer digit run, optionally followed by `_` and a fraction digit run, and splits uniquely into the two |
| FilenameParser.AmountRoundTrip | src/invoice_processor/parser.py:16 | writing any well-formed amount as `whole` or `whole_fraction` yields text the amount group accepts and that reads back as that amount |
| FilenameParser.Match | src/invoice_processor/parser.py:11-18 | a match yields six well-formed groups that, joined by `-`, are the entire stem (both anchors hold) |
| FilenameParser.MatchComplete | src/invoice_processor/parser.py:11-18 | every six well-formed groups joined by `-` match, and give back those groups |
| FilenameParser.MatchAnchoredWidths | src/invoice_processor/parser.py:12-15 | a matched stem starts with four digits, `-`, two digits, `-`, two digits, `-`, a lowercase letter |
| FilenameParser.MatchDashCount | src/invoice_processor/parser.py:11-18 | a matched stem has exactly five `-`, so a stem lacking the amount or the number never matches |
| FilenameParser.MatchAlphabet | src/invoice_processor/parser.py:11-18 | a matched stem contains only ASCII digits, lowercase letters, `-` and `_`, and in particular no `.` |
| FilenameParser.JoinParts | src/invoice_processor/parser.py:11-18 | the six groups joined by `-` are the stem the pattern spells out |
| FilenameParser.MissingGroupNoMatch | src/invoice_processor/parser.py:11-18 | five `-`-free groups joined by `-` never match, so a stem lacking any one group is rejected |
| FilenameParser.RenderedStemPlain | src/invoice_processor/parser.py:31 | a well-formed stem starts with a digit and holds no `.` or `/`, so `strip` and `rsplit('.', 1)` leave it intact |
| FilenameParser.BuildFieldsOf | src/invoice_processor/parser.py:36-54 | the groups written from a real date, buyer, amount and number are well formed and are built back into exactly the fresh record of those values |
| FilenameParser.Build | src/invoice_processor/parser.py:36-54 | a record is built only from a real calendar date and carries well-formed buyer, amount and number, the filename verbatim, and no screenshot or error |
| FilenameParser.ParseStem | src/invoice_processor/parser.py:32-54 | the part of `parse` after the split: any record it returns keeps the filename, has a real calendar date and well-formed fields, and starts with no screenshot, no error and not valid; `FilenameParser.ParseRejectsNonMatch` and `FilenameParser.ParseRejectsImpossibleDate` give its `None` cases |
| FilenameParser.Parse | src/invoice_processor/parser.py:20-54 | `parse` raises exactly when the stripped name has no `.`; any record it returns has a real date, well-formed fields, the filename as given and the defaults of a fresh record |
| FilenameParser.ParseOfStemAndExtension | src/invoice_processor/parser.py:31 | `stem.ext` with a `.`-free extension and no surrounding whitespace is split into exactly that stem and that extension |
| FilenameParser.ParseRoundTrip | src/invoice_processor/parser.py:20-54 | a filename written from any real date, buyer, amount and number parses back to exactly those values and that filename, whatever the extension |
| FilenameParser.ParseSound | src/invoice_processor/parser.py:31-43 | an accepted name is, after stripping, the stem its record's fields spell out at their fixed widths, a `.`, and a `.`-free extension |
| FilenameParser.ParseRejectsImpossibleDate | src/invoice_processor/parser.py:36-40 | a name that matches but whose date does not exist gives `None`, not an exception |
| FilenameParser.ParseRejectsNonMatch | src/invoice_processor/parser.py:32-34 | a stem outside the grammar gives `None` |
| FilenameParser.ParseIgnoresSurroundingSpace | src/invoice_processor/parser.py:31 | names equal after stripping parse alike, except that each record keeps its own unstripped filename |
| FilenameParser.Extension | src/invoice_processor/parser.py:31 | the half of `rsplit('.', 1)` that `parse` discards: absent exactly when the stripped name has no `.`, and never containing `.` |
| FilenameParser.ParseChecked | src/invoice_processor/parser.py:20-54 | the checked parser never raises; a record it returns is the one `parse` returns, for a name whose extension is `pdf` |
| FilenameParser.ParseCheckedOnPdf | src/invoice_processor/parser.py:31 | on names whose extension is `pdf` the checked parser and `parse` agree |
| FilenameParser.ParseCheckedRoundTrip | src/invoice_processor/parser.py:20-54 | every well-formed `.pdf` name is accepted by the checked parser with exactly its values |
| FilenameParser.RejectedPdfName | src/invoice_processor/parser.py:32-34 | a `.pdf` name whose stem is outside the grammar is rejected by both parsers, without an exception |
| FilenameParser.NoExtensionRaises | src/invoice_processor/parser.py:31 | a well-formed stem with no extension makes `parse` raise, while the checked parser returns `None` |
| FilenameParser.NonPdfExtensionAccepted | src/invoice_processor/parser.py:31 | a well-formed name with an extension other than `pdf` is accepted by `parse` and rejected by the checked parser |
| ParserExamples.ParserTestAccepts | test/test_parser.py:12-25 | the test's well-formed name gives the record dated 2023-10-15, buyer `abc`, amount 19.9, the 20-digit number and the name itself |
| ParserExamples.NoMatchOffPrefix | src/invoice_processor/parser.py:12-15 | any stem breaking the fixed-width date prefix or lacking a buyer letter after it never matches |
| ParserExamples.ParserTestRejectsShortMonth | test/test_parser.py:30 | the test name with a one-digit month gives `None` |
| ParserExamples.ParserTestRejectsShortDay | test/test_parser.py:31 | the test name with a one-digit day gives `None` |
| ParserExamples.ParserTestRejectsShortYear | test/test_parser.py:32 | the test name with a two-digit year gives `None` |
| ParserExamples.ParserTestRejectsMissingBuyer | test/test_parser.py:34 | the test name without a buyer gives `None` |
| ParserExamples.ParserTestRejectsDateSeparator | test/test_parser.py:33 | the test name separating the date with `_` gives `None` |
| ParserExamples.RejectedFiveGroups | src/invoice_processor/parser.py:11-18 | a `.pdf` name whose stem is five `-`-free groups, the first starting with a digit, gives `None` from `parse` |
| ParserExamples.ParserTestRejectsMissingAmount | test/test_parser.py:35 | the test name without an amount gives `None` |
| ParserExamples.ParserTestRejectsMissingNumber | test/test_parser.py:36 | the test name without an invoice number gives `None` |
| ParserExamples.ParserTestTxtExtension | test/test_parser.py:38 | the test name with extension `txt` is accepted by `parse` as written, against the test's expectation, and rejected by the checked parser |
| ParserExamples.ParserTestRejectsRandom | test/test_parser.py:39 | `just_a_random_string.pdf` gives `None` |
| ParserExamples.ParserTestNoExtension | test/test_parser.py:40 | the test name without an extension makes `parse` as written raise, against the test's expectation, and the checked parser return `None` |
| ParserExamples.ParserTestRejectsDotAmount | test/test_parser.py:37 | the test name writing the amount with `.` gives `None` |
| Validator.SplitExtRoot | src/invoice_processor/validator.py:41 | `splitext` keeps a prefix of the path; anything cut off starts at a `.` and holds no further `.` or `/`; a path without `.` is kept whole; `Validator.SplitExtRootCutsAtLastDot` and `Validator.SplitExtRootCutNeedsNonDot` together say exactly when it cuts |
| Validator.SplitExtRootCutsAtLastDot | src/invoice_processor/validator.py:41 | when the last `.` lies in the last path component with a non-dot before it there, `splitext` cuts exactly at that `.` |
| Validator.SplitExtRootCutNeedsNonDot | src/invoice_processor/validator.py:41 | the converse: whenever `splitext` cuts, something other than a dot precedes the cut in the last path component, so leading dots (`.bashrc`) stay in the root |
| Validator.SplitExtRootOfPlainName | src/invoice_processor/validator.py:41 | the base name of a plain `base.ext` is `base` |
| Validator.Candidates | src/invoice_processor/validator.py:42-45 | the names tried are the base name with `.jpg`, `.png`, `.jpeg`, in that order |
| Validator.FirstPresent | src/invoice_processor/validator.py:44-50 | the search stops at the first candidate that exists, and finds nothing exactly when none exists |
| Validator.Validate | src/invoice_processor/validator.py:12-53 | the first existing candidate becomes the screenshot and no error is added; if none exists, one error is appended and the screenshots are untouched; no other field changes |
| Validator.ValidateFresh | src/invoice_processor/validator.py:25-28 | on a fresh record: valid exactly when a candidate exists, exactly when there is no error; otherwise the one error; at most one screenshot |
| Validator.ValidateIdempotentWhenFound | src/invoice_processor/validator.py:32-53 | once a screenshot is found, validating again changes nothing |
| Validator.ValidateRepeatsMissingError | src/invoice_processor/validator.py:52-53 | with no screenshot, validating again appends the error a second time |
| Validator.ValidatorFindsPng | test/test_validator.py:7-35 | for any plain `<base>.pdf` with `<base>.png` present and no `<base>.jpg`, the `.png` becomes the screenshot and the record is valid without error |
| Validator.ValidatorReportsMissing | test/test_validator.py:38-64 | for any plain `<base>.pdf` with no candidate present, the record has no screenshot, is not valid, and has exactly the one error |
| Pipeline.IsPdf | src/invoice_processor/main.py:25 | the guard: the last `.`-separated piece of the name is `pdf`; `Pipeline.IsPdfIff` characterises it without splitting |
| Pipeline.IsPdfIff | src/invoice_processor/main.py:25 | the guard admits exactly the names ending in `.pdf`, and the name `pdf` itself |
| Pipeline.IsPdfOfExtension | src/invoice_processor/main.py:25 | for a name `stem.ext` with a `.`-free extension the guard admits it exactly when the extension is `pdf` |
| Pipeline.PdfSuffixExtension | src/invoice_processor/main.py:25-26 | a name ending in `.pdf` has the extension `pdf` as the parser reads it, whatever whitespace precedes it |
| Pipeline.IngestAsWritten | src/invoice_processor/main.py:25-29 | a record comes out only for a name the guard admits, and it keeps that name |
| Pipeline.BarePdfRaises | src/invoice_processor/main.py:25-26 | the loop body raises on the name `pdf` and on no other name |
| Pipeline.Ingest | src/invoice_processor/main.py:25-29 | with the checked parser: a record comes out only for an admitted name; it is valid exactly when a screenshot candidate exists, and exactly when it has no error; otherwise it has the one error |
| Pipeline.IngestAgrees | src/invoice_processor/main.py:25-29 | for every name except `pdf`, the loop body as written and with the checked parser give the same outcome |
| Pipeline.FormattedPdfIngested | src/invoice_processor/main.py:25-29 | a `.pdf` name written from any real date, buyer, amount and number passes the guard and becomes the validated record of exactly those values |
| Pipeline.IngestEndToEnd | src/invoice_processor/main.py:25-29 | a well-formed invoice name whose `.png` is present and whose `.jpg` is absent comes out as its parsed record with that `.png` as screenshot |
| Pipeline.ProcessAsWritten | src/invoice_processor/main.py:24-29 | the loop as written fails exactly when the listing contains a file named `pdf` |
| Pipeline.CollectSound | src/invoice_processor/main.py:27-29 | every collected record was the outcome of some step |
| Pipeline.CollectOne | src/invoice_processor/main.py:27-29 | one outcome contributes its record if it holds one, and nothing otherwise |
| Pipeline.CollectAppend | src/invoice_processor/main.py:24-29 | collecting keeps order: the records of two runs of outcomes are those of the first followed by those of the second |
| Pipeline.CollectComplete | src/invoice_processor/main.py:27-29 | every step's record is collected |
| Pipeline.Process | src/invoice_processor/main.py:22-29 | the loop with the corrected step collects at most one record per listed name; `Pipeline.ProcessSound` and `Pipeline.ProcessComplete` say that the records collected are exactly those the listed names yield |
| Pipeline.ProcessSound | src/invoice_processor/main.py:24-29 | every collected record is what one step made of some listed name |
| Pipeline.ProcessComplete | src/invoice_processor/main.py:24-29 | every record a step makes of a listed name is collected |
| Pipeline.ProcessAppend | src/invoice_processor/main.py:24-29 | the loop keeps listing order: the records of a listing split in two are those of the first part followed by those of the second |
| Pipeline.ProcessOne | src/invoice_processor/main.py:25-29 | a one-name listing yields that name's record if the step makes one, and nothing otherwise |
| Pipeline.ProcessAgrees | src/invoice_processor/main.py:24-29 | without a file named `pdf`, the loop as written collects exactly what the corrected loop collects |

## Left out

- Filesystem access is not modelled: `os.listdir`, `os.path.exists` and `os.path.join`. The listing is a sequence of names and the directory is the set of names in it. A path exists exactly when its name is in the set, so a base name with a directory part is looked up as given.
- Validator.Validate: the validator writes `is_valid` (`validator.py:27-28`), but the model has no such field. Validity is the derived property of `invoice.py`. `Validator.ValidateFresh` proves the two agree on the records the parser produces.
- FilenameParser.Parse: does not model the `TypeError` that the keyword arguments `screenshot_filename` and `is_valid` would raise against the current `invoice.py`. The model uses one reconciled record type.
- FilenameParser.Match: `$` in Python also matches just before one final newline, so a stem ending in `\n` would match in Python but not here.
- FilenameParser.Match: `\d` here is the ASCII digits, while Python's `\d` on `str` and `int()` also accept other Unicode decimal digits.
- Invoices.Decimal.Value: the amount is the exact decimal, not the binary `float` Python computes. The model does not cover rounding, or very long digit runs that overflow to infinity.
- The `IndexError` branch of `parse`'s `except` clause is not modelled, because no path through the code reaches it.
- `Validator.__init__` is left out; the directory it stores is a parameter of `Validate`.
- `process_invoices` output is left out. This covers the messages printed for skipped and invalid files (`main.py:31-38`) and the Excel output (`main.py:41-42`). The Excel and LaTeX generators, the command-line entry point and the logging setup are left out as well; they format or print what the modelled core computes.

## Findings

| source | as written | input that shows it | evidently intended | confidence | as-written member | corrected member |
|---|---|---|---|---|---|---|
| src/invoice_processor/parser.py:31 | `name, _ = filename.strip().rsplit('.', 1)` sits outside the `try`, so a name without `.` raises `ValueError` | `2023-10-15-abc-19_9-12345678901234567890` (test/test_parser.py:40 expects `None`) | return `None` for a name without extension | high, not executed | FilenameParser.NoExtensionRaises | FilenameParser.ParseChecked |
| src/invoice_processor/parser.py:31 | the extension is discarded unchecked | `2023-10-15-abc-19_9-12345678901234567890.txt` (test/test_parser.py:38 expects `None`) | accept only the extension `pdf` | high, not executed | FilenameParser.NonPdfExtensionAccepted | FilenameParser.ParseChecked |
| src/invoice_processor/main.py:25 | the guard `filename.split('.')[-1] == 'pdf'` also admits a file named exactly `pdf`, which `parse` then fails on with `ValueError`, aborting the whole run | a directory containing a file named `pdf` | skip such a file like any other non-invoice | high, not executed | Pipeline.BarePdfRaises | Pipeline.Ingest |
