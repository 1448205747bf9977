/**
 * The screenshot association validator. The directory is the set of names
 * it holds; a file exists exactly when its name is in the set. The
 * screenshot of an invoice is the first of `<basename>.jpg`,
 * `<basename>.png`, `<basename>.jpeg` that exists, and when none does the
 * record receives one error message.
 */
module Validator {
  import opened Wrappers
  import opened Text
  import opened Invoices

  /** The message appended when no screenshot exists ("missing corresponding
      screenshot file"). */
  const MissingScreenshot: string := "缺少对应截图文件"

  /** The extensions tried, in order of preference. */
  const ScreenshotExtensions: seq<string> := [".jpg", ".png", ".jpeg"]

  predicate HasNonDot(s: string) {
    exists k :: 0 <= k < |s| && s[k] != '.'
  }

  /** `os.path.splitext(p)[0]` on POSIX: `p` up to its last `.`, provided
      that `.` lies in the last path component and is preceded there by
      something other than dots; otherwise `p` itself. */
  function SplitExtRoot(p: string): (root: string)
    ensures |root| <= |p| && p[..|root|] == root
    ensures root != p ==> p[|root|] == '.' && '.' !in p[|root| + 1..] && '/' !in p[|root| + 1..]
    ensures '.' !in p ==> root == p
  {
    match LastIndexOf(p, '.')
    case None => p
    case Some(dot) =>
      var nameStart := if LastIndexOf(p, '/').Some? then LastIndexOf(p, '/').value + 1 else 0;
      if nameStart <= dot && HasNonDot(p[nameStart..dot]) then
        assert '/' !in p[nameStart..];
        assert forall k :: dot < k < |p| ==> p[k] == p[nameStart..][k - nameStart];
        assert forall k :: dot < k < |p| ==> p[k] == p[dot + 1..][k - dot - 1];
        p[..dot]
      else p
  }

  /** The root of a plain name `base.ext` (no directory part, no other `.`)
      is `base`. */
  lemma SplitExtRootOfPlainName(base: string, ext: string)
    requires |base| > 0 && '.' !in base && '/' !in base
    requires '.' !in ext && '/' !in ext
    ensures SplitExtRoot(base + "." + ext) == base
  {
    var p := base + "." + ext;
    assert p[|base| + 1..] == ext;
    LastIndexOfUnique(p, '.', |base|);
    assert '/' !in p by {
      forall k | 0 <= k < |p| ensures p[k] != '/' {
        if k < |base| {
          assert p[k] == base[k];
        } else if k > |base| {
          assert p[k] == ext[k - |base| - 1];
        }
      }
    }
    assert p[0] == base[0];
    assert p[0..|base|][0] != '.';
  }

  /** The cut happens: when the last `.` of `p` lies in the last path
      component and something other than a dot precedes it there, the root
      is `p` up to that `.`. */
  lemma SplitExtRootCutsAtLastDot(p: string, i: nat, k: nat)
    requires i < |p| && p[i] == '.' && '.' !in p[i + 1..] && '/' !in p[i + 1..]
    requires k < i && p[k] != '.' && '/' !in p[k..i]
    ensures SplitExtRoot(p) == p[..i]
  {
    LastIndexOfUnique(p, '.', i);
    var nameStart := if LastIndexOf(p, '/').Some? then LastIndexOf(p, '/').value + 1 else 0;
    assert nameStart <= k;
    assert p[nameStart..i][k - nameStart] == p[k];
  }

  /** Conversely, a cut needs a non-dot before the `.` in its component:
      leading dots of the last component stay in the root, so `.bashrc`
      is its own root. */
  lemma SplitExtRootCutNeedsNonDot(p: string)
    ensures var root := SplitExtRoot(p);
      root != p ==> exists k :: 0 <= k < |root| && p[k] != '.' && '/' !in p[k..|root|]
  {
    var root := SplitExtRoot(p);
    if root != p {
      var dot := LastIndexOf(p, '.').value;
      var nameStart := if LastIndexOf(p, '/').Some? then LastIndexOf(p, '/').value + 1 else 0;
      assert nameStart <= dot && HasNonDot(p[nameStart..dot]) && root == p[..dot];
      var j :| 0 <= j < |p[nameStart..dot]| && p[nameStart..dot][j] != '.';
      var k := nameStart + j;
      assert p[k] != '.';
      assert '/' !in p[nameStart..];
      forall m | k <= m < dot
        ensures p[m] != '/'
      {
        assert p[m] == p[nameStart..][m - nameStart];
      }
      assert '/' !in p[k..|root|];
    }
  }

  /** The candidate screenshot names for a basename, in the order tried. */
  function Candidates(base: string): (c: seq<string>)
    ensures |c| == |ScreenshotExtensions|
    ensures forall k :: 0 <= k < |c| ==> c[k] == base + ScreenshotExtensions[k]
  {
    [base + ".jpg", base + ".png", base + ".jpeg"]
  }

  /** Position of the first name of `names` present in `dir`. */
  function FirstPresent(names: seq<string>, dir: set<string>): (r: Option<nat>)
    ensures r.Some? ==> r.value < |names| && names[r.value] in dir
    ensures r.Some? ==> forall j :: 0 <= j < r.value ==> names[j] !in dir
    ensures r.None? <==> forall j :: 0 <= j < |names| ==> names[j] !in dir
  {
    if |names| == 0 then None
    else if names[0] in dir then Some(0)
    else match FirstPresent(names[1..], dir)
      case None => None
      case Some(k) => Some(k + 1)
  }

  /** `Validator.validate`: look for the screenshot of the invoice's file in
      `dir` and record the outcome. The first existing candidate becomes the
      record's screenshot and no error is added; later candidates are never
      chosen. When no candidate exists the screenshot list is left as it was
      and exactly one error is appended. No other field changes. */
  function Validate(inv: Invoice, dir: set<string>): (r: Invoice)
    ensures r.(screenshotFilenames := inv.screenshotFilenames, validationErrors := inv.validationErrors) == inv
    ensures var base := SplitExtRoot(inv.originalFilename);
      forall k :: 0 <= k < |ScreenshotExtensions| && base + ScreenshotExtensions[k] in dir
                  && (forall j :: 0 <= j < k ==> base + ScreenshotExtensions[j] !in dir) ==>
        r.screenshotFilenames == [base + ScreenshotExtensions[k]] && r.validationErrors == inv.validationErrors
    ensures var base := SplitExtRoot(inv.originalFilename);
      (forall k :: 0 <= k < |ScreenshotExtensions| ==> base + ScreenshotExtensions[k] !in dir) ==>
        r.screenshotFilenames == inv.screenshotFilenames
        && r.validationErrors == inv.validationErrors + [MissingScreenshot]
  {
    var cands := Candidates(SplitExtRoot(inv.originalFilename));
    match FirstPresent(cands, dir)
    case Some(k) => inv.(screenshotFilenames := [cands[k]])
    case None => inv.(validationErrors := inv.validationErrors + [MissingScreenshot])
  }

  /** Some screenshot candidate of the file exists in `dir`. */
  predicate HasScreenshot(filename: string, dir: set<string>) {
    exists k :: 0 <= k < |ScreenshotExtensions| && SplitExtRoot(filename) + ScreenshotExtensions[k] in dir
  }

  /** On a record fresh from the parser (no screenshot, no error), as the
      pipeline passes it: the record ends up valid exactly when a candidate
      exists, and exactly when it has no error, so the derived validity and
      the validator's "no error means valid" rule never disagree. It holds at
      most one screenshot and at most the one error. */
  lemma ValidateFresh(inv: Invoice, dir: set<string>)
    requires inv.screenshotFilenames == [] && inv.validationErrors == []
    ensures var r := Validate(inv, dir);
      && (r.IsValid() <==> HasScreenshot(inv.originalFilename, dir))
      && (r.IsValid() <==> r.validationErrors == [])
      && (!r.IsValid() <==> r.validationErrors == [MissingScreenshot])
      && r.ScreenshotNums() <= 1
  {
    var base := SplitExtRoot(inv.originalFilename);
    var cands := Candidates(base);
    match FirstPresent(cands, dir)
    case Some(k) =>
    case None =>
      assert !HasScreenshot(inv.originalFilename, dir);
  }

  /** Validating again against the same directory changes nothing once a
      screenshot was found. */
  lemma ValidateIdempotentWhenFound(inv: Invoice, dir: set<string>)
    requires HasScreenshot(inv.originalFilename, dir)
    ensures Validate(Validate(inv, dir), dir) == Validate(inv, dir)
  {
    var base := SplitExtRoot(inv.originalFilename);
    var k := FirstPresent(Candidates(base), dir).value;
  }

  /** Without a screenshot every validation appends the error again: the
      operation is not idempotent on invalid records. */
  lemma ValidateRepeatsMissingError(inv: Invoice, dir: set<string>)
    requires !HasScreenshot(inv.originalFilename, dir)
    ensures Validate(Validate(inv, dir), dir).validationErrors
      == inv.validationErrors + [MissingScreenshot, MissingScreenshot]
  {
    var base := SplitExtRoot(inv.originalFilename);
    assert forall k :: 0 <= k < |ScreenshotExtensions| ==> base + ScreenshotExtensions[k] !in dir;
  }

  /** The validator's tests, for any plain `<base>.pdf`: with `<base>.png`
      present and no `<base>.jpg`, the `.png` is the screenshot and the
      record is valid without error. */
  lemma ValidatorFindsPng(inv: Invoice, base: string, dir: set<string>)
    requires |base| > 0 && '.' !in base && '/' !in base
    requires inv.originalFilename == base + ".pdf"
    requires inv.screenshotFilenames == [] && inv.validationErrors == []
    requires base + ".png" in dir && base + ".jpg" !in dir
    ensures Validate(inv, dir) == inv.(screenshotFilenames := [base + ".png"])
    ensures Validate(inv, dir).IsValid() && Validate(inv, dir).validationErrors == []
  {
    assert base + ".pdf" == base + "." + "pdf";
    SplitExtRootOfPlainName(base, "pdf");
    assert Candidates(base)[0] !in dir;
    assert Candidates(base)[1] in dir;
  }

  /** The validator's tests, for any plain `<base>.pdf` with no candidate in
      the directory: no screenshot, not valid, and the one error. */
  lemma ValidatorReportsMissing(inv: Invoice, base: string, dir: set<string>)
    requires |base| > 0 && '.' !in base && '/' !in base
    requires inv.originalFilename == base + ".pdf"
    requires inv.screenshotFilenames == [] && inv.validationErrors == []
    requires base + ".jpg" !in dir && base + ".png" !in dir && base + ".jpeg" !in dir
    ensures Validate(inv, dir).screenshotFilenames == []
    ensures !Validate(inv, dir).IsValid()
    ensures Validate(inv, dir).validationErrors == [MissingScreenshot]
  {
    assert base + ".pdf" == base + "." + "pdf";
    SplitExtRootOfPlainName(base, "pdf");
    var cands := Candidates(base);
    assert cands[0] !in dir && cands[1] !in dir && cands[2] !in dir;
    assert FirstPresent(cands, dir).None?;
  }
}
