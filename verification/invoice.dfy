/**
 * The invoice record. Validity is never stored: it is derived from the
 * list of associated screenshot files.
 */
module Invoices {
  import opened Text
  import opened Calendar

  /** An exact decimal amount: its integer-part digits and its fraction
      digits, as they appear in the filename (`19_9` is `Decimal("19", "9")`). */
  datatype Decimal = Decimal(whole: string, fraction: string) {

    predicate WellFormed() {
      IsDigits(whole) && AllDigits(fraction)
    }

    /** The number the digits denote: what `float` approximates. The integer
        digits give its floor (`Invoices.ValueFloor` states it for `int()`). */
    function Value(): (v: real)
      requires WellFormed()
      ensures RealOf(whole) <= v < RealOf(whole) + 1.0
    {
      FractionBelowOne(fraction);
      RealOf(whole) + FractionOf(fraction)
    }
  }

  /** A digit string read in the reals, most significant digit first. */
  function RealOf(s: string): real
    requires AllDigits(s)
  {
    if |s| == 0 then 0.0 else RealOf(s[..|s| - 1]) * 10.0 + DigitValue(s[|s| - 1]) as real
  }

  /** Ten to the `k`, in the reals. */
  function Pow10Real(k: nat): real {
    if k == 0 then 1.0 else 10.0 * Pow10Real(k - 1)
  }

  /** Reading digits in the reals agrees with `int()`. */
  lemma {:induction false} RealOfNatOf(s: string)
    requires AllDigits(s)
    ensures RealOf(s) == NatOf(s) as real
  {
    if |s| > 0 {
      RealOfNatOf(s[..|s| - 1]);
    }
  }

  lemma {:induction false} Pow10RealOf(k: nat)
    ensures Pow10Real(k) == Pow10(k) as real
  {
    if k > 0 {
      Pow10RealOf(k - 1);
    }
  }

  /** `x` followed by `k` zero digits. */
  function Shift(x: real, k: nat): real {
    if k == 0 then x else Shift(x, k - 1) * 10.0
  }

  /** Appending `k` zero digits multiplies by ten to the `k`. */
  lemma {:induction false} ShiftIsProduct(x: real, k: nat)
    ensures Shift(x, k) == x * Pow10Real(k)
  {
    if k > 0 {
      ShiftIsProduct(x, k - 1);
      assert x * Pow10Real(k - 1) * 10.0 == x * (10.0 * Pow10Real(k - 1));
    }
  }

  lemma {:induction false} ShiftTimesTen(x: real, k: nat)
    ensures Shift(x * 10.0, k) == Shift(x, k) * 10.0
  {
    if k > 0 {
      ShiftTimesTen(x, k - 1);
    }
  }

  lemma {:induction false} ShiftAdd(x: real, y: real, k: nat)
    ensures Shift(x + y, k) == Shift(x, k) + Shift(y, k)
  {
    if k > 0 {
      ShiftAdd(x, y, k - 1);
    }
  }

  /** Digits read after the point, the first digit in the tenths. */
  function FractionOf(f: string): real
    requires AllDigits(f)
  {
    if |f| == 0 then 0.0 else (DigitValue(f[0]) as real + FractionOf(f[1..])) / 10.0
  }

  lemma {:induction false} FractionBelowOne(f: string)
    requires AllDigits(f)
    ensures 0.0 <= FractionOf(f) < 1.0
  {
    if |f| > 0 {
      FractionBelowOne(f[1..]);
      assert DigitValue(f[0]) <= 9;
    }
  }

  /** Moving the point past all the fraction digits gives the number the
      digits spell. */
  lemma {:induction false} FractionShifts(f: string)
    requires AllDigits(f)
    ensures Shift(FractionOf(f), |f|) == RealOf(f)
  {
    if |f| > 0 {
      var f', dv := f[1..], DigitValue(f[0]) as real;
      FractionShifts(f');
      ShiftTimesTen(FractionOf(f), |f'|);
      ShiftAdd(dv, FractionOf(f'), |f'|);
      assert f == [f[0]] + f';
      assert RealOf([f[0]]) == dv by {
        assert [f[0]][..0] == [];
      }
      RealOfAppend([f[0]], f');
    }
  }

  /** Reading a concatenation of digit strings: the first part is followed by
      as many digits as the second has. */
  lemma {:induction false} RealOfAppend(a: string, b: string)
    requires AllDigits(a) && AllDigits(b)
    ensures AllDigits(a + b)
    ensures RealOf(a + b) == Shift(RealOf(a), |b|) + RealOf(b)
  {
    if |b| == 0 {
      assert a + b == a;
    } else {
      DropLastDigit(a, b);
      RealOfAppend(a, b[..|b| - 1]);
    }
  }

  /** Dropping the last digit of `a + b`, for a non-empty `b`, drops it from `b`. */
  lemma DropLastDigit(a: string, b: string)
    requires AllDigits(a) && AllDigits(b) && |b| > 0
    ensures AllDigits(a + b) && AllDigits(b[..|b| - 1])
    ensures (a + b)[..|a + b| - 1] == a + b[..|b| - 1]
    ensures (a + b)[|a + b| - 1] == b[|b| - 1]
  {
  }

  datatype Invoice = Invoice(
    invoiceDate: Date,
    invoiceNumber: string,
    amount: Decimal,
    buyer: string,
    originalFilename: string,
    screenshotFilenames: seq<string>,
    validationErrors: seq<string>)
  {
    /** At least one associated screenshot. */
    predicate IsValid() {
      |screenshotFilenames| > 0
    }

    function ScreenshotNums(): nat {
      |screenshotFilenames|
    }
  }

  /** A record built from its five data fields, the lists taking their
      defaults: no screenshot, no error, and therefore not valid. */
  function NewInvoice(invoiceDate: Date, invoiceNumber: string, amount: Decimal,
                      buyer: string, originalFilename: string): (r: Invoice)
    ensures !r.IsValid() && r.ScreenshotNums() == 0 && r.validationErrors == []
    ensures r.invoiceDate == invoiceDate && r.invoiceNumber == invoiceNumber
    ensures r.amount == amount && r.buyer == buyer && r.originalFilename == originalFilename
  {
    Invoice(invoiceDate, invoiceNumber, amount, buyer, originalFilename, [], [])
  }

  /** The two derived views agree: valid exactly when the count is positive. */
  lemma ValidIffScreenshotNumsPositive(inv: Invoice)
    ensures inv.IsValid() <==> inv.ScreenshotNums() > 0
  {
  }

  /** Appending a screenshot name makes any record valid and raises the
      count by one. */
  lemma AppendScreenshot(inv: Invoice, name: string)
    ensures var r := inv.(screenshotFilenames := inv.screenshotFilenames + [name]);
      && r.IsValid()
      && r.ScreenshotNums() == inv.ScreenshotNums() + 1
      && r.screenshotFilenames[|inv.screenshotFilenames|] == name
  {
  }

  /** The integer digits of an amount are its floor, as `int()` reads them. */
  lemma ValueFloor(d: Decimal)
    requires d.WellFormed()
    ensures NatOf(d.whole) as real <= d.Value() < NatOf(d.whole) as real + 1.0
  {
    RealOfNatOf(d.whole);
  }

  /** Shifting the point: the amount followed by as many zero digits as it
      has fraction digits is the number the digits spell without the point. */
  lemma ValueShiftsPoint(d: Decimal)
    requires d.WellFormed()
    ensures AllDigits(d.whole + d.fraction)
    ensures Shift(d.Value(), |d.fraction|) == RealOf(d.whole + d.fraction)
  {
    ShiftAdd(RealOf(d.whole), FractionOf(d.fraction), |d.fraction|);
    FractionShifts(d.fraction);
    RealOfAppend(d.whole, d.fraction);
  }

  /** The same, as a product: the amount times ten to the number of fraction
      digits. */
  lemma ValueTimesPow10(d: Decimal)
    requires d.WellFormed()
    ensures AllDigits(d.whole + d.fraction)
    ensures d.Value() * Pow10Real(|d.fraction|) == RealOf(d.whole + d.fraction)
  {
    ValueShiftsPoint(d);
    ShiftIsProduct(d.Value(), |d.fraction|);
  }

  /** The same in integers: the amount with its point moved past its
      fraction digits is what `int()` reads from the digits with the point
      removed. */
  lemma ValueShiftsPointInt(d: Decimal)
    requires d.WellFormed()
    ensures AllDigits(d.whole + d.fraction)
    ensures Shift(d.Value(), |d.fraction|) == NatOf(d.whole + d.fraction) as real
  {
    ValueShiftsPoint(d);
    RealOfNatOf(d.whole + d.fraction);
  }

  /** The amounts of the filename examples `50` and `19_9`. */
  lemma DecimalExamples()
    ensures Decimal("50", "").Value() == 50.0
    ensures Decimal("19", "9").Value() == 19.9
    ensures Decimal("50", "0").Value() == 50.0
  {
    assert RealOf("50") == 50.0 by { assert "50"[..1] == "5"; }
    assert RealOf("19") == 19.0 by { assert "19"[..1] == "1"; }
    assert FractionOf("9") == 0.9 by { assert "9"[1..] == ""; }
    assert FractionOf("0") == 0.0 by { assert "0"[1..] == ""; }
  }
}
