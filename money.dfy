/**
 * Monetary amounts. The Java code keeps them in `double`; the model keeps them exact,
 * as `real`. Two conversions matter to the ledger: Double.parseDouble on text typed
 * or imported, and the `%.2f` rendering used by the CSV export.
 */
module Money {
  import opened Wrappers
  import opened JavaText

  /**
   * Double.parseDouble on plain decimal notation: surrounding blanks are trimmed,
   * an optional sign, digits with at most one decimal point and at least one digit.
   */
  function ParseDouble(s: string): (r: Option<real>)
  {
    var t := Trim(s);
    if |t| > 0 && t[0] == '-' then
      match ParseUnsignedDecimal(t[1..])
      case None => None
      case Some(v) => Some(-v)
    else if |t| > 0 && t[0] == '+' then ParseUnsignedDecimal(t[1..])
    else ParseUnsignedDecimal(t)
  }

  function ParseUnsignedDecimal(s: string): (r: Option<real>)
    ensures r.Some? ==> r.value >= 0.0
  {
    if '.' !in s then
      if |s| > 0 && AllDigits(s) then Some(DigitsValue(s) as real) else None
    else
      var k := IndexOf(s, '.');
      DecimalOfParts(s[..k], s[k + 1..])
  }

  /** The value of digits around the decimal point; one side may be empty, not both. */
  function DecimalOfParts(whole: string, frac: string): (r: Option<real>)
    ensures r.Some? ==> r.value >= 0.0
  {
    if |whole| + |frac| > 0 && AllDigits(whole) && AllDigits(frac)
    then Some(DigitsValue(whole) as real + Shifted(DigitsValue(frac), |frac|))
    else None
  }

  /** n moved k decimal places to the right of the point: n / 10^k. */
  function Shifted(n: nat, k: nat): (r: real)
    ensures r >= 0.0
  {
    if k == 0 then n as real else Shifted(n, k - 1) / 10.0
  }

  /**
   * An amount times a count, as the count's worth of additions. Products of two unknown
   * reals are kept out of the model's other proofs this way; the balance seed of a new
   * tenant, rent times the unpaid months, is written with it.
   */
  function Times(amount: real, n: int): real
    decreases n
  {
    if n <= 0 then 0.0 else Times(amount, n - 1) + amount
  }

  /** For every count the ledger can produce, which is never negative, it is the product. */
  lemma {:induction false} TimesIsProduct(amount: real, n: int)
    requires n >= 0
    ensures Times(amount, n) == amount * n as real
    decreases n
  {
    if n > 0 {
      TimesIsProduct(amount, n - 1);
      assert amount * (n - 1) as real + amount == amount * n as real;
    }
  }

  function Abs(x: real): real { if x < 0.0 then -x else x }

  /** |x| in hundredths, rounded half up (away from zero), as `%.2f` rounds. */
  function Hundredths(x: real): nat
  {
    (Abs(x) * 100.0 + 0.5).Floor
  }

  /**
   * `%.2f` in a locale whose decimal separator is '.': sign, whole part, a point and
   * exactly two decimals.
   */
  function Format2(x: real): string
  {
    CentsText(x < 0.0, Hundredths(x))
  }

  /** The amount that `%.2f` shows for x. */
  function Rounded(x: real): real
  {
    CentsValue(x < 0.0, Hundredths(x))
  }

  function CentsText(negative: bool, c: nat): string
  {
    if negative then "-" + CentsBody(c) else CentsBody(c)
  }

  function CentsValue(negative: bool, c: nat): real
  {
    var v := c as real / 100.0;
    if negative then -v else v
  }

  /** A whole number of cents. */
  predicate IsCents(x: real)
  {
    (x * 100.0).Floor as real == x * 100.0
  }

  /** The shown amount is within half a cent of the stored one, and equal to it for whole cents. */
  lemma RoundedIsClose(x: real)
    ensures -0.005 <= Rounded(x) - x <= 0.005
    ensures IsCents(x) ==> Rounded(x) == x
  {
    var y := Abs(x) * 100.0;
    var c := Hundredths(x);
    assert c as real <= y + 0.5 < c as real + 1.0;
    if IsCents(x) {
      if x < 0.0 {
        assert (x * 100.0).Floor == -((y).Floor);
      }
      assert y.Floor as real == y;
      assert c == y.Floor;
    }
  }

  lemma WholeAndFraction(c: nat)
    ensures (c / 100) as real + (c % 100) as real / 100.0 == c as real / 100.0
  {
    assert c == (c / 100) * 100 + c % 100;
  }

  /** Text with a decimal point is read as the parts before and after its first point. */
  lemma ParseAroundPoint(w: string, f: string)
    requires '.' !in w
    ensures ParseUnsignedDecimal(w + "." + f) == DecimalOfParts(w, f)
  {
    var body := w + "." + f;
    IndexOfAfter(w, '.', f);
    assert body[..|w|] == w && body[|w| + 1..] == f;
  }

  /** Two digits after the point count hundredths. */
  lemma DecimalOfCents(w: string, f: string)
    requires AllDigits(w) && |f| == 2 && AllDigits(f)
    ensures DecimalOfParts(w, f) == Some(DigitsValue(w) as real + DigitsValue(f) as real / 100.0)
  {
    var n := DigitsValue(f);
    assert Shifted(n, 1) == n as real / 10.0;
    assert Shifted(n, |f|) == n as real / 100.0;
  }

  lemma ParseUnsignedOfParts(w: string, f: string)
    requires |w| >= 1 && AllDigits(w) && |f| == 2 && AllDigits(f)
    ensures ParseUnsignedDecimal(w + "." + f) == Some(DigitsValue(w) as real + DigitsValue(f) as real / 100.0)
  {
    DigitsExclude(w, '.');
    ParseAroundPoint(w, f);
    DecimalOfCents(w, f);
  }

  /** Text that starts and ends with a digit parses as its unsigned value... */
  lemma ParsePlain(body: string, v: real)
    requires |body| >= 1 && IsDigit(body[0]) && IsDigit(body[|body| - 1])
    requires ParseUnsignedDecimal(body) == Some(v)
    ensures ParseDouble(body) == Some(v)
  {
    TrimOfUnpadded(body);
  }

  /** ... and with a minus sign in front, as its negation. */
  lemma ParseNegated(body: string, v: real)
    requires |body| >= 1 && IsDigit(body[0]) && IsDigit(body[|body| - 1])
    requires ParseUnsignedDecimal(body) == Some(v)
    ensures ParseDouble("-" + body) == Some(-v)
  {
    var s := "-" + body;
    assert s[|s| - 1] == body[|body| - 1];
    TrimOfUnpadded(s);
    assert s[0] == '-' && s[1..] == body;
  }

  function CentsBody(c: nat): string
  {
    NatToString(c / 100) + "." + Pad2(c % 100)
  }

  lemma ParseCentsBody(c: nat)
    ensures |CentsBody(c)| >= 1 && IsDigit(CentsBody(c)[0]) && IsDigit(CentsBody(c)[|CentsBody(c)| - 1])
    ensures ParseUnsignedDecimal(CentsBody(c)) == Some(c as real / 100.0)
  {
    var w, f := NatToString(c / 100), Pad2(c % 100);
    Pad2Digits(c % 100);
    NatToStringValue(c / 100);
    ParseUnsignedOfParts(w, f);
    assert DigitsValue(w) as real + DigitsValue(f) as real / 100.0 == c as real / 100.0 by {
      WholeAndFraction(c);
    }
    var body := w + "." + f;
    assert body[0] == w[0] && body[|body| - 1] == f[1];
  }

  /** A sign in front of such text carries over to the parsed value. */
  lemma ParseSigned(negative: bool, body: string, v: real)
    requires |body| >= 1 && IsDigit(body[0]) && IsDigit(body[|body| - 1])
    requires ParseUnsignedDecimal(body) == Some(v)
    ensures ParseDouble(if negative then "-" + body else body) == Some(if negative then -v else v)
  {
    if negative {
      ParseNegated(body, v);
    } else {
      ParsePlain(body, v);
    }
  }

  /** The text `%.2f` prints for a sign and a count of hundredths parses to that amount. */
  lemma ParseCentsText(negative: bool, c: nat)
    ensures ParseDouble(CentsText(negative, c)) == Some(CentsValue(negative, c))
  {
    if negative {
      ParseCentsNegative(c);
    } else {
      ParseCentsPositive(c);
    }
  }

  lemma ParseCentsNegative(c: nat)
    ensures ParseDouble(CentsText(true, c)) == Some(CentsValue(true, c))
  {
    ParseCentsBody(c);
    ParsedAs(true, CentsBody(c), c as real / 100.0, CentsText(true, c), CentsValue(true, c));
  }

  lemma ParseCentsPositive(c: nat)
    ensures ParseDouble(CentsText(false, c)) == Some(CentsValue(false, c))
  {
    ParseCentsBody(c);
    ParsedAs(false, CentsBody(c), c as real / 100.0, CentsText(false, c), CentsValue(false, c));
  }

  /** ParseSigned, for a text and a value already known to be the signed body and amount. */
  lemma ParsedAs(negative: bool, body: string, v: real, text: string, value: real)
    requires |body| >= 1 && IsDigit(body[0]) && IsDigit(body[|body| - 1])
    requires ParseUnsignedDecimal(body) == Some(v)
    requires text == (if negative then "-" + body else body) && value == (if negative then -v else v)
    ensures ParseDouble(text) == Some(value)
  {
    ParseSigned(negative, body, v);
  }

  /** `%.2f` prints a sign, digits and a point, so never a comma, and never nothing. */
  lemma Format2HasNoComma(x: real)
    ensures ',' !in Format2(x) && |Format2(x)| > 0
  {
    var c := Hundredths(x);
    Pad2Digits(c % 100);
    DigitsExclude(NatToString(c / 100), ',');
    DigitsExclude(Pad2(c % 100), ',');
  }

  /** Double.parseDouble reads back exactly the amount `%.2f` shows. */
  lemma ParseFormat2(x: real)
    ensures ParseDouble(Format2(x)) == Some(Rounded(x))
  {
    ParseCentsText(x < 0.0, Hundredths(x));
  }
}
