/**
 * The Java values the column codecs handle, by runtime class: java.math.BigDecimal,
 * Joda DateTime, boxed numbers, booleans and strings, with their toString texts.
 */
module JavaValues {
  import opened Wrappers
  import opened Text

  // ---------------------------------------------------------------------------
  // BigDecimal

  /** A BigDecimal: the number unscaled / 10^scale. Only the non-negative scales the code uses are modelled. */
  datatype Decimal = Decimal(unscaled: int, scale: nat)

  /** 10 to the power n. */
  function Pow10(n: nat): (r: nat)
    ensures r >= 1
  {
    if n == 0 then 1 else 10 * Pow10(n - 1)
  }

  /** The unscaled value u at scale s denotes the same number as d. */
  predicate Represents(u: int, s: nat, d: Decimal) {
    u * Pow10(d.scale) == d.unscaled * Pow10(s)
  }

  /** The integer u has at most p decimal digits: the unscaled values a DECIMAL(p, s) column holds. */
  predicate WithinPrecision(u: int, p: nat) {
    (if u < 0 then -u else u) < Pow10(p)
  }

  /** Powers of ten multiply by adding exponents. */
  lemma {:induction false} Pow10Add(a: nat, b: nat)
    ensures Pow10(a + b) == Pow10(a) * Pow10(b)
    decreases a
  {
    if a > 0 {
      Pow10Add(a - 1, b);
      assert Pow10(a + b) == 10 * Pow10(a - 1 + b);
    }
  }

  /** The powers of ten the decimal columns use, as precisions and scales. */
  lemma Pow10Values()
    ensures Pow10(2) == 100 && Pow10(4) == 10000 && Pow10(6) == 1000000
    ensures Pow10(9) == 1000000000 && Pow10(12) == 1000000000000
    ensures Pow10(18) == 1000000000000000000
    ensures Pow10(38) == 100000000000000000000000000000000000000
  {
    assert Pow10(12) == 1000000000000;
    assert Pow10(18) == 1000000000000000000;
    Pow10Add(18, 18);
    assert Pow10(38) == 100 * Pow10(36);
  }

  /**
   * BigDecimal.setScale(s) without a rounding mode: the same number at scale s, or
   * ArithmeticException when that would need rounding.
   */
  function SetScale(d: Decimal, s: nat): (r: Result<Decimal>)
    ensures r.Ok? ==> r.value.scale == s && Represents(r.value.unscaled, s, d)
    ensures r.Err? ==> r.error == ArithmeticException
    ensures r.Err? ==> forall u :: !Represents(u, s, d)
  {
    if s >= d.scale then
      SetScaleUp(d, s);
      Ok(Decimal(d.unscaled * Pow10(s - d.scale), s))
    else if d.unscaled % Pow10(d.scale - s) == 0 then
      SetScaleDown(d, s);
      Ok(Decimal(d.unscaled / Pow10(d.scale - s), s))
    else
      SetScaleInexact(d, s);
      Err(ArithmeticException)
  }

  /** Raising the scale multiplies the unscaled value and keeps the number. */
  lemma SetScaleUp(d: Decimal, s: nat)
    requires s >= d.scale
    ensures Represents(d.unscaled * Pow10(s - d.scale), s, d)
  {
    Pow10Add(s - d.scale, d.scale);
    assert d.unscaled * Pow10(s - d.scale) * Pow10(d.scale) == d.unscaled * (Pow10(s - d.scale) * Pow10(d.scale));
  }

  /** Lowering the scale by an exact division keeps the number. */
  lemma SetScaleDown(d: Decimal, s: nat)
    requires s < d.scale && d.unscaled % Pow10(d.scale - s) == 0
    ensures Represents(d.unscaled / Pow10(d.scale - s), s, d)
  {
    var m := Pow10(d.scale - s);
    var q := d.unscaled / m;
    assert d.unscaled == q * m;
    Pow10Add(d.scale - s, s);
    assert q * Pow10(d.scale) == q * (m * Pow10(s)) == (q * m) * Pow10(s);
  }

  /** When the division is inexact, no unscaled value at scale s denotes d. */
  lemma SetScaleInexact(d: Decimal, s: nat)
    requires s < d.scale && d.unscaled % Pow10(d.scale - s) != 0
    ensures forall u :: !Represents(u, s, d)
  {
    var m := Pow10(d.scale - s);
    Pow10Add(d.scale - s, s);
    forall u ensures !Represents(u, s, d) {
      if Represents(u, s, d) {
        assert (u * m) * Pow10(s) == d.unscaled * Pow10(s);
        CancelFactor(u * m, d.unscaled, Pow10(s));
        MultipleMod(u, m);
      }
    }
  }

  /** A positive factor cancels. */
  lemma CancelFactor(a: int, b: int, c: int)
    requires c > 0 && a * c == b * c
    ensures a == b
  {
  }

  /** A multiple of m leaves remainder 0. */
  lemma MultipleMod(u: int, m: int)
    requires m > 0
    ensures (u * m) % m == 0
  {
    var x := u * m;
    var q, r := x / m, x % m;
    assert (u - q) * m == r;
    assert u - q == 0 by {
      if u - q >= 1 {
        MulAtLeast(u - q, m);
      } else if u - q <= -1 {
        MulAtLeast(q - u, m);
      }
    }
  }

  /** A factor of at least one does not shrink a positive number. */
  lemma MulAtLeast(k: int, m: int)
    requires k >= 1 && m > 0
    ensures k * m >= m
  {
  }

  /** Rescaling keeps the sign (BigDecimal.signum). */
  lemma RepresentsSign(u: int, s: nat, d: Decimal)
    requires Represents(u, s, d)
    ensures (u < 0 <==> d.unscaled < 0) && (u == 0 <==> d.unscaled == 0)
  {
    var p, q := Pow10(d.scale), Pow10(s);
    if u < 0 { assert u * p < 0; }
    if u > 0 { assert u * p > 0; }
    if d.unscaled < 0 { assert d.unscaled * q < 0; }
    if d.unscaled > 0 { assert d.unscaled * q > 0; }
  }

  /** Numeric order of two BigDecimals (compareTo), independent of their scales. */
  predicate DecimalLess(a: Decimal, b: Decimal) {
    a.unscaled * Pow10(b.scale) < b.unscaled * Pow10(a.scale)
  }

  /**
   * BigDecimal.toString for a non-negative scale: plain notation, unless the adjusted
   * exponent (digit count - 1 - scale) is below -6, then scientific notation.
   */
  function DecimalText(d: Decimal): string
  {
    var sign := if d.unscaled < 0 then "-" else "";
    var digits := NatText(if d.unscaled < 0 then -d.unscaled else d.unscaled);
    var adjusted := |digits| - 1 - d.scale;
    if d.scale == 0 then sign + digits
    else if adjusted >= -6 then
      if |digits| > d.scale then
        sign + digits[..|digits| - d.scale] + "." + digits[|digits| - d.scale..]
      else
        sign + "0." + seq(d.scale - |digits|, _ => '0') + digits
    else
      sign + digits[..1] + (if |digits| > 1 then "." + digits[1..] else "") + "E" + IntText(adjusted)
  }

  /** The text of a BigDecimal never holds a quote. */
  lemma DecimalTextHasNoQuote(d: Decimal)
    ensures '\'' !in DecimalText(d)
  {
    var digits := NatText(if d.unscaled < 0 then -d.unscaled else d.unscaled);
    IntTextChars(|digits| - 1 - d.scale);
    assert '\'' !in digits;
  }

  // ---------------------------------------------------------------------------
  // Joda DateTime

  /** A Joda DateTime in the default time zone, by its local fields. */
  datatype DateTime = DateTime(year: nat, month: nat, day: nat, hour: nat, minute: nat, second: nat, millis: nat)

  /** DateTime.getMillisOfDay: milliseconds since local midnight. */
  function MillisOfDay(t: DateTime): nat {
    ((t.hour * 60 + t.minute) * 60 + t.second) * 1000 + t.millis
  }

  /** The pattern "yyyy-MM-dd HH:mm:ss.SSS" applied to a DateTime. */
  function TimestampText(t: DateTime): string {
    ZeroPad(NatText(t.year), 4) + "-" + ZeroPad(NatText(t.month), 2) + "-" + ZeroPad(NatText(t.day), 2) + " "
    + ZeroPad(NatText(t.hour), 2) + ":" + ZeroPad(NatText(t.minute), 2) + ":" + ZeroPad(NatText(t.second), 2)
    + "." + ZeroPad(NatText(t.millis), 3)
  }

  /** The fields of a date-time are in their calendar ranges (Joda refuses others). */
  predicate ValidDateTime(t: DateTime) {
    1 <= t.month <= 12 && 1 <= t.day <= 31 && t.hour < 24 && t.minute < 60 && t.second < 60 && t.millis < 1000
  }

  /** A day holds 86,400,000 milliseconds. */
  lemma MillisOfDayBound(t: DateTime)
    requires ValidDateTime(t)
    ensures MillisOfDay(t) < 86400000
  {
  }

  /** A field printed with zero padding holds no quote. */
  lemma PaddedFieldHasNoQuote(n: nat, width: nat)
    ensures '\'' !in ZeroPad(NatText(n), width)
  {
    var z := ZeroPad(NatText(n), width);
    assert AllDigits(z);
    assert forall i :: 0 <= i < |z| ==> z[i] != '\'';
  }

  /** A timestamp text holds only digits and the separators - : . and space, so never a quote. */
  lemma TimestampTextHasNoQuote(t: DateTime)
    ensures '\'' !in TimestampText(t)
  {
    PaddedFieldHasNoQuote(t.year, 4);
    PaddedFieldHasNoQuote(t.month, 2);
    PaddedFieldHasNoQuote(t.day, 2);
    PaddedFieldHasNoQuote(t.hour, 2);
    PaddedFieldHasNoQuote(t.minute, 2);
    PaddedFieldHasNoQuote(t.second, 2);
    PaddedFieldHasNoQuote(t.millis, 3);
  }

  /** The ISO text of DateTime.toString, without the zone offset (which the model does not know). */
  function IsoText(t: DateTime): string {
    ZeroPad(NatText(t.year), 4) + "-" + ZeroPad(NatText(t.month), 2) + "-" + ZeroPad(NatText(t.day), 2) + "T"
    + ZeroPad(NatText(t.hour), 2) + ":" + ZeroPad(NatText(t.minute), 2) + ":" + ZeroPad(NatText(t.second), 2)
    + "." + ZeroPad(NatText(t.millis), 3)
  }

  /** The ISO text holds only digits and the separators - T : and ., so never a quote. */
  lemma IsoTextHasNoQuote(t: DateTime)
    ensures '\'' !in IsoText(t)
  {
    PaddedFieldHasNoQuote(t.year, 4);
    PaddedFieldHasNoQuote(t.month, 2);
    PaddedFieldHasNoQuote(t.day, 2);
    PaddedFieldHasNoQuote(t.hour, 2);
    PaddedFieldHasNoQuote(t.minute, 2);
    PaddedFieldHasNoQuote(t.second, 2);
    PaddedFieldHasNoQuote(t.millis, 3);
  }

  /** Chronological order of two local date-times. */
  predicate DateTimeLess(a: DateTime, b: DateTime) {
    if a.year != b.year then a.year < b.year
    else if a.month != b.month then a.month < b.month
    else if a.day != b.day then a.day < b.day
    else MillisOfDay(a) < MillisOfDay(b)
  }

  // ---------------------------------------------------------------------------
  // Values by runtime class

  /** A float or double, kept opaque: only the text Float/Double.toString gives for it. */
  datatype JavaFloat = JavaFloat(text: string)

  /** A Java object the codecs handle, by its runtime class. */
  datatype JavaValue =
    | JBoolean(b: bool)
    | JInteger(i: int)
    | JLong(l: int)
    | JFloat(f: JavaFloat)
    | JDouble(g: JavaFloat)
    | JString(s: string)
    | JBigDecimal(d: Decimal)
    | JDateTime(t: DateTime)

  /** Object.toString of each class. */
  function ToString(v: JavaValue): string {
    match v
    case JBoolean(b) => if b then "true" else "false"
    case JInteger(i) => IntText(i)
    case JLong(l) => IntText(l)
    case JFloat(f) => f.text
    case JDouble(g) => g.text
    case JString(s) => s
    case JBigDecimal(d) => DecimalText(d)
    case JDateTime(t) => IsoText(t)
  }

  /** Comparable.compareTo(a, b) < 0 for two values of the same ordered class; floats are opaque here. */
  predicate Less(a: JavaValue, b: JavaValue) {
    match (a, b)
    case (JBoolean(x), JBoolean(y)) => !x && y
    case (JInteger(x), JInteger(y)) => x < y
    case (JLong(x), JLong(y)) => x < y
    case (JString(x), JString(y)) => StringLess(x, y)
    case (JBigDecimal(x), JBigDecimal(y)) => DecimalLess(x, y)
    case (JDateTime(x), JDateTime(y)) => DateTimeLess(x, y)
    case _ => false
  }

  /** String.compareTo < 0: lexicographic by character, a proper prefix first. */
  predicate StringLess(x: string, y: string)
    decreases |x|
  {
    if x == [] then y != []
    else if y == [] then false
    else if x[0] != y[0] then x[0] < y[0]
    else StringLess(x[1..], y[1..])
  }
}
