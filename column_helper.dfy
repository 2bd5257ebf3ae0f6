/**
 * The closed set of column kinds of the interop test (the ColumnHelper enum): per kind a
 * column name, a SQL type, a Parquet schema fragment, a support rule per reading engine,
 * four representative values, the encoder to the value the Parquet writer takes, and
 * the SQL literal renderer.
 */
module ColumnHelper {
  import opened Wrappers
  import opened TwosComplement
  import opened Text
  import opened JavaValues

  /** The SQL engines that read and write the tables. */
  datatype Component = Hive | Impala | SparkSql

  /** The thirteen column kinds, in declaration order. */
  datatype Kind =
    | Boolean | Int32 | Int64 | Int96 | Float | Double | Fixed | Binary | Utf8
    | DecimalInInt32 | DecimalInInt64 | DecimalInFixed | DecimalInBinary

  /** ColumnHelper.values(): every kind once, in declaration order. */
  const AllKinds: seq<Kind> := [
    Boolean, Int32, Int64, Int96, Float, Double, Fixed, Binary, Utf8,
    DecimalInInt32, DecimalInInt64, DecimalInFixed, DecimalInBinary
  ]

  /** Enum.ordinal(): the position of a kind in the declaration. */
  function Ordinal(k: Kind): (n: nat)
    ensures n < |AllKinds| && AllKinds[n] == k
  {
    match k
    case Boolean => 0
    case Int32 => 1
    case Int64 => 2
    case Int96 => 3
    case Float => 4
    case Double => 5
    case Fixed => 6
    case Binary => 7
    case Utf8 => 8
    case DecimalInInt32 => 9
    case DecimalInInt64 => 10
    case DecimalInFixed => 11
    case DecimalInBinary => 12
  }

  /** Enum.name(). */
  function Name(k: Kind): (s: string)
    ensures NoLowerCase(s)
  {
    match k
    case Boolean => "BOOLEAN"
    case Int32 => "INT32"
    case Int64 => "INT64"
    case Int96 => "INT96"
    case Float => "FLOAT"
    case Double => "DOUBLE"
    case Fixed => "FIXED"
    case Binary => "BINARY"
    case Utf8 => "UTF8"
    case DecimalInInt32 => "DECIMAL_IN_INT32"
    case DecimalInInt64 => "DECIMAL_IN_INT64"
    case DecimalInFixed => "DECIMAL_IN_FIXED"
    case DecimalInBinary => "DECIMAL_IN_BINARY"
  }

  /** getColumnName: the lower-cased enum name followed by "_col". */
  function ColumnName(k: Kind): string {
    ToLower(Name(k)) + "_col"
  }

  /** The decimal kinds, which carry a precision and a scale. */
  predicate IsDecimal(k: Kind) {
    k.DecimalInInt32? || k.DecimalInInt64? || k.DecimalInFixed? || k.DecimalInBinary?
  }

  /** The precision field of a decimal kind. */
  function Precision(k: Kind): nat
    requires IsDecimal(k)
  {
    match k
    case DecimalInInt32 => 9
    case DecimalInInt64 => 18
    case DecimalInFixed => 18
    case DecimalInBinary => 38
  }

  /** The scale field of a decimal kind. */
  function Scale(k: Kind): nat
    requires IsDecimal(k)
  {
    match k
    case DecimalInInt32 => 2
    case DecimalInInt64 => 4
    case DecimalInFixed => 6
    case DecimalInBinary => 12
  }

  /** getSqlType; the decimal kinds format "DECIMAL(%d,%d)" with their precision and scale. */
  function SqlType(k: Kind): string {
    match k
    case Boolean => "BOOLEAN"
    case Int32 => "INT"
    case Int64 => "BIGINT"
    case Int96 => "TIMESTAMP"
    case Float => "FLOAT"
    case Double => "DOUBLE"
    case Fixed => "STRING"
    case Binary => "STRING"
    case Utf8 => "STRING"
    case _ => "DECIMAL(" + NatText(Precision(k)) + "," + NatText(Scale(k)) + ")"
  }

  /** isSupported: FIXED only by Hive, the INT32/INT64-backed decimals by all but Hive, the rest by all. */
  predicate IsSupported(k: Kind, c: Component) {
    match k
    case Fixed => c == Hive
    case DecimalInInt32 => c != Hive
    case DecimalInInt64 => c != Hive
    case _ => true
  }

  /** getValues: the four representative values, lowest first. */
  function Values(k: Kind): (values: seq<JavaValue>)
    ensures |values| == 4
  {
    match k
    case Boolean => [JBoolean(false), JBoolean(false), JBoolean(true), JBoolean(true)]
    case Int32 => [JInteger(-2147483648), JInteger(-42), JInteger(42), JInteger(2147483647)]
    case Int64 => [JLong(-9223372036854775807), JLong(-42), JLong(42), JLong(9223372036854775806)]
    case Int96 => [
      JDateTime(DateTime(1885, 1, 1, 0, 0, 0, 0)),
      JDateTime(DateTime(1955, 11, 5, 6, 0, 0, 0)),
      JDateTime(DateTime(1985, 10, 26, 1, 22, 0, 0)),
      JDateTime(DateTime(2015, 10, 21, 16, 29, 0, 0))]
    case Float => [
      JFloat(JavaFloat("-3.4028235E38")), JFloat(JavaFloat("-1.4E-45")),
      JFloat(JavaFloat("1.4E-45")), JFloat(JavaFloat("3.4028235E38"))]
    case Double => [
      JDouble(JavaFloat("-1.7976931348623157E308")), JDouble(JavaFloat("-4.9E-324")),
      JDouble(JavaFloat("4.9E-324")), JDouble(JavaFloat("1.7976931348623157E308"))]
    case Fixed => [JString("BMP"), JString("GIF"), JString("JPG"), JString("PNG")]
    case Binary => [JString("Alfa"), JString("Bravo"), JString("Charlie"), JString("Delta")]
    case Utf8 => [JString("Alfa"), JString("Bravo"), JString("Charlie"), JString("Delta")]
    case DecimalInInt32 => [
      JBigDecimal(Decimal(-123456789, 2)), JBigDecimal(Decimal(-42, 0)),
      JBigDecimal(Decimal(42, 0)), JBigDecimal(Decimal(123456789, 2))]
    case DecimalInInt64 => [
      JBigDecimal(Decimal(-123456789123456789, 4)), JBigDecimal(Decimal(-42, 0)),
      JBigDecimal(Decimal(42, 0)), JBigDecimal(Decimal(123456789123456789, 4))]
    case DecimalInFixed => [
      JBigDecimal(Decimal(-123456789123456789, 6)), JBigDecimal(Decimal(-42, 0)),
      JBigDecimal(Decimal(42, 0)), JBigDecimal(Decimal(123456789123456789, 6))]
    case DecimalInBinary => [
      JBigDecimal(Decimal(-12345678901234567890123456789012345678, 12)), JBigDecimal(Decimal(-42, 0)),
      JBigDecimal(Decimal(42, 0)), JBigDecimal(Decimal(12345678901234567890123456789012345678, 12))]
  }

  // ---------------------------------------------------------------------------
  // Schema fragments (getSchema); every field is optional

  /** Parquet primitive types. */
  datatype PrimitiveTypeName =
    | BooleanType | Int32Type | Int64Type | Int96Type | FloatType | DoubleType
    | FixedLenByteArray(length: nat) | BinaryType

  /** Parquet logical annotations (OriginalType). */
  datatype Annotation = NoAnnotation | Utf8Annotation | DecimalAnnotation(precision: nat, scale: nat)

  /** An optional field of a Parquet message. */
  datatype Field = Field(name: string, primitive: PrimitiveTypeName, annotation: Annotation)

  /** getSchema: the optional field of a kind, named by its column name. */
  function Schema(k: Kind): (f: Field)
    ensures f.name == ColumnName(k)
  {
    var p := match k
      case Boolean => BooleanType
      case Int32 => Int32Type
      case Int64 => Int64Type
      case Int96 => Int96Type
      case Float => FloatType
      case Double => DoubleType
      case Fixed => FixedLenByteArray(3)
      case Binary => BinaryType
      case Utf8 => BinaryType
      case DecimalInInt32 => Int32Type
      case DecimalInInt64 => Int64Type
      case DecimalInFixed => FixedLenByteArray(8)
      case DecimalInBinary => BinaryType;
    var a := if IsDecimal(k) then DecimalAnnotation(Precision(k), Scale(k))
             else if k == Utf8 then Utf8Annotation
             else NoAnnotation;
    Field(ColumnName(k), p, a)
  }

  // ---------------------------------------------------------------------------
  // Encoding (valueToFileFormatValue)

  /** What valueToFileFormatValue returns: the value itself, a Parquet Binary, or a NanoTime. */
  datatype Physical =
    | Plain(v: JavaValue)
    | BinaryValue(bytes: seq<Byte>)
    | NanoTime(julianDay: int, timeOfDayNanos: int)

  /**
   * The Julian day number Joda's DateTimeUtils.toJulianDayNumber gives for a DateTime's
   * instant; it depends on the JVM's default time zone, so it is supplied by the caller.
   */
  type Calendar = DateTime -> int

  /**
   * DECIMAL_IN_FIXED's result bytes: the minimal array, and when it is shorter than 8
   * bytes, the same bytes right-aligned in 8 with 0xFF in front for a negative decimal
   * and 0x00 otherwise.
   */
  function PadToEight(minimal: seq<Byte>, negative: bool): seq<Byte> {
    if |minimal| < 8 then Repeat(if negative then 0xFF else 0x00, 8 - |minimal|) + minimal else minimal
  }

  /** DECIMAL_IN_FIXED.valueToFileFormatValue. */
  function EncodeDecimalInFixed(value: JavaValue): Result<Physical> {
    if !value.JBigDecimal? then Err(ClassCastException)
    else
      var scaled := SetScale(value.d, 6);
      if scaled.Err? then Err(scaled.error)
      else Ok(BinaryValue(PadToEight(ToByteArray(scaled.value.unscaled), value.d.unscaled < 0)))
  }

  /** INT96.valueToFileFormatValue: the (int-cast) Julian day and the nanoseconds of the day. */
  function EncodeInt96(value: JavaValue, calendar: Calendar): Result<Physical> {
    if value.JDateTime? then
      Ok(NanoTime(Narrow(calendar(value.t), 4), MillisOfDay(value.t) * 1000000))
    else Err(ClassCastException)
  }

  /** DECIMAL_IN_INT32.valueToFileFormatValue: setScale(2).unscaledValue().intValue(). */
  function EncodeDecimalInInt32(value: JavaValue): Result<Physical> {
    if !value.JBigDecimal? then Err(ClassCastException)
    else
      var scaled := SetScale(value.d, 2);
      if scaled.Err? then Err(scaled.error) else Ok(Plain(JInteger(Narrow(scaled.value.unscaled, 4))))
  }

  /** DECIMAL_IN_INT64.valueToFileFormatValue: setScale(4).unscaledValue().longValue(). */
  function EncodeDecimalInInt64(value: JavaValue): Result<Physical> {
    if !value.JBigDecimal? then Err(ClassCastException)
    else
      var scaled := SetScale(value.d, 4);
      if scaled.Err? then Err(scaled.error) else Ok(Plain(JLong(Narrow(scaled.value.unscaled, 8))))
  }

  /** DECIMAL_IN_BINARY.valueToFileFormatValue: setScale(12).unscaledValue().toByteArray(). */
  function EncodeDecimalInBinary(value: JavaValue): Result<Physical> {
    if !value.JBigDecimal? then Err(ClassCastException)
    else
      var scaled := SetScale(value.d, 12);
      if scaled.Err? then Err(scaled.error) else Ok(BinaryValue(ToByteArray(scaled.value.unscaled)))
  }

  /** valueToFileFormatValue of every kind; the kinds without an override pass the value through. */
  function Encode(k: Kind, value: JavaValue, calendar: Calendar): Result<Physical> {
    match k
    case Int96 => EncodeInt96(value, calendar)
    case Fixed => EncodeString(value)
    case Binary => EncodeString(value)
    case Utf8 => EncodeString(value)
    case DecimalInInt32 => EncodeDecimalInInt32(value)
    case DecimalInInt64 => EncodeDecimalInInt64(value)
    case DecimalInFixed => EncodeDecimalInFixed(value)
    case DecimalInBinary => EncodeDecimalInBinary(value)
    case _ => Ok(Plain(value))
  }

  /** Binary.fromString((String) value): the UTF-8 bytes of a string. */
  function EncodeString(value: JavaValue): Result<Physical> {
    if value.JString? then Ok(BinaryValue(Utf8Bytes(value.s))) else Err(ClassCastException)
  }

  /** System.arraycopy between two distinct arrays: dest[destPos ..] receives src[srcPos ..], length elements. */
  method ArrayCopy(src: array<Byte>, srcPos: nat, dest: array<Byte>, destPos: nat, length: nat)
    requires src != dest
    requires srcPos + length <= src.Length && destPos + length <= dest.Length
    modifies dest
    ensures forall j :: 0 <= j < dest.Length ==>
      dest[j] == if destPos <= j < destPos + length then src[srcPos + j - destPos] else old(dest[j])
  {
    for i := 0 to length
      invariant forall j :: 0 <= j < dest.Length ==>
        dest[j] == if destPos <= j < destPos + i then src[srcPos + j - destPos] else old(dest[j])
    {
      dest[destPos + i] := src[srcPos + i];
    }
  }

  /**
   * DECIMAL_IN_FIXED.valueToFileFormatValue as the code does it: the minimal array is
   * copied into the tail of a zeroed 8-byte buffer and, for a negative decimal, the head
   * is overwritten from the constant's 0xFF-filled minValue buffer.
   */
  method DecimalInFixedToFileFormat(value: JavaValue) returns (r: Result<Physical>)
    ensures r == EncodeDecimalInFixed(value)
  {
    if !value.JBigDecimal? {
      return Err(ClassCastException);
    }
    var decimal := value.d;
    var scaled := SetScale(decimal, 6);
    if scaled.Err? {
      return Err(scaled.error);
    }
    var bytes := ToByteArray(scaled.value.unscaled);
    var buffer := new Byte[|bytes|](i requires 0 <= i < |bytes| => bytes[i]);
    assert buffer[..] == bytes;
    if buffer.Length < 8 {
      var minValue := new Byte[8](_ => 0xFF);
      var dest := new Byte[8](_ => 0);
      ArrayCopy(buffer, 0, dest, dest.Length - buffer.Length, buffer.Length);
      if decimal.unscaled < 0 {
        ArrayCopy(minValue, 0, dest, 0, dest.Length - buffer.Length);
      }
      PaddedBytes(dest[..], bytes, decimal.unscaled < 0);
      buffer := dest;
    }
    r := Ok(BinaryValue(buffer[..]));
  }

  /** Eight bytes that end in the minimal array and start with the sign's fill byte are the padded array. */
  lemma PaddedBytes(dest: seq<Byte>, bytes: seq<Byte>, negative: bool)
    requires |bytes| < 8 && |dest| == 8
    requires forall j :: 0 <= j < 8 ==>
      dest[j] == if j >= 8 - |bytes| then bytes[j - (8 - |bytes|)] else if negative then 0xFF else 0x00
    ensures dest == PadToEight(bytes, negative)
  {
    var padded := PadToEight(bytes, negative);
    assert |padded| == 8;
    forall j | 0 <= j < 8 ensures dest[j] == padded[j] {
      if j < 8 - |bytes| {
        assert padded[j] == Repeat(if negative then 0xFF else 0x00, 8 - |bytes|)[j];
      }
    }
  }

  /** valueToFileFormatValue, dispatched per kind; DECIMAL_IN_FIXED goes through its buffer code. */
  method ValueToFileFormatValue(k: Kind, value: JavaValue, calendar: Calendar) returns (r: Result<Physical>)
    ensures r == Encode(k, value, calendar)
  {
    if k == DecimalInFixed {
      r := DecimalInFixedToFileFormat(value);
    } else {
      r := Encode(k, value, calendar);
    }
  }

  // ---------------------------------------------------------------------------
  // SQL literals

  /** nonNullValueToString: toString, except INT96 which formats "yyyy-MM-dd HH:mm:ss.SSS". */
  function NonNullValueToString(k: Kind, value: JavaValue): Result<string> {
    if k == Int96 then
      if value.JDateTime? then Ok(TimestampText(value.t)) else Err(ClassCastException)
    else Ok(ToString(value))
  }

  /**
   * valueToSqlLiteral: NULL for null; BOOLEAN's bare toString; otherwise
   * CAST('<text>' AS <sql type>), refused when the text holds a quote.
   */
  function ValueToSqlLiteral(k: Kind, value: Option<JavaValue>): Result<string> {
    if value.None? then Ok("NULL")
    else if k == Boolean then Ok(ToString(value.value))
    else
      var text := NonNullValueToString(k, value.value);
      if text.Err? then Err(text.error)
      else if '\'' in text.value then Err(IllegalArgumentException)
      else Ok("CAST('" + text.value + "' AS " + SqlType(k) + ")")
  }

  // ---------------------------------------------------------------------------
  // Properties: names, support, values

  /** Column names are distinct: the lower-cased enum names are, and "_col" is a common suffix. */
  lemma ColumnNamesDistinct(k1: Kind, k2: Kind)
    ensures ColumnName(k1) == ColumnName(k2) <==> k1 == k2
  {
    if ColumnName(k1) == ColumnName(k2) {
      var n1, n2 := Name(k1), Name(k2);
      assert |ToLower(n1)| == |ToLower(n2)|;
      assert ToLower(n1) == ColumnName(k1)[..|n1|];
      assert ToLower(n2) == ColumnName(k2)[..|n2|];
      ToLowerInjective(n1, n2);
    }
  }

  /** No column is named like the id column: a column name is longer than "id". */
  lemma ColumnNameNotId(k: Kind)
    ensures ColumnName(k) != "id"
  {
    assert |ColumnName(k)| == |Name(k)| + 4;
  }

  /** Every engine reads the byte-array backed decimals; the INT-backed ones only the engines other than Hive. */
  lemma DecimalSupport(k: Kind, c: Component)
    requires IsDecimal(k)
    ensures IsSupported(k, c) <==> c != Hive || Schema(k).primitive.FixedLenByteArray? || Schema(k).primitive.BinaryType?
  {
  }

  /** FIXED is the one kind only Hive reads, and every kind some engine reads. */
  lemma SupportByComponent(k: Kind)
    ensures IsSupported(k, Hive) || (IsSupported(k, Impala) && IsSupported(k, SparkSql))
    ensures IsSupported(k, Impala) == IsSupported(k, SparkSql)
    ensures !IsSupported(k, Impala) <==> k == Fixed
  {
  }

  /** The kinds whose values have a defined order in the model (floats are opaque). */
  predicate Ordered(k: Kind) {
    k != Float && k != Double
  }

  /** Four values per kind, non-decreasing, and strictly increasing except BOOLEAN's false, false, true, true. */
  lemma ValuesOrdered(k: Kind, i: nat, j: nat)
    requires i < j < 4 && Ordered(k)
    ensures |Values(k)| == 4
    ensures !Less(Values(k)[j], Values(k)[i])
    ensures k != Boolean ==> Less(Values(k)[i], Values(k)[j])
    ensures k == Boolean ==> (Less(Values(k)[i], Values(k)[j]) <==> i < 2 <= j)
  {
    if IsDecimal(k) {
      DecimalValuesIncrease(k, i, j);
    } else if k.Fixed? || k.Binary? || k.Utf8? {
      StringValuesIncrease(k, i, j);
    }
  }

  /** The representative values of the decimal kinds increase numerically. */
  lemma DecimalValuesIncrease(k: Kind, i: nat, j: nat)
    requires i < j < 4 && IsDecimal(k)
    ensures Less(Values(k)[i], Values(k)[j]) && !Less(Values(k)[j], Values(k)[i])
  {
    Pow10Values();
    var a, s := Values(k)[3].d.unscaled, Values(k)[3].d.scale;
    assert Values(k) == SymmetricDecimals(a, s);
    SymmetricDecimalsIncrease(a, s, i, j);
  }

  /** The shape of every decimal kind's values: -a, -42, 42 and a, with a at scale s. */
  function SymmetricDecimals(a: int, s: nat): seq<JavaValue> {
    [JBigDecimal(Decimal(-a, s)), JBigDecimal(Decimal(-42, 0)), JBigDecimal(Decimal(42, 0)), JBigDecimal(Decimal(a, s))]
  }

  /** -a, -42, 42, a increase when a / 10^s exceeds 42. */
  lemma SymmetricDecimalsIncrease(a: int, s: nat, i: nat, j: nat)
    requires i < j < 4 && a > 42 * Pow10(s)
    ensures Less(SymmetricDecimals(a, s)[i], SymmetricDecimals(a, s)[j])
    ensures !Less(SymmetricDecimals(a, s)[j], SymmetricDecimals(a, s)[i])
  {
  }

  /** The representative values of the string kinds increase lexicographically. */
  lemma StringValuesIncrease(k: Kind, i: nat, j: nat)
    requires i < j < 4 && (k.Fixed? || k.Binary? || k.Utf8?)
    ensures Less(Values(k)[i], Values(k)[j]) && !Less(Values(k)[j], Values(k)[i])
  {
  }

  // ---------------------------------------------------------------------------
  // Properties: decimal encodings

  /** A rescaled value is determined by the decimal and the scale. */
  lemma RepresentsUnique(u: int, v: int, s: nat, d: Decimal)
    requires Represents(u, s, d) && Represents(v, s, d)
    ensures u == v
  {
    CancelFactor(u, v, Pow10(d.scale));
  }

  /** A decimal whose unscaled value has at most p digits fits n two's-complement bytes, for each backing's p and n. */
  lemma PrecisionFits(u: int, p: nat, n: nat)
    requires (p, n) in {(9, 4), (18, 8), (38, 16)}
    requires WithinPrecision(u, p)
    ensures Fits(u, n)
  {
    Pow10Values();
    if p == 9 {
      assert Pow256(4) == 4294967296;
    } else if p == 18 {
      assert Pow256(8) == 18446744073709551616;
    } else {
      assert Pow256(16) == 340282366920938463463374607431768211456;
    }
  }

  /** setScale fails exactly when no unscaled value represents the decimal at the new scale; otherwise it yields that value. */
  lemma SetScaleExact(d: Decimal, s: nat, u: int)
    requires Represents(u, s, d)
    ensures SetScale(d, s) == Ok(Decimal(u, s))
  {
    var r := SetScale(d, s);
    RepresentsUnique(r.value.unscaled, u, s, d);
  }

  /**
   * DECIMAL_IN_INT32: the unscaled value at scale 2 narrowed to 32 bits, which keeps it
   * unchanged when it has at most 9 digits.
   */
  lemma DecimalInInt32Encoding(d: Decimal, u: int, calendar: Calendar)
    requires Represents(u, 2, d)
    ensures Encode(DecimalInInt32, JBigDecimal(d), calendar) == Ok(Plain(JInteger(Narrow(u, 4))))
    ensures WithinPrecision(u, 9) ==> Narrow(u, 4) == u
  {
    SetScaleExact(d, 2, u);
    if WithinPrecision(u, 9) {
      PrecisionFits(u, 9, 4);
      NarrowKeepsFitting(u, 4);
    }
  }

  /**
   * DECIMAL_IN_INT64: the unscaled value at scale 4 narrowed to 64 bits, which keeps it
   * unchanged when it has at most 18 digits.
   */
  lemma DecimalInInt64Encoding(d: Decimal, u: int, calendar: Calendar)
    requires Represents(u, 4, d)
    ensures Encode(DecimalInInt64, JBigDecimal(d), calendar) == Ok(Plain(JLong(Narrow(u, 8))))
    ensures WithinPrecision(u, 18) ==> Narrow(u, 8) == u
  {
    SetScaleExact(d, 4, u);
    if WithinPrecision(u, 18) {
      PrecisionFits(u, 18, 8);
      NarrowKeepsFitting(u, 8);
    }
  }

  /** Every decimal encoder fails, with ArithmeticException, exactly when rescaling would lose digits. */
  lemma DecimalEncodingFails(k: Kind, d: Decimal, calendar: Calendar)
    requires IsDecimal(k)
    ensures Encode(k, JBigDecimal(d), calendar).Err? <==> forall u :: !Represents(u, Scale(k), d)
    ensures Encode(k, JBigDecimal(d), calendar).Err? ==> Encode(k, JBigDecimal(d), calendar).error == ArithmeticException
  {
    if Encode(k, JBigDecimal(d), calendar).Ok? {
      assert Represents(SetScale(d, Scale(k)).value.unscaled, Scale(k), d);
    }
  }

  /**
   * The padding of DECIMAL_IN_FIXED is a sign extension: a short minimal array is
   * right-aligned in 8 bytes behind copies of its sign byte, and a long one kept as it is.
   */
  lemma PadToEightSignExtends(u: int)
    ensures var bs := PadToEight(ToByteArray(u), u < 0);
      bs == if |ToByteArray(u)| < 8 then Repeat(SignPad(ToByteArray(u)), 8 - |ToByteArray(u)|) + ToByteArray(u)
            else ToByteArray(u)
  {
    ToByteArrayCorrect(u);
  }

  /**
   * DECIMAL_IN_FIXED's padding keeps the value: the padded bytes read back as u, are
   * exactly 8 when u fits 64 bits, and are the minimal array itself otherwise.
   */
  lemma PadToEightRoundTrip(u: int)
    ensures Signed(PadToEight(ToByteArray(u), u < 0)) == u
    ensures Fits(u, 8) ==> |PadToEight(ToByteArray(u), u < 0)| == 8
    ensures !Fits(u, 8) ==> PadToEight(ToByteArray(u), u < 0) == ToByteArray(u)
  {
    PadToEightSignExtends(u);
    ToByteArrayCorrect(u);
    var a := ToByteArray(u);
    if |a| < 8 {
      SignExtend(a, 8 - |a|);
      SignedRange(a);
      FitsWider(u, |a|, 8);
    }
  }

  /**
   * DECIMAL_IN_FIXED: the result reads back, as a signed big-endian integer, as the
   * unscaled value at scale 6; it has exactly 8 bytes when that value fits 64 bits
   * (in particular within precision 18), and is the untruncated minimal array otherwise.
   */
  lemma DecimalInFixedRoundTrip(d: Decimal, u: int, calendar: Calendar)
    requires Represents(u, 6, d)
    ensures var r := Encode(DecimalInFixed, JBigDecimal(d), calendar);
      && r.Ok? && r.value.BinaryValue?
      && Signed(r.value.bytes) == u
      && (Fits(u, 8) ==> |r.value.bytes| == 8)
      && (!Fits(u, 8) ==> r.value.bytes == ToByteArray(u))
      && (WithinPrecision(u, 18) ==> |r.value.bytes| == 8)
  {
    SetScaleExact(d, 6, u);
    RepresentsSign(u, 6, d);
    assert Encode(DecimalInFixed, JBigDecimal(d), calendar) == Ok(BinaryValue(PadToEight(ToByteArray(u), u < 0)));
    PadToEightRoundTrip(u);
    if WithinPrecision(u, 18) {
      PrecisionFits(u, 18, 8);
    }
  }

  /** Fitting in fewer bytes implies fitting in more. */
  lemma FitsWider(x: int, m: nat, n: nat)
    requires Fits(x, m) && m <= n
    ensures Fits(x, n)
    decreases n - m
  {
    if m < n {
      FitsWider(x, m, n - 1);
      assert Pow256(n) == 256 * Pow256(n - 1);
    }
  }

  /**
   * The head bytes DECIMAL_IN_FIXED writes: when the minimal array is shorter than 8
   * bytes, the result is 8 bytes, ends with that array and starts with 0xFF for a
   * negative value and 0x00 otherwise.
   */
  lemma DecimalInFixedLayout(d: Decimal, u: int, calendar: Calendar)
    requires Represents(u, 6, d)
    requires |ToByteArray(u)| < 8
    ensures var r := Encode(DecimalInFixed, JBigDecimal(d), calendar);
      && r.Ok? && r.value.BinaryValue? && |r.value.bytes| == 8
      && r.value.bytes[8 - |ToByteArray(u)|..] == ToByteArray(u)
      && forall i :: 0 <= i < 8 - |ToByteArray(u)| ==> r.value.bytes[i] == (if d.unscaled < 0 then 0xFF else 0x00)
  {
    SetScaleExact(d, 6, u);
    RepresentsSign(u, 6, d);
  }

  /** -42 at scale 6 is -42000000, whose minimal array FD 7F 21 80 gets four 0xFF bytes in front. */
  lemma DecimalInFixedExample(calendar: Calendar)
    ensures Encode(DecimalInFixed, JBigDecimal(Decimal(-42, 0)), calendar)
         == Ok(BinaryValue([0xFF, 0xFF, 0xFF, 0xFF, 0xFD, 0x7F, 0x21, 0x80]))
  {
    assert Represents(-42000000, 6, Decimal(-42, 0));
    SetScaleExact(Decimal(-42, 0), 6, -42000000);
    assert ByteLength(-3) == 1;
    assert ByteLength(-641) == 2;
    assert ByteLength(-164063) == 3;
    assert ByteLength(-42000000) == 4;
    assert BytesOf(-3, 1) == [0xFD];
    assert BytesOf(-641, 2) == [0xFD, 0x7F];
    assert BytesOf(-164063, 3) == [0xFD, 0x7F, 0x21];
    assert ToByteArray(-42000000) == [0xFD, 0x7F, 0x21, 0x80];
    assert Repeat(0xFF, 4) == [0xFF, 0xFF, 0xFF, 0xFF];
    assert PadToEight(ToByteArray(-42000000), true) == [0xFF, 0xFF, 0xFF, 0xFF, 0xFD, 0x7F, 0x21, 0x80];
    assert EncodeDecimalInFixed(JBigDecimal(Decimal(-42, 0))) == Ok(BinaryValue(PadToEight(ToByteArray(-42000000), true)));
  }

  /**
   * DECIMAL_IN_BINARY: the minimal two's-complement bytes of the unscaled value at scale
   * 12, which read back as that value; within precision 38 they are at most 16 bytes.
   */
  lemma DecimalInBinaryRoundTrip(d: Decimal, u: int, calendar: Calendar)
    requires Represents(u, 12, d)
    ensures var r := Encode(DecimalInBinary, JBigDecimal(d), calendar);
      && r == Ok(BinaryValue(ToByteArray(u)))
      && Signed(r.value.bytes) == u
      && (forall n :: Fits(u, n) ==> |r.value.bytes| <= n)
      && (WithinPrecision(u, 38) ==> |r.value.bytes| <= 16)
  {
    BinaryEncodingOf(d, u, calendar);
    MinimalBytes(u);
  }

  /** DECIMAL_IN_BINARY stores the minimal two's-complement bytes of the rescaled unscaled value. */
  lemma BinaryEncodingOf(d: Decimal, u: int, calendar: Calendar)
    requires Represents(u, 12, d)
    ensures Encode(DecimalInBinary, JBigDecimal(d), calendar) == Ok(BinaryValue(ToByteArray(u)))
  {
    SetScaleExact(d, 12, u);
  }

  /** toByteArray of an unscaled value of at most 38 digits takes at most 16 bytes, and reads back. */
  lemma MinimalBytes(u: int)
    ensures Signed(ToByteArray(u)) == u
    ensures forall n :: Fits(u, n) ==> |ToByteArray(u)| <= n
    ensures WithinPrecision(u, 38) ==> |ToByteArray(u)| <= 16
  {
    ToByteArrayCorrect(u);
    if WithinPrecision(u, 38) {
      PrecisionFits(u, 38, 16);
    }
  }

  /** Each representative decimal rescales exactly and stays within its column's precision. */
  lemma RepresentativeDecimalsFit(k: Kind, i: nat)
    requires IsDecimal(k) && i < 4
    ensures Values(k)[i].JBigDecimal?
    ensures SetScale(Values(k)[i].d, Scale(k)).Ok?
    ensures WithinPrecision(SetScale(Values(k)[i].d, Scale(k)).value.unscaled, Precision(k))
  {
    match k
    case DecimalInInt32 => DecimalsFitStep(k, i);
    case DecimalInInt64 => DecimalsFitStep(k, i);
    case DecimalInFixed => DecimalsFitStep(k, i);
    case DecimalInBinary => DecimalsFitStep(k, i);
  }

  /** A step of RepresentativeDecimalsFit only: the same facts, split off so that each decimal kind is proved on its own. */
  lemma DecimalsFitStep(k: Kind, i: nat)
    requires IsDecimal(k) && i < 4
    ensures Values(k)[i].JBigDecimal?
    ensures SetScale(Values(k)[i].d, Scale(k)).Ok?
    ensures WithinPrecision(SetScale(Values(k)[i].d, Scale(k)).value.unscaled, Precision(k))
  {
    var d := Values(k)[i].d;
    assert d.scale <= Scale(k);
    Pow10Values();
    assert SetScale(d, Scale(k)).value.unscaled == d.unscaled * Pow10(Scale(k) - d.scale);
  }

  /** The examples of DECIMAL_IN_INT32: -1234567.89 is stored as -123456789 and -42 as -4200, with no wrap-around. */
  lemma DecimalInInt32Example(calendar: Calendar)
    ensures Encode(DecimalInInt32, Values(DecimalInInt32)[0], calendar) == Ok(Plain(JInteger(-123456789)))
    ensures Encode(DecimalInInt32, Values(DecimalInInt32)[1], calendar) == Ok(Plain(JInteger(-4200)))
  {
    assert WithinPrecision(-123456789, 9) && WithinPrecision(-4200, 9);
    DecimalInInt32Encoding(Decimal(-123456789, 2), -123456789, calendar);
    DecimalInInt32Encoding(Decimal(-42, 0), -4200, calendar);
  }

  // ---------------------------------------------------------------------------
  // Properties: encoder errors and schema conformance

  /** The class a kind's encoder casts its value to; the kinds without an override cast nothing. */
  predicate AcceptsClass(k: Kind, value: JavaValue) {
    match k
    case Int96 => value.JDateTime?
    case Fixed => value.JString?
    case Binary => value.JString?
    case Utf8 => value.JString?
    case _ => IsDecimal(k) ==> value.JBigDecimal?
  }

  /** The Java class of a kind's values: the type argument of its TestValues. */
  predicate OfKindClass(k: Kind, value: JavaValue) {
    match k
    case Boolean => value.JBoolean?
    case Int32 => value.JInteger?
    case Int64 => value.JLong?
    case Int96 => value.JDateTime?
    case Float => value.JFloat?
    case Double => value.JDouble?
    case Fixed => value.JString?
    case Binary => value.JString?
    case Utf8 => value.JString?
    case _ => value.JBigDecimal?
  }

  /** The representative values have their kind's class, and every encoder accepts that class. */
  lemma ValuesOfKindClass(k: Kind, i: nat, value: JavaValue)
    requires i < 4
    ensures OfKindClass(k, Values(k)[i])
    ensures OfKindClass(k, value) ==> AcceptsClass(k, value)
  {
  }

  /**
   * The encoder fails with ClassCastException exactly on a value of the wrong class, and
   * otherwise only for a decimal that cannot be rescaled (ArithmeticException).
   */
  lemma EncodeErrors(k: Kind, value: JavaValue, calendar: Calendar)
    ensures Encode(k, value, calendar) == Err(ClassCastException) <==> !AcceptsClass(k, value)
    ensures Encode(k, value, calendar) == Err(ArithmeticException) <==>
      IsDecimal(k) && value.JBigDecimal? && forall u :: !Represents(u, Scale(k), value.d)
    ensures Encode(k, value, calendar).Err? ==>
      Encode(k, value, calendar).error in {ClassCastException, ArithmeticException}
  {
    if IsDecimal(k) && value.JBigDecimal? {
      DecimalEncodingFails(k, value.d, calendar);
    }
  }

  /**
   * INT96: the Julian day, cast to int, and the nanoseconds of the day, a whole number of
   * milliseconds below 86,400 * 10^9 for a valid date-time.
   */
  lemma Int96Encoding(t: DateTime, calendar: Calendar)
    requires ValidDateTime(t)
    ensures var r := Encode(Int96, JDateTime(t), calendar);
      && r.Ok? && r.value.NanoTime?
      && Fits(r.value.julianDay, 4)
      && (Fits(calendar(t), 4) ==> r.value.julianDay == calendar(t))
      && 0 <= r.value.timeOfDayNanos < 86400000000000
      && r.value.timeOfDayNanos % 1000000 == 0
      && r.value.timeOfDayNanos / 1000000 == MillisOfDay(t)
  {
    NarrowFits(calendar(t), 4);
    if Fits(calendar(t), 4) {
      NarrowKeepsFitting(calendar(t), 4);
    }
    MillisOfDayBound(t);
  }

  /** The physical value matches the field: its Java class, integer width or byte-array length. */
  predicate Conforms(p: Physical, f: Field) {
    match f.primitive
    case BooleanType => p.Plain? && p.v.JBoolean?
    case Int32Type => p.Plain? && p.v.JInteger? && Fits(p.v.i, 4)
    case Int64Type => p.Plain? && p.v.JLong? && Fits(p.v.l, 8)
    case Int96Type => p.NanoTime? && Fits(p.julianDay, 4) && 0 <= p.timeOfDayNanos < 86400000000000
    case FloatType => p.Plain? && p.v.JFloat?
    case DoubleType => p.Plain? && p.v.JDouble?
    case FixedLenByteArray(n) => p.BinaryValue? && |p.bytes| == n
    case BinaryType => p.BinaryValue?
  }

  /** How a reader takes a DECIMAL field: the physical integer as the unscaled value at the annotated scale. */
  function DecodeDecimal(p: Physical, f: Field): Option<Decimal> {
    if !f.annotation.DecimalAnnotation? then None
    else match p
      case Plain(JInteger(i)) => Some(Decimal(i, f.annotation.scale))
      case Plain(JLong(l)) => Some(Decimal(l, f.annotation.scale))
      case BinaryValue(bs) => Some(Decimal(Signed(bs), f.annotation.scale))
      case _ => None
  }

  /**
   * Round trip through the file format for every decimal kind: a decimal that rescales
   * to at most the column's precision in digits is encoded into a value matching the
   * column's field, and a reader decoding it with the field's annotation gets back the
   * same number.
   */
  lemma DecimalColumnRoundTrip(k: Kind, d: Decimal, u: int, calendar: Calendar)
    requires IsDecimal(k)
    requires Represents(u, Scale(k), d) && WithinPrecision(u, Precision(k))
    ensures Encode(k, JBigDecimal(d), calendar).Ok?
    ensures Conforms(Encode(k, JBigDecimal(d), calendar).value, Schema(k))
    ensures DecodeDecimal(Encode(k, JBigDecimal(d), calendar).value, Schema(k)) == Some(Decimal(u, Scale(k)))
  {
    match k
    case DecimalInInt32 =>
      DecimalInInt32Encoding(d, u, calendar);
      PrecisionFits(u, 9, 4);
    case DecimalInInt64 =>
      DecimalInInt64Encoding(d, u, calendar);
      PrecisionFits(u, 18, 8);
    case DecimalInFixed =>
      DecimalInFixedRoundTrip(d, u, calendar);
    case DecimalInBinary =>
      DecimalInBinaryRoundTrip(d, u, calendar);
  }

  /** Every representative value encodes without error into a value matching its kind's field. */
  lemma RepresentativeValuesConform(k: Kind, i: nat, calendar: Calendar)
    requires i < 4
    ensures Encode(k, Values(k)[i], calendar).Ok?
    ensures Conforms(Encode(k, Values(k)[i], calendar).value, Schema(k))
  {
    if IsDecimal(k) {
      RepresentativeDecimalsFit(k, i);
      var d := Values(k)[i].d;
      DecimalColumnRoundTrip(k, d, SetScale(d, Scale(k)).value.unscaled, calendar);
    } else if k == Int96 {
      Int96Encoding(Values(k)[i].t, calendar);
    } else if k == Fixed {
      Utf8Ascii(Values(k)[i].s);
    } else if k == Int32 {
      assert Pow256(4) == 4294967296;
    } else if k == Int64 {
      assert Pow256(8) == 18446744073709551616;
    }
  }

  // ---------------------------------------------------------------------------
  // Properties: SQL literals

  /** Reads the text back out of a CAST('<text>' AS <sqlType>) literal whose text holds no quote. */
  function UnCast(literal: string, sqlType: string): Option<string> {
    var prefix := "CAST('";
    var suffix := "' AS " + sqlType + ")";
    if |literal| >= |prefix| + |suffix| && literal[..|prefix|] == prefix
       && literal[|literal| - |suffix|..] == suffix && '\'' !in literal[|prefix|..|literal| - |suffix|]
    then Some(literal[|prefix|..|literal| - |suffix|])
    else None
  }

  /**
   * The default literal renderer: a null renders as NULL; the CAST literal carries the
   * value's text, which reads back out of it; it fails with IllegalArgumentException
   * exactly when the text holds a quote, and with ClassCastException exactly when INT96
   * gets no DateTime.
   */
  lemma SqlLiteralRoundTrip(k: Kind, value: JavaValue)
    requires k != Boolean
    ensures ValueToSqlLiteral(k, None) == Ok("NULL")
    ensures var r := ValueToSqlLiteral(k, Some(value));
      r.Ok? ==> NonNullValueToString(k, value).Ok? && UnCast(r.value, SqlType(k)) == Some(NonNullValueToString(k, value).value)
    ensures ValueToSqlLiteral(k, Some(value)) == Err(IllegalArgumentException) <==>
      NonNullValueToString(k, value).Ok? && '\'' in NonNullValueToString(k, value).value
    ensures ValueToSqlLiteral(k, Some(value)) == Err(ClassCastException) <==> k == Int96 && !value.JDateTime?
  {
    var text := NonNullValueToString(k, value);
    if text.Ok? && '\'' !in text.value {
      UnCastCast(text.value, SqlType(k));
    }
  }

  /** UnCast takes a quote-free text back out of the CAST it was wrapped in. */
  lemma UnCastCast(text: string, sqlType: string)
    requires '\'' !in text
    ensures UnCast("CAST('" + text + "' AS " + sqlType + ")", sqlType) == Some(text)
  {
    var suffix := "' AS " + sqlType + ")";
    var literal := "CAST('" + text + suffix;
    assert literal == "CAST('" + text + "' AS " + sqlType + ")";
    assert |literal| >= 6 + |suffix|;
    assert literal[..6] == "CAST('";
    assert literal[|literal| - |suffix|..] == suffix;
    assert literal[6..|literal| - |suffix|] == text;
  }

  /**
   * A null renders as NULL for every kind, while a non-null value of the kind's class never
   * does, so the IS / IS NOT NULL queries stay apart from the value queries. BOOLEAN renders
   * any non-null value as its bare toString: no CAST, no quote check, no failure.
   */
  lemma SqlLiteralNotNull(k: Kind, value: JavaValue)
    ensures ValueToSqlLiteral(k, None) == Ok("NULL")
    ensures (k != Boolean || OfKindClass(k, value)) && ValueToSqlLiteral(k, Some(value)).Ok? ==>
      ValueToSqlLiteral(k, Some(value)).value != "NULL"
    ensures k == Boolean ==> ValueToSqlLiteral(k, Some(value)) == Ok(ToString(value))
    ensures k == Boolean && OfKindClass(k, value) ==> ValueToSqlLiteral(k, Some(value)) == Ok(if value.b then "true" else "false")
  {
    if k != Boolean && ValueToSqlLiteral(k, Some(value)).Ok? {
      assert ValueToSqlLiteral(k, Some(value)).value[0] == 'C';
    }
  }

  /** A boolean, integer, decimal or date-time of its kind's class renders without error. */
  lemma NumericLiteralRenders(k: Kind, value: JavaValue)
    requires OfKindClass(k, value) && !value.JString? && !value.JFloat? && !value.JDouble?
    ensures ValueToSqlLiteral(k, Some(value)).Ok?
  {
    match value
    case JInteger(n) => IntTextChars(n);
    case JLong(n) => IntTextChars(n);
    case JBigDecimal(d) => DecimalTextHasNoQuote(d);
    case JDateTime(t) => TimestampTextHasNoQuote(t);
    case JBoolean(_) =>
  }

  /** Every representative literal renders without error. */
  lemma RepresentativeLiterals(k: Kind, i: nat)
    requires i < 4
    ensures ValueToSqlLiteral(k, Some(Values(k)[i])).Ok?
  {
    if k in {Fixed, Binary, Utf8, Float, Double} {
      TextLiteralsRender(k, i);
    } else {
      NumericLiteralRenders(k, Values(k)[i]);
    }
  }

  /** The string and floating-point representative texts hold no quote. */
  lemma TextLiteralsRender(k: Kind, i: nat)
    requires i < 4 && k in {Fixed, Binary, Utf8, Float, Double}
    ensures ValueToSqlLiteral(k, Some(Values(k)[i])).Ok?
  {
    RepresentativeTextsQuoteFree(k, i);
    QuoteFreeTextRenders(k, Values(k)[i]);
  }

  /** The toString texts of the string and floating-point representative values hold no quote. */
  lemma RepresentativeTextsQuoteFree(k: Kind, i: nat)
    requires i < 4 && k in {Fixed, Binary, Utf8, Float, Double}
    ensures '\'' !in ToString(Values(k)[i])
  {
    if k == Fixed || k == Binary || k == Utf8 {
      StringTextsQuoteFree(k, i);
    } else if k == Float {
      FloatTextsQuoteFree(i);
      assert ToString(Values(k)[i]) == Values(k)[i].f.text;
    } else {
      DoubleTextsQuoteFree(i);
      assert ToString(Values(k)[i]) == Values(k)[i].g.text;
    }
  }

  /** The representative strings hold no quote. */
  lemma StringTextsQuoteFree(k: Kind, i: nat)
    requires i < 4 && (k == Fixed || k == Binary || k == Utf8)
    ensures '\'' !in ToString(Values(k)[i])
  {
  }

  /** The texts of the representative floats hold no quote. */
  lemma FloatTextsQuoteFree(i: nat)
    requires i < 4
    ensures Values(Float)[i].JFloat? && '\'' !in Values(Float)[i].f.text
  {
    var texts := ["-3.4028235E38", "-1.4E-45", "1.4E-45", "3.4028235E38"];
    assert Values(Float)[i].f.text == texts[i];
  }

  /** The texts of the representative doubles hold no quote. */
  lemma DoubleTextsQuoteFree(i: nat)
    requires i < 4
    ensures Values(Double)[i].JDouble? && '\'' !in Values(Double)[i].g.text
  {
    var texts := ["-1.7976931348623157E308", "-4.9E-324", "4.9E-324", "1.7976931348623157E308"];
    assert Values(Double)[i].g.text == texts[i];
  }

  /** Outside INT96, a value whose toString holds no quote renders without error. */
  lemma QuoteFreeTextRenders(k: Kind, value: JavaValue)
    requires k != Int96 && '\'' !in ToString(value)
    ensures ValueToSqlLiteral(k, Some(value)).Ok?
  {
  }
}
