# Parquet column-index filtering interop test, modelled in Dafny

This project models the core of an interop test for Parquet column indexes.
A writing engine (Hive, Impala or SparkSQL) creates a table over three Parquet files of boundary values.
A reading engine then runs each filter query twice, with predicate pushdown off and on.
The test demands that both runs render to the same text.

The model has two parts, following the two source files.

- `ColumnHelper` (ColumnHelper.java) covers the thirteen column kinds. Per kind it gives:
  - the column name and the SQL type;
  - the Parquet field;
  - the support rule per reading engine;
  - four representative values;
  - `valueToFileFormatValue`, the encoder to the value the Parquet writer takes. For the decimals this is a rescale, then either narrowing to 32 or 64 bits or the minimal two's-complement bytes. DECIMAL_IN_FIXED sign-extends those bytes to 8, and is also modelled imperatively, on arrays, as the code does it;
  - the SQL literal renderer.
- `ColumnIndexFiltering` (ColumnIndexFiltering.java) covers the rest of the test:
  - the constructor's filter of the supported kinds;
  - the three-file dataset and its transposition to rows;
  - the Parquet groups built from the rows (a `SimpleGroup` class whose `Add` appends to a field) and the records of the written files;
  - the schema and the `CREATE EXTERNAL TABLE` text;
  - the rendering and comparison of query results;
  - the queries `testFiltering` issues;
  - the table cache, as a `TableRegistry` class holding the cached tables, the executed DDL and the written files.

The loops of the source are methods with invariants:
- the filter, the dataset generator and the transposition;
- the group construction and the file writing;
- the two StringJoiners and the DDL StringBuilder;
- the query loop of `testFiltering`.

Each such method is proved equal to a function on values, and the properties are lemmas about those functions.

Four helper modules model the Java library behaviour the code relies on:
- `TwosComplement`: `BigInteger.toByteArray`, `intValue` and `longValue`;
- `JavaValues`: `BigDecimal.setScale`, `toString`, Joda `DateTime` fields and formatting;
- `Text`: `StringJoiner`, decimal digits, `toLowerCase` and `String.getBytes` as UTF-8;
- `Wrappers`: `Option`, `Result` and the Java exceptions.

`Sequences` holds two prefix facts shared by the loops.

Java exceptions are `Err` results. A cast of the wrong class is `ClassCastException`. A rescale that would round is `ArithmeticException`. A text with a quote is `IllegalArgumentException`. A missing list element is `IndexOutOfBoundsException`. A failed `assertEquals` is `AssertionError`.

## Model

| member | source | states |
|---|---|---|
| ColumnHelper.Ordinal | ColumnIndexFiltering.java:89 | each kind sits in `values()` at its ordinal, so the thirteen kinds are listed once each |
| ColumnHelper.Name | ColumnHelper.java:395-396 | an enum constant's name has no lower-case letter, so lower-casing it loses nothing |
| ColumnHelper.Values | ColumnHelper.java:388-392 | every kind has exactly four representative values |
| ColumnHelper.Schema | ColumnHelper.java:30-32 | every kind's optional field is named by that kind's column name |
| ColumnHelper.ArrayCopy | ColumnHelper.java:334 | `System.arraycopy` between distinct arrays: the destination window receives the source run and every other byte keeps its old value |
| ColumnHelper.DecimalInFixedToFileFormat | ColumnHelper.java:329-343 | the buffer code (zeroed 8-byte array, tail copy, head overwritten from the 0xFF `minValue` when the decimal is negative) yields exactly the padded minimal array, the wrong-class error and the rescale error |
| ColumnHelper.PaddedBytes | ColumnHelper.java:332-341 | eight bytes that end in the minimal array and start with the sign's fill byte are the sign-extended array |
| ColumnHelper.ValueToFileFormatValue | ColumnHelper.java:403-405 | the per-kind dispatch, DECIMAL_IN_FIXED through its buffer code, agrees with the encoder every property below is stated on |
| ColumnHelper.ColumnNamesDistinct | ColumnHelper.java:395-397 | two kinds have the same column name if and only if they are the same kind |
| ColumnHelper.ColumnNameNotId | ColumnHelper.java:395-397 | no column name clashes with the `id` column |
| ColumnHelper.DecimalSupport | ColumnHelper.java:249-251 | a decimal kind is readable by an engine exactly when the engine is not Hive or the kind is byte-array backed |
| ColumnHelper.SupportByComponent | ColumnHelper.java:171-173 | FIXED is the one kind Impala and SparkSQL cannot read; Impala and SparkSQL support the same kinds; every kind is read by some engine |
| ColumnHelper.ValuesOrdered | ColumnHelper.java:388-392 | the four values of every ordered kind never decrease, increase strictly except for BOOLEAN, and BOOLEAN's only increases are from false to true |
| ColumnHelper.DecimalValuesIncrease | ColumnHelper.java:259-265 | the decimal values increase numerically, regardless of their scales |
| ColumnHelper.SymmetricDecimalsIncrease | ColumnHelper.java:296-302 | -a, -42, 42, a increase when a / 10^s exceeds 42 |
| ColumnHelper.StringValuesIncrease | ColumnHelper.java:181-183 | the string values increase lexicographically |
| ColumnHelper.RepresentsUnique | ColumnHelper.java:255 | at a given scale at most one unscaled value denotes a decimal |
| ColumnHelper.PrecisionFits | ColumnHelper.java:231-232 | 9, 18 and 38 digits fit 4, 8 and 16 two's-complement bytes |
| ColumnHelper.SetScaleExact | ColumnHelper.java:255 | `setScale` yields the unique unscaled value that represents the decimal at the new scale |
| ColumnHelper.DecimalInInt32Encoding | ColumnHelper.java:254-256 | DECIMAL_IN_INT32 stores the unscaled value at scale 2, narrowed to 32 bits, which leaves a value of at most 9 digits unchanged |
| ColumnHelper.DecimalInInt64Encoding | ColumnHelper.java:291-293 | DECIMAL_IN_INT64 stores the unscaled value at scale 4, narrowed to 64 bits, which leaves a value of at most 18 digits unchanged |
| ColumnHelper.DecimalEncodingFails | ColumnHelper.java:329-331 | a decimal encoder fails exactly when no unscaled value represents the decimal at the kind's scale, and then with ArithmeticException |
| ColumnHelper.PadToEightSignExtends | ColumnHelper.java:332-341 | the padding bytes are copies of the minimal array's sign byte (0xFF for a negative value, 0x00 otherwise) |
| ColumnHelper.PadToEightRoundTrip | ColumnHelper.java:330-342 | the padded bytes read back as the unscaled value; they are exactly 8 when it fits 64 bits, and the untruncated minimal array otherwise |
| ColumnHelper.DecimalInFixedRoundTrip | ColumnHelper.java:329-343 | DECIMAL_IN_FIXED's bytes decode, as a signed big-endian integer, to the unscaled value at scale 6; within precision 18 they are exactly 8 bytes; a longer minimal array is returned unchanged |
| ColumnHelper.DecimalInFixedLayout | ColumnHelper.java:332-341 | when the minimal array is shorter than 8 bytes, the result has 8 bytes, ends with that array and starts with 0xFF for a negative decimal and 0x00 otherwise |
| ColumnHelper.DecimalInFixedExample | ColumnHelper.java:329-343 | -42 at scale 6 is stored as FF FF FF FF FD 7F 21 80 |
| ColumnHelper.DecimalInBinaryRoundTrip | ColumnHelper.java:373-376 | DECIMAL_IN_BINARY stores the minimal two's-complement bytes of the unscaled value at scale 12; they decode to that value, are no longer than any width that holds it, and are at most 16 bytes within precision 38 |
| ColumnHelper.BinaryEncodingOf | ColumnHelper.java:373-376 | DECIMAL_IN_BINARY's result is `toByteArray` of the unscaled value at scale 12 |
| ColumnHelper.MinimalBytes | ColumnHelper.java:375 | `toByteArray` reads back, is minimal, and takes at most 16 bytes for 38 digits |
| ColumnHelper.RepresentativeDecimalsFit | ColumnHelper.java:259-265 | every representative decimal rescales exactly to its kind's scale and stays within its kind's precision |
| ColumnHelper.DecimalInInt32Example | ColumnHelper.java:261-262 | -1234567.89 is stored as -123456789 and -42 as -4200, with no wrap-around |
| ColumnHelper.ValuesOfKindClass | ColumnHelper.java:51-53 | the representative values have their kind's Java class, and each encoder accepts that class |
| ColumnHelper.EncodeErrors | ColumnHelper.java:253-256 | an encoder throws ClassCastException exactly on a value of the wrong class, throws ArithmeticException exactly for a decimal that cannot be rescaled, and throws nothing else |
| ColumnHelper.Int96Encoding | ColumnHelper.java:103-107 | INT96 stores the Julian day cast to int (unchanged when it fits) and the nanoseconds of the day, a whole number of milliseconds below one day |
| ColumnHelper.DecimalColumnRoundTrip | ColumnHelper.java:235-240 | for every decimal kind, a decimal within the column's precision encodes to a value matching the field, and a reader applying the field's decimal annotation gets the same number back |
| ColumnHelper.RepresentativeValuesConform | ColumnHelper.java:329-352 | every representative value of every kind encodes without error into a value matching that kind's field: class, integer width and byte length |
| ColumnHelper.SqlLiteralRoundTrip | ColumnHelper.java:411-420 | a null renders as `NULL`; otherwise the CAST literal carries the value's text, which reads back out of it; it fails with IllegalArgumentException exactly when the text holds a quote, and with ClassCastException exactly when INT96 gets no DateTime |
| ColumnHelper.UnCastCast | ColumnHelper.java:419 | a quote-free text reads back out of the `CAST('%s' AS %s)` it was formatted into |
| ColumnHelper.SqlLiteralNotNull | ColumnHelper.java:43-48 | a null renders as `NULL` for every kind; a non-null value of the kind's class never renders as `NULL`; BOOLEAN renders any non-null value as its bare `toString`, with no CAST, no quote check and no failure, which for a Boolean is `true` or `false` |
| ColumnHelper.NumericLiteralRenders | ColumnHelper.java:411-420 | booleans, integers, decimals and date-times of the kind's class always render |
| ColumnHelper.RepresentativeLiterals | ColumnIndexFiltering.java:312-314 | every representative value of every kind renders to a literal |
| ColumnHelper.TextLiteralsRender | ColumnHelper.java:415-419 | the string and floating-point representative values render |
| ColumnHelper.RepresentativeTextsQuoteFree | ColumnHelper.java:415-416 | the toString texts of the string and floating-point representative values hold no quote |
| ColumnHelper.StringTextsQuoteFree | ColumnHelper.java:181-183 | the representative strings hold no quote |
| ColumnHelper.FloatTextsQuoteFree | ColumnHelper.java:137-139 | the representative float texts hold no quote |
| ColumnHelper.DoubleTextsQuoteFree | ColumnHelper.java:154-156 | the representative double texts hold no quote |
| ColumnHelper.QuoteFreeTextRenders | ColumnHelper.java:415-419 | outside INT96, a value whose text holds no quote always renders |
| ColumnHelper.ColumnName | ColumnHelper.java:395-397 | definition, its properties in `ColumnNamesDistinct` and `ColumnNameNotId`: the lower-cased enum name followed by `_col` |
| ColumnHelper.SqlType | ColumnHelper.java:244-245 | definition, its properties in `DeclNamesField` and `DdlMatchesSchema`: each kind's `getSqlType`, `DECIMAL(p,s)` from its precision and scale for the decimals |
| ColumnHelper.IsSupported | ColumnHelper.java:399-401 | definition, its properties in `DecimalSupport` and `SupportByComponent`: true by default, Hive only for FIXED, and not Hive for the INT-backed decimals |
| ColumnHelper.Precision | ColumnHelper.java:231 | definition, its properties in `RepresentativeDecimalsFit` and `DecimalColumnRoundTrip`: 9, 18, 18 and 38 digits for the four decimal kinds |
| ColumnHelper.Scale | ColumnHelper.java:232 | definition, its properties in `RepresentativeDecimalsFit`, `DecimalEncodingFails` and `DecimalColumnRoundTrip`: scales 2, 4, 6 and 12 for the four decimal kinds |
| ColumnHelper.PadToEight | ColumnHelper.java:332-341 | definition, its properties in `PadToEightSignExtends` and `PadToEightRoundTrip`: a minimal array shorter than 8 bytes gets a sign-fill head, a longer one is kept |
| ColumnHelper.EncodeDecimalInFixed | ColumnHelper.java:329-343 | definition, reached through `Encode`; its properties in `DecimalInFixedRoundTrip` and `DecimalInFixedLayout`: DECIMAL_IN_FIXED's encoder on values |
| ColumnHelper.EncodeInt96 | ColumnHelper.java:103-107 | definition, reached through `Encode`; its properties in `Int96Encoding`: INT96's `NanoTime` of the Julian day and the nanoseconds of the day |
| ColumnHelper.EncodeDecimalInInt32 | ColumnHelper.java:254-256 | definition, reached through `Encode`; its properties in `DecimalInInt32Encoding` and `DecimalInInt32Example`: rescale to 2, then `intValue` |
| ColumnHelper.EncodeDecimalInInt64 | ColumnHelper.java:291-293 | definition, reached through `Encode`; its properties in `DecimalInInt64Encoding`: rescale to 4, then `longValue` |
| ColumnHelper.EncodeDecimalInBinary | ColumnHelper.java:373-376 | definition, reached through `Encode`; its properties in `DecimalInBinaryRoundTrip` and `BinaryEncodingOf`: rescale to 12, then `toByteArray` |
| ColumnHelper.Encode | ColumnHelper.java:403-405 | definition, its properties in `EncodeErrors`, `RepresentativeValuesConform` and `DecimalColumnRoundTrip`: `valueToFileFormatValue` per kind, the identity by default |
| ColumnHelper.EncodeString | ColumnHelper.java:176-177 | definition, reached through `Encode`; its properties in `EncodeErrors` and `RepresentativeValuesConform`: the cast to String, then `Binary.fromString` |
| ColumnHelper.NonNullValueToString | ColumnHelper.java:407-409 | definition, its properties in `SqlLiteralRoundTrip`: `toString`, except INT96's `yyyy-MM-dd HH:mm:ss.SSS` pattern at lines 110-113 |
| ColumnHelper.ValueToSqlLiteral | ColumnHelper.java:411-420 | definition, its properties in `SqlLiteralRoundTrip`, `SqlLiteralNotNull` and `RepresentativeLiterals`: NULL, BOOLEAN's bare text (lines 43-48) or the CAST literal |
| TwosComplement.Signed | ColumnHelper.java:336-338 | a signed big-endian value is negative exactly when its first byte has the sign bit set |
| TwosComplement.ToByteArrayCorrect | ColumnHelper.java:331 | `toByteArray` reads back as its integer and is no longer than any width that holds the integer |
| TwosComplement.BytesOfRoundTrip | ColumnHelper.java:331 | the n low-order bytes of an integer that fits n bytes read back as that integer |
| TwosComplement.ByteLengthFits | ColumnHelper.java:331 | the length `toByteArray` chooses holds the integer |
| TwosComplement.ByteLengthMinimal | ColumnHelper.java:331 | no shorter length holds it |
| TwosComplement.NarrowKeepsFitting | ColumnHelper.java:255 | `intValue` and `longValue` leave a value that fits the width unchanged |
| TwosComplement.NarrowFits | ColumnHelper.java:292 | `intValue` and `longValue` always yield a value of the width |
| TwosComplement.SignExtend | ColumnHelper.java:336-338 | any number of sign bytes in front leave the signed value unchanged |
| TwosComplement.ToByteArray | ColumnHelper.java:331 | definition, its properties in `ToByteArrayCorrect` and `MinimalBytes`: `BigInteger.toByteArray`, the shortest big-endian two's-complement bytes |
| TwosComplement.Narrow | ColumnHelper.java:255 | definition, its properties in `NarrowKeepsFitting` and `NarrowFits`: `intValue` and `longValue`, the low-order bytes read as signed |
| JavaValues.SetScale | ColumnHelper.java:255 | a rescaled decimal denotes the same number at the new scale; the rescale throws ArithmeticException exactly when no unscaled value does |
| JavaValues.RepresentsSign | ColumnHelper.java:337 | rescaling keeps the sign, so `signum` of the decimal is the sign of the rescaled unscaled value |
| JavaValues.DecimalTextHasNoQuote | ColumnHelper.java:408 | a BigDecimal's text holds no quote |
| JavaValues.TimestampTextHasNoQuote | ColumnHelper.java:112 | a `yyyy-MM-dd HH:mm:ss.SSS` text holds no quote |
| JavaValues.MillisOfDayBound | ColumnHelper.java:106 | the milliseconds of a valid day are below 86,400,000 |
| JavaValues.DecimalText | ColumnHelper.java:407-409 | definition, its properties in `DecimalTextHasNoQuote`: `BigDecimal.toString`, plain or scientific |
| JavaValues.TimestampText | ColumnHelper.java:110-113 | definition, its properties in `TimestampTextHasNoQuote`: the `yyyy-MM-dd HH:mm:ss.SSS` pattern |
| JavaValues.IsoText | ColumnHelper.java:407-409 | definition, its properties in `IsoTextHasNoQuote`: `DateTime.toString` without the zone offset |
| JavaValues.IsoTextHasNoQuote | ColumnHelper.java:407-409 | the ISO text of a `DateTime` holds no quote, so the default renderer never refuses it |
| JavaValues.ToString | ColumnIndexFiltering.java:327 | definition, its properties in `QuoteFreeTextRenders` and `SqlLiteralNotNull`: `Object.toString` per runtime class |
| Text.NatText | ColumnHelper.java:245 | `%d` of a natural number is a non-empty string of digits |
| Text.ParseNatText | ColumnHelper.java:245 | the digits of `%d` read back as the number |
| Text.IntTextChars | ColumnHelper.java:408 | `Integer.toString` and `Long.toString` produce a minus sign and digits only, so never a quote |
| Text.ToLower | ColumnHelper.java:396 | lower-casing keeps the length |
| Text.ToLowerInjective | ColumnHelper.java:396 | lower-casing is injective on texts without lower-case letters |
| Text.Utf8Ascii | ColumnHelper.java:177 | `Binary.fromString` of ASCII text has one byte per character (3 bytes for each FIXED value) |
| Text.JoinStep | ColumnIndexFiltering.java:151-155 | appending the separator (empty before the first part) and the next part extends the join by that part |
| Text.JoinAvoids | ColumnIndexFiltering.java:324-329 | a join holds a character only if the separator or a part holds it |
| Text.JoinInjective | ColumnIndexFiltering.java:320-331 | joining non-empty lists of parts free of the one-character separator is injective |
| Text.Join | ColumnIndexFiltering.java:320-332 | definition, its properties in `JoinStep`, `JoinAvoids` and `JoinInjective`: the text of a `StringJoiner` after adding the parts |
| Text.IntText | ColumnHelper.java:407-409 | definition, its properties in `IntTextChars`: `Integer.toString` and `Long.toString` |
| Text.Utf8Bytes | ColumnHelper.java:176-177 | definition, its properties in `Utf8Ascii`: the UTF-8 bytes `Binary.fromString` stores |
| ColumnIndexFiltering.SupportedHelpers | ColumnIndexFiltering.java:88-92 | the constructor's loop collects exactly the filtered kinds |
| ColumnIndexFiltering.FilterSupportedSpec | ColumnIndexFiltering.java:88-92 | the filter keeps a kind if and only if the list holds it and the reader supports it, and keeps declaration order |
| ColumnIndexFiltering.SupportedKindsSpec | ColumnIndexFiltering.java:88-92 | `supportedHelpers` is exactly the supported subsequence of `values()` in declaration order: 11 kinds for Hive, 12 for Impala and SparkSQL |
| ColumnIndexFiltering.SupportedCount | ColumnIndexFiltering.java:88-92 | how many of the first n kinds each reader supports |
| ColumnIndexFiltering.Placement | ColumnIndexFiltering.java:185-196 | each file's pattern has as many slots as the file has rows, and picks only among the four values |
| ColumnIndexFiltering.Fill | ColumnIndexFiltering.java:179-196 | a filled pattern has one cell per slot |
| ColumnIndexFiltering.IdColumn | ColumnIndexFiltering.java:165-177 | an id column has one id per row |
| ColumnIndexFiltering.KindColumns | ColumnIndexFiltering.java:178-197 | definition, its properties in `DatasetShape`: column j of a file is that file's pattern filled with kind j's values |
| ColumnIndexFiltering.GenerateColumnOrientedData | ColumnIndexFiltering.java:163-199 | the loop builds, per file, the id column followed by one filled pattern per supported kind |
| ColumnIndexFiltering.DatasetShape | ColumnIndexFiltering.java:165-197 | 3 files of 1 + \|supportedHelpers\| columns, all of length 7, 9 and 7; ids are 1..7, 8..16 and 17..23, each file starting where the previous ended |
| ColumnIndexFiltering.IdsUnique | ColumnIndexFiltering.java:165-177 | two rows with the same id are the same row of the same file |
| ColumnIndexFiltering.PageCoverage | ColumnIndexFiltering.java:227 | pages of 3 rows cut 7 rows into 3, 3 and 1 rows and 9 rows into 3 full pages; every file has a page with at most one distinct value, a page with two, and a page holding null; each of a, b, c, d occurs |
| ColumnIndexFiltering.TransposeFile | ColumnIndexFiltering.java:211-218 | as many rows as the first column has entries, each row one cell per column |
| ColumnIndexFiltering.ConvertColumnOrientedDataToRowOriented | ColumnIndexFiltering.java:204-221 | the loops transpose every file into the four preallocated lists and leave the rest empty; they throw IndexOutOfBoundsException exactly for a fifth file, an empty file or a column shorter than the first |
| ColumnIndexFiltering.TransposeCell | ColumnIndexFiltering.java:212-217 | out[f][i][j] == in[f][j][i] |
| ColumnIndexFiltering.TransposeInvolution | ColumnIndexFiltering.java:204-221 | transposing a rectangular file twice gives it back |
| ColumnIndexFiltering.SimpleGroup.constructor | ColumnIndexFiltering.java:249 | a new group has an empty value list per schema field |
| ColumnIndexFiltering.SimpleGroup.Add | ColumnIndexFiltering.java:251 | `add` appends to the one field and keeps the others |
| ColumnIndexFiltering.ToPrimitive | ColumnIndexFiltering.java:260-282 | `addValueToGroup` fails only with IllegalArgumentException |
| ColumnIndexFiltering.CreateParquetGroup | ColumnIndexFiltering.java:248-258 | the loop, encoding each cell through `ValueToFileFormatValue` into a fresh group, fails exactly when the group function does, with its exception, and otherwise holds the fields it describes |
| ColumnIndexFiltering.AddCellsErrStays | ColumnIndexFiltering.java:252-256 | once a cell has thrown, the group's outcome is that exception |
| ColumnIndexFiltering.GroupFieldsSpec | ColumnIndexFiltering.java:248-258 | a group is built exactly when the id is an Integer and every non-null cell has a kind and encodes; it holds the id alone in field 0, the single encoded value of every non-null cell i in field i, and nothing in the fields of null or missing cells |
| ColumnIndexFiltering.AddCellsSpec | ColumnIndexFiltering.java:252-256 | the same after the first n cells, field by field |
| ColumnIndexFiltering.CellTexts | ColumnIndexFiltering.java:325-328 | definition, its properties in `RenderInjective`: one text per cell, `NULL` for null and the value's text otherwise |
| ColumnIndexFiltering.RenderRows | ColumnIndexFiltering.java:322-330 | definition, its properties in `RenderInjective`: one line per row, in row order |
| ColumnIndexFiltering.RowsToString | ColumnIndexFiltering.java:320-332 | the two StringJoiner loops produce the lines joined by newlines, each the cell texts joined by tabs |
| ColumnIndexFiltering.Compare | ColumnIndexFiltering.java:334-339 | the check passes if and only if the two renderings are equal, and otherwise fails with both renderings |
| ColumnIndexFiltering.ValidateData | ColumnIndexFiltering.java:334-339 | `validateData` renders both results and compares them |
| ColumnIndexFiltering.RenderNullCell | ColumnIndexFiltering.java:327 | [[1, null]] renders as `1\tNULL` |
| ColumnIndexFiltering.RenderInjective | ColumnIndexFiltering.java:320-338 | for non-empty results whose rows are non-empty and hold no tab, newline or text NULL, equal renderings mean equal results, and conversely |
| ColumnIndexFiltering.LineAvoidsNewline | ColumnIndexFiltering.java:324-329 | a row whose cells hold no newline renders to a line without one |
| ColumnIndexFiltering.RowInjective | ColumnIndexFiltering.java:324-329 | a line determines a non-empty row of tab-free cells that are never the text NULL |
| ColumnIndexFiltering.RenderConflates | ColumnIndexFiltering.java:327 | otherwise the comparison conflates: a null with the string NULL, no rows with one empty row, and no rows with one row holding the empty string |
| ColumnIndexFiltering.KindFields | ColumnIndexFiltering.java:141-143 | definition, its properties in `SchemaFieldName` and `DdlMatchesSchema`: field i is kind i's field |
| ColumnIndexFiltering.ParquetSchema | ColumnIndexFiltering.java:138-145 | the schema has a field for the id and one per supported kind |
| ColumnIndexFiltering.CreateParquetSchema | ColumnIndexFiltering.java:138-145 | the builder loop produces message `record` with the id field first, then each kind's field in order |
| ColumnIndexFiltering.SchemaFieldName | ColumnIndexFiltering.java:140-142 | field 0 is named `id` and field j + 1 after kind j's column |
| ColumnIndexFiltering.SchemaNamesDistinct | ColumnIndexFiltering.java:138-145 | the schema's field names are pairwise distinct for the supported kinds |
| ColumnIndexFiltering.IdNameDiffers | ColumnIndexFiltering.java:140 | no kind field is named `id` |
| ColumnIndexFiltering.KindNamesDiffer | ColumnIndexFiltering.java:142 | fields of distinct kinds have distinct names |
| ColumnIndexFiltering.ColumnDecls | ColumnIndexFiltering.java:152-155 | one declaration per supported kind |
| ColumnIndexFiltering.CreateParquetTableDdl | ColumnIndexFiltering.java:150-156 | the StringBuilder loop with its separator produces `CREATE EXTERNAL TABLE <t>(id int, `, the declarations separated by `, `, then `)\nSTORED AS PARQUET\nLOCATION '<dir>'` |
| ColumnIndexFiltering.DeclNamesField | ColumnIndexFiltering.java:153 | declaration i names schema field i + 1 and gives its kind's SQL type |
| ColumnIndexFiltering.DdlMatchesSchema | ColumnIndexFiltering.java:150-156 | the DDL declares, in order, the columns of the files' schema, and each DECIMAL(p,s) agrees with the field's decimal annotation |
| ColumnIndexFiltering.ToPrimitiveConforms | ColumnIndexFiltering.java:260-282 | a value that matches its field is stored through the add overload of that field's type |
| ColumnIndexFiltering.RowOriented | ColumnIndexFiltering.java:241-246 | the transposed dataset has four row lists |
| ColumnIndexFiltering.RowOrientedShape | ColumnIndexFiltering.java:204-221 | file f has 7, 9 or 7 rows; row i holds id FirstId(f) + i, then per kind null or the value its pattern picks; the fourth list is empty |
| ColumnIndexFiltering.TransposedFileShape | ColumnIndexFiltering.java:204-221 | the same for one file |
| ColumnIndexFiltering.WriteDataToParquetFiles | ColumnIndexFiltering.java:223-239 | the loops write a group per row, file by file, stopping at the first row that throws |
| ColumnIndexFiltering.WriteParquetFiles | ColumnIndexFiltering.java:241-246 | generation, transposition and writing together write the records of the dataset's rows |
| ColumnIndexFiltering.FileRecordsErrStays | ColumnIndexFiltering.java:235-236 | once a row has thrown, the file's outcome is that exception |
| ColumnIndexFiltering.FilesRecordsErrStays | ColumnIndexFiltering.java:228-238 | once a file has failed, the write's outcome is that failure |
| ColumnIndexFiltering.FileRecordsSpec | ColumnIndexFiltering.java:235-236 | a file is written exactly when every row makes a group, and record r is then the group of row r |
| ColumnIndexFiltering.FilesRecordsSpec | ColumnIndexFiltering.java:228-238 | the write succeeds exactly when every file does, and file f then holds the records of row list f |
| ColumnIndexFiltering.IdsFitInt32 | ColumnIndexFiltering.java:165-177 | the ids fit the INT32 id field |
| ColumnIndexFiltering.DatasetRecordConforms | ColumnIndexFiltering.java:248-258 | every row of the dataset makes a group that matches the schema, with its id alone in field 0 |
| ColumnIndexFiltering.RepresentativeRowConforms | ColumnIndexFiltering.java:248-258 | a row of an INT32 id and, per kind, null or a representative value makes a group that matches the schema |
| ColumnIndexFiltering.ConformingRow | ColumnIndexFiltering.java:248-258 | a row whose non-null cells each encode to a value matching their kind's field makes a group that matches the schema |
| ColumnIndexFiltering.FieldConforms | ColumnIndexFiltering.java:252-255 | the values a group holds for cell j match schema field j |
| ColumnIndexFiltering.SingleValueConforms | ColumnIndexFiltering.java:254 | an optional field holding one matching value matches |
| ColumnIndexFiltering.CellConforms | ColumnIndexFiltering.java:254 | a representative value is stored as a value matching its kind's field |
| ColumnIndexFiltering.WrittenFilesConform | ColumnIndexFiltering.java:223-246 | the write succeeds with three files of 7, 9 and 7 records and an empty fourth file; record i of file f has id FirstId(f) + i and matches the schema |
| ColumnIndexFiltering.CheckQuery | ColumnIndexFiltering.java:293-299 | a query passes if and only if its results render alike with pushdown off and on, and otherwise fails with both renderings |
| ColumnIndexFiltering.ValidateQueryResults | ColumnIndexFiltering.java:293-299 | the reference run and the pushdown run are compared by `validateData` |
| ColumnIndexFiltering.Literals | ColumnIndexFiltering.java:312-314 | one literal per representative value |
| ColumnIndexFiltering.LiteralsRender | ColumnIndexFiltering.java:312-314 | every representative value of every kind has a literal, so the value loop never throws |
| ColumnIndexFiltering.ValueQueries | ColumnIndexFiltering.java:311-316 | the value loop finishes after at most as many queries as it has literals |
| ColumnIndexFiltering.ValueQueriesFailureStays | ColumnIndexFiltering.java:312-315 | after a failing query no further query is issued |
| ColumnIndexFiltering.ValueQueriesSpec | ColumnIndexFiltering.java:311-316 | query i is the one for literal i; a passing run issued one per literal, each agreeing with and without pushdown; a failing run ends with the first query that did not, and its AssertionError |
| ColumnIndexFiltering.FilteringSpec | ColumnIndexFiltering.java:301-318 | an unsupported kind skips; IS and IS NOT issue the single NULL query; any other operator issues the queries for the four literals in order, up to the first failure; the case passes exactly when every issued query agrees, and a passing value case issued all four |
| ColumnIndexFiltering.ConsistentEnginePasses | ColumnIndexFiltering.java:301-318 | an engine whose pushdown never changes a rendering passes every case it is not skipped for |
| ColumnIndexFiltering.WriterCacheMissesColumn | ColumnIndexFiltering.java:93-101 | with the map keyed by writer alone, a SparkSQL case on Impala's table, built first for Hive, queries DECIMAL_IN_INT32 while the table has no such column |
| ColumnIndexFiltering.WriterCacheKeepsFirst | ColumnIndexFiltering.java:93-101 | under the writer key the second case gets the first case's table, whatever its kinds |
| ColumnIndexFiltering.UndeclaredColumn | ColumnIndexFiltering.java:138-145 | a kind outside the table's kinds has no field in its schema |
| ColumnIndexFiltering.FieldNotNamed | ColumnIndexFiltering.java:140-142 | no schema field is named after a kind outside the table's kinds |
| ColumnIndexFiltering.CacheUpdateSpec | ColumnIndexFiltering.java:93-101 | the cache step keeps every entry, adds at most the one key, and serves a table built from exactly the case's kinds |
| ColumnIndexFiltering.DeclaredColumn | ColumnIndexFiltering.java:150-156 | a kind among the table's kinds has a schema field after the id and a DDL declaration with its SQL type |
| ColumnIndexFiltering.CacheServesQueriedColumn | ColumnIndexFiltering.java:93-101 | with the cache keyed by writer and kinds, the column of every case that is not skipped exists in the table it queries |
| ColumnIndexFiltering.TableRegistry.constructor | ColumnIndexFiltering.java:64 | the cache starts empty |
| ColumnIndexFiltering.TableRegistry.BuildTable | ColumnIndexFiltering.java:94-100 | a new table's files are written to its working directory, its DDL is executed by the writer, and it is cached; the cache stays consistent |
| ColumnIndexFiltering.TableRegistry.TableFor | ColumnIndexFiltering.java:93-101 | a cached table is reused without any write or DDL, otherwise a table is built once under the new name |
| ColumnIndexFiltering.ColumnIndexFilteringTest.constructor | ColumnIndexFiltering.java:77-102 | a test case gets the reader's supported kinds and the table for its writer and kinds, built only when not cached yet |
| ColumnIndexFiltering.ColumnIndexFilteringTest.TestFiltering | ColumnIndexFiltering.java:301-318 | the test method's loop issues exactly the queries `Filtering` describes and ends with its failure |
| ColumnIndexFiltering.FilterSupported | ColumnIndexFiltering.java:88-91 | definition, its properties in `FilterSupportedSpec`: the kinds the reader supports, in the given order |
| ColumnIndexFiltering.SupportedKinds | ColumnIndexFiltering.java:88-92 | definition, its properties in `SupportedKindsSpec`: the filter over all kinds in declaration order |
| ColumnIndexFiltering.Dataset | ColumnIndexFiltering.java:163-199 | definition, its properties in `DatasetShape`, and in `IdsUnique` and `PageCoverage` for its id ranges and placements: the id column, then one column per kind, in each of the three files |
| ColumnIndexFiltering.CellValue | ColumnIndexFiltering.java:253-254 | definition, its properties in `CellConforms`: a non-null cell's encoding followed by the add overload for its class |
| ColumnIndexFiltering.AddCells | ColumnIndexFiltering.java:252-256 | definition, its properties in `AddCellsSpec` and `AddCellsErrStays`: the group's fields after a prefix of the cells |
| ColumnIndexFiltering.GroupFields | ColumnIndexFiltering.java:248-258 | definition, its properties in `GroupFieldsSpec` and `ConformingRow`: the fields of the group built from one row, or its exception |
| ColumnIndexFiltering.CellText | ColumnIndexFiltering.java:326-327 | definition, its properties in `RowInjective`: `NULL` for a null cell, its text otherwise |
| ColumnIndexFiltering.RenderRow | ColumnIndexFiltering.java:324-329 | definition, its properties in `RowInjective` and `LineAvoidsNewline`: a row's cells joined by tabs |
| ColumnIndexFiltering.Render | ColumnIndexFiltering.java:320-332 | definition, its properties in `RenderInjective`, `RenderNullCell` and `RenderConflates`: the rows' lines joined by newlines |
| ColumnIndexFiltering.CreateTableDdl | ColumnIndexFiltering.java:150-156 | definition, built from `ColumnDecls`, whose properties are in `DeclNamesField` and `DdlMatchesSchema`: the `CREATE EXTERNAL TABLE` text |
| ColumnIndexFiltering.FileRecords | ColumnIndexFiltering.java:235-236 | definition, its properties in `FileRecordsSpec` and `FileRecordsErrStays`: one group per row of a file |
| ColumnIndexFiltering.FilesRecords | ColumnIndexFiltering.java:228-238 | definition, its properties in `FilesRecordsSpec` and `FilesRecordsErrStays`: the records of each file in turn |
| ColumnIndexFiltering.WrittenFiles | ColumnIndexFiltering.java:241-246 | definition, its properties in `WrittenFilesConform`: the records of the written files, from the generated and transposed data |
| ColumnIndexFiltering.QueryText | ColumnIndexFiltering.java:303 | definition, its properties in `FilteringSpec`: the query template filled with column, table, operator and literal |
| ColumnIndexFiltering.FilterQuery | ColumnIndexFiltering.java:313-314 | definition, its properties in `FilteringSpec`: the query for one literal of the tested kind |
| ColumnIndexFiltering.QueryCheck | ColumnIndexFiltering.java:293-299 | definition, its properties in `FilteringSpec`: `validateQueryResults` as a check of one query |
| ColumnIndexFiltering.Filtering | ColumnIndexFiltering.java:302-318 | definition, its properties in `FilteringSpec` and `ConsistentEnginePasses`: the queries `testFiltering` issues and its first failure |
| ColumnIndexFiltering.WriterCacheUpdate | ColumnIndexFiltering.java:93-100 | definition, its properties in `WriterCacheKeepsFirst` and `WriterCacheMissesColumn`: the cache as written, keyed by the writer alone |
| ColumnIndexFiltering.WorkingDir | ColumnIndexFiltering.java:289-291 | definition, used by `TableRegistry.BuildTable` and `CacheUpdateSpec`: the table's name under the home directory, which is a parameter |
| ColumnIndexFiltering.CacheUpdate | ColumnIndexFiltering.java:93-101 | definition, its properties in `CacheUpdateSpec` and `CacheServesQueriedColumn`: the corrected cache, keyed by writer and supported kinds |

## Left out

- File system and Parquet I/O are not modelled: `fs.mkdirs`, `createDir`, `ExampleOutputFormat`, the `RecordWriter`, the file names `%d.parquet`, compression and the `@AfterClass` drop and delete of the tables. External I/O. A written file is modelled as its list of records, and the page row limit of 3 as the constant `PageRowLimit`.
- SQL execution is not modelled: `executeTextQueryReturningObjects`, `executeSqlUpdate` and the pushdown switch. The reading engine is a function parameter from query text and pushdown flag to result rows, and an executed DDL is recorded in `TableRegistry.statements`.
- Result cells are modelled by the text of their `toString`, since the reader's Java objects are not part of this model.
- JUnit parameterisation, `PresetUtils` and `getTestDimensions` are not modelled; they are test orchestration. The operator presets are the constants `AllOperators` and `DefaultOperators`.
- `TableReference.generateTableReference` and the home directory are not modelled; this is name generation and environment. Both are parameters of the constructor.
- `assumeTrue` is modelled as the `Skipped` outcome.
- The Joda Julian day number is not computed; it depends on the JVM time zone. It is the `calendar` parameter. Only the `(int)` cast of it is modelled.
- The time zone is not modelled. `DateTime` values are taken by their local fields, and `DateTime.toString` as ISO text without the offset.
- FLOAT and DOUBLE values are opaque: a value is only the text of its Java `toString`. IEEE arithmetic and the order of floats are not modelled, so `ValuesOrdered` excludes those two kinds.
- `Binary.fromString` is modelled as UTF-8 over Dafny characters; Java's UTF-16 surrogate pairs are not modelled.
- The `value instanceof Group` branch of `addValueToGroup` is not modelled, since no encoder returns a Group.
- SimpleGroup's own type checks against the schema are not modelled. That records match the schema is proved separately (`WrittenFilesConform`).
- ColumnIndexFiltering.SimpleGroup.Add: does not model Parquet's `IllegalStateException` for a second value in a non-repeated field; it appends instead. Every field is optional, and `createParquetGroup` adds to each field at most once, so the modelled loop never reaches that case.
- The Parquet `Types` builder is not modelled; a field is its name, primitive type, length and annotation.
- `ColumnIndexFiltering.TableRegistry` keys the cache by writer and supported kinds, the corrected form of the finding below. The as-written writer-only key is modelled by `WriterCacheUpdate`.
- ColumnIndexFiltering.ColumnIndexFilteringTest.constructor: takes its table from `TableRegistry` under the corrected (writer, kinds) key, not by `tblRefMap.get(writer)` as at ColumnIndexFiltering.java:93. So it does not promise the as-written behaviour, where a later reader for the same writer gets the first reader's table. That behaviour is stated by `WriterCacheKeepsFirst` and `WriterCacheMissesColumn`.
- Locale is not modelled: an English or root default locale is assumed. Under it, `name().toLowerCase()` (`Text.ToLower`, `ColumnHelper.ColumnName`) is ASCII lower-casing, and `String.format("DECIMAL(%d,%d)")` writes ASCII digits (`Text.NatText`). Under a Turkish or Azerbaijani locale, Java would lower-case `I` to a dotless `ı`.
- `JavaValues.Decimal` has a non-negative scale. A `BigDecimal` with a negative scale, such as `new BigDecimal("1E+3")`, cannot be expressed. It does not occur among the representative values, and the encoders and `toString` are modelled only for scales of zero and above.
- `ColumnIndexFiltering.PageCoverage` does not state that every page holds a non-null value. File 1's second page is all null. It also does not claim a full all-null or single-valued page in file 0: its only such page is the final one-row page.
- Where the code and its description differ, the model follows the code:
  - The transposition throws only when a column is shorter than the first; longer columns are cut, not refused.
  - The output always has four row lists, so a fourth, empty file is written.
  - Seven rows make two full pages and a partial one.

## Findings

| source | as written | input that shows it | evidently intended | confidence | as-written member | corrected member |
|---|---|---|---|---|---|---|
| ColumnIndexFiltering.java:93-101 | the table cache is keyed by the writer alone, and a table is built from the supported kinds of whichever reader comes first for that writer | writer Impala; first a Hive reader case, which builds a table without the INT-backed decimals; then a SparkSQL reader case for DECIMAL_IN_INT32 with `=`, which is not skipped and queries `decimal_in_int32_col` on that table | a cached table keyed by writer and supported kinds, so every case that is not skipped queries a column its table declares | medium, not executed | ColumnIndexFiltering.WriterCacheMissesColumn | ColumnIndexFiltering.CacheServesQueriedColumn |
