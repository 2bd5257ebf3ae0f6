/**
 * The interop test class ColumnIndexFiltering: the kinds a reading engine supports, the
 * three-file boundary-value dataset, its transposition to rows, the Parquet records
 * built from the rows, the canonical rendering and comparison of query results, the
 * query texts per operator, the table DDL and schema, and the per-writer table cache.
 */
module ColumnIndexFiltering {
  import opened Wrappers
  import opened TwosComplement
  import opened Text
  import opened JavaValues
  import opened ColumnHelper
  import opened Sequences

  // ---------------------------------------------------------------------------
  // Supported kinds (the constructor's filter over ColumnHelper.values())

  /** The kinds of a list that the reading engine supports, in list order. */
  function FilterSupported(kinds: seq<Kind>, reader: Component): seq<Kind> {
    if kinds == [] then []
    else
      var rest := FilterSupported(kinds[..|kinds| - 1], reader);
      if IsSupported(kinds[|kinds| - 1], reader) then rest + [kinds[|kinds| - 1]] else rest
  }

  /** The supported kinds, in declaration order. */
  function SupportedKinds(reader: Component): seq<Kind> {
    FilterSupported(AllKinds, reader)
  }

  /** The constructor's loop collecting the supported kinds. */
  method SupportedHelpers(reader: Component) returns (helpers: seq<Kind>)
    ensures helpers == SupportedKinds(reader)
  {
    var columnList: seq<Kind> := [];
    for n := 0 to |AllKinds|
      invariant columnList == FilterSupported(AllKinds[..n], reader)
    {
      assert AllKinds[..n + 1][..n] == AllKinds[..n];
      if IsSupported(AllKinds[n], reader) {
        columnList := columnList + [AllKinds[n]];
      }
    }
    assert AllKinds[..|AllKinds|] == AllKinds;
    helpers := columnList;
  }

  /** The kinds are in declaration order, each at most once. */
  predicate InDeclarationOrder(kinds: seq<Kind>) {
    forall i, j :: 0 <= i < j < |kinds| ==> Ordinal(kinds[i]) < Ordinal(kinds[j])
  }

  /** The filter keeps exactly the supported members, and keeps them in declaration order. */
  lemma {:induction false} FilterSupportedSpec(kinds: seq<Kind>, reader: Component)
    requires InDeclarationOrder(kinds)
    ensures forall k :: k in FilterSupported(kinds, reader) <==> k in kinds && IsSupported(k, reader)
    ensures InDeclarationOrder(FilterSupported(kinds, reader))
  {
    if kinds != [] {
      var init, last := kinds[..|kinds| - 1], kinds[|kinds| - 1];
      InitInOrder(kinds);
      FilterSupportedSpec(init, reader);
      var rest := FilterSupported(init, reader);
      forall k | k in rest ensures Ordinal(k) < Ordinal(last) {
        var i :| 0 <= i < |init| && init[i] == k;
        assert kinds[i] == k;
      }
      assert kinds == init + [last];
      if IsSupported(last, reader) {
        SnocInOrder(rest, last);
      }
    }
  }

  /** Dropping the last kind keeps declaration order. */
  lemma InitInOrder(kinds: seq<Kind>)
    requires kinds != [] && InDeclarationOrder(kinds)
    ensures InDeclarationOrder(kinds[..|kinds| - 1])
  {
    var init := kinds[..|kinds| - 1];
    forall i, j | 0 <= i < j < |init| ensures Ordinal(init[i]) < Ordinal(init[j]) {
      assert init[i] == kinds[i] && init[j] == kinds[j];
    }
  }

  /** Appending a kind declared after all others keeps declaration order. */
  lemma SnocInOrder(kinds: seq<Kind>, last: Kind)
    requires InDeclarationOrder(kinds) && forall k :: k in kinds ==> Ordinal(k) < Ordinal(last)
    ensures InDeclarationOrder(kinds + [last])
  {
    var s := kinds + [last];
    forall i, j | 0 <= i < j < |s| ensures Ordinal(s[i]) < Ordinal(s[j]) {
      assert s[i] == kinds[i];
      if j == |s| - 1 {
        assert s[j] == last && kinds[i] in kinds;
      } else {
        assert s[j] == kinds[j];
      }
    }
  }

  /**
   * supportedHelpers is exactly the subsequence of ColumnHelper.values() the engine
   * supports, in declaration order: 11 kinds for Hive (no INT-backed decimals) and 12
   * for the others (no FIXED).
   */
  lemma SupportedKindsSpec(reader: Component)
    ensures forall k :: k in SupportedKinds(reader) <==> IsSupported(k, reader)
    ensures InDeclarationOrder(SupportedKinds(reader))
    ensures |SupportedKinds(reader)| == if reader == Hive then 11 else 12
  {
    assert InDeclarationOrder(AllKinds) by {
      forall i, j | 0 <= i < j < |AllKinds| ensures Ordinal(AllKinds[i]) < Ordinal(AllKinds[j]) {
      }
    }
    forall k ensures k in AllKinds {
      assert AllKinds[Ordinal(k)] == k;
    }
    FilterSupportedSpec(AllKinds, reader);
    SupportedCount(reader, |AllKinds|);
    assert AllKinds[..|AllKinds|] == AllKinds;
  }

  /** How many of the first n kinds the engine supports: all but FIXED (position 6), or for Hive all but positions 9 and 10. */
  lemma {:induction false} SupportedCount(reader: Component, n: nat)
    requires n <= |AllKinds|
    ensures |FilterSupported(AllKinds[..n], reader)| ==
      if reader == Hive then n - (if n > 10 then 2 else if n > 9 then 1 else 0)
      else n - (if n > 6 then 1 else 0)
  {
    if n > 0 {
      assert AllKinds[..n][..n - 1] == AllKinds[..n - 1];
      SupportedCount(reader, n - 1);
    }
  }

  // ---------------------------------------------------------------------------
  // The dataset (generateColumnOrientedData)

  /** A cell of the dataset: null, or a Java value. */
  type Cell = Option<JavaValue>

  /** A slot of a placement pattern: null, or the representative value of a rank 0 .. 3 (a, b, c, d). */
  datatype Slot = Null | Pick(rank: nat)

  /** The number of files of the dataset. */
  const FileCount: nat := 3

  /** The placement of the values a, b, c, d and null over the rows of each file. */
  function Placement(fileNo: nat): (slots: seq<Slot>)
    requires fileNo < FileCount
    ensures |slots| == RowCount(fileNo)
    ensures forall i :: 0 <= i < |slots| && slots[i].Pick? ==> slots[i].rank < 4
  {
    var a, b, c, d, N := Pick(0), Pick(1), Pick(2), Pick(3), Null;
    if fileNo == 0 then [a, b, c, b, c, d, N]
    else if fileNo == 1 then [N, c, d, N, N, N, a, c, N]
    else [b, N, d, a, N, a, b]
  }

  /** A placement filled with a kind's four values. */
  function Fill(slots: seq<Slot>, values: seq<JavaValue>): (column: seq<Cell>)
    requires |values| == 4 && forall i :: 0 <= i < |slots| && slots[i].Pick? ==> slots[i].rank < 4
    ensures |column| == |slots|
  {
    seq(|slots|, i requires 0 <= i < |slots| => if slots[i].Null? then None else Some(values[slots[i].rank]))
  }

  /** The first row id of each file. */
  function FirstId(fileNo: nat): int
    requires fileNo < FileCount
  {
    if fileNo == 0 then 1 else if fileNo == 1 then 8 else 17
  }

  /** The number of rows of each file. */
  function RowCount(fileNo: nat): nat
    requires fileNo < FileCount
  {
    if fileNo == 1 then 9 else 7
  }

  /** The id column of a file: count consecutive integers from first. */
  function IdColumn(first: int, count: nat): (column: seq<Cell>)
    ensures |column| == count
  {
    seq(count, i => Some(JInteger(first + i)))
  }

  /** The kind columns of a file: its placement filled with each kind's values, in order. */
  function KindColumns(helpers: seq<Kind>, f: nat): (columns: seq<seq<Cell>>)
    requires f < FileCount
    ensures |columns| == |helpers|
    ensures forall j :: 0 <= j < |helpers| ==> columns[j] == Fill(Placement(f), Values(helpers[j]))
  {
    seq(|helpers|, j requires 0 <= j < |helpers| => Fill(Placement(f), Values(helpers[j])))
  }

  /** The dataset as it should be: per file the id column, then one filled placement per kind. */
  function Dataset(helpers: seq<Kind>): seq<seq<seq<Cell>>> {
    seq(FileCount, f requires 0 <= f < FileCount => [IdColumn(FirstId(f), RowCount(f))] + KindColumns(helpers, f))
  }

  /** generateColumnOrientedData: the id columns, then for each kind one column per file. */
  method GenerateColumnOrientedData(helpers: seq<Kind>) returns (byFileAndCol: seq<seq<seq<Cell>>>)
    ensures byFileAndCol == Dataset(helpers)
  {
    ghost var c0, c1, c2 := KindColumns(helpers, 0), KindColumns(helpers, 1), KindColumns(helpers, 2);
    var file0, file1, file2 := [IdColumn(1, 7)], [IdColumn(8, 9)], [IdColumn(17, 7)];
    for j := 0 to |helpers|
      invariant file0 == [IdColumn(1, 7)] + c0[..j]
      invariant file1 == [IdColumn(8, 9)] + c1[..j]
      invariant file2 == [IdColumn(17, 7)] + c2[..j]
    {
      var v := Values(helpers[j]);
      var col0, col1, col2 := Fill(Placement(0), v), Fill(Placement(1), v), Fill(Placement(2), v);
      PrefixSnoc(c0, j);
      PrefixSnoc(c1, j);
      PrefixSnoc(c2, j);
      file0, file1, file2 := file0 + [col0], file1 + [col1], file2 + [col2];
    }
    PrefixAll(c0);
    PrefixAll(c1);
    PrefixAll(c2);
    byFileAndCol := [file0, file1, file2];
  }

  /**
   * The ids of the files are the contiguous ranges 1..7, 8..16 and 17..23: each file starts
   * where the previous one ended, so the ids are unique across the dataset; every column
   * of a file is as long as its id column.
   */
  lemma DatasetShape(helpers: seq<Kind>)
    ensures |Dataset(helpers)| == FileCount
    ensures forall f :: 0 <= f < FileCount ==> |Dataset(helpers)[f]| == 1 + |helpers|
    ensures forall f, j :: 0 <= f < FileCount && 0 <= j < |Dataset(helpers)[f]| ==>
      |Dataset(helpers)[f][j]| == RowCount(f) == |Placement(f)|
    ensures forall f, i :: 0 <= f < FileCount && 0 <= i < RowCount(f) ==>
      Dataset(helpers)[f][0][i] == Some(JInteger(FirstId(f) + i))
    ensures FirstId(0) == 1 && FirstId(2) + RowCount(2) - 1 == 23
    ensures forall f :: 0 < f < FileCount ==> FirstId(f) == FirstId(f - 1) + RowCount(f - 1)
  {
    forall f, j | 0 <= f < FileCount && 0 <= j < |Dataset(helpers)[f]|
      ensures |Dataset(helpers)[f][j]| == RowCount(f) == |Placement(f)|
    {
      assert |Placement(f)| == RowCount(f);
      assert Dataset(helpers)[f] == [IdColumn(FirstId(f), RowCount(f))] + KindColumns(helpers, f);
      if j > 0 {
        assert Dataset(helpers)[f][j] == Fill(Placement(f), Values(helpers[j - 1]));
      }
    }
  }

  /** Row ids are unique across the dataset: two (file, row) positions with the same id are the same position. */
  lemma IdsUnique(f: nat, i: nat, g: nat, j: nat)
    requires f < FileCount && g < FileCount && i < RowCount(f) && j < RowCount(g)
    requires FirstId(f) + i == FirstId(g) + j
    ensures f == g && i == j
  {
  }

  /** The number of rows of a statistics page (parquet.page.row.count.limit). */
  const PageRowLimit: nat := 3

  /** A column cut into pages of PageRowLimit rows; the last page may be shorter. */
  function Pages(slots: seq<Slot>): seq<seq<Slot>>
    decreases |slots|
  {
    if |slots| <= PageRowLimit then [slots]
    else [slots[..PageRowLimit]] + Pages(slots[PageRowLimit..])
  }

  /** The page's statistics allow only one non-null value (min == max) or none at all. */
  predicate AtMostOneValue(page: seq<Slot>) {
    forall i, j :: 0 <= i < |page| && 0 <= j < |page| && page[i].Pick? && page[j].Pick? ==> page[i] == page[j]
  }

  /** The page holds null. */
  predicate HasNull(page: seq<Slot>) {
    exists i :: 0 <= i < |page| && page[i].Null?
  }

  /**
   * The placements straddle the page boundaries as intended: 7 rows make pages of 3, 3
   * and 1 rows, 9 rows three full pages. Every file has a page whose statistics hold at
   * most one distinct value and a page with two distinct values; nulls occur in every
   * file, and each of a, b, c, d occurs in the dataset.
   */
  lemma PageCoverage(f: nat)
    requires f < FileCount
    ensures var pages := Pages(Placement(f));
      && (if f == 1 then |pages| == 3 && |pages[2]| == 3 else |pages| == 3 && |pages[2]| == 1)
      && |pages[0]| == 3 && |pages[1]| == 3
      && (exists p :: 0 <= p < |pages| && AtMostOneValue(pages[p]))
      && (exists p :: 0 <= p < |pages| && !AtMostOneValue(pages[p]))
      && (exists p :: 0 <= p < |pages| && HasNull(pages[p]))
    ensures forall r :: 0 <= r < 4 ==> exists g, i :: 0 <= g < FileCount && 0 <= i < |Placement(g)| && Placement(g)[i] == Pick(r)
  {
    var slots := Placement(f);
    var pages := Pages(slots);
    assert pages == [slots[..3], slots[3..6], slots[6..]] by {
      assert slots[3..][..3] == slots[3..6] && slots[3..][3..] == slots[6..];
      assert Pages(slots[6..]) == [slots[6..]];
      assert Pages(slots[3..]) == [slots[3..6]] + [slots[6..]];
    }
    assert Placement(0)[0] == Pick(0) && Placement(0)[1] == Pick(1);
    assert Placement(0)[2] == Pick(2) && Placement(0)[5] == Pick(3);
    if f == 0 {
      assert AtMostOneValue(pages[2]) && !AtMostOneValue(pages[0]) && pages[2][0].Null?;
    } else if f == 1 {
      assert pages[0][1] == Pick(2) && pages[0][2] == Pick(3);
      assert AtMostOneValue(pages[1]) && !AtMostOneValue(pages[0]) && pages[1][0].Null?;
    } else {
      assert pages[0][0] == Pick(1) && pages[0][2] == Pick(3);
      assert AtMostOneValue(pages[1]) && !AtMostOneValue(pages[0]) && pages[1][1].Null?;
    }
  }

  // ---------------------------------------------------------------------------
  // Transposition (convertColumnOrientedDataToRowOriented)

  /** The rows of a file: row i holds entry i of every column, as many rows as the first column has. */
  function TransposeFile(columns: seq<seq<Cell>>): (rows: seq<seq<Cell>>)
    requires |columns| > 0 && forall j :: 0 <= j < |columns| ==> |columns[0]| <= |columns[j]|
    ensures |rows| == |columns[0]|
    ensures forall i :: 0 <= i < |rows| ==> |rows[i]| == |columns|
  {
    seq(|columns[0]|, i requires 0 <= i < |columns[0]| =>
      seq(|columns|, j requires 0 <= j < |columns| => columns[j][i]))
  }

  /** A file the transposition accepts: a first column, and no column shorter than it. */
  predicate Transposable(columns: seq<seq<Cell>>) {
    |columns| > 0 && forall j :: 0 <= j < |columns| ==> |columns[0]| <= |columns[j]|
  }

  /** The number of row lists the transposition allocates (asList of four lists). */
  const OutputFiles: nat := 4

  /**
   * convertColumnOrientedDataToRowOriented: up to four files are transposed into the four
   * preallocated row lists; a fifth file, an empty file or a column shorter than the first
   * raises IndexOutOfBoundsException.
   */
  method ConvertColumnOrientedDataToRowOriented(byFileAndCol: seq<seq<seq<Cell>>>)
    returns (r: Result<seq<seq<seq<Cell>>>>)
    ensures r.Err? <==> |byFileAndCol| > OutputFiles || exists f :: 0 <= f < |byFileAndCol| && !Transposable(byFileAndCol[f])
    ensures r.Err? ==> r.error == IndexOutOfBoundsException
    ensures r.Ok? ==> |r.value| == OutputFiles
    ensures r.Ok? ==> forall f :: 0 <= f < |byFileAndCol| ==> r.value[f] == TransposeFile(byFileAndCol[f])
    ensures r.Ok? ==> forall f :: |byFileAndCol| <= f < OutputFiles ==> r.value[f] == []
  {
    var byFileAndRow: seq<seq<seq<Cell>>> := [[], [], [], []];
    for fileNo := 0 to |byFileAndCol|
      invariant |byFileAndRow| == OutputFiles
      invariant fileNo <= OutputFiles
      invariant forall f :: 0 <= f < fileNo ==> Transposable(byFileAndCol[f]) && byFileAndRow[f] == TransposeFile(byFileAndCol[f])
      invariant forall f :: fileNo <= f < OutputFiles ==> byFileAndRow[f] == []
    {
      var colsInFile := byFileAndCol[fileNo];
      if fileNo >= OutputFiles {
        return Err(IndexOutOfBoundsException);
      }
      if |colsInFile| == 0 {
        return Err(IndexOutOfBoundsException);
      }
      var rowCount := |colsInFile[0]|;
      var rowsInFile: seq<seq<Cell>> := [];
      for i := 0 to rowCount
        invariant |rowsInFile| == i
        invariant forall j :: 0 <= j < |colsInFile| ==> i <= |colsInFile[j]|
        invariant forall m :: 0 <= m < i ==> rowsInFile[m] == seq(|colsInFile|, j requires 0 <= j < |colsInFile| => colsInFile[j][m])
      {
        var valuesInRow: seq<Cell> := [];
        for j := 0 to |colsInFile|
          invariant |valuesInRow| == j
          invariant forall m :: 0 <= m < j ==> i < |colsInFile[m]| && valuesInRow[m] == colsInFile[m][i]
        {
          if i >= |colsInFile[j]| {
            assert !Transposable(byFileAndCol[fileNo]);
            return Err(IndexOutOfBoundsException);
          }
          valuesInRow := valuesInRow + [colsInFile[j][i]];
        }
        rowsInFile := rowsInFile + [valuesInRow];
      }
      byFileAndRow := byFileAndRow[fileNo := rowsInFile];
    }
    r := Ok(byFileAndRow);
  }

  /** out[f][i][j] == in[f][j][i]: the transposition moves every cell from column j, row i to row i, column j. */
  lemma TransposeCell(columns: seq<seq<Cell>>, i: nat, j: nat)
    requires Transposable(columns) && i < |columns[0]| && j < |columns|
    ensures TransposeFile(columns)[i][j] == columns[j][i]
  {
  }

  /** Transposing a rectangular file twice gives it back. */
  lemma TransposeInvolution(columns: seq<seq<Cell>>)
    requires Transposable(columns) && |columns[0]| > 0
    requires forall j :: 0 <= j < |columns| ==> |columns[j]| == |columns[0]|
    ensures Transposable(TransposeFile(columns))
    ensures TransposeFile(TransposeFile(columns)) == columns
  {
    var rows := TransposeFile(columns);
    var back := TransposeFile(rows);
    assert |back| == |columns|;
    forall j | 0 <= j < |columns| ensures back[j] == columns[j] {
      assert |back[j]| == |columns[j]|;
    }
  }

  // ---------------------------------------------------------------------------
  // Parquet records (createParquetGroup, addValueToGroup)

  /** The values a Parquet example Group stores, by the add overload that stored them. */
  datatype Primitive =
    | PInteger(i: int)
    | PLong(l: int)
    | PFloat(f: JavaFloat)
    | PDouble(g: JavaFloat)
    | PBinary(bytes: seq<Byte>)
    | PBoolean(b: bool)
    | PNanoTime(julianDay: int, timeOfDayNanos: int)

  /** A Parquet SimpleGroup: per field of its schema, the list of values added to it. */
  class SimpleGroup {
    var fields: seq<seq<Primitive>>

    /** new SimpleGroup(schema): one empty value list per field. */
    constructor(fieldCount: nat)
      ensures fields == seq(fieldCount, _ => [])
    {
      fields := seq(fieldCount, _ => []);
    }

    /** Group.add(fieldIndex, value): the value is appended to that field, the others are kept. */
    method Add(fieldIndex: nat, value: Primitive)
      requires fieldIndex < |fields|
      modifies this
      ensures fields == old(fields)[fieldIndex := old(fields)[fieldIndex] + [value]]
    {
      fields := fields[fieldIndex := fields[fieldIndex] + [value]];
    }
  }

  /**
   * addValueToGroup's dispatch on the runtime class of an encoded value; a String goes
   * through Group.add(int, String), which stores its UTF-8 Binary. BigDecimal and
   * DateTime have no add overload.
   */
  function ToPrimitive(p: Physical): (r: Result<Primitive>)
    ensures r.Err? ==> r.error == IllegalArgumentException
  {
    match p
    case Plain(JInteger(i)) => Ok(PInteger(i))
    case Plain(JLong(l)) => Ok(PLong(l))
    case Plain(JFloat(f)) => Ok(PFloat(f))
    case Plain(JDouble(g)) => Ok(PDouble(g))
    case Plain(JString(s)) => Ok(PBinary(Utf8Bytes(s)))
    case Plain(JBoolean(b)) => Ok(PBoolean(b))
    case Plain(_) => Err(IllegalArgumentException)
    case BinaryValue(bs) => Ok(PBinary(bs))
    case NanoTime(day, nanos) => Ok(PNanoTime(day, nanos))
  }

  /** The value one non-null cell contributes: its kind's encoding, then the add overload for its class. */
  function CellValue(k: Kind, value: JavaValue, calendar: Calendar): Result<Primitive> {
    var encoded := Encode(k, value, calendar);
    if encoded.Err? then Err(encoded.error) else ToPrimitive(encoded.value)
  }

  /**
   * The group's fields after the loop of createParquetGroup has passed cells 1 .. n-1:
   * a null cell is skipped; a non-null cell i needs a kind at supportedHelpers[i-1].
   */
  function AddCells(helpers: seq<Kind>, row: seq<Cell>, n: nat, start: seq<seq<Primitive>>, calendar: Calendar)
    : Result<seq<seq<Primitive>>>
    requires 1 <= n <= |row| && |start| == 1 + |helpers|
  {
    if n == 1 then Ok(start)
    else
      var before := AddCells(helpers, row, n - 1, start, calendar);
      var i := n - 1;
      if before.Err? || row[i].None? then before
      else if i > |helpers| || |before.value| != 1 + |helpers| then Err(IndexOutOfBoundsException)
      else
        var value := CellValue(helpers[i - 1], row[i].value, calendar);
        if value.Err? then Err(value.error)
        else Ok(before.value[i := before.value[i] + [value.value]])
  }

  /**
   * createParquetGroup: a group with a field for the id and one per supported kind; the
   * id, cast to Integer, goes to field 0 (a missing id raises IndexOutOfBoundsException,
   * a null one NullPointerException when unboxed, a non-Integer ClassCastException).
   */
  function GroupFields(helpers: seq<Kind>, row: seq<Cell>, calendar: Calendar): Result<seq<seq<Primitive>>> {
    if |row| == 0 then Err(IndexOutOfBoundsException)
    else if row[0].None? then Err(NullPointerException)
    else if !row[0].value.JInteger? then Err(ClassCastException)
    else
      var empty: seq<seq<Primitive>> := seq(1 + |helpers|, _ => []);
      AddCells(helpers, row, |row|, empty[0 := [PInteger(row[0].value.i)]], calendar)
  }

  /** createParquetGroup as the code does it: each cell through valueToFileFormatValue into a fresh SimpleGroup. */
  method CreateParquetGroup(helpers: seq<Kind>, row: seq<Cell>, calendar: Calendar)
    returns (r: Result<SimpleGroup>)
    ensures GroupFields(helpers, row, calendar).Err? <==> r.Err?
    ensures r.Err? ==> r.error == GroupFields(helpers, row, calendar).error
    ensures r.Ok? ==> fresh(r.value) && GroupFields(helpers, row, calendar) == Ok(r.value.fields)
  {
    var group := new SimpleGroup(1 + |helpers|);
    if |row| == 0 {
      return Err(IndexOutOfBoundsException);
    }
    if row[0].None? {
      return Err(NullPointerException);
    }
    if !row[0].value.JInteger? {
      return Err(ClassCastException);
    }
    group.Add(0, PInteger(row[0].value.i));
    ghost var start := group.fields;
    ghost var empty: seq<seq<Primitive>> := seq(1 + |helpers|, _ => []);
    assert start == empty[0 := [PInteger(row[0].value.i)]] by {
      assert forall f :: 0 <= f < |start| ==> start[f] == empty[0 := [PInteger(row[0].value.i)]][f];
    }
    var i := 1;
    while i < |row|
      invariant 1 <= i <= |row|
      invariant |group.fields| == 1 + |helpers|
      invariant AddCells(helpers, row, i, start, calendar) == Ok(group.fields)
      modifies group
    {
      if row[i].Some? {
        if i > |helpers| {
          AddCellsErrStays(helpers, row, i + 1, |row|, start, calendar);
          return Err(IndexOutOfBoundsException);
        }
        var encoded := ValueToFileFormatValue(helpers[i - 1], row[i].value, calendar);
        var value := if encoded.Err? then Err(encoded.error) else ToPrimitive(encoded.value);
        assert value == CellValue(helpers[i - 1], row[i].value, calendar);
        if value.Err? {
          AddCellsErrStays(helpers, row, i + 1, |row|, start, calendar);
          return Err(value.error);
        }
        group.Add(i, value.value);
      }
      i := i + 1;
    }
    r := Ok(group);
  }

  /** Once a cell has failed, the loop's outcome stays that failure. */
  lemma {:induction false} AddCellsErrStays(helpers: seq<Kind>, row: seq<Cell>, n: nat, m: nat, start: seq<seq<Primitive>>, calendar: Calendar)
    requires 1 <= n <= m <= |row| && |start| == 1 + |helpers|
    requires AddCells(helpers, row, n, start, calendar).Err?
    ensures AddCells(helpers, row, m, start, calendar) == AddCells(helpers, row, n, start, calendar)
    decreases m - n
  {
    if n < m {
      AddCellsErrStays(helpers, row, n, m - 1, start, calendar);
    }
  }

  /**
   * What a built group holds: the id alone in field 0, and in field i the single value
   * of cell i when that cell is non-null, nothing when it is null or missing. It is built
   * exactly when the id is an Integer and every non-null cell has a kind and encodes.
   */
  lemma GroupFieldsSpec(helpers: seq<Kind>, row: seq<Cell>, calendar: Calendar)
    ensures GroupFields(helpers, row, calendar).Ok? <==>
      && |row| > 0 && row[0].Some? && row[0].value.JInteger?
      && forall i :: 1 <= i < |row| && row[i].Some? ==> i <= |helpers| && CellValue(helpers[i - 1], row[i].value, calendar).Ok?
    ensures GroupFields(helpers, row, calendar).Ok? ==>
      var fields := GroupFields(helpers, row, calendar).value;
      && |fields| == 1 + |helpers|
      && fields[0] == [PInteger(row[0].value.i)]
      && forall i :: 1 <= i <= |helpers| ==>
        fields[i] == if i < |row| && row[i].Some? then [CellValue(helpers[i - 1], row[i].value, calendar).value] else []
  {
    if |row| > 0 && row[0].Some? && row[0].value.JInteger? {
      var empty: seq<seq<Primitive>> := seq(1 + |helpers|, _ => []);
      AddCellsSpec(helpers, row, |row|, empty[0 := [PInteger(row[0].value.i)]], calendar);
    }
  }

  /** The loop's outcome after n cells, pointwise. */
  lemma {:induction false} AddCellsSpec(helpers: seq<Kind>, row: seq<Cell>, n: nat, start: seq<seq<Primitive>>, calendar: Calendar)
    requires 1 <= n <= |row| && |start| == 1 + |helpers|
    ensures AddCells(helpers, row, n, start, calendar).Ok? <==>
      forall i :: 1 <= i < n && row[i].Some? ==> i <= |helpers| && CellValue(helpers[i - 1], row[i].value, calendar).Ok?
    ensures AddCells(helpers, row, n, start, calendar).Ok? ==>
      var fields := AddCells(helpers, row, n, start, calendar).value;
      && |fields| == 1 + |helpers|
      && fields[0] == start[0]
      && forall i :: 1 <= i <= |helpers| ==>
        fields[i] == start[i] + if i < n && row[i].Some? then [CellValue(helpers[i - 1], row[i].value, calendar).value] else []
  {
    if n > 1 {
      AddCellsSpec(helpers, row, n - 1, start, calendar);
      var before, i := AddCells(helpers, row, n - 1, start, calendar), n - 1;
      if before.Ok? && row[i].Some? && i <= |helpers| && CellValue(helpers[i - 1], row[i].value, calendar).Ok? {
        var value := CellValue(helpers[i - 1], row[i].value, calendar).value;
        var fields := before.value[i := before.value[i] + [value]];
        assert AddCells(helpers, row, n, start, calendar) == Ok(fields);
        forall m | 1 <= m <= |helpers|
          ensures fields[m] == start[m] + if m < n && row[m].Some? then [CellValue(helpers[m - 1], row[m].value, calendar).value] else []
        {
          if m != i {
            assert fields[m] == before.value[m];
          }
        }
      }
    }
  }

  // ---------------------------------------------------------------------------
  // Result comparison (rowsToString, validateData)

  /** A cell of a query result, by the text of its toString; None is SQL NULL. */
  type ResultCell = Option<string>

  /** The canonical text of a result cell. */
  function CellText(cell: ResultCell): string {
    if cell.None? then "NULL" else cell.value
  }

  /** The texts of a row's cells. */
  function CellTexts(row: seq<ResultCell>): (texts: seq<string>)
    ensures |texts| == |row| && forall j :: 0 <= j < |row| ==> texts[j] == CellText(row[j])
  {
    seq(|row|, j requires 0 <= j < |row| => CellText(row[j]))
  }

  /** The line of a row: its cell texts joined by tabs. */
  function RenderRow(row: seq<ResultCell>): string {
    Join("\t", CellTexts(row))
  }

  /** The lines of a result. */
  function RenderRows(rows: seq<seq<ResultCell>>): (lines: seq<string>)
    ensures |lines| == |rows| && forall i :: 0 <= i < |rows| ==> lines[i] == RenderRow(rows[i])
  {
    seq(|rows|, i requires 0 <= i < |rows| => RenderRow(rows[i]))
  }

  /** The canonical text of a result: its row lines joined by newlines. */
  function Render(rows: seq<seq<ResultCell>>): string {
    Join("\n", RenderRows(rows))
  }

  /** rowsToString: two StringJoiners, one per row with tabs, one for the table with newlines. */
  method RowsToString(rows: seq<seq<ResultCell>>) returns (text: string)
    ensures text == Render(rows)
  {
    var table := "";
    for i := 0 to |rows|
      invariant table == Join("\n", RenderRows(rows)[..i])
    {
      var row := rows[i];
      var line := "";
      for j := 0 to |row|
        invariant line == Join("\t", CellTexts(row)[..j])
      {
        var value := row[j];
        var cellText := if value.None? then "NULL" else value.value;
        assert CellTexts(row)[..j + 1][..j] == CellTexts(row)[..j];
        line := if j == 0 then cellText else line + "\t" + cellText;
      }
      assert CellTexts(row)[..|row|] == CellTexts(row);
      assert RenderRows(rows)[..i + 1][..i] == RenderRows(rows)[..i];
      table := if i == 0 then line else table + "\n" + line;
    }
    assert RenderRows(rows)[..|rows|] == RenderRows(rows);
    text := table;
  }

  /** validateData: assertEquals on the two renderings. */
  function Compare(reference: seq<seq<ResultCell>>, actual: seq<seq<ResultCell>>): (r: Result<()>)
    ensures r.Ok? <==> Render(reference) == Render(actual)
    ensures r.Err? ==> r.error == AssertionError(Render(reference), Render(actual))
  {
    var expected, got := Render(reference), Render(actual);
    if expected == got then Ok(()) else Err(AssertionError(expected, got))
  }

  /** validateData as the code does it. */
  method ValidateData(reference: seq<seq<ResultCell>>, actual: seq<seq<ResultCell>>) returns (r: Result<()>)
    ensures r == Compare(reference, actual)
  {
    var expected := RowsToString(reference);
    var got := RowsToString(actual);
    if expected == got {
      r := Ok(());
    } else {
      r := Err(AssertionError(expected, got));
    }
  }

  /** The rendering of [[1, null]] is "1\tNULL". */
  lemma RenderNullCell()
    ensures Render([[Some("1"), None]]) == "1\tNULL"
  {
    assert CellTexts([Some("1"), None]) == ["1", "NULL"];
  }

  /**
   * A non-empty result whose rows each have a cell, whose texts hold no tab or newline and
   * are never the text NULL.
   */
  predicate Unambiguous(rows: seq<seq<ResultCell>>) {
    && |rows| > 0
    && forall i :: 0 <= i < |rows| ==> (
      && |rows[i]| > 0
      && forall j :: 0 <= j < |rows[i]| ==> (
        && rows[i][j] != Some("NULL")
        && (rows[i][j].Some? ==> '\t' !in rows[i][j].value && '\n' !in rows[i][j].value)))
  }

  /** For unambiguous results the comparison is exact: equal renderings mean equal results. */
  lemma RenderInjective(xs: seq<seq<ResultCell>>, ys: seq<seq<ResultCell>>)
    requires Unambiguous(xs) && Unambiguous(ys)
    ensures Render(xs) == Render(ys) <==> xs == ys
  {
    if Render(xs) == Render(ys) {
      var lx, ly := RenderRows(xs), RenderRows(ys);
      forall i | 0 <= i < |lx| ensures '\n' !in lx[i] {
        LineAvoidsNewline(xs[i]);
      }
      forall i | 0 <= i < |ly| ensures '\n' !in ly[i] {
        LineAvoidsNewline(ys[i]);
      }
      JoinInjective('\n', lx, ly);
      forall i | 0 <= i < |xs| ensures xs[i] == ys[i] {
        assert lx[i] == ly[i];
        RowInjective(xs[i], ys[i]);
      }
    }
  }

  /** The line of a row with no newline in its cells holds no newline. */
  lemma LineAvoidsNewline(row: seq<ResultCell>)
    requires forall j :: 0 <= j < |row| && row[j].Some? ==> '\n' !in row[j].value
    ensures '\n' !in RenderRow(row)
  {
    JoinAvoids('\n', "\t", CellTexts(row));
  }

  /** A line determines its cells when they are non-empty in number, tab-free and never the text NULL. */
  lemma RowInjective(x: seq<ResultCell>, y: seq<ResultCell>)
    requires |x| > 0 && |y| > 0
    requires forall j :: 0 <= j < |x| ==> x[j] != Some("NULL") && (x[j].Some? ==> '\t' !in x[j].value)
    requires forall j :: 0 <= j < |y| ==> y[j] != Some("NULL") && (y[j].Some? ==> '\t' !in y[j].value)
    requires RenderRow(x) == RenderRow(y)
    ensures x == y
  {
    JoinInjective('\t', CellTexts(x), CellTexts(y));
    forall j | 0 <= j < |x| ensures x[j] == y[j] {
      assert CellText(x[j]) == CellText(y[j]);
    }
  }

  /**
   * Without those conditions the comparison conflates: a null and the string "NULL", no rows
   * and one empty row, and no rows and one row holding the empty string.
   */
  lemma RenderConflates()
    ensures Render([[None]]) == Render([[Some("NULL")]])
    ensures Render([]) == Render([[]])
    ensures Render([]) == Render([[Some("")]])
  {
    assert CellTexts([None]) == CellTexts([Some("NULL")]) == ["NULL"];
    assert CellTexts([]) == [];
  }

  // ---------------------------------------------------------------------------
  // Schema and DDL (createParquetSchema, createParquetTable)

  /** A Parquet message type: its name and its fields in order. */
  datatype MessageSchema = MessageSchema(name: string, fields: seq<Field>)

  /** The optional INT32 field of the row ids. */
  const IdField: Field := Field("id", Int32Type, NoAnnotation)

  /** The fields of the kinds, in order. */
  function KindFields(helpers: seq<Kind>): (fields: seq<Field>)
    ensures |fields| == |helpers|
    ensures forall i :: 0 <= i < |helpers| ==> fields[i] == Schema(helpers[i])
  {
    seq(|helpers|, i requires 0 <= i < |helpers| => Schema(helpers[i]))
  }

  /** The schema of the files: message "record" with the id field, then each kind's field. */
  function ParquetSchema(helpers: seq<Kind>): (schema: MessageSchema)
    ensures |schema.fields| == 1 + |helpers|
  {
    MessageSchema("record", [IdField] + KindFields(helpers))
  }

  /** createParquetSchema: the message builder gets the id field, then one field per kind. */
  method CreateParquetSchema(helpers: seq<Kind>) returns (schema: MessageSchema)
    ensures schema == ParquetSchema(helpers)
  {
    ghost var kindFields := KindFields(helpers);
    var fields := [IdField];
    for i := 0 to |helpers|
      invariant fields == [IdField] + kindFields[..i]
    {
      var field := Schema(helpers[i]);
      assert kindFields[..i + 1] == kindFields[..i] + [field];
      fields := fields + [field];
    }
    assert kindFields[..|helpers|] == kindFields;
    schema := MessageSchema("record", fields);
  }

  /** Field 0 of the schema is named "id" and field j + 1 after kind j's column. */
  lemma SchemaFieldName(helpers: seq<Kind>, j: nat)
    requires j < |helpers|
    ensures ParquetSchema(helpers).fields[0].name == "id"
    ensures ParquetSchema(helpers).fields[j + 1].name == ColumnName(helpers[j])
  {
    assert ParquetSchema(helpers).fields[j + 1] == KindFields(helpers)[j] == Schema(helpers[j]);
  }

  /** The field names of the schema are distinct when each kind occurs once: "id", then distinct column names. */
  lemma SchemaNamesDistinct(helpers: seq<Kind>)
    requires InDeclarationOrder(helpers)
    ensures var fields := ParquetSchema(helpers).fields;
      forall i, j :: 0 <= i < j < |fields| ==> fields[i].name != fields[j].name
  {
    var fields := ParquetSchema(helpers).fields;
    forall i, j | 0 <= i < j < |fields| ensures fields[i].name != fields[j].name {
      if i == 0 {
        IdNameDiffers(helpers, j);
      } else {
        assert Ordinal(helpers[i - 1]) < Ordinal(helpers[j - 1]);
        KindNamesDiffer(helpers, i, j);
      }
    }
  }

  /** The id field's name differs from every kind field's. */
  lemma IdNameDiffers(helpers: seq<Kind>, j: nat)
    requires 0 < j <= |helpers|
    ensures ParquetSchema(helpers).fields[0].name != ParquetSchema(helpers).fields[j].name
  {
    SchemaFieldName(helpers, j - 1);
    ColumnNameNotId(helpers[j - 1]);
  }

  /** Two kind fields have distinct names when their kinds are distinct. */
  lemma KindNamesDiffer(helpers: seq<Kind>, i: nat, j: nat)
    requires 0 < i <= |helpers| && 0 < j <= |helpers| && helpers[i - 1] != helpers[j - 1]
    ensures ParquetSchema(helpers).fields[i].name != ParquetSchema(helpers).fields[j].name
  {
    var fields := ParquetSchema(helpers).fields;
    var ki, kj := helpers[i - 1], helpers[j - 1];
    assert fields[i] == Schema(ki) && fields[j] == Schema(kj);
    ColumnNamesDistinct(ki, kj);
  }

  /** The column declarations of the DDL: name, a space, SQL type. */
  function ColumnDecls(helpers: seq<Kind>): (decls: seq<string>)
    ensures |decls| == |helpers|
  {
    seq(|helpers|, i requires 0 <= i < |helpers| => ColumnName(helpers[i]) + " " + SqlType(helpers[i]))
  }

  /** The DDL text createParquetTable executes on the writer. */
  function CreateTableDdl(table: string, location: string, helpers: seq<Kind>): string {
    "CREATE EXTERNAL TABLE " + table + "(id int, " + Join(", ", ColumnDecls(helpers))
    + ")\nSTORED AS PARQUET\nLOCATION '" + location + "'"
  }

  /** createParquetTable's StringBuilder loop, with its separator that becomes ", " after the first column. */
  method CreateParquetTableDdl(table: string, location: string, helpers: seq<Kind>) returns (ddl: string)
    ensures ddl == CreateTableDdl(table, location, helpers)
  {
    ghost var decls := ColumnDecls(helpers);
    var builder := "CREATE EXTERNAL TABLE " + table + "(id int, ";
    ghost var head := builder;
    var sep := "";
    for i := 0 to |helpers|
      invariant builder == head + Join(", ", decls[..i])
      invariant sep == if i == 0 then "" else ", "
    {
      var decl := ColumnName(helpers[i]) + " " + SqlType(helpers[i]);
      assert decls[i] == decl;
      JoinStep(head, ", ", decls, i);
      builder := builder + sep + decl;
      sep := ", ";
    }
    assert decls[..|helpers|] == decls;
    ddl := builder + ")\nSTORED AS PARQUET\nLOCATION '" + location + "'";
  }

  /** Declaration i of the DDL names schema field i + 1 and gives its kind's SQL type. */
  lemma DeclNamesField(helpers: seq<Kind>, i: nat)
    requires i < |helpers|
    ensures ColumnDecls(helpers)[i] == ParquetSchema(helpers).fields[i + 1].name + " " + SqlType(helpers[i])
  {
    var k := helpers[i];
    assert ParquetSchema(helpers).fields[i + 1] == KindFields(helpers)[i] == Schema(k);
    assert ColumnDecls(helpers)[i] == ColumnName(k) + " " + SqlType(k);
  }

  /**
   * The table the DDL declares matches the files: declaration i names schema field i + 1
   * and gives the SQL type of the same kind, whose DECIMAL(p,s) agrees with the field's
   * decimal annotation.
   */
  lemma DdlMatchesSchema(helpers: seq<Kind>, i: nat)
    requires i < |helpers|
    ensures ColumnDecls(helpers)[i] == ParquetSchema(helpers).fields[i + 1].name + " " + SqlType(helpers[i])
    ensures ParquetSchema(helpers).fields[i + 1].annotation.DecimalAnnotation? ==>
      var a := ParquetSchema(helpers).fields[i + 1].annotation;
      SqlType(helpers[i]) == "DECIMAL(" + NatText(a.precision) + "," + NatText(a.scale) + ")"
  {
    DeclNamesField(helpers, i);
    assert ParquetSchema(helpers).fields[i + 1] == KindFields(helpers)[i] == Schema(helpers[i]);
  }

  // ---------------------------------------------------------------------------
  // Writing the files (writeParquetFiles, writeDataToParquetFiles)

  /** The stored form of a Primitive matches a schema field: the add overload and the physical type agree. */
  predicate PrimitiveConforms(p: Primitive, f: Field) {
    match f.primitive
    case BooleanType => p.PBoolean?
    case Int32Type => p.PInteger? && Fits(p.i, 4)
    case Int64Type => p.PLong? && Fits(p.l, 8)
    case Int96Type => p.PNanoTime? && Fits(p.julianDay, 4) && 0 <= p.timeOfDayNanos < 86400000000000
    case FloatType => p.PFloat?
    case DoubleType => p.PDouble?
    case FixedLenByteArray(n) => p.PBinary? && |p.bytes| == n
    case BinaryType => p.PBinary?
  }

  /** A record matches a schema: a value list per field, at most one value in each (all fields are optional). */
  predicate RecordConforms(fields: seq<seq<Primitive>>, schema: MessageSchema) {
    && |fields| == |schema.fields|
    && forall j :: 0 <= j < |fields| ==> FieldMatches(fields[j], schema.fields[j])
  }

  /** The values of one field: at most one (the field is optional), each of the field's type. */
  predicate FieldMatches(values: seq<Primitive>, f: Field) {
    |values| <= 1 && forall p :: p in values ==> PrimitiveConforms(p, f)
  }

  /** A value that matches its field in encoded form is stored through the matching add overload. */
  lemma ToPrimitiveConforms(p: Physical, f: Field)
    requires Conforms(p, f)
    ensures ToPrimitive(p).Ok? && PrimitiveConforms(ToPrimitive(p).value, f)
  {
  }

  /** The records of one written file: one group per row, in row order; the first failing row fails the file. */
  type WrittenFile = seq<seq<seq<Primitive>>>

  function FileRecords(helpers: seq<Kind>, rows: seq<seq<Cell>>, calendar: Calendar): Result<WrittenFile> {
    if rows == [] then Ok([])
    else
      var before := FileRecords(helpers, rows[..|rows| - 1], calendar);
      var group := GroupFields(helpers, rows[|rows| - 1], calendar);
      if before.Err? then before
      else if group.Err? then Err(group.error)
      else Ok(before.value + [group.value])
  }

  /** The records of every file, file after file; the first failing file fails the write. */
  function FilesRecords(helpers: seq<Kind>, files: seq<seq<seq<Cell>>>, calendar: Calendar): Result<seq<WrittenFile>> {
    if files == [] then Ok([])
    else
      var before := FilesRecords(helpers, files[..|files| - 1], calendar);
      var file := FileRecords(helpers, files[|files| - 1], calendar);
      if before.Err? then before
      else if file.Err? then Err(file.error)
      else Ok(before.value + [file.value])
  }

  /** The dataset by file and row: the transposed files, then the empty fourth list. */
  function RowOriented(helpers: seq<Kind>): (files: seq<seq<seq<Cell>>>)
    ensures |files| == OutputFiles
  {
    DatasetShape(helpers);
    seq(OutputFiles, f requires 0 <= f < OutputFiles => if f < FileCount then TransposeFile(Dataset(helpers)[f]) else [])
  }

  /**
   * The rows of the dataset: file f has RowCount(f) rows; row i holds id FirstId(f) + i and
   * then, per kind, null or the value the placement picks for that row; the fourth list is empty.
   */
  lemma RowOrientedShape(helpers: seq<Kind>)
    ensures RowOriented(helpers)[FileCount] == []
    ensures forall f :: 0 <= f < FileCount ==> |RowOriented(helpers)[f]| == RowCount(f)
    ensures forall f, i :: 0 <= f < FileCount && 0 <= i < RowCount(f) ==>
      |RowOriented(helpers)[f][i]| == 1 + |helpers| && RowOriented(helpers)[f][i][0] == Some(JInteger(FirstId(f) + i))
    ensures forall f, i, j :: 0 <= f < FileCount && 0 <= i < RowCount(f) && 1 <= j <= |helpers| ==>
      RowOriented(helpers)[f][i][j] == if Placement(f)[i].Null? then None else Some(Values(helpers[j - 1])[Placement(f)[i].rank])
  {
    forall f | 0 <= f < FileCount
      ensures |RowOriented(helpers)[f]| == RowCount(f)
      ensures forall i :: 0 <= i < RowCount(f) ==>
        |RowOriented(helpers)[f][i]| == 1 + |helpers| && RowOriented(helpers)[f][i][0] == Some(JInteger(FirstId(f) + i))
      ensures forall i, j :: 0 <= i < RowCount(f) && 1 <= j <= |helpers| ==>
        RowOriented(helpers)[f][i][j] == if Placement(f)[i].Null? then None else Some(Values(helpers[j - 1])[Placement(f)[i].rank])
    {
      TransposedFileShape(helpers, f);
    }
  }

  /** One transposed file of the dataset, cell by cell. */
  lemma TransposedFileShape(helpers: seq<Kind>, f: nat)
    requires f < FileCount
    ensures |RowOriented(helpers)[f]| == RowCount(f)
    ensures forall i :: 0 <= i < RowCount(f) ==>
      |RowOriented(helpers)[f][i]| == 1 + |helpers| && RowOriented(helpers)[f][i][0] == Some(JInteger(FirstId(f) + i))
    ensures forall i, j :: 0 <= i < RowCount(f) && 1 <= j <= |helpers| ==>
      RowOriented(helpers)[f][i][j] == if Placement(f)[i].Null? then None else Some(Values(helpers[j - 1])[Placement(f)[i].rank])
  {
    DatasetShape(helpers);
    var cols := Dataset(helpers)[f];
    assert RowOriented(helpers)[f] == TransposeFile(cols);
    forall i, j | 0 <= i < RowCount(f) && 1 <= j <= |helpers|
      ensures RowOriented(helpers)[f][i][j] == if Placement(f)[i].Null? then None else Some(Values(helpers[j - 1])[Placement(f)[i].rank])
    {
      assert cols[j] == Fill(Placement(f), Values(helpers[j - 1]));
    }
  }

  /** What writeParquetFiles writes: the records of each of the four row lists. */
  function WrittenFiles(helpers: seq<Kind>, calendar: Calendar): Result<seq<WrittenFile>> {
    FilesRecords(helpers, RowOriented(helpers), calendar)
  }

  /** writeDataToParquetFiles: for each file, a group per row, written in order. */
  method WriteDataToParquetFiles(helpers: seq<Kind>, byFileAndRow: seq<seq<seq<Cell>>>, calendar: Calendar)
    returns (r: Result<seq<WrittenFile>>)
    ensures r == FilesRecords(helpers, byFileAndRow, calendar)
  {
    var written: seq<WrittenFile> := [];
    for fileNo := 0 to |byFileAndRow|
      invariant FilesRecords(helpers, byFileAndRow[..fileNo], calendar) == Ok(written)
    {
      assert byFileAndRow[..fileNo + 1][..fileNo] == byFileAndRow[..fileNo];
      var rowsInFile := byFileAndRow[fileNo];
      var records: WrittenFile := [];
      for i := 0 to |rowsInFile|
        invariant FileRecords(helpers, rowsInFile[..i], calendar) == Ok(records)
      {
        assert rowsInFile[..i + 1][..i] == rowsInFile[..i];
        var group := CreateParquetGroup(helpers, rowsInFile[i], calendar);
        if group.Err? {
          FileRecordsErrStays(helpers, rowsInFile, i + 1, calendar);
          assert rowsInFile[..|rowsInFile|] == rowsInFile;
          FilesRecordsErrStays(helpers, byFileAndRow, fileNo + 1, calendar);
          return Err(group.error);
        }
        records := records + [group.value.fields];
      }
      assert rowsInFile[..|rowsInFile|] == rowsInFile;
      written := written + [records];
    }
    assert byFileAndRow[..|byFileAndRow|] == byFileAndRow;
    r := Ok(written);
  }

  /** writeParquetFiles: generate the columns, transpose them, write the rows. */
  method WriteParquetFiles(helpers: seq<Kind>, calendar: Calendar) returns (r: Result<seq<WrittenFile>>)
    ensures r == WrittenFiles(helpers, calendar)
  {
    var byFileAndCol := GenerateColumnOrientedData(helpers);
    DatasetShape(helpers);
    var byFileAndRow := ConvertColumnOrientedDataToRowOriented(byFileAndCol);
    assert byFileAndRow.value == RowOriented(helpers);
    r := WriteDataToParquetFiles(helpers, byFileAndRow.value, calendar);
  }

  /** Once a row has failed, the file stays failed with that error. */
  lemma {:induction false} FileRecordsErrStays(helpers: seq<Kind>, rows: seq<seq<Cell>>, n: nat, calendar: Calendar)
    requires n <= |rows| && FileRecords(helpers, rows[..n], calendar).Err?
    ensures FileRecords(helpers, rows, calendar) == FileRecords(helpers, rows[..n], calendar)
  {
    if n < |rows| {
      var init := rows[..|rows| - 1];
      assert init[..n] == rows[..n];
      FileRecordsErrStays(helpers, init, n, calendar);
    } else {
      assert rows[..n] == rows;
    }
  }

  /** Once a file has failed, the write stays failed with that error. */
  lemma {:induction false} FilesRecordsErrStays(helpers: seq<Kind>, files: seq<seq<seq<Cell>>>, n: nat, calendar: Calendar)
    requires n <= |files| && FilesRecords(helpers, files[..n], calendar).Err?
    ensures FilesRecords(helpers, files, calendar) == FilesRecords(helpers, files[..n], calendar)
  {
    if n < |files| {
      var init := files[..|files| - 1];
      assert init[..n] == files[..n];
      FilesRecordsErrStays(helpers, init, n, calendar);
    } else {
      assert files[..n] == files;
    }
  }

  /** A file is written exactly when every row makes a group, and then record r is the group of row r. */
  lemma {:induction false} FileRecordsSpec(helpers: seq<Kind>, rows: seq<seq<Cell>>, calendar: Calendar)
    ensures FileRecords(helpers, rows, calendar).Ok? <==>
      forall r :: 0 <= r < |rows| ==> GroupFields(helpers, rows[r], calendar).Ok?
    ensures FileRecords(helpers, rows, calendar).Ok? ==>
      var records := FileRecords(helpers, rows, calendar).value;
      |records| == |rows| && forall r :: 0 <= r < |rows| ==> records[r] == GroupFields(helpers, rows[r], calendar).value
  {
    if rows != [] {
      var init := rows[..|rows| - 1];
      FileRecordsSpec(helpers, init, calendar);
      assert forall r :: 0 <= r < |init| ==> init[r] == rows[r];
    }
  }

  /** The write succeeds exactly when every file is written, and then file f holds the records of row list f. */
  lemma {:induction false} FilesRecordsSpec(helpers: seq<Kind>, files: seq<seq<seq<Cell>>>, calendar: Calendar)
    ensures FilesRecords(helpers, files, calendar).Ok? <==>
      forall f :: 0 <= f < |files| ==> FileRecords(helpers, files[f], calendar).Ok?
    ensures FilesRecords(helpers, files, calendar).Ok? ==>
      var written := FilesRecords(helpers, files, calendar).value;
      |written| == |files| && forall f :: 0 <= f < |files| ==> written[f] == FileRecords(helpers, files[f], calendar).value
  {
    if files != [] {
      var init := files[..|files| - 1];
      FilesRecordsSpec(helpers, init, calendar);
      assert forall f :: 0 <= f < |init| ==> init[f] == files[f];
    }
  }

  /** The row ids fit the INT32 id field. */
  lemma IdsFitInt32(f: nat, i: nat)
    requires f < FileCount && i < RowCount(f)
    ensures Fits(FirstId(f) + i, 4)
  {
    assert Pow256(4) == 256 * 256 * 256 * 256;
  }

  /**
   * Row i of file f makes a group: the id alone in field 0, and every non-null cell encoded
   * into a value that matches its kind's field, so the record matches the file schema.
   */
  lemma DatasetRecordConforms(helpers: seq<Kind>, f: nat, i: nat, calendar: Calendar)
    requires f < FileCount && i < |RowOriented(helpers)[f]|
    ensures GroupFields(helpers, RowOriented(helpers)[f][i], calendar).Ok?
    ensures var fields := GroupFields(helpers, RowOriented(helpers)[f][i], calendar).value;
      RecordConforms(fields, ParquetSchema(helpers)) && fields[0] == [PInteger(FirstId(f) + i)]
  {
    RowOrientedShape(helpers);
    var row := RowOriented(helpers)[f][i];
    IdsFitInt32(f, i);
    forall j | 1 <= j < |row| && row[j].Some? ensures row[j].value in Values(helpers[j - 1]) {
      assert row[j].value == Values(helpers[j - 1])[Placement(f)[i].rank];
    }
    RepresentativeRowConforms(helpers, row, FirstId(f) + i, calendar);
  }

  /**
   * A row of an INT32 id and, per kind, null or one of the kind's representative values
   * makes a group that matches the file schema, with the id alone in field 0.
   */
  lemma RepresentativeRowConforms(helpers: seq<Kind>, row: seq<Cell>, id: int, calendar: Calendar)
    requires |row| == 1 + |helpers| && row[0] == Some(JInteger(id)) && Fits(id, 4)
    requires forall j :: 1 <= j < |row| && row[j].Some? ==> row[j].value in Values(helpers[j - 1])
    ensures GroupFields(helpers, row, calendar).Ok?
    ensures var fields := GroupFields(helpers, row, calendar).value;
      RecordConforms(fields, ParquetSchema(helpers)) && fields[0] == [PInteger(id)]
  {
    forall j | 1 <= j < |row| ensures CellMatches(helpers[j - 1], row[j], calendar) {
      if row[j].Some? {
        var rank :| 0 <= rank < 4 && Values(helpers[j - 1])[rank] == row[j].value;
        CellConforms(helpers[j - 1], rank, calendar);
      }
    }
    ConformingRow(helpers, row, id, calendar);
  }

  /** A cell is null, or its value makes a group value matching its kind's field. */
  predicate CellMatches(k: Kind, cell: Cell, calendar: Calendar) {
    cell.Some? ==>
      && CellValue(k, cell.value, calendar).Ok?
      && PrimitiveConforms(CellValue(k, cell.value, calendar).value, Schema(k))
  }

  /** A row whose every non-null cell makes a value matching its kind's field makes a matching group. */
  lemma ConformingRow(helpers: seq<Kind>, row: seq<Cell>, id: int, calendar: Calendar)
    requires |row| == 1 + |helpers| && row[0] == Some(JInteger(id)) && Fits(id, 4)
    requires forall j :: 1 <= j < |row| ==> CellMatches(helpers[j - 1], row[j], calendar)
    ensures GroupFields(helpers, row, calendar).Ok?
    ensures var fields := GroupFields(helpers, row, calendar).value;
      RecordConforms(fields, ParquetSchema(helpers)) && fields[0] == [PInteger(id)]
  {
    GroupFieldsSpec(helpers, row, calendar);
    var fields := GroupFields(helpers, row, calendar).value;
    var schema := ParquetSchema(helpers);
    forall j | 0 <= j < |fields| ensures FieldMatches(fields[j], schema.fields[j]) {
      if j == 0 {
        assert fields[0] == [PInteger(id)];
      } else {
        assert fields[j] == if row[j].Some? then [CellValue(helpers[j - 1], row[j].value, calendar).value] else [];
        FieldConforms(helpers, row, j, fields[j], calendar);
      }
    }
  }

  /** The values a group holds for cell j match schema field j when every cell's value matches its kind's field. */
  lemma FieldConforms(helpers: seq<Kind>, row: seq<Cell>, j: nat, values: seq<Primitive>, calendar: Calendar)
    requires |row| == 1 + |helpers| && 1 <= j < |row|
    requires forall m :: 1 <= m < |row| ==> CellMatches(helpers[m - 1], row[m], calendar)
    requires row[j].Some? ==> CellValue(helpers[j - 1], row[j].value, calendar).Ok?
    requires values == if row[j].Some? then [CellValue(helpers[j - 1], row[j].value, calendar).value] else []
    ensures FieldMatches(values, ParquetSchema(helpers).fields[j])
  {
    var k := helpers[j - 1];
    assert CellMatches(k, row[j], calendar);
    assert ParquetSchema(helpers).fields[j] == KindFields(helpers)[j - 1] == Schema(k);
    if row[j].Some? {
      SingleValueConforms(values, CellValue(k, row[j].value, calendar).value, Schema(k));
    }
  }

  /** A field holding exactly one matching value matches. */
  lemma SingleValueConforms(values: seq<Primitive>, value: Primitive, f: Field)
    requires values == [value] && PrimitiveConforms(value, f)
    ensures FieldMatches(values, f)
  {
  }

  /** A representative value makes a group value that matches its kind's field. */
  lemma CellConforms(k: Kind, rank: nat, calendar: Calendar)
    requires rank < 4
    ensures CellValue(k, Values(k)[rank], calendar).Ok?
    ensures PrimitiveConforms(CellValue(k, Values(k)[rank], calendar).value, Schema(k))
  {
    RepresentativeValuesConform(k, rank, calendar);
    ToPrimitiveConforms(Encode(k, Values(k)[rank], calendar).value, Schema(k));
  }

  /**
   * The files written: three files of 7, 9 and 7 records and an empty fourth file; record
   * i of file f carries id FirstId(f) + i, and every record matches the file schema.
   */
  lemma WrittenFilesConform(helpers: seq<Kind>, calendar: Calendar)
    ensures WrittenFiles(helpers, calendar).Ok?
    ensures var written := WrittenFiles(helpers, calendar).value;
      && |written| == OutputFiles && written[FileCount] == []
      && forall f :: 0 <= f < FileCount ==>
        && |written[f]| == RowCount(f)
        && forall i :: 0 <= i < RowCount(f) ==>
          RecordConforms(written[f][i], ParquetSchema(helpers)) && written[f][i][0] == [PInteger(FirstId(f) + i)]
  {
    RowOrientedShape(helpers);
    var files := RowOriented(helpers);
    forall f | 0 <= f < |files|
      ensures FileRecords(helpers, files[f], calendar).Ok?
      ensures f < FileCount ==>
        var records := FileRecords(helpers, files[f], calendar).value;
        |records| == RowCount(f) && forall i :: 0 <= i < RowCount(f) ==>
          RecordConforms(records[i], ParquetSchema(helpers)) && records[i][0] == [PInteger(FirstId(f) + i)]
    {
      if f < FileCount {
        forall i | 0 <= i < |files[f]|
          ensures GroupFields(helpers, files[f][i], calendar).Ok?
          ensures var fields := GroupFields(helpers, files[f][i], calendar).value;
            RecordConforms(fields, ParquetSchema(helpers)) && fields[0] == [PInteger(FirstId(f) + i)]
        {
          DatasetRecordConforms(helpers, f, i, calendar);
        }
      }
      FileRecordsSpec(helpers, files[f], calendar);
    }
    FilesRecordsSpec(helpers, files, calendar);
  }

  // ---------------------------------------------------------------------------
  // Queries (validateQueryResults, testFiltering)

  /** The operators of the "all" preset; the default preset is "=" alone. */
  const AllOperators: seq<string> := ["=", "<", ">", "<=", ">=", "!=", "IS", "IS NOT"]
  const DefaultOperators: seq<string> := ["="]

  /** The query of testFiltering: SELECT id, <col> FROM <table> WHERE <col> <op> <literal> ORDER BY id. */
  function QueryText(column: string, table: string, op: string, literal: string): string {
    "SELECT id, " + column + " FROM " + table + " WHERE " + column + " " + op + " " + literal + " ORDER BY id"
  }

  /** The reading engine: the rows a query returns, with predicate pushdown off (false) or on (true). */
  type Engine = (string, bool) -> seq<seq<ResultCell>>

  /** validateQueryResults: the query run without pushdown is the reference for the query run with it. */
  function CheckQuery(engine: Engine, query: string): (r: Result<()>)
    ensures r.Ok? <==> Render(engine(query, false)) == Render(engine(query, true))
    ensures r.Err? ==> r.error == AssertionError(Render(engine(query, false)), Render(engine(query, true)))
  {
    Compare(engine(query, false), engine(query, true))
  }

  /** validateQueryResults as the code does it: reference run, actual run, then validateData. */
  method ValidateQueryResults(engine: Engine, query: string) returns (r: Result<()>)
    ensures r == CheckQuery(engine, query)
  {
    var referenceRows := engine(query, false);
    var actualRows := engine(query, true);
    r := ValidateData(referenceRows, actualRows);
  }

  /** How a test case ends: skipped for an unsupported kind, or the queries issued and the first failure. */
  datatype TestOutcome = Skipped | Finished(queries: seq<string>, failure: Option<Exception>)

  /** The SQL literals of the kind's four values, lowest first. */
  function Literals(k: Kind): (literals: seq<Result<string>>)
    ensures |literals| == 4
  {
    seq(4, i requires 0 <= i < 4 => ValueToSqlLiteral(k, Some(Values(k)[i])))
  }

  /** Every representative value has a literal. */
  lemma LiteralsRender(k: Kind)
    ensures forall i :: 0 <= i < 4 ==> Literals(k)[i].Ok?
  {
    forall i | 0 <= i < 4 ensures Literals(k)[i].Ok? {
      RepresentativeLiterals(k, i);
    }
  }

  /**
   * The default branch of testFiltering after n literals: the query for each literal in
   * order, stopping at the first literal that could not be rendered or the first query
   * whose results differ.
   */
  function ValueQueries(queryFor: string -> string, literals: seq<Result<string>>, check: string -> Result<()>, n: nat)
    : (o: TestOutcome)
    requires n <= |literals|
    ensures o.Finished? && |o.queries| <= n
  {
    if n == 0 then Finished([], None)
    else
      var before := ValueQueries(queryFor, literals, check, n - 1);
      var literal := literals[n - 1];
      if before.failure.Some? then before
      else if literal.Err? then Finished(before.queries, Some(literal.error))
      else
        var query := queryFor(literal.value);
        var result := check(query);
        Finished(before.queries + [query], if result.Err? then Some(result.error) else None)
  }

  /** The query testFiltering issues for a literal of the kind. */
  function FilterQuery(k: Kind, table: string, op: string): string -> string {
    literal => QueryText(ColumnName(k), table, op, literal)
  }

  /** validateQueryResults against the engine, as a check of one query. */
  function QueryCheck(engine: Engine): string -> Result<()> {
    query => CheckQuery(engine, query)
  }

  /** testFiltering: skipped unless the kind is supported; IS and IS NOT compare against NULL, other operators against each value. */
  function Filtering(helpers: seq<Kind>, k: Kind, op: string, table: string, engine: Engine): TestOutcome {
    if k !in helpers then Skipped
    else if op == "IS" || op == "IS NOT" then
      var query := QueryText(ColumnName(k), table, op, "NULL");
      var check := CheckQuery(engine, query);
      Finished([query], if check.Err? then Some(check.error) else None)
    else ValueQueries(FilterQuery(k, table, op), Literals(k), QueryCheck(engine), 4)
  }

  /** Once a query has failed, no further query is issued and the failure stays. */
  lemma {:induction false} ValueQueriesFailureStays(queryFor: string -> string, literals: seq<Result<string>>,
                                                    check: string -> Result<()>, n: nat, m: nat)
    requires n <= m <= |literals| && ValueQueries(queryFor, literals, check, n).failure.Some?
    ensures ValueQueries(queryFor, literals, check, m) == ValueQueries(queryFor, literals, check, n)
    decreases m - n
  {
    if n < m {
      ValueQueriesFailureStays(queryFor, literals, check, n, m - 1);
    }
  }

  /**
   * The default branch, query by query, when every literal renders: query i is the one for
   * literal i; a passing run has issued a query per literal and each agreed with and
   * without pushdown; a failing run ends at the first query that did not, with that
   * query's AssertionError.
   */
  lemma {:induction false} ValueQueriesSpec(queryFor: string -> string, literals: seq<Result<string>>, check: string -> Result<()>, n: nat)
    requires n <= |literals| && forall i :: 0 <= i < |literals| ==> literals[i].Ok?
    ensures var o := ValueQueries(queryFor, literals, check, n);
      && (forall i :: 0 <= i < |o.queries| ==> o.queries[i] == queryFor(literals[i].value))
      && (forall i :: 0 <= i < |o.queries| - 1 ==> check(o.queries[i]).Ok?)
      && (o.failure.None? ==> |o.queries| == n && forall i :: 0 <= i < n ==> check(o.queries[i]).Ok?)
      && (o.failure.Some? ==> |o.queries| > 0 && check(o.queries[|o.queries| - 1]) == Err(o.failure.value))
  {
    if n > 0 {
      ValueQueriesSpec(queryFor, literals, check, n - 1);
      var before := ValueQueries(queryFor, literals, check, n - 1);
      if before.failure.None? {
        var query := queryFor(literals[n - 1].value);
        var o := ValueQueries(queryFor, literals, check, n);
        assert o.queries == before.queries + [query];
        assert o.failure.None? <==> check(query).Ok?;
      }
    }
  }

  /**
   * testFiltering end to end: an unsupported kind is skipped; IS and IS NOT issue the one
   * NULL query; any other operator issues the queries for the kind's four literals up to
   * the first failing one. It passes exactly when every issued query agrees with and
   * without pushdown, and a passing value test has issued all four queries.
   */
  lemma FilteringSpec(helpers: seq<Kind>, k: Kind, op: string, table: string, engine: Engine)
    ensures Filtering(helpers, k, op, table, engine).Skipped? <==> k !in helpers
    ensures k in helpers && (op == "IS" || op == "IS NOT") ==>
      Filtering(helpers, k, op, table, engine).queries == [QueryText(ColumnName(k), table, op, "NULL")]
    ensures k in helpers && op != "IS" && op != "IS NOT" ==>
      var o := Filtering(helpers, k, op, table, engine);
      |o.queries| <= 4 && forall i :: 0 <= i < |o.queries| ==>
        Literals(k)[i].Ok? && o.queries[i] == QueryText(ColumnName(k), table, op, Literals(k)[i].value)
    ensures k in helpers ==>
      var o := Filtering(helpers, k, op, table, engine);
      o.failure.None? <==> forall i :: 0 <= i < |o.queries| ==> CheckQuery(engine, o.queries[i]).Ok?
    ensures k in helpers && op != "IS" && op != "IS NOT" && Filtering(helpers, k, op, table, engine).failure.None? ==>
      |Filtering(helpers, k, op, table, engine).queries| == 4
  {
    if k in helpers && op != "IS" && op != "IS NOT" {
      LiteralsRender(k);
      ValueQueriesSpec(FilterQuery(k, table, op), Literals(k), QueryCheck(engine), 4);
      var o := Filtering(helpers, k, op, table, engine);
      assert forall i :: 0 <= i < |o.queries| ==> QueryCheck(engine)(o.queries[i]) == CheckQuery(engine, o.queries[i]);
    } else if k in helpers {
      var query := QueryText(ColumnName(k), table, op, "NULL");
      var o := Filtering(helpers, k, op, table, engine);
      assert o.queries == [query] && o.queries[0] == query;
      assert o.failure.None? <==> CheckQuery(engine, query).Ok?;
    }
  }

  /** An engine whose pushdown never changes a result passes every test case it is not skipped for. */
  lemma ConsistentEnginePasses(helpers: seq<Kind>, k: Kind, op: string, table: string, engine: Engine)
    requires forall q :: Render(engine(q, false)) == Render(engine(q, true))
    requires k in helpers
    ensures Filtering(helpers, k, op, table, engine).failure.None?
  {
    FilteringSpec(helpers, k, op, table, engine);
  }

  // ---------------------------------------------------------------------------
  // The table cache and the test case (tblRefMap, the constructor, testFiltering)

  /** A cached table: its name, the kinds its files and DDL were built from, and its working directory. */
  datatype TableEntry = TableEntry(name: string, helpers: seq<Kind>, location: string)

  /** getWorkingDir: the table's name under the home directory. */
  function WorkingDir(home: string, name: string): string {
    home + "/" + name
  }

  /**
   * The constructor's cache step as the code does it: the map is keyed by the writer
   * alone, and a table is built, from the supported kinds of the reader at hand, only
   * when the writer has none yet.
   */
  function WriterCacheUpdate(tables: map<Component, TableEntry>, writer: Component, helpers: seq<Kind>, name: string, home: string)
    : map<Component, TableEntry>
  {
    if writer in tables then tables else tables[writer := TableEntry(name, helpers, WorkingDir(home, name))]
  }

  /**
   * Keying by the writer alone lets the first reader decide the columns: after a Hive test
   * case has built Impala's table, a SparkSQL test case reuses it for DECIMAL_IN_INT32,
   * which SparkSQL supports, so the test is not skipped, yet the table declares no such column.
   */
  lemma WriterCacheMissesColumn(home: string, engine: Engine)
    ensures var first := WriterCacheUpdate(map[], Impala, SupportedKinds(Hive), "t1", home);
      var second := WriterCacheUpdate(first, Impala, SupportedKinds(SparkSql), "t2", home);
      && !Filtering(SupportedKinds(SparkSql), DecimalInInt32, "=", second[Impala].name, engine).Skipped?
      && forall f :: f in ParquetSchema(second[Impala].helpers).fields ==> f.name != ColumnName(DecimalInInt32)
  {
    var hive, spark := SupportedKinds(Hive), SupportedKinds(SparkSql);
    WriterCacheKeepsFirst(map[], Impala, hive, spark, "t1", "t2", home);
    SupportedKindsSpec(Hive);
    SupportedKindsSpec(SparkSql);
    FilteringSpec(spark, DecimalInInt32, "=", "t1", engine);
    UndeclaredColumn(hive, DecimalInInt32);
  }

  /** Under the writer key, the second test case of a writer gets the first one's table. */
  lemma WriterCacheKeepsFirst(tables: map<Component, TableEntry>, writer: Component, first: seq<Kind>, second: seq<Kind>,
                              firstName: string, secondName: string, home: string)
    requires writer !in tables
    ensures WriterCacheUpdate(WriterCacheUpdate(tables, writer, first, firstName, home), writer, second, secondName, home)[writer]
      == TableEntry(firstName, first, WorkingDir(home, firstName))
  {
  }

  /** A kind that is not among the table's kinds has no field in its schema. */
  lemma UndeclaredColumn(helpers: seq<Kind>, k: Kind)
    requires k !in helpers
    ensures forall f :: f in ParquetSchema(helpers).fields ==> f.name != ColumnName(k)
  {
    var fields := ParquetSchema(helpers).fields;
    forall f | f in fields ensures f.name != ColumnName(k) {
      var j :| 0 <= j < |fields| && fields[j] == f;
      FieldNotNamed(helpers, k, j);
    }
  }

  /** Field j of the schema is not named after a kind outside the table's kinds. */
  lemma FieldNotNamed(helpers: seq<Kind>, k: Kind, j: nat)
    requires k !in helpers && j <= |helpers|
    ensures ParquetSchema(helpers).fields[j].name != ColumnName(k)
  {
    var fields := ParquetSchema(helpers).fields;
    ColumnNameNotId(k);
    if j > 0 {
      var kj := helpers[j - 1];
      assert fields[j] == KindFields(helpers)[j - 1] == Schema(kj);
      ColumnNamesDistinct(kj, k);
    }
  }

  /** The key of a cached table: the writer and the kinds the table is built from. */
  type TableKey = (Component, seq<Kind>)

  /** The cache step keyed by writer and kinds: a table is built only when none exists for both. */
  function CacheUpdate(tables: map<TableKey, TableEntry>, writer: Component, helpers: seq<Kind>, name: string, home: string)
    : map<TableKey, TableEntry>
  {
    if (writer, helpers) in tables then tables
    else tables[(writer, helpers) := TableEntry(name, helpers, WorkingDir(home, name))]
  }

  /** Every cached table was built from the kinds of its key. */
  predicate CacheConsistent(tables: map<TableKey, TableEntry>) {
    forall key :: key in tables ==> tables[key].helpers == key.1
  }

  /**
   * The keyed cache keeps its entries consistent, gains at most the one key, never replaces
   * a table (so a table is built at most once per writer and set of kinds), and afterwards
   * serves the test case a table built from exactly its kinds.
   */
  lemma CacheUpdateSpec(tables: map<TableKey, TableEntry>, writer: Component, helpers: seq<Kind>, name: string, home: string)
    requires CacheConsistent(tables)
    ensures var updated := CacheUpdate(tables, writer, helpers, name, home);
      && CacheConsistent(updated)
      && updated.Keys == tables.Keys + {(writer, helpers)}
      && (forall key :: key in tables ==> updated[key] == tables[key])
      && updated[(writer, helpers)].helpers == helpers
  {
  }

  /** A kind among the table's kinds is declared by the DDL and has a field in the schema, after the id. */
  lemma DeclaredColumn(helpers: seq<Kind>, k: Kind)
    requires k in helpers
    ensures exists j :: (1 <= j < |ParquetSchema(helpers).fields| && ParquetSchema(helpers).fields[j].name == ColumnName(k)
      && ColumnDecls(helpers)[j - 1] == ColumnName(k) + " " + SqlType(k))
  {
    var m :| 0 <= m < |helpers| && helpers[m] == k;
    SchemaFieldName(helpers, m);
    DeclNamesField(helpers, m);
    var j := m + 1;
    assert ParquetSchema(helpers).fields[j].name == ColumnName(k);
  }

  /**
   * With the keyed cache, every test case that is not skipped queries a column its table
   * declares: the table was built from the test case's own supported kinds.
   */
  lemma CacheServesQueriedColumn(tables: map<TableKey, TableEntry>, writer: Component, reader: Component, k: Kind,
                                 name: string, home: string)
    requires CacheConsistent(tables) && IsSupported(k, reader)
    ensures var entry := CacheUpdate(tables, writer, SupportedKinds(reader), name, home)[(writer, SupportedKinds(reader))];
      exists j :: 1 <= j < |ParquetSchema(entry.helpers).fields| && ParquetSchema(entry.helpers).fields[j].name == ColumnName(k)
  {
    SupportedKindsSpec(reader);
    CacheUpdateSpec(tables, writer, SupportedKinds(reader), name, home);
    DeclaredColumn(SupportedKinds(reader), k);
  }

  /** The shared state of a test run: the table cache and what the writers have done. */
  class TableRegistry {
    /** The tables built so far. */
    var tables: map<TableKey, TableEntry>
    /** The DDL statements executed, with the writer that executed each. */
    var statements: seq<(Component, string)>
    /** The files written, by working directory. */
    var files: map<string, seq<WrittenFile>>

    /** Every cached table is built from its key's kinds and has its files written. */
    predicate Valid()
      reads this
    {
      CacheConsistent(tables) && forall key :: key in tables ==> tables[key].location in files
    }

    /**
     * createDir, createParquetTable and the cache insertion for a new table: the files
     * go to its working directory, the writer executes its DDL, and the table is cached.
     */
    method BuildTable(writer: Component, helpers: seq<Kind>, name: string, home: string, calendar: Calendar)
      requires Valid() && (writer, helpers) !in tables
      modifies this
      ensures Valid()
      ensures tables == old(tables)[(writer, helpers) := TableEntry(name, helpers, WorkingDir(home, name))]
      ensures statements == old(statements) + [(writer, CreateTableDdl(name, WorkingDir(home, name), helpers))]
      ensures WorkingDir(home, name) in files && WrittenFiles(helpers, calendar) == Ok(files[WorkingDir(home, name)])
      ensures files == old(files)[WorkingDir(home, name) := files[WorkingDir(home, name)]]
    {
      var workingDir := WorkingDir(home, name);
      var written := WriteParquetFiles(helpers, calendar);
      WrittenFilesConform(helpers, calendar);
      var ddl := CreateParquetTableDdl(name, workingDir, helpers);
      files := files[workingDir := written.value];
      statements := statements + [(writer, ddl)];
      tables := tables[(writer, helpers) := TableEntry(name, helpers, workingDir)];
    }

    /**
     * The constructor's cache step: the table cached for the writer and kinds, or, when
     * there is none, a new table built under the generated name.
     */
    method TableFor(writer: Component, helpers: seq<Kind>, name: string, home: string, calendar: Calendar)
      returns (tblRef: string)
      requires Valid()
      modifies this
      ensures Valid()
      ensures tables == CacheUpdate(old(tables), writer, helpers, name, home)
      ensures tblRef == tables[(writer, helpers)].name
      ensures (writer, helpers) in old(tables) ==> statements == old(statements) && files == old(files)
      ensures (writer, helpers) !in old(tables) ==>
        && tblRef == name
        && statements == old(statements) + [(writer, CreateTableDdl(name, WorkingDir(home, name), helpers))]
        && WorkingDir(home, name) in files
        && WrittenFiles(helpers, calendar) == Ok(files[WorkingDir(home, name)])
        && files == old(files)[WorkingDir(home, name) := files[WorkingDir(home, name)]]
    {
      if (writer, helpers) in tables {
        tblRef := tables[(writer, helpers)].name;
      } else {
        BuildTable(writer, helpers, name, home, calendar);
        tblRef := name;
      }
    }

    /** An empty cache at the start of the run. */
    constructor()
      ensures tables == map[] && statements == [] && files == map[]
      ensures Valid()
    {
      tables := map[];
      statements := [];
      files := map[];
    }
  }

  /** One parameterised test case: a reader, a writer, a kind and an operator. */
  class ColumnIndexFilteringTest {
    const supportedHelpers: seq<Kind>
    const reader: Component
    const writer: Component
    const columnHelper: Kind
    const operator: string
    const tblRef: string

    /**
     * The constructor: the reader's supported kinds, then the cached table for the writer
     * and those kinds, or, when there is none, a new one under the generated name: its
     * files written to its working directory, its DDL executed and the table cached.
     */
    constructor(registry: TableRegistry, reader: Component, writer: Component, columnHelper: Kind, operator: string,
                generatedName: string, home: string, calendar: Calendar)
      requires registry.Valid()
      modifies registry
      ensures registry.Valid()
      ensures this.reader == reader && this.writer == writer
      ensures this.columnHelper == columnHelper && this.operator == operator
      ensures supportedHelpers == SupportedKinds(reader)
      ensures registry.tables == CacheUpdate(old(registry.tables), writer, supportedHelpers, generatedName, home)
      ensures tblRef == registry.tables[(writer, supportedHelpers)].name
      ensures (writer, supportedHelpers) in old(registry.tables) ==>
        registry.statements == old(registry.statements) && registry.files == old(registry.files)
      ensures (writer, supportedHelpers) !in old(registry.tables) ==>
        && tblRef == generatedName
        && registry.statements == old(registry.statements)
          + [(writer, CreateTableDdl(generatedName, WorkingDir(home, generatedName), supportedHelpers))]
        && WorkingDir(home, generatedName) in registry.files
        && WrittenFiles(supportedHelpers, calendar) == Ok(registry.files[WorkingDir(home, generatedName)])
        && registry.files == old(registry.files)[WorkingDir(home, generatedName) := registry.files[WorkingDir(home, generatedName)]]
    {
      var helpers := SupportedHelpers(reader);
      var name := registry.TableFor(writer, helpers, generatedName, home, calendar);
      this.reader := reader;
      this.writer := writer;
      this.columnHelper := columnHelper;
      this.operator := operator;
      supportedHelpers := helpers;
      tblRef := name;
    }

    /** testFiltering as the code does it, against the reading engine. */
    method TestFiltering(engine: Engine) returns (outcome: TestOutcome)
      ensures outcome == Filtering(supportedHelpers, columnHelper, operator, tblRef, engine)
    {
      if columnHelper !in supportedHelpers {
        return Skipped;
      }
      var columnName := ColumnName(columnHelper);
      if operator == "IS" || operator == "IS NOT" {
        var query := QueryText(columnName, tblRef, operator, "NULL");
        var result := ValidateQueryResults(engine, query);
        return Finished([query], if result.Err? then Some(result.error) else None);
      }
      var values := Values(columnHelper);
      ghost var literals := Literals(columnHelper);
      ghost var queryFor := FilterQuery(columnHelper, tblRef, operator);
      ghost var check := QueryCheck(engine);
      var queries: seq<string> := [];
      for i := 0 to |values|
        invariant ValueQueries(queryFor, literals, check, i) == Finished(queries, None)
      {
        var literal := ValueToSqlLiteral(columnHelper, Some(values[i]));
        assert literal == literals[i];
        if literal.Err? {
          ValueQueriesFailureStays(queryFor, literals, check, i + 1, 4);
          return Finished(queries, Some(literal.error));
        }
        var query := QueryText(columnName, tblRef, operator, literal.value);
        assert query == queryFor(literal.value);
        queries := queries + [query];
        var result := ValidateQueryResults(engine, query);
        assert result == check(query);
        if result.Err? {
          ValueQueriesFailureStays(queryFor, literals, check, i + 1, 4);
          return Finished(queries, Some(result.error));
        }
      }
      outcome := Finished(queries, None);
    }
  }
}
