/**
 * `expandir_dataframe`: one output row per point extracted from a
 * designated column, each a copy of its source row stamped with a
 * `PONTO` label and the point's four fields.
 */
module Expander {
  import opened Results
  import opened Text
  import opened Pattern
  import opened Extractor

  /** A cell: text, a number, or pandas' missing value. */
  datatype Value = TextCell(text: string) | Number(number: real) | Missing

  /** A row as `row.to_dict()` gives it: column name to cell. */
  type Row = map<string, Value>

  const LabelColumn := "PONTO"
  const LatitudeColumn := "LATITUDE"
  const LongitudeColumn := "LONGITUDE"
  const LatitudeDmsColumn := "LATITUDE_DMS"
  const LongitudeDmsColumn := "LONGITUDE_DMS"

  /**
   * `str(cell)`. How Python prints a float is not modelled: `render`
   * stands for it. A missing cell prints as `nan`.
   */
  function Str(v: Value, render: real -> string): string {
    match v
    case TextCell(t) => t
    case Number(r) => render(r)
    case Missing => "nan"
  }

  /** `f"P{k:02d}"`. */
  function Label(k: nat): string {
    "P" + FormatPadded(k, 2)
  }

  /** The label is `P` and then at least two digits that read back as `k`, so distinct points get distinct labels. */
  lemma LabelSpec(k: nat, j: nat)
    ensures |Label(k)| >= 3 && Label(k)[0] == 'P'
    ensures AllDigits(Label(k)[1..]) && DigitsValue(Label(k)[1..]) == k
    ensures k < 100 ==> |Label(k)| == 3
    ensures Label(k) == Label(j) <==> k == j
  {
    assert Label(k)[1..] == FormatPadded(k, 2);
    assert Label(j)[1..] == FormatPadded(j, 2);
    FormatPaddedSpec(k, 2);
    FormatPaddedSpec(j, 2);
    if k < 100 {
      DecimalLength(k);
    }
  }

  lemma DecimalLength(k: nat)
    requires k < 100
    ensures |Decimal(k)| <= 2
  {
    if k >= 10 {
      assert Decimal(k) == Decimal(k / 10) + [DigitChar(k % 10)];
      assert Decimal(k / 10) == [DigitChar(k / 10)];
    }
  }

  /**
   * The copy of `row` for its `k`-th point: `PONTO` set first, then the
   * point's fields written over it by `update`.
   */
  function PointRow(row: Row, k: nat, p: Point): Row {
    var labelled := row[LabelColumn := TextCell(Label(k))];
    labelled + map[LatitudeColumn := Number(p.latitude), LongitudeColumn := Number(p.longitude),
                   LatitudeDmsColumn := TextCell(p.latitudeDms), LongitudeDmsColumn := TextCell(p.longitudeDms)]
  }

  /**
   * The copy carries every column of the source row and the five new ones:
   * `PONTO` is the label, the four point columns hold the point, and every
   * other column keeps the source row's value.
   */
  lemma PointRowSpec(row: Row, k: nat, p: Point)
    ensures var r := PointRow(row, k, p);
      && LabelColumn in r && r[LabelColumn] == TextCell(Label(k))
      && LatitudeColumn in r && LongitudeColumn in r && LatitudeDmsColumn in r && LongitudeDmsColumn in r
      && r.Keys == row.Keys + {LabelColumn, LatitudeColumn, LongitudeColumn, LatitudeDmsColumn, LongitudeDmsColumn}
      && r[LatitudeColumn] == Number(p.latitude) && r[LongitudeColumn] == Number(p.longitude)
      && r[LatitudeDmsColumn] == TextCell(p.latitudeDms) && r[LongitudeDmsColumn] == TextCell(p.longitudeDms)
      && forall c :: c in row && c !in {LabelColumn, LatitudeColumn, LongitudeColumn, LatitudeDmsColumn, LongitudeDmsColumn} ==>
           r[c] == row[c]
  {
  }

  /** The rows one source row contributes: one per point, labelled from 1. */
  function RowBlock(row: Row, points: seq<Point>): seq<Row>
    decreases |points|
  {
    if points == [] then []
    else
      var n := |points| - 1;
      RowBlock(row, points[..n]) + [PointRow(row, n + 1, points[n])]
  }

  /** A row's block has one copy per point. */
  lemma {:induction false} RowBlockLength(row: Row, points: seq<Point>)
    ensures |RowBlock(row, points)| == |points|
    decreases |points|
  {
    if points != [] {
      RowBlockLength(row, points[..|points| - 1]);
    }
  }

  /** The `j`-th copy in a row's block is for point `j`, labelled `j + 1`. */
  lemma {:induction false} RowBlockAt(row: Row, points: seq<Point>, j: nat)
    requires j < |points|
    ensures j < |RowBlock(row, points)| && RowBlock(row, points)[j] == PointRow(row, j + 1, points[j])
    decreases |points|
  {
    var n := |points| - 1;
    var front := points[..n];
    RowBlockLength(row, front);
    assert RowBlock(row, points) == RowBlock(row, front) + [PointRow(row, n + 1, points[n])];
    if j < n {
      RowBlockAt(row, front, j);
      assert front[j] == points[j];
    }
  }

  /** What the inner loop sees for one row: `KeyError` when the column is absent, else the extractor's outcome. */
  function Extracted(row: Row, column: string, render: real -> string): Result<seq<Point>> {
    if column !in row then Failure(KeyError(column))
    else Extract(Some(Str(row[column], render)))
  }

  function Extractions(table: seq<Row>, column: string, render: real -> string): (rs: seq<Result<seq<Point>>>)
    ensures |rs| == |table| && forall k :: 0 <= k < |table| ==> rs[k] == Extracted(table[k], column, render)
  {
    seq(|table|, k requires 0 <= k < |table| => Extracted(table[k], column, render))
  }

  /** The blocks of all rows, in row order. */
  function Blocks(table: seq<Row>, pss: seq<seq<Point>>): seq<Row>
    requires |pss| == |table|
    decreases |table|
  {
    if table == [] then []
    else
      var n := |table| - 1;
      Blocks(table[..n], pss[..n]) + RowBlock(table[n], pss[n])
  }

  /**
   * `expandir_dataframe(df, column)`, the frame as its list of rows: the
   * first row that fails stops the expansion with its error.
   */
  function Expand(table: seq<Row>, column: string, render: real -> string): Result<seq<Row>> {
    var rs := Extractions(table, column, render);
    CollectSuccess(rs);
    match Collect(rs)
    case Failure(e) => Failure(e)
    case Success(pss) => Success(Blocks(table, pss))
  }

  /** One more row's block extends the blocks of the rows before it. */
  lemma BlocksSnoc(table: seq<Row>, pss: seq<seq<Point>>, points: seq<Point>, k: nat)
    requires k < |table| && |pss| == k
    ensures Blocks(table[..k + 1], pss + [points]) == Blocks(table[..k], pss) + RowBlock(table[k], points)
  {
    assert table[..k + 1][..k] == table[..k] && (pss + [points])[..k] == pss;
  }

  lemma RowBlockSnoc(row: Row, points: seq<Point>, i: nat)
    requires i < |points|
    ensures RowBlock(row, points[..i + 1]) == RowBlock(row, points[..i]) + [PointRow(row, i + 1, points[i])]
  {
    assert points[..i + 1][..i] == points[..i] && points[..i + 1][i] == points[i];
  }

  /** The inner loop: append to `lines` one labelled copy of `row` per point. */
  method AppendBlock(lines: seq<Row>, row: Row, points: seq<Point>) returns (out: seq<Row>)
    ensures out == lines + RowBlock(row, points)
  {
    out := lines;
    var i := 0;
    while i < |points|
      invariant 0 <= i <= |points|
      invariant out == lines + RowBlock(row, points[..i])
    {
      var line := row;
      line := line[LabelColumn := TextCell(Label(i + 1))];
      var p := points[i];
      line := line + map[LatitudeColumn := Number(p.latitude), LongitudeColumn := Number(p.longitude),
                         LatitudeDmsColumn := TextCell(p.latitudeDms), LongitudeDmsColumn := TextCell(p.longitudeDms)];
      assert line == PointRow(row, i + 1, p);
      RowBlockSnoc(row, points, i);
      out := out + [line];
      i := i + 1;
    }
    assert points[..i] == points;
  }

  method ExpandTable(table: seq<Row>, column: string, render: real -> string) returns (r: Result<seq<Row>>)
    ensures r == Expand(table, column, render)
  {
    ghost var outcomes := Extractions(table, column, render);
    ghost var pss: seq<seq<Point>> := [];
    var lines: seq<Row> := [];
    var k := 0;
    while k < |table|
      invariant 0 <= k <= |table|
      invariant Collect(outcomes[..k]) == Success(pss) && |pss| == k
      invariant lines == Blocks(table[..k], pss)
    {
      var row := table[k];
      CollectSnoc(outcomes, k);
      if column !in row {
        FailureSticks(outcomes, k + 1);
        return Failure(KeyError(column));
      }
      var points := ExtractCoordinates(Some(Str(row[column], render)));
      if points.Failure? {
        FailureSticks(outcomes, k + 1);
        return Failure(points.error);
      }
      lines := AppendBlock(lines, row, points.value);
      BlocksSnoc(table, pss, points.value, k);
      pss := pss + [points.value];
      k := k + 1;
    }
    assert table[..k] == table && outcomes[..k] == outcomes;
    return Success(lines);
  }

  // ---------------------------------------------------------------------
  // Properties of the expansion

  /** The number of points over all rows. */
  function Total(pss: seq<seq<Point>>): nat
    decreases |pss|
  {
    if pss == [] then 0 else Total(pss[..|pss| - 1]) + |pss[|pss| - 1]|
  }

  lemma {:induction false} TotalPrefix(pss: seq<seq<Point>>, k: nat)
    requires k < |pss|
    ensures Total(pss[..k + 1]) == Total(pss[..k]) + |pss[k]|
  {
    assert pss[..k + 1][..k] == pss[..k];
  }

  /** The blocks of all rows are those of all but the last, then the last row's block. */
  lemma BlocksLast(table: seq<Row>, pss: seq<seq<Point>>)
    requires |pss| == |table| && table != []
    ensures Blocks(table, pss) ==
      Blocks(table[..|table| - 1], pss[..|table| - 1]) + RowBlock(table[|table| - 1], pss[|table| - 1])
  {
  }

  /** The output has one row per point. */
  lemma {:induction false} BlocksCount(table: seq<Row>, pss: seq<seq<Point>>)
    requires |pss| == |table|
    ensures |Blocks(table, pss)| == Total(pss)
    decreases |table|
  {
    if table != [] {
      var n := |table| - 1;
      BlocksCount(table[..n], pss[..n]);
      BlocksLast(table, pss);
      RowBlockLength(table[n], pss[n]);
      assert pss[..n + 1] == pss;
      TotalPrefix(pss, n);
    }
  }

  /**
   * The rows of source row `k` start after those of the rows before it:
   * the output's row at that offset plus `j` is the copy of `table[k]`
   * for point `j`, labelled `j + 1`.
   */
  lemma {:induction false} BlocksAt(table: seq<Row>, pss: seq<seq<Point>>, k: nat, j: nat)
    requires |pss| == |table| && k < |table| && j < |pss[k]|
    ensures Total(pss[..k]) + j < |Blocks(table, pss)|
    ensures Blocks(table, pss)[Total(pss[..k]) + j] == PointRow(table[k], j + 1, pss[k][j])
    decreases |table|
  {
    var n := |table| - 1;
    var front, block := Blocks(table[..n], pss[..n]), RowBlock(table[n], pss[n]);
    BlocksLast(table, pss);
    BlocksCount(table[..n], pss[..n]);
    if k < n {
      BlocksAt(table[..n], pss[..n], k, j);
      assert table[..n][k] == table[k] && pss[..n][k] == pss[k] && pss[..n][..k] == pss[..k];
    } else {
      RowBlockAt(table[n], pss[n], j);
    }
  }

  /** Every output row is some source row's copy for one of its points. */
  lemma {:induction false} BlocksCover(table: seq<Row>, pss: seq<seq<Point>>, i: nat)
    requires |pss| == |table| && i < |Blocks(table, pss)|
    ensures exists k, j ::
      && 0 <= k < |table| && 0 <= j < |pss[k]| && i == Total(pss[..k]) + j
      && Blocks(table, pss)[i] == PointRow(table[k], j + 1, pss[k][j])
    decreases |table|
  {
    var n := |table| - 1;
    BlocksCount(table, pss);
    BlocksCount(table[..n], pss[..n]);
    assert pss[..n + 1] == pss;
    TotalPrefix(pss, n);
    if i < Total(pss[..n]) {
      BlocksCover(table[..n], pss[..n], i);
      var k, j :| 0 <= k < n && 0 <= j < |pss[..n][k]| && i == Total(pss[..n][..k]) + j &&
        Blocks(table[..n], pss[..n])[i] == PointRow(table[..n][k], j + 1, pss[..n][k][j]);
      assert pss[..n][..k] == pss[..k] && pss[..n][k] == pss[k] && table[..n][k] == table[k];
      BlocksAt(table, pss, k, j);
    } else {
      BlocksAt(table, pss, n, i - Total(pss[..n]));
    }
  }

  /**
   * Expansion succeeds exactly when every row has the column and its cell
   * extracts; it is then the rows' blocks in row order, as many rows as
   * points. Otherwise it fails with the error of the first row that fails.
   */
  lemma ExpandSpec(table: seq<Row>, column: string, render: real -> string)
    ensures Expand(table, column, render).Success? <==>
      forall k :: 0 <= k < |table| ==> Extracted(table[k], column, render).Success?
    ensures Expand(table, column, render).Success? ==>
      exists pss: seq<seq<Point>> ::
        && |pss| == |table|
        && (forall k :: 0 <= k < |table| ==> Extracted(table[k], column, render) == Success(pss[k]))
        && Expand(table, column, render).value == Blocks(table, pss)
        && |Blocks(table, pss)| == Total(pss)
    ensures Expand(table, column, render).Failure? ==>
      exists k ::
        && 0 <= k < |table| && Extracted(table[k], column, render).Failure?
        && Expand(table, column, render).error == Extracted(table[k], column, render).error
        && (forall j :: 0 <= j < k ==> Extracted(table[j], column, render).Success?)
  {
    var rs := Extractions(table, column, render);
    CollectSuccess(rs);
    if Collect(rs).Success? {
      BlocksCount(table, Collect(rs).value);
    } else {
      CollectFailure(rs);
    }
  }

  /** An empty table expands to no rows, without looking for the column. */
  lemma EmptyTable(column: string, render: real -> string)
    ensures Expand([], column, render) == Success([])
  {
    CollectSuccess(Extractions([], column, render));
  }

  /** A first row without the column raises `KeyError` for it. */
  lemma MissingColumn(table: seq<Row>, column: string, render: real -> string)
    requires table != [] && column !in table[0]
    ensures Expand(table, column, render) == Failure(KeyError(column))
  {
    var rs := Extractions(table, column, render);
    assert Collect(rs[..1]) == Failure(KeyError(column)) by {
      assert rs[..1][..0] == [];
    }
    FailureSticks(rs, 1);
  }

  /** A missing cell prints as `nan`, which holds no coordinate pair. */
  lemma MissingCellHasNoPoints(row: Row, column: string, render: real -> string)
    requires column in row && row[column] == Missing
    ensures Extracted(row, column, render) == Success([])
  {
    UpperCaseHemispheresOnly("nan");
  }

  /**
   * Rows with two, zero and one points give the first row's copies for
   * points 1 and 2, then the third row's copy for point 1: the middle row
   * contributes nothing and numbering restarts with each row.
   */
  lemma ThreeRowsExample(r1: Row, r2: Row, r3: Row, a: Point, b: Point, c: Point)
    ensures Blocks([r1, r2, r3], [[a, b], [], [c]]) == [PointRow(r1, 1, a), PointRow(r1, 2, b), PointRow(r3, 1, c)]
  {
    var table: seq<Row>, ab, none, cs := [r1, r2, r3], [a, b], [], [c];
    RowBlockSnoc(r1, ab, 0);
    RowBlockSnoc(r1, ab, 1);
    assert ab[..0] == [] && ab[..2] == ab;
    RowBlockSnoc(r3, cs, 0);
    assert cs[..0] == [] && cs[..1] == cs;
    BlocksSnoc(table, [], ab, 0);
    BlocksSnoc(table, [ab], none, 1);
    BlocksSnoc(table, [ab, none], cs, 2);
    assert table[..0] == [] && table[..3] == table;
    assert [] + [ab] == [ab] && [ab] + [none] == [ab, none] && [ab, none] + [cs] == [ab, none, cs];
  }

  /** A one-digit point number is padded with a single zero. */
  lemma LabelBelowTen(k: nat)
    requires k < 10
    ensures Label(k) == ['P', '0', DigitChar(k)]
  {
    assert Decimal(k) == [DigitChar(k)];
    assert ZeroPad([DigitChar(k)], 2) == ['0'] + [DigitChar(k)];
  }

  lemma LabelHundred()
    ensures Label(100) == "P100"
  {
    assert Decimal(10) == "10" by { assert Decimal(1) == "1"; }
    assert Decimal(100) == "100";
    assert ZeroPad("100", 2) == "100";
  }

  /** `P01`, `P02`, ..., `P99`, then `P100`: the padding is a minimum width, never a truncation. */
  lemma LabelExamples()
    ensures Label(1) == "P01" && Label(2) == "P02" && Label(100) == "P100"
  {
    LabelBelowTen(1);
    LabelBelowTen(2);
    LabelHundred();
  }

}
