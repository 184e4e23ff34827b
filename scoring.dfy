/**
 * `make_mi_scores` (app.py:150-164), the bar order of `plot_mi_scores`
 * (app.py:167), the missing-value warning (app.py:182-183) and the whole
 * feature-utility panel that chains them after the cleaning block.
 *
 * The mutual-information estimator (`mutual_info_classif` or
 * `mutual_info_regression`) is a parameter: the model records the request it
 * receives (estimator, encoded features, encoded target, discreteness flags,
 * random state) and ranks whatever scores it returns.
 */
module Scoring {
  import opened Wrappers
  import opened Frames
  import opened Encoding
  import opened Ranking
  import opened Cleaning

  /** The choice of the "target variable type" radio button. */
  datatype TargetType = Numeric | Categorical

  /** The arguments of one call to the mutual-information estimator. */
  datatype MiRequest = MiRequest(classification: bool, x: Frame, y: seq<Cell>, discrete: seq<bool>, randomState: int)

  /** The columns `select_dtypes(["object", "category"])` selects. */
  predicate IsCategorical(d: Dtype) {
    d == Object || d == Category
  }

  /** `is_integer_dtype` on the dtypes the model knows: only `int64` (not `bool`). */
  predicate IsIntegerDtype(d: Dtype) {
    d == Int64
  }

  /** A column after label encoding: categorical columns become integer codes. */
  function EncodedInfo(c: ColumnInfo): (e: ColumnInfo)
    ensures e.name == c.name
  {
    if IsCategorical(c.dtype) then ColumnInfo(c.name, Int64) else c
  }

  /** The cell at row `k` of column `j` after label encoding. */
  function EncodedCell(x: Frame, j: nat, k: nat): Cell
    requires Valid(x) && j < |x.columns| && k < |x.rows|
  {
    var c := x.columns[j];
    assert c in x.columns;
    if IsCategorical(c.dtype) then Some(IntVal(Factorize(Column(x.rows, c.name)).codes[k]))
    else x.rows[k][c.name]
  }

  /** `y` is `x` with every categorical column replaced by its factorize codes, and nothing else changed. */
  ghost predicate EncodedFrom(y: Frame, x: Frame)
    requires Valid(x)
  {
    && y.index == x.index
    && |y.columns| == |x.columns|
    && |y.rows| == |x.rows|
    && (forall j :: 0 <= j < |x.columns| ==> y.columns[j] == EncodedInfo(x.columns[j]))
    && (forall k :: 0 <= k < |x.rows| ==> y.rows[k].Keys == x.rows[k].Keys)
    && (forall k, j :: 0 <= k < |x.rows| && 0 <= j < |x.columns| ==>
          y.rows[k][x.columns[j].name] == EncodedCell(x, j, k))
  }

  /** `X[colname] = codes`: one column of every row overwritten. */
  function SetColumn(rows: seq<Row>, name: string, cells: seq<Cell>): (r: seq<Row>)
    requires |cells| == |rows|
    ensures |r| == |rows|
    ensures forall k :: 0 <= k < |rows| ==> r[k] == rows[k][name := cells[k]]
  {
    seq(|rows|, k requires 0 <= k < |rows| => rows[k][name := cells[k]])
  }

  /** Integer codes as the cells of an `int64` column. */
  function CodeCells(codes: seq<int>): (cells: seq<Cell>)
    ensures |cells| == |codes|
    ensures forall k :: 0 <= k < |codes| ==> cells[k] == Some(IntVal(codes[k]))
  {
    seq(|codes|, k requires 0 <= k < |codes| => Some(IntVal(codes[k])))
  }

  /** The column list of the encoding loop once the first `j` columns are done. */
  ghost predicate ColumnsUpTo(x: Frame, cols: seq<ColumnInfo>, j: nat)
    requires j <= |x.columns|
  {
    && |cols| == |x.columns|
    && (forall i :: 0 <= i < j ==> cols[i] == EncodedInfo(x.columns[i]))
    && (forall i :: j <= i < |x.columns| ==> cols[i] == x.columns[i])
  }

  /** The rows of the encoding loop once the first `j` columns are done. */
  ghost predicate CellsUpTo(x: Frame, rows: seq<Row>, j: nat)
    requires Valid(x) && j <= |x.columns|
  {
    && |rows| == |x.rows|
    && (forall k :: 0 <= k < |rows| ==> rows[k].Keys == x.rows[k].Keys)
    && (forall k, i :: 0 <= k < |rows| && 0 <= i < j ==> rows[k][x.columns[i].name] == EncodedCell(x, i, k))
    && (forall k, i :: 0 <= k < |rows| && j <= i < |x.columns| ==> rows[k][x.columns[i].name] == x.rows[k][x.columns[i].name])
  }

  /**
   * The label-encoding loop of `make_mi_scores` (app.py:152-154): on a copy of
   * the frame, each object or category column in turn is replaced by its
   * factorize codes and becomes an integer column.
   */
  method EncodeCategoricals(x: Frame) returns (y: Frame)
    requires Valid(x)
    ensures EncodedFrom(y, x)
  {
    var cols, rows := x.columns, x.rows;
    for j := 0 to |x.columns|
      invariant ColumnsUpTo(x, cols, j) && CellsUpTo(x, rows, j)
    {
      var c := cols[j];
      if IsCategorical(c.dtype) {
        var column := Column(rows, c.name);
        var rows' := SetColumn(rows, c.name, CodeCells(Factorize(column).codes));
        EncodeColumnCells(x, rows, j, rows');
        rows, cols := rows', cols[j := ColumnInfo(c.name, Int64)];
      } else {
        SkipColumnCells(x, rows, j);
      }
    }
    y := Frame(cols, x.index, rows);
  }

  /** Encoding column `j` gives it its codes and leaves every other column alone. */
  lemma EncodeColumnCells(x: Frame, rows: seq<Row>, j: nat, rows': seq<Row>)
    requires Valid(x) && j < |x.columns| && CellsUpTo(x, rows, j)
    requires IsCategorical(x.columns[j].dtype)
    requires forall k :: 0 <= k < |rows| ==> x.columns[j].name in rows[k]
    requires rows' == SetColumn(rows, x.columns[j].name, CodeCells(Factorize(Column(rows, x.columns[j].name)).codes))
    ensures CellsUpTo(x, rows', j + 1)
  {
    var name := x.columns[j].name;
    assert x.columns[j] in x.columns;
    assert Column(rows, name) == Column(x.rows, name);
    forall k, i | 0 <= k < |rows| && 0 <= i < |x.columns| && i != j
      ensures rows'[k][x.columns[i].name] == rows[k][x.columns[i].name]
    {
      assert x.columns[i].name != name;
    }
    forall k | 0 <= k < |rows| ensures rows'[k][name] == EncodedCell(x, j, k) {
    }
    forall k, i | 0 <= k < |rows| && 0 <= i < j + 1 ensures rows'[k][x.columns[i].name] == EncodedCell(x, i, k) {
      if i != j {
        assert rows'[k][x.columns[i].name] == rows[k][x.columns[i].name];
      }
    }
  }

  /** A column that is not categorical is left as it is by the encoding loop. */
  lemma SkipColumnCells(x: Frame, rows: seq<Row>, j: nat)
    requires Valid(x) && j < |x.columns| && CellsUpTo(x, rows, j)
    requires !IsCategorical(x.columns[j].dtype)
    ensures CellsUpTo(x, rows, j + 1)
  {
    forall k, i | 0 <= k < |rows| && 0 <= i < j + 1 ensures rows[k][x.columns[i].name] == EncodedCell(x, i, k) {
      if i == j {
        assert rows[k][x.columns[j].name] == x.rows[k][x.columns[j].name];
      }
    }
  }

  /** An encoded frame is a well-formed frame with the same column names. */
  lemma EncodedValid(y: Frame, x: Frame)
    requires Valid(x) && EncodedFrom(y, x)
    ensures Valid(y) && Names(y.columns) == Names(x.columns)
  {
    assert Names(y.columns) == Names(x.columns);
    assert NameSet(y.columns) == NameSet(x.columns) by {
      forall n | n in NameSet(x.columns) ensures n in NameSet(y.columns) {
        var j :| 0 <= j < |x.columns| && x.columns[j].name == n;
        assert y.columns[j] in y.columns;
      }
      forall n | n in NameSet(y.columns) ensures n in NameSet(x.columns) {
        var j :| 0 <= j < |y.columns| && y.columns[j].name == n;
        assert x.columns[j] in x.columns;
      }
    }
  }

  /** `[is_integer_dtype(t) for t in X.dtypes]` (app.py:156). */
  function DiscreteFlags(cols: seq<ColumnInfo>): (flags: seq<bool>)
    ensures |flags| == |cols|
    ensures forall j :: 0 <= j < |cols| ==> (flags[j] <==> cols[j].dtype == Int64)
  {
    seq(|cols|, j requires 0 <= j < |cols| => IsIntegerDtype(cols[j].dtype))
  }

  /**
   * After encoding, a feature is flagged discrete exactly when it was an integer
   * column or a categorical one; floating-point and boolean columns are not.
   */
  lemma EncodedDiscrete(y: Frame, x: Frame)
    requires Valid(x) && EncodedFrom(y, x)
    ensures forall j :: 0 <= j < |x.columns| ==>
      (DiscreteFlags(y.columns)[j] <==> x.columns[j].dtype == Int64 || IsCategorical(x.columns[j].dtype))
  {
  }

  /**
   * On a frame without missing cells, every encoded categorical cell is a code
   * from 0 to the column's number of distinct values minus one, never -1, and
   * two rows get the same code exactly when they held the same value.
   */
  lemma EncodedCodes(y: Frame, x: Frame, j: nat, k: nat, k': nat)
    requires Valid(x) && EncodedFrom(y, x)
    requires forall r :: 0 <= r < |x.rows| ==> Complete(x.rows[r])
    requires j < |x.columns| && IsCategorical(x.columns[j].dtype)
    requires k < |x.rows| && k' < |x.rows|
    ensures var name := x.columns[j].name;
      && y.rows[k][name].Some? && y.rows[k][name].value.IntVal?
      && 0 <= y.rows[k][name].value.i < |Uniques(Column(x.rows, name))|
      && (y.rows[k][name] == y.rows[k'][name] <==> x.rows[k][name] == x.rows[k'][name])
  {
    var name := x.columns[j].name;
    assert x.columns[j] in x.columns;
    var column := Column(x.rows, name);
    var codes := Factorize(column).codes;
    assert y.rows[k][name] == Some(IntVal(codes[k])) by {
      assert y.rows[k][name] == EncodedCell(x, j, k);
    }
    assert y.rows[k'][name] == Some(IntVal(codes[k'])) by {
      assert y.rows[k'][name] == EncodedCell(x, j, k');
    }
    assert name in x.rows[k] && name in x.rows[k'];
    assert column[k].Some? && column[k'].Some?;
    SameCodeIffSameValue(column, k, k');
  }

  /**
   * `y.factorize()[0]` for a categorical target: one integer code per cell,
   * -1 exactly for a missing cell, and every other code the position of the
   * cell's value among the uniques. A numeric target is passed on unchanged.
   */
  function EncodeTarget(y: seq<Cell>, targetType: TargetType): (e: seq<Cell>)
    ensures |e| == |y|
    ensures targetType != Categorical ==> e == y
    ensures targetType == Categorical ==> forall k :: 0 <= k < |y| ==>
      && e[k].Some? && e[k].value.IntVal?
      && -1 <= e[k].value.i < |Uniques(y)|
      && (e[k].value.i == -1 <==> y[k].None?)
      && (y[k].Some? ==> Uniques(y)[e[k].value.i] == y[k].value)
  {
    if targetType == Categorical then
      var f := Factorize(y);
      assert forall k :: 0 <= k < |y| ==> Decode(f.codes, f.uniques)[k] == y[k];
      CodeCells(f.codes)
    else y
  }

  /** A categorical target without missing values is encoded as codes 0..k-1 that keep its classes apart. */
  lemma EncodedTargetCodes(y: seq<Cell>, i: nat, j: nat)
    requires forall k :: 0 <= k < |y| ==> y[k].Some?
    requires i < |y| && j < |y|
    ensures var e := EncodeTarget(y, Categorical);
      && e[i].Some? && e[i].value.IntVal? && 0 <= e[i].value.i < |Uniques(y)|
      && (e[i] == e[j] <==> y[i] == y[j])
  {
    SameCodeIffSameValue(y, i, j);
  }

  /**
   * `make_mi_scores(X, y)`: encodes the features and, for a categorical
   * target, the target; asks the classifier or the regressor for one score per
   * column with `random_state=0`; and ranks the scores by column, highest first.
   */
  method MakeMiScores(x: Frame, y: seq<Cell>, targetType: TargetType, estimate: MiRequest -> seq<real>)
    returns (req: MiRequest, r: Result<seq<Entry>, Error>)
    requires Valid(x)
    ensures EncodedFrom(req.x, x) && Valid(req.x)
    ensures req.discrete == DiscreteFlags(req.x.columns)
    ensures req.classification <==> targetType == Categorical
    ensures req.y == EncodeTarget(y, targetType) && req.randomState == 0
    ensures r == Rank(Names(x.columns), estimate(req))
  {
    var encoded := EncodeCategoricals(x);
    EncodedValid(encoded, x);
    var discrete := DiscreteFlags(encoded.columns);
    if targetType == Categorical {
      req := MiRequest(true, encoded, CodeCells(Factorize(y).codes), discrete, 0);
    } else {
      req := MiRequest(false, encoded, y, discrete, 0);
    }
    var scores := estimate(req);
    r := Rank(Names(encoded.columns), scores);
  }

  function DigitChar(d: nat): (c: char)
    requires d < 10
    ensures '0' <= c <= '9'
  {
    ('0' as int + d) as char
  }

  predicate IsDigits(s: string) {
    forall i :: 0 <= i < |s| ==> '0' <= s[i] <= '9'
  }

  /** How an `int` appears in an f-string: decimal digits, no leading zero. */
  function DecimalString(n: nat): (s: string)
    ensures |s| >= 1 && IsDigits(s)
    ensures |s| > 1 ==> s[0] != '0'
  {
    if n < 10 then [DigitChar(n)] else DecimalString(n / 10) + [DigitChar(n % 10)]
  }

  /** Reads decimal digits back as a number. */
  function ParseDecimal(s: string): nat
    requires IsDigits(s)
  {
    if s == [] then 0 else 10 * ParseDecimal(s[..|s| - 1]) + (s[|s| - 1] as int - '0' as int)
  }

  lemma {:induction false} DecimalRoundTrip(n: nat)
    ensures ParseDecimal(DecimalString(n)) == n
  {
    if n >= 10 {
      var q, d := n / 10, n % 10;
      DecimalRoundTrip(q);
      var s := DecimalString(n);
      assert s == DecimalString(q) + [DigitChar(d)];
      assert s[..|s| - 1] == DecimalString(q);
      assert s[|s| - 1] as int - '0' as int == d;
    }
  }

  const WarningPrefix := "Removed "
  const WarningSuffix := " rows with missing values."

  /** The warning of app.py:182-183: shown only when something was counted. */
  function Warning(totalNulls: nat): (w: Option<string>)
    ensures w.Some? <==> totalNulls > 0
  {
    if totalNulls > 0 then Some(WarningPrefix + DecimalString(totalNulls) + WarningSuffix) else None
  }

  /** The number the warning reports is `total_nulls` itself. */
  lemma WarningReportsCount(totalNulls: nat)
    requires totalNulls > 0
    ensures var m := Warning(totalNulls).value;
      && |m| > |WarningPrefix| + |WarningSuffix|
      && m[..|WarningPrefix|] == WarningPrefix
      && m[|m| - |WarningSuffix|..] == WarningSuffix
      && IsDigits(m[|WarningPrefix|..|m| - |WarningSuffix|])
      && ParseDecimal(m[|WarningPrefix|..|m| - |WarningSuffix|]) == totalNulls
  {
    var m := Warning(totalNulls).value;
    var digits := DecimalString(totalNulls);
    assert m[|WarningPrefix|..|m| - |WarningSuffix|] == digits;
    DecimalRoundTrip(totalNulls);
  }

  /**
   * A row of the loaded table whose target is present but which misses two
   * feature cells adds 2 to the "Removed N rows" count while one row is removed.
   */
  lemma CountIsCellsNotRows()
    ensures var row: Row := map["y" := Some(IntVal(1)), "a" := None, "b" := None];
      && Contributions([row], "y", {"y"}) == [2]
      && !Survives(row, "y", {"y"})
  {
    var row: Row := map["y" := Some(IntVal(1)), "a" := None, "b" := None];
    var rest := row - {"y"};
    assert rest == map["a" := None, "b" := None];
    assert MissingKeys(rest) == {"a", "b"};
  }

  /** The scores part of the panel, present when its checkbox is ticked. */
  datatype Scores = Scores(request: MiRequest, ranking: seq<Entry>, plot: seq<Entry>)

  /** What the panel shows: the cleaned data, the warning, and possibly the scores. */
  datatype Report = Report(prepared: Prepared, warning: Option<string>, scores: Option<Scores>)

  /**
   * The feature-utility panel (app.py:129-143, 150-167, 182-193): clean the
   * table, warn about what was removed, and, when asked, rank the features and
   * order the bars of the plot.
   */
  method FeatureUtility(data: Frame, target: string, targetType: TargetType, removed: seq<string>,
                        showScores: bool, estimate: MiRequest -> seq<real>)
    returns (r: Result<Report, Error>)
    requires Valid(data) && DefaultIndexed(data)
    ensures (r.Err? && r.error.KeyError?) <==>
      || target !in NameSet(data.columns)
      || exists l :: l in removed && (l == target || l !in NameSet(data.columns))
    ensures r.Err? ==> r.error.KeyError? || (showScores && r.error.LengthMismatch?)
    ensures (forall q: MiRequest :: |estimate(q)| == |q.x.columns|) && r.Err? ==> r.error.KeyError?
    ensures r.Ok? ==> target in NameSet(data.columns) && PreparedFrom(r.value.prepared, data, target, removed)
    ensures r.Ok? ==> (r.value.warning.Some? <==> r.value.prepared.totalNulls > 0)
    ensures r.Ok? ==> r.value.warning == Warning(r.value.prepared.totalNulls)
    ensures r.Ok? ==> (r.value.scores.Some? <==> showScores)
    ensures r.Ok? && r.value.scores.Some? ==>
      var s, features := r.value.scores.value, r.value.prepared.features;
      && |estimate(s.request)| == |features.columns|
      && EncodedFrom(s.request.x, features)
      && s.request.discrete == DiscreteFlags(s.request.x.columns)
      && (s.request.classification <==> targetType == Categorical)
      && s.request.y == EncodeTarget(r.value.prepared.target, targetType)
      && s.request.randomState == 0
      && Sorted(s.ranking, false)
      && multiset(s.ranking) == multiset(Zip(Names(features.columns), estimate(s.request)))
      && Sorted(s.plot, true)
      && multiset(s.plot) == multiset(s.ranking)
  {
    var prepared :- PrepareFeatures(data, target, removed);
    var warning := Warning(prepared.totalNulls);
    if !showScores {
      return Ok(Report(prepared, warning, None));
    }
    assert Valid(prepared.features);
    var request, ranked := MakeMiScores(prepared.features, prepared.target, targetType, estimate);
    var ranking :- ranked;
    var plot := PlotOrder(ranking);
    r := Ok(Report(prepared, warning, Some(Scores(request, ranking, plot))));
  }
}
