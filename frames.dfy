/**
 * The pandas tables that the feature-utility panel of app.py works on, as values.
 *
 * A frame keeps its column order and dtypes in `columns`, its row labels in
 * `index`, and each row as a dictionary from column name to cell; a missing
 * cell (NaN / None in pandas) is `None`. The dtype of each column is the one
 * pandas inferred when the table was loaded: a numeric column that holds a
 * missing value is therefore `Float64`, and stays so after rows are dropped.
 */
module Frames {
  import opened Wrappers

  datatype Value = IntVal(i: int) | FloatVal(x: real) | BoolVal(b: bool) | StrVal(s: string)

  type Cell = Option<Value>

  type Row = map<string, Cell>

  /** The dtypes `read_csv` produces, plus `category`, which the encoder also selects. */
  datatype Dtype = Int64 | Float64 | Bool | Object | Category

  datatype ColumnInfo = ColumnInfo(name: string, dtype: Dtype)

  datatype Frame = Frame(columns: seq<ColumnInfo>, index: seq<nat>, rows: seq<Row>)

  /** The exceptions pandas raises on the paths the model follows. */
  datatype Error =
    | KeyError(key: string)                  // a label that is not a column
    | IndexError                             // an `iloc` position out of bounds
    | LengthMismatch(values: nat, labels: nat) // a Series whose values and index differ in length

  function Names(cols: seq<ColumnInfo>): seq<string> {
    seq(|cols|, j requires 0 <= j < |cols| => cols[j].name)
  }

  function NameSet(cols: seq<ColumnInfo>): set<string> {
    set c | c in cols :: c.name
  }

  ghost predicate DistinctNames(cols: seq<ColumnInfo>) {
    forall i, j :: 0 <= i < j < |cols| ==> cols[i].name != cols[j].name
  }

  /** A well-formed frame: one label per row, unique column names, every row holding exactly the columns. */
  ghost predicate Valid(f: Frame) {
    && |f.rows| == |f.index|
    && DistinctNames(f.columns)
    && forall k :: 0 <= k < |f.rows| ==> f.rows[k].Keys == NameSet(f.columns)
  }

  /** The RangeIndex 0..n-1 that `read_csv` gives a freshly loaded table. */
  ghost predicate DefaultIndexed(f: Frame) {
    forall k :: 0 <= k < |f.index| ==> f.index[k] == k
  }

  ghost predicate Increasing(s: seq<nat>) {
    forall i, j :: 0 <= i < j < |s| ==> s[i] < s[j]
  }

  /** The positions where a boolean mask is true, in increasing order. */
  function Kept(m: seq<bool>): (r: seq<nat>)
    ensures |r| <= |m|
    ensures forall k :: 0 <= k < |r| ==> r[k] < |m| && m[r[k]]
  {
    if m == [] then [] else Kept(m[..|m| - 1]) + (if m[|m| - 1] then [|m| - 1] else [])
  }

  /** One more mask entry keeps one more position exactly when it is true. */
  lemma KeptSnoc(m: seq<bool>, b: bool)
    ensures Kept(m + [b]) == Kept(m) + (if b then [|m|] else [])
  {
    assert (m + [b])[..|m|] == m;
  }

  /** The kept positions come in increasing order. */
  lemma {:induction false} KeptIncreasing(m: seq<bool>)
    ensures Increasing(Kept(m))
  {
    if m != [] {
      KeptIncreasing(m[..|m| - 1]);
    }
  }

  /** Every true position of a mask is kept: `k` is its rank among the kept positions. */
  lemma {:induction false} KeptRank(m: seq<bool>, p: nat) returns (k: nat)
    requires p < |m| && m[p]
    ensures k < |Kept(m)| && Kept(m)[k] == p
  {
    var n := |m|;
    if p == n - 1 {
      k := |Kept(m[..n - 1])|;
    } else {
      k := KeptRank(m[..n - 1], p);
    }
  }

  /** Boolean-mask selection `s[m]`: the k-th survivor is the element at the k-th true position. */
  function Keep<T>(s: seq<T>, m: seq<bool>): (r: seq<T>)
    requires |s| == |m|
    ensures |r| == |Kept(m)|
    ensures forall k :: 0 <= k < |r| ==> r[k] == s[Kept(m)[k]]
  {
    if s == [] then [] else Keep(s[..|s| - 1], m[..|m| - 1]) + (if m[|m| - 1] then [s[|s| - 1]] else [])
  }

  /** The result of selecting with a mask is increasing when the input is. */
  lemma KeepIncreasing(s: seq<nat>, m: seq<bool>)
    requires |s| == |m| && Increasing(s)
    ensures Increasing(Keep(s, m))
  {
    var r, kept := Keep(s, m), Kept(m);
    KeptIncreasing(m);
    forall i, j | 0 <= i < j < |r| ensures r[i] < r[j] {
      assert kept[i] < kept[j];
    }
  }

  /** `isnull()` of one row: true when no cell is missing. */
  predicate Complete(row: Row) {
    forall n :: n in row ==> row[n].Some?
  }

  function MissingKeys(row: Row): set<string> {
    set n | n in row && row[n].None?
  }

  /** `row.isnull().sum()`: the number of missing cells in a row. */
  function MissingIn(row: Row): (c: nat)
    ensures c == 0 <==> Complete(row)
    ensures c <= |row|
  {
    var missing := MissingKeys(row);
    assert missing <= row.Keys;
    assert Complete(row) ==> missing == {};
    assert !Complete(row) ==> |missing| > 0 by {
      if !Complete(row) {
        var n :| n in row && row[n].None?;
        assert n in missing;
      }
    }
    Cardinality(missing, row.Keys);
    |missing|
  }

  lemma Cardinality<T>(a: set<T>, b: set<T>)
    requires a <= b
    ensures |a| <= |b|
  {
    assert b == a + (b - a);
  }

  /** `isnull().sum().sum()` of a frame's rows: all missing cells. */
  function MissingCells(rows: seq<Row>): nat {
    if rows == [] then 0 else MissingCells(rows[..|rows| - 1]) + MissingIn(rows[|rows| - 1])
  }

  /** `isnull().sum()` of one column. */
  function CountNone(cells: seq<Cell>): nat {
    if cells == [] then 0 else CountNone(cells[..|cells| - 1]) + (if cells[|cells| - 1].None? then 1 else 0)
  }

  /** `frame[name]`: the cells of one column, top to bottom. */
  function Column(rows: seq<Row>, name: string): (cells: seq<Cell>)
    requires forall k :: 0 <= k < |rows| ==> name in rows[k]
    ensures |cells| == |rows|
  {
    seq(|rows|, k requires 0 <= k < |rows| => rows[k][name])
  }

  /** The columns other than the dropped names, in their original order. */
  function FilterOut(cols: seq<ColumnInfo>, drop: set<string>): (r: seq<ColumnInfo>)
    ensures |r| <= |cols|
  {
    if cols == [] then []
    else
      var last := cols[|cols| - 1];
      FilterOut(cols[..|cols| - 1], drop) + (if last.name in drop then [] else [last])
  }

  /** Dropping keeps exactly the columns whose names are not dropped, and keeps names distinct. */
  lemma {:induction false} FilterOutMembers(cols: seq<ColumnInfo>, drop: set<string>)
    ensures forall c :: c in FilterOut(cols, drop) <==> c in cols && c.name !in drop
    ensures DistinctNames(cols) ==> DistinctNames(FilterOut(cols, drop))
  {
    if cols != [] {
      var n := |cols|;
      var init, last := cols[..n - 1], cols[n - 1];
      var rest := FilterOut(init, drop);
      FilterOutMembers(init, drop);
      assert cols == init + [last];
      assert FilterOut(cols, drop) == rest + (if last.name in drop then [] else [last]);
      if DistinctNames(cols) {
        assert DistinctNames(init) by {
          forall i, j | 0 <= i < j < |init| ensures init[i].name != init[j].name {
            assert init[i] == cols[i] && init[j] == cols[j];
          }
        }
        forall c | c in rest ensures c.name != last.name {
          var i :| 0 <= i < |init| && init[i] == c;
          assert cols[i] == c;
        }
      }
    }
  }

  lemma NameSetFilterOut(cols: seq<ColumnInfo>, drop: set<string>)
    ensures NameSet(FilterOut(cols, drop)) == NameSet(cols) - drop
  {
    var r := FilterOut(cols, drop);
    FilterOutMembers(cols, drop);
    forall n | n in NameSet(cols) - drop ensures n in NameSet(r) {
      var c :| c in cols && c.name == n;
      assert c in r;
    }
  }

  /** The mask that keeps the columns whose names are not dropped. */
  function NameMask(cols: seq<ColumnInfo>, drop: set<string>): seq<bool> {
    seq(|cols|, j requires 0 <= j < |cols| => cols[j].name !in drop)
  }

  /** Dropping columns keeps the survivors in their original order: it is a mask selection. */
  lemma {:induction false} FilterOutKeepsOrder(cols: seq<ColumnInfo>, drop: set<string>)
    ensures FilterOut(cols, drop) == Keep(cols, NameMask(cols, drop))
  {
    if cols != [] {
      var n := |cols|;
      FilterOutKeepsOrder(cols[..n - 1], drop);
      assert NameMask(cols, drop)[..n - 1] == NameMask(cols[..n - 1], drop);
    }
  }

  /** Two successive `drop` calls remove the union of their labels. */
  lemma {:induction false} FilterOutTwice(cols: seq<ColumnInfo>, a: set<string>, b: set<string>)
    ensures FilterOut(FilterOut(cols, a), b) == FilterOut(cols, a + b)
  {
    if cols != [] {
      var n := |cols|;
      var init, last := cols[..n - 1], cols[n - 1];
      var first := FilterOut(init, a);
      FilterOutTwice(init, a, b);
      assert FilterOut(cols, a + b) == FilterOut(init, a + b) + (if last.name in a + b then [] else [last]);
      if last.name in a {
        assert FilterOut(cols, a) == first;
      } else {
        var both := first + [last];
        assert FilterOut(cols, a) == both;
        assert both[..|both| - 1] == first;
        assert FilterOut(both, b) == FilterOut(first, b) + (if last.name in b then [] else [last]);
      }
    }
  }

  /** Every row without the dropped cells. */
  function Project(rows: seq<Row>, drop: set<string>): (r: seq<Row>)
    ensures |r| == |rows|
  {
    seq(|rows|, k requires 0 <= k < |rows| => rows[k] - drop)
  }

  /** The labels of a list, as a set. */
  function LabelSet(labels: seq<string>): set<string> {
    set l | l in labels
  }

  /** The first label that is not a column name, if any. */
  function FirstAbsent(labels: seq<string>, names: set<string>): (r: Option<string>)
    ensures r.None? <==> forall l :: l in labels ==> l in names
    ensures r.Some? ==> r.value in labels && r.value !in names
  {
    if labels == [] then None
    else if labels[0] !in names then Some(labels[0])
    else FirstAbsent(labels[1..], names)
  }

  /**
   * `frame.drop(labels, axis=1)`: removes the named columns, keeping the order of
   * the others; raises KeyError when a label is not a column.
   */
  function Drop(f: Frame, labels: seq<string>): (r: Result<Frame, Error>)
    requires Valid(f)
    ensures r.Ok? <==> forall l :: l in labels ==> l in NameSet(f.columns)
    ensures r.Err? ==> r.error.KeyError? && r.error.key in labels && r.error.key !in NameSet(f.columns)
    ensures r.Ok? ==> Valid(r.value) && r.value.index == f.index
    ensures r.Ok? ==> r.value.columns == FilterOut(f.columns, LabelSet(labels))
    ensures r.Ok? ==> |r.value.rows| == |f.rows|
    ensures r.Ok? ==> forall k :: 0 <= k < |f.rows| ==> r.value.rows[k] == f.rows[k] - LabelSet(labels)
  {
    match FirstAbsent(labels, NameSet(f.columns))
    case Some(l) => Err(KeyError(l))
    case None =>
      var drop := LabelSet(labels);
      NameSetFilterOut(f.columns, drop);
      FilterOutMembers(f.columns, drop);
      Ok(Frame(FilterOut(f.columns, drop), f.index, Project(f.rows, drop)))
  }

  /** Row selection with a boolean mask (`dropna` keeps the rows its mask marks). */
  function KeepRows(f: Frame, m: seq<bool>): (g: Frame)
    requires Valid(f) && |m| == |f.rows|
    ensures Valid(g) && g.columns == f.columns && |g.rows| == |Kept(m)|
    ensures forall k :: 0 <= k < |g.rows| ==> g.index[k] == f.index[Kept(m)[k]] && g.rows[k] == f.rows[Kept(m)[k]]
  {
    Frame(f.columns, Keep(f.index, m), Keep(f.rows, m))
  }

  /** `series.iloc[positions]`: raises IndexError when a position is out of bounds. */
  function Iloc<T>(s: seq<T>, positions: seq<nat>): (r: Result<seq<T>, Error>)
    ensures r.Ok? <==> forall k :: 0 <= k < |positions| ==> positions[k] < |s|
    ensures r.Ok? ==> |r.value| == |positions| && forall k :: 0 <= k < |positions| ==> r.value[k] == s[positions[k]]
  {
    if forall k :: 0 <= k < |positions| ==> positions[k] < |s|
    then Ok(seq(|positions|, k requires 0 <= k < |positions| => s[positions[k]]))
    else Err(IndexError)
  }
}
