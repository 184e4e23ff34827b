/**
 * The row-cleaning block of app.py (lines 129-143): drop the rows whose target is
 * missing, drop the target and the excluded columns, drop the rows with a missing
 * feature, and realign the target; `total_nulls` accumulates the count shown in
 * the warning.
 *
 * `total_nulls` starts as the number of missing target cells, which is the number
 * of rows the first pass removes, and then grows by the number of missing feature
 * CELLS among the remaining rows, not by the number of rows the second pass
 * removes. Per row of the loaded table this is `Contribution` below.
 */
module Cleaning {
  import opened Wrappers
  import opened Frames

  /** Row mask of `dropna(axis=0, subset=[target])`: true where the target is present. */
  function TargetPresent(rows: seq<Row>, target: string): (m: seq<bool>)
    requires forall k :: 0 <= k < |rows| ==> target in rows[k]
    ensures |m| == |rows|
  {
    seq(|rows|, k requires 0 <= k < |rows| => rows[k][target].Some?)
  }

  /** Row mask of `dropna(axis=0)`: true where no cell of the row is missing. */
  function CompleteRows(rows: seq<Row>): (m: seq<bool>)
    ensures |m| == |rows|
  {
    seq(|rows|, k requires 0 <= k < |rows| => Complete(rows[k]))
  }

  /**
   * What one row of the loaded table adds to `total_nulls`: 1 when its target is
   * missing, otherwise the number of its missing feature cells.
   */
  function Contribution(row: Row, target: string, dropped: set<string>): nat
    requires target in row
  {
    if row[target].None? then 1 else MissingIn(row - dropped)
  }

  function Contributions(rows: seq<Row>, target: string, dropped: set<string>): (c: seq<nat>)
    requires forall k :: 0 <= k < |rows| ==> target in rows[k]
    ensures |c| == |rows|
  {
    seq(|rows|, k requires 0 <= k < |rows| => Contribution(rows[k], target, dropped))
  }

  /** A row survives both passes when its target and all its feature cells are present. */
  ghost predicate Survives(row: Row, target: string, dropped: set<string>)
    requires target in row
  {
    row[target].Some? && Complete(row - dropped)
  }

  function Sum(xs: seq<nat>): nat {
    if xs == [] then 0 else Sum(xs[..|xs| - 1]) + xs[|xs| - 1]
  }

  function CountPositive(xs: seq<nat>): nat {
    if xs == [] then 0 else CountPositive(xs[..|xs| - 1]) + (if xs[|xs| - 1] > 0 then 1 else 0)
  }

  /**
   * A sum of counts is at least the number of positive counts, and equal to it
   * exactly when no count exceeds one.
   */
  lemma {:induction false} SumBoundsPositives(xs: seq<nat>)
    ensures Sum(xs) >= CountPositive(xs)
    ensures Sum(xs) == CountPositive(xs) <==> forall i :: 0 <= i < |xs| ==> xs[i] <= 1
  {
    if xs != [] {
      var init := xs[..|xs| - 1];
      SumBoundsPositives(init);
      assert forall i :: 0 <= i < |init| ==> init[i] == xs[i];
    }
  }

  /** The first pass's survivors without the dropped columns. */
  function FirstPass(rows: seq<Row>, target: string, dropped: set<string>): (clean: seq<Row>)
    requires forall k :: 0 <= k < |rows| ==> target in rows[k]
  {
    Project(Keep(rows, TargetPresent(rows, target)), dropped)
  }

  /** The j-th row after the first pass is the j-th row with a target, without the dropped cells. */
  lemma FirstPassAt(rows: seq<Row>, target: string, dropped: set<string>, j: nat)
    requires forall k :: 0 <= k < |rows| ==> target in rows[k]
    requires j < |FirstPass(rows, target, dropped)|
    ensures var kept := Kept(TargetPresent(rows, target));
      j < |kept| && kept[j] < |rows| && rows[kept[j]][target].Some? &&
      FirstPass(rows, target, dropped)[j] == rows[kept[j]] - dropped
  {
    var present := TargetPresent(rows, target);
    var selected := Keep(rows, present);
    assert FirstPass(rows, target, dropped)[j] == selected[j] - dropped;
    assert present[Kept(present)[j]];
  }

  /** How FirstPass grows when one row is appended to the loaded table. */
  lemma FirstPassSnoc(rows: seq<Row>, target: string, dropped: set<string>)
    requires rows != [] && forall k :: 0 <= k < |rows| ==> target in rows[k]
    ensures var n := |rows|;
      FirstPass(rows, target, dropped) ==
        FirstPass(rows[..n - 1], target, dropped) + (if rows[n - 1][target].Some? then [rows[n - 1] - dropped] else [])
  {
    var n := |rows|;
    var init, last := rows[..n - 1], rows[n - 1];
    var m, mInit := TargetPresent(rows, target), TargetPresent(init, target);
    assert m[..n - 1] == mInit;
    var kept, keptInit := Keep(rows, m), Keep(init, mInit);
    assert kept == keptInit + (if m[n - 1] then [last] else []);
  }

  lemma MissingCellsSnoc(rows: seq<Row>, row: Row)
    ensures MissingCells(rows + [row]) == MissingCells(rows) + MissingIn(row)
  {
    assert (rows + [row])[..|rows|] == rows;
  }

  /** What the last loaded row adds to the missing cells counted after the first pass. */
  lemma FirstPassMissingStep(rows: seq<Row>, target: string, dropped: set<string>)
    requires rows != [] && forall k :: 0 <= k < |rows| ==> target in rows[k]
    ensures var n := |rows|;
      MissingCells(FirstPass(rows, target, dropped)) ==
        MissingCells(FirstPass(rows[..n - 1], target, dropped)) +
        (if rows[n - 1][target].Some? then MissingIn(rows[n - 1] - dropped) else 0)
  {
    var n := |rows|;
    FirstPassSnoc(rows, target, dropped);
    var clean, cleanInit := FirstPass(rows, target, dropped), FirstPass(rows[..n - 1], target, dropped);
    if rows[n - 1][target].Some? {
      assert clean == cleanInit + [rows[n - 1] - dropped];
      MissingCellsSnoc(cleanInit, rows[n - 1] - dropped);
    } else {
      assert clean == cleanInit;
    }
  }

  /** What the last loaded row adds to the rows the second pass keeps. */
  lemma SecondPassKeptStep(rows: seq<Row>, target: string, dropped: set<string>)
    requires rows != [] && forall k :: 0 <= k < |rows| ==> target in rows[k]
    ensures var n := |rows|;
      |Kept(CompleteRows(FirstPass(rows, target, dropped)))| ==
        |Kept(CompleteRows(FirstPass(rows[..n - 1], target, dropped)))| +
        (if Survives(rows[n - 1], target, dropped) then 1 else 0)
  {
    var n := |rows|;
    FirstPassSnoc(rows, target, dropped);
    var clean, cleanInit := FirstPass(rows, target, dropped), FirstPass(rows[..n - 1], target, dropped);
    if rows[n - 1][target].Some? {
      var r := rows[n - 1] - dropped;
      assert clean == cleanInit + [r];
      CompleteRowsSnoc(cleanInit, r);
      KeptSnoc(CompleteRows(cleanInit), Complete(r));
    } else {
      assert clean == cleanInit;
    }
  }

  lemma CompleteRowsSnoc(rows: seq<Row>, r: Row)
    ensures CompleteRows(rows + [r]) == CompleteRows(rows) + [Complete(r)]
  {
  }

  /** What the last loaded row adds to the count of positive contributions. */
  lemma PositiveStep(rows: seq<Row>, target: string, dropped: set<string>)
    requires rows != [] && forall k :: 0 <= k < |rows| ==> target in rows[k]
    ensures var n := |rows|;
      CountPositive(Contributions(rows, target, dropped)) ==
        CountPositive(Contributions(rows[..n - 1], target, dropped)) +
        (if Survives(rows[n - 1], target, dropped) then 0 else 1)
  {
    var n := |rows|;
    var c := Contributions(rows, target, dropped);
    assert c[..n - 1] == Contributions(rows[..n - 1], target, dropped);
    var last := rows[n - 1];
    assert last[target].Some? ==> (MissingIn(last - dropped) == 0 <==> Complete(last - dropped));
  }

  /**
   * The two passes, counted over the loaded rows: the missing targets plus the
   * missing cells of the first pass's survivors add up to the per-row
   * contributions.
   */
  lemma {:induction false} TwoPassNulls(rows: seq<Row>, target: string, dropped: set<string>)
    requires forall k :: 0 <= k < |rows| ==> target in rows[k]
    ensures CountNone(Column(rows, target)) + MissingCells(FirstPass(rows, target, dropped))
         == Sum(Contributions(rows, target, dropped))
  {
    if rows != [] {
      TwoPassNulls(rows[..|rows| - 1], target, dropped);
      MissingTargetStep(rows, target);
      ContributionSumStep(rows, target, dropped);
      FirstPassMissingStep(rows, target, dropped);
    }
  }

  /** What the last loaded row adds to the count of missing targets. */
  lemma MissingTargetStep(rows: seq<Row>, target: string)
    requires rows != [] && forall k :: 0 <= k < |rows| ==> target in rows[k]
    ensures var n := |rows|;
      CountNone(Column(rows, target)) ==
        CountNone(Column(rows[..n - 1], target)) + (if rows[n - 1][target].None? then 1 else 0)
  {
    var n := |rows|;
    assert Column(rows, target)[..n - 1] == Column(rows[..n - 1], target);
  }

  /** What the last loaded row adds to the sum of contributions. */
  lemma ContributionSumStep(rows: seq<Row>, target: string, dropped: set<string>)
    requires rows != [] && forall k :: 0 <= k < |rows| ==> target in rows[k]
    ensures var n := |rows|;
      Sum(Contributions(rows, target, dropped)) ==
        Sum(Contributions(rows[..n - 1], target, dropped)) + Contribution(rows[n - 1], target, dropped)
  {
    var n := |rows|;
    assert Contributions(rows, target, dropped)[..n - 1] == Contributions(rows[..n - 1], target, dropped);
  }

  /** The rows the second pass keeps are exactly those whose contribution is zero. */
  lemma {:induction false} TwoPassSurvivorCount(rows: seq<Row>, target: string, dropped: set<string>)
    requires forall k :: 0 <= k < |rows| ==> target in rows[k]
    ensures |Kept(CompleteRows(FirstPass(rows, target, dropped)))| + CountPositive(Contributions(rows, target, dropped))
         == |rows|
  {
    if rows != [] {
      var init := rows[..|rows| - 1];
      TwoPassSurvivorCount(init, target, dropped);
      PositiveStep(rows, target, dropped);
      SecondPassKeptStep(rows, target, dropped);
    }
  }

  /** The first pass removes one row per missing target: `total_nulls` starts at the number of rows it drops. */
  lemma {:induction false} FirstPassRemoved(rows: seq<Row>, target: string)
    requires forall k :: 0 <= k < |rows| ==> target in rows[k]
    ensures CountNone(Column(rows, target)) + |Kept(TargetPresent(rows, target))| == |rows|
  {
    if rows != [] {
      var n := |rows|;
      var init := rows[..n - 1];
      FirstPassRemoved(init, target);
      MissingTargetStep(rows, target);
      assert TargetPresent(rows, target) == TargetPresent(init, target) + [rows[n - 1][target].Some?];
      KeptSnoc(TargetPresent(init, target), rows[n - 1][target].Some?);
    }
  }

  /**
   * The second pass on its own: the missing cells it adds are at least the rows
   * it removes, and exactly that many when no row misses more than one cell.
   */
  lemma {:induction false} SecondPassBound(rows: seq<Row>)
    ensures MissingCells(rows) + |Kept(CompleteRows(rows))| >= |rows|
    ensures MissingCells(rows) + |Kept(CompleteRows(rows))| == |rows| <==>
      forall k :: 0 <= k < |rows| ==> MissingIn(rows[k]) <= 1
  {
    if rows != [] {
      var n := |rows|;
      var init := rows[..n - 1];
      var last := rows[n - 1];
      SecondPassBound(init);
      assert rows == init + [last];
      MissingCellsSnoc(init, last);
      CompleteRowsSnoc(init, last);
      KeptSnoc(CompleteRows(init), Complete(last));
      assert (forall k :: 0 <= k < n ==> MissingIn(rows[k]) <= 1) <==>
        (forall k :: 0 <= k < n - 1 ==> MissingIn(init[k]) <= 1) && MissingIn(last) <= 1;
    }
  }

  /** The outputs of the cleaning block. */
  datatype Prepared = Prepared(features: Frame, target: seq<Cell>, totalNulls: nat)

  function Dropped(target: string, removed: seq<string>): set<string> {
    {target} + LabelSet(removed)
  }

  /**
   * What the cleaning block promises, stated against the loaded table `data`:
   * the features are the columns other than the target and the excluded ones, in
   * their original order; the surviving rows are exactly those with a target and
   * no missing feature, in their original order, with their cells unchanged; the
   * target is realigned row for row and has no missing value; and `total_nulls`
   * is the sum of the per-row contributions, which is at least the number of rows
   * removed and equal to it exactly when no row with a target misses two or more
   * feature cells.
   */
  ghost predicate PreparedFrom(p: Prepared, data: Frame, target: string, removed: seq<string>)
    requires Valid(data) && target in NameSet(data.columns)
  {
    && Valid(p.features)
    && p.features.columns == FilterOut(data.columns, Dropped(target, removed))
    && PreparedRows(p, data, target, removed)
    && PreparedSurvivors(p, data, target, removed)
    && PreparedCount(p, data, target, removed)
  }

  /** Each surviving row, with its target, in the order of the loaded table. */
  ghost predicate PreparedRows(p: Prepared, data: Frame, target: string, removed: seq<string>)
    requires Valid(data) && target in NameSet(data.columns)
  {
    var dropped := Dropped(target, removed);
    var idx := p.features.index;
    && Increasing(idx)
    && |p.target| == |idx| == |p.features.rows|
    && (forall k :: 0 <= k < |idx| ==>
          && idx[k] < |data.rows|
          && p.features.rows[k] == data.rows[idx[k]] - dropped
          && p.target[k] == data.rows[idx[k]][target]
          && p.target[k].Some?
          && Complete(p.features.rows[k]))
  }

  /** The surviving rows are exactly the rows with a target and no missing feature. */
  ghost predicate PreparedSurvivors(p: Prepared, data: Frame, target: string, removed: seq<string>)
    requires Valid(data) && target in NameSet(data.columns)
  {
    forall q :: 0 <= q < |data.rows| ==> (q in p.features.index <==> Survives(data.rows[q], target, Dropped(target, removed)))
  }

  /** `total_nulls` against the rows removed. */
  ghost predicate PreparedCount(p: Prepared, data: Frame, target: string, removed: seq<string>)
    requires Valid(data) && target in NameSet(data.columns)
  {
    var dropped := Dropped(target, removed);
    var removedRows := |data.rows| - |p.features.index|;
    && p.totalNulls == Sum(Contributions(data.rows, target, dropped))
    && p.totalNulls >= removedRows
    && (p.totalNulls == removedRows <==>
          forall q :: 0 <= q < |data.rows| && data.rows[q][target].Some? ==> MissingIn(data.rows[q] - dropped) <= 1)
  }

  lemma MapDropTwice(row: Row, a: set<string>, b: set<string>)
    ensures (row - a) - b == row - (a + b)
  {
  }

  /**
   * The cleaning block (app.py:129-143). Raises KeyError when the target is not a
   * column (`dropna(subset=...)`), and when an excluded name is not a column of
   * the frame left after the target was dropped (`drop(removed_features)`).
   */
  method PrepareFeatures(data: Frame, target: string, removed: seq<string>) returns (r: Result<Prepared, Error>)
    requires Valid(data) && DefaultIndexed(data)
    ensures r.Err? <==>
      || target !in NameSet(data.columns)
      || exists l :: l in removed && (l == target || l !in NameSet(data.columns))
    ensures r.Err? ==> r.error.KeyError?
    ensures r.Ok? ==> target in NameSet(data.columns) && PreparedFrom(r.value, data, target, removed)
  {
    var names := NameSet(data.columns);
    if target !in names {
      return Err(KeyError(target));
    }
    assert forall k :: 0 <= k < |data.rows| ==> target in data.rows[k];
    var present := TargetPresent(data.rows, target);
    var cleaned := KeepRows(data, present);
    var totalNulls := CountNone(Column(data.rows, target));
    var features := Drop(cleaned, [target]).value;
    NameSetFilterOut(data.columns, {target});
    assert LabelSet([target]) == {target};
    assert NameSet(features.columns) == names - {target};
    var withoutRemoved := Drop(features, removed);
    if withoutRemoved.Err? {
      return Err(withoutRemoved.error);
    }
    ghost var afterTarget := features;
    features := withoutRemoved.value;
    totalNulls := totalNulls + MissingCells(features.rows);
    ghost var firstPass := features;
    features := KeepRows(features, CompleteRows(features.rows));
    FirstPassShape(data, target, removed, cleaned, afterTarget, firstPass);
    SurvivorsInBounds(data, target, removed, firstPass, features);
    var targetVar := Iloc(Column(data.rows, target), features.index).value;
    r := Ok(Prepared(features, targetVar, totalNulls));
    ProveCleaning(data, target, removed, firstPass, r.value);
  }

  /** After the first pass and both drops: the rows with a target, without the dropped cells. */
  ghost predicate IsFirstPass(fp: Frame, data: Frame, target: string, removed: seq<string>)
    requires Valid(data) && target in NameSet(data.columns)
  {
    && Valid(fp)
    && fp.columns == FilterOut(data.columns, Dropped(target, removed))
    && fp.index == Kept(TargetPresent(data.rows, target))
    && fp.rows == FirstPass(data.rows, target, Dropped(target, removed))
  }

  lemma FirstPassShape(data: Frame, target: string, removed: seq<string>, cleaned: Frame, afterTarget: Frame, fp: Frame)
    requires Valid(data) && DefaultIndexed(data) && target in NameSet(data.columns)
    requires cleaned == KeepRows(data, TargetPresent(data.rows, target))
    requires Valid(cleaned) && Drop(cleaned, [target]) == Ok(afterTarget)
    requires Valid(afterTarget) && Drop(afterTarget, removed) == Ok(fp)
    ensures IsFirstPass(fp, data, target, removed)
  {
    assert LabelSet([target]) == {target};
    FilterOutTwice(data.columns, {target}, LabelSet(removed));
    FirstPassIndex(data, target, cleaned);
    FirstPassRows(data, target, removed, cleaned, afterTarget, fp);
  }

  lemma FirstPassIndex(data: Frame, target: string, cleaned: Frame)
    requires Valid(data) && DefaultIndexed(data) && target in NameSet(data.columns)
    requires cleaned == KeepRows(data, TargetPresent(data.rows, target))
    ensures cleaned.index == Kept(TargetPresent(data.rows, target))
  {
    var kept := Kept(TargetPresent(data.rows, target));
    assert forall k :: 0 <= k < |kept| ==> cleaned.index[k] == kept[k];
  }

  lemma FirstPassRows(data: Frame, target: string, removed: seq<string>, cleaned: Frame, afterTarget: Frame, fp: Frame)
    requires Valid(data) && target in NameSet(data.columns)
    requires cleaned == KeepRows(data, TargetPresent(data.rows, target))
    requires Valid(cleaned) && Drop(cleaned, [target]) == Ok(afterTarget)
    requires Valid(afterTarget) && Drop(afterTarget, removed) == Ok(fp)
    ensures fp.rows == FirstPass(data.rows, target, Dropped(target, removed))
  {
    assert LabelSet([target]) == {target};
    var clean := FirstPass(data.rows, target, Dropped(target, removed));
    forall j | 0 <= j < |clean| ensures fp.rows[j] == clean[j] {
      FirstPassAt(data.rows, target, Dropped(target, removed), j);
      MapDropTwice(cleaned.rows[j], {target}, LabelSet(removed));
    }
  }

  /** The proof obligations of PrepareFeatures, from the frame the first pass leaves. */
  lemma ProveCleaning(data: Frame, target: string, removed: seq<string>, fp: Frame, p: Prepared)
    requires Valid(data) && DefaultIndexed(data) && target in NameSet(data.columns)
    requires IsFirstPass(fp, data, target, removed)
    requires p.features == KeepRows(fp, CompleteRows(fp.rows))
    requires Iloc(Column(data.rows, target), p.features.index) == Ok(p.target)
    requires p.totalNulls == CountNone(Column(data.rows, target)) + MissingCells(fp.rows)
    ensures PreparedFrom(p, data, target, removed)
  {
    ProveRows(data, target, removed, fp, p);
    SurvivorsExactly(data, target, removed, fp, p.features);
    ProveCount(data, target, removed, fp, p);
  }

  lemma ProveRows(data: Frame, target: string, removed: seq<string>, fp: Frame, p: Prepared)
    requires Valid(data) && DefaultIndexed(data) && target in NameSet(data.columns)
    requires IsFirstPass(fp, data, target, removed)
    requires p.features == KeepRows(fp, CompleteRows(fp.rows))
    requires Iloc(Column(data.rows, target), p.features.index) == Ok(p.target)
    ensures PreparedRows(p, data, target, removed)
  {
    SurvivorsInBounds(data, target, removed, fp, p.features);
    SurvivingRows(data, target, removed, fp, p.features);
    TargetRealigned(data, target, p.features.index, p.target);
  }

  lemma ProveCount(data: Frame, target: string, removed: seq<string>, fp: Frame, p: Prepared)
    requires Valid(data) && DefaultIndexed(data) && target in NameSet(data.columns)
    requires IsFirstPass(fp, data, target, removed)
    requires p.features == KeepRows(fp, CompleteRows(fp.rows))
    requires p.totalNulls == CountNone(Column(data.rows, target)) + MissingCells(fp.rows)
    ensures PreparedCount(p, data, target, removed)
  {
    var dropped := Dropped(target, removed);
    var c := Contributions(data.rows, target, dropped);
    assert |p.features.index| == |Kept(CompleteRows(FirstPass(data.rows, target, dropped)))|;
    TwoPassNulls(data.rows, target, dropped);
    TwoPassSurvivorCount(data.rows, target, dropped);
    SumBoundsPositives(c);
    AtMostOneEach(data.rows, target, dropped);
  }

  /** `data[target].iloc[index]`: the k-th target is the target cell of the k-th kept row. */
  lemma TargetRealigned(data: Frame, target: string, idx: seq<nat>, y: seq<Cell>)
    requires Valid(data) && target in NameSet(data.columns)
    requires Iloc(Column(data.rows, target), idx) == Ok(y)
    ensures |y| == |idx|
    ensures forall k :: 0 <= k < |idx| ==> idx[k] < |data.rows| && y[k] == data.rows[idx[k]][target]
  {
  }

  /** The labels the second pass keeps are positions of the loaded table, in increasing order. */
  lemma SurvivorsInBounds(data: Frame, target: string, removed: seq<string>, fp: Frame, features: Frame)
    requires Valid(data) && DefaultIndexed(data) && target in NameSet(data.columns)
    requires IsFirstPass(fp, data, target, removed)
    requires features == KeepRows(fp, CompleteRows(fp.rows))
    ensures Increasing(features.index)
    ensures forall k :: 0 <= k < |features.index| ==> features.index[k] < |data.rows|
  {
    KeepKeptBounds(TargetPresent(data.rows, target), CompleteRows(fp.rows));
  }

  /** Selecting again among the kept positions of a mask yields increasing positions within the mask. */
  lemma KeepKeptBounds(m1: seq<bool>, m2: seq<bool>)
    requires |m2| == |Kept(m1)|
    ensures Increasing(Keep(Kept(m1), m2))
    ensures forall k :: 0 <= k < |Keep(Kept(m1), m2)| ==> Keep(Kept(m1), m2)[k] < |m1|
  {
    KeptIncreasing(m1);
    KeepIncreasing(Kept(m1), m2);
  }

  /** Each row the second pass keeps is a loaded row with a target, without the dropped cells, complete. */
  lemma SurvivingRows(data: Frame, target: string, removed: seq<string>, fp: Frame, features: Frame)
    requires Valid(data) && DefaultIndexed(data) && target in NameSet(data.columns)
    requires IsFirstPass(fp, data, target, removed)
    requires features == KeepRows(fp, CompleteRows(fp.rows))
    ensures forall k :: 0 <= k < |features.index| ==>
      && features.index[k] < |data.rows|
      && data.rows[features.index[k]][target].Some?
      && features.rows[k] == data.rows[features.index[k]] - Dropped(target, removed)
      && Complete(features.rows[k])
  {
    var dropped := Dropped(target, removed);
    var k1 := Kept(TargetPresent(data.rows, target));
    var m2 := CompleteRows(fp.rows);
    var k2 := Kept(m2);
    forall k | 0 <= k < |features.index|
      ensures features.index[k] < |data.rows| && data.rows[features.index[k]][target].Some?
      ensures features.rows[k] == data.rows[features.index[k]] - dropped
      ensures Complete(features.rows[k])
    {
      assert features.index[k] == k1[k2[k]];
      FirstPassAt(data.rows, target, dropped, k2[k]);
      assert m2[k2[k]];
    }
  }

  /** A loaded row is kept exactly when it survives both passes. */
  lemma SurvivorsExactly(data: Frame, target: string, removed: seq<string>, fp: Frame, features: Frame)
    requires Valid(data) && DefaultIndexed(data) && target in NameSet(data.columns)
    requires IsFirstPass(fp, data, target, removed)
    requires features == KeepRows(fp, CompleteRows(fp.rows))
    ensures forall q :: 0 <= q < |data.rows| ==>
      (q in features.index <==> Survives(data.rows[q], target, Dropped(target, removed)))
  {
    var dropped := Dropped(target, removed);
    SurvivingRows(data, target, removed, fp, features);
    var m2 := CompleteRows(fp.rows);
    forall q | 0 <= q < |data.rows| ensures q in features.index <==> Survives(data.rows[q], target, dropped) {
      if Survives(data.rows[q], target, dropped) {
        var j := KeptRank(TargetPresent(data.rows, target), q);
        FirstPassAt(data.rows, target, dropped, j);
        assert m2[j];
        var k := KeptRank(m2, j);
        assert features.index[k] == q;
      }
    }
  }

  lemma AtMostOneEach(rows: seq<Row>, target: string, dropped: set<string>)
    requires forall k :: 0 <= k < |rows| ==> target in rows[k]
    ensures (forall i :: 0 <= i < |rows| ==> Contributions(rows, target, dropped)[i] <= 1) <==>
      forall q :: 0 <= q < |rows| && rows[q][target].Some? ==> MissingIn(rows[q] - dropped) <= 1
  {
    var c := Contributions(rows, target, dropped);
    if forall i :: 0 <= i < |rows| ==> c[i] <= 1 {
      forall q | 0 <= q < |rows| && rows[q][target].Some? ensures MissingIn(rows[q] - dropped) <= 1 {
        assert c[q] <= 1;
      }
    }
  }
}
