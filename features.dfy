/** The one-row model input: `Year` set to the prediction year, the
    historical averages of the numeric covariates, and the one-hot country
    and crop columns. */
module Features {
  import opened Wrappers
  import opened Seqs
  import opened Strings
  import opened Dataset
  import opened Options
  import opened History

  /** A cell of the feature row: a Python int, a float, or NaN. */
  datatype Value = Int(i: int) | Real(x: real) | NaN

  function Sum(xs: seq<real>): real {
    if xs == [] then 0.0 else xs[0] + Sum(xs[1..])
  }

  /** The arithmetic mean; undefined (pandas' NaN) for no values. */
  function Mean(xs: seq<real>): (m: Option<real>)
    ensures m.None? <==> xs == []
  {
    if xs == [] then None else Some(Sum(xs) / (|xs| as real))
  }

  lemma {:induction false} SumAtLeast(xs: seq<real>, lo: real)
    requires forall x :: x in xs ==> lo <= x
    ensures (|xs| as real) * lo <= Sum(xs)
  {
    if xs != [] {
      var rest := xs[1..];
      assert xs[0] in xs;
      assert forall x :: x in rest ==> x in xs;
      SumAtLeast(rest, lo);
      var m := |rest| as real;
      calc {
        (|xs| as real) * lo;
        (m + 1.0) * lo;
        m * lo + lo;
      <= Sum(rest) + xs[0];
        Sum(xs);
      }
    }
  }

  lemma {:induction false} SumAtMost(xs: seq<real>, hi: real)
    requires forall x :: x in xs ==> x <= hi
    ensures Sum(xs) <= (|xs| as real) * hi
  {
    if xs != [] {
      var rest := xs[1..];
      assert xs[0] in xs;
      assert forall x :: x in rest ==> x in xs;
      SumAtMost(rest, hi);
      var m := |rest| as real;
      calc {
        Sum(xs);
        xs[0] + Sum(rest);
      <= hi + m * hi;
        (m + 1.0) * hi;
        (|xs| as real) * hi;
      }
    }
  }

  /** An average lies between the smallest and the largest value. */
  lemma MeanBounds(xs: seq<real>, lo: real, hi: real)
    requires xs != []
    requires forall x :: x in xs ==> lo <= x <= hi
    ensures lo <= Mean(xs).value <= hi
  {
    SumAtLeast(xs, lo);
    SumAtMost(xs, hi);
    var n := |xs| as real;
    assert Sum(xs) / n * n == Sum(xs);
  }

  /** `v` is the non-NaN cell of column `feat` in some history row. */
  predicate CellOf(history: seq<Row>, feat: string, v: real) {
    exists row :: row in history && feat in row.nums && row.nums[feat] == v
  }

  /** The non-NaN cells of a numeric column over the history, in order:
      pandas' `mean` skips NaN. */
  function ColumnValues(history: seq<Row>, feat: string): (vs: seq<real>)
    ensures |vs| == |Filter(history, (row: Row) => feat in row.nums)|
    ensures forall row :: row in history && feat in row.nums ==> row.nums[feat] in vs
    ensures forall i :: 0 <= i < |vs| ==> CellOf(history, feat, vs[i])
  {
    var kept := Filter(history, (row: Row) => feat in row.nums);
    forall i | 0 <= i < |kept| ensures kept[i] in history && feat in kept[i].nums {
      FilterMembership(history, (row: Row) => feat in row.nums, kept[i]);
    }
    var vs := seq(|kept|, i requires 0 <= i < |kept| => kept[i].nums[feat]);
    forall i | 0 <= i < |vs| ensures CellOf(history, feat, vs[i]) {
      assert kept[i] in history && feat in kept[i].nums && kept[i].nums[feat] == vs[i];
    }
    assert forall row :: row in history && feat in row.nums ==> row.nums[feat] in vs by {
      forall row | row in history && feat in row.nums ensures row.nums[feat] in vs {
        FilterMembership(history, (row: Row) => feat in row.nums, row);
        var i :| 0 <= i < |kept| && kept[i] == row;
        assert vs[i] == row.nums[feat];
      }
    }
    vs
  }

  /** The rows whose cell in column `feat` is `v`. */
  function CellIs(feat: string, v: real): Row -> bool {
    (row: Row) => feat in row.nums && row.nums[feat] == v
  }

  /** Extracting the cells peels off one row at a time. */
  lemma ColumnValuesCons(history: seq<Row>, feat: string)
    requires history != []
    ensures ColumnValues(history, feat) ==
              (if feat in history[0].nums then [history[0].nums[feat]] else []) + ColumnValues(history[1..], feat)
  {
    var has := (row: Row) => feat in row.nums;
    var kept, tail := Filter(history, has), Filter(history[1..], has);
    assert kept == (if has(history[0]) then [history[0]] else []) + tail;
    var vs, ws := ColumnValues(history, feat), ColumnValues(history[1..], feat);
    var head := if feat in history[0].nums then [history[0].nums[feat]] else [];
    assert |vs| == |head| + |ws|;
    forall i | 0 <= i < |vs| ensures vs[i] == (head + ws)[i] {
      if i >= |head| {
        assert kept[i] == tail[i - |head|];
      }
    }
  }

  /** Each value is averaged exactly as often as it occurs as a cell of the
      column in the history: the multiset of averaged values is the column's
      non-NaN cells, one per row. */
  lemma {:induction false} ColumnValuesCount(history: seq<Row>, feat: string, v: real)
    ensures multiset(ColumnValues(history, feat))[v] == |Filter(history, CellIs(feat, v))|
  {
    if history != [] {
      ColumnValuesCons(history, feat);
      ColumnValuesCount(history[1..], feat, v);
      assert Filter(history, CellIs(feat, v)) ==
             (if CellIs(feat, v)(history[0]) then [history[0]] else []) + Filter(history[1..], CellIs(feat, v));
    }
  }

  function MeanValue(xs: seq<real>): Value {
    match Mean(xs)
    case None => NaN
    case Some(m) => Real(m)
  }

  /** `{feat: history[feat].mean() for feat in feats}`, evaluated in order;
      the first feature that is not a column raises KeyError. */
  function Averages(columns: seq<string>, history: seq<Row>, feats: seq<string>): (r: Result<map<string, Value>, Error>)
    ensures r.Success? <==> forall f :: f in feats ==> f in columns
    ensures r.Failure? ==>
              exists k :: 0 <= k < |feats| && feats[k] !in columns && (forall j :: 0 <= j < k ==> feats[j] in columns)
                          && r.error == KeyError(feats[k])
    ensures r.Success? ==> r.value.Keys == set f | f in feats
    ensures r.Success? ==> forall f :: f in r.value ==> r.value[f] == MeanValue(ColumnValues(history, f))
  {
    if feats == [] then Success(map[])
    else if feats[0] !in columns then Failure(KeyError(feats[0]))
    else
      var rest := Averages(columns, history, feats[1..]);
      assert forall f :: f in feats <==> f == feats[0] || f in feats[1..];
      if rest.Failure? then
        var k :| 0 <= k < |feats| - 1 && feats[1..][k] !in columns && (forall j :: 0 <= j < k ==> feats[1..][j] in columns)
                 && rest.error == KeyError(feats[1..][k]);
        assert forall j :: 0 < j < k + 1 ==> feats[j] == feats[1..][j - 1];
        rest
      else Success(rest.value[feats[0] := MeanValue(ColumnValues(history, feats[0]))])
  }

  /** `1 if c == selected else 0` for every column of `cols`. */
  predicate OneHotOn(row: map<string, Value>, cols: seq<string>, selected: string) {
    forall c :: c in cols ==> c in row && row[c] == (if c == selected then Int(1) else Int(0))
  }

  /** One of the loops of lines 66-69: `for col in cols: X_new[col] = 1 if
      col == selected else 0`. Every column of `cols` is written, every
      other key keeps its value. */
  method SetOneHot(row: map<string, Value>, cols: seq<string>, selected: string)
    returns (row': map<string, Value>)
    ensures row'.Keys == row.Keys + (set c | c in cols)
    ensures OneHotOn(row', cols, selected)
    ensures forall k :: k in row && k !in cols ==> row'[k] == row[k]
  {
    row' := row;
    var i := 0;
    while i < |cols|
      invariant 0 <= i <= |cols|
      invariant row'.Keys == row.Keys + (set c | c in cols[..i])
      invariant OneHotOn(row', cols[..i], selected)
      invariant forall k :: k in row && k !in cols[..i] ==> row'[k] == row[k]
    {
      var col := cols[i];
      row' := row'[col := if col == selected then Int(1) else Int(0)];
      assert cols[..i + 1] == cols[..i] + [col];
      i := i + 1;
    }
    assert cols[..i] == cols;
  }

  /** Lines 62-69: `X_new = {"Year": predictYear}`, `X_new.update(avgVals)`,
      then the loop over the `Item_*` columns and the loop over the `Area_*`
      columns. Later writes win: an area column over an item column, an item
      column over an average, an average over `Year`. */
  method AssembleFeatures(predictYear: int, avgVals: map<string, Value>, itemCols: seq<string>, areaCols: seq<string>,
                          crop: string, country: string)
    returns (row: map<string, Value>)
    ensures row.Keys == {YearColumn} + avgVals.Keys + (set c | c in itemCols) + (set c | c in areaCols)
    ensures OneHotOn(row, areaCols, AreaPrefix + country)
    ensures forall c :: c in itemCols && c !in areaCols ==> row[c] == (if c == ItemPrefix + crop then Int(1) else Int(0))
    ensures forall k :: k in avgVals && k !in itemCols && k !in areaCols ==> row[k] == avgVals[k]
    ensures YearColumn !in avgVals && YearColumn !in itemCols && YearColumn !in areaCols ==> row[YearColumn] == Int(predictYear)
  {
    row := map[YearColumn := Int(predictYear)];
    row := row + avgVals;
    row := SetOneHot(row, itemCols, ItemPrefix + crop);
    row := SetOneHot(row, areaCols, AreaPrefix + country);
  }

  /** The sum of the integer cells of `row` over `cols`, one term per
      entry. */
  function HotSum(row: map<string, Value>, cols: seq<string>): int
    requires forall c :: c in cols ==> c in row
  {
    if cols == [] then 0
    else (if row[cols[0]].Int? then row[cols[0]].i else 0) + HotSum(row, cols[1..])
  }

  /** Over duplicate-free columns, one-hot cells sum to 1 when the selected
      column is among them and to 0 otherwise. */
  lemma {:induction false} OneHotSum(row: map<string, Value>, cols: seq<string>, selected: string)
    requires OneHotOn(row, cols, selected)
    requires Distinct(cols)
    ensures HotSum(row, cols) == if selected in cols then 1 else 0
  {
    if cols != [] {
      var rest := cols[1..];
      assert OneHotOn(row, rest, selected) by {
        assert forall c :: c in rest ==> c in cols;
      }
      assert Distinct(rest) by {
        forall i, j | 0 <= i < j < |rest| ensures rest[i] != rest[j] {
          assert rest[i] == cols[i + 1] && rest[j] == cols[j + 1];
        }
      }
      assert cols[0] !in rest by {
        forall k | 0 <= k < |rest| ensures rest[k] != cols[0] {
          assert rest[k] == cols[k + 1];
        }
      }
      assert cols[0] in cols;
      assert selected in cols <==> selected == cols[0] || selected in rest;
      OneHotSum(row, rest, selected);
    }
  }

  /** Lines 44-69 in order: filter the history, chart its target column
      (line 54, which looks up `hg/ha_yield`), average the covariates over it,
      assemble the feature row. */
  method PredictionInput(t: Table, country: string, crop: string, yearMin: int, yearMax: int, predictYear: int)
    returns (r: Result<map<string, Value>, Error>)
    ensures r.Failure? <==>
              || AreaPrefix + country !in t.columns
              || ItemPrefix + crop !in t.columns
              || TargetColumn !in t.columns
              || exists f :: f in NumericFeatures && f !in t.columns
    ensures r.Failure? && AreaPrefix + country !in t.columns ==> r.error == KeyError(AreaPrefix + country)
    ensures r.Failure? && AreaPrefix + country in t.columns && ItemPrefix + crop !in t.columns ==>
              r.error == KeyError(ItemPrefix + crop)
    ensures r.Failure? && AreaPrefix + country in t.columns && ItemPrefix + crop in t.columns && TargetColumn !in t.columns ==>
              r.error == KeyError(TargetColumn)
    ensures r.Failure? && AreaPrefix + country in t.columns && ItemPrefix + crop in t.columns && TargetColumn in t.columns ==>
              exists k :: 0 <= k < |NumericFeatures| && NumericFeatures[k] !in t.columns
                          && (forall j :: 0 <= j < k ==> NumericFeatures[j] in t.columns)
                          && r.error == KeyError(NumericFeatures[k])
    ensures r.Success? ==>
              && YearColumn in r.value && r.value[YearColumn] == Int(predictYear)
              && r.value.Keys == {YearColumn} + (set f | f in NumericFeatures)
                                 + (set c | c in ItemColumns(t.columns)) + (set c | c in AreaColumns(t.columns))
              && OneHotOn(r.value, ItemColumns(t.columns), ItemPrefix + crop)
              && OneHotOn(r.value, AreaColumns(t.columns), AreaPrefix + country)
              && var history := FilterHistory(t, country, crop, yearMin, yearMax).value;
                 forall f :: f in NumericFeatures ==> r.value[f] == MeanValue(ColumnValues(history, f))
  {
    var h := FilterHistory(t, country, crop, yearMin, yearMax);
    if h.Failure? {
      return Failure(h.error);
    }
    if TargetColumn !in t.columns {
      return Failure(KeyError(TargetColumn));
    }
    var avg := Averages(t.columns, h.value, NumericFeatures);
    if avg.Failure? {
      return Failure(avg.error);
    }
    var itemCols, areaCols := ItemColumns(t.columns), AreaColumns(t.columns);
    ColumnKinds(t.columns);
    var row := AssembleFeatures(predictYear, avg.value, itemCols, areaCols, crop, country);
    return Success(row);
  }

  lemma PrefixesExclusive(c: string)
    ensures StartsWith(c, ItemPrefix) ==> !StartsWith(c, AreaPrefix)
  {
    if StartsWith(c, ItemPrefix) {
      assert c[0] == c[..5][0] == 'I';
    }
  }

  /** `Year`, the covariates, the item columns and the area columns are four
      disjoint groups of names. */
  lemma ColumnKinds(columns: seq<string>)
    ensures forall c :: c in ItemColumns(columns) ==> c !in AreaColumns(columns)
    ensures YearColumn !in ItemColumns(columns) && YearColumn !in AreaColumns(columns)
    ensures forall f :: f in NumericFeatures ==> f != YearColumn && f !in ItemColumns(columns) && f !in AreaColumns(columns)
  {
    forall c | c in ItemColumns(columns) ensures c !in AreaColumns(columns) {
      PrefixesExclusive(c);
    }
    forall f | f in NumericFeatures ensures !StartsWith(f, AreaPrefix) && !StartsWith(f, ItemPrefix) {
      assert f[0] != 'A' && f[0] != 'I';
    }
  }

  /** When the flow succeeds on a header without repeated columns, exactly
      one country column and exactly one crop column of the feature row are
      1: the lookup that succeeded proves the selected columns exist. */
  lemma ExactlyOneHot(t: Table, country: string, crop: string, row: map<string, Value>)
    requires Distinct(t.columns)
    requires AreaPrefix + country in t.columns && ItemPrefix + crop in t.columns
    requires OneHotOn(row, AreaColumns(t.columns), AreaPrefix + country)
    requires OneHotOn(row, ItemColumns(t.columns), ItemPrefix + crop)
    ensures HotSum(row, AreaColumns(t.columns)) == 1
    ensures HotSum(row, ItemColumns(t.columns)) == 1
  {
    FilterDistinct(t.columns, c => StartsWith(c, AreaPrefix));
    FilterDistinct(t.columns, c => StartsWith(c, ItemPrefix));
    PrefixedColumnsMembership(t.columns, AreaPrefix, AreaPrefix + country);
    PrefixedColumnsMembership(t.columns, ItemPrefix, ItemPrefix + crop);
    OneHotSum(row, AreaColumns(t.columns), AreaPrefix + country);
    OneHotSum(row, ItemColumns(t.columns), ItemPrefix + crop);
  }

  /** For a canonical header without repeated columns, a country and a crop
      taken from the option lists give a feature row in which exactly one
      country column and exactly one crop column are 1. */
  lemma ListedSelectionExactlyOneHot(t: Table, country: string, crop: string, row: map<string, Value>)
    requires Distinct(t.columns)
    requires Canonical(t.columns, AreaPrefix) && Canonical(t.columns, ItemPrefix)
    requires country in CountryList(t.columns) && crop in CropList(t.columns)
    requires OneHotOn(row, AreaColumns(t.columns), AreaPrefix + country)
    requires OneHotOn(row, ItemColumns(t.columns), ItemPrefix + crop)
    ensures HotSum(row, AreaColumns(t.columns)) == 1
    ensures HotSum(row, ItemColumns(t.columns)) == 1
  {
    SelectionRoundTrip(t.columns, AreaPrefix, country);
    SelectionRoundTrip(t.columns, ItemPrefix, crop);
    PrefixedColumnsMembership(t.columns, AreaPrefix, AreaPrefix + country);
    PrefixedColumnsMembership(t.columns, ItemPrefix, ItemPrefix + crop);
    ExactlyOneHot(t, country, crop, row);
  }
}
