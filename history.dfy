/** The historical subset the dashboard charts and averages: the rows of the
    selected country and crop within the selected year range. */
module History {
  import opened Wrappers
  import opened Seqs
  import opened Strings
  import opened Dataset
  import opened Options

  /** The mask of one row: `df[areaCol] == True`, `df[itemCol] == True` and
      `df["Year"].between(lo, hi)`, both ends included. A NaN cell is not
      equal to True. */
  predicate Matches(row: Row, areaCol: string, itemCol: string, lo: int, hi: int) {
    && areaCol in row.flags && row.flags[areaCol]
    && itemCol in row.flags && row.flags[itemCol]
    && lo <= row.year <= hi
  }

  /** `history = df[mask]`. Building the mask looks up `Area_<country>`
      first and `Item_<crop>` second; a missing column raises KeyError
      rather than giving an empty subset. */
  function FilterHistory(t: Table, country: string, crop: string, lo: int, hi: int): (r: Result<seq<Row>, Error>)
    ensures r.Failure? <==> AreaPrefix + country !in t.columns || ItemPrefix + crop !in t.columns
    ensures r.Failure? ==>
              r.error == KeyError(if AreaPrefix + country !in t.columns then AreaPrefix + country else ItemPrefix + crop)
    ensures r.Success? ==>
              forall row :: row in r.value ==> row in t.rows && Matches(row, AreaPrefix + country, ItemPrefix + crop, lo, hi)
  {
    var areaCol := AreaPrefix + country;
    var itemCol := ItemPrefix + crop;
    if areaCol !in t.columns then Failure(KeyError(areaCol))
    else if itemCol !in t.columns then Failure(KeyError(itemCol))
    else Success(Filter(t.rows, row => Matches(row, areaCol, itemCol, lo, hi)))
  }

  /** No matching row is left out. */
  lemma HistoryComplete(t: Table, country: string, crop: string, lo: int, hi: int, row: Row)
    requires FilterHistory(t, country, crop, lo, hi).Success?
    ensures row in FilterHistory(t, country, crop, lo, hi).value <==>
            row in t.rows && Matches(row, AreaPrefix + country, ItemPrefix + crop, lo, hi)
  {
    var areaCol, itemCol := AreaPrefix + country, ItemPrefix + crop;
    FilterMembership(t.rows, r => Matches(r, areaCol, itemCol, lo, hi), row);
  }

  /** The rows keep the table's order: filtering a table split in two gives
      the two filtered halves, one after the other. */
  lemma HistoryInOrder(columns: seq<string>, a: seq<Row>, b: seq<Row>, country: string, crop: string, lo: int, hi: int)
    requires FilterHistory(Table(columns, a + b), country, crop, lo, hi).Success?
    ensures FilterHistory(Table(columns, a + b), country, crop, lo, hi).value ==
            FilterHistory(Table(columns, a), country, crop, lo, hi).value +
            FilterHistory(Table(columns, b), country, crop, lo, hi).value
  {
    var areaCol, itemCol := AreaPrefix + country, ItemPrefix + crop;
    FilterAppend(a, b, r => Matches(r, areaCol, itemCol, lo, hi));
  }

  /** An empty year range gives an empty history, not an error. */
  lemma EmptyRangeEmptyHistory(t: Table, country: string, crop: string, lo: int, hi: int)
    requires lo > hi
    requires FilterHistory(t, country, crop, lo, hi).Success?
    ensures FilterHistory(t, country, crop, lo, hi).value == []
  {
    var areaCol, itemCol := AreaPrefix + country, ItemPrefix + crop;
    FilterNone(t.rows, r => Matches(r, areaCol, itemCol, lo, hi));
  }

  /** For canonical columns, a country or crop that the lists do not offer
      makes the filter fail. */
  lemma UnlistedSelectionFails(t: Table, country: string, crop: string, lo: int, hi: int)
    requires Canonical(t.columns, AreaPrefix) && Canonical(t.columns, ItemPrefix)
    requires country !in CountryList(t.columns) || crop !in CropList(t.columns)
    ensures FilterHistory(t, country, crop, lo, hi).Failure?
  {
    if country !in CountryList(t.columns) {
      UnlistedHasNoColumn(t.columns, AreaPrefix, country);
    } else {
      UnlistedHasNoColumn(t.columns, ItemPrefix, crop);
    }
  }

  /** For canonical columns, any country and crop taken from the lists can
      be filtered on. */
  lemma ListedSelectionSucceeds(t: Table, country: string, crop: string, lo: int, hi: int)
    requires Canonical(t.columns, AreaPrefix) && Canonical(t.columns, ItemPrefix)
    requires country in CountryList(t.columns) && crop in CropList(t.columns)
    ensures FilterHistory(t, country, crop, lo, hi).Success?
  {
    SelectionRoundTrip(t.columns, AreaPrefix, country);
    SelectionRoundTrip(t.columns, ItemPrefix, crop);
    PrefixedColumnsMembership(t.columns, AreaPrefix, AreaPrefix + country);
    PrefixedColumnsMembership(t.columns, ItemPrefix, ItemPrefix + crop);
  }

  /** A listed country can still make the page fail: `Area_Area_X` is
      offered as `X`, and the filter then looks up `Area_X`, which is not a
      column. */
  lemma ListedCountryFails(rows: seq<Row>, lo: int, hi: int)
    ensures "X" in CountryList(["Area_Area_X", "Item_Y"])
    ensures FilterHistory(Table(["Area_Area_X", "Item_Y"], rows), "X", "Y", lo, hi) == Failure(KeyError("Area_X"))
  {
    var columns := ["Area_Area_X", "Item_Y"];
    RemoveRepeatedPrefix();
    assert StartsWith(columns[0], AreaPrefix);
    CategoryListMembership(columns, AreaPrefix, "X");
    assert AreaPrefix + "X" == "Area_X";
    assert "Area_X" != columns[0] && "Area_X" != columns[1];
  }
}
