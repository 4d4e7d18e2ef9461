/** The selectable options the dashboard derives from the table: countries
    and crops from the one-hot column names, and the observed years. */
module Options {
  import opened Wrappers
  import opened Seqs
  import opened Strings
  import opened Dataset

  /** `[c for c in df.columns if c.startswith(prefix)]`: only columns that
      start with the prefix, and no more of them than there are columns. */
  function PrefixedColumns(columns: seq<string>, prefix: string): (r: seq<string>)
    ensures |r| <= |columns|
    ensures forall c :: c in r ==> c in columns && StartsWith(c, prefix)
  {
    Filter(columns, c => StartsWith(c, prefix))
  }

  /** `area_cols`. */
  function AreaColumns(columns: seq<string>): seq<string> {
    PrefixedColumns(columns, AreaPrefix)
  }

  /** `item_cols`. */
  function ItemColumns(columns: seq<string>): seq<string> {
    PrefixedColumns(columns, ItemPrefix)
  }

  /** `[c.replace(prefix, "") for c in cols]`: one name per column, never
      longer than its column, and the column itself where the prefix does
      not occur in it. */
  function Stripped(cols: seq<string>, prefix: string): (r: seq<string>)
    ensures |r| == |cols|
    ensures forall i :: 0 <= i < |cols| ==> |r[i]| <= |cols[i]|
    ensures forall i :: 0 <= i < |cols| && !Occurs(prefix, cols[i]) ==> r[i] == cols[i]
    ensures forall i :: 0 <= i < |cols| && prefix != [] && StartsWith(cols[i], prefix) && !Occurs(prefix, cols[i][|prefix|..]) ==>
              prefix + r[i] == cols[i]
  {
    var r := seq(|cols|, i requires 0 <= i < |cols| => RemoveAll(cols[i], prefix));
    forall i | 0 <= i < |cols| && !Occurs(prefix, cols[i]) ensures r[i] == cols[i] {
      RemoveAllAbsent(cols[i], prefix);
    }
    forall i | 0 <= i < |cols| && prefix != [] && StartsWith(cols[i], prefix) && !Occurs(prefix, cols[i][|prefix|..])
      ensures prefix + r[i] == cols[i]
    {
      assert cols[i] == prefix + cols[i][|prefix|..];
      StripPrefix(cols[i][|prefix|..], prefix);
    }
    r
  }

  lemma LexLeOrdersStrings(s: seq<string>)
    ensures TotalPreorderOn(s, LexLe)
    ensures AntisymmetricOn(s, LexLe)
  {
    forall a, b | a in s && b in s ensures LexLe(a, b) || LexLe(b, a) {
      LexLeTotal(a, b);
    }
    forall a, b, c | a in s && b in s && c in s && LexLe(a, b) && LexLe(b, c) ensures LexLe(a, c) {
      LexLeTransitive(a, b, c);
    }
    forall a, b | a in s && b in s && LexLe(a, b) && LexLe(b, a) ensures a == b {
      LexLeAntisymmetric(a, b);
    }
  }

  /** `sorted([c.replace(prefix, "") for c in cols if c.startswith(prefix)])`:
      `country_list` for `Area_`, `crop_list` for `Item_`. It is ordered, and
      it holds one entry per prefixed column: the stripped names,
      rearranged. */
  function CategoryList(columns: seq<string>, prefix: string): (r: seq<string>)
    ensures SortedBy(r, LexLe)
    ensures multiset(r) == multiset(Stripped(PrefixedColumns(columns, prefix), prefix))
    ensures |r| == |PrefixedColumns(columns, prefix)|
  {
    var names := Stripped(PrefixedColumns(columns, prefix), prefix);
    LexLeOrdersStrings(names);
    SortSorted(names, LexLe);
    assert |Sort(names, LexLe)| == |multiset(names)| == |names|;
    Sort(names, LexLe)
  }

  /** `country_list`. */
  function CountryList(columns: seq<string>): (r: seq<string>)
    ensures SortedBy(r, LexLe)
    ensures multiset(r) == multiset(Stripped(AreaColumns(columns), AreaPrefix))
    ensures |r| == |AreaColumns(columns)|
  {
    CategoryList(columns, AreaPrefix)
  }

  /** `crop_list`. */
  function CropList(columns: seq<string>): (r: seq<string>)
    ensures SortedBy(r, LexLe)
    ensures multiset(r) == multiset(Stripped(ItemColumns(columns), ItemPrefix))
    ensures |r| == |ItemColumns(columns)|
  {
    CategoryList(columns, ItemPrefix)
  }

  /** Exactly the columns that start with the prefix are kept. */
  lemma PrefixedColumnsMembership(columns: seq<string>, prefix: string, c: string)
    ensures c in PrefixedColumns(columns, prefix) <==> c in columns && StartsWith(c, prefix)
  {
    FilterMembership(columns, x => StartsWith(x, prefix), c);
  }

  /** A name is offered exactly when some prefixed column yields it once
      every occurrence of the prefix is removed. */
  lemma CategoryListMembership(columns: seq<string>, prefix: string, x: string)
    ensures x in CategoryList(columns, prefix) <==>
            exists c :: c in columns && StartsWith(c, prefix) && RemoveAll(c, prefix) == x
  {
    var cols := PrefixedColumns(columns, prefix);
    var names := Stripped(cols, prefix);
    assert x in CategoryList(columns, prefix) <==> x in names by {
      assert x in multiset(CategoryList(columns, prefix)) <==> x in multiset(names);
    }
    if x in names {
      var i :| 0 <= i < |names| && names[i] == x;
      PrefixedColumnsMembership(columns, prefix, cols[i]);
    }
    if c :| c in columns && StartsWith(c, prefix) && RemoveAll(c, prefix) == x {
      PrefixedColumnsMembership(columns, prefix, c);
      var i :| 0 <= i < |cols| && cols[i] == c;
      assert names[i] == x;
    }
  }

  /** The columns carry the prefix once: no prefixed column repeats the
      prefix after its first occurrence. */
  predicate Canonical(columns: seq<string>, prefix: string) {
    forall c :: c in columns && StartsWith(c, prefix) ==> !Occurs(prefix, c[|prefix|..])
  }

  /** For canonical columns the option list and the prefixed columns
      correspond one to one: every offered name, with the prefix put back,
      is a column. */
  lemma SelectionRoundTrip(columns: seq<string>, prefix: string, x: string)
    requires prefix != []
    requires Canonical(columns, prefix)
    requires x in CategoryList(columns, prefix)
    ensures prefix + x in PrefixedColumns(columns, prefix)
  {
    CategoryListMembership(columns, prefix, x);
    var c :| c in columns && StartsWith(c, prefix) && RemoveAll(c, prefix) == x;
    var suffix := c[|prefix|..];
    assert c == prefix + suffix;
    StripPrefix(suffix, prefix);
    PrefixedColumnsMembership(columns, prefix, c);
  }

  /** For canonical columns, a name that is not offered has no column: the
      column lookup for it fails. */
  lemma UnlistedHasNoColumn(columns: seq<string>, prefix: string, x: string)
    requires prefix != []
    requires Canonical(columns, prefix)
    requires x !in CategoryList(columns, prefix)
    ensures prefix + x !in columns
  {
    if prefix + x in columns {
      var c := prefix + x;
      assert StartsWith(c, prefix);
      assert c[|prefix|..] == x;
      StripPrefix(x, prefix);
      CategoryListMembership(columns, prefix, x);
    }
  }

  /** The list itself never repeats a name when the header has no repeated
      column and the columns are canonical; it is then strictly ordered. */
  lemma CategoryListDistinct(columns: seq<string>, prefix: string)
    requires prefix != []
    requires Distinct(columns)
    requires Canonical(columns, prefix)
    ensures Distinct(CategoryList(columns, prefix))
  {
    var cols := PrefixedColumns(columns, prefix);
    var names := Stripped(cols, prefix);
    FilterDistinct(columns, c => StartsWith(c, prefix));
    forall i | 0 <= i < |cols| ensures cols[i] == prefix + names[i] {
      PrefixedColumnsMembership(columns, prefix, cols[i]);
    }
    assert Distinct(names) by {
      forall i, j | 0 <= i < j < |names| ensures names[i] != names[j] {
        assert cols[i] != cols[j];
      }
    }
    PermutationDistinct(names, CategoryList(columns, prefix));
  }

  /** `replace` removes both occurrences from `Area_Area_X`. */
  lemma RemoveRepeatedPrefix()
    ensures RemoveAll("Area_X", AreaPrefix) == "X"
    ensures RemoveAll("Area_Area_X", AreaPrefix) == "X"
  {
    var c := "Area_Area_X";
    assert StartsWith(c, AreaPrefix);
    assert c[5..] == "Area_X";
    assert StartsWith(c[5..], AreaPrefix);
    assert c[5..][5..] == "X";
    assert RemoveAll("X", AreaPrefix) == "X";
  }

  /** Because `replace` removes every occurrence, the columns `Area_X` and
      `Area_Area_X` both become `X`: the list offers the same name twice. */
  lemma RepeatedPrefixExample()
    ensures CategoryList(["Area_X", "Area_Area_X"], AreaPrefix) == ["X", "X"]
  {
    var cols := ["Area_X", "Area_Area_X"];
    RemoveRepeatedPrefix();
    assert StartsWith(cols[0], AreaPrefix) && StartsWith(cols[1], AreaPrefix);
    assert PrefixedColumns(cols, AreaPrefix) == cols;
    assert Stripped(cols, AreaPrefix) == ["X", "X"];
    assert LexLe("X", "X");
    assert Sort(["X"], LexLe) == ["X"];
  }

  /** The `<=` that `sorted` uses on years. */
  predicate IntLe(a: int, b: int) {
    a <= b
  }

  /** `sorted(df["Year"].unique())`: strictly increasing, holding exactly
      the years that occur in the table. */
  function YearList(rows: seq<Row>): (r: seq<int>)
    ensures forall i, j :: 0 <= i < j < |r| ==> r[i] < r[j]
    ensures forall y :: y in r <==> exists row :: row in rows && row.year == y
  {
    var u := Unique(Years(rows));
    SortDistinctYears(u);
    UniqueElements(Years(rows));
    YearsOfRows(rows);
    Sort(u, IntLe)
  }

  /** Sorting distinct years orders them strictly and keeps exactly them. */
  lemma SortDistinctYears(u: seq<int>)
    requires Distinct(u)
    ensures forall i, j :: 0 <= i < j < |Sort(u, IntLe)| ==> Sort(u, IntLe)[i] < Sort(u, IntLe)[j]
    ensures forall y :: y in Sort(u, IntLe) <==> y in u
  {
    var r := Sort(u, IntLe);
    SortSorted(u, IntLe);
    PermutationDistinct(u, r);
    SameElements(r, u);
  }

  /** `df["Year"]`. */
  function Years(rows: seq<Row>): (ys: seq<int>)
    ensures |ys| == |rows|
    ensures forall i :: 0 <= i < |rows| ==> ys[i] == rows[i].year
  {
    seq(|rows|, i requires 0 <= i < |rows| => rows[i].year)
  }

  lemma YearsOfRows(rows: seq<Row>)
    ensures forall y :: y in Years(rows) <==> exists row :: row in rows && row.year == y
  {
    var ys := Years(rows);
    forall y | y in ys ensures exists row :: row in rows && row.year == y {
      var i :| 0 <= i < |ys| && ys[i] == y;
      assert rows[i] in rows;
    }
    forall row | row in rows ensures row.year in ys {
      var i :| 0 <= i < |rows| && rows[i] == row;
      assert ys[i] == row.year;
    }
  }

  lemma SameElements<T>(a: seq<T>, b: seq<T>)
    requires multiset(a) == multiset(b)
    ensures forall y :: y in a <==> y in b
  {
    assert forall y :: y in a <==> y in multiset(a);
    assert forall y :: y in b <==> y in multiset(b);
  }

  /** The slider's initial range `(years[0], years[-1])`; on an empty table
      `years[0]` raises, which is `None` here. */
  function DefaultRange(years: seq<int>): (r: Option<(int, int)>)
    ensures r.Some? <==> years != []
    ensures r.Some? ==> r.value.0 in years && r.value.1 in years
    ensures r.Some? && (forall i, j :: 0 <= i < j < |years| ==> years[i] < years[j]) ==>
              forall y :: y in years ==> r.value.0 <= y <= r.value.1
  {
    if years == [] then None
    else
      forall y | y in years && (forall i, j :: 0 <= i < j < |years| ==> years[i] < years[j])
        ensures years[0] <= y <= years[|years| - 1]
      {
        BetweenEnds(years, y);
      }
      Some((years[0], years[|years| - 1]))
  }

  /** Every entry of a strictly increasing sequence lies between its ends. */
  lemma BetweenEnds(ys: seq<int>, y: int)
    requires forall i, j :: 0 <= i < j < |ys| ==> ys[i] < ys[j]
    requires y in ys
    ensures ys[0] <= y <= ys[|ys| - 1]
  {
    var k :| 0 <= k < |ys| && ys[k] == y;
    if 0 < k { assert ys[0] < ys[k]; }
    if k < |ys| - 1 { assert ys[k] < ys[|ys| - 1]; }
  }

  /** The initial range spans the data: it exists exactly when the table has
      a record, both ends are years of some record, and every record's year
      lies between them. */
  lemma DefaultRangeSpansData(rows: seq<Row>)
    ensures DefaultRange(YearList(rows)).Some? <==> rows != []
    ensures DefaultRange(YearList(rows)).Some? ==>
              var (lo, hi) := DefaultRange(YearList(rows)).value;
              && lo <= hi
              && (exists row :: row in rows && row.year == lo)
              && (exists row :: row in rows && row.year == hi)
              && (forall row :: row in rows ==> lo <= row.year <= hi)
  {
    var years := YearList(rows);
    if rows != [] {
      assert rows[0].year in years;
      var lo, hi := years[0], years[|years| - 1];
      assert lo in years && hi in years;
      assert lo <= hi by { BetweenEnds(years, hi); }
      forall row | row in rows ensures lo <= row.year <= hi {
        BetweenEnds(years, row.year);
      }
    }
  }
}
