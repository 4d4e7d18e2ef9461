/** The cleaned crop-yield table as the dashboard sees it. */
module Dataset {

  /** One record. `flags` holds the one-hot `Area_*` / `Item_*` cells and
      `nums` the numeric covariates; a column missing from a map is a NaN
      cell. The target `hg/ha_yield` is only charted, so its values are not
      kept; whether the header has it is. */
  datatype Row = Row(year: int, flags: map<string, bool>, nums: map<string, real>)

  /** The header (in file order) and the records. Every table has a `Year`
      column, held in `Row.year`. */
  datatype Table = Table(columns: seq<string>, rows: seq<Row>)

  /** The exception pandas raises for a missing column. */
  datatype Error = KeyError(column: string)

  const AreaPrefix: string := "Area_"
  const ItemPrefix: string := "Item_"
  const YearColumn: string := "Year"

  /** The target column, charted from the history. */
  const TargetColumn: string := "hg/ha_yield"

  /** The covariates whose historical averages feed the prediction. */
  const NumericFeatures: seq<string> := ["average_rain_fall_mm_per_year", "pesticides_tonnes", "avg_temp"]
}
