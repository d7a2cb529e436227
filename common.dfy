/** Values shared by every stage of the NDVI time-series pipeline. */
module Common {

  /** A reading that may be absent (Earth Engine's null). */
  datatype Option<+T> = None | Some(value: T)

  /** A feature property: the point id is text, every other column is a number. */
  datatype Value = Text(s: string) | Number(x: real)

  /** The property dictionary of one feature (one row of the output table). */
  type Row = map<string, Value>

  /** Name of the property that identifies a point (`rowId` in the source). */
  const RowId: string := "id"

  /** Every property except the row id holds a number. */
  predicate NumericCells(row: Row)
  {
    forall k :: k in row && k != RowId ==> row[k].Number?
  }
}
