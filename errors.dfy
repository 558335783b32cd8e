/** The exceptions the readers and the colour encoder raise, as one tagged
    enumeration carrying the key, name or model that failed. */
module Errors {

  /** The axis an error about the grid refers to. */
  datatype Dim = X | Y | Z

  datatype Error =
      /** the header never reaches the `# Begin: Data Text` line */
    | MissingDataMarker
      /** no `key: ` followed by a numeric character (the search result is None) */
    | MissingKey(key: string)
      /** the numeric token does not convert to a number (float raises) */
    | MalformedNumber(key: string, token: string)
      /** a step size of zero (the cell-count division raises) */
    | ZeroStep(axis: Dim)
      /** a negative cell count reaches the lattice construction */
    | NegativeCellCount(axis: Dim)
      /** lookup of a column name the table does not declare */
    | InvalidColumn(name: string, message: string)
      /** a declared column index beyond the width of the numeric body */
    | ColumnOutOfRange(index: nat)
      /** the row-wise rgb conversion applied to a field with no rows */
    | EmptyField
      /** generate_colours called with a model other than rgb or hls */
    | InvalidColourModel(model: string, message: string)
}
