/**
  The writer capability (the shapefile and dBase encoders) seen as an append-only log
  of abstract operations. The binary encodings themselves are not modelled.
 */
module Shapefile {

  /** The only attribute type the converter declares. */
  datatype FieldType = FTString

  /** Width in characters of every declared column. */
  const STRING_WIDTH: nat := 255

  /** A column declaration of the attribute table. */
  datatype Column = Column(name: string, kind: FieldType, width: nat, decimals: nat)

  /**
    The value of a C `double` as far as this model distinguishes it: a finite number,
    NaN, or an infinity (`sscanf("%lf")` accepts "nan", "inf" and "infinity").
    The finite values are not rounded to double precision.
   */
  datatype Double = Finite(value: real) | NaN | Infinity(negative: bool)

  /** One call into the writer capability. */
  datatype Op =
    | AddField(column: Column)                     // declare one attribute-table column
    | WriteAttr(row: nat, col: nat, value: string)  // store one string attribute
    | AppendPoint(x: Double, y: Double)             // append one point geometry

  /** The column declared for a header field: a string column, 255 wide, no decimals. */
  function StringColumn(name: string): (c: Column)
    ensures c.name == name
    ensures c.kind == FTString && c.width == 255 && c.decimals == 0
  {
    Column(name, FTString, STRING_WIDTH, 0)
  }
}
