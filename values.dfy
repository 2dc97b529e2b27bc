/**
 * The type-erased values a record holds, the column types inferred from them,
 * and the record itself.
 */
module Values {
  import opened Wrappers

  /**
   * A feature or label value, tagged by the Java runtime class it would have.
   * `Null` is the null reference; `OtherNumber` is any other subclass of
   * java.lang.Number; `Other` is every other object (typically a String).
   */
  datatype Value =
    | Null
    | Double(d: real)
    | Integer(i: int)
    | Long(l: int)
    | Float(f: real)
    | Boolean(b: bool)
    | Short(s: int)
    | OtherNumber(n: int)
    | Other(text: string)

  /** Column identifiers are arbitrary objects, compared by value. */
  type Column = Value

  /** The reserved column names of the bias column and of the label projected as a feature. */
  const ConstantColumnName: Column := Other("~constant")
  const YColumnName: Column := Other("~Y")

  datatype ColumnType = Ordinal | Numerical | DummyVar | Categorical

  /** Whether the value's runtime class is a subclass of java.lang.Number. */
  predicate IsNumber(v: Value) {
    v.Double? || v.Integer? || v.Long? || v.Float? || v.Short? || v.OtherNumber?
  }

  /**
   * Classifies one observed value. The checks are made in the order the Java code makes them:
   * the four common number classes, then Boolean, then Short, then any other
   * Number, and everything else (null included) is categorical.
   */
  function Value2ColumnType(v: Value): (t: ColumnType)
    ensures t == Numerical <==> IsNumber(v) && !v.Short?
    ensures t == DummyVar <==> v.Boolean?
    ensures t == Ordinal <==> v.Short?
    ensures t == Categorical <==> !IsNumber(v) && !v.Boolean?
  {
    if v.Double? || v.Integer? || v.Long? || v.Float? then Numerical
    else if v.Boolean? then DummyVar
    else if v.Short? then Ordinal
    else if v.OtherNumber? then Numerical
    else Categorical
  }

  /** One observation: its features, its label and its identity slot. */
  datatype Record = Record(X: map<Column, Value>, Y: Value, id: Option<int>)

  /** Java's Map.get on a record's features: the value, or null when the column is absent. */
  function ValueAt(x: map<Column, Value>, c: Column): Value {
    if c in x then x[c] else Null
  }
}
