/** Column values and rows, as far as joins, filters and indexes look at them. */
module Values {
  import opened Wrappers

  /** NULL, or a value given by its kind (the variant) and its content. */
  datatype Value = Null | Data(kind: nat, content: seq<int>)

  /** The values of one row in column order. */
  type Row = seq<Value>

  function NullRow(width: nat): (row: Row)
    ensures |row| == width
  {
    seq(width, _ => Null)
  }

  function NonNull(value: Value): Option<Value> {
    if value.Null? then None else Some(value)
  }
}
