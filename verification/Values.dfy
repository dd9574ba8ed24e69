/** The nested values the redactors walk over. */
module Values {

  /** Leaves other than strings; they pass through every redactor. */
  datatype Scalar = NullValue | BoolValue(b: bool) | IntValue(n: int) | FloatValue(r: real)

  /** A dictionary is the sequence of its items, in insertion order. */
  datatype Json =
    | Str(s: string)
    | Leaf(value: Scalar)
    | Arr(items: seq<Json>)
    | Obj(fields: seq<Field>)

  datatype Field = Field(key: string, value: Json)
}
