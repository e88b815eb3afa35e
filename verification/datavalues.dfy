/**
  The slice of the value and type system the modelled code touches: data types
  (only their name and nullability are consulted), scalar values, and a schema
  that resolves a column name to its type.
 */
module DataValues {
  import opened Wrappers
  import opened Exception

  datatype DataType = DataType(name: string, nullable: bool)

  datatype DataValue =
    | Null
    | Boolean(b: Option<bool>)
    | Int64(i: Option<int>)
    | UInt64(u: Option<nat>)
    | String(s: Option<string>)
    | Struct(fields: seq<DataValue>)

  /** Field names mapped to their types. */
  datatype DataSchema = DataSchema(fields: map<string, DataType>)

  /** `field_with_name(name).data_type()`: the type of a field, or an error for an unknown name. */
  function FieldType(schema: DataSchema, name: string): (r: Result<DataType>)
    ensures r.Ok? <==> name in schema.fields
    ensures r.Ok? ==> r.value == schema.fields[name]
    ensures r.Err? ==> r.error == FieldNotFound(name)
  {
    if name in schema.fields then Ok(schema.fields[name]) else Err(FieldNotFound(name))
  }
}
