/** The values `json.load` produces, and Python's `in` operator on them. */
module JsonValue {
  import opened Wrappers
  import PyStr

  /** A decoded JSON document. Numbers keep their literal text: nothing here
      computes with them. An object is a Python `dict` with text keys. */
  datatype Json =
    | JNull
    | JBool(b: bool)
    | JNumber(literal: string)
    | JString(s: string)
    | JArray(items: seq<Json>)
    | JObject(fields: map<string, Json>)

  /** Python's `key in value` for a text `key`: membership of the key in a
      `dict`, of an equal string in a `list`, of a substring in a `str`;
      `None` where Python raises `TypeError` (numbers, booleans, `None`). */
  function In(value: Json, key: string): Option<bool> {
    match value
    case JObject(fields) => Some(key in fields)
    case JArray(items) => Some(JString(key) in items)
    case JString(s) => Some(PyStr.Contains(s, key))
    case _ => None
  }
}
