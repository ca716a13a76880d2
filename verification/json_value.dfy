/**
 * The loosely typed values the service receives: the decoded request body
 * and the metadata attached to each index match. One constructor per JSON
 * kind, as Python sees it after decoding.
 */
module JsonValue {

  datatype Json =
    | JNull
    | JBool(b: bool)
    | JInt(i: int)
    | JFloat(x: real)
    | JStr(s: string)
    | JList(items: seq<Json>)
    | JObj(fields: map<string, Json>)
}
