/** The JSON values the Python half passes around (`json.load` results and the dicts it builds). */
module Json {
  import opened Wrappers
  import opened Dict

  datatype Json =
    | JNull
    | JBool(b: bool)
    | JNum(n: int)
    | JStr(s: string)
    | JArr(items: seq<Json>)
    | JObj(fields: Dict<Json>)

  /** Python truthiness: `None`, `False`, `0` and empty strings, lists and dicts are falsy. */
  predicate Truthy(v: Json)
  {
    match v
    case JNull => false
    case JBool(b) => b
    case JNum(n) => n != 0
    case JStr(s) => s != []
    case JArr(items) => items != []
    case JObj(fields) => fields != []
  }

  /** `{"@id": id}`. */
  function Ref(id: string): Json
  {
    JObj([("@id", JStr(id))])
  }

  /** `d.get("@id")` on a dict, `None` (`JNull`) when the key is absent. */
  function GetId(fields: Dict<Json>): Json
  {
    match Get(fields, "@id") case Some(v) => v case None => JNull
  }
}
