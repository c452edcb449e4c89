/**
 * Decoded JSON values as the PHP jobs hold them: the store's product
 * resources are associative arrays, modelled as maps from key to value.
 */
module Json {
  import opened Wrappers

  datatype Json =
    | JNull
    | JBool(b: bool)
    | JInt(n: int)
    | JStr(s: string)
    | JList(items: seq<Json>)
    | JObject(fields: map<string, Json>)

  /** A product resource (or a payload for one): keys to values. */
  type Product = map<string, Json>

  /** A spreadsheet cell value as sent in a payload: a string, or null when the row lacks it. */
  function CellJson(c: Option<string>): Json {
    match c
    case Some(s) => JStr(s)
    case None => JNull
  }

  /** A category reference by name: `['name' => n]`. */
  function NameRef(n: string): Json {
    JObject(map["name" := JStr(n)])
  }

  /** A category reference by id: `['id' => id]`; the id is null when the index lacks the name. */
  function IdRef(id: Json): Json {
    JObject(map["id" := id])
  }
}
