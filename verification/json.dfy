/**
 JSON values and the line decoder. The grammar behind Python's `json.loads`
 is not part of this model: decoding is a parameter of the operations that
 need it, a total function that yields `None` exactly where `json.loads`
 raises `JSONDecodeError`.
 */
module Json {
  import opened Wrappers

  datatype Json =
    | Null
    | Bool(b: bool)
    | Number(literal: string)
    | String(s: string)
    | Array(items: seq<Json>)
    | Object(members: seq<(string, Json)>)

  /** `json.loads` applied to one line of text. */
  type Decoder = string -> Option<Json>

  /** Every JSON document has at least one token, so `json.loads('')` raises. */
  predicate RejectsEmpty(decode: Decoder) {
    decode("") == None
  }
}
