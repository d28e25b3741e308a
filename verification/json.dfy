/** JSON values as the HTTP layer hands them to the route and takes them back. */
module Json {

  datatype Json =
    | JString(s: string)
    | JNumber(n: int)
    | JBool(b: bool)
    | JNull
    | JArray(items: seq<Json>)
    | JObject(fields: map<string, Json>)

  /** A parsed request body or a response body: a JSON object. */
  type Object = map<string, Json>

  /** `typeof body[f] === 'string'` for a key that is present. */
  predicate IsStringAt<K>(body: map<K, Json>, f: K) {
    f in body && body[f].JString?
  }

  /** The string at `f`, or "" when `f` does not hold a string. */
  function TextAt<K>(body: map<K, Json>, f: K): string {
    if IsStringAt(body, f) then body[f].s else ""
  }

  /** An HTTP response: a status code and a JSON object body. */
  datatype Response = Response(status: nat, body: Object)
}
