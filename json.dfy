/**
 * The outcome of `JSON.parse`, as a value. The parser itself is host code and
 * is not modelled: a text that does not parse is `SyntaxError`, and a text that
 * does is the tree it denotes. Strings are sequences of Unicode scalar values,
 * so a string holding an unpaired UTF-16 surrogate has no counterpart here.
 */
module Json {
  /** A parsed JSON value. Numbers are kept as reals; no quote is ever a number. */
  datatype Json =
    | JNull
    | JBool(b: bool)
    | JNumber(n: real)
    | JString(str: string)
    | JArray(elems: seq<Json>)
    | JObject(fields: map<string, Json>)

  /** What `JSON.parse` does with a text: throws, or yields a value. */
  datatype ParseResult = SyntaxError | Parsed(value: Json)
}
