/** The JavaScript values the application receives from JSON and reads ids from. */
module JsValues {

  /**
   * A value in a numeric position, as `Number.isFinite` sees it: a finite
   * number (an integer here), or anything it rejects (`NaN`, an infinity,
   * a value that is not a number at all).
   */
  datatype Num = Finite(value: int) | NotFinite

  /** A value `JSON.parse` can return. */
  datatype Json =
    | JNull
    | JBool(b: bool)
    | JNumber(n: Num)
    | JString(s: string)
    | JArray(elems: seq<Json>)
    | JObject(members: seq<(string, Json)>)
}
