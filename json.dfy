/** The JSON values the rule evaluator consumes and produces. */
module Json {
  import opened Wrappers

  /** One JSON value. */
  datatype JsonValue =
    | JNull
    | JBoolean(b: bool)
    | JNumber(n: real)
    | JString(s: string)
    | JArray(elements: seq<JsonValue>)
    | JRecord(properties: seq<(string, JsonValue)>)

  /** `result.IfNone(() => JsonValue.Null)`: the evaluator's value, or JSON null
      when it produced none. A printed null is ambiguous: it comes from no value
      at all or from an explicit JSON null, and from nothing else. */
  function OrNull(result: Option<JsonValue>): (v: JsonValue)
    ensures v == JNull <==> result == None || result == Some(JNull)
    ensures v != JNull ==> result == Some(v)
  {
    match result
    case Some(v) => v
    case None => JNull
  }
}
