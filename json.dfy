/** The values a JavaScript program exchanges as JSON: what `JSON.parse` produces,
    what the session store keeps under `data`, and what the planner replies with. */
module Json {

  datatype Json =
    | Null
    | Bool(b: bool)
    | Num(n: real)
    | Str(s: string)
    | Arr(items: seq<Json>)
    | Obj(fields: map<string, Json>)

  /** The `{resp, ui}` object the planner sends back for a non-final turn. */
  function Reply(resp: string, ui: string): Json {
    Obj(map["resp" := Str(resp), "ui" := Str(ui)])
  }
}
