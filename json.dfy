/** JSON values, as the JavaScript objects that the handlers build and send. */
module Json {

  datatype Json =
    | JNull
    | JBool(b: bool)
    | JNum(n: int)
    | JStr(s: string)
    | JArr(items: seq<Json>)
    | JObj(fields: map<string, Json>)
}

/** The parts of an Express request and response that the handlers touch. */
module Http {
  import opened Wrappers
  import opened Json

  /** The fields of `req.body` read by the validators and the controller; an
      absent field (`undefined`) is `None`. Login reads only `email` and `password`. */
  datatype Body = Body(email: Option<string>, username: Option<string>, password: Option<string>)

  /** What `res.status(status).json(body)` sends. */
  datatype Reply = Reply(status: int, body: Json)

  /** JavaScript truthiness of a body field: absent and "" are falsy. */
  predicate Truthy(field: Option<string>)
  {
    field.Some? && field.value != ""
  }
}
