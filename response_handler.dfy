/** The standard response envelope of utils/responseHandler.js. */
module ResponseHandler {
  import opened Json

  /** `createResponse(success, message, data = null, pagination = null)`. An argument
      left out (or passed as `undefined`) takes its default `null`, written JNull here. */
  function CreateResponse(success: bool, message: string, data: Json, pagination: Json): (r: map<string, Json>)
    ensures "success" in r && r["success"] == JBool(success)
    ensures "message" in r && r["message"] == JStr(message)
    ensures ("data" in r) <==> data != JNull
    ensures "data" in r ==> r["data"] == data
    ensures ("pagination" in r) <==> pagination != JNull
    ensures "pagination" in r ==> r["pagination"] == pagination
    ensures r.Keys <= {"success", "message", "data", "pagination"}
  {
    var response := map["success" := JBool(success), "message" := JStr(message)];
    var withData := if data != JNull then response["data" := data] else response;
    if pagination != JNull then withData["pagination" := pagination] else withData
  }

  /** With both optional arguments defaulted the envelope has exactly two keys. */
  lemma DefaultedResponse(success: bool, message: string)
    ensures CreateResponse(success, message, JNull, JNull).Keys == {"success", "message"}
  {
  }
}
