/** ErrorHandlerMiddleware: the outermost request handler. When the rest of the
    pipeline throws, it answers with a JSON `{ message }` body and a status code
    chosen by the kind of the exception; otherwise it leaves the response alone. */
module ErrorHandling {
  import opened Base
  import opened Entities

  const JsonContentType := "application/json"

  const BadRequest := 400
  const NotFound := 404
  const InternalServerError := 500

  /** The status code for an exception of this kind: 400 for the application's own
      exception, 404 for a missing key, and 500 for every other kind. */
  function StatusCodeFor(kind: ExceptionKind): (code: int)
    ensures code == BadRequest <==> kind == AppException
    ensures code == NotFound <==> kind == KeyNotFoundException
    ensures code == InternalServerError <==> kind != AppException && kind != KeyNotFoundException
  {
    match kind
    case AppException => BadRequest
    case KeyNotFoundException => NotFound
    case _ => InternalServerError
  }

  /** A serialised `{ message = ... }` object. */
  datatype JsonBody = MessageBody(message: string)

  /** The parts of the response the handler writes. */
  class HttpResponse {
    var statusCode: int
    var contentType: Option<string>
    /** What has been written to the response body, in order. */
    var body: seq<JsonBody>

    constructor ()
      ensures statusCode == 200 && contentType == None && body == []
    {
      statusCode := 200;
      contentType := None;
      body := [];
    }
  }

  /** Runs after the rest of the pipeline finished with `next`. */
  method Invoke(response: HttpResponse, next: Outcome<Exception>)
    modifies response
    ensures next.Pass? ==> unchanged(response)
    ensures next.Fail? ==>
      && response.contentType == Some(JsonContentType)
      && response.statusCode == StatusCodeFor(next.error.kind)
      && response.body == old(response.body) + [MessageBody(next.error.message)]
  {
    if next.Fail? {
      var ex := next.error;
      response.contentType := Some(JsonContentType);
      match ex.kind {
        case AppException =>
          response.statusCode := BadRequest;
        case KeyNotFoundException =>
          response.statusCode := NotFound;
        case _ =>
          response.statusCode := InternalServerError;
      }
      response.body := response.body + [MessageBody(ex.message)];
    }
  }
}
