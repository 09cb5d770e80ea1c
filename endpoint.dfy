/** The response envelope builders (src/app.py:59-84) and the handler of
    `POST /api/changepasswd` (src/app.py:170-187). The remote server address
    is a parameter instead of the process-wide `app.config['REMOTE_ADDR']`. */
module Endpoint {
  import opened Wrappers
  import opened ApiCodes
  import Smbpasswd

  /** The JSON body `{"type": ..., "data": {...}}` that `jsonify` produces; the
      enumeration members are serialised as their integer values. */
  datatype Envelope = Envelope(kind: int, data: map<string, int>)

  /** `api_response(data, response_type)`. */
  function ApiResponse(data: map<string, int>, responseType: ResponseType): Envelope
  {
    Envelope(responseType.Code(), data)
  }

  /** `api_client_error(error_code)`. */
  function ApiClientError(errorCode: ClientErrorCode): Envelope
  {
    ApiResponse(map["error_code" := errorCode.Code()], ClientError)
  }

  /** `api_server_error(error_code)`. */
  function ApiServerError(errorCode: ServerErrorCode): Envelope
  {
    ApiResponse(map["error_code" := errorCode.Code()], ServerError)
  }

  /** The fields of the request body. */
  datatype ChangeRequest = ChangeRequest(
    username: string, oldPassword: string, newPassword: string, confirmPassword: string)

  /** What the handler answers: the JSON envelope, or the status-500 page Flask
      sends when an exception leaves the handler. */
  datatype HttpReply = Json(envelope: Envelope) | InternalServerError

  /** The answer to a request. */
  function Reply(remote: string, request: ChangeRequest, run: Smbpasswd.Tool): HttpReply
  {
    if request.newPassword != request.confirmPassword then
      Json(ApiClientError(PasswordsDifferent))
    else
      match Smbpasswd.Invoke(remote, request.username, request.oldPassword, request.newPassword, run)
      case Raised => InternalServerError
      case Returned(None) => Json(ApiResponse(map[], Success))
      case Returned(Some(code)) => Json(ApiServerError(code))
  }

  /** `api()`: a mismatch between the new password and its confirmation is
      answered at once; otherwise `smbpasswd` runs and its answer is wrapped.
      The method runs the loops of `Smbpasswd.Run`; what its answer means is
      stated about `Reply` by `ReplyCases` and `MismatchShortCircuits`. */
  method Api(remote: string, request: ChangeRequest, run: Smbpasswd.Tool)
    returns (reply: HttpReply)
    ensures reply == Reply(remote, request, run)
  {
    if request.newPassword != request.confirmPassword {
      return Json(ApiClientError(PasswordsDifferent));
    }
    var retCode := Smbpasswd.Run(remote, request.username, request.oldPassword, request.newPassword, run);
    match retCode {
      case Raised =>
        return InternalServerError;
      case Returned(None) =>
        return Json(ApiResponse(map[], Success));
      case Returned(Some(code)) =>
        return Json(ApiServerError(code));
    }
  }

  /** A mismatch yields the `PASSWORDS_DIFFERENT` client error whatever the tool
      would have done: the tool is never consulted. */
  lemma MismatchShortCircuits(remote: string, request: ChangeRequest,
                              run1: Smbpasswd.Tool,
                              run2: Smbpasswd.Tool)
    requires request.newPassword != request.confirmPassword
    ensures Reply(remote, request, run1) == Reply(remote, request, run2)
    ensures Reply(remote, request, run1) == Json(Envelope(1, map["error_code" := 0]))
  {
  }

  /** The envelope type tells the answers apart: `CLIENT_ERROR` exactly for a
      mismatch, `SUCCESS` with empty data exactly when `smbpasswd` returned
      `None`, `SERVER_ERROR` with the code's value when it returned a code, and
      the status-500 page exactly when an exception escaped it. */
  lemma ReplyCases(remote: string, request: ChangeRequest, run: Smbpasswd.Tool)
    ensures var reply := Reply(remote, request, run);
      var mismatch := request.newPassword != request.confirmPassword;
      var result := Smbpasswd.Invoke(remote, request.username, request.oldPassword, request.newPassword, run);
      && (reply.Json? && reply.envelope.kind == ClientError.Code() <==> mismatch)
      && (reply == Json(Envelope(Success.Code(), map[])) <==> !mismatch && result == Returned(None))
      && (!mismatch && result.Returned? && result.value.Some? ==>
            reply == Json(Envelope(ServerError.Code(), map["error_code" := result.value.value.Code()])))
      && (reply == InternalServerError <==> !mismatch && result == Raised)
  {
  }

  /** The envelopes the builders produce tell their causes apart: the type
      separates success, client errors and server errors, and within a
      category the `error_code` field identifies the member. */
  lemma EnvelopesDetermineCauses(c1: ServerErrorCode, c2: ServerErrorCode,
                                 d1: ClientErrorCode, d2: ClientErrorCode,
                                 data: map<string, int>)
    ensures ApiServerError(c1) == ApiServerError(c2) <==> c1 == c2
    ensures ApiClientError(d1) == ApiClientError(d2) <==> d1 == d2
    ensures ApiServerError(c1) != ApiClientError(d1)
    ensures ApiResponse(data, Success) != ApiServerError(c1)
    ensures ApiResponse(data, Success) != ApiClientError(d1)
    ensures ApiServerError(c1).data.Keys == ApiClientError(d1).data.Keys == {"error_code"}
  {
    if ApiServerError(c1) == ApiServerError(c2) {
      assert ApiServerError(c1).data["error_code"] == c1.Code();
      assert ApiServerError(c2).data["error_code"] == c2.Code();
    }
    if ApiClientError(d1) == ApiClientError(d2) {
      assert ApiClientError(d1).data["error_code"] == d1.Code();
      assert ApiClientError(d2).data["error_code"] == d2.Code();
    }
  }
}
