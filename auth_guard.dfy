/** The access guard in front of every todo endpoint: a request must carry a
    non-blank x-user-id header. */
module Auth {
  import opened Wrappers
  import opened Text

  const UserIdHeader: string := "x-user-id"
  const MissingUserIdMessage: string := "Missing or empty x-user-id header"

  /** The parts of an HTTP request the guard looks at and writes: the headers
      by (lower-case) name, and the userId annotation. */
  datatype Request = Request(headers: map<string, string>, userId: Option<string>)

  /** The outcome of canActivate: Allow stands for returning true, carrying the
      request as annotated; Unauthorized for throwing UnauthorizedException.
      canActivate never returns false, so there is no outcome for it. */
  datatype Decision = Allow(request: Request) | Unauthorized(message: string)

  /** canActivate: rejects a request whose x-user-id header is absent, empty or
      whitespace only; accepts every other request, attaching the header value,
      untrimmed, as its userId and leaving the rest of it as it was. */
  function CanActivate(request: Request): (d: Decision)
    ensures UserIdHeader !in request.headers ==> d == Unauthorized(MissingUserIdMessage)
    ensures UserIdHeader in request.headers && request.headers[UserIdHeader] == "" ==>
      d == Unauthorized(MissingUserIdMessage)
    ensures UserIdHeader in request.headers ==>
      (d.Allow? <==> exists i :: 0 <= i < |request.headers[UserIdHeader]| &&
                                 !IsWhitespace(request.headers[UserIdHeader][i]))
    ensures d.Allow? ==>
      d.request.userId == Some(request.headers[UserIdHeader]) &&
      d.request.headers == request.headers
    ensures d.Unauthorized? ==> d.message == MissingUserIdMessage
  {
    if UserIdHeader !in request.headers || request.headers[UserIdHeader] == "" then
      Unauthorized(MissingUserIdMessage)
    else if Trim(request.headers[UserIdHeader]) == "" then
      Unauthorized(MissingUserIdMessage)
    else
      var userId := request.headers[UserIdHeader];
      Allow(request.(userId := Some(userId)))
  }
}
