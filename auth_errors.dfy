/** The rejections of the authentication functions in auth.js. Each
    constructor stands for one rejection string of the source; `Message`
    gives that string. */
module AuthErrors {

  datatype AuthError =
    | InvalidRequest              // no request or no headers
    | MissingAuthorizationHeader
    | InvalidHeaderFormat         // not `Bearer <token>`
    | InvalidAuthorizationToken   // no stored token matches
    | MissingCredentials          // empty username or password
    | InvalidCredentials          // unknown user or wrong password
    | UsernameTaken
    | MissingToken
    | InvalidToken                // revocation did not delete exactly one row
    | MissingUserId
    | UserNotFound
    | MissingUsername

  /** The rejection string `require_auth` puts in the body of its 401
      answer. */
  function Message(e: AuthError): (r: string)
    ensures r != []
  {
    match e
    case InvalidRequest => "Invalid request"
    case MissingAuthorizationHeader => "Missing authorization header"
    case InvalidHeaderFormat => "Invalid authorization header format"
    case InvalidAuthorizationToken => "Invalid authorization token"
    case MissingCredentials => "Username and password must be provided"
    case InvalidCredentials => "Invalid username or password"
    case UsernameTaken => "Username already exists"
    case MissingToken => "Token must be provided"
    case InvalidToken => "Invalid token"
    case MissingUserId => "User id must be provided"
    case UserNotFound => "User not found"
    case MissingUsername => "Username must be provided"
  }

  /** Which rejection a non-empty string of `Message` stands for, read off
      its length and, for the two of length 28, its first character. */
  function ReasonOf(m: string): AuthError
    requires m != []
  {
    var n := |m|;
    if n == 15 then InvalidRequest
    else if n == 28 then (if m[0] == 'M' then MissingAuthorizationHeader else InvalidCredentials)
    else if n == 35 then InvalidHeaderFormat
    else if n == 27 then InvalidAuthorizationToken
    else if n == 38 then MissingCredentials
    else if n == 23 then UsernameTaken
    else if n == 22 then MissingToken
    else if n == 13 then InvalidToken
    else if n == 24 then MissingUserId
    else if n == 14 then UserNotFound
    else MissingUsername
  }

  lemma ReasonOfMessage(e: AuthError)
    ensures ReasonOf(Message(e)) == e
  {
  }

  /** Every rejection has its own string, so the body of a 401 answer tells
      the client which check failed. */
  lemma MessagesDistinct(e1: AuthError, e2: AuthError)
    ensures Message(e1) == Message(e2) <==> e1 == e2
  {
    ReasonOfMessage(e1);
    ReasonOfMessage(e2);
  }
}
