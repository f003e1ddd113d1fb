/** `verifyToken` of `Backend/middleware/authMiddleware.js`. JWT verification
    is the parameter `verify`: `None` stands for a `jwt.verify` that throws
    (bad signature, expired, no token string at all). */
module AuthMiddleware {
  import opened Optional
  import opened Text
  import opened AuthController

  datatype Decision = Reject(status: nat, message: string) | Proceed(user: Claims)

  /** `bearerHeader.split(' ')[1]`; a header without a space has no second field. */
  function BearerToken(header: string): (t: Option<string>)
    ensures t.Some? ==> ' ' !in t.value
  {
    var parts := Split(header, ' ');
    if |parts| >= 2 then Some(parts[1]) else None
  }

  /** The decision: 403 without a header, 401 when verification throws,
      otherwise on to the handler with the decoded payload. */
  function Authorize(header: string, verify: string -> Option<Claims>): Decision {
    if header == "" then Reject(403, "No token provided")
    else match BearerToken(header)
      case None => Reject(401, "Invalid token")
      case Some(token) =>
        match verify(token)
        case None => Reject(401, "Invalid token")
        case Some(decoded) => Proceed(decoded)
  }

  /** The handler is reached exactly when the header holds a second field
      that verifies, with what it decodes to; every refusal is one of the two. */
  lemma AuthorizeIff(header: string, verify: string -> Option<Claims>)
    ensures Authorize(header, verify).Proceed? <==>
      header != "" && BearerToken(header).Some? && verify(BearerToken(header).value).Some?
    ensures Authorize(header, verify).Proceed? ==>
      Authorize(header, verify).user == verify(BearerToken(header).value).value
    ensures header == "" ==> Authorize(header, verify) == Reject(403, "No token provided")
    ensures header != "" && Authorize(header, verify).Reject? ==> Authorize(header, verify) == Reject(401, "Invalid token")
  {
  }

  /** The token is the field after the first space, whatever the scheme word is. */
  lemma BearerTokenOf(scheme: string, token: string)
    requires ' ' !in scheme && ' ' !in token
    ensures BearerToken(scheme + " " + token) == Some(token)
  {
    var parts := [scheme, token];
    assert Join(parts, ' ') == scheme + " " + token by {
      assert Join(parts[1..], ' ') == token;
    }
    SplitJoin(parts, ' ');
  }

  /** `Bearer ` with nothing after the space hands `verify` the empty token;
      since `jwt.verify` throws on an empty token, the request is refused. */
  lemma EmptyTokenRefused(verify: string -> Option<Claims>)
    requires verify("") == None
    ensures BearerToken("Bearer ") == Some("")
    ensures Authorize("Bearer ", verify) == Reject(401, "Invalid token")
  {
    BearerTokenOf("Bearer", "");
    assert "Bearer" + " " + "" == "Bearer ";
  }

  /** The token a login hands out, sent back as `Bearer <token>`, lets the
      request through with the login's payload, provided the token verifies to
      what was signed and holds no space (a JWT is three base64url fields). */
  lemma LoginTokenAuthorizes(users: seq<UserModel.User>, userName: string, password: string,
                             matches: (string, string) -> bool, sign: (Claims, nat) -> string,
                             verify: string -> Option<Claims>)
    requires LoginOutcome(users, userName, password, matches, sign).status == 200
    requires forall c :: ' ' !in sign(c, OneDay) && verify(sign(c, OneDay)) == Some(c)
    ensures var body := LoginOutcome(users, userName, password, matches, sign).body;
      && body.LoggedIn?
      && Authorize("Bearer " + body.token, verify) == Proceed(Claims(body.user.id, body.user.userName))
  {
    LoginSucceeds(users, userName, password, matches, sign);
    var body := LoginOutcome(users, userName, password, matches, sign).body;
    BearerTokenOf("Bearer", body.token);
    assert "Bearer" + " " + body.token == "Bearer " + body.token;
  }

  /** The parts of the request and response the middleware touches. */
  class Request {
    var authorization: string
    var user: Option<Claims>
    var nextCalls: nat
    var response: Option<(nat, string)>

    constructor (authorization: string)
      ensures this.authorization == authorization && user == None && nextCalls == 0 && response == None
    {
      this.authorization := authorization;
      user := None;
      nextCalls := 0;
      response := None;
    }
  }

  /** `verifyToken(req, res, next)`: either answers the request, or sets
      `req.user` and calls `next` once, never both. */
  method VerifyToken(req: Request, verify: string -> Option<Claims>)
    modifies req
    ensures req.authorization == old(req.authorization)
    ensures match Authorize(old(req.authorization), verify)
      case Reject(status, message) =>
        req.response == Some((status, message)) && req.nextCalls == old(req.nextCalls) && req.user == old(req.user)
      case Proceed(decoded) =>
        req.user == Some(decoded) && req.nextCalls == old(req.nextCalls) + 1 && req.response == old(req.response)
  {
    var bearerHeader := req.authorization;
    if bearerHeader == "" {
      req.response := Some((403, "No token provided"));
      return;
    }
    var token := BearerToken(bearerHeader);
    var decoded := if token.Some? then verify(token.value) else None;
    if decoded.None? {
      req.response := Some((401, "Invalid token"));
      return;
    }
    req.user := decoded;
    req.nextCalls := req.nextCalls + 1;
  }
}
