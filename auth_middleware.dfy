/**
 * `authMiddleware(role)`: the guard in front of every protected route. It
 * reads the `x-auth-token` header, verifies the token, copies its `user`
 * into `req.user`, compares the role, and then either calls `next()` or
 * sends exactly one error reply.
 */
module AuthMiddleware {
  import opened Wrappers
  import opened Crypto
  import opened Models

  /** The secret the middleware verifies with. */
  const VerifySecret := "secret"

  const NoTokenReply := Message(401, "No token, authorization denied")
  const InvalidTokenReply := Message(401, "Invalid Token")
  const AccessDeniedReply := Message(403, "Access Denied")

  /**
   * The `x-auth-token` header: absent, a string that is not a signed token
   * (the empty string among them), or the serialisation of a token.
   */
  datatype Header = Missing | Text(value: string) | Compact(token: Token)

  /** What the guard does with a request: `next()` with `req.user` set, or one error reply. */
  datatype Outcome = Next(user: Option<UserClaim>) | Deny(reply: Response)

  /** JavaScript truthiness of the `role` argument: `undefined` and `""` are falsy. */
  predicate Truthy(role: Option<string>)
  {
    role.Some? && role.value != ""
  }

  /** The header carries a token that verifies under `secret` at time `now`. */
  predicate Verified(secret: string, header: Header, now: int)
  {
    header.Compact? && Verify(header.token, secret, now).Success?
  }

  /**
   * The guard's decision. A request passes exactly when its token verifies and,
   * for a truthy `role`, names that role; then `req.user` is the token's `user`.
   * A missing or empty header is refused with "No token" before any
   * verification; a string that is not a token, a token that fails
   * verification, or (for a truthy role) a verified token without `user` gets
   * "Invalid Token"; a role mismatch (403) is only reported for a token that verified.
   */
  function Authenticate(secret: string, header: Header, role: Option<string>, now: int): (o: Outcome)
    ensures o.Deny? ==> o.reply in {NoTokenReply, InvalidTokenReply, AccessDeniedReply}
    ensures o == Deny(NoTokenReply) <==> header.Missing? || header == Text("")
    ensures o.Next? <==>
      Verified(secret, header, now) &&
      (Truthy(role) ==> header.token.payload.user.Some? && header.token.payload.user.value.role == role.value)
    ensures o.Next? ==> o.user == header.token.payload.user
    ensures o == Deny(AccessDeniedReply) <==>
      Verified(secret, header, now) && Truthy(role) &&
      header.token.payload.user.Some? && header.token.payload.user.value.role != role.value
    ensures o == Deny(InvalidTokenReply) <==>
      (header.Text? && header.value != "") ||
      (header.Compact? && !Verified(secret, header, now)) ||
      (Verified(secret, header, now) && Truthy(role) && header.token.payload.user.None?)
  {
    match header
    case Missing => Deny(NoTokenReply)
    case Text(value) =>
      // A non-empty string that is not a token makes `jwt.verify` throw.
      if value == "" then Deny(NoTokenReply) else Deny(InvalidTokenReply)
    case Compact(token) =>
      match Verify(token, secret, now)
      case Failure(_) => Deny(InvalidTokenReply)
      case Success(payload) =>
        if !Truthy(role) then Next(payload.user)
        else match payload.user
          // `decoded.user.role` throws on a missing `user`; the catch answers 401.
          case None => Deny(InvalidTokenReply)
          case Some(user) =>
            if user.role != role.value then Deny(AccessDeniedReply) else Next(payload.user)
  }

  /** The request object as the guard sees it: its header and the `req.user` it may set. */
  class Request {
    const header: Header
    var user: Option<UserClaim>

    constructor (header: Header)
      ensures this.header == header && user == None
    {
      this.header := header;
      user := None;
    }
  }

  /**
   * One run of the middleware on `req`. Either `next()` is called and no reply
   * is sent, or exactly one reply is sent and `next()` is not called. `req.user`
   * is written as soon as the token verifies, before the role check, so a
   * request refused with 403 leaves it set too.
   */
  method Guard(secret: string, role: Option<string>, req: Request, now: int)
    returns (nextCalled: bool, reply: Option<Response>)
    modifies req
    ensures nextCalled <==> reply.None?
    ensures nextCalled <==> Authenticate(secret, req.header, role, now).Next?
    ensures reply.Some? ==> Authenticate(secret, req.header, role, now) == Deny(reply.value)
    ensures req.user == if Verified(secret, req.header, now) then req.header.token.payload.user else old(req.user)
  {
    if req.header.Missing? || req.header == Text("") {
      return false, Some(NoTokenReply);
    }
    if req.header.Text? {
      return false, Some(InvalidTokenReply);
    }
    var decoded := Verify(req.header.token, secret, now);
    if decoded.Failure? {
      return false, Some(InvalidTokenReply);
    }
    req.user := decoded.value.user;
    if Truthy(role) {
      if decoded.value.user.None? {
        return false, Some(InvalidTokenReply);
      }
      if decoded.value.user.value.role != role.value {
        return false, Some(AccessDeniedReply);
      }
    }
    nextCalled, reply := true, None;
  }
}
