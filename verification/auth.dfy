/** The handshake gate of the relay (node-server/auth.js). Signature and expiry checking
    belong to the JWT library and are modelled as an oracle that answers, for a token,
    whether it verified (with its claims), expired, or failed in any other way. */
module Auth {
  import opened JsValues

  const TokenRequiredMessage: string := "인증 토큰이 필요합니다."
  const TokenExpiredMessage: string := "토큰이 만료되었습니다. 페이지를 새로고침하세요."
  const TokenInvalidMessage: string := "유효하지 않은 인증 토큰입니다."

  const DefaultUsername: string := "unknown"
  const DefaultDisplayName: string := "익명"

  /** Lifetime of a test token, in seconds. */
  const TestTokenLifetime: int := 86400

  /** The `data` claim. A claim the token does not carry is `Undefined`. */
  datatype ClaimData = ClaimData(
    userId: JsValue,
    username: JsValue,
    displayName: JsValue,
    email: JsValue,
    avatarUrl: JsValue,
    isGuest: JsValue)

  /** The decoded payload. `data` is `None` when the claim is absent, falsy or not an
      object: in each case every field read from it is `undefined`. */
  datatype Claims = Claims(sub: JsValue, iss: JsValue, iat: JsValue, exp: JsValue, data: Option<ClaimData>)

  /** What `jwt.verify` does with a token: returns the claims, throws
      `TokenExpiredError`, or throws any other error. */
  datatype Verification = Verified(claims: Claims) | Expired | Invalid

  /** `socket.user`, the identity attached to a connection. */
  datatype Identity = Identity(
    userId: string,
    username: JsValue,
    displayName: JsValue,
    email: JsValue,
    avatarUrl: JsValue,
    isGuest: bool)

  /** `next()` or `next(new Error(reason))`. */
  datatype AuthResult = Accepted(user: Identity) | Rejected(reason: string)

  const NoClaimData: ClaimData := ClaimData(Undefined, Undefined, Undefined, Undefined, Undefined, Undefined)

  /** `decoded.data || {}` */
  function DataOf(c: Claims): ClaimData
  {
    match c.data
    case Some(d) => d
    case None => NoClaimData
  }

  /** The claim-to-identity step of `authMiddleware`. */
  function DeriveIdentity(c: Claims): (id: Identity)
    ensures Truthy(DataOf(c).userId) ==> id.userId == ToJsString(DataOf(c).userId)
    ensures !Truthy(DataOf(c).userId) ==> id.userId == ToJsString(c.sub)
    ensures Truthy(id.username) && Truthy(id.displayName)
    ensures Truthy(DataOf(c).displayName) <==> id.displayName == DataOf(c).displayName
    ensures !Truthy(DataOf(c).displayName) ==> id.displayName == Str(DefaultDisplayName)
    ensures Truthy(DataOf(c).username) ==> id.username == DataOf(c).username
    ensures !Truthy(DataOf(c).username) ==> id.username == Str(DefaultUsername)
    ensures Truthy(DataOf(c).email) ==> id.email == DataOf(c).email
    ensures !Truthy(DataOf(c).email) ==> id.email == Str("")
    ensures Truthy(DataOf(c).avatarUrl) ==> id.avatarUrl == DataOf(c).avatarUrl
    ensures !Truthy(DataOf(c).avatarUrl) ==> id.avatarUrl == Str("")
    ensures id.isGuest <==> DataOf(c).isGuest == Bool(true)
  {
    var d := DataOf(c);
    Identity(
      ToJsString(Or(d.userId, c.sub)),
      Or(d.username, Str(DefaultUsername)),
      Or(d.displayName, Str(DefaultDisplayName)),
      Or(d.email, Str("")),
      Or(d.avatarUrl, Str("")),
      d.isGuest == Bool(true))
  }

  /** `authMiddleware(socket, next)` for the handshake token `token`. */
  function Authenticate(token: JsValue, verify: JsValue -> Verification): (r: AuthResult)
    ensures !Truthy(token) ==> r == Rejected(TokenRequiredMessage)
    ensures Truthy(token) && verify(token).Expired? ==> r == Rejected(TokenExpiredMessage)
    ensures Truthy(token) && verify(token).Invalid? ==> r == Rejected(TokenInvalidMessage)
    ensures r.Accepted? <==> Truthy(token) && verify(token).Verified?
    ensures r.Accepted? ==> r.user == DeriveIdentity(verify(token).claims)
  {
    if !Truthy(token) then Rejected(TokenRequiredMessage)
    else
      match verify(token)
      case Verified(claims) => Accepted(DeriveIdentity(claims))
      case Expired => Rejected(TokenExpiredMessage)
      case Invalid => Rejected(TokenInvalidMessage)
  }

  /** The three rejection reasons are pairwise different, so a client can tell an
      expired token from a missing or forged one. */
  lemma RejectionReasonsDistinct()
    ensures TokenRequiredMessage != TokenExpiredMessage
    ensures TokenRequiredMessage != TokenInvalidMessage
    ensures TokenExpiredMessage != TokenInvalidMessage
  {
    assert TokenRequiredMessage[0] != TokenExpiredMessage[0];
    assert TokenRequiredMessage[0] != TokenInvalidMessage[0];
    assert TokenExpiredMessage[0] != TokenInvalidMessage[0];
  }

  /** The argument of `generateTestToken`. */
  datatype TestUser = TestUser(
    userId: JsValue,
    username: JsValue,
    displayName: JsValue,
    email: JsValue,
    avatarUrl: JsValue,
    isGuest: JsValue)

  /** The payload `generateTestToken(u)` signs at wall-clock time `nowMillis`. */
  function TestTokenPayload(u: TestUser, nowMillis: int): (c: Claims)
    ensures c.iat.Num? && c.exp.Num? && c.exp.n == c.iat.n + TestTokenLifetime
    ensures c.iat.n * 1000 <= nowMillis < c.iat.n * 1000 + 1000
    ensures c.data.Some? && c.sub == u.userId == c.data.value.userId
  {
    var iat := nowMillis / 1000;
    Claims(
      u.userId,
      Str("wprc-test"),
      Num(iat),
      Num(iat + TestTokenLifetime),
      Some(ClaimData(
        u.userId,
        u.username,
        u.displayName,
        Or(u.email, Str("")),
        Or(u.avatarUrl, Str("")),
        Or(u.isGuest, Bool(false)))))
  }

  /** Deriving an identity from a test token's payload gives back the user it was made
      for: the same `userId` (stringified), the same guest flag when it was a boolean,
      and the same display name when it was a non-empty string. */
  lemma TestTokenRoundTrip(u: TestUser, nowMillis: int)
    ensures DeriveIdentity(TestTokenPayload(u, nowMillis)).userId == ToJsString(u.userId)
    ensures u.isGuest.Bool? ==> DeriveIdentity(TestTokenPayload(u, nowMillis)).isGuest == u.isGuest.b
    ensures Truthy(u.displayName) ==> DeriveIdentity(TestTokenPayload(u, nowMillis)).displayName == u.displayName
    ensures u.userId.Str? ==> DeriveIdentity(TestTokenPayload(u, nowMillis)).userId == u.userId.s
  {
  }
}
