/** AuthInterceptor: the gate every protected request passes through. */
module Interceptor {
  import opened Results
  import opened Entities
  import opened Text
  import opened Sessions

  /** The scheme prefix `preHandle` strips from the Authorization header. */
  const BearerPrefix: string := "Bearer "

  /** The HTTP status of a rejected request. */
  const Unauthorized: nat := 401

  /** Why a request was turned away. */
  datatype Reason = MissingToken | InvalidToken

  /** What `preHandle` decides: go on (with the `userId` request attribute it
      set, if any), or stop with the response status it wrote. */
  datatype Verdict =
    | Proceed(userIdAttribute: Option<Id>)
    | Reject(status: nat, reason: Reason)

  /** The token carried by an Authorization header: what follows a leading
      `Bearer `; nothing for a missing header or another scheme. */
  function ExtractToken(header: Option<string>): (token: Option<string>)
    ensures token.Some? <==> header.Some? && StartsWith(header.value, BearerPrefix)
    ensures token.Some? ==> header.value == BearerPrefix + token.value
  {
    if header.Some? && StartsWith(header.value, BearerPrefix) then
      assert header.value == BearerPrefix + header.value[7..];
      Some(header.value[7..])
    else None
  }

  /** `preHandle`: pre-flight OPTIONS requests pass untouched; any other request
      passes exactly when its bearer token is live, and then carries the id of
      the token's user. */
  function PreHandle(auth: AuthService, httpMethod: string, authorizationHeader: Option<string>): (v: Verdict)
    reads auth
    ensures EqualsIgnoreCase(httpMethod, "OPTIONS") ==> v == Proceed(None)
    ensures !EqualsIgnoreCase(httpMethod, "OPTIONS") ==>
      match ExtractToken(authorizationHeader)
      case None => v == Reject(Unauthorized, MissingToken)
      case Some(token) =>
        if !IsBlank(token) && token in auth.activeTokens
        then v == Proceed(Some(auth.activeTokens[token]))
        else v == Reject(Unauthorized, InvalidToken)
  {
    if EqualsIgnoreCase(httpMethod, "OPTIONS") then Proceed(None)
    else
      var token := ExtractToken(authorizationHeader);
      if token.None? then Reject(Unauthorized, MissingToken)
      else
        var userId := auth.GetUserIdFromToken(token);
        if userId.None? then Reject(Unauthorized, InvalidToken)
        else Proceed(Some(userId.value))
  }

  /** A request that carries the token a login issued passes, attributed to that user. */
  lemma IssuedTokenPasses(auth: AuthService, httpMethod: string, token: string)
    requires !EqualsIgnoreCase(httpMethod, "OPTIONS")
    requires token in auth.activeTokens && !IsBlank(token)
    ensures PreHandle(auth, httpMethod, Some(BearerPrefix + token)) == Proceed(Some(auth.activeTokens[token]))
  {
    assert StartsWith(BearerPrefix + token, BearerPrefix);
  }

  /** `Bearer ` followed only by blanks never gets through, whatever the store holds. */
  lemma {:induction false} BlankBearerIsRejected(auth: AuthService, httpMethod: string, blanks: string)
    requires !EqualsIgnoreCase(httpMethod, "OPTIONS")
    requires IsBlank(blanks)
    ensures PreHandle(auth, httpMethod, Some(BearerPrefix + blanks)) == Reject(Unauthorized, InvalidToken)
  {
    assert StartsWith(BearerPrefix + blanks, BearerPrefix);
  }
}
