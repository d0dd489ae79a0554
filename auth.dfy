/**
 * The `authenticateToken` middleware of the server: it takes the second
 * space-separated field of the `Authorization` header as the token and asks
 * the token verifier (`jwt.verify`, an external oracle passed in as a
 * function) for the caller's tenant id. The protected handler only ever
 * runs on `Authenticated`.
 */
module Auth {
  import opened Wrappers
  import Text

  /** What the middleware decides: 401, 403, or go on with `req.user.id`. */
  datatype Outcome = Unauthorized | Forbidden | Authenticated(tenantId: int)

  /**
   * `authHeader && authHeader.split(' ')[1]`. A missing header gives no
   * token; an EMPTY header is falsy and short-circuits to the empty string,
   * which is a token (`"" == null` is false) that the verifier then rejects.
   */
  function BearerToken(header: Option<string>): (token: Option<string>)
    ensures token.None? <==> header.None? || (header.value != "" && ' ' !in header.value)
    ensures token.Some? ==> ' ' !in token.value
  {
    match header
    case None => None
    case Some(h) =>
      if h == "" then Some("")
      else
        var fields := Text.Split(h);
        Text.SplitHasSecond(h);
        if |fields| >= 2 then Some(fields[1]) else None
  }

  /** The middleware: 401 without a token, 403 when verification fails, otherwise the verified tenant. */
  function Authenticate(header: Option<string>, verify: string -> Option<int>): (r: Outcome)
    ensures r.Unauthorized? <==> BearerToken(header).None?
    ensures r.Forbidden? <==> BearerToken(header).Some? && verify(BearerToken(header).value).None?
    ensures r.Authenticated? ==> BearerToken(header).Some? && verify(BearerToken(header).value) == Some(r.tenantId)
  {
    match BearerToken(header)
    case None => Unauthorized
    case Some(token) =>
      match verify(token)
      case None => Forbidden
      case Some(id) => Authenticated(id)
  }

  /** A well-formed `Authorization: <scheme> <token>` header yields exactly that token. */
  lemma BearerTokenOfHeader(scheme: string, token: string)
    requires ' ' !in scheme && ' ' !in token
    ensures BearerToken(Some(scheme + " " + token)) == Some(token)
  {
    Text.SplitAfterFirst(scheme, token);
    Text.SplitNoSpace(token);
    assert (scheme + " " + token)[|scheme|] == ' ';
  }

  /** A header without a space (for instance a bare token) is refused with 401 before any verification. */
  lemma NoSpaceUnauthorized(header: string, verify: string -> Option<int>)
    requires header != "" && ' ' !in header
    ensures Authenticate(Some(header), verify) == Unauthorized
  {
  }

  /** The empty header reaches the verifier with the empty token: it is refused with 403 unless the verifier accepts "". */
  lemma EmptyHeaderReachesVerifier(verify: string -> Option<int>)
    ensures Authenticate(Some(""), verify) == if verify("").None? then Forbidden else Authenticated(verify("").value)
  {
  }
}
