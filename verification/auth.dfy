/** Bearer-token authentication of every route but login. */
module Auth {
  import opened Outcomes
  import opened Strings
  import opened Schema

  /** The claims a token carries: what login signs, and what verification gives back. */
  datatype Claims = Claims(id: int, username: string, role: Role, name: string)

  /**
   * The token of an `Authorization` header: its second space-separated
   * field. None when the header is missing or that field is missing or
   * empty, which the middleware treats alike.
   */
  function BearerToken(header: Option<string>): (token: Option<string>)
    ensures token.Some? ==> header.Some? && token.value != [] && ' ' !in token.value
  {
    match header
    case None => None
    case Some(h) =>
      var fields := Split(h, ' ');
      if |fields| >= 2 && fields[1] != [] then Some(fields[1]) else None
  }

  /** A header "scheme token rest" carries the token between the first and the next space. */
  lemma BearerTokenOfHeader(scheme: string, token: string, rest: string)
    requires ' ' !in scheme && ' ' !in token
    requires rest == [] || rest[0] == ' '
    ensures BearerToken(Some(scheme + " " + token + rest)) == if token == [] then None else Some(token)
  {
    var h := scheme + " " + token + rest;
    assert h == scheme + (" " + (token + rest));
    assert (" " + (token + rest))[1..] == token + rest;
    var x := " " + (token + rest);
    SplitPrefix(scheme, x, ' ');
    assert Split(x, ' ') == [[]] + Split(token + rest, ' ');
    SplitPrefix(token, rest, ' ');
    assert Split(rest, ' ')[0] == [];
    assert Split(token + rest, ' ')[0] == token;
    assert Split(h, ' ')[1] == Split(x, ' ')[1];
    assert Split(h, ' ')[1] == token;
  }

  /** A header without a space carries no token. */
  lemma BearerTokenNeedsSpace(h: string)
    requires ' ' !in h
    ensures BearerToken(Some(h)) == None
  {
    SplitJoin([h], ' ');
  }

  /**
   * The `authenticateToken` middleware. `verify` stands for the token
   * library's verification with the server's secret (signature and expiry):
   * the claims of a good token, None otherwise.
   */
  function Authenticate(header: Option<string>, verify: string -> Option<Claims>): (r: Result<Claims>)
    ensures r == Err(TokenRequired) <==> BearerToken(header).None?
    ensures r == Err(InvalidToken) <==> BearerToken(header).Some? && verify(BearerToken(header).value).None?
    ensures r.Ok? ==> BearerToken(header).Some? && verify(BearerToken(header).value) == Some(r.value)
  {
    match BearerToken(header)
    case None => Err(TokenRequired)
    case Some(token) =>
      match verify(token)
      case None => Err(InvalidToken)
      case Some(claims) => Ok(claims)
  }

  /** A header that is a bare scheme, or a scheme and a space, is refused with 401 whatever `verify` says. */
  lemma MissingTokenIsUnauthenticated(scheme: string, verify: string -> Option<Claims>)
    requires ' ' !in scheme
    ensures Authenticate(Some(scheme), verify) == Err(TokenRequired)
    ensures Authenticate(Some(scheme + " "), verify) == Err(TokenRequired)
  {
    BearerTokenNeedsSpace(scheme);
    BearerTokenOfHeader(scheme, [], []);
    assert scheme + " " + [] + [] == scheme + " ";
  }

  /** A well-formed header whose token fails verification is refused with 403, not 401. */
  lemma RejectedTokenIsForbidden(scheme: string, token: string, verify: string -> Option<Claims>)
    requires ' ' !in scheme && ' ' !in token && token != []
    requires verify(token).None?
    ensures Authenticate(Some(scheme + " " + token), verify) == Err(InvalidToken)
  {
    BearerTokenOfHeader(scheme, token, []);
    assert scheme + " " + token + [] == scheme + " " + token;
  }
}
