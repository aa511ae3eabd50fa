/** `authenticateToken` of `server/server.js`: taking the token out of the `Authorization` header
    and turning the outcome of its verification into the 401 and 403 answers. */
module ServerAuth {
  import opened Wrappers
  import opened Text

  /** The payload the token was signed with. */
  datatype TokenUser = TokenUser(id: int, email: string)

  datatype AuthError = AccessDenied | InvalidToken {
    function Message(): string {
      match this
      case AccessDenied => "Access denied"
      case InvalidToken => "Invalid token"
    }
    function Status(): int {
      match this
      case AccessDenied => 401
      case InvalidToken => 403
    }
  }

  /** `authHeader && authHeader.split(' ')[1]`, kept only when truthy: the second space-separated
      word of a non-empty header. */
  function BearerToken(authHeader: Option<string>): (r: Option<string>)
    ensures r.Some? <==> authHeader.Some? && |Split(authHeader.value, ' ')| >= 2 && Split(authHeader.value, ' ')[1] != ""
    ensures r.Some? ==> r.value == Split(authHeader.value, ' ')[1]
    ensures r.Some? ==> r.value != "" && ' ' !in r.value && ' ' in authHeader.value
  {
    if authHeader.None? || authHeader.value == "" then None
    else
      var parts := Split(authHeader.value, ' ');
      if |parts| >= 2 && parts[1] != "" then Some(parts[1]) else None
  }

  /** The middleware's decision; `verify` stands for `jwt.verify` with the server's secret. */
  function Authenticate(authHeader: Option<string>, verify: string -> Option<TokenUser>): (r: Result<TokenUser, AuthError>)
    ensures r == Failure(AccessDenied) <==> BearerToken(authHeader).None?
    ensures r == Failure(InvalidToken) <==> BearerToken(authHeader).Some? && verify(BearerToken(authHeader).value).None?
    ensures r.Success? ==> BearerToken(authHeader).Some? && verify(BearerToken(authHeader).value) == Some(r.value)
  {
    match BearerToken(authHeader)
    case None => Failure(AccessDenied)
    case Some(token) =>
      match verify(token)
      case None => Failure(InvalidToken)
      case Some(user) => Success(user)
  }

  /** `<scheme> <token>` yields the token, whatever the scheme word: "Bearer" is not checked. */
  lemma SchemeThenToken(scheme: string, token: string)
    requires ' ' !in scheme && ' ' !in token && token != ""
    ensures BearerToken(Some(scheme + " " + token)) == Some(token)
  {
    SplitAfterWord(scheme, token, ' ');
    assert scheme + " " + token == scheme + [' '] + token;
  }

  /** Words after the token are ignored: `<scheme> <token> <rest>` still yields the token. */
  lemma ExtraWordsIgnored(scheme: string, token: string, rest: string)
    requires ' ' !in scheme && ' ' !in token && token != ""
    ensures BearerToken(Some(scheme + " " + token + " " + rest)) == Some(token)
  {
    SplitAfterWord(scheme, token + " " + rest, ' ');
    SplitAfterWord(token, rest, ' ');
    assert scheme + " " + token + " " + rest == scheme + [' '] + (token + [' '] + rest);
  }

  /** Two spaces after the scheme make the second piece empty, so there is no token. */
  lemma DoubleSpaceNoToken(scheme: string, rest: string, verify: string -> Option<TokenUser>)
    requires ' ' !in scheme
    ensures BearerToken(Some(scheme + "  " + rest)) == None
    ensures Authenticate(Some(scheme + "  " + rest), verify) == Failure(AccessDenied)
  {
    SplitAfterWord(scheme, " " + rest, ' ');
    SplitAfterWord("", rest, ' ');
    assert scheme + "  " + rest == scheme + [' '] + ("" + [' '] + rest);
    assert " " + rest == "" + [' '] + rest;
  }

  /** A header without a space carries no token, and `verify` is never reached. */
  lemma NoSpaceNoToken(h: string, verify: string -> Option<TokenUser>)
    requires ' ' !in h
    ensures BearerToken(Some(h)) == None
    ensures Authenticate(Some(h), verify) == Failure(AccessDenied)
  {
  }

  /** The three outcomes: no token is 401, a token `verify` rejects is 403, an accepted token
      passes with the payload `verify` returns. */
  lemma AuthenticateOutcomes(scheme: string, token: string, verify: string -> Option<TokenUser>)
    requires ' ' !in scheme && ' ' !in token && token != ""
    ensures Authenticate(None, verify) == Failure(AccessDenied)
    ensures verify(token).None? ==> Authenticate(Some(scheme + " " + token), verify) == Failure(InvalidToken)
    ensures verify(token).Some? ==> Authenticate(Some(scheme + " " + token), verify) == Success(verify(token).value)
  {
    SchemeThenToken(scheme, token);
  }
}
