// com.disc.filter.CSRFFilter: GET requests and the login, logout and
// static paths pass (a GET also makes sure the session holds a token);
// every other request needs a session whose token the request repeats.
module CsrfFilter {
  import opened Wrappers
  import opened JavaText
  import opened HttpSession

  const TokenParameter: string := "csrfToken"
  const TokenHeader: string := "X-CSRF-Token"
  const StaticSuffixes: seq<string> := [".css", ".js", ".png", ".jpg", ".gif"]

  predicate IsGet(req: Request)
  {
    EqualsIgnoreCase(req.httpMethod, "GET")
  }

  // GET in any case, a URI containing /login or /logout, or one ending
  // (case-sensitively) in a static suffix.
  predicate Exempt(req: Request)
  {
    IsGet(req) || Contains(req.requestUri, "/login") || Contains(req.requestUri, "/logout")
    || exists j :: 0 <= j < |StaticSuffixes| && EndsWith(req.requestUri, StaticSuffixes[j])
  }

  // The parameter, and the X-CSRF-Token header only when there is no
  // parameter.
  function RequestToken(req: Request): (t: Option<string>)
  {
    if req.Parameter(TokenParameter).Some? then req.Parameter(TokenParameter) else req.Header(TokenHeader)
  }

  // The parameter wins even over a different header; the header counts
  // only without the parameter.
  lemma RequestTokenSpec(req: Request)
    ensures TokenParameter in req.parameters ==> RequestToken(req) == Some(req.parameters[TokenParameter])
    ensures TokenParameter !in req.parameters ==>
      RequestToken(req) == (if TokenHeader in req.headers then Some(req.headers[TokenHeader]) else None)
  {
  }

  // Both tokens present and equal.
  predicate TokensMatch(sessionToken: Option<string>, requestToken: Option<string>)
  {
    sessionToken.Some? && requestToken.Some? && sessionToken.value == requestToken.value
  }

  // getClientIP for the log line: the first field of X-Forwarded-For,
  // trimmed, then X-Real-IP, then the remote address. None: the split of
  // a header made only of commas has no first field and throws.
  function ClientIP(req: Request): (ip: Option<string>)
  {
    var xff := req.Header("X-Forwarded-For");
    if xff.Some? && xff.value != [] then
      match SplitHead(xff.value, ',')
      case None => None
      case Some(first) => Some(Trim(first))
    else if req.Header("X-Real-IP").Some? && req.Header("X-Real-IP").value != [] then req.Header("X-Real-IP")
    else Some(req.remoteAddr)
  }

  datatype CsrfReply =
    | Pass
    | Forbidden(message: string)   // sendError(403, message)
    | Failure                      // the exception getClientIP throws leaves the filter

  // doFilter's decision. session is None without a session, otherwise its
  // csrfToken attribute.
  function Decide(req: Request, session: Option<Option<string>>): (reply: CsrfReply)
  {
    if Exempt(req) then Pass
    else if session.None? then Forbidden("No session")
    else if !TokensMatch(session.value, RequestToken(req)) then
      if ClientIP(req).None? then Failure else Forbidden("CSRF token validation failed")
    else Pass
  }

  // A request passes exactly when it is exempt, or a session holds a token
  // and the request repeats it.
  lemma DecideSpec(req: Request, session: Option<Option<string>>)
    ensures Decide(req, session) == Pass <==>
      Exempt(req) || (session.Some? && session.value.Some? && RequestToken(req) == session.value)
    ensures !Exempt(req) && session.None? ==> Decide(req, session) == Forbidden("No session")
  {
  }

  // The form or script that sends back the token the session holds gets
  // through, whatever the method and path.
  lemma EchoedTokenPasses(req: Request, token: string)
    requires TokenParameter in req.parameters && req.parameters[TokenParameter] == token
    ensures Decide(req, Some(Some(token))) == Pass
  {
  }

  // The two filters differ on static files: the admin filter lower-cases
  // the path, this one does not, so a POST to /admin/x.CSS needs a token
  // here.
  lemma UpperSuffixNotExempt(req: Request)
    requires req.httpMethod == "POST" && req.requestUri == "/admin/x.CSS"
    ensures !Exempt(req)
  {
    assert !EqualsIgnoreCase(req.httpMethod, "GET");
    MissingCharAbsent(req.requestUri, "/login", 1);
    MissingCharAbsent(req.requestUri, "/logout", 1);
    UpperSuffixNotStatic(req.requestUri);
  }

  lemma UpperSuffixNotStatic(u: string)
    requires u == "/admin/x.CSS"
    ensures forall j :: 0 <= j < |StaticSuffixes| ==> !EndsWith(u, StaticSuffixes[j])
  {
    forall j | 0 <= j < |StaticSuffixes|
      ensures !EndsWith(u, StaticSuffixes[j])
    {
      var e := StaticSuffixes[j];
      assert e[|e| - 1] != u[|u| - 1];
      if |e| <= |u| {
        assert u[|u| - |e|..][|e| - 1] == u[|u| - 1];
      }
    }
  }

  // ensureCSRFToken: getSession(true), then a token unless it has one.
  // The new token (generateCSRFToken) is the parameter newToken.
  method EnsureCsrfToken(session: Session?, newToken: string, defaultInterval: int) returns (s: Session)
    requires session != null ==> session.live
    modifies session
    ensures session != null ==> s == session
    ensures session == null ==> fresh(s) && s.View().adminUser.None? && s.View().isAdminLoggedIn.None?
    ensures s.live
    ensures s.csrfToken == if session != null && old(session.csrfToken).Some? then old(session.csrfToken) else Some(newToken)
    ensures session != null ==>
      s.View() == old(session.View()) && s.requestedAdminUrl == old(session.requestedAdminUrl)
  {
    s := GetSession(session, defaultInterval);
    if s.csrfToken.None? {
      s.csrfToken := Some(newToken);
    }
  }

  // doFilter. current is the live session after the request. A GET always
  // leaves a session holding a token, the one it had if it had one.
  method DoFilter(req: Request, session: Session?, newToken: string, defaultInterval: int)
    returns (reply: CsrfReply, current: Session?)
    requires session != null ==> session.live
    modifies session
    ensures reply == Decide(req, if session == null then None else Some(old(session.csrfToken)))
    ensures IsGet(req) ==>
      current != null && current.live && current.csrfToken.Some?
      && (session != null && old(session.csrfToken).Some? ==> current == session && current.csrfToken == old(session.csrfToken))
    ensures !IsGet(req) ==> current == session && (session != null ==> unchanged(session))
  {
    if Exempt(req) {
      if IsGet(req) {
        current := EnsureCsrfToken(session, newToken, defaultInterval);
      } else {
        current := session;
      }
      return Pass, current;
    }
    current := session;
    if session == null {
      return Forbidden("No session"), current;
    }
    var requestToken := RequestToken(req);
    if !TokensMatch(session.csrfToken, requestToken) {
      var ip := ClientIP(req);
      if ip.None? {
        return Failure, current;
      }
      return Forbidden("CSRF token validation failed"), current;
    }
    return Pass, current;
  }
}
