// com.disc.filter.AdminAuthFilter: which admin paths need a login, when an
// admin session counts as valid or expired, where a refused request is
// sent, and the client address it logs.
module AdminAuthFilter {
  import opened Wrappers
  import opened JavaText
  import opened HttpSession
  import SecurityUtil

  const ExcludedPaths: set<string> := {"/admin/login", "/admin/login.jsp", "/jsp/admin/login.jsp"}

  const ExcludedExtensions: set<string> :=
    {".css", ".js", ".png", ".jpg", ".jpeg", ".gif", ".ico", ".svg", ".woff", ".woff2", ".ttf"}

  const SessionTimeoutMinutes: int := 30
  const MinuteSeconds: int := 60
  const HourSeconds: int := 3600

  // The messages doFilter and handleUnauthorizedAccess pass to redirectToLogin.
  const SystemErrorMessage: string := "시스템 오류가 발생했습니다."
  const LoginRequiredMessage: string := "로그인이 필요합니다."

  // ---- shouldExcludeFromAuth ---------------------------------------------------

  predicate HasStaticExtension(path: string)
  {
    exists e :: e in ExcludedExtensions && EndsWith(ToLower(path), e)
  }

  // An exact excluded path, a static extension in any case, or "/login"
  // anywhere in the path.
  predicate ShouldExcludeFromAuth(path: string)
  {
    path in ExcludedPaths || HasStaticExtension(path) || Contains(path, "/login")
  }

  // Each excluded path contains "/login", so the exact-match list adds
  // nothing to the other two tests.
  lemma ExclusionSpec(path: string)
    ensures ShouldExcludeFromAuth(path) <==> HasStaticExtension(path) || Contains(path, "/login")
  {
    if path in ExcludedPaths {
      if path == "/admin/login" || path == "/admin/login.jsp" {
        assert OccursAt(path, "/login", 6);
      } else {
        assert OccursAt(path, "/login", 10);
      }
    }
  }

  // Whatever comes before it, a path ending in a static extension, in
  // upper or lower case, needs no login.
  lemma StaticSuffixExcluded(prefix: string, e: string)
    requires e in ExcludedExtensions
    ensures ShouldExcludeFromAuth(prefix + e) && ShouldExcludeFromAuth(prefix + ToUpper(e))
  {
    assert LowerAsciiOnly(e);
    LowerEndsWithSuffix(prefix, e);
  }

  // ---- isSessionExpired --------------------------------------------------------

  // The inactivity timeout in minutes: getMaxInactiveInterval() / 60 when
  // positive, else 30.
  function TimeoutMinutes(maxInactiveInterval: int): (m: int)
    ensures m >= 0
    ensures maxInactiveInterval > 0 ==> m * MinuteSeconds <= maxInactiveInterval < (m + 1) * MinuteSeconds
    ensures maxInactiveInterval <= 0 ==> m == SessionTimeoutMinutes
  {
    if maxInactiveInterval > 0 then maxInactiveInterval / MinuteSeconds else SessionTimeoutMinutes
  }

  // The longest session: 8 hours above a 30-minute timeout, else 2.
  function MaxSessionHours(timeoutMinutes: int): (h: int)
  {
    if timeoutMinutes > SessionTimeoutMinutes then 8 else 2
  }

  // Expired without both times, after the inactivity timeout, or after the
  // longest session length (plusMinutes / plusHours, then isBefore(now)).
  predicate IsSessionExpired(lastActivity: Option<int>, loginTime: Option<int>, maxInactiveInterval: int, now: int)
  {
    lastActivity.None? || loginTime.None?
    || lastActivity.value + TimeoutMinutes(maxInactiveInterval) * MinuteSeconds < now
    || loginTime.value + MaxSessionHours(TimeoutMinutes(maxInactiveInterval)) * HourSeconds < now
  }

  // Once expired, a session stays expired as time goes on.
  lemma ExpiryIsFinal(lastActivity: Option<int>, loginTime: Option<int>, maxInactiveInterval: int, now: int, later: int)
    requires now <= later && IsSessionExpired(lastActivity, loginTime, maxInactiveInterval, now)
    ensures IsSessionExpired(lastActivity, loginTime, maxInactiveInterval, later)
  {
  }

  // A live session was active within its interval (rounded down to whole
  // minutes) and is at most 8 hours old; with the container's default
  // (no positive interval) that is 30 minutes and 2 hours.
  lemma UnexpiredBounds(lastActivity: Option<int>, loginTime: Option<int>, maxInactiveInterval: int, now: int)
    requires !IsSessionExpired(lastActivity, loginTime, maxInactiveInterval, now)
    ensures lastActivity.Some? && loginTime.Some?
    ensures maxInactiveInterval > 0 ==> now - lastActivity.value <= maxInactiveInterval
    ensures now - loginTime.value <= 8 * HourSeconds
    ensures maxInactiveInterval <= 0 ==>
      now - lastActivity.value <= 30 * MinuteSeconds && now - loginTime.value <= 2 * HourSeconds
  {
  }

  // The 8-hour limit applies exactly from an interval of 31 minutes on; an
  // interval under a minute times out at once.
  lemma SessionLengthLimit(maxInactiveInterval: int)
    ensures MaxSessionHours(TimeoutMinutes(maxInactiveInterval)) == 8 <==> maxInactiveInterval >= 31 * MinuteSeconds
    ensures 0 < maxInactiveInterval < MinuteSeconds ==> TimeoutMinutes(maxInactiveInterval) == 0
  {
  }

  // ---- isValidAdminSession -----------------------------------------------------

  // A session, an admin in it, isAdminLoggedIn TRUE, and not expired.
  predicate ValidAdminSession(v: Option<SessionView>, now: int)
  {
    v.Some? && v.value.adminUser.Some? && v.value.isAdminLoggedIn == Some(true)
    && !IsSessionExpired(v.value.adminLastActivity, v.value.adminLoginTime, v.value.maxInactiveInterval, now)
  }

  // The session is invalidated exactly when it held a logged-in admin
  // whose time ran out.
  predicate ExpiredLogin(v: SessionView, now: int)
  {
    v.adminUser.Some? && v.isAdminLoggedIn == Some(true)
    && IsSessionExpired(v.adminLastActivity, v.adminLoginTime, v.maxInactiveInterval, now)
  }

  method IsValidAdminSession(session: Session?, now: int) returns (ok: bool)
    requires session != null ==> session.live
    modifies session
    ensures ok == ValidAdminSession(if session == null then None else Some(old(session.View())), now)
    ensures session != null ==>
      session.View() == old(session.View())
      && session.requestedAdminUrl == old(session.requestedAdminUrl) && session.csrfToken == old(session.csrfToken)
      && (session.live <==> !ExpiredLogin(old(session.View()), now))
  {
    if session == null {
      return false;
    }
    if session.adminUser.None? || session.isAdminLoggedIn != Some(true) {
      return false;
    }
    if IsSessionExpired(session.adminLastActivity, session.adminLoginTime, session.maxInactiveInterval, now) {
      session.Invalidate();
      return false;
    }
    return true;
  }

  // ---- redirectToLogin, isAjaxRequest, getClientIP, isBot -----------------------

  // The query redirectToLogin adds for a message: none without one,
  // session_expired for one containing "만료" (expired), system_error for
  // one containing "오류" (error), otherwise login_required.
  function MessageCode(message: Option<string>): (code: string)
  {
    if message.None? || message.value == [] then ""
    else if Contains(message.value, "만료") then "?message=session_expired"
    else if Contains(message.value, "오류") then "?message=system_error"
    else "?message=login_required"
  }

  // redirectToLogin: the login page of the application, with the code.
  function RedirectToLogin(contextPath: string, message: Option<string>): (url: string)
  {
    contextPath + "/admin/login" + MessageCode(message)
  }

  // The filter's own two messages give system_error and login_required.
  lemma RedirectMessages()
    ensures MessageCode(Some(SystemErrorMessage)) == "?message=system_error"
    ensures MessageCode(Some(LoginRequiredMessage)) == "?message=login_required"
  {
    ErrorCode(SystemErrorMessage, 4);
    OtherCode(LoginRequiredMessage);
  }

  lemma ErrorCode(m: string, k: int)
    requires '만' !in m && OccursAt(m, "오류", k)
    ensures MessageCode(Some(m)) == "?message=system_error"
  {
    MissingCharAbsent(m, "만료", 0);
  }

  lemma OtherCode(m: string)
    requires m != [] && '만' !in m && '오' !in m
    ensures MessageCode(Some(m)) == "?message=login_required"
  {
    MissingCharAbsent(m, "만료", 0);
    MissingCharAbsent(m, "오류", 0);
  }

  // "XMLHttpRequest" in X-Requested-With, or a Content-Type or Accept
  // header mentioning application/json.
  predicate IsAjaxRequest(req: Request)
  {
    req.Header("X-Requested-With") == Some("XMLHttpRequest")
    || (req.Header("Content-Type").Some? && Contains(req.Header("Content-Type").value, "application/json"))
    || (req.Header("Accept").Some? && Contains(req.Header("Accept").value, "application/json"))
  }

  // A header getClientIP takes: present, not empty, not "unknown" in any case.
  predicate Usable(h: Option<string>)
  {
    h.Some? && h.value != [] && !EqualsIgnoreCase(h.value, "unknown")
  }

  // X-Forwarded-For (its first comma field, trimmed), X-Real-IP,
  // X-Forwarded, Forwarded, then the remote address. None: the split of an
  // X-Forwarded-For made only of commas has no first field and throws.
  function GetClientIP(req: Request): (ip: Option<string>)
  {
    var xff := req.Header("X-Forwarded-For");
    if Usable(xff) then
      match SplitHead(xff.value, ',')
      case None => None
      case Some(first) => Some(Trim(first))
    else if Usable(req.Header("X-Real-IP")) then req.Header("X-Real-IP")
    else if Usable(req.Header("X-Forwarded")) then req.Header("X-Forwarded")
    else if Usable(req.Header("Forwarded")) then req.Header("Forwarded")
    else Some(req.remoteAddr)
  }

  // The address is the trimmed text before the first comma of a usable
  // X-Forwarded-For; it fails only for one made of commas alone; without
  // any usable header it is the remote address.
  lemma ClientIPSpec(req: Request)
    ensures var xff := req.Header("X-Forwarded-For");
      Usable(xff) ==>
        (GetClientIP(req).None? <==> forall k :: 0 <= k < |xff.value| ==> xff.value[k] == ',')
        && (GetClientIP(req).Some? ==>
              ',' !in GetClientIP(req).value && GetClientIP(req).value == Trim(TakeUntil(xff.value, ',')))
    ensures !Usable(req.Header("X-Forwarded-For")) ==> GetClientIP(req).Some?
    ensures (forall h :: h in ["X-Forwarded-For", "X-Real-IP", "X-Forwarded", "Forwarded"] ==> !Usable(req.Header(h))) ==>
      GetClientIP(req) == Some(req.remoteAddr)
  {
    var xff := req.Header("X-Forwarded-For");
    if Usable(xff) {
      SplitHeadSpec(xff.value, ',');
    }
  }

  const BotKeywords: seq<string> := ["bot", "crawler", "spider", "scraper", "curl", "wget"]

  // isBot: null is no bot; otherwise the lower-cased agent is searched
  // for each keyword.
  predicate IsBot(userAgent: Option<string>)
  {
    userAgent.Some? && SecurityUtil.AnyContained(ToLower(userAgent.value), BotKeywords)
  }

  // A bot exactly when some keyword occurs in the lower-cased agent.
  lemma IsBotSpec(s: string)
    ensures IsBot(Some(s)) <==> exists j, k :: 0 <= j < |BotKeywords| && OccursAt(ToLower(s), BotKeywords[j], k)
    ensures !IsBot(None)
  {
    SecurityUtil.AnyContainedSpec(ToLower(s), BotKeywords);
  }

  // ---- doFilter ----------------------------------------------------------------

  datatype FilterReply =
    | Continue                 // chain.doFilter
    | Unauthorized             // 401 with the JSON body naming /admin/login
    | RedirectTo(url: string)

  function PathOf(req: Request): (path: string)
    requires WellFormed(req)
    ensures req.contextPath + path == req.requestUri
  {
    req.requestUri[|req.contextPath|..]
  }

  // The URL stored for the redirect after login.
  function FullRequestedUrl(req: Request): (url: string)
  {
    if req.queryString.Some? then req.requestUrl + "?" + req.queryString.value else req.requestUrl
  }

  // The reply doFilter gives for a request, from the session as it was.
  // A failing getClientIP is the exception the catch block turns into
  // the system-error redirect.
  function Decide(req: Request, v: Option<SessionView>, now: int): (reply: FilterReply)
    requires WellFormed(req)
  {
    if ShouldExcludeFromAuth(PathOf(req)) then Continue
    else if ValidAdminSession(v, now) then Continue
    else if GetClientIP(req).None? then RedirectTo(RedirectToLogin(req.contextPath, Some(SystemErrorMessage)))
    else if IsAjaxRequest(req) then Unauthorized
    else RedirectTo(RedirectToLogin(req.contextPath, Some(LoginRequiredMessage)))
  }

  // A protected path is served only within a logged-in admin session that
  // was active within its timeout and is at most 8 hours old; anything
  // else gets the 401 or a redirect to the login page.
  lemma ProtectedNeedsLogin(req: Request, v: Option<SessionView>, now: int)
    requires WellFormed(req) && !ShouldExcludeFromAuth(PathOf(req))
    ensures Decide(req, v, now) == Continue ==>
      v.Some? && v.value.adminUser.Some? && v.value.isAdminLoggedIn == Some(true)
      && v.value.adminLastActivity.Some? && v.value.adminLoginTime.Some?
      && now - v.value.adminLastActivity.value <= TimeoutMinutes(v.value.maxInactiveInterval) * MinuteSeconds
      && now - v.value.adminLoginTime.value <= 8 * HourSeconds
    ensures Decide(req, v, now) != Continue ==>
      Decide(req, v, now) == Unauthorized
      || Decide(req, v, now) == RedirectTo(req.contextPath + "/admin/login" + "?message=system_error")
      || Decide(req, v, now) == RedirectTo(req.contextPath + "/admin/login" + "?message=login_required")
  {
    RedirectMessages();
    if Decide(req, v, now) == Continue {
      assert ValidAdminSession(v, now);
      UnexpiredBounds(v.value.adminLastActivity, v.value.adminLoginTime, v.value.maxInactiveInterval, now);
    }
  }

  // doFilter. The session is the one getSession(false) returns; a new one
  // comes from the container with the default interval. current is the
  // live session after the request, if any; reloading the login page or
  // a static file changes nothing.
  method DoFilter(req: Request, session: Session?, now: int, defaultInterval: int)
    returns (reply: FilterReply, current: Session?)
    requires WellFormed(req)
    requires session != null ==> session.live
    modifies session
    ensures reply == Decide(req, if session == null then None else Some(old(session.View())), now)
    ensures ShouldExcludeFromAuth(PathOf(req)) ==> current == session && (session != null ==> unchanged(session))
    ensures !ShouldExcludeFromAuth(PathOf(req)) && ValidAdminSession(if session == null then None else Some(old(session.View())), now) ==>
      current == session && session.live && session.adminLastActivity == Some(now)
      && session.adminUser == old(session.adminUser) && session.adminLoginTime == old(session.adminLoginTime)
      && session.isAdminLoggedIn == old(session.isAdminLoggedIn) && session.csrfToken == old(session.csrfToken)
    ensures session != null && !ShouldExcludeFromAuth(PathOf(req)) ==>
      (session.live <==> !ExpiredLogin(old(session.View()), now))
    ensures reply == RedirectTo(RedirectToLogin(req.contextPath, Some(LoginRequiredMessage))) ==>
      current != null && current.live && current.requestedAdminUrl == Some(FullRequestedUrl(req))
      && (current != session ==> fresh(current) && current.adminUser.None?)
    ensures session != null && !ShouldExcludeFromAuth(PathOf(req)) && !ValidAdminSession(Some(old(session.View())), now) ==>
      session.View() == old(session.View()) && session.csrfToken == old(session.csrfToken)
      && (reply != RedirectTo(RedirectToLogin(req.contextPath, Some(LoginRequiredMessage))) || current != session ==>
            session.requestedAdminUrl == old(session.requestedAdminUrl))
    ensures !ShouldExcludeFromAuth(PathOf(req)) && reply != Continue && reply != RedirectTo(RedirectToLogin(req.contextPath, Some(LoginRequiredMessage))) ==>
      current == (if session != null && session.live then session else null)
  {
    var path := PathOf(req);
    if ShouldExcludeFromAuth(path) {
      return Continue, session;
    }
    var ok := IsValidAdminSession(session, now);
    if ok {
      session.adminLastActivity := Some(now);
      return Continue, session;
    }
    // handleUnauthorizedAccess
    assert !Contains(path, "/login");
    RedirectMessages();
    var ip := GetClientIP(req);
    if ip.None? {
      assert |RedirectToLogin(req.contextPath, Some(SystemErrorMessage))|
        != |RedirectToLogin(req.contextPath, Some(LoginRequiredMessage))|;
      current := if session != null && session.live then session else null;
      return RedirectTo(RedirectToLogin(req.contextPath, Some(SystemErrorMessage))), current;
    }
    var ajax := IsAjaxRequest(req);
    if !Contains(path, "/login") && !ajax {
      current := GetSession(session, defaultInterval);
      current.requestedAdminUrl := Some(FullRequestedUrl(req));
    } else {
      current := if session != null && session.live then session else null;
    }
    if ajax {
      reply := Unauthorized;
    } else {
      reply := RedirectTo(RedirectToLogin(req.contextPath, Some(LoginRequiredMessage)));
    }
  }
}
