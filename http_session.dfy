// The servlet API as the two filters see it: a request (its headers and
// parameters as maps) and an HttpSession whose attributes they read and
// set. Attribute values carry the types the filters cast them to.
module HttpSession {
  import opened Wrappers
  import opened JavaText

  type Headers = map<string, string>

  datatype Request = Request(
    httpMethod: string,
    requestUri: string,
    contextPath: string,
    requestUrl: string,
    queryString: Option<string>,
    headers: Headers,
    parameters: map<string, string>,
    remoteAddr: string)
  {
    // getHeader: null for a header the request does not carry.
    function Header(name: string): (r: Option<string>)
      ensures r.Some? <==> name in headers
    {
      if name in headers then Some(headers[name]) else None
    }

    // getParameter
    function Parameter(name: string): (r: Option<string>)
      ensures r.Some? <==> name in parameters
    {
      if name in parameters then Some(parameters[name]) else None
    }
  }

  // The container's request URI always starts with the context path.
  predicate WellFormed(req: Request)
  {
    StartsWith(req.requestUri, req.contextPath)
  }

  // The attributes the filters use, as one value.
  datatype SessionView = SessionView(
    adminUser: Option<string>,
    isAdminLoggedIn: Option<bool>,
    adminLastActivity: Option<int>,
    adminLoginTime: Option<int>,
    maxInactiveInterval: int)

  // An HttpSession. adminUser holds the logged-in Admin (by user name);
  // times are seconds on the server's clock; getMaxInactiveInterval is in
  // seconds. An invalidated session is no longer live.
  class Session {
    var live: bool
    var maxInactiveInterval: int
    var adminUser: Option<string>
    var isAdminLoggedIn: Option<bool>
    var adminLastActivity: Option<int>
    var adminLoginTime: Option<int>
    var requestedAdminUrl: Option<string>
    var csrfToken: Option<string>

    // A new session, with the container's default interval and no attributes.
    constructor (interval: int)
      ensures live && maxInactiveInterval == interval
      ensures adminUser.None? && isAdminLoggedIn.None? && adminLastActivity.None? && adminLoginTime.None?
      ensures requestedAdminUrl.None? && csrfToken.None?
    {
      live := true;
      maxInactiveInterval := interval;
      adminUser := None;
      isAdminLoggedIn := None;
      adminLastActivity := None;
      adminLoginTime := None;
      requestedAdminUrl := None;
      csrfToken := None;
    }

    function View(): (v: SessionView)
      reads this
      ensures v.adminUser == adminUser && v.isAdminLoggedIn == isAdminLoggedIn
      ensures v.adminLastActivity == adminLastActivity && v.adminLoginTime == adminLoginTime
      ensures v.maxInactiveInterval == maxInactiveInterval
    {
      SessionView(adminUser, isAdminLoggedIn, adminLastActivity, adminLoginTime, maxInactiveInterval)
    }

    // session.invalidate()
    method Invalidate()
      modifies this
      ensures !live
      ensures maxInactiveInterval == old(maxInactiveInterval) && adminUser == old(adminUser)
      ensures isAdminLoggedIn == old(isAdminLoggedIn) && adminLastActivity == old(adminLastActivity)
      ensures adminLoginTime == old(adminLoginTime) && requestedAdminUrl == old(requestedAdminUrl)
      ensures csrfToken == old(csrfToken)
    {
      live := false;
    }
  }

  // request.getSession(true): the live session, or a new one.
  method GetSession(current: Session?, interval: int) returns (s: Session)
    ensures current != null && current.live ==> s == current
    ensures !(current != null && current.live) ==>
      fresh(s) && s.live && s.maxInactiveInterval == interval
      && s.adminUser.None? && s.isAdminLoggedIn.None? && s.adminLastActivity.None? && s.adminLoginTime.None?
      && s.requestedAdminUrl.None? && s.csrfToken.None?
  {
    if current != null && current.live {
      s := current;
    } else {
      s := new Session(interval);
    }
  }
}
