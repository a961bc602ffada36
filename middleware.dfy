/** The route guard of `middleware.ts`: from the request path and the
    `auth-token` cookie it decides between a redirect to `/login`, a
    redirect to `/dashboard`, and letting the request through.

    Verifying the JSON Web Token is a call into a library; it is the
    parameter `verify`, which says for each token whether it is accepted
    and, if so, whether its `isSuperAdmin` claim is truthy. */
module Middleware {
  import opened Wrappers
  import opened Text

  /** What `jwt.verify` makes of a token: it throws, or it returns a payload
      whose `isSuperAdmin` claim is truthy or not. */
  datatype TokenCheck = Rejected | Verified(superAdminClaim: bool)

  /** The two flags the guard computes. */
  datatype Auth = Auth(isAuthenticated: bool, isSuperAdmin: bool)

  datatype Decision = RedirectToLogin | RedirectToDashboard | Next

  /** `req.cookies.get("auth-token")?.value || null`: a missing cookie and an
      empty value both give no token. */
  function TokenOf(cookie: Option<string>): (r: Option<string>)
    ensures r.Some? <==> cookie.Some? && cookie.value != ""
    ensures r.Some? ==> r == cookie
  {
    if cookie.Some? && cookie.value != "" then cookie else None
  }

  /** Lines 11-23: both flags start false; a token that verifies makes the
      user authenticated and a super admin when the claim is truthy; a token
      that does not verify leaves both false. */
  function Authenticate(token: Option<string>, verify: string -> TokenCheck): (a: Auth)
    ensures a.isAuthenticated <==> token.Some? && verify(token.value).Verified?
    ensures a.isSuperAdmin <==> token.Some? && verify(token.value) == Verified(true)
    ensures a.isSuperAdmin ==> a.isAuthenticated
  {
    if token.None? then Auth(false, false)
    else match verify(token.value)
      case Verified(claim) => Auth(true, claim)
      case Rejected => Auth(false, false)
  }

  const ProtectedPaths: seq<string> := ["/dashboard", "/admin"]
  const AdminPaths: seq<string> := ["/admin"]

  /** `prefixes.some((p) => pathname.startsWith(p))`. */
  function SomePrefix(path: string, prefixes: seq<string>): (r: bool)
    ensures r <==> exists p :: p in prefixes && StartsWith(path, p)
  {
    if prefixes == [] then false
    else StartsWith(path, prefixes[0]) || SomePrefix(path, prefixes[1..])
  }

  predicate IsProtected(path: string) {
    SomePrefix(path, ProtectedPaths)
  }

  predicate IsAdminPath(path: string) {
    SomePrefix(path, AdminPaths)
  }

  /** A path is protected exactly when it starts with "/dashboard" or
      "/admin", and an admin path exactly when it starts with "/admin". These
      are prefix tests: "/administrator" is an admin path too. */
  lemma PathClasses(path: string)
    ensures IsProtected(path) <==> StartsWith(path, "/dashboard") || StartsWith(path, "/admin")
    ensures IsAdminPath(path) <==> StartsWith(path, "/admin")
  {
    assert ProtectedPaths[0] == "/dashboard" && ProtectedPaths[1] == "/admin";
    assert AdminPaths[0] == "/admin";
  }

  /** Every admin path is protected. */
  lemma AdminIsProtected(path: string)
    ensures IsAdminPath(path) ==> IsProtected(path)
  {
    PathClasses(path);
  }

  /** Lines 36-53: the three redirect rules, tried in order. */
  function Decide(path: string, a: Auth): Decision {
    if IsProtected(path) && !a.isAuthenticated then RedirectToLogin
    else if path == "/login" && a.isAuthenticated then RedirectToDashboard
    else if IsAdminPath(path) && a.isAuthenticated && !a.isSuperAdmin then RedirectToDashboard
    else Next
  }

  /** `middleware(req)` for a request to `path` carrying `cookie`. */
  function Guard(path: string, cookie: Option<string>, verify: string -> TokenCheck): Decision {
    Decide(path, Authenticate(TokenOf(cookie), verify))
  }

  /** Only a verified user gets through to a protected path, and only a
      verified super admin to an admin path. */
  lemma GuardProtects(path: string, cookie: Option<string>, verify: string -> TokenCheck)
    requires Guard(path, cookie, verify) == Next
    ensures IsProtected(path) ==>
              cookie.Some? && cookie.value != "" && verify(cookie.value).Verified?
    ensures IsAdminPath(path) ==>
              cookie.Some? && cookie.value != "" && verify(cookie.value) == Verified(true)
  {
    AdminIsProtected(path);
  }

  /** Without a usable token: a protected path (an admin one included) goes
      to the login page, and every other path passes. */
  lemma NoTokenGuard(path: string, cookie: Option<string>, verify: string -> TokenCheck)
    requires cookie.None? || cookie.value == ""
    ensures Guard(path, cookie, verify) == if IsProtected(path) then RedirectToLogin else Next
  {
  }

  /** A token that does not verify counts as no token at all. */
  lemma RejectedTokenIsNoToken(path: string, cookie: Option<string>, verify: string -> TokenCheck)
    requires cookie.Some? && verify(cookie.value) == Rejected
    ensures Guard(path, cookie, verify) == Guard(path, None, verify)
  {
  }

  /** A verified user who asks for the login page is sent to the dashboard;
      a verified super admin passes on every other path. */
  lemma VerifiedUserGuard(path: string, a: Auth)
    requires a.isAuthenticated
    ensures path == "/login" ==> Decide(path, a) == RedirectToDashboard
    ensures a.isSuperAdmin && path != "/login" ==> Decide(path, a) == Next
    ensures !a.isSuperAdmin && path != "/login" ==>
              Decide(path, a) == if IsAdminPath(path) then RedirectToDashboard else Next
  {
  }

  /** The page a redirect leads to. */
  function Target(d: Decision): (r: Option<string>)
    ensures r.None? <==> d == Next
  {
    match d
    case RedirectToLogin => Some("/login")
    case RedirectToDashboard => Some("/dashboard")
    case Next => None
  }

  /** Redirects do not chain: with the same credentials, the page a redirect
      leads to is let through. */
  lemma RedirectSettles(path: string, a: Auth)
    requires Decide(path, a) != Next
    ensures Decide(Target(Decide(path, a)).value, a) == Next
  {
    PathClasses("/login");
    PathClasses("/dashboard");
    assert !StartsWith("/login", "/dashboard") && !StartsWith("/login", "/admin") by {
      assert "/login"[1] != "/dashboard"[1] && "/login"[1] != "/admin"[1];
    }
    assert !StartsWith("/dashboard", "/admin") by {
      assert "/dashboard"[1] != "/admin"[1];
    }
  }
}
