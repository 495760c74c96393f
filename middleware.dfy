/** The route guard of src/middleware.ts: a stateless decision, per request,
    from the path, the `authToken` cookie and the `authorization` header to
    a redirect or a pass-through. */
module Middleware {
  import opened Wrappers
  import opened Strings

  /** Paths that need a token (src/middleware.ts:5). */
  const ProtectedRoutes: seq<string> := ["/dashboard", "/profile", "/settings"]
  /** Paths a signed-in visitor is sent away from (src/middleware.ts:7). */
  const AuthRoutes: seq<string> := ["/sign-in", "/sign-up"]

  const SignInPath := "/sign-in"
  const DashboardPath := "/dashboard"
  const BearerPrefix := "Bearer "

  /** What the guard reads of a request: the path, the value of the
      `authToken` cookie, and the `authorization` header, each possibly absent. */
  datatype Request = Request(pathname: string, cookieToken: Option<string>, authorization: Option<string>)

  /** A redirect to `location` (with the `redirect` query parameter when
      present), or the request passed on, with the `authorization` header
      the guard sets on the response when it sets one. */
  datatype Response =
    | Redirect(location: string, redirectParam: Option<string>)
    | Next(authorization: Option<string>)

  /** `routes.some(route => pathname.startsWith(route))`. */
  function SomePrefix(routes: seq<string>, pathname: string): bool {
    routes != [] && (routes[0] <= pathname || SomePrefix(routes[1..], pathname))
  }

  lemma {:induction false} SomePrefixIff(routes: seq<string>, pathname: string)
    ensures SomePrefix(routes, pathname) <==> exists r :: r in routes && r <= pathname
  {
    if routes != [] {
      SomePrefixIff(routes[1..], pathname);
      if SomePrefix(routes, pathname) {
        if routes[0] <= pathname {
          assert routes[0] in routes;
        } else {
          var r :| r in routes[1..] && r <= pathname;
          assert r in routes;
        }
      } else {
        forall r | r in routes ensures !(r <= pathname) {
          assert r == routes[0] || r in routes[1..];
        }
      }
    }
  }

  /** A text that starts with one of the routes still does with more appended. */
  lemma {:induction false} SomePrefixExtend(routes: seq<string>, pathname: string, rest: string)
    ensures SomePrefix(routes, pathname) ==> SomePrefix(routes, pathname + rest)
  {
    if routes != [] {
      SomePrefixExtend(routes[1..], pathname, rest);
      if routes[0] <= pathname {
        assert (pathname + rest)[..|routes[0]|] == pathname[..|routes[0]|];
      }
    }
  }

  predicate IsProtectedRoute(pathname: string) {
    SomePrefix(ProtectedRoutes, pathname)
  }

  predicate IsAuthRoute(pathname: string) {
    SomePrefix(AuthRoutes, pathname)
  }

  /** `request.cookies.get('authToken')?.value ||
      request.headers.get('authorization')?.replace('Bearer ', '')`: no
      token only without cookie and header; a non-empty cookie wins;
      otherwise the header, whole or with one `Bearer ` taken out. */
  function Token(request: Request): (r: Option<string>)
    ensures r.None? <==> !Present(request.cookieToken) && request.authorization.None?
    ensures Present(request.cookieToken) ==> r == request.cookieToken
    ensures !Present(request.cookieToken) && request.authorization.Some? ==>
              r.value == request.authorization.value ||
              |r.value| + |BearerPrefix| == |request.authorization.value|
  {
    if Present(request.cookieToken) then request.cookieToken
    else
      match request.authorization
      case None => None
      case Some(header) => Some(ReplaceFirst(header, BearerPrefix, ""))
  }

  /** `middleware(request)` (src/middleware.ts:9-42). A protected page is
      reached only with a token, a path of neither class always passes
      untouched, and no redirect points back at the requested path. */
  function Middleware(request: Request): (r: Response)
    ensures IsProtectedRoute(request.pathname) ==> (r.Next? <==> Present(Token(request)))
    ensures !IsProtectedRoute(request.pathname) && !IsAuthRoute(request.pathname) ==> r == Next(None)
    ensures r.Redirect? ==> r.location != request.pathname
  {
    RoutesDisjoint(request.pathname);
    AuthRouteIff(SignInPath);
    ProtectedRouteIff(DashboardPath);
    var token := Token(request);
    var isProtectedRoute := IsProtectedRoute(request.pathname);
    var isAuthRoute := IsAuthRoute(request.pathname);
    if isProtectedRoute && !Present(token) then Redirect(SignInPath, Some(request.pathname))
    else if isAuthRoute && Present(token) then Redirect(DashboardPath, None)
    else if isProtectedRoute && Present(token) then Next(Some(BearerPrefix + token.value))
    else Next(None)
  }

  lemma ProtectedRouteIff(pathname: string)
    ensures IsProtectedRoute(pathname) <==>
              "/dashboard" <= pathname || "/profile" <= pathname || "/settings" <= pathname
  {
    var t := ProtectedRoutes;
    assert t[1..] == ["/profile", "/settings"];
    assert t[1..][1..] == ["/settings"];
    assert SomePrefix(t[1..][1..], pathname) == ("/settings" <= pathname);
    assert SomePrefix(t[1..], pathname) == ("/profile" <= pathname || "/settings" <= pathname);
  }

  lemma AuthRouteIff(pathname: string)
    ensures IsAuthRoute(pathname) <==> "/sign-in" <= pathname || "/sign-up" <= pathname
  {
    SomePrefixIff(AuthRoutes, pathname);
  }

  /** Two prefixes that differ at position `k` cannot both start one path. */
  lemma PrefixesClash(a: string, b: string, pathname: string, k: nat)
    requires k < |a| && k < |b| && a[k] != b[k]
    ensures a <= pathname ==> !(b <= pathname)
  {
    if a <= pathname {
      assert pathname[k] == a[k];
    }
  }

  /** No path is both protected and an auth route: every protected prefix
      and every auth prefix differ within their first three characters. */
  lemma RoutesDisjoint(pathname: string)
    ensures !(IsProtectedRoute(pathname) && IsAuthRoute(pathname))
  {
    ProtectedRouteIff(pathname);
    AuthRouteIff(pathname);
    PrefixesClash("/dashboard", "/sign-in", pathname, 1);
    PrefixesClash("/dashboard", "/sign-up", pathname, 1);
    PrefixesClash("/profile", "/sign-in", pathname, 1);
    PrefixesClash("/profile", "/sign-up", pathname, 1);
    PrefixesClash("/settings", "/sign-in", pathname, 2);
    PrefixesClash("/settings", "/sign-up", pathname, 2);
  }

  /** Classification is by prefix: whatever follows a protected or auth
      path keeps its class ("/dashboardX", "/sign-up/extra"). */
  lemma ClassByPrefix(pathname: string, rest: string)
    ensures IsProtectedRoute(pathname) ==> IsProtectedRoute(pathname + rest)
    ensures IsAuthRoute(pathname) ==> IsAuthRoute(pathname + rest)
  {
    SomePrefixExtend(ProtectedRoutes, pathname, rest);
    SomePrefixExtend(AuthRoutes, pathname, rest);
  }

  /** The four rules, each stated both ways. Because no path is both
      protected and an auth route, the rules never compete, so their order
      in the source does not matter. */
  lemma MiddlewareRules(request: Request)
    ensures var p, t := request.pathname, Token(request);
            Middleware(request) == Redirect(SignInPath, Some(p)) <==> IsProtectedRoute(p) && !Present(t)
    ensures var p, t := request.pathname, Token(request);
            Middleware(request) == Redirect(DashboardPath, None) <==> IsAuthRoute(p) && Present(t)
    ensures var p, t := request.pathname, Token(request);
            Middleware(request).Next? && Middleware(request).authorization.Some? <==> IsProtectedRoute(p) && Present(t)
    ensures var p, t := request.pathname, Token(request);
            IsProtectedRoute(p) && Present(t) ==> Middleware(request) == Next(Some(BearerPrefix + t.value))
    ensures var p, t := request.pathname, Token(request);
            Middleware(request) == Next(None) <==> !IsProtectedRoute(p) && !(IsAuthRoute(p) && Present(t))
  {
    RoutesDisjoint(request.pathname);
  }

  /** A path's class, as a static ordered table of prefixes would give it. */
  datatype RouteClass = Protected | AuthOnly | Public

  const RouteTable: seq<(string, RouteClass)> := [
    ("/dashboard", Protected), ("/profile", Protected), ("/settings", Protected),
    ("/sign-in", AuthOnly), ("/sign-up", AuthOnly)
  ]

  /** The class of the first table entry whose prefix the path starts with. */
  function Classify(table: seq<(string, RouteClass)>, pathname: string): RouteClass {
    if table == [] then Public
    else if table[0].0 <= pathname then table[0].1
    else Classify(table[1..], pathname)
  }

  /** The guard as a table lookup followed by one rule per class: redirect
      to sign-in without a token, away from auth pages with one, and pass
      protected requests on with the bearer header. */
  function GuardByClass(routeClass: RouteClass, pathname: string, token: Option<string>): Response {
    match routeClass
    case Protected =>
      if Present(token) then Next(Some(BearerPrefix + token.value)) else Redirect(SignInPath, Some(pathname))
    case AuthOnly =>
      if Present(token) then Redirect(DashboardPath, None) else Next(None)
    case Public => Next(None)
  }

  /** The table classifies exactly as the two route lists do. */
  lemma ClassifyRouteTable(pathname: string)
    ensures Classify(RouteTable, pathname) ==
              if IsProtectedRoute(pathname) then Protected
              else if IsAuthRoute(pathname) then AuthOnly
              else Public
  {
    ProtectedRouteIff(pathname);
    AuthRouteIff(pathname);
    RoutesDisjoint(pathname);
    var t := RouteTable;
    var t4 := [("/sign-up", AuthOnly)];
    var t3 := [("/sign-in", AuthOnly)] + t4;
    var t2 := [("/settings", Protected)] + t3;
    var t1 := [("/profile", Protected)] + t2;
    assert t[1..] == t1 && t1[1..] == t2 && t2[1..] == t3 && t3[1..] == t4 && t4[1..] == [];
    assert Classify(t4, pathname) == if "/sign-up" <= pathname then AuthOnly else Public;
    assert Classify(t3, pathname) == if "/sign-in" <= pathname then AuthOnly else Classify(t4, pathname);
    assert Classify(t2, pathname) == if "/settings" <= pathname then Protected else Classify(t3, pathname);
    assert Classify(t1, pathname) == if "/profile" <= pathname then Protected else Classify(t2, pathname);
  }

  /** The source's two independent prefix tests decide exactly as the
      first-match table does. */
  lemma MiddlewareByClass(request: Request)
    ensures Middleware(request) == GuardByClass(Classify(RouteTable, request.pathname), request.pathname, Token(request))
  {
    RoutesDisjoint(request.pathname);
    ClassifyRouteTable(request.pathname);
  }

  /** A redirect never leads into another one: following it with the same
      cookie and header, the guard lets the request through. */
  lemma NoRedirectLoop(request: Request)
    ensures var r := Middleware(request);
            r.Redirect? ==> Middleware(Request(r.location, request.cookieToken, request.authorization)).Next?
  {
    var r := Middleware(request);
    if r.Redirect? {
      RoutesDisjoint(r.location);
      AuthRouteIff(SignInPath);
      ProtectedRouteIff(DashboardPath);
      MiddlewareRules(request);
    }
  }

  /** Where the token comes from: a non-empty `authToken` cookie wins;
      otherwise the `authorization` header with its first "Bearer " taken
      out, so "Bearer t" gives t, a header without "Bearer " is used
      whole, and putting "Bearer " back where it first occurred rebuilds the
      header. */
  lemma TokenSource(request: Request)
    ensures Present(request.cookieToken) ==> Token(request) == request.cookieToken
    ensures !Present(request.cookieToken) && request.authorization.None? ==> Token(request).None?
    ensures !Present(request.cookieToken) && request.authorization.Some? && BearerPrefix <= request.authorization.value ==>
              Token(request) == Some(request.authorization.value[|BearerPrefix|..])
    ensures !Present(request.cookieToken) && request.authorization.Some? && IndexOf(request.authorization.value, BearerPrefix).None? ==>
              Token(request) == request.authorization
    ensures !Present(request.cookieToken) && request.authorization.Some? ==>
              forall i :: IndexOf(request.authorization.value, BearerPrefix) == Some(i) ==>
                request.authorization.value == Token(request).value[..i] + BearerPrefix + Token(request).value[i..]
  {
    if request.authorization.Some? {
      ReplaceFirstRemoves(request.authorization.value, BearerPrefix);
    }
  }

  /** A protected request that arrives with `authorization: Bearer t` and no
      cookie passes, and the response carries that same header. */
  lemma BearerHeaderOnResponse(pathname: string, cookieToken: Option<string>, t: string)
    requires IsProtectedRoute(pathname) && !Present(cookieToken) && t != ""
    ensures Middleware(Request(pathname, cookieToken, Some(BearerPrefix + t))) == Next(Some(BearerPrefix + t))
  {
    var request := Request(pathname, cookieToken, Some(BearerPrefix + t));
    TokenSource(request);
    assert (BearerPrefix + t)[|BearerPrefix|..] == t;
    RoutesDisjoint(pathname);
  }

  /** The root path is neither protected nor an auth route, so it passes
      whatever the token. */
  lemma RootPasses(cookieToken: Option<string>, authorization: Option<string>)
    ensures Middleware(Request("/", cookieToken, authorization)) == Next(None)
  {
    ProtectedRouteIff("/");
    AuthRouteIff("/");
  }

  /** The dashboard without a token goes to sign-in with the dashboard as
      `redirect`; sign-in with a token goes to the dashboard. */
  lemma RedirectExamples(cookieToken: Option<string>, authorization: Option<string>)
    ensures Middleware(Request("/dashboard", None, None)) == Redirect(SignInPath, Some("/dashboard"))
    ensures Present(cookieToken) ==>
              Middleware(Request("/sign-in", cookieToken, authorization)) == Redirect(DashboardPath, None)
  {
    ProtectedRouteIff("/dashboard");
    AuthRouteIff("/sign-in");
  }

  /** Matching is by prefix only: "/dashboardX" is protected and
      "/sign-up/extra" is an auth route. */
  lemma PrefixExamples()
    ensures IsProtectedRoute("/dashboardX") && IsAuthRoute("/sign-up/extra")
  {
    ProtectedRouteIff("/dashboard");
    AuthRouteIff("/sign-up");
    ClassByPrefix("/dashboard", "X");
    ClassByPrefix("/sign-up", "/extra");
    assert "/dashboard" + "X" == "/dashboardX";
    assert "/sign-up" + "/extra" == "/sign-up/extra";
  }
}
