/**
 * The route guard: before a matched page renders, it looks for a cookie named `session` and
 * either lets the request through or redirects it. Redirect targets are same-origin paths.
 */
module Middleware {
  import opened Http
  import opened Text

  const LoginPage := "/login"
  const SignupPage := "/signup"
  const Dashboard := "/dashboard"

  datatype Outcome = Next | Redirect(location: string)

  /** The guard sees only whether a `session` cookie exists: any value, the empty string
      included, counts. */
  predicate HasSession(jar: Jar) {
    SessionCookie in jar
  }

  /** `middleware(request)` for a request to `path` carrying the cookies in `jar`. */
  function Guard(jar: Jar, path: string): (r: Outcome)
    ensures r == Redirect(LoginPage) <==> !HasSession(jar) && StartsWith(path, Dashboard)
    ensures r == Redirect(Dashboard) <==>
      HasSession(jar) && (StartsWith(path, LoginPage) || StartsWith(path, SignupPage))
    ensures r.Redirect? ==> r.location in {LoginPage, Dashboard}
  {
    if !HasSession(jar) && StartsWith(path, Dashboard) then Redirect(LoginPage)
    else if HasSession(jar) && (StartsWith(path, LoginPage) || StartsWith(path, SignupPage)) then
      Redirect(Dashboard)
    else Next
  }

  /** `config.matcher`: `/dashboard/:path*` (the dashboard and everything under it), `/login`
      and `/signup`. */
  predicate Matched(path: string) {
    path == Dashboard || StartsWith(path, Dashboard + "/") || path == LoginPage || path == SignupPage
  }

  /** What a request meets: the guard on matched paths, nothing on the others. */
  function Route(jar: Jar, path: string): (r: Outcome)
    ensures !Matched(path) ==> r == Next
    ensures r == Redirect(LoginPage) <==>
      !HasSession(jar) && (path == Dashboard || StartsWith(path, Dashboard + "/"))
    ensures r == Redirect(Dashboard) <==> HasSession(jar) && (path == LoginPage || path == SignupPage)
    ensures r.Redirect? ==> r.location in {LoginPage, Dashboard}
  {
    if Matched(path) then
      MatcherNarrowsPrefixes(jar, path);
      Guard(jar, path)
    else Next
  }

  /** The guard never sends a request somewhere it would redirect again, with the same
      cookies: both redirect targets are let through. */
  lemma NoRedirectLoop(jar: Jar, path: string)
    ensures Guard(jar, path).Redirect? ==> Guard(jar, Guard(jar, path).location) == Next
    ensures Route(jar, path).Redirect? ==> Route(jar, Route(jar, path).location) == Next
  {
    PrefixChar(LoginPage, Dashboard, 1);
    PrefixChar(LoginPage, SignupPage, 1);
    PrefixChar(Dashboard, LoginPage, 1);
    PrefixChar(Dashboard, SignupPage, 1);
  }

  /** Only the presence of a `session` cookie matters, never its value or other cookies. */
  lemma OnlyPresenceMatters(jar1: Jar, jar2: Jar, path: string)
    requires HasSession(jar1) == HasSession(jar2)
    ensures Guard(jar1, path) == Guard(jar2, path)
    ensures Route(jar1, path) == Route(jar2, path)
  {
  }

  /** On the paths the matcher admits, the guard's prefix tests coincide with exact page
      tests; elsewhere prefix matching is wider than the matcher (`/login/x`, `/dashboardx`). */
  lemma MatcherNarrowsPrefixes(jar: Jar, path: string)
    requires Matched(path)
    ensures StartsWith(path, LoginPage) <==> path == LoginPage
    ensures StartsWith(path, SignupPage) <==> path == SignupPage
    ensures StartsWith(path, Dashboard) <==> path == Dashboard || StartsWith(path, Dashboard + "/")
  {
    // The four admitted shapes differ in their second character.
    PrefixChar(path, LoginPage, 1);
    PrefixChar(path, SignupPage, 1);
    PrefixChar(path, Dashboard, 1);
    PrefixChar(path, Dashboard + "/", 1);
    if StartsWith(path, Dashboard + "/") {
      assert path[..|Dashboard|] == (Dashboard + "/")[..|Dashboard|];
    }
  }

  /** A string starting with `p` agrees with `p` at each index of `p`. */
  lemma PrefixChar(s: string, p: string, i: nat)
    requires i < |p|
    ensures StartsWith(s, p) ==> s[i] == p[i]
  {
    if StartsWith(s, p) {
      assert s[..|p|][i] == p[i];
    }
  }

  /** Prefix matching on its own treats `/login/x` as a login page and `/dashboardx` as
      protected; the matcher keeps both away from the guard. */
  lemma PrefixWiderThanMatcher(jar: Jar)
    ensures HasSession(jar) ==> Guard(jar, "/login/x") == Redirect(Dashboard)
    ensures !HasSession(jar) ==> Guard(jar, "/dashboardx") == Redirect(LoginPage)
    ensures Route(jar, "/login/x") == Next && Route(jar, "/dashboardx") == Next
  {
    assert StartsWith("/login/x", LoginPage);
    assert StartsWith("/dashboardx", Dashboard);
    PrefixChar("/dashboardx", Dashboard + "/", 10);
    PrefixChar("/login/x", Dashboard + "/", 1);
  }
}
