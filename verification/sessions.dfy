/**
 * How the auth handlers and the route guard work together in one browser: which cookie each
 * handler writes, which one the others read, and what a user can and cannot do as a result.
 * The cookie-name mismatch (login writes `session`; check and logout use `auth-token`) is
 * modelled as it stands.
 */
module Sessions {
  import opened Options
  import opened Http
  import opened Users
  import opened AuthUtils
  import Text
  import Middleware
  import LoginRoute
  import SignupRoute
  import CheckRoute
  import LogoutRoute

  /** A successful login leaves a `session` cookie in the browser, so the guard lets the
      dashboard through and turns the login and signup pages away. */
  lemma LoginOpensDashboard(c: LoginRoute.Credentials, st: Store, o: Oracles, production: bool,
                            jar: Jar, now: int)
    requires LoginRoute.Post(Some(c), st, o, production, false).status == 200
    ensures var after := ReceiveAll(jar, LoginRoute.Post(Some(c), st, o, production, false).cookies, now);
      && Middleware.HasSession(after)
      && Middleware.Route(after, "/dashboard") == Middleware.Next
      && Middleware.Route(after, "/login") == Middleware.Redirect("/dashboard")
      && Middleware.Route(after, "/signup") == Middleware.Redirect("/dashboard")
  {
    var cs := LoginRoute.Post(Some(c), st, o, production, false).cookies;
    LoginSetsSessionCookie(c, st, o, production, now);
    assert ReceiveAll(jar, cs, now) == Receive(jar, cs[0], now);
    LoggedInGuard(Receive(jar, cs[0], now));
  }

  /** The one cookie a successful login sets is `session`. It carries neither Expires nor
      Max-Age, so it is a non-persistent cookie: receiving it never expires it, whatever the
      clock says. */
  lemma LoginSetsSessionCookie(c: LoginRoute.Credentials, st: Store, o: Oracles, production: bool, now: int)
    requires LoginRoute.Post(Some(c), st, o, production, false).status == 200
    ensures var cs := LoginRoute.Post(Some(c), st, o, production, false).cookies;
      && |cs| == 1 && cs[0].name == SessionCookie
      && cs[0].options.expires.None? && cs[0].options.maxAge.None?
      && !Expired(cs[0], now)
  {
  }

  /** What the guard does for a browser holding a session cookie. */
  lemma LoggedInGuard(jar: Jar)
    requires Middleware.HasSession(jar)
    ensures Middleware.Route(jar, "/dashboard") == Middleware.Next
    ensures Middleware.Route(jar, "/login") == Middleware.Redirect("/dashboard")
    ensures Middleware.Route(jar, "/signup") == Middleware.Redirect("/dashboard")
  {
    Middleware.PrefixChar("/dashboard", "/login", 1);
    Middleware.PrefixChar("/dashboard", "/signup", 1);
  }

  /** Logout does not remove the `session` cookie, so the guard's decision on every path is
      the same before and after it: a logged-in browser stays logged in. */
  lemma LogoutKeepsGuardDecision(jar: Jar, now: int, path: string)
    requires now >= 0
    ensures var after := ReceiveAll(jar, LogoutRoute.Post().cookies, now);
      && Middleware.HasSession(after) == Middleware.HasSession(jar)
      && Middleware.Route(after, path) == Middleware.Route(jar, path)
  {
    LogoutRoute.PostClearsOnlyAuthToken(jar, now);
    var after := ReceiveAll(jar, LogoutRoute.Post().cookies, now);
    Middleware.OnlyPresenceMatters(after, jar, path);
  }

  /** Signing up sets no cookie: the browser's cookies are exactly as before. */
  lemma SignupLeavesJar(body: Option<SignupRoute.Registration>, st: Store, o: Oracles,
                        findError: bool, createError: bool, jar: Jar, now: int)
    ensures ReceiveAll(jar, SignupRoute.Post(body, st, o, findError, createError).0.cookies, now) == jar
  {
  }

  /** The token login hands out, sent back under the name login gave it, is never accepted
      by the check endpoint. This holds for a token without `;`, as every JWT is. */
  lemma LoginTokenUnreadByCheck(c: LoginRoute.Credentials, st: Store, o: Oracles, production: bool,
                                st2: Store, dbError: bool)
    requires LoginRoute.Post(Some(c), st, o, production, false).status == 200
    requires Text.Lacks(LoginRoute.Post(Some(c), st, o, production, false).cookies[0].value, ';')
    ensures var token := LoginRoute.Post(Some(c), st, o, production, false).cookies[0].value;
      CheckRoute.Get(Some(SessionCookie + "=" + token), st2, o, dbError) == CheckRoute.UserNull
  {
    var token := LoginRoute.Post(Some(c), st, o, production, false).cookies[0].value;
    CheckRoute.SessionCookieNotRead(token, st2, o, dbError);
  }

  /** Right after signing up, logging in with the same email and password succeeds exactly
      when the password checks out against its own digest. */
  lemma SignupThenLogin(reg: SignupRoute.Registration, st: Store, o: Oracles, production: bool)
    requires Valid(st)
    requires SignupRoute.Post(Some(reg), st, o, false, false).0.status == 201
    ensures var st' := SignupRoute.Post(Some(reg), st, o, false, false).1;
      LoginRoute.Post(Some(LoginRoute.Credentials(reg.email, reg.password)), st', o, production, false).status == 200
      <==> o.verifyPassword(reg.password, o.hashPassword(reg.password))
  {
    var st' := SignupRoute.Post(Some(reg), st, o, false, false).1;
    SignupRoute.PostKeepsStoreValid(Some(reg), st, o, false, false);
    CreateSpec(st, reg.email, o.hashPassword(reg.password), reg.name);
  }
}
