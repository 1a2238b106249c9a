/**
 * `POST /api/auth/logout`: always succeeds and tells the browser to drop the `auth-token`
 * cookie by giving it an expiry at the epoch. It does not touch the `session` cookie that
 * login sets and the route guard reads.
 */
module LogoutRoute {
  import opened Options
  import opened Http

  /** `httpOnly` and `expires: new Date(0)`, nothing else. */
  const ClearOptions := CookieOptions(true, false, None, None, Some(0), None)

  /** The handler; it reads nothing from the request. */
  function Post(): (r: Response)
    ensures r.status == 200 && r.body == JObj([("message", JStr("Logged out successfully"))])
    ensures CookieNames(r) == {AuthCookie} && |r.cookies| == 1
    ensures forall c | c in r.cookies :: c.value == "" && c.options.httpOnly && c.options.expires == Some(0)
    ensures forall c | c in r.cookies ::
      !c.options.secure && c.options.sameSite.None? && c.options.path.None? && c.options.maxAge.None?
    ensures SessionCookie !in CookieNames(r)
  {
    Response(200, JObj([("message", JStr("Logged out successfully"))]), [SetCookie(AuthCookie, "", ClearOptions)])
  }

  /** In a browser whose clock is past the epoch, the response removes `auth-token` and keeps
      every other cookie; a second logout changes nothing more. */
  lemma PostClearsOnlyAuthToken(jar: Jar, now: int)
    requires now >= 0
    ensures var after := ReceiveAll(jar, Post().cookies, now);
      && AuthCookie !in after
      && (forall n | n != AuthCookie :: (n in after <==> n in jar))
      && (forall n | n in jar && n != AuthCookie :: after[n] == jar[n])
      && ReceiveAll(after, Post().cookies, now) == after
  {
    var cs := Post().cookies;
    assert cs[1..] == [];
    assert Expired(cs[0], now);
    var after := ReceiveAll(jar, cs, now);
    assert after == jar - {AuthCookie};
    assert ReceiveAll(after, cs, now) == after - {AuthCookie};
  }
}
