/**
 * `POST /api/auth/login`: looks the user up by email, checks the password against the stored
 * digest and, on success, answers with the user's public fields and a `session` cookie holding
 * a fresh token.
 */
module LoginRoute {
  import opened Options
  import opened Http
  import opened Users
  import opened AuthUtils

  /** The `{ email, password }` request body. */
  datatype Credentials = Credentials(email: string, password: string)

  /** The attributes of the session cookie; `Secure` only in production. */
  function SessionOptions(production: bool): (o: CookieOptions)
    ensures o.httpOnly && o.sameSite == Some(Lax) && o.path == Some("/")
    ensures o.secure <==> production
    ensures o.expires.None? && o.maxAge.None?
  {
    CookieOptions(true, production, Some(Lax), Some("/"), None, None)
  }

  /** The one answer for both an unknown email and a wrong password. */
  const InvalidCredentials := Response(401, ErrorBody("Invalid credentials"), [])

  /** The public part of a user, in the order the handler writes it. */
  function PublicUser(u: User): (j: Json)
    ensures Keys(j) == ["id", "name", "email"]
    ensures Member(j, "id") == Some(JNum(u.id))
    ensures Member(j, "name") == Some(JStr(u.name))
    ensures Member(j, "email") == Some(JStr(u.email))
  {
    var fs := [("id", JNum(u.id)), ("name", JStr(u.name)), ("email", JStr(u.email))];
    LookupDistinct(fs);
    assert fs[1].0 == "name" && fs[2].0 == "email";
    JObj(fs)
  }

  /** The handler. `body` is `None` when `request.json()` throws; `dbError` makes the user
      lookup throw. Both end in the catch-all 500. */
  function Post(body: Option<Credentials>, st: Store, o: Oracles, production: bool, dbError: bool)
    : (r: Response)
    ensures r.status == 500 <==> body.None? || dbError
    ensures r.status == 500 ==> r == Response(500, ErrorBody("Login failed"), [])
    ensures r.status == 200 ==> body.Some? && !dbError && Accepted(st, o, body.value)
    ensures r.status !in {200, 500} ==> r == InvalidCredentials
    ensures r.status == 200 ==> exists u | u in st.rows ::
      && u.email == body.value.email
      && r.body == JObj([("user", PublicUser(u))])
      && r.cookies == [SetCookie(SessionCookie, o.generateToken(u.id), SessionOptions(production))]
  {
    if body.None? || dbError then Response(500, ErrorBody("Login failed"), [])
    else
      var c := body.value;
      match FindByEmail(st.rows, c.email)
      case None => InvalidCredentials
      case Some(u) =>
        if !o.verifyPassword(c.password, u.password) then InvalidCredentials
        else
          var token := o.generateToken(u.id);
          Response(200, JObj([("user", PublicUser(u))]),
                   [SetCookie(SessionCookie, token, SessionOptions(production))])
  }

  /** The credentials match a user: one with that email exists and the password checks out
      against its digest. In a valid store there is at most one candidate. */
  predicate Accepted(st: Store, o: Oracles, c: Credentials) {
    exists u | u in st.rows :: u.email == c.email && o.verifyPassword(c.password, u.password)
  }

  /** With emails unique, login succeeds exactly for accepted credentials. */
  lemma SucceedsIffAccepted(body: Credentials, st: Store, o: Oracles, production: bool)
    requires Valid(st)
    ensures Post(Some(body), st, o, production, false).status == 200 <==> Accepted(st, o, body)
  {
    if Accepted(st, o, body) {
      var u :| u in st.rows && u.email == body.email && o.verifyPassword(body.password, u.password);
      FindUnique(st, u);
    }
  }

  /** Every rejected login gets the same answer, so a caller cannot tell an unknown email
      from a wrong password; no cookie is set either way. */
  lemma RejectionsIndistinguishable(c1: Credentials, c2: Credentials, st: Store, o: Oracles, production: bool)
    requires !Accepted(st, o, c1) && !Accepted(st, o, c2)
    ensures Post(Some(c1), st, o, production, false) == InvalidCredentials
    ensures Post(Some(c1), st, o, production, false) == Post(Some(c2), st, o, production, false)
  {
  }
}
