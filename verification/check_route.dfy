/**
 * `GET /api/auth/check`: reads the `auth-token` cookie out of the raw `Cookie` header, verifies
 * it and answers with the user it names. Login sets a cookie called `session`, not
 * `auth-token`, so the session cookie a login creates is never what this handler reads.
 */
module CheckRoute {
  import opened Options
  import opened Text
  import opened Http
  import opened Users
  import opened AuthUtils

  const AuthPrefix := AuthCookie + "="

  const UserNull := Response(401, JObj([("user", JNull)]), [])
  const NotAuthenticated := Response(401, JObj([("authenticated", JBool(false))]), [])

  /** `.find(row => row.startsWith('auth-token='))` over the header's segments. */
  function FindAuthSegment(segments: seq<string>): (r: Option<string>)
    ensures r.Some? ==> r.value in segments && StartsWith(r.value, AuthPrefix)
    ensures r.None? <==> forall seg | seg in segments :: !StartsWith(seg, AuthPrefix)
    ensures r.Some? ==> exists i | 0 <= i < |segments| ::
      segments[i] == r.value && forall j | 0 <= j < i :: !StartsWith(segments[j], AuthPrefix)
    decreases |segments|
  {
    if segments == [] then None
    else if StartsWith(segments[0], AuthPrefix) then Some(segments[0])
    else FindAuthSegment(segments[1..])
  }

  /** `segment.split('=')[1]` for a segment known to start with `auth-token=`. */
  function TokenOf(segment: string): string
    requires StartsWith(segment, AuthPrefix)
  {
    assert OccursAt(segment, "=", |AuthCookie|);
    SplitSingle(segment, "=");
    Split(segment, "=")[1]
  }

  /** The token is what follows `auth-token=` up to the next `=` or the end. */
  lemma TokenOfSpec(t: string)
    ensures var r := TokenOf(AuthPrefix + t);
      && StartsWith(t, r)
      && !Contains(r, "=")
      && (r == t || StartsWith(t, r + "="))
      && (!Contains(t, "=") ==> r == t)
  {
    var seg := AuthPrefix + t;
    assert seg == AuthCookie + "=" + t;
    assert Lacks(AuthCookie, '=');
    LacksNoEarlyOccurrence(AuthCookie, "=", t);
    SplitAt(AuthCookie, "=", t);
    assert TokenOf(seg) == Split(t, "=")[0];
    SplitFirst(t, "=");
  }

  /** The token the handler reads from a `Cookie` header, if any. */
  function AuthToken(header: Option<string>): (r: Option<string>)
    ensures header.None? ==> r.None?
    ensures r.Some? ==> !Contains(r.value, "=")
  {
    match header
    case None => None
    case Some(h) =>
      match FindAuthSegment(Split(h, "; "))
      case None => None
      case Some(seg) =>
        TokenOfSpec(seg[|AuthPrefix|..]);
        assert seg == AuthPrefix + seg[|AuthPrefix|..];
        Some(TokenOf(seg))
  }

  /** The handler. `dbError` makes the user query throw. */
  function Get(header: Option<string>, st: Store, o: Oracles, dbError: bool): (r: Response)
    ensures r.cookies == [] && r.status in {200, 401}
    ensures r.status == 401 ==> r == UserNull || r == NotAuthenticated
    ensures r == NotAuthenticated <==>
      dbError && AuthToken(header).Some? && AuthToken(header).value != ""
      && o.verifyToken(AuthToken(header).value).Some?
    ensures r.status == 200 ==>
      exists t, u | AuthToken(header) == Some(t) && u in st.rows ::
        && t != ""
        && o.verifyToken(t) == Some(u.id)
        && r.body == JObj([("user", Selected(u))])
    ensures (AuthToken(header).None? || AuthToken(header) == Some("")) ==> r == UserNull
  {
    var token := AuthToken(header);
    if token.None? || token.value == "" then UserNull
    else
      match o.verifyToken(token.value)
      case None => UserNull
      case Some(id) =>
        if dbError then NotAuthenticated
        else
          match FindById(st.rows, id)
          case None => UserNull
          case Some(u) => Response(200, JObj([("user", Selected(u))]), [])
  }

  /** With ids unique, the check succeeds exactly when the header carries a non-empty
      `auth-token` that verifies to the id of a stored user and the query does not throw. */
  lemma SucceedsIff(header: Option<string>, st: Store, o: Oracles, dbError: bool)
    requires Valid(st)
    ensures Get(header, st, o, dbError).status == 200 <==>
      !dbError && exists t, u | AuthToken(header) == Some(t) && u in st.rows ::
        t != "" && o.verifyToken(t) == Some(u.id)
  {
    if !dbError && exists t, u | AuthToken(header) == Some(t) && u in st.rows ::
        t != "" && o.verifyToken(t) == Some(u.id) {
      var t, u :| AuthToken(header) == Some(t) && u in st.rows && t != "" && o.verifyToken(t) == Some(u.id);
      FindUnique(st, u);
    }
  }

  /** A header holding one `auth-token` cookie yields its value, cut at any `=`. */
  lemma AuthTokenSole(t: string)
    requires Lacks(t, ';')
    ensures AuthToken(Some(AuthPrefix + t)) == Some(TokenOf(AuthPrefix + t))
    ensures !Contains(t, "=") ==> AuthToken(Some(AuthPrefix + t)) == Some(t)
  {
    var h := AuthPrefix + t;
    LacksConcat(AuthPrefix, t, ';');
    SplitLacking(h, "; ");
    assert FindAuthSegment([h]) == Some(h);
    TokenOfSpec(t);
  }

  /** A leading cookie that is not `auth-token` is skipped. */
  lemma AuthTokenSkips(a: string, rest: string)
    requires Lacks(a, ';') && !StartsWith(a, AuthPrefix)
    ensures AuthToken(Some(a + "; " + rest)) == AuthToken(Some(rest))
  {
    LacksNoEarlyOccurrence(a, "; ", rest);
    SplitAt(a, "; ", rest);
    assert ([a] + Split(rest, "; "))[1..] == Split(rest, "; ");
  }

  /** The first `auth-token` cookie wins over any later one. */
  lemma AuthTokenFirstWins(t: string, rest: string)
    requires Lacks(t, ';')
    ensures AuthToken(Some(AuthPrefix + t + "; " + rest)) == AuthToken(Some(AuthPrefix + t))
  {
    var seg := AuthPrefix + t;
    AuthTokenSole(t);
    LacksConcat(AuthPrefix, t, ';');
    LacksNoEarlyOccurrence(seg, "; ", rest);
    SplitAt(seg, "; ", rest);
  }

  /** The cookie login sets, sent back alone, is not an `auth-token`: the check answers
      `{ user: null }` whatever the token and the table. */
  lemma SessionCookieNotRead(t: string, st: Store, o: Oracles, dbError: bool)
    requires Lacks(t, ';')
    ensures AuthToken(Some(SessionCookie + "=" + t)) == None
    ensures Get(Some(SessionCookie + "=" + t), st, o, dbError) == UserNull
  {
    var h := SessionCookie + "=" + t;
    LacksConcat(SessionCookie + "=", t, ';');
    SplitLacking(h, "; ");
    assert h[1] == 'e' && AuthPrefix[1] == 'u';
    assert FindAuthSegment([h]) == None;
  }

  /** `auth-token=` with nothing after it, or a header lacking the cookie, gets
      `{ user: null }` before any token check or query. */
  lemma EmptyTokenRejected(st: Store, o: Oracles, dbError: bool)
    ensures Get(Some(AuthPrefix), st, o, dbError) == UserNull
    ensures Get(None, st, o, dbError) == UserNull
  {
    AuthTokenSole("");
    assert AuthPrefix + "" == AuthPrefix;
  }
}
