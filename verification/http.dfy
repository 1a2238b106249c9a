/**
 * What a route handler hands back to the framework: a status, a JSON body and the cookies it
 * sets; and what a browser does with those cookies.
 */
module Http {
  import opened Options

  /** A JSON value; object members keep the order in which the handler wrote them. */
  datatype Json =
    | JNull
    | JBool(b: bool)
    | JNum(n: int)
    | JStr(s: string)
    | JArr(items: seq<Json>)
    | JObj(fields: seq<(string, Json)>)

  /** The member names of a JSON object, in order (none for other values). */
  function Keys(j: Json): seq<string> {
    match j
    case JObj(fields) => seq(|fields|, i requires 0 <= i < |fields| => fields[i].0)
    case _ => []
  }

  /** The member `key` of a JSON object (the first one, should it repeat). */
  function Member(j: Json, key: string): Option<Json> {
    match j
    case JObj(fields) => Lookup(fields, key)
    case _ => None
  }

  function Lookup(fields: seq<(string, Json)>, key: string): Option<Json> {
    if fields == [] then None
    else if fields[0].0 == key then Some(fields[0].1)
    else Lookup(fields[1..], key)
  }

  /** In an object whose member names are distinct, every member is found by its name. */
  lemma {:induction false} LookupDistinct(fields: seq<(string, Json)>)
    requires forall i, j | 0 <= i < j < |fields| :: fields[i].0 != fields[j].0
    ensures forall i | 0 <= i < |fields| :: Lookup(fields, fields[i].0) == Some(fields[i].1)
    decreases |fields|
  {
    if fields != [] {
      LookupDistinct(fields[1..]);
      forall i | 1 <= i < |fields|
        ensures Lookup(fields, fields[i].0) == Some(fields[i].1)
      {
        assert fields[1..][i - 1] == fields[i];
      }
    }
  }

  /** The name of the cookie login sets and the route guard looks for. */
  const SessionCookie := "session"

  /** The name of the cookie the check endpoint reads and logout clears. */
  const AuthCookie := "auth-token"

  /** The `{ error: message }` body the handlers answer failures with. */
  function ErrorBody(message: string): Json {
    JObj([("error", JStr(message))])
  }

  datatype SameSite = Lax | Strict | SameSiteNone

  /** The attributes `response.cookies.set` accepts; an attribute the handler leaves out is
      `None` (or `false` for the two flags). `expires` is milliseconds since the epoch. */
  datatype CookieOptions = CookieOptions(
    httpOnly: bool,
    secure: bool,
    sameSite: Option<SameSite>,
    path: Option<string>,
    expires: Option<int>,
    maxAge: Option<int>)

  datatype SetCookie = SetCookie(name: string, value: string, options: CookieOptions)

  /** `NextResponse.json(body, { status })` plus the cookies set on it. */
  datatype Response = Response(status: int, body: Json, cookies: seq<SetCookie>)

  /** The names of the cookies a response sets. */
  function CookieNames(r: Response): set<string> {
    set c | c in r.cookies :: c.name
  }

  /** A browser's cookies for the site: name to value. */
  type Jar = map<string, string>

  /** A Set-Cookie whose Max-Age is not positive, or (without Max-Age) whose Expires is not
      after `now`, removes the cookie (RFC 6265, section 5.3, steps 3 and 11). */
  predicate Expired(c: SetCookie, now: int) {
    match c.options.maxAge
    case Some(age) => age <= 0
    case None => c.options.expires.Some? && c.options.expires.value <= now
  }

  /** What the browser's jar becomes after receiving one Set-Cookie at time `now`: only the
      expiry decision is modelled, not Domain or Path matching, nor the end of the browsing
      session that evicts a non-persistent cookie. */
  function Receive(jar: Jar, c: SetCookie, now: int): (r: Jar)
    ensures Expired(c, now) ==> c.name !in r
    ensures !Expired(c, now) ==> c.name in r && r[c.name] == c.value
    ensures forall n | n in jar && n != c.name :: n in r && r[n] == jar[n]
    ensures forall n | n in r && n != c.name :: n in jar
  {
    if Expired(c, now) then jar - {c.name} else jar[c.name := c.value]
  }

  /** What the jar becomes after a whole response. */
  function ReceiveAll(jar: Jar, cs: seq<SetCookie>, now: int): Jar
    decreases |cs|
  {
    if cs == [] then jar else ReceiveAll(Receive(jar, cs[0], now), cs[1..], now)
  }

  /** Cookies a response does not name are left as they were. */
  lemma {:induction false} ReceiveAllKeepsOthers(jar: Jar, cs: seq<SetCookie>, now: int, n: string)
    requires forall c | c in cs :: c.name != n
    ensures n in ReceiveAll(jar, cs, now) <==> n in jar
    ensures n in jar ==> ReceiveAll(jar, cs, now)[n] == jar[n]
    decreases |cs|
  {
    if cs != [] {
      assert cs[0] in cs;
      assert forall c | c in cs[1..] :: c in cs;
      ReceiveAllKeepsOthers(Receive(jar, cs[0], now), cs[1..], now, n);
    }
  }
}
