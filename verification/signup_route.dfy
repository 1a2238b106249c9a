/**
 * `POST /api/auth/signup`: refuses an email that is already registered, otherwise stores the
 * new user with a hashed password and answers with the user's public fields. It sets no
 * cookie, so a new user still has to log in.
 */
module SignupRoute {
  import opened Options
  import opened Http
  import opened Users
  import opened AuthUtils

  /** The `{ email, password, name }` request body. */
  datatype Registration = Registration(email: string, password: string, name: string)

  /** Whether a registration's email is already in the table. */
  predicate Taken(st: Store, email: string) {
    exists u | u in st.rows :: u.email == email
  }

  /** The handler: the response and the table afterwards. `body` is `None` when
      `request.json()` throws; `findError` makes the `findUnique` query throw and
      `createError` the `create` query. Either throw lands in the catch and gives 500. */
  function Post(body: Option<Registration>, st: Store, o: Oracles, findError: bool, createError: bool)
    : (r: (Response, Store))
    ensures r.0.cookies == []
    ensures r.0.status == 500 <==>
      body.None? || findError || (!Taken(st, body.value.email) && createError)
    ensures r.0.status == 500 ==> r.0.body == ErrorBody("Something went wrong")
    ensures r.0.status != 201 ==> r.1 == st
    ensures body.Some? && !findError ==>
      (r.0.status == 400 <==> Taken(st, body.value.email))
    ensures r.0.status == 201 <==>
      body.Some? && !findError && !createError && !Taken(st, body.value.email)
    ensures r.0.status == 400 ==> r.0.body == ErrorBody("User already exists")
    ensures r.0.status in {201, 400, 500}
    ensures r.0.status == 201 ==>
      var reg := body.value;
      var u := User(st.nextId, reg.email, reg.name, o.hashPassword(reg.password));
      && r.1 == Store(st.rows + [u], st.nextId + 1)
      && r.0.body == JObj([("user", Selected(u))])
  {
    if body.None? || findError then (Response(500, ErrorBody("Something went wrong"), []), st)
    else
      var reg := body.value;
      if FindByEmail(st.rows, reg.email).Some? then
        (Response(400, ErrorBody("User already exists"), []), st)
      else if createError then (Response(500, ErrorBody("Something went wrong"), []), st)
      else
        var hashed := o.hashPassword(reg.password);
        var (u, st') := Create(st, reg.email, hashed, reg.name);
        (Response(201, JObj([("user", Selected(u))]), []), st')
  }

  /** Signup keeps the table's constraints, adds exactly the new user (found by email and by
      id, with the hashed password), and leaves every other lookup as it was. */
  lemma PostKeepsStoreValid(body: Option<Registration>, st: Store, o: Oracles,
                            findError: bool, createError: bool)
    requires Valid(st)
    ensures var (_, st') := Post(body, st, o, findError, createError); Valid(st')
    ensures var (r, st') := Post(body, st, o, findError, createError);
      r.status == 201 ==>
        var reg := body.value;
        && |st'.rows| == |st.rows| + 1
        && (exists u | u in st'.rows :: u.email == reg.email && u.password == o.hashPassword(reg.password))
        && FindByEmail(st'.rows, reg.email).Some?
        && FindByEmail(st'.rows, reg.email).value.password == o.hashPassword(reg.password)
        && (forall e | e != reg.email :: FindByEmail(st'.rows, e) == FindByEmail(st.rows, e))
        && (forall v | v in st.rows :: v in st'.rows)
  {
    var (r, st') := Post(body, st, o, findError, createError);
    if r.status == 201 {
      var reg := body.value;
      CreateSpec(st, reg.email, o.hashPassword(reg.password), reg.name);
    }
  }
}
