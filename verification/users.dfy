/**
 * The user table behind `prisma.user`, with the two unique lookups the handlers use and the
 * insert signup performs.
 */
module Users {
  import opened Options
  import opened Http

  /** A row of the user table; `password` holds the bcrypt digest. */
  datatype User = User(id: int, email: string, name: string, password: string)

  /** The `{ id, email, name }` a query selecting just those columns returns: never the
      digest. */
  function Selected(u: User): (j: Json)
    ensures Keys(j) == ["id", "email", "name"]
    ensures Member(j, "id") == Some(JNum(u.id))
    ensures Member(j, "email") == Some(JStr(u.email))
    ensures Member(j, "name") == Some(JStr(u.name))
  {
    var fs := [("id", JNum(u.id)), ("email", JStr(u.email)), ("name", JStr(u.name))];
    LookupDistinct(fs);
    assert fs[1].0 == "email" && fs[2].0 == "name";
    JObj(fs)
  }

  /** The table in insertion order, with the next auto-increment id. */
  datatype Store = Store(rows: seq<User>, nextId: int)

  /** What the table's constraints guarantee: ids and emails are unique, and every id was
      handed out by the auto-increment counter. */
  predicate Valid(st: Store) {
    && (forall i, j | 0 <= i < j < |st.rows| :: st.rows[i].email != st.rows[j].email)
    && (forall i, j | 0 <= i < j < |st.rows| :: st.rows[i].id != st.rows[j].id)
    && (forall i | 0 <= i < |st.rows| :: st.rows[i].id < st.nextId)
  }

  /** `findUnique({ where: { email } })`. */
  function FindByEmail(rows: seq<User>, email: string): (r: Option<User>)
    ensures r.Some? ==> r.value in rows && r.value.email == email
    ensures r.None? <==> forall u | u in rows :: u.email != email
    decreases |rows|
  {
    if rows == [] then None
    else if rows[0].email == email then Some(rows[0])
    else FindByEmail(rows[1..], email)
  }

  /** `findUnique({ where: { id } })`. */
  function FindById(rows: seq<User>, id: int): (r: Option<User>)
    ensures r.Some? ==> r.value in rows && r.value.id == id
    ensures r.None? <==> forall u | u in rows :: u.id != id
    decreases |rows|
  {
    if rows == [] then None
    else if rows[0].id == id then Some(rows[0])
    else FindById(rows[1..], id)
  }

  /** `user.create({ data: { email, password, name } })`: the new row takes the next
      auto-increment id and goes to the end of the table. */
  function Create(st: Store, email: string, password: string, name: string): (r: (User, Store))
    ensures r.0 == User(st.nextId, email, name, password)
    ensures r.1.rows == st.rows + [r.0] && r.1.nextId == st.nextId + 1
  {
    var u := User(st.nextId, email, name, password);
    (u, Store(st.rows + [u], st.nextId + 1))
  }

  /** Lookups in a table that gained one row at the end are unchanged for every other key. */
  lemma {:induction false} FindAfterAppend(rows: seq<User>, u: User, email: string, id: int)
    ensures FindByEmail(rows, u.email).None? ==> FindByEmail(rows + [u], u.email) == Some(u)
    ensures email != u.email ==> FindByEmail(rows + [u], email) == FindByEmail(rows, email)
    ensures id != u.id ==> FindById(rows + [u], id) == FindById(rows, id)
    decreases |rows|
  {
    if rows != [] {
      assert (rows + [u])[0] == rows[0] && (rows + [u])[1..] == rows[1..] + [u];
      FindAfterAppend(rows[1..], u, email, id);
    }
  }

  /** Inserting an unused email into a valid table keeps it valid, finds the new row by its
      email and id, and changes no other lookup. */
  lemma CreateSpec(st: Store, email: string, password: string, name: string)
    requires Valid(st) && FindByEmail(st.rows, email).None?
    ensures var (u, st') := Create(st, email, password, name);
      && Valid(st')
      && FindByEmail(st'.rows, email) == Some(u)
      && FindById(st'.rows, u.id) == Some(u)
      && (forall e | e != email :: FindByEmail(st'.rows, e) == FindByEmail(st.rows, e))
      && (forall id | id != u.id :: FindById(st'.rows, id) == FindById(st.rows, id))
  {
    CreateKeepsValid(st, email, password, name);
    CreateLookups(st, email, password, name);
  }

  /** The new row's email is unused and its id is above every existing id. */
  lemma CreateKeepsValid(st: Store, email: string, password: string, name: string)
    requires Valid(st) && FindByEmail(st.rows, email).None?
    ensures Valid(Create(st, email, password, name).1)
  {
    var (u, st') := Create(st, email, password, name);
    assert forall i | 0 <= i < |st.rows| :: st.rows[i] in st.rows;
  }

  lemma CreateLookups(st: Store, email: string, password: string, name: string)
    requires Valid(st) && FindByEmail(st.rows, email).None?
    ensures var (u, st') := Create(st, email, password, name);
      && FindByEmail(st'.rows, email) == Some(u)
      && FindById(st'.rows, u.id) == Some(u)
      && (forall e | e != email :: FindByEmail(st'.rows, e) == FindByEmail(st.rows, e))
      && (forall id | id != u.id :: FindById(st'.rows, id) == FindById(st.rows, id))
  {
    var (u, st') := Create(st, email, password, name);
    FindAfterAppend(st.rows, u, email, u.id);
    forall v | v in st.rows
      ensures v.id != u.id
    {
      var i :| 0 <= i < |st.rows| && st.rows[i] == v;
    }
    FindByIdAppendNew(st.rows, u);
    forall e | e != email
      ensures FindByEmail(st'.rows, e) == FindByEmail(st.rows, e)
    {
      FindAfterAppend(st.rows, u, e, u.id);
    }
    forall id | id != u.id
      ensures FindById(st'.rows, id) == FindById(st.rows, id)
    {
      FindAfterAppend(st.rows, u, email, id);
    }
  }

  /** A row appended with an id no other row has is the one found by that id. */
  lemma {:induction false} FindByIdAppendNew(rows: seq<User>, u: User)
    requires forall v | v in rows :: v.id != u.id
    ensures FindById(rows + [u], u.id) == Some(u)
    decreases |rows|
  {
    if rows != [] {
      assert (rows + [u])[0] == rows[0] && (rows + [u])[1..] == rows[1..] + [u];
      FindByIdAppendNew(rows[1..], u);
    }
  }

  /** In a valid table a row is the one found by its email and by its id. */
  lemma {:induction false} FindUnique(st: Store, u: User)
    requires Valid(st) && u in st.rows
    ensures FindByEmail(st.rows, u.email) == Some(u)
    ensures FindById(st.rows, u.id) == Some(u)
  {
    var i :| 0 <= i < |st.rows| && st.rows[i] == u;
    FindPrefixMiss(st.rows, i, u);
  }

  /** Rows before index `i` that differ from the row at `i` in email and id are skipped. */
  lemma {:induction false} FindPrefixMiss(rows: seq<User>, i: nat, u: User)
    requires i < |rows| && rows[i] == u
    requires forall j | 0 <= j < i :: rows[j].email != u.email && rows[j].id != u.id
    ensures FindByEmail(rows, u.email) == Some(u)
    ensures FindById(rows, u.id) == Some(u)
    decreases i
  {
    if i > 0 {
      assert rows[0].email != u.email && rows[0].id != u.id;
      FindPrefixMiss(rows[1..], i - 1, u);
    }
  }
}
