/** What the SQL statements of queries/user.queries.js do to, and read from, the
    `users` table. The table is a value here; module Store applies these in place. */
module UserQueries {

  /** The clock value that `NOW()` reads. */
  type Timestamp = int

  /** One row of `users`; `password` holds whatever the caller stored (the controller stores a digest). */
  datatype Row = Row(
    id: nat,
    email: string,
    username: string,
    password: string,
    firstName: string,
    lastName: string,
    createdAt: Timestamp,
    lastModifiedAt: Timestamp)

  /** The columns that `loginUser` projects: no timestamps. */
  datatype LoginRow = LoginRow(
    id: nat,
    email: string,
    username: string,
    password: string,
    firstName: string,
    lastName: string)

  /** The rows by primary key, and the next value the id column will be given. */
  datatype Table = Table(rows: map<nat, Row>, nextId: nat)

  /** Every row is filed under its own id, and every id is below the next one to be issued. */
  predicate WellFormed(t: Table)
  {
    forall k :: k in t.rows ==> t.rows[k].id == k && k < t.nextId
  }

  const EmptyTable := Table(map[], 0)

  /** Some row has the given email. */
  predicate HasEmail(t: Table, email: string)
  {
    exists k :: k in t.rows && t.rows[k].email == email
  }

  function ToLoginRow(r: Row): LoginRow
  {
    LoginRow(r.id, r.email, r.username, r.password, r.firstName, r.lastName)
  }

  // ---------------------------------------------------------------- reads

  /** The WHERE clauses of the SELECT statements. */
  datatype Where = Everyone | IdIs(id: nat) | EmailIs(email: string)

  predicate Matches(w: Where, r: Row)
  {
    match w
    case Everyone => true
    case IdIs(id) => r.id == id
    case EmailIs(email) => r.email == email
  }

  /** Rows with ids in [lo, hi) that satisfy `w`, in ascending id order. */
  function Scan(rows: map<nat, Row>, w: Where, lo: nat, hi: nat): (rs: seq<Row>)
    requires forall k :: k in rows ==> rows[k].id == k
    ensures forall i :: 0 <= i < |rs| ==>
      rs[i].id in rows && rows[rs[i].id] == rs[i] && lo <= rs[i].id < hi && Matches(w, rs[i])
    ensures forall k :: lo <= k < hi && k in rows && Matches(w, rows[k]) ==> rows[k] in rs
    ensures forall i, j :: 0 <= i < j < |rs| ==> rs[i].id < rs[j].id
    decreases hi - lo
  {
    if lo >= hi then []
    else (if lo in rows && Matches(w, rows[lo]) then [rows[lo]] else []) + Scan(rows, w, lo + 1, hi)
  }

  /** `SELECT ... FROM users WHERE w`. SQL leaves the row order open; the model fixes it
      to ascending id, so "the first row" is the matching row with the smallest id. */
  function Select(t: Table, w: Where): (rs: seq<Row>)
    requires WellFormed(t)
    ensures forall r :: r in rs <==> r in t.rows.Values && Matches(w, r)
    ensures forall i :: 0 <= i < |rs| ==> rs[i].id in t.rows && t.rows[rs[i].id] == rs[i]
    ensures forall i, j :: 0 <= i < j < |rs| ==> rs[i].id < rs[j].id
  {
    Scan(t.rows, w, 0, t.nextId)
  }

  /** `selectById`: the row with that id, or nothing. */
  function SelectById(t: Table, id: nat): (rs: seq<Row>)
    requires WellFormed(t)
    ensures rs == if id in t.rows then [t.rows[id]] else []
  {
    var rs := Select(t, IdIs(id));
    SelectByIdIsLookup(t, id, rs);
    rs
  }

  lemma SelectByIdIsLookup(t: Table, id: nat, rs: seq<Row>)
    requires WellFormed(t) && rs == Select(t, IdIs(id))
    ensures rs == if id in t.rows then [t.rows[id]] else []
  {
    ScanById(t.rows, id, 0, t.nextId);
  }

  /** Scanning for one id finds that row when it lies in the range, and nothing else. */
  lemma {:induction false} ScanById(rows: map<nat, Row>, id: nat, lo: nat, hi: nat)
    requires forall k :: k in rows ==> rows[k].id == k
    ensures Scan(rows, IdIs(id), lo, hi) == if lo <= id < hi && id in rows then [rows[id]] else []
    decreases hi - lo
  {
    if lo < hi {
      ScanById(rows, id, lo + 1, hi);
    }
  }

  /** A range without matching rows scans to nothing. */
  lemma {:induction false} ScanNone(rows: map<nat, Row>, w: Where, lo: nat, hi: nat)
    requires forall k :: k in rows ==> rows[k].id == k
    requires forall k :: lo <= k < hi && k in rows ==> !Matches(w, rows[k])
    ensures Scan(rows, w, lo, hi) == []
    decreases hi - lo
  {
    if lo < hi {
      ScanNone(rows, w, lo + 1, hi);
    }
  }

  /** `selectByEmail`: exactly the rows with that email. */
  function SelectByEmail(t: Table, email: string): (rs: seq<Row>)
    requires WellFormed(t)
    ensures forall r :: r in rs <==> r in t.rows.Values && r.email == email
    ensures rs == [] <==> !HasEmail(t, email)
  {
    var rs := Select(t, EmailIs(email));
    assert rs != [] ==> HasEmail(t, email) by {
      if rs != [] {
        assert rs[0] in rs;
        assert t.rows[rs[0].id].email == email;
      }
    }
    assert HasEmail(t, email) ==> rs != [] by {
      if HasEmail(t, email) {
        var k :| k in t.rows && t.rows[k].email == email;
        assert Matches(EmailIs(email), t.rows[k]);
        assert t.rows[k] in rs;
      }
    }
    rs
  }

  /** `selectAllUsers`: every row of the table. */
  function SelectAllUsers(t: Table): (rs: seq<Row>)
    requires WellFormed(t)
    ensures forall r :: r in rs <==> r in t.rows.Values
    ensures |rs| == |t.rows|
  {
    var rs := Select(t, Everyone);
    assert forall r :: r in rs <==> r in t.rows.Values by {
      forall r | r in t.rows.Values ensures r in rs {
        assert Matches(Everyone, r);
      }
    }
    DistinctIdsCount(t, rs);
    rs
  }

  /** A sequence listing each row of the table once, ordered by id, is as long as the table. */
  lemma DistinctIdsCount(t: Table, rs: seq<Row>)
    requires WellFormed(t)
    requires forall r :: r in rs <==> r in t.rows.Values
    requires forall i :: 0 <= i < |rs| ==> rs[i].id in t.rows && t.rows[rs[i].id] == rs[i]
    requires forall i, j :: 0 <= i < j < |rs| ==> rs[i].id < rs[j].id
    ensures |rs| == |t.rows|
  {
    var ids := set i | 0 <= i < |rs| :: rs[i].id;
    assert ids == t.rows.Keys by {
      forall k | k in t.rows ensures k in ids {
        assert t.rows[k] in t.rows.Values;
        var i :| 0 <= i < |rs| && rs[i] == t.rows[k];
      }
    }
    IdsCount(rs, |rs|);
  }

  /** Strictly increasing ids of the first n rows make n distinct ids. */
  lemma {:induction false} IdsCount(rs: seq<Row>, n: nat)
    requires n <= |rs|
    requires forall i, j :: 0 <= i < j < |rs| ==> rs[i].id < rs[j].id
    ensures |set i | 0 <= i < n :: rs[i].id| == n
  {
    if n > 0 {
      IdsCount(rs, n - 1);
      var before := set i | 0 <= i < n - 1 :: rs[i].id;
      assert (set i | 0 <= i < n :: rs[i].id) == before + {rs[n - 1].id};
      assert rs[n - 1].id !in before;
    }
  }

  /** `loginUser`: the rows with that email, projected to the login columns. */
  function LoginUser(t: Table, email: string): (rs: seq<LoginRow>)
    requires WellFormed(t)
    ensures forall i :: 0 <= i < |rs| ==>
      rs[i].email == email && rs[i].id in t.rows && rs[i] == ToLoginRow(t.rows[rs[i].id])
    ensures forall k :: k in t.rows && t.rows[k].email == email ==> ToLoginRow(t.rows[k]) in rs
    ensures forall i, j :: 0 <= i < j < |rs| ==> rs[i].id < rs[j].id
    ensures rs == [] <==> !HasEmail(t, email)
  {
    var full := Scan(t.rows, EmailIs(email), 0, t.nextId);
    var rs := Project(full);
    LoginUserFound(t, email, full, rs);
    LoginUserHasEmail(t, email, full, rs);
    rs
  }

  lemma LoginUserFound(t: Table, email: string, full: seq<Row>, rs: seq<LoginRow>)
    requires WellFormed(t) && full == Scan(t.rows, EmailIs(email), 0, t.nextId) && rs == Project(full)
    ensures forall k :: k in t.rows && t.rows[k].email == email ==> ToLoginRow(t.rows[k]) in rs
  {
    forall k | k in t.rows && t.rows[k].email == email ensures ToLoginRow(t.rows[k]) in rs {
      assert Matches(EmailIs(email), t.rows[k]);
      ProjectHas(full, t.rows[k]);
    }
  }

  lemma LoginUserHasEmail(t: Table, email: string, full: seq<Row>, rs: seq<LoginRow>)
    requires WellFormed(t) && full == Scan(t.rows, EmailIs(email), 0, t.nextId) && rs == Project(full)
    ensures rs == [] <==> !HasEmail(t, email)
  {
    if HasEmail(t, email) {
      var k :| k in t.rows && t.rows[k].email == email;
      assert Matches(EmailIs(email), t.rows[k]);
      assert t.rows[k] in full;
    }
    if rs != [] {
      assert full[0].id in t.rows && t.rows[full[0].id].email == email;
    }
  }

  /** Each row projected to the login columns, in order. */
  function Project(rows: seq<Row>): (rs: seq<LoginRow>)
    ensures |rs| == |rows|
    ensures forall i :: 0 <= i < |rs| ==> rs[i] == ToLoginRow(rows[i])
  {
    if rows == [] then [] else [ToLoginRow(rows[0])] + Project(rows[1..])
  }

  lemma ProjectHas(rows: seq<Row>, r: Row)
    requires r in rows
    ensures ToLoginRow(r) in Project(rows)
  {
    var i :| 0 <= i < |rows| && rows[i] == r;
    assert Project(rows)[i] == ToLoginRow(r);
  }

  // ---------------------------------------------------------------- writes

  datatype Created = Created(table: Table, row: Row)

  /** `createUser`: one new row, with a fresh id, columns email, username, password,
      first_name, last_name from $1..$5, and both timestamps the same `NOW()`. */
  function CreateUser(t: Table, email: string, username: string, password: string,
                      firstName: string, lastName: string, now: Timestamp): (c: Created)
    requires WellFormed(t)
    ensures WellFormed(c.table)
    ensures c.row.id !in t.rows && c.table.rows == t.rows[c.row.id := c.row]
    ensures c.row.email == email && c.row.username == username && c.row.password == password
    ensures c.row.firstName == firstName && c.row.lastName == lastName
    ensures c.row.createdAt == now && c.row.lastModifiedAt == now
  {
    var row := Row(t.nextId, email, username, password, firstName, lastName, now, now);
    Created(Table(t.rows[t.nextId := row], t.nextId + 1), row)
  }

  datatype Updated = Updated(table: Table, returned: seq<Row>)

  /** `updateUserById`: the row with id $5 gets email, username, first_name, last_name
      from $1..$4 and `last_modified_at = NOW()`; `RETURNING *` gives it back. */
  function UpdateUserById(t: Table, email: string, username: string, firstName: string,
                          lastName: string, id: nat, now: Timestamp): (u: Updated)
    requires WellFormed(t)
    ensures WellFormed(u.table) && u.table.rows.Keys == t.rows.Keys
    ensures forall k :: k in t.rows && k != id ==> u.table.rows[k] == t.rows[k]
    ensures id in t.rows ==>
      var old_, new_ := t.rows[id], u.table.rows[id];
      && new_.id == id && new_.email == email && new_.username == username
      && new_.firstName == firstName && new_.lastName == lastName && new_.lastModifiedAt == now
      && new_.password == old_.password && new_.createdAt == old_.createdAt
    ensures u.returned == if id in t.rows then [u.table.rows[id]] else []
  {
    if id in t.rows then
      var row := t.rows[id].(email := email, username := username, firstName := firstName,
                              lastName := lastName, lastModifiedAt := now);
      Updated(t.(rows := t.rows[id := row]), [row])
    else
      Updated(t, [])
  }

  /** `updatePassword`: the row with id $2 gets password $1 and `last_modified_at = NOW()`. */
  function UpdatePassword(t: Table, password: string, id: nat, now: Timestamp): (u: Updated)
    requires WellFormed(t)
    ensures WellFormed(u.table) && u.table.rows.Keys == t.rows.Keys
    ensures forall k :: k in t.rows && k != id ==> u.table.rows[k] == t.rows[k]
    ensures id in t.rows ==>
      u.table.rows[id] == t.rows[id].(password := password, lastModifiedAt := now)
    ensures u.returned == if id in t.rows then [u.table.rows[id]] else []
  {
    if id in t.rows then
      var row := t.rows[id].(password := password, lastModifiedAt := now);
      Updated(t.(rows := t.rows[id := row]), [row])
    else
      Updated(t, [])
  }

  /** `deleteUser`: the rows whose id is $1 go; the others stay as they were. */
  function DeleteUser(t: Table, id: nat): (t': Table)
    requires WellFormed(t)
    ensures WellFormed(t') && t'.rows.Keys == t.rows.Keys - {id}
    ensures forall k :: k in t'.rows ==> t'.rows[k] == t.rows[k]
  {
    t.(rows := t.rows - {id})
  }

  // ---------------------------------------------------------------- reads after writes

  /** A created row is what `selectById` then finds under its id. */
  lemma CreatedRowIsSelected(t: Table, email: string, username: string, password: string,
                             firstName: string, lastName: string, now: Timestamp)
    requires WellFormed(t)
    ensures var c := CreateUser(t, email, username, password, firstName, lastName, now);
      SelectById(c.table, c.row.id) == [c.row] && |SelectAllUsers(c.table)| == |t.rows| + 1
  {
  }

  /** After `deleteUser`, `selectById` finds nothing under that id. */
  lemma DeletedRowIsGone(t: Table, id: nat)
    requires WellFormed(t)
    ensures SelectById(DeleteUser(t, id), id) == []
  {
  }

  /** Email uniqueness, which the (unmodelled) schema enforces. */
  predicate UniqueEmails(t: Table)
  {
    forall j, k :: j in t.rows && k in t.rows && t.rows[j].email == t.rows[k].email ==> j == k
  }

  /** Under email uniqueness `loginUser` yields at most one row. */
  lemma LoginUserAtMostOne(t: Table, email: string)
    requires WellFormed(t) && UniqueEmails(t)
    ensures |LoginUser(t, email)| <= 1
  {
    ScanUniqueEmail(t.rows, email, 0, t.nextId);
  }

  lemma {:induction false} ScanUniqueEmail(rows: map<nat, Row>, email: string, lo: nat, hi: nat)
    requires forall k :: k in rows ==> rows[k].id == k
    requires forall j, k :: j in rows && k in rows && rows[j].email == rows[k].email ==> j == k
    ensures |Scan(rows, EmailIs(email), lo, hi)| <= 1
    decreases hi - lo
  {
    if lo < hi {
      if lo in rows && Matches(EmailIs(email), rows[lo]) {
        ScanNone(rows, EmailIs(email), lo + 1, hi);
      } else {
        ScanUniqueEmail(rows, email, lo + 1, hi);
      }
    }
  }
}
