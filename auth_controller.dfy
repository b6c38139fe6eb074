/** The registration and login handlers of controllers/auth.controller.js. */
module AuthController {
  import opened Wrappers
  import opened Json
  import opened Http
  import opened Hashing
  import opened UserQueries
  import opened Store
  import UserValidator

  // ================================================================ name split

  /** `s.split(" ")`: the pieces between single spaces; two adjacent spaces give an empty piece. */
  function Split(s: string): (pieces: seq<string>)
    ensures |pieces| >= 1
    ensures forall i :: 0 <= i < |pieces| ==> ' ' !in pieces[i]
  {
    if s == [] then [""]
    else if s[0] == ' ' then [""] + Split(s[1..])
    else
      var rest := Split(s[1..]);
      [[s[0]] + rest[0]] + rest[1..]
  }

  /** `pieces.join(" ")`, the inverse of Split. */
  function Join(pieces: seq<string>): string
    requires |pieces| >= 1
  {
    if |pieces| == 1 then pieces[0] else pieces[0] + " " + Join(pieces[1..])
  }

  lemma {:induction false} JoinSplit(s: string)
    ensures Join(Split(s)) == s
  {
    if s != [] {
      JoinSplit(s[1..]);
      var rest := Split(s[1..]);
      if s[0] != ' ' && |rest| > 1 {
        assert Join(rest) == rest[0] + " " + Join(rest[1..]);
        assert Split(s)[1..] == rest[1..];
      }
    }
  }

  /** The position of the first space, or |s| when there is none. */
  function IndexOfSpace(s: string): (i: nat)
    ensures i <= |s| && ' ' !in s[..i]
    ensures i < |s| ==> s[i] == ' '
  {
    if s == [] || s[0] == ' ' then 0
    else
      var i := 1 + IndexOfSpace(s[1..]);
      assert s[..i] == [s[0]] + s[1..][..i - 1];
      i
  }

  /** Any position with no space before it and a space (or the end) at it is the first space. */
  lemma FirstSpaceIsUnique(s: string, i: nat)
    requires i <= |s| && ' ' !in s[..i]
    requires i < |s| ==> s[i] == ' '
    ensures IndexOfSpace(s) == i
  {
    var j := IndexOfSpace(s);
    assert forall k :: 0 <= k < j ==> s[k] != ' ' by {
      forall k | 0 <= k < j ensures s[k] != ' ' { assert s[..j][k] == s[k]; }
    }
    assert forall k :: 0 <= k < i ==> s[k] != ' ' by {
      forall k | 0 <= k < i ensures s[k] != ' ' { assert s[..i][k] == s[k]; }
    }
  }

  /** The first piece ends at the first space; the remaining pieces are those of what follows it. */
  lemma {:induction false} SplitAtFirstSpace(s: string)
    ensures var i := IndexOfSpace(s);
      && Split(s)[0] == s[..i]
      && (i == |s| ==> |Split(s)| == 1)
      && (i < |s| ==> Split(s)[1..] == Split(s[i + 1..]))
  {
    if s != [] && s[0] != ' ' {
      SplitAtFirstSpace(s[1..]);
      var i := IndexOfSpace(s);
      if i < |s| {
        assert s[1..][i - 1 + 1..] == s[i + 1..];
      }
      assert s[..i] == [s[0]] + s[1..][..i - 1];
    }
  }

  lemma {:induction false} SplitJoin(pieces: seq<string>)
    requires |pieces| >= 1
    requires forall i :: 0 <= i < |pieces| ==> ' ' !in pieces[i]
    ensures Split(Join(pieces)) == pieces
  {
    var s := Join(pieces);
    if |pieces| == 1 {
      assert s[..|s|] == s;
      FirstSpaceIsUnique(s, |s|);
    } else {
      var p := pieces[0];
      assert s == p + " " + Join(pieces[1..]);
      assert s[..|p|] == p;
      FirstSpaceIsUnique(s, |p|);
      assert s[|p| + 1..] == Join(pieces[1..]);
      SplitJoin(pieces[1..]);
    }
    SplitAtFirstSpace(s);
  }

  /** `const [firstName = '', lastName = ''] = username.split(" ")`: the first name is the
      text before the first space and the last name the text between the first space
      and the next one (or the end); whatever follows a second space is dropped. */
  function Names(username: string): (names: (string, string))
    ensures var i := IndexOfSpace(username);
      && names.0 == username[..i]
      && names.1 == if i == |username| then "" else
           var rest := username[i + 1..]; rest[..IndexOfSpace(rest)]
  {
    var pieces := Split(username);
    SplitAtFirstSpace(username);
    var i := IndexOfSpace(username);
    if i < |username| then SplitAtFirstSpace(username[i + 1..]); (pieces[0], pieces[1])
    else (pieces[0], "")
  }

  /** The registration in the repository's test suite: "Test User" gives "Test" and "User". */
  lemma TestUserNames()
    ensures Names("Test User") == ("Test", "User")
  {
    var u := "Test User";
    assert u[..4] == "Test";
    FirstSpaceIsUnique(u, 4);
    var rest := u[5..];
    assert rest == "User" && rest[..4] == rest;
    FirstSpaceIsUnique(rest, 4);
  }

  /** A three-word username keeps only its second word as the last name. */
  lemma MiddleWordIsLastName()
    ensures Names("Jane Mary Doe") == ("Jane", "Mary")
  {
    var u := "Jane Mary Doe";
    assert u[..4] == "Jane";
    FirstSpaceIsUnique(u, 4);
    var rest := u[5..];
    assert rest == "Mary Doe" && rest[..4] == "Mary";
    FirstSpaceIsUnique(rest, 4);
  }

  // ================================================================ responses

  /** A thrown value as the `catch` block sees it: the handlers' own `{status, message}`
      objects, or a foreign `Error`, which has a message and no status. */
  datatype Thrown = Thrown(status: Option<int>, message: Option<string>)

  /** `error.status || 500`. */
  function StatusOf(e: Thrown): int
  {
    if e.status.Some? && e.status.value != 0 then e.status.value else 500
  }

  /** `error.message || "Internal Server Error"`. */
  function MessageOf(e: Thrown): string
  {
    if e.message.Some? && e.message.value != "" then e.message.value else "Internal Server Error"
  }

  /** A database or bcrypt error caught by a handler: it has no status, so the reply
      is a 500 (never, say, a 409) carrying that error's own message. */
  function FromFault(f: Fault): (e: Thrown)
    ensures StatusOf(e) == 500
    ensures MessageOf(e) == if f.message != "" then f.message else "Internal Server Error"
  {
    Thrown(None, Some(f.message))
  }

  const MissingFieldsError := Thrown(Some(400), Some("Missing required fields"))
  const UserNotFound := Thrown(Some(404), Some("User not found"))
  const InvalidCredentials := Thrown(Some(401), Some("Invalid credentials"))
  const RegisteredMessage := "User Registered Successfully"
  const LoggedInMessage := "User Login Successful"

  /** The `res.status(...).json({status: "failed", message})` of a `catch` block. */
  function Failure(e: Thrown): Reply
  {
    Reply(StatusOf(e), JObj(map["status" := JStr("failed"), "message" := JStr(MessageOf(e))]))
  }

  /** The `data` of a success response: id, email and username, and nothing else. */
  function UserData(id: nat, email: string, username: string): Json
  {
    JObj(map["id" := JNum(id), "email" := JStr(email), "username" := JStr(username)])
  }

  function Success(message: string, data: Json): Json
  {
    JObj(map["status" := JNum(200), "message" := JStr(message), "data" := data])
  }

  /** The success payload keeps the password column, and every column but the three, out. */
  lemma SuccessCarriesNoSecret(message: string, id: nat, email: string, username: string)
    ensures var body := Success(message, UserData(id, email, username));
      && body.fields.Keys == {"status", "message", "data"}
      && body.fields["data"].fields.Keys == {"id", "email", "username"}
      && "password" !in body.fields["data"].fields
  {
  }

  // ================================================================ registerUser

  /** Which store statements fail, and with what error. */
  datatype StoreFaults = StoreFaults(begin: Option<Fault>, insert: Option<Fault>, commit: Option<Fault>)

  const NoFaults := StoreFaults(None, None, None)

  /** On success `registerUser` returns its response object to the route wrapper; on
      failure it sends the failure reply itself. */
  datatype RegisterOutcome = Returned(response: Json) | Sent(reply: Reply)

  /** One run of the handler: its outcome, the table after it, the statements it sent. */
  datatype RegisterRun = RegisterRun(outcome: RegisterOutcome, table: Table, log: seq<Command>)

  /** `!username || !email || !password` is false. */
  predicate HasRequiredFields(body: Body)
  {
    Truthy(body.username) && Truthy(body.email) && Truthy(body.password)
  }

  /** `[email, username, hashedPassword, firstName, lastName]`. */
  function InsertValues(body: Body, digest: string): (values: seq<string>)
    requires HasRequiredFields(body)
    ensures |values| == 5
  {
    var names := Names(body.username.value);
    [body.email.value, body.username.value, digest, names.0, names.1]
  }

  /** The `catch` path: ROLLBACK returns the table to its state at BEGIN (here, `t`). */
  function Aborted(t: Table, sent: seq<Command>, e: Thrown): RegisterRun
  {
    RegisterRun(Sent(Failure(e)), t, sent + [RollbackStmt])
  }

  /** What `registerUser` does, as a function of the table before it. */
  function Register(t: Table, body: Body, hasher: Hasher, salt: Salt, now: Timestamp,
                    faults: StoreFaults): (run: RegisterRun)
    requires WellFormed(t)
    ensures WellFormed(run.table)
    // atomicity: nothing changes, or exactly one row is added
    ensures run.outcome.Sent? ==> run.table == t
    ensures run.outcome.Returned? <==>
      && faults.begin.None? && HasRequiredFields(body)
      && hasher.hash(body.password.value, salt).Ok?
      && faults.insert.None? && faults.commit.None?
    ensures run.outcome.Returned? ==>
      var digest := hasher.hash(body.password.value, salt).value;
      var names := Names(body.username.value);
      var row := Row(t.nextId, body.email.value, body.username.value, digest, names.0, names.1, now, now);
      && row.id !in t.rows
      && run.table.rows == t.rows[row.id := row]
      && run.outcome.response == Success(RegisteredMessage, UserData(row.id, row.email, row.username))
    // the statements sent: BEGIN first, then at most one INSERT, COMMIT only right after it
    ensures |run.log| >= 2 && run.log[0] == BeginStmt
    ensures run.log[|run.log| - 1] == if run.outcome.Returned? then CommitStmt else RollbackStmt
    ensures forall i :: 0 <= i < |run.log| && run.log[i] == CommitStmt ==>
      0 < i && run.log[i - 1].CreateUserStmt?
    ensures forall i :: 0 <= i < |run.log| && run.log[i].CreateUserStmt? ==>
      i == 1 && HasRequiredFields(body) && hasher.hash(body.password.value, salt).Ok?
      && run.log[i].values == InsertValues(body, hasher.hash(body.password.value, salt).value)
  {
    if faults.begin.Some? then Aborted(t, [BeginStmt], FromFault(faults.begin.value))
    else if !HasRequiredFields(body) then Aborted(t, [BeginStmt], MissingFieldsError)
    else match hasher.hash(body.password.value, salt)
      case Err(f) => Aborted(t, [BeginStmt], FromFault(f))
      case Ok(digest) =>
        var values := InsertValues(body, digest);
        var sent := [BeginStmt, CreateUserStmt(values)];
        if faults.insert.Some? then Aborted(t, sent, FromFault(faults.insert.value))
        else
          var c := CreateUser(t, values[0], values[1], values[2], values[3], values[4], now);
          if faults.commit.Some? then Aborted(t, sent + [CommitStmt], FromFault(faults.commit.value))
          else RegisterRun(Returned(Success(RegisteredMessage, UserData(c.row.id, c.row.email, c.row.username))),
                           c.table, sent + [CommitStmt])
  }

  /** Every failure is a reply built from the error thrown on that path: a 400 for missing
      fields (with no INSERT sent), and a 500 with the error's own message for any
      database or bcrypt error. */
  lemma RegisterFailures(t: Table, body: Body, hasher: Hasher, salt: Salt, now: Timestamp, faults: StoreFaults)
    requires WellFormed(t)
    ensures var run := Register(t, body, hasher, salt, now, faults);
      && (faults.begin.Some? ==> run.outcome == Sent(Failure(FromFault(faults.begin.value))))
      && (faults.begin.None? && !HasRequiredFields(body) ==>
            run == RegisterRun(Sent(Reply(400, JObj(map["status" := JStr("failed"), "message" := JStr("Missing required fields")]))),
                               t, [BeginStmt, RollbackStmt]))
      && (faults.begin.None? && HasRequiredFields(body) && hasher.hash(body.password.value, salt).Err? ==>
            run.outcome == Sent(Failure(FromFault(hasher.hash(body.password.value, salt).fault))))
      && (faults.begin.None? && HasRequiredFields(body) && hasher.hash(body.password.value, salt).Ok?
          && faults.insert.Some? ==>
            run.outcome == Sent(Failure(FromFault(faults.insert.value))))
      && (faults.begin.None? && HasRequiredFields(body) && hasher.hash(body.password.value, salt).Ok?
          && faults.insert.None? && faults.commit.Some? ==>
            run.outcome == Sent(Failure(FromFault(faults.commit.value))))
      && (run.outcome.Sent? && run.outcome.reply.status != 400 ==> run.outcome.reply.status == 500)
  {
  }

  /** registerUser, over a connection already taken from the pool: BEGIN, field check,
      hash, name split, INSERT, COMMIT; on any error ROLLBACK and a failure reply; in
      every case the connection is released, once. */
  method RegisterUser(client: Client, body: Body, hasher: Hasher, salt: Salt, now: Timestamp,
                      faults: StoreFaults) returns (outcome: RegisterOutcome)
    requires client.Valid() && !client.inTx
    modifies client, client.table
    ensures client.Valid() && !client.inTx
    ensures client.releases == old(client.releases) + 1
    ensures var run := Register(old(client.table.Snapshot()), body, hasher, salt, now, faults);
      && outcome == run.outcome
      && client.table.Snapshot() == run.table
      && client.log == old(client.log) + run.log
  {
    var thrown: Option<Thrown> := None;
    var response: Option<Json> := None;
    var beginErr := client.Begin(faults.begin);
    if beginErr.Some? {
      thrown := Some(FromFault(beginErr.value));
    } else if !HasRequiredFields(body) {
      thrown := Some(MissingFieldsError);
    } else {
      var hashed := hasher.hash(body.password.value, salt);
      if hashed.Err? {
        thrown := Some(FromFault(hashed.fault));
      } else {
        var values := InsertValues(body, hashed.value);
        var inserted := client.CreateUser(values, now, faults.insert);
        if inserted.Err? {
          thrown := Some(FromFault(inserted.fault));
        } else {
          var user := inserted.value;
          var commitErr := client.Commit(faults.commit);
          if commitErr.Some? {
            thrown := Some(FromFault(commitErr.value));
          } else {
            response := Some(Success(RegisteredMessage, UserData(user.id, user.email, user.username)));
          }
        }
      }
    }
    if thrown.Some? {
      client.Rollback();
      outcome := Sent(Failure(thrown.value));
    } else {
      outcome := Returned(response.value);
    }
    client.Release();
  }

  // ================================================================ login

  /** `loginUser` with `[email]`: an absent email is bound as SQL NULL, which equals nothing. */
  function Lookup(t: Table, email: Option<string>): (rs: seq<LoginRow>)
    requires WellFormed(t)
    ensures rs == [] <==> !(email.Some? && HasEmail(t, email.value))
  {
    if email.Some? then LoginUser(t, email.value) else []
  }

  /** login: read the rows for the email, then 404, 401 or 200 on the first of them.
      `readFault` is the error of the SELECT, if it fails. */
  function Login(t: Table, body: Body, hasher: Hasher, readFault: Option<Fault>): (r: Reply)
    requires WellFormed(t)
    ensures r.status == 404 <==> readFault.None? && !(body.email.Some? && HasEmail(t, body.email.value))
    ensures r.status == 401 <==>
      readFault.None? && Lookup(t, body.email) != []
      && hasher.compare(body.password, Lookup(t, body.email)[0].password) == Ok(false)
    ensures r.status == 200 <==>
      readFault.None? && Lookup(t, body.email) != []
      && hasher.compare(body.password, Lookup(t, body.email)[0].password) == Ok(true)
    ensures r.status == 200 ==>
      var user := Lookup(t, body.email)[0];
      r.body == Success(LoggedInMessage, UserData(user.id, user.email, user.username))
    ensures r.status !in {200, 401, 404} ==> r.status == 500
    // the failure bodies: the fixed messages, or a read or compare error's own one
    ensures r.status == 404 ==> r.body == JObj(map["status" := JStr("failed"), "message" := JStr("User not found")])
    ensures r.status == 401 ==> r.body == JObj(map["status" := JStr("failed"), "message" := JStr("Invalid credentials")])
    ensures readFault.Some? ==> r == Failure(FromFault(readFault.value))
    ensures (readFault.None? && Lookup(t, body.email) != []
             && hasher.compare(body.password, Lookup(t, body.email)[0].password).Err?) ==>
      r == Failure(FromFault(hasher.compare(body.password, Lookup(t, body.email)[0].password).fault))
  {
    if readFault.Some? then Failure(FromFault(readFault.value))
    else
      var rows := Lookup(t, body.email);
      if |rows| == 0 then Failure(UserNotFound)
      else
        var user := rows[0];
        match hasher.compare(body.password, user.password)
        case Err(f) => Failure(FromFault(f))
        case Ok(valid) =>
          if !valid then Failure(InvalidCredentials)
          else Reply(200, Success(LoggedInMessage, UserData(user.id, user.email, user.username)))
  }

  // ================================================================ the two flows together

  /** Registering a new email and then logging in with the same password succeeds and
      returns the registration's data, provided bcrypt verifies its own digests. */
  lemma RegisterThenLogin(t: Table, body: Body, hasher: Hasher, salt: Salt, now: Timestamp)
    requires WellFormed(t) && Consistent(hasher)
    requires HasRequiredFields(body) && !HasEmail(t, body.email.value)
    requires hasher.hash(body.password.value, salt).Ok?
    ensures var run := Register(t, body, hasher, salt, now, NoFaults);
      && run.outcome.Returned?
      && Login(run.table, body, hasher, None) == Reply(200, Success(LoggedInMessage, run.outcome.response.fields["data"]))
  {
    var run := Register(t, body, hasher, salt, now, NoFaults);
    var email := body.email.value;
    var id := t.nextId;
    var row := run.table.rows[id];
    assert row.email == email;
    var rows := LoginUser(run.table, email);
    assert ToLoginRow(row) in rows;
    assert rows != [];
    assert rows[0].id in run.table.rows && run.table.rows[rows[0].id].email == email;
    assert rows[0].id == id;
    assert hasher.compare(Some(body.password.value), hasher.hash(body.password.value, salt).value) == Ok(true);
  }

  /** A second registration of an email whose INSERT the store rejects leaves the table,
      and so the first account, as it was. */
  lemma RejectedInsertKeepsTable(t: Table, body: Body, hasher: Hasher, salt: Salt, now: Timestamp, f: Fault)
    requires WellFormed(t)
    ensures Register(t, body, hasher, salt, now, NoFaults.(insert := Some(f))).table == t
  {
  }

  /** Behind the registration gate, the handler's own 400 can fire only through the email:
      password and username are already non-empty, so the email must be missing or
      empty and yet have been accepted by `isEmail`. */
  lemma GatedMissingFields(body: Body, isEmail: string -> bool)
    requires UserValidator.ValidateUserRegistration(body, isEmail).Next?
    requires !HasRequiredFields(body)
    ensures !Truthy(body.email) && isEmail("")
  {
  }
}
