/** The `users` table as state changed in place, and the pooled database connection
    through which the registration flow runs its transaction. */
module Store {
  import opened Wrappers
  import opened UserQueries

  /** The `users` table; its mutating statements rewrite `rows` in place. */
  class UsersTable {
    var rows: map<nat, Row>
    var nextId: nat

    function Snapshot(): Table
      reads this
    {
      Table(rows, nextId)
    }

    ghost predicate Valid()
      reads this
    {
      WellFormed(Snapshot())
    }

    constructor ()
      ensures Valid() && Snapshot() == EmptyTable
    {
      rows := map[];
      nextId := 0;
    }

    /** `createUser`, with the parameters $1..$5 bound by position. */
    method CreateUser(email: string, username: string, password: string,
                      firstName: string, lastName: string, now: Timestamp) returns (row: Row)
      requires Valid()
      modifies this
      ensures Valid()
      ensures Created(Snapshot(), row) == UserQueries.CreateUser(old(Snapshot()), email, username, password, firstName, lastName, now)
    {
      row := Row(nextId, email, username, password, firstName, lastName, now, now);
      rows := rows[nextId := row];
      nextId := nextId + 1;
    }

    /** `updateUserById`, returning the `RETURNING *` rows. */
    method UpdateUserById(email: string, username: string, firstName: string,
                          lastName: string, id: nat, now: Timestamp) returns (returned: seq<Row>)
      requires Valid()
      modifies this
      ensures Valid()
      ensures Updated(Snapshot(), returned) == UserQueries.UpdateUserById(old(Snapshot()), email, username, firstName, lastName, id, now)
    {
      returned := [];
      if id in rows {
        var row := rows[id].(email := email, username := username, firstName := firstName,
                             lastName := lastName, lastModifiedAt := now);
        rows := rows[id := row];
        returned := [row];
      }
    }

    /** `updatePassword`, returning the `RETURNING *` rows. */
    method UpdatePassword(password: string, id: nat, now: Timestamp) returns (returned: seq<Row>)
      requires Valid()
      modifies this
      ensures Valid()
      ensures Updated(Snapshot(), returned) == UserQueries.UpdatePassword(old(Snapshot()), password, id, now)
    {
      returned := [];
      if id in rows {
        var row := rows[id].(password := password, lastModifiedAt := now);
        rows := rows[id := row];
        returned := [row];
      }
    }

    /** `deleteUser`. */
    method DeleteUser(id: nat)
      requires Valid()
      modifies this
      ensures Valid()
      ensures Snapshot() == UserQueries.DeleteUser(old(Snapshot()), id)
    {
      rows := rows - {id};
    }

    /** Puts back a saved state of the table (what ROLLBACK does to it). */
    method Restore(saved: Table)
      requires WellFormed(saved)
      modifies this
      ensures Valid() && Snapshot() == saved
    {
      rows := saved.rows;
      nextId := saved.nextId;
    }
  }

  /** The statements sent over a connection, in order. */
  datatype Command = BeginStmt | CreateUserStmt(values: seq<string>) | CommitStmt | RollbackStmt

  /** A client checked out of the pool by `db.connect()`. Each statement may fail with a
      fault that the caller supplies; what it would be (a duplicate email, a lost
      connection) lies in the database, not in this model. */
  class Client {
    const table: UsersTable
    var log: seq<Command>
    var inTx: bool
    var saved: Table
    var releases: nat

    ghost predicate Valid()
      reads this, table
    {
      table.Valid() && (inTx ==> WellFormed(saved))
    }

    constructor (table: UsersTable)
      requires table.Valid()
      ensures Valid() && this.table == table
      ensures log == [] && !inTx && releases == 0
    {
      this.table := table;
      log := [];
      inTx := false;
      saved := EmptyTable;
      releases := 0;
    }

    /** `client.query('BEGIN')`: on success the table's state is saved for a rollback. */
    method Begin(fault: Option<Fault>) returns (err: Option<Fault>)
      requires Valid()
      modifies this
      ensures Valid() && err == fault
      ensures log == old(log) + [BeginStmt] && releases == old(releases)
      ensures inTx == (old(inTx) || fault.None?)
      ensures inTx && !old(inTx) ==> saved == table.Snapshot()
      ensures old(inTx) ==> saved == old(saved)
    {
      log := log + [BeginStmt];
      err := fault;
      if fault.None? && !inTx {
        saved := table.Snapshot();
        inTx := true;
      }
    }

    /** `client.query(createUser, values)`: a failed statement leaves the table as it was. */
    method CreateUser(values: seq<string>, now: Timestamp, fault: Option<Fault>) returns (res: Result<Row>)
      requires Valid() && |values| == 5
      modifies this, table
      ensures Valid() && log == old(log) + [CreateUserStmt(values)]
      ensures inTx == old(inTx) && saved == old(saved) && releases == old(releases)
      ensures fault.Some? ==> res == Err(fault.value) && table.Snapshot() == old(table.Snapshot())
      ensures fault.None? ==>
        var c := UserQueries.CreateUser(old(table.Snapshot()), values[0], values[1], values[2], values[3], values[4], now);
        res == Ok(c.row) && table.Snapshot() == c.table
    {
      log := log + [CreateUserStmt(values)];
      if fault.Some? {
        res := Err(fault.value);
      } else {
        var row := table.CreateUser(values[0], values[1], values[2], values[3], values[4], now);
        res := Ok(row);
      }
    }

    /** `client.query('COMMIT')`: on success the changes stay; on failure the
        transaction is still open, to be rolled back. */
    method Commit(fault: Option<Fault>) returns (err: Option<Fault>)
      requires Valid()
      modifies this
      ensures Valid() && err == fault
      ensures log == old(log) + [CommitStmt] && releases == old(releases)
      ensures inTx == (old(inTx) && fault.Some?) && saved == old(saved)
    {
      log := log + [CommitStmt];
      err := fault;
      if fault.None? {
        inTx := false;
      }
    }

    /** `client.query('ROLLBACK')`: the table goes back to its state at BEGIN; with no
        transaction open it changes nothing. */
    method Rollback()
      requires Valid()
      modifies this, table
      ensures Valid() && !inTx
      ensures log == old(log) + [RollbackStmt] && releases == old(releases)
      ensures table.Snapshot() == if old(inTx) then old(saved) else old(table.Snapshot())
    {
      log := log + [RollbackStmt];
      if inTx {
        table.Restore(saved);
        inTx := false;
      }
    }

    /** `client.release()`: hands the connection back to the pool. */
    method Release()
      modifies this
      ensures releases == old(releases) + 1
      ensures log == old(log) && inTx == old(inTx) && saved == old(saved)
    {
      releases := releases + 1;
    }
  }
}
