/**
  The SQLite-backed credential store of app.py.

  The `users` table (id INTEGER PRIMARY KEY AUTOINCREMENT, email TEXT UNIQUE,
  password TEXT, images_processed INTEGER DEFAULT 0) is modelled as a `Db`
  value: a map from email to the row holding that email, plus the next id that
  AUTOINCREMENT hands out. Each SQL statement the store issues is a function on
  `Db`; the class `UsersTable` holds the table and runs those statements in
  place, one method per Python function.

  `hash_password` (SHA-256 hex digest) is not modelled bit for bit: it is the
  function-valued parameter `hash`, deterministic and otherwise unknown.
 */
module UsersDb {
  import opened Options

  /** One row of the `users` table, in column order (what `SELECT *` fetches). */
  datatype Row = Row(id: nat, email: string, password: string, imagesProcessed: nat)

  /** The table's contents. `nextId` is one more than the largest id ever inserted. */
  datatype Db = Db(rows: map<string, Row>, nextId: nat)

  /** Table invariant: rows are keyed by their own email (so emails are unique,
      the UNIQUE constraint), and ids are positive, below `nextId` and distinct
      (the primary key). */
  predicate Valid(db: Db)
  {
    && 1 <= db.nextId
    && (forall e :: e in db.rows ==> db.rows[e].email == e && 1 <= db.rows[e].id < db.nextId)
    && (forall e1, e2 :: e1 in db.rows && e2 in db.rows && e1 != e2 ==> db.rows[e1].id != db.rows[e2].id)
  }

  /** Every stored password is the hash of some password: the table never holds
      a value that did not come out of `hash`. */
  ghost predicate HashedOnly(db: Db, hash: string -> string)
  {
    forall e :: e in db.rows ==> exists p :: hash(p) == db.rows[e].password
  }

  /** CREATE TABLE on a fresh database: no rows, the first id is 1. */
  function EmptyTable(): (db: Db)
    ensures Valid(db) && db.rows == map[]
    ensures forall hash: string -> string :: HashedOnly(db, hash)
  {
    Db(map[], 1)
  }

  /** INSERT INTO users(email, password) VALUES (email, hash(password)).
      The UNIQUE constraint rejects an email already present; the statement is
      then rolled back and `add_user` reports False. The new row takes id
      `nextId` and a failed insert leaves `nextId` alone: this follows what
      SQLite does for an aborted one-row INSERT, whereas its documentation
      promises only increasing ids, possibly with gaps. */
  function InsertUser(db: Db, hash: string -> string, email: string, password: string): (r: (Db, bool))
    ensures r.1 <==> email !in db.rows
    ensures !r.1 ==> r.0 == db
    ensures r.1 ==> r.0.rows.Keys == db.rows.Keys + {email}
    ensures r.1 ==> r.0.rows[email] == Row(db.nextId, email, hash(password), 0)
    ensures r.1 ==> r.0.nextId == db.nextId + 1
    ensures forall e :: e in db.rows ==> e in r.0.rows && r.0.rows[e] == db.rows[e]
    ensures Valid(db) ==> Valid(r.0)
  {
    if email in db.rows then (db, false)
    else (Db(db.rows[email := Row(db.nextId, email, hash(password), 0)], db.nextId + 1), true)
  }

  /** SELECT * FROM users WHERE email = ? AND password = hash(password), first row.
      The result is characterised by the WHERE clause over all rows, so an
      unknown email and a wrong password give the same `None`. */
  function SelectByCredentials(db: Db, hash: string -> string, email: string, password: string): (r: Option<Row>)
    requires Valid(db)
    ensures r.Some? <==> exists row :: row in db.rows.Values && row.email == email && row.password == hash(password)
    ensures r.Some? ==> r.value in db.rows.Values && r.value.email == email && r.value.password == hash(password)
  {
    if email in db.rows && db.rows[email].password == hash(password) then Some(db.rows[email]) else None
  }

  /** UPDATE users SET images_processed = images_processed + 1 WHERE email = ?.
      Every row whose email column matches gains one; every other row, and the
      set of rows, stays as it was. */
  function UpdateIncrement(db: Db, email: string): (r: Db)
    requires Valid(db)
    ensures Valid(r)
    ensures r.rows.Keys == db.rows.Keys && r.nextId == db.nextId
    ensures forall e :: e in db.rows && db.rows[e].email == email ==>
      r.rows[e] == db.rows[e].(imagesProcessed := db.rows[e].imagesProcessed + 1)
    ensures forall e :: e in db.rows && db.rows[e].email != email ==> r.rows[e] == db.rows[e]
    ensures email !in db.rows ==> r == db
  {
    if email in db.rows then
      var row := db.rows[email];
      Db(db.rows[email := row.(imagesProcessed := row.imagesProcessed + 1)], db.nextId)
    else db
  }

  /** SELECT images_processed FROM users WHERE email = ?, or 0 when no row is fetched. */
  function SelectImageCount(db: Db, email: string): (n: nat)
    requires Valid(db)
    ensures forall row :: row in db.rows.Values && row.email == email ==> n == row.imagesProcessed
    ensures (forall row :: row in db.rows.Values ==> row.email != email) ==> n == 0
  {
    if email in db.rows then db.rows[email].imagesProcessed else 0
  }

  /** `increment_image_count(email)` called `n` times in a row. */
  function IncrementTimes(db: Db, email: string, n: nat): (r: Db)
    requires Valid(db)
    ensures Valid(r)
  {
    if n == 0 then db else UpdateIncrement(IncrementTimes(db, email, n - 1), email)
  }

  /** Inserting keeps every stored password a hash. */
  lemma InsertKeepsHashedOnly(db: Db, hash: string -> string, email: string, password: string)
    requires HashedOnly(db, hash)
    ensures HashedOnly(InsertUser(db, hash, email, password).0, hash)
  {
    var r := InsertUser(db, hash, email, password).0;
    forall e | e in r.rows
      ensures exists p :: hash(p) == r.rows[e].password
    {
      if e in db.rows {
        var p :| hash(p) == db.rows[e].password;
        assert hash(p) == r.rows[e].password;
      } else {
        assert hash(password) == r.rows[e].password;
      }
    }
  }

  /** The increment touches only counters, so stored passwords stay hashes. */
  lemma IncrementKeepsHashedOnly(db: Db, hash: string -> string, email: string)
    requires Valid(db) && HashedOnly(db, hash)
    ensures HashedOnly(UpdateIncrement(db, email), hash)
  {
    var r := UpdateIncrement(db, email);
    forall e | e in r.rows
      ensures exists p :: hash(p) == r.rows[e].password
    {
      var p :| hash(p) == db.rows[e].password;
      assert hash(p) == r.rows[e].password;
    }
  }

  /** A successful registration followed by a login with the same password
      fetches the new row, since `hash` is deterministic. */
  lemma RegisterThenLogin(db: Db, hash: string -> string, email: string, password: string)
    requires Valid(db) && email !in db.rows
    ensures SelectByCredentials(InsertUser(db, hash, email, password).0, hash, email, password)
         == Some(Row(db.nextId, email, hash(password), 0))
  {
  }

  /** After registration, a login with another password succeeds exactly when
      the two passwords hash alike. */
  lemma RegisterThenLoginOther(db: Db, hash: string -> string, email: string, password: string, other: string)
    requires Valid(db) && email !in db.rows
    ensures SelectByCredentials(InsertUser(db, hash, email, password).0, hash, email, other).Some?
        <==> hash(other) == hash(password)
  {
  }

  /** Registering an email twice: the second attempt fails and changes nothing. */
  lemma RegisterTwice(db: Db, hash: string -> string, email: string, p1: string, p2: string)
    ensures var first := InsertUser(db, hash, email, p1).0;
            InsertUser(first, hash, email, p2) == (first, false)
  {
  }

  /** `n` increments of a registered account raise its counter by exactly `n`
      and leave every other account's counter alone. */
  lemma {:induction false} IncrementTimesCount(db: Db, email: string, n: nat, other: string)
    requires Valid(db)
    ensures IncrementTimes(db, email, n).rows.Keys == db.rows.Keys
    ensures email in db.rows ==>
      SelectImageCount(IncrementTimes(db, email, n), email) == SelectImageCount(db, email) + n
    ensures other != email ==>
      SelectImageCount(IncrementTimes(db, email, n), other) == SelectImageCount(db, other)
  {
    if n > 0 {
      IncrementTimesCount(db, email, n - 1, other);
    }
  }

  /** Registration then `n` increments: `get_image_count` returns `n`. */
  lemma RegisterThenCount(db: Db, hash: string -> string, email: string, password: string, n: nat)
    requires Valid(db) && email !in db.rows
    ensures SelectImageCount(IncrementTimes(InsertUser(db, hash, email, password).0, email, n), email) == n
  {
    IncrementTimesCount(InsertUser(db, hash, email, password).0, email, n, email);
  }

  /** The users table held by the running application. */
  class UsersTable {
    var rows: map<string, Row>
    var nextId: nat
    /** `hash_password`: SHA-256 hex digest, left uninterpreted. */
    const hash: string -> string

    /** The table as a value. */
    function Contents(): Db
      reads this
    {
      Db(rows, nextId)
    }

    ghost predicate Invariant()
      reads this
    {
      Valid(Contents()) && HashedOnly(Contents(), hash)
    }

    /** `create_table()` on a database with no users table yet. */
    constructor (hash: string -> string)
      ensures Invariant() && Contents() == EmptyTable() && this.hash == hash
    {
      rows := map[];
      nextId := 1;
      this.hash := hash;
    }

    /** `add_user(email, password)`: True and one new row, or False and no change. */
    method AddUser(email: string, password: string) returns (ok: bool)
      requires Invariant()
      modifies this
      ensures Invariant()
      ensures (Contents(), ok) == InsertUser(old(Contents()), hash, email, password)
    {
      if email in rows {
        ok := false;
      } else {
        InsertKeepsHashedOnly(Contents(), hash, email, password);
        rows := rows[email := Row(nextId, email, hash(password), 0)];
        nextId := nextId + 1;
        ok := true;
      }
    }

    /** `login_user(email, password)`: the matching row, or None. */
    method LoginUser(email: string, password: string) returns (data: Option<Row>)
      requires Invariant()
      ensures data == SelectByCredentials(Contents(), hash, email, password)
      ensures data.Some? ==> data.value in rows.Values && data.value.email == email
    {
      var hashed := hash(password);
      if email in rows && rows[email].password == hashed {
        data := Some(rows[email]);
      } else {
        data := None;
      }
    }

    /** `increment_image_count(email)`: one more on that account, a no-op otherwise. */
    method IncrementImageCount(email: string)
      requires Invariant()
      modifies this
      ensures Invariant()
      ensures Contents() == UpdateIncrement(old(Contents()), email)
    {
      IncrementKeepsHashedOnly(Contents(), hash, email);
      if email in rows {
        var row := rows[email];
        rows := rows[email := row.(imagesProcessed := row.imagesProcessed + 1)];
      }
    }

    /** `get_image_count(email)`: the stored counter, or 0. */
    method GetImageCount(email: string) returns (count: nat)
      requires Invariant()
      ensures count == SelectImageCount(Contents(), email)
      ensures email !in rows ==> count == 0
    {
      if email in rows {
        count := rows[email].imagesProcessed;
      } else {
        count := 0;
      }
    }
  }
}
