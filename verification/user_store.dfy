/** The users table and the store operations of user/stores: the model-level
    emptiness check (models_postgres.go) and create / read / update / delete
    over an in-memory table (services_postgres.go).

    The table is a map from primary key to row plus the next value of the
    primary-key sequence. Every database call can fail for reasons outside
    the model (a lost connection, a closed transaction); such a failure is the
    explicit `fault` argument, and a faulted call changes nothing. "Record
    not found" is not a fault: it follows from the table's contents. */
module UserStore {
  import opened Wrappers
  import opened Validation

  /** A row of the users table. `id` is the primary key of `gorm.Model`,
      zero for a row not yet inserted; the timestamps are not modelled. */
  datatype User = User(id: nat, name: string, email: string, password: string)

  const NameRequired := ModelValidationError("Name", "Name is required")
  const EmailRequired := ModelValidationError("Email", "Email is required")
  const PasswordRequired := ModelValidationError("Password", "Password is required")

  /** Position of a field in the fixed order of the emptiness checks. */
  function FieldRank(field: string): nat {
    if field == "Name" then 0 else if field == "Email" then 1 else 2
  }

  lemma RequiredErrorFacts()
    ensures NameRequired != EmailRequired && NameRequired != PasswordRequired && EmailRequired != PasswordRequired
    ensures FieldRank(NameRequired.field) == 0 && FieldRank(EmailRequired.field) == 1
    ensures FieldRank(PasswordRequired.field) == 2
    ensures NameRequired.message == NameRequired.field + " is required"
    ensures EmailRequired.message == EmailRequired.field + " is required"
    ensures PasswordRequired.message == PasswordRequired.field + " is required"
  {
    assert NameRequired.field[0] != EmailRequired.field[0];
    assert NameRequired.field[0] != PasswordRequired.field[0];
    assert EmailRequired.field[0] != PasswordRequired.field[0];
  }

  /** `User.Validate`: one error per empty field, checked in the order
      Name, Email, Password. Only emptiness is checked, so a non-empty but
      malformed e-mail passes. */
  function Validate(u: User): (errs: seq<ModelValidationError>)
    ensures errs == [] <==> u.name != "" && u.email != "" && u.password != ""
    ensures |errs| == (if u.name == "" then 1 else 0) + (if u.email == "" then 1 else 0)
                      + (if u.password == "" then 1 else 0)
    ensures NameRequired in errs <==> u.name == ""
    ensures EmailRequired in errs <==> u.email == ""
    ensures PasswordRequired in errs <==> u.password == ""
    ensures forall i :: 0 <= i < |errs| ==> errs[i].message == errs[i].field + " is required"
    ensures forall i, j :: 0 <= i < j < |errs| ==> FieldRank(errs[i].field) < FieldRank(errs[j].field)
  {
    var name := if u.name == "" then [NameRequired] else [];
    var email := if u.email == "" then [EmailRequired] else [];
    var password := if u.password == "" then [PasswordRequired] else [];
    RequiredErrorFacts();
    name + email + password
  }

  /** The table: the live rows by primary key, the keys of soft-deleted rows
      (`gorm.Model` only stamps `deleted_at`, so such a row keeps its key
      while no read sees it), and the next automatic key. */
  datatype Db = Db(rows: map<nat, User>, deleted: set<nat>, nextId: nat)

  /** Keys start at 1, every key, live or soft-deleted, is below the next
      automatic key, no key is both, and every row carries its own key. */
  predicate Valid(db: Db) {
    && db.nextId >= 1
    && (forall id :: id in db.rows ==> 1 <= id < db.nextId && db.rows[id].id == id)
    && (forall id :: id in db.deleted ==> 1 <= id < db.nextId && id !in db.rows)
  }

  /** The empty table. */
  const EmptyDb := Db(map[], {}, 1)

  /** The reply of a write: the model errors, the database error, the row as
      written (with its key filled in, as gorm does through the pointer) and
      the table afterwards. */
  datatype WriteReply = WriteReply(errors: seq<ModelValidationError>, err: Option<Error>, user: User, db: Db)

  const DuplicateKeyError: Error := "duplicate key value violates unique constraint \"users_pkey\""

  /** Insert a row under its own key, or under the next automatic key when
      its key is zero; a key held by a row, live or soft-deleted, is a
      primary-key violation. */
  function Insert(db: Db, u: User): (r: WriteReply)
    ensures r.errors == []
    ensures r.err.None? ==> r.user.id !in db.rows && r.db.rows == db.rows[r.user.id := r.user]
    ensures r.err.None? ==> r.user.id !in db.deleted && r.db.deleted == db.deleted
    ensures u.id != 0 && (u.id in db.rows || u.id in db.deleted) ==> r == WriteReply([], Some(DuplicateKeyError), u, db)
    ensures r.err.None? ==> r.user == u.(id := r.user.id) && r.user.id >= 1
    ensures r.err.Some? ==> r.db == db
    ensures u.id == 0 && r.err.None? ==> r.user.id == db.nextId
    ensures u.id != 0 ==> r.user.id == u.id
    ensures Valid(db) ==> Valid(r.db)
    ensures Valid(db) && u.id == 0 ==> r.err.None?
  {
    var key := if u.id == 0 then db.nextId else u.id;
    if key in db.rows || key in db.deleted || key == 0 then
      WriteReply([], Some(DuplicateKeyError), u, db)
    else
      var row := u.(id := key);
      WriteReply([], None, row, Db(db.rows[key := row], db.deleted, if key + 1 > db.nextId then key + 1 else db.nextId))
  }

  /** `CreateUser`: a row with model errors is refused with those errors and
      no database error, and nothing is written; otherwise the row is
      inserted. */
  function CreateUser(db: Db, u: User, fault: Option<Error>): (r: WriteReply)
    ensures Validate(u) != [] ==> r == WriteReply(Validate(u), None, u, db)
    ensures Validate(u) == [] ==> r.errors == []
    ensures r.errors != [] || r.err.Some? ==> r.db == db
    ensures Validate(u) == [] && fault.Some? ==> r.err == fault
    ensures r.errors == [] && r.err.None? ==>
      && r.user == u.(id := r.user.id)
      && r.user.id !in db.rows
      && r.db.rows == db.rows[r.user.id := r.user]
    ensures Valid(db) ==> Valid(r.db)
    ensures Valid(db) && Validate(u) == [] && fault.None? && u.id == 0 ==>
      r.err.None? && r.user.id == db.nextId
  {
    var errs := Validate(u);
    if errs != [] then WriteReply(errs, None, u, db)
    else if fault.Some? then WriteReply([], fault, u, db)
    else Insert(db, u)
  }

  /** The smallest key in `from .. to - 1` whose row has the given e-mail. */
  function FirstWithEmail(rows: map<nat, User>, email: string, from: nat, to: nat): (r: Option<nat>)
    ensures r.Some? ==> from <= r.value < to && r.value in rows && rows[r.value].email == email
    ensures r.Some? ==> forall id :: from <= id < r.value && id in rows ==> rows[id].email != email
    ensures r.None? <==> (forall id :: from <= id < to && id in rows ==> rows[id].email != email)
    decreases if from < to then to - from else 0
  {
    if from >= to then None
    else if from in rows && rows[from].email == email then Some(from)
    else FirstWithEmail(rows, email, from + 1, to)
  }

  /** `GetUserByEmail`: gorm's `First` reads the matching row with the
      smallest primary key; no matching row is a nil user with a nil error,
      and only a database failure is an error. */
  function GetUserByEmail(db: Db, email: string, fault: Option<Error>): (r: Result<Option<User>, Error>)
    ensures fault.Some? ==> r == Failure(fault.value)
    ensures fault.None? ==> r.Success?
    ensures Valid(db) && fault.None? ==>
      (r.value.None? <==> forall id :: id in db.rows ==> db.rows[id].email != email)
    ensures Valid(db) && r.Success? && r.value.Some? ==>
      var u := r.value.value;
      && u.id in db.rows && db.rows[u.id] == u && u.email == email
      && forall id :: id in db.rows && db.rows[id].email == email ==> u.id <= id
  {
    if fault.Some? then Failure(fault.value)
    else
      match FirstWithEmail(db.rows, email, 0, db.nextId)
      case None => Success(None)
      case Some(id) => Success(Some(db.rows[id]))
  }

  /** `GetUserByID`: the row under that key, a nil user with a nil error when
      there is none, or the database failure. */
  function GetUserByID(db: Db, id: nat, fault: Option<Error>): (r: Result<Option<User>, Error>)
    ensures fault.Some? ==> r == Failure(fault.value)
    ensures fault.None? ==> r.Success? && (r.value.Some? <==> id in db.rows)
    ensures r.Success? && r.value.Some? ==> r.value.value == db.rows[id]
    ensures Valid(db) && r.Success? && r.value.Some? ==> r.value.value.id == id
  {
    if fault.Some? then Failure(fault.value)
    else if id in db.rows then Success(Some(db.rows[id]))
    else Success(None)
  }

  /** `UpdateUser`: a row with model errors is refused and the table is left
      as it was; otherwise gorm's `Save` replaces the row under its key. Its
      update skips soft-deleted rows, so for a soft-deleted key it falls back
      to an insert that, on the key conflict, overwrites every column,
      `deleted_at` included, and the row is live again. With no row under
      the key at all (including key zero) the row is inserted. */
  function UpdateUser(db: Db, u: User, fault: Option<Error>): (r: WriteReply)
    ensures Validate(u) != [] ==> r == WriteReply(Validate(u), None, u, db)
    ensures Validate(u) == [] ==> r.errors == []
    ensures r.errors != [] || r.err.Some? ==> r.db == db
    ensures Validate(u) == [] && fault.Some? ==> r.err == fault
    ensures Validate(u) == [] && fault.None? && (u.id in db.rows || u.id in db.deleted) ==>
      && r.err.None? && r.user == u
      && r.db.rows == db.rows[u.id := u] && r.db.deleted == db.deleted - {u.id}
    ensures Valid(db) ==> Valid(r.db)
  {
    var errs := Validate(u);
    if errs != [] then WriteReply(errs, None, u, db)
    else if fault.Some? then WriteReply([], fault, u, db)
    else if u.id in db.rows || u.id in db.deleted then
      WriteReply([], None, u, db.(rows := db.rows[u.id := u], deleted := db.deleted - {u.id}))
    else Insert(db, u)
  }

  /** The reply of a delete: the database error and the table afterwards. */
  datatype DeleteReply = DeleteReply(err: Option<Error>, db: Db)

  /** gorm's `ErrMissingWhereClause`: a delete with no condition on the key. */
  const MissingWhereClause: Error := "WHERE conditions required"

  /** `DeleteUser`: the row under the user's key is soft-deleted (gorm
      stamps `deleted_at`, no later read returns it, and its key stays
      taken); deleting a key with no live row is not an error and changes
      nothing. A zero key gives the statement no key condition,
      so gorm refuses it before any SQL reaches the database. */
  function DeleteUser(db: Db, u: User, fault: Option<Error>): (r: DeleteReply)
    ensures u.id == 0 ==> r == DeleteReply(Some(MissingWhereClause), db)
    ensures u.id != 0 && fault.Some? ==> r == DeleteReply(fault, db)
    ensures u.id != 0 && fault.None? ==> r.err.None? && r.db.rows.Keys == db.rows.Keys - {u.id}
    ensures u.id != 0 && fault.None? ==>
      r.db.deleted == (if u.id in db.rows then db.deleted + {u.id} else db.deleted)
    ensures forall id :: id in r.db.rows ==> id in db.rows && r.db.rows[id] == db.rows[id]
    ensures Valid(db) ==> Valid(r.db)
  {
    if u.id == 0 then DeleteReply(Some(MissingWhereClause), db)
    else if fault.Some? then DeleteReply(fault, db)
    else if u.id in db.rows then DeleteReply(None, db.(rows := db.rows - {u.id}, deleted := db.deleted + {u.id}))
    else DeleteReply(None, db)
  }

  /** A row created in a valid table can be read back by its new key, and by
      its e-mail when no earlier row has that e-mail; nothing else moved. */
  lemma CreateThenRead(db: Db, u: User)
    requires Valid(db) && u.id == 0 && Validate(u) == []
    ensures var r := CreateUser(db, u, None);
      && r.err.None? && r.errors == []
      && r.user.id >= 1
      && GetUserByID(r.db, r.user.id, None) == Success(Some(u.(id := r.user.id)))
      && ((forall id :: id in db.rows ==> db.rows[id].email != u.email) ==>
            GetUserByEmail(r.db, u.email, None) == Success(Some(u.(id := r.user.id))))
      && forall id :: id in db.rows ==> GetUserByID(r.db, id, None) == GetUserByID(db, id, None)
  {
    var r := CreateUser(db, u, None);
    if forall id :: id in db.rows ==> db.rows[id].email != u.email {
      var found := GetUserByEmail(r.db, u.email, None);
      assert r.db.rows[r.user.id].email == u.email;
      assert found.value.Some?;
      assert found.value.value.id == r.user.id;
    }
  }

  /** An update of an existing row with no model errors is what later reads
      return; an update with model errors leaves every read unchanged. */
  lemma UpdateThenRead(db: Db, u: User, id: nat)
    requires Valid(db) && u.id in db.rows
    ensures Validate(u) == [] ==> GetUserByID(UpdateUser(db, u, None).db, u.id, None) == Success(Some(u))
    ensures Validate(u) != [] ==> GetUserByID(UpdateUser(db, u, None).db, id, None) == GetUserByID(db, id, None)
  {
  }

  /** After a delete, reading the deleted key finds nothing, and reading any
      other key finds what it found before; a zero key is refused and the
      table stays as it was. */
  lemma DeleteThenRead(db: Db, u: User, id: nat)
    ensures u.id != 0 ==> GetUserByID(DeleteUser(db, u, None).db, u.id, None) == Success(None)
    ensures u.id == 0 ==> DeleteUser(db, u, None).err.Some? && DeleteUser(db, u, None).db == db
    ensures id != u.id ==> GetUserByID(DeleteUser(db, u, None).db, id, None) == GetUserByID(db, id, None)
  {
  }

  /** A soft-deleted key stays taken: creating a row under it again is the
      primary-key violation, and nothing changes; saving a row under it
      brings the row back, readable by its key. */
  lemma SoftDeletedKeyStaysTaken(db: Db, u: User, v: User)
    requires Valid(db) && u.id == 0 && Validate(u) == []
    requires v.id == db.nextId && Validate(v) == []
    ensures var created := CreateUser(db, u, None).db;
      var gone := DeleteUser(created, u.(id := db.nextId), None).db;
      && GetUserByID(gone, v.id, None) == Success(None)
      && CreateUser(gone, v, None) == WriteReply([], Some(DuplicateKeyError), v, gone)
      && GetUserByID(UpdateUser(gone, v, None).db, v.id, None) == Success(Some(v))
  {
    var created := CreateUser(db, u, None).db;
    assert v.id in created.rows;
    var gone := DeleteUser(created, u.(id := db.nextId), None).db;
    assert v.id in gone.deleted;
  }
}
