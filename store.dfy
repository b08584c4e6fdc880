/**
 * The write side of the contacts repository: `create_contact`,
 * `update_contact` and `delete_contact` as methods on the `contacts`
 * table, which maps each primary key to its row.
 */
module ContactStore {
  import opened Wrappers
  import opened Dates
  import opened Models
  import opened Schemas
  import opened ContactQueries

  /** A storage error reported by the database. */
  datatype DbCause = UniqueViolation | ValueTooLong | Unavailable

  /** How an operation fails: an HTTPException the repository raises, or a database error it lets escape. */
  datatype RepoError = HttpError(statusCode: int, detail: string) | DatabaseError(cause: DbCause)

  const NotFound: RepoError := HttpError(404, "Contact not found")
  const BirthdayNotPast: RepoError := HttpError(400, "Birthday must be in the past")

  function CauseText(cause: DbCause): string {
    match cause
    case UniqueViolation => "duplicate key value violates unique constraint"
    case ValueTooLong => "value too long for type character varying(150)"
    case Unavailable => "connection unavailable"
  }

  /** What `create_contact` reports for a caught database error: a 500 carrying its message. */
  function ServerError(cause: DbCause): (f: RepoError)
    ensures f.HttpError? && f.statusCode == 500
    ensures |f.detail| >= 16 && f.detail[..16] == "Database error: "
  {
    HttpError(500, "Database error: " + CauseText(cause))
  }

  /** `select(Contact).filter_by(id=contact_id, user=user)` finds a row. */
  predicate Owns(rows: map<int, Contact>, id: int, user: User) {
    id in rows && OwnedBy(rows[id], user)
  }

  /** The row after `update_contact` has overwritten its five body fields. */
  function Overwritten(c: Contact, u: ContactUpdate): (r: Contact)
    ensures r.id == c.id && r.userId == c.userId
    ensures forall i :: 0 <= i < |UpdateFields| ==> FieldOf(r, UpdateFields[i]) == DumpUpdate(u)[i].1
  {
    c.(name := u.name, surname := u.surname, email := u.email, phone := u.phone, birthday := u.birthday)
  }

  /** The update is a full replace, not a merge: the row's previous field values leave no trace. */
  lemma OverwriteIsFullReplace(c: Contact, c': Contact, u: ContactUpdate)
    requires c.id == c'.id && c.userId == c'.userId
    ensures Overwritten(c, u) == Overwritten(c', u)
  {
  }

  /** The value of one body attribute of a row. */
  function FieldOf(c: Contact, key: string): FieldValue {
    if key == "name" then Str(c.name)
    else if key == "surname" then Str(c.surname)
    else if key == "email" then Str(c.email)
    else if key == "phone" then Str(c.phone)
    else if key == "birthday" then Day(c.birthday)
    else Str("")
  }

  /** `setattr(row, key, value)` for the attributes a dumped update body holds. */
  function SetAttr(c: Contact, key: string, v: FieldValue): (c': Contact)
    requires key in UpdateFields && (key == "birthday" <==> v.Day?)
    ensures c'.id == c.id && c'.userId == c.userId
    ensures FieldOf(c', key) == v
    ensures forall k :: k in UpdateFields && k != key ==> FieldOf(c', k) == FieldOf(c, k)
  {
    match v
    case Day(d) => c.(birthday := d)
    case Str(s) =>
      if key == "name" then c.(name := s)
      else if key == "surname" then c.(surname := s)
      else if key == "email" then c.(email := s)
      else c.(phone := s)
  }

  /** Some primary key of a non-empty table. */
  ghost function AnyKey(rows: map<int, Contact>): (k: int)
    requires |rows| > 0
    ensures k in rows
  {
    if forall j :: j !in rows then assert false; 0 else var k :| k in rows; k
  }

  /**
   * The rows in the order a query without ORDER BY happens to see them:
   * each row exactly once, in an order the model leaves open.
   */
  ghost function Scan(rows: map<int, Contact>): (s: seq<Contact>)
    ensures |s| == |rows|
    ensures forall k :: k in rows ==> rows[k] in s
    ensures forall c :: c in s ==> exists k :: k in rows && rows[k] == c
    decreases |rows|
  {
    if |rows| == 0 then []
    else
      var k := AnyKey(rows);
      var rest := rows - {k};
      assert rest.Keys == rows.Keys - {k};
      var s := Scan(rest) + [rows[k]];
      assert forall j :: j in rows ==> rows[j] in s by {
        forall j | j in rows ensures rows[j] in s {
          if j != k { assert j in rest && rest[j] == rows[j]; }
        }
      }
      assert forall c :: c in s ==> exists j :: j in rows && rows[j] == c by {
        forall c | c in s ensures exists j :: j in rows && rows[j] == c {
          if c in Scan(rest) {
            var j :| j in rest && rest[j] == c;
            assert rows[j] == c;
          } else {
            assert rows[k] == c;
          }
        }
      }
      s
  }

  /** `get_contact` over the table finds exactly the row the primary key names, when `user` owns it. */
  lemma ScanLookup(rows: map<int, Contact>, id: int, user: User)
    requires KeysConsistent(rows)
    ensures GetContact(id, Scan(rows), user) == if Owns(rows, id, user) then Some(rows[id]) else None
  {
    var r := GetContact(id, Scan(rows), user);
    if Owns(rows, id, user) {
      assert rows[id] in Scan(rows);
    }
    if r.Some? {
      var j :| j in rows && rows[j] == r.value;
      assert j == id;
    }
  }

  /** After a delete, `get_contact` no longer finds the row. */
  lemma DeletedIsGone(rows: map<int, Contact>, id: int, user: User)
    requires KeysConsistent(rows)
    ensures GetContact(id, Scan(rows - {id}), user) == None
  {
    ScanLookup(rows - {id}, id, user);
  }

  /** Right after a create, `get_contact` returns the new row with the body's values. */
  lemma CreatedIsFound(rows: map<int, Contact>, c: Contact, user: User)
    requires KeysConsistent(rows) && OwnedBy(c, user)
    ensures GetContact(c.id, Scan(rows[c.id := c]), user) == Some(c)
  {
    ScanLookup(rows[c.id := c], c.id, user);
  }

  /** Storing a row under one key leaves every other id's lookup as it was. */
  lemma StoreLeavesOthers(rows: map<int, Contact>, c: Contact, other: int, user: User)
    requires KeysConsistent(rows) && other != c.id
    ensures GetContact(other, Scan(rows[c.id := c]), user) == GetContact(other, Scan(rows), user)
  {
    var rows' := rows[c.id := c];
    assert KeysConsistent(rows');
    assert Owns(rows', other, user) == Owns(rows, other, user);
    ScanLookup(rows, other, user);
    ScanLookup(rows', other, user);
  }

  /** Removing the row under one key leaves every other id's lookup as it was. */
  lemma RemoveLeavesOthers(rows: map<int, Contact>, id: int, other: int, user: User)
    requires KeysConsistent(rows) && other != id
    ensures GetContact(other, Scan(rows - {id}), user) == GetContact(other, Scan(rows), user)
  {
    var rows' := rows - {id};
    assert KeysConsistent(rows');
    assert Owns(rows', other, user) == Owns(rows, other, user);
    ScanLookup(rows, other, user);
    ScanLookup(rows', other, user);
  }

  /** The `contacts` table with its serial primary-key counter. */
  class ContactsTable {
    var rows: map<int, Contact>
    var nextId: int

    ghost predicate Valid()
      reads this
    {
      TableValid(rows) && 1 <= nextId && forall k :: k in rows ==> 1 <= k < nextId
    }

    constructor ()
      ensures Valid() && rows == map[] && nextId == 1
    {
      rows := map[];
      nextId := 1;
    }

    /**
     * `create_contact`: a birthday on or after `today` is refused with 400;
     * otherwise the row is inserted under a fresh id and owned by `user`,
     * unless the database refuses it (a duplicate email, or a storage fault),
     * in which case the insert is rolled back and a 500 is raised.
     */
    method CreateContact(body: ContactSchema, user: User, today: Date, storageFault: bool)
      returns (r: Result<Contact, RepoError>)
      requires Valid() && ContactSchemaValid(body) && ValidDate(today)
      modifies this
      ensures Valid()
      ensures !Before(body.birthday, today) ==>
        r == Failure(BirthdayNotPast) && rows == old(rows) && nextId == old(nextId)
      ensures Before(body.birthday, today) && (storageFault || EmailTaken(old(rows), body.email, old(nextId))) ==>
        r == Failure(ServerError(if storageFault then Unavailable else UniqueViolation)) &&
        rows == old(rows) && nextId == old(nextId)
      ensures Before(body.birthday, today) && !storageFault && !EmailTaken(old(rows), body.email, old(nextId)) ==>
        && old(nextId) !in old(rows)
        && r == Success(Contact(old(nextId), body.name, body.surname, body.email, body.phone, body.birthday, Some(user.id)))
        && rows == old(rows)[old(nextId) := r.value]
        && nextId == old(nextId) + 1
    {
      if !Before(body.birthday, today) {
        return Failure(BirthdayNotPast);
      }
      var contact := Contact(nextId, body.name, body.surname, body.email, body.phone, body.birthday, Some(user.id));
      if storageFault {
        return Failure(ServerError(Unavailable));
      }
      if EmailTaken(rows, contact.email, contact.id) {
        return Failure(ServerError(UniqueViolation));
      }
      StorePreservesValid(rows, contact);
      rows := rows[contact.id := contact];
      nextId := nextId + 1;
      r := Success(contact);
    }

    /**
     * `update_contact`: 404 unless `user` owns the row; otherwise every
     * attribute of the dumped body is set on the row and the change is
     * committed. A commit the database refuses (a duplicate email, a name
     * or surname over 150 characters) is not caught and changes nothing.
     */
    method UpdateContact(id: int, update: ContactUpdate, user: User) returns (r: Result<Contact, RepoError>)
      requires Valid() && ContactUpdateValid(update)
      modifies this
      ensures Valid() && nextId == old(nextId)
      ensures !Owns(old(rows), id, user) ==> r == Failure(NotFound) && rows == old(rows)
      ensures Owns(old(rows), id, user) ==>
        var c := Overwritten(old(rows)[id], update);
        if !RowValid(c) then
          r == Failure(DatabaseError(ValueTooLong)) && rows == old(rows)
        else if EmailTaken(old(rows), c.email, id) then
          r == Failure(DatabaseError(UniqueViolation)) && rows == old(rows)
        else
          r == Success(c) && rows == old(rows)[id := c]
    {
      if !Owns(rows, id, user) {
        return Failure(NotFound);
      }
      var row := rows[id];
      var items := DumpUpdate(update);
      var i := 0;
      while i < |items|
        invariant 0 <= i <= |items|
        invariant row.id == rows[id].id && row.userId == rows[id].userId
        invariant forall j :: 0 <= j < i ==> FieldOf(row, UpdateFields[j]) == items[j].1
        invariant forall j :: i <= j < |items| ==> FieldOf(row, UpdateFields[j]) == FieldOf(rows[id], UpdateFields[j])
      {
        row := SetAttr(row, items[i].0, items[i].1);
        i := i + 1;
      }
      assert row == Overwritten(rows[id], update) by {
        assert FieldOf(row, UpdateFields[0]) == items[0].1;
        assert FieldOf(row, UpdateFields[1]) == items[1].1;
        assert FieldOf(row, UpdateFields[2]) == items[2].1;
        assert FieldOf(row, UpdateFields[3]) == items[3].1;
        assert FieldOf(row, UpdateFields[4]) == items[4].1;
      }
      if !RowValid(row) {
        return Failure(DatabaseError(ValueTooLong));
      }
      if EmailTaken(rows, row.email, id) {
        return Failure(DatabaseError(UniqueViolation));
      }
      StorePreservesValid(rows, row);
      rows := rows[id := row];
      r := Success(row);
    }

    /** `delete_contact`: 404 unless `user` owns the row; otherwise the row is removed and its last value returned. */
    method DeleteContact(id: int, user: User) returns (r: Result<Contact, RepoError>)
      requires Valid()
      modifies this
      ensures Valid() && nextId == old(nextId)
      ensures !Owns(old(rows), id, user) ==> r == Failure(NotFound) && rows == old(rows)
      ensures Owns(old(rows), id, user) ==> r == Success(old(rows)[id]) && rows == old(rows) - {id}
    {
      if !Owns(rows, id, user) {
        return Failure(NotFound);
      }
      r := Success(rows[id]);
      rows := rows - {id};
    }
  }
}
