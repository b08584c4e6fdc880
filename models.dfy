/**
 * The persistent entities: the `contacts` and `users` tables with the
 * column constraints they declare, and the role enumeration.
 */
module Models {
  import opened Wrappers
  import opened Dates

  /** `String(150)` on the contact's name and surname columns. */
  const NameMaxLength: nat := 150

  /** The `Role` enumeration; `Regular` is the member named `user`, whose stored value is "user". */
  datatype Role = Admin | Moderator | Regular

  function RoleValue(r: Role): string {
    match r
    case Admin => "admin"
    case Moderator => "moderator"
    case Regular => "user"
  }

  /** Reads a stored role value back; anything but the three values is not a role. */
  function ParseRole(s: string): (r: Option<Role>)
    ensures r.Some? ==> RoleValue(r.value) == s
  {
    if s == "admin" then Some(Admin)
    else if s == "moderator" then Some(Moderator)
    else if s == "user" then Some(Regular)
    else None
  }

  /** Every role survives being stored and read back, so the three stored values are distinct. */
  lemma RoleRoundTrip(r: Role)
    ensures ParseRole(RoleValue(r)) == Some(r)
  {
  }

  /** A row of `users`; `role` and `confirmed` are nullable columns. */
  datatype User = User(
    id: int,
    username: string,
    email: string,
    password: string,
    avatar: Option<string>,
    refreshToken: Option<string>,
    role: Option<Role>,
    confirmed: Option<bool>)

  /** A user as inserted with only the non-defaulted columns given. */
  function NewUser(id: int, username: string, email: string, password: string): (u: User)
    ensures u.id == id && u.username == username && u.email == email && u.password == password
    ensures u.role == Some(Regular) && u.confirmed == Some(false)
    ensures u.avatar.None? && u.refreshToken.None?
  {
    User(id, username, email, password, None, None, Some(Regular), Some(false))
  }

  /** A row of `contacts`; `userId` is the nullable owner reference. */
  datatype Contact = Contact(
    id: int,
    name: string,
    surname: string,
    email: string,
    phone: string,
    birthday: Date,
    userId: Option<int>)

  /** `filter_by(user=user)`: the contact's owner reference is that user's id. */
  predicate OwnedBy(c: Contact, user: User) {
    c.userId == Some(user.id)
  }

  /** What the column types admit for one row: id, email, phone and owner are not limited. */
  predicate RowValid(c: Contact) {
    |c.name| <= NameMaxLength && |c.surname| <= NameMaxLength && ValidDate(c.birthday)
  }

  /** Only name, surname and birthday are constrained: any id, email, phone or owner will do. */
  lemma RowLimitsOnlyNamesAndBirthday(c: Contact, id: int, email: string, phone: string, owner: Option<int>)
    ensures RowValid(c) == RowValid(c.(id := id, email := email, phone := phone, userId := owner))
  {
  }

  /** Every row is stored under its own primary key, so no two rows share an id. */
  ghost predicate KeysConsistent(rows: map<int, Contact>)
    ensures KeysConsistent(rows) ==>
      forall a, b :: a in rows && b in rows && rows[a].id == rows[b].id ==> a == b
  {
    forall k :: k in rows ==> rows[k].id == k
  }

  /**
   * `contacts.email` is unique: no two rows share it; equivalently, no row's
   * email is taken by another row.
   */
  ghost predicate ContactEmailsUnique(rows: map<int, Contact>)
    ensures ContactEmailsUnique(rows) <==> forall k :: k in rows ==> !EmailTaken(rows, rows[k].email, k)
  {
    forall a, b :: a in rows && b in rows && rows[a].email == rows[b].email ==> a == b
  }

  /** Some row other than the one under `except` already holds `email`. */
  predicate EmailTaken(rows: map<int, Contact>, email: string, except: int) {
    exists k :: k in rows && k != except && rows[k].email == email
  }

  /** The constraints the `contacts` table declares, over the whole table; the empty table meets them. */
  ghost predicate TableValid(rows: map<int, Contact>)
    ensures rows == map[] ==> TableValid(rows)
  {
    && KeysConsistent(rows)
    && ContactEmailsUnique(rows)
    && forall k :: k in rows ==> RowValid(rows[k])
  }

  /**
   * Storing `c` under a key of its own keeps the table valid exactly when no
   * other row holds its email: the unique constraint is the only cross-row rule.
   */
  lemma {:induction false} StorePreservesValid(rows: map<int, Contact>, c: Contact)
    requires TableValid(rows) && RowValid(c)
    ensures TableValid(rows[c.id := c]) <==> !EmailTaken(rows, c.email, c.id)
  {
    var rows' := rows[c.id := c];
    if EmailTaken(rows, c.email, c.id) {
      var k :| k in rows && k != c.id && rows[k].email == c.email;
      assert rows'[k].email == rows'[c.id].email;
    }
  }
}
