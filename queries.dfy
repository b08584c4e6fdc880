/**
 * The read side of the contacts repository: `get_contacts`,
 * `get_all_contacts` and `get_contact`, as functions over the rows the
 * table yields when scanned.
 */
module ContactQueries {
  import opened Wrappers
  import opened Models
  import opened Text

  /** Python truthiness of an optional filter string: `None` and `""` impose nothing. */
  predicate Given(filter: Option<string>) {
    filter.Some? && filter.value != ""
  }

  /** One `if x: .filter(...ilike(f"%{x}%"))` step; a field equal to its filter always passes it. */
  predicate PassesFilter(field: string, filter: Option<string>)
    ensures !Given(filter) ==> PassesFilter(field, filter)
    ensures filter == Some(field) ==> PassesFilter(field, filter)
  {
    assert OccursAt(Lower(field), Lower(field), 0);
    Given(filter) ==> ILike(field, filter.value)
  }

  /** The three optional filters of `get_contacts`, all of which must hold. */
  predicate MatchesFilters(c: Contact, name: Option<string>, surname: Option<string>, email: Option<string>)
    ensures name == None && surname == None && email == None ==> MatchesFilters(c, name, surname, email)
  {
    PassesFilter(c.name, name) && PassesFilter(c.surname, surname) && PassesFilter(c.email, email)
  }

  /** The WHERE clause of `get_contacts`: rows of `user` that pass every given filter, in scan order. */
  function Selected(rows: seq<Contact>, user: User, name: Option<string>, surname: Option<string>, email: Option<string>): (r: seq<Contact>)
    ensures |r| <= |rows|
    ensures forall c :: c in r <==> c in rows && OwnedBy(c, user) && MatchesFilters(c, name, surname, email)
  {
    if rows == [] then []
    else
      var rest := Selected(rows[1..], user, name, surname, email);
      if OwnedBy(rows[0], user) && MatchesFilters(rows[0], name, surname, email) then [rows[0]] + rest else rest
  }

  /** `OFFSET offset LIMIT limit` over a query result. */
  function Paginate(rows: seq<Contact>, offset: nat, limit: nat): (r: seq<Contact>)
    ensures |r| == if offset >= |rows| then 0 else if |rows| - offset < limit then |rows| - offset else limit
    ensures forall i :: 0 <= i < |r| ==> r[i] == rows[offset + i]
  {
    if offset >= |rows| then []
    else if |rows| - offset < limit then rows[offset..]
    else rows[offset..offset + limit]
  }

  /**
   * `get_contacts`: the filters are part of the WHERE clause, so they apply
   * before OFFSET and LIMIT even though the source chains them after.
   */
  function GetContacts(limit: nat, offset: nat, name: Option<string>, surname: Option<string>, email: Option<string>,
                       rows: seq<Contact>, user: User): (r: seq<Contact>)
    ensures |r| <= limit
    ensures forall c :: c in r ==> c in rows && OwnedBy(c, user) && MatchesFilters(c, name, surname, email)
    ensures var matching := Selected(rows, user, name, surname, email);
      && |r| == (if offset >= |matching| then 0 else if |matching| - offset < limit then |matching| - offset else limit)
      && forall i :: 0 <= i < |r| ==> r[i] == matching[offset + i]
  {
    Paginate(Selected(rows, user, name, surname, email), offset, limit)
  }

  /** `get_all_contacts`: the same window over every row, whoever owns it. */
  function GetAllContacts(limit: nat, offset: nat, rows: seq<Contact>): (r: seq<Contact>)
    ensures |r| <= limit
    ensures |r| == if offset >= |rows| then 0 else if |rows| - offset < limit then |rows| - offset else limit
    ensures forall i :: 0 <= i < |r| ==> r[i] == rows[offset + i]
  {
    Paginate(rows, offset, limit)
  }

  /** `get_contact`: the row with that id, provided `user` owns it. */
  function GetContact(id: int, rows: seq<Contact>, user: User): (r: Option<Contact>)
    ensures r.Some? ==> r.value in rows && r.value.id == id && OwnedBy(r.value, user)
    ensures r.None? <==> forall c :: c in rows ==> !(c.id == id && OwnedBy(c, user))
  {
    if rows == [] then None
    else if rows[0].id == id && OwnedBy(rows[0], user) then Some(rows[0])
    else GetContact(id, rows[1..], user)
  }

  /** An empty filter string is the same as no filter. */
  lemma EmptyFilterIsNoFilter(c: Contact, name: Option<string>, surname: Option<string>, email: Option<string>)
    ensures MatchesFilters(c, Some(""), surname, email) == MatchesFilters(c, None, surname, email)
    ensures MatchesFilters(c, name, Some(""), email) == MatchesFilters(c, name, None, email)
    ensures MatchesFilters(c, name, surname, Some("")) == MatchesFilters(c, name, surname, None)
  {
  }

  /** The filters combine conjunctively: all of them is each of them alone. */
  lemma FiltersConjoin(c: Contact, name: Option<string>, surname: Option<string>, email: Option<string>)
    ensures MatchesFilters(c, name, surname, email) <==>
      MatchesFilters(c, name, None, None) && MatchesFilters(c, None, surname, None) && MatchesFilters(c, None, None, email)
  {
  }

  /** With no filters and every row owned by `user`, the selection is the whole scan. */
  lemma {:induction false} SelectedAllOwned(rows: seq<Contact>, user: User)
    requires forall c :: c in rows ==> OwnedBy(c, user)
    ensures Selected(rows, user, None, None, None) == rows
  {
    if rows != [] {
      SelectedAllOwned(rows[1..], user);
    }
  }

  /** For a user who owns every row, unfiltered `get_contacts` is `get_all_contacts`. */
  lemma OwnerOfAllSeesAll(limit: nat, offset: nat, rows: seq<Contact>, user: User)
    requires forall c :: c in rows ==> OwnedBy(c, user)
    ensures GetContacts(limit, offset, None, None, None, rows, user) == GetAllContacts(limit, offset, rows)
  {
    SelectedAllOwned(rows, user);
  }

  /** Two consecutive pages are one page of the combined size: pagination is stable. */
  lemma ConsecutivePages(rows: seq<Contact>, offset: nat, limit: nat, limit': nat)
    ensures Paginate(rows, offset, limit) + Paginate(rows, offset + limit, limit') == Paginate(rows, offset, limit + limit')
  {
    var a, b, c := Paginate(rows, offset, limit), Paginate(rows, offset + limit, limit'), Paginate(rows, offset, limit + limit');
    assert |a + b| == |c|;
    forall i | 0 <= i < |c| ensures (a + b)[i] == c[i] {
      if i >= |a| {
        assert (a + b)[i] == b[i - |a|];
      }
    }
  }

  /** When the matching rows fit on the first page, every one of them is returned. */
  lemma FirstPageComplete(limit: nat, name: Option<string>, surname: Option<string>, email: Option<string>,
                          rows: seq<Contact>, user: User, c: Contact)
    requires |Selected(rows, user, name, surname, email)| <= limit
    requires c in rows && OwnedBy(c, user) && MatchesFilters(c, name, surname, email)
    ensures c in GetContacts(limit, 0, name, surname, email, rows, user)
  {
    var s := Selected(rows, user, name, surname, email);
    assert Paginate(s, 0, limit) == s;
  }

  /** A row without an owner is legal, but no user's `get_contacts` or `get_contact` reaches it. */
  lemma UnownedRowUnreachable(limit: nat, offset: nat, name: Option<string>, surname: Option<string>, email: Option<string>,
                              rows: seq<Contact>, user: User, c: Contact)
    requires c.userId.None?
    ensures c !in GetContacts(limit, offset, name, surname, email, rows, user)
    ensures GetContact(c.id, rows, user) != Some(c)
  {
  }

  /** The selection keeps scan order: a row appended to the scan is appended to the selection when it passes. */
  lemma {:induction false} SelectedAppend(rows: seq<Contact>, c: Contact, user: User,
                                          name: Option<string>, surname: Option<string>, email: Option<string>)
    ensures Selected(rows + [c], user, name, surname, email) ==
      Selected(rows, user, name, surname, email) +
      (if OwnedBy(c, user) && MatchesFilters(c, name, surname, email) then [c] else [])
  {
    if rows != [] {
      assert (rows + [c])[1..] == rows[1..] + [c];
      SelectedAppend(rows[1..], c, user, name, surname, email);
    } else {
      assert rows + [c] == [c];
    }
  }
}
