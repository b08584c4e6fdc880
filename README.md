# Contacts repository — a Dafny model

This project models the data-access layer of a contacts-management REST
backend. Authenticated users keep address-book entries (contacts). Each
contact belongs to one user, and the repository answers these calls:

- list a user's contacts, with optional case-insensitive name, surname and
  email filters and with OFFSET/LIMIT paging;
- list every contact, paged;
- fetch, create, update and delete a single contact;
- list the contacts whose birthday falls in the coming week.

The relational store becomes an in-memory `contacts` table: a class holding a
map from primary key to row, plus the serial counter that hands out ids.
The read queries are functions over the rows a table scan yields. The
mutations are methods on the table class. "Today" is a parameter, and a
storage fault during an insert is a boolean parameter.

Modules:

- `Wrappers`: `Option` and `Result`.
- `Dates`: Gregorian dates as Python's `date` has them. It covers leap years,
  days in a month, the lexicographic `<`, and `AddDays` for
  `d + timedelta(days=n)`.
- `Models`: the `Contact`, `User` and `Role` entities. It holds the column
  constraints: names and surnames of at most 150 characters, unique contact
  email, nullable owner, and user defaults.
- `Schemas`: the create body `ContactSchema` and the update body
  `ContactUpdate`, their validity predicates, and the update body's
  `model_dump()`.
- `Text`: ASCII lower-casing and substring search, which is what
  `ILIKE '%pattern%'` means for a pattern without wildcards.
- `ContactQueries`: `get_contacts`, `get_all_contacts` and `get_contact`.
- `Birthdays`: the `get_upcoming_birthdays` predicate and query.
- `ContactStore`: the `ContactsTable` class with `create_contact`,
  `update_contact` and `delete_contact`. It also has the ghost scan that links
  the table to the read queries.

The filters of `get_contacts` are chained after `.offset().limit()` in the
source. On a 2.0-style `select()` they still go into the WHERE clause, so the
model filters first and pages afterwards.

## Model

| member | source | states |
|---|---|---|
| `ContactQueries.Given` | src/repository/contacts.py:33-37 | a filter applies only when present and non-empty (Python truthiness of `if name:`) |
| `ContactQueries.PassesFilter` | src/repository/contacts.py:33-38 | a field passes an absent or empty filter, and passes a filter equal to itself |
| `ContactQueries.MatchesFilters` | src/repository/contacts.py:33-38 | the conjunction of the three filter steps; with no filters every row matches |
| `ContactQueries.Selected` | src/repository/contacts.py:31-38 | a row is kept exactly when the user owns it and it passes every given filter (name, surname, email, conjunctively); the result is no longer than the table |
| `ContactQueries.SelectedAppend` | src/repository/contacts.py:31-38 | the selection keeps scan order: appending a row to the scan appends it to the selection exactly when it is owned and passes the filters |
| `ContactQueries.Paginate` | src/repository/contacts.py:31 | OFFSET/LIMIT: the result holds min(limit, rows left after offset) rows, and its i-th row is row offset + i of the input |
| `ContactQueries.GetContacts` | src/repository/contacts.py:14-42 | at most `limit` rows come back, each one a table row owned by the user that passes every given filter; they are the matching rows (in scan order) with the first `offset` skipped, as many as remain up to `limit` |
| `ContactQueries.GetAllContacts` | src/repository/contacts.py:45-61 | at most `limit` rows; the i-th is table row offset + i, with no owner or filter restriction |
| `ContactQueries.GetContact` | src/repository/contacts.py:64-79 | a result is a table row with that id that the user owns; none comes back exactly when no such row exists |
| `ContactQueries.EmptyFilterIsNoFilter` | src/repository/contacts.py:33-38 | an empty filter string constrains exactly as much as an absent one (Python truthiness of `if name:`) |
| `ContactQueries.FiltersConjoin` | src/repository/contacts.py:33-38 | passing all three filters is passing each one alone |
| `ContactQueries.SelectedAllOwned` | src/repository/contacts.py:31 | when the user owns every row and no filter is given, the WHERE clause keeps the whole scan |
| `ContactQueries.OwnerOfAllSeesAll` | src/repository/contacts.py:31-57 | for a user who owns every row, unfiltered `get_contacts` returns exactly what `get_all_contacts` returns |
| `ContactQueries.ConsecutivePages` | src/repository/contacts.py:31 | the page at offset o of size l, followed by the page at o + l of size l', is the page at o of size l + l' |
| `ContactQueries.FirstPageComplete` | src/repository/contacts.py:31-38 | when the matching rows fit in `limit`, every owned row that passes the filters is on the first page |
| `ContactQueries.UnownedRowUnreachable` | src/entity/models.py:26-27 | a row whose owner reference is null is never returned by `get_contacts` or `get_contact`, for any user |
| `Text.Contains` | src/repository/contacts.py:34-38 | true exactly when the needle occurs at some position of the haystack |
| `Text.Lower` | src/repository/contacts.py:34-38 | ILIKE's case folding: same length, each character lower-cased (A-Z to a-z, everything else kept) |
| `Text.ILike` | src/repository/contacts.py:34-38 | `value ILIKE '%pattern%'` holds exactly when the lower-cased pattern occurs at some position of the lower-cased value |
| `Text.ILikeIgnoresCase` | src/repository/contacts.py:34-38 | the match is the same after lower-casing the value and the pattern |
| `Text.EmptyPatternMatchesAll` | src/repository/contacts.py:33-34 | the pattern `'%%'` matches every value |
| `Dates.DaysInMonth` | src/repository/contacts.py:185 | every month has 28 to 31 days; 29 exactly for February of a leap year; every month but February has at least 30 |
| `Dates.ValidDate` | src/entity/models.py:20 | a value of Python's `date`: year at least 1, month 1 to 12, day within that month's length |
| `Dates.Before` | src/repository/contacts.py:97 | Python's `<` on dates: year, then month, then day |
| `Dates.BeforeIsStrictTotalOrder` | src/repository/contacts.py:97 | `<` is irreflexive and transitive, and `not (a < b)` holds exactly when a equals b or b < a, so the guard's `>=` is the negation of `Before` |
| `Dates.NextDay` | src/repository/contacts.py:185 | the next day is a valid date strictly after the given one; it is the same month's next day, or the first of the following month after the month's last day |
| `Dates.AddDays` | src/repository/contacts.py:185 | adding days to a valid date gives a valid date, strictly later when at least one day is added |
| `Dates.AddDaysSum` | src/repository/contacts.py:185 | adding a then b days is adding a + b days |
| `Dates.AddDaysShort` | src/repository/contacts.py:185 | up to 28 days on, a date either stays in its month with the day advanced, or lands in the next month (next year after December) on day d + k - days-in-month |
| `Birthdays.Horizon` | src/repository/contacts.py:185 | `next_week` is a valid date after today: seven days on in the same month, or in the next month on day today.day + 7 - days-in-month |
| `Birthdays.MatchesUpcoming` | src/repository/contacts.py:187-209 | the WHERE clause as written; a match is in today's month on or after today's day, or in the horizon's month up to the horizon's day; a birthday on today's month and day always matches |
| `Birthdays.UpcomingBirthdays` | src/repository/contacts.py:173-213 | a contact is returned exactly when it is in the table and its birthday satisfies the WHERE clause; who owns it plays no part |
| `Birthdays.UpcomingAppend` | src/repository/contacts.py:184-213 | scanning one more row appends it to the answer exactly when its birthday matches: each matching row once, in scan order |
| `Birthdays.MatchesUpcomingCases` | src/repository/contacts.py:187-209 | inside one month the clause is "same month as today, today.day <= day <= next_week.day"; across a month boundary it is "today's month from today.day on, or next_week's month up to next_week.day" |
| `Birthdays.MatchIgnoresYear` | src/repository/contacts.py:190-205 | changing the birthday's year never changes the match |
| `Birthdays.UpcomingComplete` | src/repository/contacts.py:184-209 | every birthday whose month and day equal those of today + k, for some 0 <= k <= 7, is matched, across month and year ends |
| `Birthdays.UpcomingSound` | src/repository/contacts.py:184-209 | every matched valid birthday has the month and day of today + k for some 0 <= k <= 7, except a 29 February birthday in a year where today is not in a leap year |
| `Birthdays.LeapDayMatchedOutsideWeek` | src/repository/contacts.py:195-207 | that exception is real: on 2023-02-25 a 29 February birthday matches although no day of the week is 29 February |
| `Birthdays.WorkedExamples` | src/repository/contacts.py:184-209 | from 2024-01-28 the horizon is 2024-02-04, and 1/30 matches while 2/10 and 1/20 do not; from 2024-06-01 the horizon is 2024-06-08, and 6/5 matches while 6/9 does not |
| `Birthdays.YearWrap` | src/repository/contacts.py:195-207 | from 2024-12-25 the horizon is 2025-01-01; 12/31 and 1/1 match, 1/2 does not |
| `Birthdays.OtherUsersBirthdayReturned` | src/repository/contacts.py:173-213 | as written, the query returns a contact owned by a user other than the one asking |
| `Birthdays.OwnUpcomingBirthdays` | src/repository/contacts.py:174-182 | the documented behaviour: a contact is returned exactly when it is in the table, owned by the user, and its birthday matches |
| `Birthdays.OwnUpcomingAppend` | src/repository/contacts.py:174-182 | scanning one more row appends it to the scoped answer exactly when the user owns it and its birthday matches |
| `Birthdays.OwnUpcomingWithinUpcoming` | src/repository/contacts.py:173-213 | the owner-scoped answer is contained in the query's answer, and equals it when the user owns every row |
| `Models.RoleValue` | src/entity/models.py:30-33 | the stored value of each role: "admin", "moderator", "user" |
| `Models.ParseRole` | src/entity/models.py:46 | a role read back from a stored value has that value |
| `Models.RoleRoundTrip` | src/entity/models.py:30-33 | each of the three roles is read back from its own stored value, so the values are distinct |
| `Models.NewUser` | src/entity/models.py:36-47 | a new user keeps the given columns, gets role `user`, is not confirmed, and has no avatar or refresh token |
| `Models.OwnedBy` | src/repository/contacts.py:31 | `filter_by(user=user)` (also lines 76, 129 and 160): the contact's owner reference is that user's id |
| `Models.RowValid` | src/entity/models.py:16-20 | a row fits its columns: name and surname of at most 150 characters, and the birthday a calendar date |
| `Models.RowLimitsOnlyNamesAndBirthday` | src/entity/models.py:15-26 | whether a row fits its columns never depends on its id, email, phone or owner reference |
| `Models.KeysConsistent` | src/entity/models.py:15 | every row is stored under its own id, so no two rows share an id (primary key) |
| `Models.ContactEmailsUnique` | src/entity/models.py:18 | no two rows share an email, exactly when no row's email is taken by another row |
| `Models.EmailTaken` | src/entity/models.py:18 | what the unique email constraint checks on insert and update: some row other than the one being written already holds the email |
| `Models.TableValid` | src/entity/models.py:15-26 | the table's declared constraints (primary key, unique email, column limits) over all rows; the empty table meets them |
| `Models.StorePreservesValid` | src/entity/models.py:15-26 | storing a well-formed row under its own id keeps the table valid exactly when no other row holds its email |
| `Schemas.ContactSchemaValid` | src/schema/contact.py:9-14 | a create body is valid when name and surname have at most 150 characters and the birthday is a calendar date |
| `Schemas.ContactUpdateValid` | src/schema/contact.py:17-22 | an update body is valid when its birthday is a calendar date; no field has a length limit |
| `Schemas.UpdateLengthUnbounded` | src/schema/contact.py:18-19 | replacing a valid update body's name and surname by strings of any length keeps it valid |
| `Schemas.LongNameRejected` | src/schema/contact.py:10-11 | a create body with a name or surname over 150 characters is invalid |
| `Schemas.SchemaValidIsUpdateValid` | src/schema/contact.py:9-22 | every valid create body is a valid update body |
| `Schemas.UpdateAdmitsLongName` | src/schema/contact.py:17-19 | in contrast with `LongNameRejected`, some valid update body has a name over 150 characters |
| `Schemas.BirthdayUnconstrained` | src/schema/contact.py:14 | any calendar date may be the birthday of a valid create or update body |
| `Schemas.DumpUpdate` | src/schema/contact.py:17-22 | the dumped update body has exactly the five attributes name, surname, email, phone and birthday, in that order |
| `ContactStore.ServerError` | src/repository/contacts.py:106-108 | a caught database error becomes a 500 whose detail begins "Database error: " |
| `ContactStore.Owns` | src/repository/contacts.py:129-134 | the `filter_by(id=contact_id, user=user)` lookup finds a row: the id is stored and the user owns its row |
| `ContactStore.Overwritten` | src/repository/contacts.py:137-138 | after the overwrite, id and owner are as before and each of the five dumped attributes holds the update's value |
| `ContactStore.OverwriteIsFullReplace` | src/repository/contacts.py:137-138 | the overwrite is a full replace: two rows with the same id and owner become the same row |
| `ContactStore.SetAttr` | src/repository/contacts.py:137-138 | `setattr` sets the named attribute to the value and leaves id, owner and the other four attributes as they were |
| `ContactStore.Scan` | src/repository/contacts.py:40-42 | a scan holds each row of the table once: as many rows as keys, every stored row, nothing else |
| `ContactStore.ScanLookup` | src/repository/contacts.py:76-79 | on the scanned table, `get_contact` returns the row stored under the id exactly when the user owns it, else nothing |
| `ContactStore.DeletedIsGone` | src/repository/contacts.py:160-170 | after the row under an id is removed, `get_contact` for that id finds nothing |
| `ContactStore.CreatedIsFound` | src/repository/contacts.py:97-105 | right after a row is stored under its id, `get_contact` for that id and owner returns it with the same field values |
| `ContactStore.StoreLeavesOthers` | src/repository/contacts.py:137-139 | storing a row under one id leaves `get_contact` for every other id unchanged |
| `ContactStore.RemoveLeavesOthers` | src/repository/contacts.py:168-169 | removing one id leaves `get_contact` for every other id unchanged |
| `ContactStore.ContactsTable.Valid` | src/entity/models.py:15-26 | the table meets its declared constraints and every id is below the next serial value |
| `ContactStore.ContactsTable.CreateContact` | src/repository/contacts.py:82-110 | a birthday on or after today gives 400 and no change. A fault or a duplicate email gives 500 and no change. Otherwise exactly one row is added under a fresh id, with the body's five fields and the user as owner. The table invariant is kept. |
| `ContactStore.ContactsTable.UpdateContact` | src/repository/contacts.py:113-142 | an absent or foreign id gives 404 and no change. Otherwise the row's five body fields take the update's values, and id and owner stay. An over-long name or a duplicate email is refused uncaught with no change. Every other row is unchanged, and the birthday is not checked. |
| `ContactStore.ContactsTable.DeleteContact` | src/repository/contacts.py:145-170 | an absent or foreign id gives 404 and no change. Otherwise exactly that row is removed and its prior value returned. |

## Findings

| source | as written | input that shows it | evidently intended | confidence | as-written member | corrected member |
|---|---|---|---|---|---|---|
| src/repository/contacts.py:173-213 | the query never filters by owner; the `user` argument is unused, so every user's contacts are returned | today 2024-06-01, user 1 asking, one contact owned by user 2 with birthday 1990-06-05: it is returned | the docstring says "for a specific user": only contacts the user owns | high, not executed | `Birthdays.OtherUsersBirthdayReturned` | `Birthdays.OwnUpcomingBirthdays` |

The rest of the model reproduces the query as written (`UpcomingBirthdays`).
Nothing else in the model calls either version.

The month/day rule is reproduced literally. Its one mismatch with a real
calendar week is shown by `UpcomingSound` and `LeapDayMatchedOutsideWeek`: a
29 February birthday matches in late February of a common year. A birthday
on day 31 of a 30-day month cannot occur, because birthdays are valid dates.

## Left out

- LIKE wildcards: `%`, `_` and `\` in a filter act as pattern characters in the source. The model matches filter text literally, as a plain substring.
- Case folding follows the database collation in the source. The model lower-cases ASCII letters only.
- Ordering: the queries have no ORDER BY, so the scan order (`Scan`) is left open. Pagination is stated relative to it.
- Sessions, `commit`/`refresh`/`close`, and async execution are not modelled. A rollback is modelled as "table unchanged".
- `created_at`/`updated_at` are not modelled: they come from the database clock.
- `ContactsTable.CreateContact`: on a failed insert the id counter stays as it was. A real database sequence may still consume a value.
- Storage faults other than the unique constraint are a parameter of `CreateContact` only. Connection failures while committing an update or a delete are not modelled.
- `String(150)` is treated as enforced by the database. The database engine is not part of this model. With an engine that does not enforce it, an over-long name on update would be stored.
- `Dates.AddDays`: years are unbounded. Python's `date` stops at 9999-12-31, and from 9999-12-25 on, `today + timedelta(days=7)` raises OverflowError.
- `ServerError`: the detail after "Database error: " is the driver's message in the source. The model uses a fixed text per cause.
- `ContactsTable.CreateContact`: `storageFault` stands for a failure up to and including the commit. If `db.refresh` fails after a successful commit, the source reports 500 with the row already stored; the model does not cover that case.
- The `users` table and its unique email constraint are not modelled: no operation here reads or writes users beyond their id.
- `EmailStr` validation (a pydantic library type) is not modelled. Emails are plain strings.
- `scalar_one_or_none` raises on more than one row. That cannot happen under unique ids, so `GetContact` returns the first match.
- The routes layer is not part of this model: its status codes, empty list → 404, and query bounds `10 <= limit <= 100`, `offset >= 0`. `limit` and `offset` are naturals here.
- The users repository, authentication, role-based authorization, email confirmation and avatars are not part of this model.
- `ContactResponse` serialisation and the lazily joined owner relationship are not modelled. The owner is a plain foreign-key value (`userId`).
