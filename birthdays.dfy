/**
 * `get_upcoming_birthdays`: the contacts whose birthday (month and day,
 * year ignored) falls between today and a week from today, by the
 * month/day comparison the query spells out.
 */
module Birthdays {
  import opened Dates
  import opened Wrappers
  import opened Models
  import opened ContactQueries

  /** `next_week = today + timedelta(days=7)`. */
  function Horizon(today: Date): (h: Date)
    requires ValidDate(today)
    ensures ValidDate(h) && Before(today, h)
    ensures if today.day + 7 <= DaysInMonth(today.year, today.month) then h == today.(day := today.day + 7)
            else h == FirstOfNextMonth(today).(day := today.day + 7 - DaysInMonth(today.year, today.month))
  {
    AddDaysShort(today, 7);
    AddDays(today, 7)
  }

  /** The query's WHERE clause as written: an `or_` of two `and_` groups. */
  predicate MatchesUpcoming(today: Date, birthday: Date)
    requires ValidDate(today)
    ensures MatchesUpcoming(today, birthday) ==>
      (birthday.month == today.month && today.day <= birthday.day) ||
      (birthday.month == Horizon(today).month && birthday.day <= Horizon(today).day)
    ensures SameMonthDay(today, birthday) ==> MatchesUpcoming(today, birthday)
  {
    var nextWeek := Horizon(today);
    (birthday.month == today.month && birthday.day >= today.day &&
     birthday.month == nextWeek.month && birthday.day <= nextWeek.day)
    ||
    (today.month != nextWeek.month &&
     ((birthday.month == today.month && birthday.day >= today.day) ||
      (birthday.month == nextWeek.month && birthday.day <= nextWeek.day)))
  }

  /** `get_upcoming_birthdays`: every matching row of the table; `user` plays no part. */
  function UpcomingBirthdays(rows: seq<Contact>, today: Date, user: User): (r: seq<Contact>)
    requires ValidDate(today)
    ensures |r| <= |rows|
    ensures forall c :: c in r <==> c in rows && MatchesUpcoming(today, c.birthday)
  {
    if rows == [] then []
    else
      var rest := UpcomingBirthdays(rows[1..], today, user);
      if MatchesUpcoming(today, rows[0].birthday) then [rows[0]] + rest else rest
  }

  /** Scanning one more row appends it to the answer exactly when its birthday matches. */
  lemma {:induction false} UpcomingAppend(rows: seq<Contact>, c: Contact, today: Date, user: User)
    requires ValidDate(today)
    ensures UpcomingBirthdays(rows + [c], today, user) ==
      UpcomingBirthdays(rows, today, user) + (if MatchesUpcoming(today, c.birthday) then [c] else [])
  {
    if rows != [] {
      assert (rows + [c])[1..] == rows[1..] + [c];
      UpcomingAppend(rows[1..], c, today, user);
    } else {
      assert rows + [c] == [c];
    }
  }

  /**
   * The clause case by case: when the week stays in one month it is a day
   * range in that month; when it crosses into the next month it is the tail
   * of today's month or the head of the horizon's month.
   */
  lemma MatchesUpcomingCases(today: Date, birthday: Date)
    requires ValidDate(today)
    ensures var h := Horizon(today);
      MatchesUpcoming(today, birthday) <==>
        if today.month == h.month then
          birthday.month == today.month && today.day <= birthday.day <= h.day
        else
          (birthday.month == today.month && birthday.day >= today.day) ||
          (birthday.month == h.month && birthday.day <= h.day)
  {
  }

  /** The birthday's year plays no part. */
  lemma MatchIgnoresYear(today: Date, b: Date, year: int)
    requires ValidDate(today)
    ensures MatchesUpcoming(today, b) == MatchesUpcoming(today, b.(year := year))
  {
  }

  /** Two dates fall on the same day of the year. */
  predicate SameMonthDay(a: Date, b: Date) {
    a.month == b.month && a.day == b.day
  }

  /** Every birthday that falls on one of the eight days today .. today + 7 is matched. */
  lemma {:induction false} UpcomingComplete(today: Date, k: nat, birthday: Date)
    requires ValidDate(today) && k <= 7
    requires SameMonthDay(AddDays(today, k), birthday)
    ensures MatchesUpcoming(today, birthday)
  {
    AddDaysShort(today, k);
    AddDaysShort(today, 7);
  }

  /**
   * Conversely, a matched birthday falls on one of those eight days, save for
   * a 29 February birthday while today's year is not a leap year.
   */
  lemma {:induction false} UpcomingSound(today: Date, birthday: Date)
    requires ValidDate(today) && ValidDate(birthday)
    requires MatchesUpcoming(today, birthday)
    requires !(birthday.month == 2 && birthday.day == 29 && !IsLeapYear(today.year))
    ensures exists k :: 0 <= k <= 7 && SameMonthDay(AddDays(today, k), birthday)
  {
    AddDaysShort(today, 7);
    var dim := DaysInMonth(today.year, today.month);
    var k: nat;
    if birthday.month == today.month && birthday.day >= today.day && birthday.day - today.day <= 7 {
      k := birthday.day - today.day;
    } else {
      k := dim - today.day + birthday.day;
    }
    AddDaysShort(today, k);
    assert 0 <= k <= 7 && SameMonthDay(AddDays(today, k), birthday);
  }

  /** The exception is real: on 2023-02-25 a 29 February birthday matches, yet no day of the week is 29 February. */
  lemma LeapDayMatchedOutsideWeek()
    ensures MatchesUpcoming(Date(2023, 2, 25), Date(2000, 2, 29))
    ensures forall k :: 0 <= k <= 7 ==> !SameMonthDay(AddDays(Date(2023, 2, 25), k), Date(2000, 2, 29))
  {
    var today := Date(2023, 2, 25);
    AddDaysShort(today, 7);
    forall k | 0 <= k <= 7 ensures !SameMonthDay(AddDays(today, k), Date(2000, 2, 29)) {
      AddDaysShort(today, k);
    }
  }

  /** The worked cases: a window crossing from January into February, and one inside June. */
  lemma WorkedExamples()
    ensures Horizon(Date(2024, 1, 28)) == Date(2024, 2, 4)
    ensures MatchesUpcoming(Date(2024, 1, 28), Date(1990, 1, 30))
    ensures !MatchesUpcoming(Date(2024, 1, 28), Date(1990, 2, 10))
    ensures !MatchesUpcoming(Date(2024, 1, 28), Date(1990, 1, 20))
    ensures Horizon(Date(2024, 6, 1)) == Date(2024, 6, 8)
    ensures MatchesUpcoming(Date(2024, 6, 1), Date(1990, 6, 5))
    ensures !MatchesUpcoming(Date(2024, 6, 1), Date(1990, 6, 9))
  {
    AddDaysShort(Date(2024, 1, 28), 7);
    AddDaysShort(Date(2024, 6, 1), 7);
  }

  /** A week from 25 December reaches 1 January of the next year, and the second group matches both ends. */
  lemma YearWrap()
    ensures Horizon(Date(2024, 12, 25)) == Date(2025, 1, 1)
    ensures MatchesUpcoming(Date(2024, 12, 25), Date(1980, 12, 31))
    ensures MatchesUpcoming(Date(2024, 12, 25), Date(1980, 1, 1))
    ensures !MatchesUpcoming(Date(2024, 12, 25), Date(1980, 1, 2))
  {
    AddDaysShort(Date(2024, 12, 25), 7);
  }

  /** As written, the query hands one user another user's contact. */
  lemma OtherUsersBirthdayReturned()
    ensures var c := Contact(7, "Ann", "Lee", "ann@example.com", "555", Date(1990, 6, 5), Some(2));
      var asker := NewUser(1, "bob", "bob@example.com", "secret");
      c in UpcomingBirthdays([c], Date(2024, 6, 1), asker) && !OwnedBy(c, asker)
  {
    AddDaysShort(Date(2024, 6, 1), 7);
  }

  /** The query as its documentation describes it: upcoming birthdays among `user`'s own contacts. */
  function OwnUpcomingBirthdays(rows: seq<Contact>, today: Date, user: User): (r: seq<Contact>)
    requires ValidDate(today)
    ensures forall c :: c in r <==> c in rows && OwnedBy(c, user) && MatchesUpcoming(today, c.birthday)
  {
    UpcomingBirthdays(Selected(rows, user, None, None, None), today, user)
  }

  /** Scanning one more row appends it to the scoped answer exactly when `user` owns it and its birthday matches. */
  lemma OwnUpcomingAppend(rows: seq<Contact>, c: Contact, today: Date, user: User)
    requires ValidDate(today)
    ensures OwnUpcomingBirthdays(rows + [c], today, user) ==
      OwnUpcomingBirthdays(rows, today, user) +
      (if OwnedBy(c, user) && MatchesUpcoming(today, c.birthday) then [c] else [])
  {
    SelectedAppend(rows, c, user, None, None, None);
    var sel := Selected(rows, user, None, None, None);
    if OwnedBy(c, user) {
      UpcomingAppend(sel, c, today, user);
    } else {
      assert sel + [] == sel;
    }
  }

  /** The scoped answer is part of the unscoped one, and equals it once every row belongs to `user`. */
  lemma OwnUpcomingWithinUpcoming(rows: seq<Contact>, today: Date, user: User)
    requires ValidDate(today)
    ensures forall c :: c in OwnUpcomingBirthdays(rows, today, user) ==> c in UpcomingBirthdays(rows, today, user)
    ensures (forall c :: c in rows ==> OwnedBy(c, user)) ==>
      OwnUpcomingBirthdays(rows, today, user) == UpcomingBirthdays(rows, today, user)
  {
    if forall c :: c in rows ==> OwnedBy(c, user) {
      SelectedAllOwned(rows, user);
    }
  }
}
