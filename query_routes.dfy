/**
 * The two read-only queries: `GET /api/appointments/getByDate` and
 * `GET /api/appointments/getUserAppointments`. Both are functions of the tables;
 * the joined `users` and `barbers` columns are not modelled.
 */
module QueryRoutes {
  import opened Wrappers
  import opened Sequences
  import opened Database
  import opened Dates

  /** The filter of `getByDate`: `.eq('date', date).eq('status', 'booked')`. */
  predicate BookedOn(a: Appointment, date: string) {
    a.date == date && a.status == Booked
  }

  /**
   * `getByDate`: 400 without a `date` parameter, 500 when the query fails,
   * otherwise the booked rows of that date in table order.
   */
  function GetByDate(t: Tables, date: Option<string>, queryFails: bool): Reply<seq<Appointment>> {
    if !Truthy(date) then Fail(400, "Date parameter is required")
    else if queryFails then Fail(500, "Failed to fetch appointments")
    else Ok(Filter(t.appointments, (a: Appointment) => BookedOn(a, date.value)))
  }

  /** A missing or empty `date` parameter is answered 400 whatever the tables hold. */
  lemma GetByDateMissing(t: Tables, date: Option<string>, queryFails: bool)
    requires !Truthy(date)
    ensures GetByDate(t, date, queryFails) == Fail(400, "Date parameter is required")
  {
  }

  /** With a `date` given, a failed query is answered 500 whatever the tables hold. */
  lemma GetByDateQueryFails(t: Tables, date: string)
    requires date != ""
    ensures GetByDate(t, Some(date), true) == Fail(500, "Failed to fetch appointments")
  {
  }

  /**
   * Every returned row is booked on the requested date, and every booked row
   * of that date is returned, as often as it occurs in the table.
   */
  lemma GetByDateExact(t: Tables, date: string, a: Appointment)
    requires date != ""
    ensures var r := GetByDate(t, Some(date), false);
      && r.Ok?
      && (a in r.value <==> a in t.appointments && BookedOn(a, date))
      && multiset(r.value)[a] == if BookedOn(a, date) then multiset(t.appointments)[a] else 0
  {
    FilterMember(t.appointments, (a: Appointment) => BookedOn(a, date), a);
    FilterCounts(t.appointments, (a: Appointment) => BookedOn(a, date), a);
  }

  /** Rows of `getUserAppointments` ordered by date: `.order('date', { ascending: true })`. */
  predicate DateLe(a: Appointment, b: Appointment) {
    LexLe(a.date, b.date)
  }

  lemma DateLeTotalPreorder()
    ensures TotalPreorder(DateLe)
  {
    forall a: Appointment, b: Appointment
      ensures DateLe(a, b) || DateLe(b, a)
    {
      LexLeTotal(a.date, b.date);
    }
    forall a: Appointment, b: Appointment, c: Appointment | DateLe(a, b) && DateLe(b, c)
      ensures DateLe(a, c)
    {
      LexLeTransitive(a.date, b.date, c.date);
    }
  }

  /** The three filters: this user, dated today or later, booked. */
  predicate Upcoming(a: Appointment, userId: nat, today: string) {
    a.userId == userId && LexLe(today, a.date) && a.status == Booked
  }

  /** The rows of one user from `today` on, in date order. */
  function UpcomingFor(t: Tables, userId: nat, today: string): seq<Appointment> {
    SortBy(Filter(t.appointments, (a: Appointment) => Upcoming(a, userId, today)), DateLe)
  }

  /**
   * `getUserAppointments`: 400 without an `email`; 404 unless the lookup finds
   * exactly one user with it; 500 when the query fails; otherwise that user's
   * booked rows dated `today` or later, ordered by date. `today` is the current
   * UTC date, "yyyy-MM-dd".
   */
  function GetUserAppointments(t: Tables, email: Option<string>, today: string,
                               userLookupFails: bool, queryFails: bool): Reply<seq<Appointment>>
  {
    if !Truthy(email) then Fail(400, "User email is required")
    else
      var user := if userLookupFails then None else Single(UsersWithEmail(t, email.value));
      if user.None? then Fail(404, "User not found")
      else if queryFails then Fail(500, "Failed to fetch appointments")
      else Ok(UpcomingFor(t, user.value.id, today))
  }

  /** A missing `email` is answered 400 and an unknown or ambiguous one 404, before any appointment is read. */
  lemma GetUserAppointmentsRejects(t: Tables, email: Option<string>, today: string, queryFails: bool)
    requires !Truthy(email) || |UsersWithEmail(t, email.value)| != 1
    ensures var r := GetUserAppointments(t, email, today, false, queryFails);
      && r.Fail?
      && r.status == (if Truthy(email) then 404 else 400)
      && r == GetUserAppointments(t.(appointments := []), email, today, false, queryFails)
  {
  }

  /**
   * A failed user lookup is answered 404; once the one user is found, a failed
   * appointments query is answered 500. Neither depends on the appointments.
   */
  lemma GetUserAppointmentsErrors(t: Tables, email: string, today: string, queryFails: bool)
    requires email != ""
    ensures GetUserAppointments(t, Some(email), today, true, queryFails) == Fail(404, "User not found")
    ensures |UsersWithEmail(t, email)| == 1 ==>
      GetUserAppointments(t, Some(email), today, false, true) == Fail(500, "Failed to fetch appointments")
  {
  }

  /**
   * The answer holds exactly the found user's booked rows dated today or later,
   * each as often as in the table, in non-decreasing date order.
   */
  lemma GetUserAppointmentsExact(t: Tables, email: string, today: string, a: Appointment)
    requires email != "" && |UsersWithEmail(t, email)| == 1
    ensures var r := GetUserAppointments(t, Some(email), today, false, false);
      var u := UsersWithEmail(t, email)[0];
      && r.Ok?
      && u in t.users && u.email == email
      && multiset(r.value)[a] == (if Upcoming(a, u.id, today) then multiset(t.appointments)[a] else 0)
      && Sorted(r.value, DateLe)
  {
    var u := UsersWithEmail(t, email)[0];
    FilterMember(t.users, (u: User) => u.email == email, u);
    var kept := Filter(t.appointments, (a: Appointment) => Upcoming(a, u.id, today));
    FilterCounts(t.appointments, (a: Appointment) => Upcoming(a, u.id, today), a);
    DateLeTotalPreorder();
    SortBySorted(kept, DateLe);
  }

  /**
   * Only dates are ordered: rows of one date keep their table order, whatever
   * their time slots (the database leaves this order open; the model keeps the
   * table order).
   */
  lemma UpcomingSameDateOrder(t: Tables, userId: nat, today: string, a: Appointment)
    ensures Filter(UpcomingFor(t, userId, today), b => Equivalent(DateLe, b, a))
         == Filter(Filter(t.appointments, (b: Appointment) => Upcoming(b, userId, today)),
                   b => Equivalent(DateLe, b, a))
  {
    DateLeTotalPreorder();
    SortByStable(Filter(t.appointments, (b: Appointment) => Upcoming(b, userId, today)), DateLe, a);
  }

  /**
   * For well-formed dates the text filter `date >= today` is the date filter:
   * a row is kept exactly when its date is not before today.
   */
  lemma UpcomingIsChronological(a: Appointment, userId: nat, today: Date, day: Date)
    requires today.Printable() && day.Printable() && a.date == IsoDate(day)
    ensures Upcoming(a, userId, IsoDate(today)) <==> a.userId == userId && a.status == Booked && !Before(day, today)
  {
    IsoDateOrder(today, day);
  }
}
