/**
 * `POST /api/appointments`: validate the request, look up or create the user by
 * e-mail, convert the slot to 24-hour form and insert one `booked` appointment.
 * Store failures the handler reacts to are boolean parameters.
 */
module AppointmentsRoute {
  import opened Wrappers
  import opened Sequences
  import opened Database
  import opened TimeFormat

  /** The parsed JSON body; an absent field is `None`. */
  datatype BookingRequest = BookingRequest(
    clerkUserId: Option<string>,
    barberId: Option<int>,
    date: Option<string>,
    timeSlot: Option<string>,
    userName: Option<string>,
    userEmail: Option<string>)

  /** Which store calls fail: the user lookup, the user insert, the appointment insert. */
  datatype BookingFaults = BookingFaults(
    userLookupFails: bool,
    userInsertFails: bool,
    appointmentInsertFails: bool)

  const NoFaults := BookingFaults(false, false, false)

  /** The user row `getOrCreateUser` inserts: no Clerk id, a placeholder password, no phone. */
  function NewOAuthUser(id: nat, userName: string, userEmail: string): User {
    User(id, None, userName, userEmail, Some("oauth_user"), None)
  }

  /**
   * `getOrCreateUser`: the id of the one user with this e-mail, if the lookup
   * finds exactly one; otherwise insert a user and return its id. A lookup that
   * errors finds nothing. `None` is the thrown "Failed to create user": the
   * insert fails, or the primary key already holds the sequence's next id.
   */
  function GetOrCreateUserStep(t: Tables, userName: string, userEmail: string,
                               lookupFails: bool, insertFails: bool): Step<Option<nat>>
  {
    var existing := if lookupFails then None else Single(UsersWithEmail(t, userEmail));
    if existing.Some? then Step(Some(existing.value.id), t)
    else if insertFails || UserIdTaken(t, t.nextUserId) then Step(None, t)
    else
      Step(Some(t.nextUserId),
           t.(users := t.users + [NewOAuthUser(t.nextUserId, userName, userEmail)],
              nextUserId := t.nextUserId + 1))
  }

  /** The imperative handler: read, then insert into the shared store. */
  method GetOrCreateUser(db: Store, clerkUserId: string, userName: string, userEmail: string,
                         lookupFails: bool, insertFails: bool) returns (userId: Option<nat>)
    modifies db
    ensures Step(userId, db.State())
         == GetOrCreateUserStep(old(db.State()), userName, userEmail, lookupFails, insertFails)
  {
    var existing := if lookupFails then None else Single(UsersWithEmail(db.State(), userEmail));
    if existing.Some? {
      return Some(existing.value.id);
    }
    if insertFails || UserIdTaken(db.State(), db.nextUserId) {
      return None;
    }
    var id := db.nextUserId;
    db.users := db.users + [NewOAuthUser(id, userName, userEmail)];
    db.nextUserId := id + 1;
    userId := Some(id);
  }

  /** A user found by e-mail is returned as is and nothing is written. */
  lemma GetOrCreateUserFound(t: Tables, userName: string, userEmail: string, insertFails: bool)
    requires |UsersWithEmail(t, userEmail)| == 1
    ensures var s := GetOrCreateUserStep(t, userName, userEmail, false, insertFails);
      && s.tables == t
      && s.reply.Some?
      && exists i :: 0 <= i < |t.users| && t.users[i].id == s.reply.value && t.users[i].email == userEmail
  {
    var u := UsersWithEmail(t, userEmail)[0];
    FilterMember(t.users, (u: User) => u.email == userEmail, u);
    var i :| 0 <= i < |t.users| && t.users[i] == u;
  }

  /**
   * When no single user matches, exactly one user is appended, with the given
   * name and e-mail, and its id is returned; the appointments are untouched.
   */
  lemma GetOrCreateUserCreates(t: Tables, userName: string, userEmail: string, lookupFails: bool)
    requires lookupFails || |UsersWithEmail(t, userEmail)| != 1
    requires !UserIdTaken(t, t.nextUserId)
    ensures var s := GetOrCreateUserStep(t, userName, userEmail, lookupFails, false);
      && s.reply == Some(t.nextUserId)
      && |s.tables.users| == |t.users| + 1
      && s.tables.users[..|t.users|] == t.users
      && s.tables.users[|t.users|].name == userName
      && s.tables.users[|t.users|].email == userEmail
      && s.tables.users[|t.users|].id == t.nextUserId
      && s.tables.appointments == t.appointments
  {
    var s := GetOrCreateUserStep(t, userName, userEmail, lookupFails, false);
    assert s.tables.users == t.users + [NewOAuthUser(t.nextUserId, userName, userEmail)];
  }

  /** A failed insert leaves the store as it was. */
  lemma GetOrCreateUserInsertFails(t: Tables, userName: string, userEmail: string, lookupFails: bool)
    requires lookupFails || |UsersWithEmail(t, userEmail)| != 1
    ensures GetOrCreateUserStep(t, userName, userEmail, lookupFails, true) == Step(None, t)
  {
  }

  /** How many users carry an e-mail after one call. */
  lemma GetOrCreateUserCount(t: Tables, userName: string, userEmail: string,
                             lookupFails: bool, insertFails: bool)
    ensures var s := GetOrCreateUserStep(t, userName, userEmail, lookupFails, insertFails);
      var before := |UsersWithEmail(t, userEmail)|;
      |UsersWithEmail(s.tables, userEmail)| == if s.tables == t then before else before + 1
  {
    var s := GetOrCreateUserStep(t, userName, userEmail, lookupFails, insertFails);
    if s.tables != t {
      var u := NewOAuthUser(t.nextUserId, userName, userEmail);
      FilterAppend(t.users, [u], (u: User) => u.email == userEmail);
      assert s.tables.users == t.users + [u];
      assert s.tables.users != t.users by {
        assert |s.tables.users| == |t.users| + 1;
      }
    }
  }

  /**
   * Calling `getOrCreateUser` twice with one e-mail, with lookups that answer,
   * leaves at most one user with that e-mail when there was at most one before.
   */
  lemma GetOrCreateUserTwice(t: Tables, name1: string, name2: string, userEmail: string,
                             insertFails1: bool, insertFails2: bool)
    requires |UsersWithEmail(t, userEmail)| <= 1
    ensures var s1 := GetOrCreateUserStep(t, name1, userEmail, false, insertFails1);
      var s2 := GetOrCreateUserStep(s1.tables, name2, userEmail, false, insertFails2);
      |UsersWithEmail(s2.tables, userEmail)| <= 1
  {
    var s1 := GetOrCreateUserStep(t, name1, userEmail, false, insertFails1);
    GetOrCreateUserCount(t, name1, userEmail, false, insertFails1);
    GetOrCreateUserCount(s1.tables, name2, userEmail, false, insertFails2);
  }

  /** With two users already sharing an e-mail, every call adds a third: nothing de-duplicates. */
  lemma GetOrCreateUserDuplicatesGrow(t: Tables, userName: string, userEmail: string)
    requires |UsersWithEmail(t, userEmail)| >= 2
    requires !UserIdTaken(t, t.nextUserId)
    ensures var s := GetOrCreateUserStep(t, userName, userEmail, false, false);
      |UsersWithEmail(s.tables, userEmail)| == |UsersWithEmail(t, userEmail)| + 1
  {
    GetOrCreateUserCount(t, userName, userEmail, false, false);
    var s := GetOrCreateUserStep(t, userName, userEmail, false, false);
    assert |s.tables.users| == |t.users| + 1;
  }

  lemma GetOrCreateUserValid(t: Tables, userName: string, userEmail: string,
                             lookupFails: bool, insertFails: bool)
    requires t.Valid()
    ensures GetOrCreateUserStep(t, userName, userEmail, lookupFails, insertFails).tables.Valid()
  {
    AddUserValid(t, NewOAuthUser(t.nextUserId, userName, userEmail));
  }

  /** `!clerkUserId || !barberId || !date || !timeSlot || !userName || !userEmail` fails. */
  predicate HasRequiredFields(q: BookingRequest) {
    && Truthy(q.clerkUserId)
    && q.barberId.Some? && q.barberId.value != 0
    && Truthy(q.date)
    && Truthy(q.timeSlot)
    && Truthy(q.userName)
    && Truthy(q.userEmail)
  }

  /** The appointment row the handler inserts. */
  function BookedRow(id: nat, userId: nat, q: BookingRequest): Appointment
    requires HasRequiredFields(q)
  {
    Appointment(id, userId, q.barberId.value, q.date.value, ConvertTo24Hour(q.timeSlot.value), Booked)
  }

  /**
   * `POST /api/appointments`: 400 on a missing field; 500 "Internal server error"
   * when the user cannot be created; 500 "Failed to create appointment" when the
   * insert fails (a user created on the way stays); otherwise the new row.
   */
  function BookStep(t: Tables, q: BookingRequest, faults: BookingFaults): Step<Reply<Appointment>> {
    if !HasRequiredFields(q) then Step(Fail(400, "Missing required fields"), t)
    else
      var u := GetOrCreateUserStep(t, q.userName.value, q.userEmail.value,
                                   faults.userLookupFails, faults.userInsertFails);
      if u.reply.None? then Step(Fail(500, "Internal server error"), u.tables)
      else if faults.appointmentInsertFails then Step(Fail(500, "Failed to create appointment"), u.tables)
      else
        var t1 := u.tables;
        var row := BookedRow(t1.nextAppointmentId, u.reply.value, q);
        Step(Ok(row), InsertAppointment(t1, row))
  }

  /** The imperative handler over the shared store. */
  method Book(db: Store, q: BookingRequest, faults: BookingFaults) returns (reply: Reply<Appointment>)
    modifies db
    ensures Step(reply, db.State()) == BookStep(old(db.State()), q, faults)
  {
    if !HasRequiredFields(q) {
      return Fail(400, "Missing required fields");
    }
    ghost var before := db.State();
    var userId := GetOrCreateUser(db, q.clerkUserId.value, q.userName.value, q.userEmail.value,
                                  faults.userLookupFails, faults.userInsertFails);
    ghost var u := Step(userId, db.State());
    assert u == GetOrCreateUserStep(before, q.userName.value, q.userEmail.value,
                                    faults.userLookupFails, faults.userInsertFails);
    if userId.None? {
      return Fail(500, "Internal server error");
    }
    if faults.appointmentInsertFails {
      return Fail(500, "Failed to create appointment");
    }
    var row := BookedRow(db.nextAppointmentId, userId.value, q);
    db.appointments, db.nextAppointmentId := db.appointments + [row], db.nextAppointmentId + 1;
    assert db.State() == InsertAppointment(u.tables, row);
    reply := Ok(row);
  }

  /** A request missing any required field is answered 400 and writes nothing. */
  lemma BookMissingField(t: Tables, q: BookingRequest, faults: BookingFaults)
    requires !HasRequiredFields(q)
    ensures BookStep(t, q, faults) == Step(Fail(400, "Missing required fields"), t)
  {
  }

  /**
   * A successful booking appends exactly one `booked` row carrying the request's
   * barber and date and the 24-hour form of its slot, for a user with the
   * request's e-mail; every earlier appointment row is kept as it was.
   */
  lemma BookAppendsOneRow(t: Tables, q: BookingRequest, faults: BookingFaults)
    requires t.Valid()
    requires BookStep(t, q, faults).reply.Ok?
    ensures var s := BookStep(t, q, faults);
      var row := s.reply.value;
      && HasRequiredFields(q)
      && s.tables.appointments == t.appointments + [row]
      && row.status == Booked
      && row.barberId == q.barberId.value
      && row.date == q.date.value
      && row.timeSlot == ConvertTo24Hour(q.timeSlot.value)
      && row.id !in (set a | a in t.appointments :: a.id)
      && exists u :: u in s.tables.users && u.id == row.userId && u.email == q.userEmail.value
  {
    var u := GetOrCreateUserStep(t, q.userName.value, q.userEmail.value,
                                 faults.userLookupFails, faults.userInsertFails);
    var row := BookedRow(t.nextAppointmentId, u.reply.value, q);
    assert u.tables.appointments == t.appointments && u.tables.nextAppointmentId == t.nextAppointmentId;
    assert BookStep(t, q, faults) == Step(Ok(row), InsertAppointment(u.tables, row));
    UserFoundOrCreated(t, q.userName.value, q.userEmail.value,
                       faults.userLookupFails, faults.userInsertFails);
    assert row.id !in (set a | a in t.appointments :: a.id);
  }

  /** The id `getOrCreateUser` returns belongs to a user row with the e-mail asked for. */
  lemma UserFoundOrCreated(t: Tables, userName: string, userEmail: string,
                           lookupFails: bool, insertFails: bool)
    requires GetOrCreateUserStep(t, userName, userEmail, lookupFails, insertFails).reply.Some?
    ensures var s := GetOrCreateUserStep(t, userName, userEmail, lookupFails, insertFails);
      && s.tables.appointments == t.appointments
      && exists u :: u in s.tables.users && u.id == s.reply.value && u.email == userEmail
  {
    var s := GetOrCreateUserStep(t, userName, userEmail, lookupFails, insertFails);
    var existing := if lookupFails then None else Single(UsersWithEmail(t, userEmail));
    if existing.Some? {
      GetOrCreateUserFound(t, userName, userEmail, insertFails);
      var i :| 0 <= i < |t.users| && t.users[i].id == s.reply.value && t.users[i].email == userEmail;
      assert t.users[i] in s.tables.users;
    } else {
      GetOrCreateUserCreates(t, userName, userEmail, lookupFails);
      assert s.tables.users[|t.users|] in s.tables.users;
    }
  }

  /**
   * No double-booking check: with no store failure a valid request succeeds even
   * when a `booked` row already holds the same barber, date and stored slot, and
   * afterwards one more such row exists.
   */
  lemma BookIgnoresExistingBooking(t: Tables, q: BookingRequest)
    requires HasRequiredFields(q)
    requires |UsersWithEmail(t, q.userEmail.value)| == 1 || !UserIdTaken(t, t.nextUserId)
    ensures var s := BookStep(t, q, NoFaults);
      var slot := (a: Appointment) => a.barberId == q.barberId.value && a.date == q.date.value
        && a.timeSlot == ConvertTo24Hour(q.timeSlot.value) && a.status == Booked;
      && s.reply.Ok?
      && |Filter(s.tables.appointments, slot)| == |Filter(t.appointments, slot)| + 1
  {
    var slot := (a: Appointment) => a.barberId == q.barberId.value && a.date == q.date.value
      && a.timeSlot == ConvertTo24Hour(q.timeSlot.value) && a.status == Booked;
    var s := BookStep(t, q, NoFaults);
    var u := GetOrCreateUserStep(t, q.userName.value, q.userEmail.value, false, false);
    assert u.tables.appointments == t.appointments;
    FilterAppend(t.appointments, [s.reply.value], slot);
  }

  /** A failed appointment insert answers 500 but keeps a user created on the way. */
  lemma BookKeepsCreatedUser(t: Tables, q: BookingRequest)
    requires HasRequiredFields(q)
    requires |UsersWithEmail(t, q.userEmail.value)| == 0
    requires !UserIdTaken(t, t.nextUserId)
    ensures var s := BookStep(t, q, BookingFaults(false, false, true));
      && s.reply == Fail(500, "Failed to create appointment")
      && s.tables.appointments == t.appointments
      && |s.tables.users| == |t.users| + 1
  {
    GetOrCreateUserCreates(t, q.userName.value, q.userEmail.value, false);
  }

  lemma BookValid(t: Tables, q: BookingRequest, faults: BookingFaults)
    requires t.Valid()
    ensures BookStep(t, q, faults).tables.Valid()
  {
    if HasRequiredFields(q) {
      var u := GetOrCreateUserStep(t, q.userName.value, q.userEmail.value,
                                   faults.userLookupFails, faults.userInsertFails);
      GetOrCreateUserValid(t, q.userName.value, q.userEmail.value,
                           faults.userLookupFails, faults.userInsertFails);
      if u.reply.Some? {
        AddAppointmentValid(u.tables, BookedRow(u.tables.nextAppointmentId, u.reply.value, q));
      }
    }
  }

  /** Booking a catalog slot stores the slot's time of day in 24-hour form. */
  lemma BookCatalogSlot(t: Tables, q: BookingRequest, faults: BookingFaults, c: Clock12)
    requires c.Valid() && q.timeSlot == Some(Format12(c))
    requires BookStep(t, q, faults).reply.Ok?
    ensures BookStep(t, q, faults).reply.value.timeSlot == Format24(c.MinuteOfDay())
  {
    ConvertFormat12(c);
  }
}
