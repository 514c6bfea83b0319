/**
 * The two tables the route handlers read and write, `users` and `appointments`,
 * held in memory as sequences of rows, plus the PostgREST `.single()` rule.
 */
module Database {
  import opened Wrappers
  import opened Sequences

  /** The `status` column of an appointment. */
  datatype Status = Booked | Cancelled

  /** A row of `users`; `password` and `phone` are nullable. */
  datatype User = User(
    id: nat,
    clerkId: Option<string>,
    name: string,
    email: string,
    password: Option<string>,
    phone: Option<string>)

  /**
   * A row of `appointments`. `date` and `timeSlot` hold the text the booking
   * request supplied ("yyyy-MM-dd" and the converted "HH:mm:00" when well
   * formed); the model compares them as text.
   */
  datatype Appointment = Appointment(
    id: nat,
    userId: nat,
    barberId: int,
    date: string,
    timeSlot: string,
    status: Status)

  /**
   * Both tables and the next values of their id sequences
   * (`users_id_seq` and the serial behind `appointments.id`).
   */
  datatype Tables = Tables(
    users: seq<User>,
    appointments: seq<Appointment>,
    nextUserId: nat,
    nextAppointmentId: nat)
  {
    /**
     * Ids are primary keys, and every id was drawn from its sequence: user ids,
     * whether taken as the column default or through `get_next_id`, from
     * `users_id_seq`, appointment ids from the serial.
     */
    predicate Valid() {
      && (forall i, j :: 0 <= i < j < |users| ==> users[i].id != users[j].id)
      && (forall i :: 0 <= i < |users| ==> users[i].id < nextUserId)
      && (forall i, j :: 0 <= i < j < |appointments| ==> appointments[i].id != appointments[j].id)
      && (forall i :: 0 <= i < |appointments| ==> appointments[i].id < nextAppointmentId)
    }
  }

  /** What a handler answers together with the tables it leaves behind. */
  datatype Step<T> = Step(reply: T, tables: Tables)

  /** Two empty tables whose sequences start at 1. */
  function Empty(): (t: Tables)
    ensures t.Valid() && t.users == [] && t.appointments == []
  {
    Tables([], [], 1, 1)
  }

  /** `.single()`: the row when exactly one row matches; no data for zero or several. */
  function Single<T>(rows: seq<T>): (r: Option<T>)
    ensures r.Some? <==> |rows| == 1
    ensures r.Some? ==> r.value in rows
  {
    if |rows| == 1 then Some(rows[0]) else None
  }

  /** `.from('users').eq('email', email)`. */
  function UsersWithEmail(t: Tables, email: string): seq<User> {
    Filter(t.users, (u: User) => u.email == email)
  }

  /** `.from('users').eq('clerk_id', id)`. */
  function UsersWithClerkId(t: Tables, id: string): seq<User> {
    Filter(t.users, (u: User) => u.clerkId == Some(id))
  }

  /** Some user row already has this id: the primary key rejects another. */
  predicate UserIdTaken(t: Tables, id: nat) {
    exists i :: 0 <= i < |t.users| && t.users[i].id == id
  }

  /** In valid tables the next value of `users_id_seq` is no user's id. */
  lemma FreshUserId(t: Tables)
    requires t.Valid()
    ensures !UserIdTaken(t, t.nextUserId)
  {
  }

  /** Appending a user whose id is the sequence's next value, and advancing it, keeps the tables valid. */
  lemma AddUserValid(t: Tables, u: User)
    requires t.Valid() && u.id == t.nextUserId
    ensures t.(users := t.users + [u], nextUserId := u.id + 1).Valid()
  {
  }

  /** `.from('appointments').insert(row)`: the row is appended and the serial advances. */
  function InsertAppointment(t: Tables, a: Appointment): Tables {
    t.(appointments := t.appointments + [a], nextAppointmentId := t.nextAppointmentId + 1)
  }

  /** Appending a row whose id is the serial's next value keeps the tables valid. */
  lemma AddAppointmentValid(t: Tables, a: Appointment)
    requires t.Valid() && a.id == t.nextAppointmentId
    ensures InsertAppointment(t, a).Valid()
  {
  }

  /** The database the handlers share; each handler replaces what it changes. */
  class Store {
    var users: seq<User>
    var appointments: seq<Appointment>
    var nextUserId: nat
    var nextAppointmentId: nat

    /** The tables as values. */
    function State(): Tables
      reads this
    {
      Tables(users, appointments, nextUserId, nextAppointmentId)
    }

    constructor()
      ensures State() == Empty()
    {
      users := [];
      appointments := [];
      nextUserId := 1;
      nextAppointmentId := 1;
    }
  }
}
