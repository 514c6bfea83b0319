/**
 * `POST /api/appointments/cancel`: find one appointment by date, stored slot and
 * owner, then set the status of the rows with its id to `cancelled`.
 *
 * The owner filter `.eq('users.email', …)` acts on an embedded resource; which
 * parent rows it keeps is decided by the query library, so it is a parameter
 * here (`ownerMatches` on the row's `user_id`), and no ownership guarantee is
 * claimed. The preliminary query at the top of the handler only feeds a log
 * line and is not modelled.
 */
module CancelRoute {
  import opened Wrappers
  import opened Sequences
  import opened Database

  /** Which store calls fail: the lookup, the update. */
  datatype CancelFaults = CancelFaults(lookupFails: bool, updateFails: bool)

  /** The rows the lookup's three filters keep; `status` is not among them. */
  function Candidates(t: Tables, date: string, timeSlot: string, ownerMatches: nat -> bool): seq<Appointment> {
    Filter(t.appointments, (a: Appointment) => a.date == date && a.timeSlot == timeSlot && ownerMatches(a.userId))
  }

  /** `.update({ status }).eq('id', id)` on a list of rows. */
  function WithStatus(rows: seq<Appointment>, id: nat, status: Status): (r: seq<Appointment>)
    ensures |r| == |rows|
  {
    seq(|rows|, i requires 0 <= i < |rows| => if rows[i].id == id then rows[i].(status := status) else rows[i])
  }

  /**
   * The handler: 404 "Appointment not found" unless the lookup yields exactly one
   * row; 500 "Failed to cancel appointment" if the update fails; otherwise the
   * row as read before the update.
   */
  function CancelStep(t: Tables, date: string, timeSlot: string, ownerMatches: nat -> bool,
                      faults: CancelFaults): Step<Reply<Appointment>>
  {
    var found := if faults.lookupFails then None else Single(Candidates(t, date, timeSlot, ownerMatches));
    if found.None? then Step(Fail(404, "Appointment not found"), t)
    else if faults.updateFails then Step(Fail(500, "Failed to cancel appointment"), t)
    else Step(Ok(found.value), t.(appointments := WithStatus(t.appointments, found.value.id, Cancelled)))
  }

  /** Updates the matching rows of the store one at a time. */
  method SetStatus(db: Store, id: nat, status: Status)
    modifies db
    ensures db.appointments == WithStatus(old(db.appointments), id, status)
    ensures db.users == old(db.users)
    ensures db.nextUserId == old(db.nextUserId) && db.nextAppointmentId == old(db.nextAppointmentId)
  {
    var i := 0;
    while i < |db.appointments|
      invariant 0 <= i <= |db.appointments| == |old(db.appointments)|
      invariant forall k :: 0 <= k < i ==> db.appointments[k] == WithStatus(old(db.appointments), id, status)[k]
      invariant db.appointments[i..] == old(db.appointments)[i..]
      invariant db.users == old(db.users)
      invariant db.nextUserId == old(db.nextUserId) && db.nextAppointmentId == old(db.nextAppointmentId)
    {
      if db.appointments[i].id == id {
        db.appointments := db.appointments[i := db.appointments[i].(status := status)];
      }
      assert db.appointments[i + 1..] == old(db.appointments)[i + 1..] by {
        assert old(db.appointments)[i + 1..] == old(db.appointments)[i..][1..];
      }
      i := i + 1;
    }
  }

  /** The imperative handler over the shared store. */
  method Cancel(db: Store, date: string, timeSlot: string, ownerMatches: nat -> bool,
                faults: CancelFaults) returns (reply: Reply<Appointment>)
    modifies db
    ensures Step(reply, db.State()) == CancelStep(old(db.State()), date, timeSlot, ownerMatches, faults)
  {
    var found := if faults.lookupFails then None else Single(Candidates(db.State(), date, timeSlot, ownerMatches));
    if found.None? {
      return Fail(404, "Appointment not found");
    }
    if faults.updateFails {
      return Fail(500, "Failed to cancel appointment");
    }
    SetStatus(db, found.value.id, Cancelled);
    reply := Ok(found.value);
  }

  /** Unless exactly one row matches, the answer is 404 and nothing changes. */
  lemma CancelNotFound(t: Tables, date: string, timeSlot: string, ownerMatches: nat -> bool,
                       faults: CancelFaults)
    requires faults.lookupFails || |Candidates(t, date, timeSlot, ownerMatches)| != 1
    ensures CancelStep(t, date, timeSlot, ownerMatches, faults) == Step(Fail(404, "Appointment not found"), t)
  {
  }

  /** A failed update answers 500 and changes nothing. */
  lemma CancelUpdateFails(t: Tables, date: string, timeSlot: string, ownerMatches: nat -> bool)
    requires |Candidates(t, date, timeSlot, ownerMatches)| == 1
    ensures CancelStep(t, date, timeSlot, ownerMatches, CancelFaults(false, true))
         == Step(Fail(500, "Failed to cancel appointment"), t)
  {
  }

  /**
   * On success the reply is the matching row as it was before the update; in the
   * table that row, and only rows sharing its id, now read `cancelled`, with
   * every other field and every other row unchanged.
   */
  lemma CancelSuccess(t: Tables, date: string, timeSlot: string, ownerMatches: nat -> bool)
    requires |Candidates(t, date, timeSlot, ownerMatches)| == 1
    ensures var s := CancelStep(t, date, timeSlot, ownerMatches, CancelFaults(false, false));
      var a := s.reply.value;
      && s.reply.Ok?
      && a in t.appointments && a.date == date && a.timeSlot == timeSlot && ownerMatches(a.userId)
      && s.tables.users == t.users
      && |s.tables.appointments| == |t.appointments|
      && forall i :: 0 <= i < |t.appointments| ==>
           s.tables.appointments[i] == if t.appointments[i].id == a.id
                                       then t.appointments[i].(status := Cancelled)
                                       else t.appointments[i]
  {
    var c := Candidates(t, date, timeSlot, ownerMatches);
    FilterMember(t.appointments, (a: Appointment) => a.date == date && a.timeSlot == timeSlot && ownerMatches(a.userId), c[0]);
  }

  /** With primary-key ids, exactly the found row changes. */
  lemma CancelChangesOneRow(t: Tables, date: string, timeSlot: string, ownerMatches: nat -> bool)
    requires t.Valid()
    requires |Candidates(t, date, timeSlot, ownerMatches)| == 1
    ensures var s := CancelStep(t, date, timeSlot, ownerMatches, CancelFaults(false, false));
      exists k :: 0 <= k < |t.appointments|
        && t.appointments[k] == s.reply.value
        && s.tables.appointments == t.appointments[k := t.appointments[k].(status := Cancelled)]
  {
    var s := CancelStep(t, date, timeSlot, ownerMatches, CancelFaults(false, false));
    CancelSuccess(t, date, timeSlot, ownerMatches);
    var k :| 0 <= k < |t.appointments| && t.appointments[k] == s.reply.value;
    assert s.tables.appointments == t.appointments[k := t.appointments[k].(status := Cancelled)];
  }

  /**
   * The lookup ignores the status, so cancelling the same appointment again
   * succeeds and leaves the tables as the first cancellation left them.
   */
  lemma CancelTwice(t: Tables, date: string, timeSlot: string, ownerMatches: nat -> bool)
    requires |Candidates(t, date, timeSlot, ownerMatches)| == 1
    ensures var s1 := CancelStep(t, date, timeSlot, ownerMatches, CancelFaults(false, false));
      var s2 := CancelStep(s1.tables, date, timeSlot, ownerMatches, CancelFaults(false, false));
      && s2.reply.Ok?
      && s2.tables == s1.tables
      && s2.reply.value == s1.reply.value.(status := Cancelled)
  {
    var p := (a: Appointment) => a.date == date && a.timeSlot == timeSlot && ownerMatches(a.userId);
    var s1 := CancelStep(t, date, timeSlot, ownerMatches, CancelFaults(false, false));
    var a := s1.reply.value;
    CancelSuccess(t, date, timeSlot, ownerMatches);
    StatusUpdateKeepsCandidates(t.appointments, a.id, p);
    var rows := s1.tables.appointments;
    assert Candidates(s1.tables, date, timeSlot, ownerMatches) == Filter(rows, p);
    assert WithStatus(rows, a.id, Cancelled) == rows;
    CancelledCandidate(t.appointments, a, p);
  }

  /** Filtering the updated rows by a status-blind predicate updates the filtered rows. */
  lemma {:induction false} StatusUpdateKeepsCandidates(rows: seq<Appointment>, id: nat, p: Appointment -> bool)
    requires forall a: Appointment, st: Status :: p(a) == p(a.(status := st))
    ensures Filter(WithStatus(rows, id, Cancelled), p) == WithStatus(Filter(rows, p), id, Cancelled)
  {
    if rows != [] {
      var r, rest := rows[0], rows[1..];
      assert rows == [r] + rest;
      var r' := if r.id == id then r.(status := Cancelled) else r;
      assert p(r') == p(r);
      StatusUpdateKeepsCandidates(rest, id, p);
      var tail := WithStatus(Filter(rest, p), id, Cancelled);
      WithStatusCons(r, rest, id, Cancelled);
      FilterCons(r', WithStatus(rest, id, Cancelled), p);
      assert Filter(WithStatus(rows, id, Cancelled), p) == (if p(r) then [r'] else []) + tail;
      FilterCons(r, rest, p);
      if p(r) {
        WithStatusCons(r, Filter(rest, p), id, Cancelled);
      } else {
        assert Filter(rows, p) == Filter(rest, p);
      }
    }
  }

  /** The update works row by row. */
  lemma WithStatusCons(r: Appointment, rest: seq<Appointment>, id: nat, status: Status)
    ensures WithStatus([r] + rest, id, status)
         == [if r.id == id then r.(status := status) else r] + WithStatus(rest, id, status)
  {
  }

  /** The single candidate after the update is the found row, now cancelled. */
  lemma CancelledCandidate(rows: seq<Appointment>, a: Appointment, p: Appointment -> bool)
    requires Filter(rows, p) == [a]
    ensures WithStatus(Filter(rows, p), a.id, Cancelled) == [a.(status := Cancelled)]
  {
  }

  /** Two rows that both pass the lookup's filters make it answer 404: `.single()` rejects them. */
  lemma CancelAmbiguous(t: Tables, date: string, timeSlot: string, ownerMatches: nat -> bool, i: nat, j: nat)
    requires i < j < |t.appointments|
    requires t.appointments[i].date == date && t.appointments[i].timeSlot == timeSlot && ownerMatches(t.appointments[i].userId)
    requires t.appointments[j].date == date && t.appointments[j].timeSlot == timeSlot && ownerMatches(t.appointments[j].userId)
    ensures CancelStep(t, date, timeSlot, ownerMatches, CancelFaults(false, false))
         == Step(Fail(404, "Appointment not found"), t)
  {
    var p := (a: Appointment) => a.date == date && a.timeSlot == timeSlot && ownerMatches(a.userId);
    var rows := t.appointments;
    assert rows == rows[..i] + [rows[i]] + (rows[i + 1..j] + [rows[j]] + rows[j + 1..]);
    FilterAppend(rows[..i] + [rows[i]], rows[i + 1..j] + [rows[j]] + rows[j + 1..], p);
    FilterAppend(rows[..i], [rows[i]], p);
    FilterAppend(rows[i + 1..j] + [rows[j]], rows[j + 1..], p);
    FilterAppend(rows[i + 1..j], [rows[j]], p);
  }

  lemma CancelValid(t: Tables, date: string, timeSlot: string, ownerMatches: nat -> bool, faults: CancelFaults)
    requires t.Valid()
    ensures CancelStep(t, date, timeSlot, ownerMatches, faults).tables.Valid()
  {
  }
}
