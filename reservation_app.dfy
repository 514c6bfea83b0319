/**
 * The main booking screen: its catalog of time slots, its local list of
 * bookable slots and the three pieces of screen state the handlers change
 * (`appointments`, `selectedAppointment`, `showModal`). Whether the visitor is
 * signed in comes from the auth provider and is a parameter.
 */
module ReservationApp {
  import opened Wrappers
  import opened JsStrings
  import opened TimeFormat

  /** The `TIME_SLOTS` catalog as written. */
  const TimeSlots: seq<string> := [
    "08:00 AM", "08:30 AM", "09:00 AM", "09:30 AM", "10:00 AM",
    "10:30 AM", "11:00 AM", "11:30 AM", "12:00 PM", "01:00 PM",
    "01:30 PM", "02:00 PM", "02:30 PM", "03:00 PM", "03:30 PM",
    "04:00 PM", "04:30 PM", "05:00 PM"]

  /** The times the catalog spells, one per entry. */
  const CatalogClocks: seq<Clock12> := [
    Clock12(8, 0, false), Clock12(8, 30, false), Clock12(9, 0, false), Clock12(9, 30, false),
    Clock12(10, 0, false), Clock12(10, 30, false), Clock12(11, 0, false), Clock12(11, 30, false),
    Clock12(12, 0, true), Clock12(1, 0, true), Clock12(1, 30, true), Clock12(2, 0, true),
    Clock12(2, 30, true), Clock12(3, 0, true), Clock12(3, 30, true), Clock12(4, 0, true),
    Clock12(4, 30, true), Clock12(5, 0, true)]

  /** Each catalog entry is the "hh:mm AM|PM" spelling of a valid time. */
  lemma CatalogSpelling(i: nat)
    requires i < |TimeSlots|
    ensures |TimeSlots| == 18 && |CatalogClocks| == |TimeSlots|
    ensures CatalogClocks[i].Valid() && TimeSlots[i] == Format12(CatalogClocks[i])
  {
    var c := CatalogClocks[i];
    assert c.Valid();
    Format12Chars(c);
  }

  /**
   * Each entry is earlier than the next, by half an hour, or by an hour across
   * the skipped 12:30 PM.
   */
  lemma CatalogStep(k: nat)
    requires k + 1 < |CatalogClocks|
    ensures CatalogClocks[k].Valid() && CatalogClocks[k + 1].Valid()
    ensures CatalogClocks[k].MinuteOfDay() < CatalogClocks[k + 1].MinuteOfDay()
    ensures CatalogClocks[k + 1].MinuteOfDay() - CatalogClocks[k].MinuteOfDay() == if k == 8 then 60 else 30
  {
  }

  /** The catalog is in strictly ascending time of day. */
  lemma {:induction false} CatalogAscending(i: nat, j: nat)
    requires i < j < |CatalogClocks|
    ensures CatalogClocks[i].Valid() && CatalogClocks[j].Valid()
    ensures CatalogClocks[i].MinuteOfDay() < CatalogClocks[j].MinuteOfDay()
  {
    CatalogStep(j - 1);
    if i < j - 1 {
      CatalogAscending(i, j - 1);
    }
  }

  /** There is no 12:30 PM slot: the lunch half hour is skipped. */
  lemma CatalogSkipsLunch()
    ensures "12:30 PM" !in TimeSlots
    ensures Clock12(12, 30, true) !in CatalogClocks
  {
  }

  /**
   * Distinct catalog entries are stored as distinct `time_slot` strings: the
   * conversion is one to one on the catalog.
   */
  lemma CatalogConvertsDistinctly(i: nat, j: nat)
    requires i < |TimeSlots| && j < |TimeSlots| && i != j
    ensures TimeSlots[i] != TimeSlots[j]
    ensures ConvertTo24Hour(TimeSlots[i]) != ConvertTo24Hour(TimeSlots[j])
  {
    CatalogSpelling(i);
    CatalogSpelling(j);
    if i < j {
      CatalogAscending(i, j);
    } else {
      CatalogAscending(j, i);
    }
    if ConvertTo24Hour(TimeSlots[i]) == ConvertTo24Hour(TimeSlots[j]) {
      ConvertInjective(CatalogClocks[i], CatalogClocks[j]);
    }
  }

  /** Each catalog entry is stored as the 24-hour spelling of its own time of day. */
  lemma CatalogStoredForm(i: nat)
    requires i < |TimeSlots|
    ensures CatalogClocks[i].Valid()
    ensures ConvertTo24Hour(TimeSlots[i]) == Format24(CatalogClocks[i].MinuteOfDay())
  {
    CatalogSpelling(i);
    ConvertFormat12(CatalogClocks[i]);
  }

  /** An entry of the local list (the component's `Appointment` interface). */
  datatype Slot = Slot(
    time: string,
    barberName: string,
    profileImage: string,
    isBooked: Option<bool>,
    bookedBy: Option<string>)

  /** The spread `{ ...apt, isBooked: true, bookedBy: userName }`. */
  function Booked(s: Slot, userName: string): Slot {
    s.(isBooked := Some(true), bookedBy := Some(userName))
  }

  /** The `map` inside `handleBookingSuccess`: entries at `timeSlot` are marked booked. */
  function MarkBooked(slots: seq<Slot>, timeSlot: string, userName: string): (r: seq<Slot>)
    ensures |r| == |slots|
  {
    seq(|slots|, i requires 0 <= i < |slots| => if slots[i].time == timeSlot then Booked(slots[i], userName) else slots[i])
  }

  /**
   * Every entry at the booked time is marked as booked by the user, keeping its
   * time, barber and picture; every other entry is unchanged; positions are kept.
   */
  lemma MarkBookedEffect(slots: seq<Slot>, timeSlot: string, userName: string, i: nat)
    requires i < |slots|
    ensures var r := MarkBooked(slots, timeSlot, userName);
      && |r| == |slots|
      && (slots[i].time == timeSlot ==>
            && r[i].isBooked == Some(true) && r[i].bookedBy == Some(userName)
            && r[i].time == slots[i].time && r[i].barberName == slots[i].barberName
            && r[i].profileImage == slots[i].profileImage)
      && (slots[i].time != timeSlot ==> r[i] == slots[i])
  {
  }

  /** Marking the same slot for the same user twice is marking it once. */
  lemma MarkBookedIdempotent(slots: seq<Slot>, timeSlot: string, userName: string)
    ensures MarkBooked(MarkBooked(slots, timeSlot, userName), timeSlot, userName) == MarkBooked(slots, timeSlot, userName)
  {
  }

  /** Marking a time no entry has changes nothing. */
  lemma MarkBookedUnknownTime(slots: seq<Slot>, timeSlot: string, userName: string)
    requires forall i :: 0 <= i < |slots| ==> slots[i].time != timeSlot
    ensures MarkBooked(slots, timeSlot, userName) == slots
  {
  }

  /** The three buttons `renderBookButton` can draw. */
  datatype BookButton = BookedDisabled | SignInToBook | BookNow

  /** `renderBookButton`: booked first, then the sign-in prompt, then "Book Now". */
  function RenderBookButton(s: Slot, isSignedIn: bool): (b: BookButton) {
    if s.isBooked == Some(true) then BookedDisabled
    else if !isSignedIn then SignInToBook
    else BookNow
  }

  /**
   * A booked entry shows the disabled "Booked" button whoever looks; an
   * unbooked one shows "Book Now" exactly when the visitor is signed in.
   */
  lemma RenderBookButtonRule(s: Slot, isSignedIn: bool)
    ensures RenderBookButton(s, isSignedIn) == BookedDisabled <==> s.isBooked == Some(true)
    ensures RenderBookButton(s, isSignedIn) == BookNow <==> s.isBooked != Some(true) && isSignedIn
    ensures RenderBookButton(s, isSignedIn) == SignInToBook <==> s.isBooked != Some(true) && !isSignedIn
  {
  }

  /** After a booking succeeds every entry at that time shows "Booked". */
  lemma BookedSlotShowsBooked(slots: seq<Slot>, timeSlot: string, userName: string, i: nat, isSignedIn: bool)
    requires i < |slots| && slots[i].time == timeSlot
    ensures RenderBookButton(MarkBooked(slots, timeSlot, userName)[i], isSignedIn) == BookedDisabled
  {
  }

  const LeonardoImage := "https://i.pravatar.cc/150?img=1"
  const CleitonImage := "https://i.pravatar.cc/150?img=2"

  /** The two entries the screen starts with. */
  function InitialSlots(): (r: seq<Slot>)
    ensures |r| == 2 && r[0].time == TimeSlots[2] && r[1].time == TimeSlots[4]
    ensures forall i :: 0 <= i < |r| ==> r[i].isBooked == None && r[i].bookedBy == None
  {
    [Slot("09:00 AM", "Leonardo Minatti", LeonardoImage, None, None),
     Slot("10:00 AM", "Cleiton Souza", CleitonImage, None, None)]
  }

  /** The screen's state; `selectedDate` is a day number (days since 1970-01-01). */
  class ReservationScreen {
    var selectedDate: int
    var selectedAppointment: Option<Slot>
    var showModal: bool
    var appointments: seq<Slot>

    constructor(today: int)
      ensures selectedDate == today && selectedAppointment == None && !showModal
      ensures appointments == InitialSlots()
    {
      selectedDate := today;
      selectedAppointment := None;
      showModal := false;
      appointments := InitialSlots();
    }

    /** `handleAppointmentSelect`: ignored when signed out; otherwise select and open the modal. */
    method HandleAppointmentSelect(a: Slot, isSignedIn: bool)
      modifies this
      ensures !isSignedIn ==> selectedAppointment == old(selectedAppointment) && showModal == old(showModal)
      ensures isSignedIn ==> selectedAppointment == Some(a) && showModal
      ensures appointments == old(appointments) && selectedDate == old(selectedDate)
    {
      if !isSignedIn {
        return;
      }
      selectedAppointment := Some(a);
      showModal := true;
    }

    /** `handleBookingSuccess`: mark the slot booked in the list and close the modal. */
    method HandleBookingSuccess(timeSlot: string, userName: string)
      modifies this
      ensures appointments == MarkBooked(old(appointments), timeSlot, userName)
      ensures !showModal
      ensures selectedAppointment == old(selectedAppointment) && selectedDate == old(selectedDate)
    {
      appointments := MarkBooked(appointments, timeSlot, userName);
      showModal := false;
    }

    /** The modal's `onClose`. */
    method CloseModal()
      modifies this
      ensures !showModal
      ensures appointments == old(appointments) && selectedAppointment == old(selectedAppointment)
      ensures selectedDate == old(selectedDate)
    {
      showModal := false;
    }

    /** The calendar's `onDateSelect`, bound to `setSelectedDate`. */
    method SelectDate(day: int)
      modifies this
      ensures selectedDate == day
      ensures appointments == old(appointments) && selectedAppointment == old(selectedAppointment)
      ensures showModal == old(showModal)
    {
      selectedDate := day;
    }
  }
}
