/**
 * The "Your Reservations" dialog: a sorted copy of the visitor's reservations,
 * earliest first, or an empty-state message. A reservation's date is a day
 * number and its time is the minute of the day its time text denotes.
 */
module UserReservations {
  import opened Sequences

  const MinutesPerDay := 24 * 60

  type MinuteOfDay = m: nat | m < MinutesPerDay

  datatype Reservation = Reservation(
    day: int,
    minute: MinuteOfDay,
    time: string,
    barberName: string,
    profileImage: string)

  /** The instant the comparator builds from date and time, in minutes. */
  function Instant(r: Reservation): int {
    r.day * MinutesPerDay + r.minute
  }

  /** `dateTimeA.getTime() - dateTimeB.getTime() <= 0`. */
  predicate EarlierOrSame(a: Reservation, b: Reservation) {
    Instant(a) <= Instant(b)
  }

  /** Comparing instants is comparing dates, then times of day. */
  lemma InstantOrder(a: Reservation, b: Reservation)
    ensures EarlierOrSame(a, b) <==> a.day < b.day || (a.day == b.day && a.minute <= b.minute)
    ensures Instant(a) == Instant(b) <==> a.day == b.day && a.minute == b.minute
  {
    if a.day < b.day {
      assert a.day * MinutesPerDay + MinutesPerDay <= b.day * MinutesPerDay;
    } else if b.day < a.day {
      assert b.day * MinutesPerDay + MinutesPerDay <= a.day * MinutesPerDay;
    }
  }

  lemma EarlierOrSameTotalPreorder()
    ensures TotalPreorder(EarlierOrSame)
  {
  }

  /** `[...reservations].sort(...)`: a stable sort of a copy. */
  function SortedReservations(reservations: seq<Reservation>): seq<Reservation> {
    SortBy(reservations, EarlierOrSame)
  }

  /**
   * The sorted list holds the same reservations, each as often, in
   * non-decreasing (date, time of day) order.
   */
  lemma SortedReservationsSpec(reservations: seq<Reservation>)
    ensures var r := SortedReservations(reservations);
      && multiset(r) == multiset(reservations) && |r| == |reservations|
      && (forall i, j :: 0 <= i < j < |r| ==>
            r[i].day < r[j].day || (r[i].day == r[j].day && r[i].minute <= r[j].minute))
  {
    var r := SortedReservations(reservations);
    assert |r| == |multiset(r)| == |multiset(reservations)| == |reservations|;
    EarlierOrSameTotalPreorder();
    SortBySorted(reservations, EarlierOrSame);
    forall i, j | 0 <= i < j < |r|
      ensures r[i].day < r[j].day || (r[i].day == r[j].day && r[i].minute <= r[j].minute)
    {
      InstantOrder(r[i], r[j]);
    }
  }

  /** Reservations at the same date and time keep the order they came in. */
  lemma SortedReservationsStable(reservations: seq<Reservation>, k: Reservation)
    ensures Filter(SortedReservations(reservations), y => Equivalent(EarlierOrSame, y, k))
         == Filter(reservations, y => Equivalent(EarlierOrSame, y, k))
  {
    EarlierOrSameTotalPreorder();
    SortByStable(reservations, EarlierOrSame, k);
  }

  /** Two reservations tie under the comparator exactly when date and time agree. */
  lemma TieMeansSameSlot(a: Reservation, b: Reservation)
    ensures Equivalent(EarlierOrSame, a, b) <==> a.day == b.day && a.minute == b.minute
  {
    InstantOrder(a, b);
  }

  /** What the dialog shows. */
  datatype View = EmptyState | Items(items: seq<Reservation>)

  /** The empty-state text for no reservations, otherwise one list item per sorted reservation. */
  function Render(reservations: seq<Reservation>): View {
    var sorted := SortedReservations(reservations);
    if |sorted| == 0 then EmptyState else Items(sorted)
  }

  /** The empty state shows exactly when there is nothing to list; otherwise every reservation is listed once. */
  lemma RenderSpec(reservations: seq<Reservation>)
    ensures Render(reservations) == EmptyState <==> reservations == []
    ensures Render(reservations).Items? ==>
      && |Render(reservations).items| == |reservations|
      && multiset(Render(reservations).items) == multiset(reservations)
  {
    SortedReservationsSpec(reservations);
  }
}
