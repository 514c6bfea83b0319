/**
 * The slot list of the booking screen, split into a morning and an afternoon
 * column by whether an entry's time text contains "AM" or "PM".
 */
module AppointmentList {
  import opened JsStrings
  import opened Sequences
  import opened TimeFormat
  import opened ReservationApp

  /** An entry as the list shows it. */
  datatype Listing = Listing(time: string, barberName: string, profileImage: string)

  predicate IsMorning(a: Listing) {
    Includes(a.time, "AM")
  }

  predicate IsAfternoon(a: Listing) {
    Includes(a.time, "PM")
  }

  /** `appointments.filter((apt) => apt.time.includes('AM'))`. */
  function Morning(apts: seq<Listing>): seq<Listing> {
    Filter(apts, IsMorning)
  }

  /** `appointments.filter((apt) => apt.time.includes('PM'))`. */
  function Afternoon(apts: seq<Listing>): seq<Listing> {
    Filter(apts, IsAfternoon)
  }

  /**
   * The morning column holds exactly the entries whose time contains "AM", each
   * as often as in the input; likewise the afternoon column for "PM".
   */
  lemma ColumnsExact(apts: seq<Listing>, a: Listing)
    ensures a in Morning(apts) <==> a in apts && Includes(a.time, "AM")
    ensures multiset(Morning(apts))[a] == if Includes(a.time, "AM") then multiset(apts)[a] else 0
    ensures a in Afternoon(apts) <==> a in apts && Includes(a.time, "PM")
    ensures multiset(Afternoon(apts))[a] == if Includes(a.time, "PM") then multiset(apts)[a] else 0
  {
    FilterMember(apts, IsMorning, a);
    FilterCounts(apts, IsMorning, a);
    FilterMember(apts, IsAfternoon, a);
    FilterCounts(apts, IsAfternoon, a);
  }

  /** Both columns keep the input's relative order: splitting the input splits each column. */
  lemma ColumnsKeepOrder(front: seq<Listing>, back: seq<Listing>)
    ensures Morning(front + back) == Morning(front) + Morning(back)
    ensures Afternoon(front + back) == Afternoon(front) + Afternoon(back)
  {
    FilterAppend(front, back, IsMorning);
    FilterAppend(front, back, IsAfternoon);
  }

  /** An entry whose time contains neither marker is in neither column. */
  lemma NeitherColumn(apts: seq<Listing>, a: Listing)
    requires !Includes(a.time, "AM") && !Includes(a.time, "PM")
    ensures a !in Morning(apts) && a !in Afternoon(apts)
  {
    FilterExcludes(apts, IsMorning, a);
    FilterExcludes(apts, IsAfternoon, a);
  }

  /** Every catalog time is in exactly one column. */
  lemma CatalogTimeInOneColumn(j: nat)
    requires j < |TimeSlots|
    ensures Includes(TimeSlots[j], "AM") != Includes(TimeSlots[j], "PM")
  {
    CatalogSpelling(j);
    MeridiemIncludes(CatalogClocks[j]);
  }

  /**
   * When every time is taken from the catalog the columns are disjoint and
   * together hold every entry once.
   */
  lemma CatalogColumnsPartition(apts: seq<Listing>)
    requires forall i :: 0 <= i < |apts| ==> apts[i].time in TimeSlots
    ensures |Morning(apts)| + |Afternoon(apts)| == |apts|
    ensures forall a :: a in Morning(apts) ==> a !in Afternoon(apts)
  {
    forall i | 0 <= i < |apts|
      ensures IsMorning(apts[i]) != IsAfternoon(apts[i])
    {
      var j :| 0 <= j < |TimeSlots| && TimeSlots[j] == apts[i].time;
      CatalogTimeInOneColumn(j);
    }
    FilterPartition(apts, IsMorning, IsAfternoon);
    forall a | a in Morning(apts)
      ensures a !in Afternoon(apts)
    {
      FilterMember(apts, IsMorning, a);
      var i :| 0 <= i < |apts| && apts[i] == a;
      FilterMember(apts, IsAfternoon, a);
    }
  }
}
