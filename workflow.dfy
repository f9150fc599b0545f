/** The booking screen's use of the engine (app.py:182-198): the duration
    chosen from the patient type, the options offered under their labels,
    and "Confirm Booking", which reads the chosen label back and books it. */
module Workflow {
  import opened Schedule
  import opened SlotFinder
  import opened Booking
  import opened SlotLabel
  import opened Text

  /** The appointment type the screen passes to `book_slot` for a duration. */
  function AppointmentType(duration: int): (apptType: string)
    ensures apptType == NewPatient <==> duration != 30
  {
    if duration == 30 then "Returning Patient" else NewPatient
  }

  /** The request "Confirm Booking" makes for an option. */
  function OpeningRequest(patientId: string, doctor: string, location: string, duration: int,
                          o: Opening, notes: string): Request
  {
    Request(patientId, doctor, location, o.date, o.start, o.end, AppointmentType(duration), notes)
  }

  /** "Confirm Booking" on a chosen label: None when taking the label apart
      raises IndexError, otherwise the outcome of `book_slot`. */
  function Confirm(schedule: seq<Slot>, patientId: string, doctor: string, location: string,
                   duration: int, chosen: string, notes: string): Option<Outcome>
  {
    match ParseLabel(chosen)
    case None => None
    case Some(o) => Some(Book(schedule, OpeningRequest(patientId, doctor, location, duration, o, notes)))
  }

  /** Two rows name the same start (or end) of one doctor at one location on
      one date. */
  predicate SameStart(x: Slot, y: Slot)
  {
    x.doctor == y.doctor && x.location == y.location && x.date == y.date && x.slotStart == y.slotStart
  }

  predicate SameEnd(x: Slot, y: Slot)
  {
    x.doctor == y.doctor && x.location == y.location && x.date == y.date && x.slotEnd == y.slotEnd
  }

  /** A grid in which every doctor, location and date has at most one row
      per start time and at most one row per end time, as a grid of
      back-to-back 30-minute slots has. */
  predicate UniqueSlots(grid: seq<Slot>)
  {
    forall i, j :: 0 <= i < |grid| && 0 <= j < |grid| && i != j ==>
      !SameStart(grid[i], grid[j]) && !SameEnd(grid[i], grid[j])
  }

  /** Every row's date and times can be shown in a label and read back. */
  predicate PrintableRows(grid: seq<Slot>)
  {
    forall s :: s in grid ==> Printable(Opening(s.date, s.slotStart, s.slotEnd))
  }

  /** The rows an option occupies: the one row with its start and end for 30
      minutes, the row with its start and the row with its end otherwise. */
  predicate Occupies(s: Slot, doctor: string, location: string, duration: int, o: Opening)
  {
    && s.doctor == doctor && s.location == location && s.date == o.date
    && if duration == 30 then s.slotStart == o.start && s.slotEnd == o.end
       else s.slotStart == o.start || s.slotEnd == o.end
  }

  /** In a grid with unique slots, a mask that fixes a start or an end time
      selects at most one row, so the first selected row is that row. */
  lemma SelectedRowIsUnique(grid: seq<Slot>, m: Mask, i: nat)
    requires UniqueSlots(grid)
    requires m.start.Some? || m.end.Some?
    requires i < |grid| && Selects(m, grid[i])
    ensures FirstSelected(grid, m) == Some(i)
    ensures forall j :: 0 <= j < |grid| && Selects(m, grid[j]) ==> j == i
  {
    forall j | 0 <= j < |grid| && Selects(m, grid[j])
      ensures j == i
    {
    }
  }

  /** Booking an offered 30-minute option takes its one row. */
  lemma OfferedRowIsBooked(schedule: seq<Slot>, doctor: string, startDate: string, location: string,
                           o: Opening, req: Request)
    requires Offered(schedule, doctor, startDate, location, 30, o)
    requires UniqueSlots(schedule)
    requires req == OpeningRequest(req.patientId, doctor, location, 30, o, req.notes)
    ensures Book(schedule, req).ok
    ensures forall i :: 0 <= i < |schedule| ==>
              Book(schedule, req).grid[i]
              == if Occupies(schedule[i], doctor, location, 30, o) then Marked(schedule[i], req) else schedule[i]
  {
    var a :| a in schedule && IsAvailable(a, doctor, startDate, location)
             && o == Opening(a.date, a.slotStart, a.slotEnd);
    var ia :| 0 <= ia < |schedule| && schedule[ia] == a;
    SelectedRowIsUnique(schedule, SlotMask(req), ia);
    ReturningPatientBooking(schedule, req);
  }

  /** Booking an offered longer option takes the row it starts in and the
      row it ends in. */
  lemma OfferedPairIsBooked(schedule: seq<Slot>, doctor: string, startDate: string, location: string,
                            duration: int, o: Opening, req: Request)
    requires duration != 30
    requires Offered(schedule, doctor, startDate, location, duration, o)
    requires UniqueSlots(schedule)
    requires req == OpeningRequest(req.patientId, doctor, location, duration, o, req.notes)
    ensures Book(schedule, req).ok
    ensures forall i :: 0 <= i < |schedule| ==>
              Book(schedule, req).grid[i]
              == if Occupies(schedule[i], doctor, location, duration, o) then Marked(schedule[i], req) else schedule[i]
  {
    var ia, ib := LocatePair(schedule, doctor, startDate, location, duration, o, req);
    NewPatientBooking(schedule, req);
    var r := schedule[ia := Marked(schedule[ia], req)][ib := Marked(schedule[ib], req)];
    assert Book(schedule, req).grid == r;
    OccupiedPair(schedule, doctor, location, duration, o, req, ia, ib);
    forall i | 0 <= i < |schedule|
      ensures r[i] == if Occupies(schedule[i], doctor, location, duration, o) then Marked(schedule[i], req) else schedule[i]
    {
    }
  }

  /** The start and end lookups for an offered longer option find the two
      free rows that back it, and only those rows. */
  lemma LocatePair(schedule: seq<Slot>, doctor: string, startDate: string, location: string,
                   duration: int, o: Opening, req: Request) returns (ia: nat, ib: nat)
    requires duration != 30
    requires Offered(schedule, doctor, startDate, location, duration, o)
    requires UniqueSlots(schedule)
    requires req == OpeningRequest(req.patientId, doctor, location, duration, o, req.notes)
    ensures ia < |schedule| && ib < |schedule|
    ensures FirstSelected(schedule, StartMask(req)) == Some(ia) && FirstSelected(schedule, EndMask(req)) == Some(ib)
    ensures schedule[ia].booked == "No" && schedule[ib].booked == "No"
    ensures Selects(StartMask(req), schedule[ia]) && Selects(EndMask(req), schedule[ib])
    ensures forall j :: 0 <= j < |schedule| && Selects(StartMask(req), schedule[j]) ==> j == ia
    ensures forall j :: 0 <= j < |schedule| && Selects(EndMask(req), schedule[j]) ==> j == ib
  {
    var a, b :| a in schedule && b in schedule
                && IsAvailable(a, doctor, startDate, location) && IsAvailable(b, doctor, startDate, location)
                && Contiguous(a, b) && o == Opening(a.date, a.slotStart, b.slotEnd);
    ia :| 0 <= ia < |schedule| && schedule[ia] == a;
    ib :| 0 <= ib < |schedule| && schedule[ib] == b;
    SelectedRowIsUnique(schedule, StartMask(req), ia);
    SelectedRowIsUnique(schedule, EndMask(req), ib);
  }

  /** The rows a longer option occupies are those its start and end lookups
      select. */
  lemma OccupiedPair(schedule: seq<Slot>, doctor: string, location: string, duration: int,
                     o: Opening, req: Request, ia: nat, ib: nat)
    requires duration != 30
    requires req == OpeningRequest(req.patientId, doctor, location, duration, o, req.notes)
    requires ia < |schedule| && ib < |schedule|
    requires forall j :: 0 <= j < |schedule| && Selects(StartMask(req), schedule[j]) ==> j == ia
    requires forall j :: 0 <= j < |schedule| && Selects(EndMask(req), schedule[j]) ==> j == ib
    requires Selects(StartMask(req), schedule[ia]) && Selects(EndMask(req), schedule[ib])
    ensures forall i :: 0 <= i < |schedule| ==>
              (Occupies(schedule[i], doctor, location, duration, o) <==> i == ia || i == ib)
  {
    forall i | 0 <= i < |schedule| && Occupies(schedule[i], doctor, location, duration, o)
      ensures i == ia || i == ib
    {
      assert Selects(StartMask(req), schedule[i]) || Selects(EndMask(req), schedule[i]);
    }
  }

  /** Booking an offered option in a grid with unique slots succeeds and
      takes exactly the rows the option occupies, and nothing else. */
  lemma OfferedOpeningIsBooked(schedule: seq<Slot>, doctor: string, startDate: string, location: string,
                               duration: int, o: Opening, patientId: string, notes: string)
    requires Offered(schedule, doctor, startDate, location, duration, o)
    requires UniqueSlots(schedule)
    ensures Book(schedule, OpeningRequest(patientId, doctor, location, duration, o, notes)).ok
    ensures |Book(schedule, OpeningRequest(patientId, doctor, location, duration, o, notes)).grid| == |schedule|
    ensures forall i :: 0 <= i < |schedule| ==>
              Book(schedule, OpeningRequest(patientId, doctor, location, duration, o, notes)).grid[i]
              == if Occupies(schedule[i], doctor, location, duration, o)
                 then Marked(schedule[i], OpeningRequest(patientId, doctor, location, duration, o, notes))
                 else schedule[i]
  {
    var req := OpeningRequest(patientId, doctor, location, duration, o, notes);
    BookingOnlyMarksFreeRows(schedule, req);
    if duration == 30 {
      OfferedRowIsBooked(schedule, doctor, startDate, location, o, req);
    } else {
      OfferedPairIsBooked(schedule, doctor, startDate, location, duration, o, req);
    }
  }

  /** The whole "Confirm Booking" path: for any option `find_slots` offers
      on a grid with unique slots, and whose fields print cleanly, its label
      reads back as that option and booking it succeeds, taking exactly the rows it occupies. */
  lemma ChosenOptionIsBooked(schedule: seq<Slot>, doctor: string, startDate: string, location: string,
                             duration: int, o: Opening, patientId: string, notes: string)
    requires o in Openings(schedule, doctor, startDate, location, duration)
    requires UniqueSlots(schedule) && Printable(o)
    ensures Confirm(schedule, patientId, doctor, location, duration, FormatLabel(o), notes)
            == Some(Book(schedule, OpeningRequest(patientId, doctor, location, duration, o, notes)))
    ensures Book(schedule, OpeningRequest(patientId, doctor, location, duration, o, notes)).ok
  {
    OpeningsAreOffered(schedule, doctor, startDate, location, duration, o);
    LabelRoundTrip(o);
    OfferedOpeningIsBooked(schedule, doctor, startDate, location, duration, o, patientId, notes);
  }

  /** On a grid whose rows all print cleanly, every offered option does. */
  lemma OfferedOptionIsPrintable(schedule: seq<Slot>, doctor: string, startDate: string, location: string,
                                 duration: int, o: Opening)
    requires o in Openings(schedule, doctor, startDate, location, duration)
    requires PrintableRows(schedule)
    ensures Printable(o)
  {
    OpeningsAreOffered(schedule, doctor, startDate, location, duration, o);
    if duration == 30 {
      var a :| a in schedule && IsAvailable(a, doctor, startDate, location)
               && o == Opening(a.date, a.slotStart, a.slotEnd);
      assert Printable(Opening(a.date, a.slotStart, a.slotEnd));
    } else {
      var a, b :| a in schedule && b in schedule
                  && IsAvailable(a, doctor, startDate, location) && IsAvailable(b, doctor, startDate, location)
                  && Contiguous(a, b) && o == Opening(a.date, a.slotStart, b.slotEnd);
      assert Printable(Opening(a.date, a.slotStart, a.slotEnd));
      assert Printable(Opening(b.date, b.slotStart, b.slotEnd));
    }
  }

  /** The worked example: two free back-to-back rows of Dr. Rao at Bengaluru
      Clinic on 2024-06-01. */
  function RaoGrid(): seq<Slot>
  {
    [Slot("Dr. Rao", "Bengaluru Clinic", "2024-06-01", "09:00", "09:30", "No", "", "", ""),
     Slot("Dr. Rao", "Bengaluru Clinic", "2024-06-01", "09:30", "10:00", "No", "", "", "")]
  }

  function RaoHour(): Opening
  {
    Opening("2024-06-01", "09:00", "10:00")
  }

  /** Two free back-to-back rows of one date, in order, are searched as
      exactly one longer option. */
  lemma TwoRowsGiveOnePair(a: Slot, b: Slot, doctor: string, startDate: string, location: string,
                           duration: int)
    requires duration != 30
    requires IsAvailable(a, doctor, startDate, location) && IsAvailable(b, doctor, startDate, location)
    requires KeyLe(a, b) && Contiguous(a, b)
    ensures Openings([a, b], doctor, startDate, location, duration) == [Opening(a.date, a.slotStart, b.slotEnd)]
  {
    var grid := [a, b];
    assert grid[1..] == [b] && [b][1..] == [];
    assert Available([b], doctor, startDate, location) == [b];
    assert Available(grid, doctor, startDate, location) == grid;
    assert SortByDateStart([b]) == [b];
    assert SortedAvailable(grid, doctor, startDate, location) == grid;
    assert grid[..1] == [a] && [a][..0] == [];
    assert GroupByDate([a]) == [[a]];
    assert GroupByDate(grid) == [grid];
    assert Pairs([a], a.date) == [];
    var groups: seq<seq<Slot>> := [grid];
    assert groups[..0] == [];
    assert Pairs(grid, a.date) == [Opening(a.date, a.slotStart, b.slotEnd)];
    assert AllOpenings(groups, duration) == GroupOpenings(grid, a.date, duration);
  }

  /** The one-hour search from 2024-06-01 finds the single option 09:00-10:00. */
  lemma RaoHourIsOffered()
    ensures Openings(RaoGrid(), "Dr. Rao", "2024-06-01", "Bengaluru Clinic", 60) == [RaoHour()]
  {
    RaoRowsAreFree();
    RaoRowsInOrder();
    TwoRowsGiveOnePair(RaoGrid()[0], RaoGrid()[1], "Dr. Rao", "2024-06-01", "Bengaluru Clinic", 60);
  }

  /** Both of Dr. Rao's rows are free and searched from 2024-06-01. */
  lemma RaoRowsAreFree()
    ensures IsAvailable(RaoGrid()[0], "Dr. Rao", "2024-06-01", "Bengaluru Clinic")
    ensures IsAvailable(RaoGrid()[1], "Dr. Rao", "2024-06-01", "Bengaluru Clinic")
  {
    LexLeRefl("2024-06-01");
  }

  /** Dr. Rao's rows are in (date, start time) order and back to back. */
  lemma RaoRowsInOrder()
    ensures KeyLe(RaoGrid()[0], RaoGrid()[1]) && Contiguous(RaoGrid()[0], RaoGrid()[1])
  {
    assert "09:00"[..3] == "09:30"[..3];
    LexLeAt("09:00", "09:30", 3);
  }

  /** Booking the option of two such rows takes both. */
  lemma TwoRowsAreBookedTogether(a: Slot, b: Slot, doctor: string, startDate: string, location: string,
                                 duration: int, req: Request)
    requires duration != 30
    requires IsAvailable(a, doctor, startDate, location) && IsAvailable(b, doctor, startDate, location)
    requires Contiguous(a, b) && a.slotStart != b.slotStart && a.slotEnd != b.slotEnd
    requires req == OpeningRequest(req.patientId, doctor, location, duration,
                                   Opening(a.date, a.slotStart, b.slotEnd), req.notes)
    ensures Book([a, b], req) == Outcome(true, [Marked(a, req), Marked(b, req)])
  {
    var grid, o := [a, b], Opening(a.date, a.slotStart, b.slotEnd);
    assert Offered(grid, doctor, startDate, location, duration, o) by {
      assert a in grid && b in grid;
    }
    OfferedPairIsBooked(grid, doctor, startDate, location, duration, o, req);
    BookingOnlyMarksFreeRows(grid, req);
    assert Occupies(a, doctor, location, duration, o) && Occupies(b, doctor, location, duration, o);
    assert Book(grid, req).grid == [Marked(a, req), Marked(b, req)];
  }

  /** Booking that option for patient NP-123 takes both rows. */
  lemma RaoHourIsBooked()
    ensures Book(RaoGrid(), OpeningRequest("NP-123", "Dr. Rao", "Bengaluru Clinic", 60, RaoHour(), ""))
            == Outcome(true, [Marked(RaoGrid()[0], OpeningRequest("NP-123", "Dr. Rao", "Bengaluru Clinic", 60, RaoHour(), "")),
                              Marked(RaoGrid()[1], OpeningRequest("NP-123", "Dr. Rao", "Bengaluru Clinic", 60, RaoHour(), ""))])
  {
    var a, b := RaoGrid()[0], RaoGrid()[1];
    RaoRowsAreFree();
    RaoRowsInOrder();
    assert "09:00"[3] != "09:30"[3] && "09:30"[0] != "10:00"[0];
    TwoRowsAreBookedTogether(a, b, "Dr. Rao", "2024-06-01", "Bengaluru Clinic", 60,
                             OpeningRequest("NP-123", "Dr. Rao", "Bengaluru Clinic", 60, RaoHour(), ""));
  }
}
