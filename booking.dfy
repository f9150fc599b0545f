/** Booking (`book_slot`): mark the slot row, or for a new patient the two
    slot rows, of an appointment as taken in a copy of the grid, refusing
    without any change when a row is missing or already booked. */
module Booking {
  import opened Schedule

  /** The appointment type that selects the two-row path. */
  const NewPatient: string := "New Patient"

  /** The row selectors of `book_slot`: date, doctor and location, plus the
      start time, the end time, or both. */
  datatype Mask = Mask(date: string, doctor: string, location: string, start: Option<string>, end: Option<string>)

  predicate Selects(m: Mask, s: Slot)
  {
    && s.date == m.date && s.doctor == m.doctor && s.location == m.location
    && (m.start.Some? ==> s.slotStart == m.start.value)
    && (m.end.Some? ==> s.slotEnd == m.end.value)
  }

  /** `df.index[mask].tolist()[0]`, or None for an empty list. */
  function FirstSelected(grid: seq<Slot>, m: Mask): (r: Option<nat>)
    ensures r.Some? ==> r.value < |grid| && Selects(m, grid[r.value])
    ensures r.Some? ==> forall j :: 0 <= j < r.value ==> !Selects(m, grid[j])
    ensures r.None? <==> forall j :: 0 <= j < |grid| ==> !Selects(m, grid[j])
  {
    FirstIndex(grid, s => Selects(m, s))
  }

  /** The arguments of `book_slot` after the grid. */
  datatype Request = Request(
    patientId: string,
    doctor: string,
    location: string,
    date: string,
    start: string,
    end: string,
    appointmentType: string,
    notes: string)

  function StartMask(req: Request): Mask
  {
    Mask(req.date, req.doctor, req.location, Some(req.start), None)
  }

  function EndMask(req: Request): Mask
  {
    Mask(req.date, req.doctor, req.location, None, Some(req.end))
  }

  function SlotMask(req: Request): Mask
  {
    Mask(req.date, req.doctor, req.location, Some(req.start), Some(req.end))
  }

  /** A row taken by the request: the four occupancy fields are written,
      the slot itself (doctor, location, date, times) is kept. */
  function Marked(s: Slot, req: Request): Slot
  {
    s.(booked := "Yes", patientId := req.patientId, appointmentType := req.appointmentType, notes := req.notes)
  }

  /** The rows the request locates: the first row with the start time and the
      first row with the end time for a new patient, the first row with both
      otherwise; None when a lookup comes back empty. */
  function Targets(grid: seq<Slot>, req: Request): (r: Option<seq<nat>>)
    ensures r.Some? ==> forall t :: t in r.value ==> t < |grid|
  {
    if req.appointmentType == NewPatient then
      match FirstSelected(grid, StartMask(req))
      case None => None
      case Some(idx) =>
        match FirstSelected(grid, EndMask(req))
        case None => None
        case Some(idxB) => Some([idx, idxB])
    else
      match FirstSelected(grid, SlotMask(req))
      case None => None
      case Some(idx) => Some([idx])
  }

  /** What `book_slot` returns. */
  datatype Outcome = Outcome(ok: bool, grid: seq<Slot>)

  /** The outcome of `book_slot`: refused with the grid as it was when a row
      is missing or a located row says "Yes"; otherwise every located row is
      marked and every other row is kept. */
  function Book(grid: seq<Slot>, req: Request): Outcome
  {
    match Targets(grid, req)
    case None => Outcome(false, grid)
    case Some(ts) =>
      if AnyBooked(grid, ts) then Outcome(false, grid) else Outcome(true, MarkRows(grid, ts, req))
  }

  /** Some located row already says "Yes". */
  predicate AnyBooked(grid: seq<Slot>, ts: seq<nat>)
  {
    exists t :: t in ts && t < |grid| && grid[t].booked == "Yes"
  }

  /** The grid with the rows `ts` marked for the request. */
  function MarkRows(grid: seq<Slot>, ts: seq<nat>, req: Request): (r: seq<Slot>)
    ensures |r| == |grid|
    ensures forall i :: 0 <= i < |grid| ==> r[i] == if i in ts then Marked(grid[i], req) else grid[i]
  {
    seq(|grid|, i requires 0 <= i < |grid| => if i in ts then Marked(grid[i], req) else grid[i])
  }

  /** When both lookups find a row, the outcome depends only on those rows. */
  lemma BookLocated(grid: seq<Slot>, req: Request, ts: seq<nat>)
    requires Targets(grid, req) == Some(ts)
    ensures Book(grid, req) == if AnyBooked(grid, ts) then Outcome(false, grid) else Outcome(true, MarkRows(grid, ts, req))
  {
  }

  /** The new-patient path of `book_slot` (app.py:69-96) on the copy `df`:
      locate both rows, check both, then mark both. */
  method BookTwoRows(df: array<Slot>, req: Request) returns (ok: bool)
    requires req.appointmentType == NewPatient
    modifies df
    ensures Outcome(ok, df[..]) == Book(old(df[..]), req)
  {
    ghost var grid := df[..];
    var idxs := FirstSelected(df[..], StartMask(req));
    if idxs.None? {
      return false;
    }
    var idx := idxs.value;
    var idxsB := FirstSelected(df[..], EndMask(req));
    if idxsB.None? {
      return false;
    }
    var idxB := idxsB.value;
    var pair := [idx, idxB];
    BookLocated(grid, req, pair);

    var taken := AnyRowBooked(df, pair);
    if taken {
      return false;
    }
    MarkInPlace(df, pair, req);
    return true;
  }

  /** The check loop of app.py:87-89: does any located row say "Yes"? */
  method AnyRowBooked(df: array<Slot>, pair: seq<nat>) returns (taken: bool)
    requires forall j :: 0 <= j < |pair| ==> pair[j] < df.Length
    ensures taken == AnyBooked(df[..], pair)
  {
    var k := 0;
    while k < |pair|
      invariant 0 <= k <= |pair|
      invariant forall j :: 0 <= j < k ==> df[pair[j]].booked != "Yes"
    {
      if df[pair[k]].booked == "Yes" {
        assert pair[k] in pair;
        return true;
      }
      k := k + 1;
    }
    return false;
  }

  /** The marking loop of app.py:91-95. */
  method MarkInPlace(df: array<Slot>, pair: seq<nat>, req: Request)
    requires forall t :: t in pair ==> t < df.Length
    modifies df
    ensures df[..] == MarkRows(old(df[..]), pair, req)
  {
    ghost var grid := df[..];
    var k := 0;
    while k < |pair|
      invariant 0 <= k <= |pair|
      invariant forall i :: 0 <= i < df.Length ==>
                  df[i] == if i in pair[..k] then Marked(grid[i], req) else grid[i]
    {
      var i := pair[k];
      assert i in pair;
      var row := df[i];
      row := row.(booked := "Yes");
      row := row.(patientId := req.patientId);
      row := row.(appointmentType := req.appointmentType);
      row := row.(notes := req.notes);
      df[i] := row;
      assert pair[..k + 1] == pair[..k] + [i];
      k := k + 1;
    }
    assert pair[..|pair|] == pair;
  }

  /** The returning-patient path of `book_slot` (app.py:97-110) on the copy
      `df`: locate the row, check it, mark it. */
  method BookOneRow(df: array<Slot>, req: Request) returns (ok: bool)
    requires req.appointmentType != NewPatient
    modifies df
    ensures Outcome(ok, df[..]) == Book(old(df[..]), req)
  {
    ghost var grid := df[..];
    var idxs := FirstSelected(df[..], SlotMask(req));
    if idxs.None? {
      return false;
    }
    var idx := idxs.value;
    assert Targets(grid, req) == Some([idx]);
    if df[idx].booked == "Yes" {
      assert AnyBooked(grid, [idx]);
      return false;
    }
    var row := df[idx];
    row := row.(booked := "Yes");
    row := row.(patientId := req.patientId);
    row := row.(appointmentType := req.appointmentType);
    row := row.(notes := req.notes);
    df[idx] := row;
    assert df[..] == MarkRows(grid, [idx], req);
    return true;
  }

  /** `book_slot(schedule, patient_id, doctor, location, date_str, start, end,
      appt_type, notes)`: works on a copy, so the caller's grid is untouched. */
  method BookSlot(schedule: seq<Slot>, patientId: string, doctor: string, location: string, dateStr: string,
                  start: string, end: string, apptType: string, notes: string)
    returns (ok: bool, grid: seq<Slot>)
    ensures Outcome(ok, grid)
            == Book(schedule, Request(patientId, doctor, location, dateStr, start, end, apptType, notes))
  {
    var req := Request(patientId, doctor, location, dateStr, start, end, apptType, notes);
    var df := new Slot[|schedule|](i requires 0 <= i < |schedule| => schedule[i]);
    assert df[..] == schedule;
    if apptType == NewPatient {
      ok := BookTwoRows(df, req);
    } else {
      ok := BookOneRow(df, req);
    }
    grid := df[..];
  }

  // ---------------------------------------------------------------------
  // What booking promises
  // ---------------------------------------------------------------------

  /** The returning-patient path books the first row with the requested
      date, doctor, location, start and end, unless there is none or it
      already says "Yes"; then nothing changes. */
  lemma ReturningPatientBooking(grid: seq<Slot>, req: Request)
    requires req.appointmentType != NewPatient
    ensures var m := FirstSelected(grid, SlotMask(req));
            Book(grid, req).ok <==> m.Some? && grid[m.value].booked != "Yes"
    ensures var m := FirstSelected(grid, SlotMask(req));
            Book(grid, req).ok ==> Book(grid, req).grid == grid[m.value := Marked(grid[m.value], req)]
    ensures !Book(grid, req).ok ==> Book(grid, req).grid == grid
  {
    var m := FirstSelected(grid, SlotMask(req));
    if m.Some? {
      var ts := [m.value];
      BookLocated(grid, req, ts);
      if !AnyBooked(grid, ts) {
        assert MarkRows(grid, ts, req) == grid[m.value := Marked(grid[m.value], req)];
      }
    }
  }

  /** The new-patient path locates, independently, the first row starting at
      the requested start and the first row ending at the requested end. It
      books both, or, when either is missing or already says "Yes", neither:
      the grid is then unchanged. When the two lookups land on the same row,
      that one row is booked. */
  lemma NewPatientBooking(grid: seq<Slot>, req: Request)
    requires req.appointmentType == NewPatient
    ensures var a, b := FirstSelected(grid, StartMask(req)), FirstSelected(grid, EndMask(req));
            Book(grid, req).ok <==>
              a.Some? && b.Some? && grid[a.value].booked != "Yes" && grid[b.value].booked != "Yes"
    ensures var a, b := FirstSelected(grid, StartMask(req)), FirstSelected(grid, EndMask(req));
            Book(grid, req).ok ==>
              Book(grid, req).grid
              == grid[a.value := Marked(grid[a.value], req)][b.value := Marked(grid[b.value], req)]
    ensures !Book(grid, req).ok ==> Book(grid, req).grid == grid
  {
    var a, b := FirstSelected(grid, StartMask(req)), FirstSelected(grid, EndMask(req));
    if a.Some? && b.Some? {
      var ts := [a.value, b.value];
      BookLocated(grid, req, ts);
      PairBooked(grid, a.value, b.value);
      MarkPair(grid, a.value, b.value, req);
    }
  }

  /** Two located rows: one of them says "Yes" exactly when one does. */
  lemma PairBooked(grid: seq<Slot>, a: nat, b: nat)
    requires a < |grid| && b < |grid|
    ensures AnyBooked(grid, [a, b]) <==> grid[a].booked == "Yes" || grid[b].booked == "Yes"
  {
    if grid[a].booked == "Yes" {
      assert a in [a, b];
    } else if grid[b].booked == "Yes" {
      assert b in [a, b];
    }
  }

  /** Marking two located rows is updating each of them in turn; when the
      two coincide, that one row is marked. */
  lemma MarkPair(grid: seq<Slot>, a: nat, b: nat, req: Request)
    requires a < |grid| && b < |grid|
    ensures MarkRows(grid, [a, b], req) == grid[a := Marked(grid[a], req)][b := Marked(grid[b], req)]
  {
    var r := grid[a := Marked(grid[a], req)][b := Marked(grid[b], req)];
    forall i | 0 <= i < |grid|
      ensures MarkRows(grid, [a, b], req)[i] == r[i]
    {
    }
  }

  /** Booking never creates or deletes a row, never touches a row that
      already says "Yes", and changes a row only by marking it for the
      request; so no path sets `booked` back to "No". */
  lemma BookingOnlyMarksFreeRows(grid: seq<Slot>, req: Request)
    ensures |Book(grid, req).grid| == |grid|
    ensures forall i :: 0 <= i < |grid| && grid[i].booked == "Yes" ==> Book(grid, req).grid[i] == grid[i]
    ensures forall i :: 0 <= i < |grid| ==>
              Book(grid, req).grid[i] == grid[i]
              || (Book(grid, req).ok && grid[i].booked != "Yes" && Book(grid, req).grid[i] == Marked(grid[i], req))
  {
    match Targets(grid, req)
    case None =>
    case Some(ts) =>
      if !AnyBooked(grid, ts) {
        forall i | 0 <= i < |grid| && grid[i].booked == "Yes"
          ensures i !in ts
        {
        }
      }
  }

  /** A successful booking leaves every row's slot (doctor, location, date,
      start, end) as it was, and every row it changed now says "Yes". */
  lemma BookingKeepsSlots(grid: seq<Slot>, req: Request)
    ensures forall i :: 0 <= i < |grid| ==>
              var r := Book(grid, req).grid[i];
              r.doctor == grid[i].doctor && r.location == grid[i].location && r.date == grid[i].date
              && r.slotStart == grid[i].slotStart && r.slotEnd == grid[i].slotEnd
              && (r != grid[i] ==> r.booked == "Yes")
  {
    BookingOnlyMarksFreeRows(grid, req);
  }
}
