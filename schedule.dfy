/** The data the scheduling engine works on: the patient roster and the grid
    of 30-minute doctor slots. Every cell of both tables is a string, as the
    spreadsheet and the CSV file hold them. */
module Schedule {

  datatype Option<T> = None | Some(value: T)

  /** One roster row (patients.csv). */
  datatype Patient = Patient(
    patientId: string,
    firstName: string,
    lastName: string,
    dob: string,               // "YYYY-MM-DD"
    returningPatient: string,  // "Yes" or "No"
    email: string,
    phone: string,
    insuranceCarrier: string,
    memberId: string,
    groupNumber: string)

  /** One row of the schedule grid: a 30-minute slot of one doctor at one
      location on one date. */
  datatype Slot = Slot(
    doctor: string,
    location: string,
    date: string,              // "YYYY-MM-DD"
    slotStart: string,         // "HH:MM"
    slotEnd: string,           // "HH:MM"
    booked: string,            // "Yes" or "No"
    patientId: string,
    appointmentType: string,
    notes: string)

  /** One booking option offered to the user: (date, start, end). */
  datatype Opening = Opening(date: string, start: string, end: string)

  /** Index of the first element of `s` that satisfies `p` (pandas'
      `df.index[mask].tolist()[0]`, or `candidates.iloc[0]`). */
  function FirstIndex<T>(s: seq<T>, p: T -> bool): (r: Option<nat>)
    ensures r.Some? ==> r.value < |s| && p(s[r.value])
    ensures r.Some? ==> forall j :: 0 <= j < r.value ==> !p(s[j])
    ensures r.None? <==> forall j :: 0 <= j < |s| ==> !p(s[j])
  {
    if s == [] then None
    else if p(s[0]) then Some(0)
    else match FirstIndex(s[1..], p)
      case None => None
      case Some(i) => Some(i + 1)
  }
}
