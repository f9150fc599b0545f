/** Patient classification (`classify_patient`, `required_duration`): look a
    patient up in the roster by full name and date of birth, and derive the
    appointment length from the result. */
module Classifier {
  import opened Schedule
  import opened Text

  /** What `classify_patient` returns: the returning flag and the matched
      roster row, or `(False, None)`. */
  datatype Classification = Classification(isReturning: bool, record: Option<Patient>)

  /** The roster side of the name comparison:
      `first_name.lower() + " " + last_name.lower()`. */
  function RosterName(p: Patient): string
  {
    Lower(p.firstName) + " " + Lower(p.lastName)
  }

  /** The lookup key typed by the user: `name.strip().lower()`. */
  function Normalized(name: string): string
  {
    Lower(Strip(name))
  }

  /** A roster row matches a normalised name and an ISO date of birth. */
  predicate IsMatch(p: Patient, full: string, dob: string)
  {
    p.dob == dob && RosterName(p) == full
  }

  /** Row `i` is the first roster row matching `full` and `dob`. */
  predicate IsFirstMatch(roster: seq<Patient>, i: int, full: string, dob: string)
  {
    0 <= i < |roster| && IsMatch(roster[i], full, dob)
    && forall j :: 0 <= j < i ==> !IsMatch(roster[j], full, dob)
  }

  /** `classify_patient(patients, name, dob)`, with `dob` already in
      `YYYY-MM-DD` form. */
  function ClassifyPatient(roster: seq<Patient>, name: string, dob: string): (r: Classification)
    ensures r.record.None? <==> forall i :: 0 <= i < |roster| ==> !IsMatch(roster[i], Normalized(name), dob)
    ensures r.record.None? ==> !r.isReturning
    ensures r.record.Some? ==>
              exists i :: IsFirstMatch(roster, i, Normalized(name), dob) && r.record.value == roster[i]
    ensures r.record.Some? ==> r.isReturning == (r.record.value.returningPatient == "Yes")
  {
    var full := Normalized(name);
    match FirstIndex(roster, p => IsMatch(p, full, dob))
    case None => Classification(false, None)
    case Some(i) => Classification(roster[i].returningPatient == "Yes", Some(roster[i]))
  }

  /** `required_duration(is_returning)`, in minutes. */
  function RequiredDuration(isReturning: bool): (minutes: nat)
    ensures minutes == 30 <==> isReturning
    ensures minutes == 60 <==> !isReturning
  {
    if isReturning then 30 else 60
  }

  /** A patient gets 30 minutes exactly when the first roster row matching
      the name and date of birth is flagged as returning; everyone else,
      including a patient with no roster row, gets 60. */
  lemma DurationOfPatient(roster: seq<Patient>, name: string, dob: string)
    ensures RequiredDuration(ClassifyPatient(roster, name, dob).isReturning) == 30
            <==> exists i :: IsFirstMatch(roster, i, Normalized(name), dob)
                             && roster[i].returningPatient == "Yes"
    ensures RequiredDuration(ClassifyPatient(roster, name, dob).isReturning) == 60
            <==> !exists i :: IsFirstMatch(roster, i, Normalized(name), dob)
                              && roster[i].returningPatient == "Yes"
  {
    var r := ClassifyPatient(roster, name, dob);
    var full := Normalized(name);
    forall i, k | IsFirstMatch(roster, i, full, dob) && IsFirstMatch(roster, k, full, dob)
      ensures i == k
    {
    }
  }

  /** Typing a roster row's own first and last name and date of birth finds
      a row; when no earlier row has the same name and date of birth, it finds
      that very row and reports its returning flag. A name with white space
      at either end is not found, because only the typed side is stripped. */
  lemma {:induction false} RosterEntryIsFound(roster: seq<Patient>, i: nat)
    requires i < |roster|
    requires roster[i].firstName != [] && !IsSpace(roster[i].firstName[0])
    requires roster[i].lastName != [] && !IsSpace(roster[i].lastName[|roster[i].lastName| - 1])
    ensures var p := roster[i];
            var r := ClassifyPatient(roster, p.firstName + " " + p.lastName, p.dob);
            && r.record.Some?
            && ((forall j :: 0 <= j < i ==> !IsMatch(roster[j], RosterName(p), p.dob)) ==>
                  r.record == Some(p) && r.isReturning == (p.returningPatient == "Yes"))
  {
    var p := roster[i];
    var typed := p.firstName + " " + p.lastName;
    StripFixed(typed);
    LowerConcat(p.firstName, " ");
    LowerConcat(p.firstName + " ", p.lastName);
    assert Lower(" ") == " ";
    assert Normalized(typed) == RosterName(p);
    assert IsMatch(roster[i], Normalized(typed), p.dob);
  }

  /** The roster of the worked example: Jane Doe, born 1990-01-01, returning. */
  lemma JaneDoeIsReturning()
    ensures var jane := Patient("P001", "Jane", "Doe", "1990-01-01", "Yes", "jane@example.com",
                                "555-0100", "Acme", "M1", "G1");
            var r := ClassifyPatient([jane], "Jane Doe", "1990-01-01");
            r == Classification(true, Some(jane)) && RequiredDuration(r.isReturning) == 30
  {
    var jane := Patient("P001", "Jane", "Doe", "1990-01-01", "Yes", "jane@example.com",
                        "555-0100", "Acme", "M1", "G1");
    assert "Jane" + " " + "Doe" == "Jane Doe";
    RosterEntryIsFound([jane], 0);
  }
}
