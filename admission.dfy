/** The admission form: its defaults, the Reserved-needs-a-room check, and the
    normalised record a successful submit inserts. */
module Admission {
  import opened Wrappers
  import opened JsValues
  import opened Db

  /** The text inputs (and the seat type select) that reach the stored record. */
  datatype AdmissionForm = AdmissionForm(
    name: string, mobile: string, roomId: string, seatType: SeatType, seatNo: string,
    startTime: string, endTime: string)

  /** The form as the page opens it. */
  const InitialForm := AdmissionForm("", "", "", Reserved, "", "08:00", "14:00")

  /** The record a submit inserts, or `None` when a Reserved admission has no room. */
  function Admit(f: AdmissionForm, now: int): (r: Option<Student>)
    ensures r.None? <==> f.seatType == Reserved && f.roomId == ""
    ensures r.Some? ==> var s := r.value;
            && s.status == "Active" && s.admissionDate == now
            && s.name == f.name && s.mobile == f.mobile && s.seatType == f.seatType
            && s.startTime == f.startTime && s.endTime == f.endTime
            && s.roomId == (if f.roomId == "" then None else ParseInt(f.roomId))
            && (s.seatNo.Some? ==> f.seatType == Reserved && f.seatNo != "")
            && (f.seatType == Reserved && f.seatNo != "" ==> s.seatNo == ParseInt(f.seatNo))
  {
    if f.seatType == Reserved && f.roomId == "" then None
    else
      var seat := if f.seatType == Reserved && f.seatNo != "" then ParseInt(f.seatNo) else None;
      Some(Student(0, f.name, f.mobile, "Active", f.seatType, IntOrNull(Text(f.roomId)), seat,
                   "", f.startTime, f.endTime, now))
  }

  /** The defaults are Reserved, 08:00 to 14:00, with no room, so submitting the form
      untouched is refused. */
  lemma InitialFormRejected(now: int)
    ensures InitialForm.seatType == Reserved && InitialForm.startTime == "08:00" && InitialForm.endTime == "14:00"
    ensures Admit(InitialForm, now).None?
  {
  }

  /** A General admission never stores a seat; one with a room typed as a decimal number
      stores that room. */
  lemma GeneralAdmission(f: AdmissionForm, now: int, room: int)
    requires f.seatType == General
    ensures Admit(f, now).Some? && Admit(f, now).value.seatNo.None?
    ensures f.roomId == ShowInt(room) ==> Admit(f, now).value.roomId == Some(room)
  {
    ParseIntRoundTrip(room);
  }

  /** `handleSubmit`: refuse, or add exactly one student under a new key. */
  method HandleSubmit(db: Library, f: AdmissionForm, now: int) returns (added: bool)
    requires db.Valid()
    modifies db`students, db`nextStudentId
    ensures db.Valid()
    ensures added <==> Admit(f, now).Some?
    ensures !added ==> db.students == old(db.students) && db.nextStudentId == old(db.nextStudentId)
    ensures added ==> db.students == old(db.students) + [Admit(f, now).value.(id := old(db.nextStudentId))]
                      && db.nextStudentId == old(db.nextStudentId) + 1
  {
    var r := Admit(f, now);
    if r.None? {
      return false;
    }
    var _ := db.AddStudent(r.value);
    return true;
  }
}
