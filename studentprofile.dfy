/** The student profile page: editing and saving a record, the confirmed cascade
    delete, recording a fee payment, and the room label. */
module StudentProfile {
  import opened Wrappers
  import opened JsValues
  import opened Db
  import Seqs
  import Students
  import Keys

  /** The edit form: the record as edited, with the room and seat inputs as the form
      holds them (the stored number until the field is typed into, then its text). */
  datatype ProfileForm = ProfileForm(edited: Student, roomId: FieldValue, seatNo: FieldValue)

  function NumberField(o: Option<int>): (v: FieldValue)
    ensures ParseField(v) == o
  {
    match o
    case Some(n) => Number(n)
    case None => Null
  }

  /** `startEditing`: the form starts as a copy of the record. */
  function StartEditing(s: Student): (f: ProfileForm)
    ensures f.edited == s
    ensures ParseField(f.roomId) == s.roomId && ParseField(f.seatNo) == s.seatNo
  {
    ProfileForm(s, NumberField(s.roomId), NumberField(s.seatNo))
  }

  /** The record `handleSave` writes: every edited field, with room and seat parsed as
      integers, or null when the input is empty (or 0). */
  function Saved(f: ProfileForm): (s: Student)
    ensures s.roomId == IntOrNull(f.roomId) && s.seatNo == IntOrNull(f.seatNo)
    ensures s == f.edited.(roomId := s.roomId, seatNo := s.seatNo)
  {
    f.edited.(roomId := IntOrNull(f.roomId), seatNo := IntOrNull(f.seatNo))
  }

  /** Saving without editing gives the record back, unless its room or seat is 0,
      which the truthiness test turns into null. */
  lemma SaveUnedited(s: Student)
    ensures s.roomId != Some(0) && s.seatNo != Some(0) ==> Saved(StartEditing(s)) == s
    ensures s.roomId == Some(0) ==> Saved(StartEditing(s)).roomId == None
    ensures s.seatNo == Some(0) ==> Saved(StartEditing(s)).seatNo == None
  {
  }

  /** A room or seat typed as a decimal number is stored as that number; a cleared
      input is stored as null. */
  lemma SaveParsesTypedNumbers(f: ProfileForm, room: int, seat: int)
    ensures f.roomId == Text(ShowInt(room)) ==> Saved(f).roomId == Some(room)
    ensures f.seatNo == Text(ShowInt(seat)) ==> Saved(f).seatNo == Some(seat)
    ensures f.roomId == Text("") ==> Saved(f).roomId == None
    ensures f.seatNo == Text("") ==> Saved(f).seatNo == None
  {
    ParseIntRoundTrip(room);
    ParseIntRoundTrip(seat);
  }

  /** `handleSave`: `students.update(studentId, ...)`. */
  method HandleSave(db: Library, studentId: int, f: ProfileForm)
    requires db.Valid()
    modifies db`students
    ensures db.Valid()
    ensures db.students == Keys.Replace(old(db.students), StudentKey, Saved(f).(id := studentId))
  {
    db.UpdateStudent(Saved(f).(id := studentId));
  }

  /** `handleDelete`: on confirmation remove the student, then their finance and
      attendance records; declined, nothing changes. */
  method HandleDelete(db: Library, studentId: int, confirmed: bool)
    requires db.Valid()
    modifies db`students, db`finance, db`attendance
    ensures db.Valid()
    ensures !confirmed ==> db.students == old(db.students) && db.finance == old(db.finance)
                           && db.attendance == old(db.attendance)
    ensures confirmed ==>
            && db.students == Seqs.Filter(old(db.students), (s: Student) => s.id != studentId)
            && db.finance == Seqs.Filter(old(db.finance), (t: Txn) => t.studentId != Some(studentId))
            && db.attendance == Seqs.Filter(old(db.attendance), (l: Log) => l.studentId != studentId)
    ensures confirmed ==>
            && (forall s :: s in db.students <==> s in old(db.students) && s.id != studentId)
            && (forall t :: t in db.finance <==> t in old(db.finance) && t.studentId != Some(studentId))
            && (forall l :: l in db.attendance <==> l in old(db.attendance) && l.studentId != studentId)
  {
    if confirmed {
      db.DeleteStudent(studentId);
      db.DeleteTxnsOf(studentId);
      db.DeleteLogsOf(studentId);
    }
  }

  /** The finance record a fee payment adds. */
  function FeeTxn(s: Student, studentId: int, amount: string, now: int): (t: Txn)
    ensures t.txnType == Income && t.category == "Fee" && t.studentId == Some(studentId)
    ensures t.amount == amount && t.date == now && t.description == "Fee: " + s.name
  {
    Txn(0, Income, "Fee", amount, now, Some(studentId), "Fee: " + s.name)
  }

  /** `handlePayFee`: the prompt's answer, `None` when cancelled. A non-empty answer adds
      exactly one Income record for the student, after which the fee is not due. */
  method HandlePayFee(db: Library, s: Student, studentId: int, answer: Option<string>, now: int)
    requires db.Valid()
    modifies db`finance, db`nextTxnId
    ensures db.Valid()
    ensures answer.None? || answer.value == "" ==> db.finance == old(db.finance) && db.nextTxnId == old(db.nextTxnId)
    ensures answer.Some? && answer.value != "" ==>
            && db.finance == old(db.finance) + [FeeTxn(s, studentId, answer.value, now).(id := old(db.nextTxnId))]
            && db.nextTxnId == old(db.nextTxnId) + 1
            && Students.CheckFeeStatus(Some(db.finance), studentId, now) == Students.Ok
  {
    if answer.Some? && answer.value != "" {
      var t := FeeTxn(s, studentId, answer.value, now);
      var _ := db.AddTxn(t);
      Students.FreshPaymentIsOk(old(db.finance), t.(id := old(db.nextTxnId)), studentId, now);
    }
  }

  /** `currentRoomName`: the room's name, or 'Unknown Room'. */
  function CurrentRoomName(rooms: Option<seq<Room>>, s: Student): (r: string)
    ensures rooms.None? || s.roomId.None? || (forall i :: 0 <= i < |rooms.value| ==> rooms.value[i].id != s.roomId.value)
            ==> r == "Unknown Room"
    ensures rooms.Some? && s.roomId.Some? && Keys.Find(rooms.value, RoomKey, s.roomId.value).Some?
            && Keys.Find(rooms.value, RoomKey, s.roomId.value).value.name != ""
            ==> r == Keys.Find(rooms.value, RoomKey, s.roomId.value).value.name
    ensures rooms.Some? && s.roomId.Some? && Keys.Find(rooms.value, RoomKey, s.roomId.value).Some?
            && Keys.Find(rooms.value, RoomKey, s.roomId.value).value.name == ""
            ==> r == "Unknown Room"
  {
    RoomNameOr(rooms, s.roomId, "Unknown Room")
  }
}
