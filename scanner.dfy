/** The attendance scanner: a scanned id toggles that student In or Out, a General
    student going In is given the lowest free seat (their preferred room first, then
    every room in stored order), a General student going Out releases the seat, and one
    attendance record is appended. */
module Scanner {
  import opened Wrappers
  import opened JsValues
  import opened Db
  import Occupancy
  import Seqs
  import Keys

  function Flip(p: Presence): (r: Presence)
    ensures r != p
  {
    if p == In then Out else In
  }

  /** `parseInt(studentId)` then `students.get(id)`; an unparsable id finds nobody. */
  function LookUp(students: seq<Student>, scanned: FieldValue): (r: Option<Student>)
    ensures r.Some? ==> r.value in students && Some(r.value.id) == ParseField(scanned)
    ensures r.None? <==> ParseField(scanned).None?
                         || forall i :: 0 <= i < |students| ==> students[i].id != ParseField(scanned).value
  {
    match ParseField(scanned)
    case None => None
    case Some(id) => Keys.Find(students, StudentKey, id)
  }

  /** `lastLog?.status || 'Out'`, where the last record is the one with the highest key
      among all of the student's records, whatever their day. */
  function CurrentStatus(att: seq<Log>, sid: int): (r: Presence)
    ensures (forall i :: 0 <= i < |att| ==> att[i].studentId != sid) ==> r == Out
  {
    match Occupancy.LatestStatus(att, sid)
    case None => Out
    case Some(p) => p
  }

  function NewStatus(att: seq<Log>, sid: int): (r: Presence)
    ensures (forall i :: 0 <= i < |att| ==> att[i].studentId != sid) ==> r == In
  {
    Flip(CurrentStatus(att, sid))
  }

  /** The new status is the opposite of the status on the student's record with the
      highest key. */
  lemma NewStatusFromHighestKey(att: seq<Log>, sid: int, l: Log)
    requires Keys.Increasing(att, LogKey)
    requires l in att && l.studentId == sid
    requires forall x :: x in att && x.studentId == sid ==> x.id <= l.id
    ensures NewStatus(att, sid) == Flip(l.status)
  {
    var p := Occupancy.OfStudent(sid);
    var j :| 0 <= j < |att| && att[j] == l;
    assert p(att[j]);
    var k := Seqs.LastIndex(att, p);
    assert j <= k;
    assert att[k] in att;
    assert j == k;
  }

  /** The record appended by a toggle: `inTime` is set exactly for an In record and
      `outTime` exactly for an Out one. */
  function ToggleLog(sid: int, status: Presence, now: int): (r: Log)
    ensures r.studentId == sid && r.status == status && r.date == now
    ensures r.inTime.Some? <==> status == In
    ensures r.outTime.Some? <==> status == Out
  {
    Log(0, sid, now, status,
        if status == In then Some(now) else None,
        if status == Out then Some(now) else None)
  }

  /** Appending a student's toggle record sets exactly that student's status to the
      record's status. */
  lemma AppendSetsStatus(att: seq<Log>, l: Log, sid: int)
    ensures CurrentStatus(att + [l], sid) == if l.studentId == sid then l.status else CurrentStatus(att, sid)
  {
    Seqs.LastWhereSnoc(att, l, Occupancy.OfStudent(sid));
  }

  /** Two toggles in a row bring the student back to the status they started from,
      with two more records, and leave every other student's status alone. */
  lemma {:induction false} TwoTogglesRestore(att: seq<Log>, sid: int, other: int, t1: int, t2: int, k1: int, k2: int)
    requires other != sid
    ensures var att1 := att + [ToggleLog(sid, NewStatus(att, sid), t1).(id := k1)];
            var att2 := att1 + [ToggleLog(sid, NewStatus(att1, sid), t2).(id := k2)];
            && |att2| == |att| + 2
            && CurrentStatus(att1, sid) == NewStatus(att, sid)
            && CurrentStatus(att2, sid) == CurrentStatus(att, sid)
            && CurrentStatus(att2, other) == CurrentStatus(att, other)
  {
    var l1 := ToggleLog(sid, NewStatus(att, sid), t1).(id := k1);
    var att1 := att + [l1];
    var l2 := ToggleLog(sid, NewStatus(att1, sid), t2).(id := k2);
    AppendSetsStatus(att, l1, sid);
    AppendSetsStatus(att1, l2, sid);
    AppendSetsStatus(att, l1, other);
    AppendSetsStatus(att1, l2, other);
  }

  /** The lower bound the allocator gives the date index: `setHours` returns a number,
      not a date. */
  function AllocatorBound(now: int, tz: int): IdbKey
  {
    NumberKey(LocalMidnight(now, tz))
  }

  /** The bound the status maps of the pages use: a date at local midnight. */
  function IntendedBound(now: int, tz: int): IdbKey
  {
    DateKey(LocalMidnight(now, tz))
  }

  /** The window as the allocator writes it: every date key lies above every number key,
      so the window holds every record. */
  function TodaysLogsAsWritten(att: seq<Log>, now: int, tz: int): (r: seq<Log>)
    ensures DateOrdered(r)
    ensures forall l :: l in r <==> l in att
  {
    LogsAbove(att, AllocatorBound(now, tz))
  }

  /** A student who went In yesterday and never scanned Out is inside by the window as
      written, and is not by the intended one. */
  lemma YesterdayCountsAsInside()
    ensures var now := 2 * MsPerDay + 1000;
            var att := [Log(1, 7, MsPerDay + 1000, In, Some(MsPerDay + 1000), None)];
            && 7 in Occupancy.InsideIds(TodaysLogsAsWritten(att, now, 0))
            && 7 !in Occupancy.InsideIds(Occupancy.TodaysLogs(att, now, 0))
  {
    var now := 2 * MsPerDay + 1000;
    var l := Log(1, 7, MsPerDay + 1000, In, Some(MsPerDay + 1000), None);
    var att := [l];
    var all := TodaysLogsAsWritten(att, now, 0);
    assert LocalMidnight(now, 0) == 2 * MsPerDay;
    assert l in all;
    assert forall x :: x in all ==> x == l;
    assert |all| == 1 && all[0] == l;
    assert Occupancy.LastLogOf(all, 7) == Some(l) by {
      Seqs.LastWhereSnoc([], l, Occupancy.OfStudent(7));
      assert [] + [l] == all;
    }
    var today := Occupancy.TodaysLogs(att, now, 0);
    assert today == [];
  }

  /** `currentlyInsideIds`: the students whose last record in the window above `bound`
      is In, plus the scanning student. */
  function InsideIdsNow(att: seq<Log>, bound: IdbKey, id: int): (r: set<int>)
    ensures id in r
    ensures forall sid :: sid in r <==> sid == id || Occupancy.LatestStatus(LogsAbove(att, bound), sid) == Some(In)
  {
    Occupancy.InsideIds(LogsAbove(att, bound)) + {id}
  }

  /** A time before every record's date. */
  function BeforeAll(att: seq<Log>): (m: int)
    ensures forall l :: l in att ==> m < l.date
  {
    if att == [] then 0
    else
      var rest := BeforeAll(att[1..]);
      assert forall l :: l in att ==> l == att[0] || l in att[1..];
      if att[0].date - 1 < rest then att[0].date - 1 else rest
  }

  /** As written, the allocator counts as inside (besides the scanning student) exactly the
      students whose latest record ever, by date and key, is an In record, however old. */
  lemma InsideAsWrittenIffLatestEverIn(att: seq<Log>, now: int, tz: int, id: int, sid: int)
    requires Keys.Increasing(att, LogKey) && sid != id
    ensures sid in InsideIdsNow(att, AllocatorBound(now, tz), id) <==>
            exists l :: Occupancy.IsLatestSince(att, BeforeAll(att), l) && l.studentId == sid && l.status == In
  {
    var m := BeforeAll(att);
    var pn := (l: Log) => KeyLess(AllocatorBound(now, tz), DateKey(l.date));
    var pd := (l: Log) => KeyLess(DateKey(m), DateKey(l.date));
    assert forall i :: 0 <= i < |att| ==> pn(att[i]);
    assert forall i :: 0 <= i < |att| ==> att[i] in att && pd(att[i]);
    Seqs.FilterAll(att, pn);
    Seqs.FilterAll(att, pd);
    assert LogsAbove(att, AllocatorBound(now, tz)) == LogsAbove(att, DateKey(m));
    Occupancy.InsideIffLatestIn(att, m, sid);
  }

  /** With the intended bound, the scanning student aside, inside means the latest record
      since local midnight is an In record. */
  lemma InsideIntendedIffLatestTodayIn(att: seq<Log>, now: int, tz: int, id: int, sid: int)
    requires Keys.Increasing(att, LogKey) && sid != id
    ensures sid in InsideIdsNow(att, IntendedBound(now, tz), id) <==>
            exists l :: Occupancy.IsLatestSince(att, LocalMidnight(now, tz), l) && l.studentId == sid && l.status == In
  {
    Occupancy.InsideIffLatestIn(att, LocalMidnight(now, tz), sid);
  }

  /** `students.where('id').anyOf(ids).toArray()`. */
  function StudentsWithIds(students: seq<Student>, ids: set<int>): (r: seq<Student>)
    ensures forall s :: s in r <==> s in students && s.id in ids
  {
    Seqs.Filter(students, (s: Student) => s.id in ids)
  }

  /** `s` is an inside student other than `id` who holds seat `k` of room `roomId`. */
  predicate Holds(s: Student, id: int, roomId: int, k: int)
  {
    s.roomId == Some(roomId) && TruthyNum(s.seatNo) && s.id != id && s.seatNo == Some(k)
  }

  /** `takenSeats`: the seats of the room held by other inside students (only
      `includes` is asked of the list, so it is kept as a set). */
  function TakenSeats(inside: seq<Student>, id: int, roomId: int): (r: set<int>)
    ensures forall k :: k in r <==> exists s :: s in inside && Holds(s, id, roomId, k)
  {
    var r := set s | s in inside && s.roomId == Some(roomId) && TruthyNum(s.seatNo) && s.id != id :: s.seatNo.value;
    assert forall k, s :: s in inside && Holds(s, id, roomId, k) ==> k in r;
    r
  }

  /** The lowest seat in `i..cap` that is not taken. */
  function FirstFreeFrom(i: int, cap: int, taken: set<int>): (r: Option<int>)
    decreases cap - i
    ensures r.Some? ==> i <= r.value <= cap && r.value !in taken
    ensures r.Some? ==> forall k :: i <= k < r.value ==> k in taken
    ensures r.None? <==> forall k :: i <= k <= cap ==> k in taken
  {
    if i > cap then None
    else if i !in taken then Some(i)
    else FirstFreeFrom(i + 1, cap, taken)
  }

  /** What `findFreeSeat(roomId)` returns: nothing for a missing room, otherwise the
      lowest seat of `1..capacity` that no other inside student of the room holds. */
  function FreeSeatIn(rooms: seq<Room>, inside: seq<Student>, id: int, roomId: int): (r: Option<int>)
    ensures Keys.Find(rooms, RoomKey, roomId).None? ==> r.None?
    ensures r.Some? ==> var room := Keys.Find(rooms, RoomKey, roomId).value;
                        && 1 <= r.value <= room.capacity
                        && r.value !in TakenSeats(inside, id, roomId)
                        && forall k :: 1 <= k < r.value ==> k in TakenSeats(inside, id, roomId)
    ensures Keys.Find(rooms, RoomKey, roomId).Some? ==>
            (r.None? <==> forall k :: 1 <= k <= Keys.Find(rooms, RoomKey, roomId).value.capacity ==>
                                 k in TakenSeats(inside, id, roomId))
    ensures r.Some? ==> forall s :: s in inside && s.id != id && s.roomId == Some(roomId) ==> s.seatNo != Some(r.value)
  {
    match Keys.Find(rooms, RoomKey, roomId)
    case None => None
    case Some(room) => FirstFreeFrom(1, room.capacity, TakenSeats(inside, id, roomId))
  }

  /** `findFreeSeat`: look the room up, collect the taken seats, try 1..capacity. */
  method FindFreeSeat(rooms: seq<Room>, inside: seq<Student>, id: int, roomId: int) returns (seat: Option<int>)
    ensures seat == FreeSeatIn(rooms, inside, id, roomId)
  {
    var room := Keys.Find(rooms, RoomKey, roomId);
    if room.None? {
      return None;
    }
    var cap := room.value.capacity;
    var taken := TakenSeats(inside, id, roomId);
    var i := 1;
    while i <= cap
      invariant 1 <= i
      invariant FirstFreeFrom(i, cap, taken) == FirstFreeFrom(1, cap, taken)
      decreases cap - i
    {
      if i !in taken {
        return Some(i);
      }
      i := i + 1;
    }
    return None;
  }

  datatype Assignment = Assignment(roomId: int, seat: int)

  /** The first room of `rs`, in stored order, with a free seat, and that seat. */
  function FirstFit(rs: seq<Room>, rooms: seq<Room>, inside: seq<Student>, id: int): (r: Option<Assignment>)
    ensures r.None? <==> forall j :: 0 <= j < |rs| ==> FreeSeatIn(rooms, inside, id, rs[j].id).None?
    ensures r.Some? ==> exists j :: 0 <= j < |rs| && r.value.roomId == rs[j].id
                                    && FreeSeatIn(rooms, inside, id, rs[j].id) == Some(r.value.seat)
                                    && forall k :: 0 <= k < j ==> FreeSeatIn(rooms, inside, id, rs[k].id).None?
  {
    if rs == [] then None
    else
      match FreeSeatIn(rooms, inside, id, rs[0].id)
      case Some(seat) => Some(Assignment(rs[0].id, seat))
      case None =>
        var r := FirstFit(rs[1..], rooms, inside, id);
        assert forall j :: 1 <= j < |rs| ==> rs[j] == rs[1..][j - 1];
        if r.Some? then
          var j :| 0 <= j < |rs[1..]| && r.value.roomId == rs[1..][j].id
                   && FreeSeatIn(rooms, inside, id, rs[1..][j].id) == Some(r.value.seat)
                   && forall k :: 0 <= k < j ==> FreeSeatIn(rooms, inside, id, rs[1..][k].id).None?;
          assert r.value.roomId == rs[j + 1].id;
          r
        else r
  }

  /** The seat search: the preferred room when truthy and it has a seat, otherwise the
      first room in stored order that has one. */
  function Allocation(rooms: seq<Room>, inside: seq<Student>, id: int, preferred: Option<int>): (r: Option<Assignment>)
    ensures TruthyNum(preferred) && FreeSeatIn(rooms, inside, id, preferred.value).Some? ==>
            r == Some(Assignment(preferred.value, FreeSeatIn(rooms, inside, id, preferred.value).value))
    ensures !(TruthyNum(preferred) && FreeSeatIn(rooms, inside, id, preferred.value).Some?) ==>
            r == FirstFit(rooms, rooms, inside, id)
  {
    if TruthyNum(preferred) && FreeSeatIn(rooms, inside, id, preferred.value).Some? then
      Some(Assignment(preferred.value, FreeSeatIn(rooms, inside, id, preferred.value).value))
    else FirstFit(rooms, rooms, inside, id)
  }

  /** A found seat is a real seat of an existing room and no other inside student of
      that room holds it. */
  lemma AllocationSound(rooms: seq<Room>, inside: seq<Student>, id: int, preferred: Option<int>)
    requires Allocation(rooms, inside, id, preferred).Some?
    ensures var a := Allocation(rooms, inside, id, preferred).value;
            && Keys.Find(rooms, RoomKey, a.roomId).Some?
            && 1 <= a.seat <= Keys.Find(rooms, RoomKey, a.roomId).value.capacity
            && forall s :: s in inside && s.id != id && s.roomId == Some(a.roomId) ==> s.seatNo != Some(a.seat)
  {
    var a := Allocation(rooms, inside, id, preferred).value;
    assert FreeSeatIn(rooms, inside, id, a.roomId) == Some(a.seat);
  }

  /** The library is full exactly when no room has a free seat. */
  lemma AllocationNoneIff(rooms: seq<Room>, inside: seq<Student>, id: int, preferred: Option<int>)
    ensures Allocation(rooms, inside, id, preferred).None? <==>
            forall j :: 0 <= j < |rooms| ==> FreeSeatIn(rooms, inside, id, rooms[j].id).None?
  {
    if TruthyNum(preferred) && FreeSeatIn(rooms, inside, id, preferred.value).Some? {
      var room := Keys.Find(rooms, RoomKey, preferred.value).value;
      var j :| 0 <= j < |rooms| && rooms[j] == room;
      assert FreeSeatIn(rooms, inside, id, rooms[j].id).Some?;
    }
  }

  /** The room search: preferred room first, then all rooms, stopping at the first hit. */
  method AssignSeat(rooms: seq<Room>, inside: seq<Student>, id: int, preferred: Option<int>) returns (a: Option<Assignment>)
    ensures a == Allocation(rooms, inside, id, preferred)
  {
    if TruthyNum(preferred) {
      var seat := FindFreeSeat(rooms, inside, id, preferred.value);
      if seat.Some? {
        return Some(Assignment(preferred.value, seat.value));
      }
    }
    for j := 0 to |rooms|
      invariant FirstFit(rooms[j..], rooms, inside, id) == FirstFit(rooms, rooms, inside, id)
    {
      assert rooms[j..][1..] == rooms[j + 1..];
      var seat := FindFreeSeat(rooms, inside, id, rooms[j].id);
      if seat.Some? {
        return Some(Assignment(rooms[j].id, seat.value));
      }
    }
    return None;
  }

  /** The student table after a toggle of `s` (the record `students.get` returned), with
      the inside set read from the date index above `bound`. */
  function StudentsAfterToggle(students: seq<Student>, rooms: seq<Room>, att: seq<Log>, s: Student, bound: IdbKey): (r: seq<Student>)
    ensures |r| == |students|
    ensures forall i :: 0 <= i < |students| && students[i].id != s.id ==> r[i] == students[i]
    ensures s.seatType == Reserved ==> r == students
    ensures s.seatType == General && NewStatus(att, s.id) == In ==>
            var a := Allocation(rooms, StudentsWithIds(students, InsideIdsNow(att, bound, s.id)), s.id, s.roomId);
            r == if a.Some? then Keys.Replace(students, StudentKey, s.(seatNo := Some(a.value.seat), roomId := Some(a.value.roomId)))
                 else students
    ensures s.seatType == General && NewStatus(att, s.id) == Out ==>
            r == Keys.Replace(students, StudentKey, s.(seatNo := None))
  {
    if s.seatType == General && NewStatus(att, s.id) == In then
      var a := Allocation(rooms, StudentsWithIds(students, InsideIdsNow(att, bound, s.id)), s.id, s.roomId);
      if a.Some? then Keys.Replace(students, StudentKey, s.(seatNo := Some(a.value.seat), roomId := Some(a.value.roomId)))
      else students
    else if s.seatType == General then Keys.Replace(students, StudentKey, s.(seatNo := None))
    else students
  }

  /** A Reserved seat is taken only while its holder is inside: with the holder out, a
      General student entering is given that very seat. */
  lemma ReservedSeatCanBeDoubleBooked()
    ensures var owner := Student(1, "A", "", "Active", Reserved, Some(1), Some(1), "", "08:00", "14:00", 0);
            var guest := Student(2, "B", "", "Active", General, None, None, "", "08:00", "14:00", 0);
            var rooms := [Room(1, "Main Hall", 50, 10, 5)];
            var after := StudentsAfterToggle([owner, guest], rooms, [], guest, AllocatorBound(1000, 0));
            && after[0].roomId == after[1].roomId == Some(1)
            && after[0].seatNo == after[1].seatNo == Some(1)
  {
    var owner := Student(1, "A", "", "Active", Reserved, Some(1), Some(1), "", "08:00", "14:00", 0);
    var guest := Student(2, "B", "", "Active", General, None, None, "", "08:00", "14:00", 0);
    var rooms := [Room(1, "Main Hall", 50, 10, 5)];
    var students := [owner, guest];
    assert NewStatus([], 2) == In;
    var ids := InsideIdsNow([], AllocatorBound(1000, 0), 2);
    assert ids == {2} by {
      assert forall sid :: Occupancy.LatestStatus(LogsAbove([], AllocatorBound(1000, 0)), sid) == None by {
        assert LogsAbove([], AllocatorBound(1000, 0)) == [];
      }
    }
    var inside := StudentsWithIds(students, ids);
    assert forall x :: x in inside ==> x == guest;
    assert TakenSeats(inside, 2, 1) == {};
    assert Keys.Find(rooms, RoomKey, 1) == Some(rooms[0]);
    assert FreeSeatIn(rooms, inside, 2, 1) == Some(1);
    assert FirstFit(rooms, rooms, inside, 2) == Some(Assignment(1, 1));
  }

  // A General student seated at room 1 seat 1 whose only record is an In from the
  // previous day, and a General student preferring room 1 who scans in on day two.
  const staleHolder := Student(7, "A", "", "Active", General, Some(1), Some(1), "", "08:00", "14:00", 0)
  const lateComer := Student(2, "B", "", "Active", General, Some(1), None, "", "08:00", "14:00", 0)
  const staleLog := Log(1, 7, 1000, In, Some(1000), None)
  const dayTwo := 86401000

  /** The windows of the two bounds on day two: the number bound keeps yesterday's record,
      the date bound drops it. */
  lemma StaleWindows()
    ensures InsideIdsNow([staleLog], AllocatorBound(dayTwo, 0), 2) == {7, 2}
    ensures InsideIdsNow([staleLog], IntendedBound(dayTwo, 0), 2) == {2}
  {
    assert LocalMidnight(dayTwo, 0) == 86400000;
    var written := LogsAbove([staleLog], AllocatorBound(dayTwo, 0));
    assert staleLog in written;
    assert Occupancy.LatestStatus(written, 7) == Some(In) by {
      assert Occupancy.OfStudent(7)(staleLog);
    }
    assert forall sid :: sid != 7 ==> Occupancy.LatestStatus(written, sid) == None;
    var intended := LogsAbove([staleLog], IntendedBound(dayTwo, 0));
    assert forall l :: l !in intended;
    assert forall sid :: Occupancy.LatestStatus(intended, sid) == None;
  }

  /** The seat the late comer is given with the stale holder inside, and without. */
  lemma StaleSeats()
    ensures Allocation([Room(1, "Main Hall", 50, 10, 5)], StudentsWithIds([staleHolder, lateComer], {7, 2}), 2, Some(1))
            == Some(Assignment(1, 2))
    ensures Allocation([Room(1, "Main Hall", 50, 10, 5)], StudentsWithIds([staleHolder, lateComer], {2}), 2, Some(1))
            == Some(Assignment(1, 1))
  {
    var rooms := [Room(1, "Main Hall", 50, 10, 5)];
    assert Keys.Find(rooms, RoomKey, 1) == Some(rooms[0]);
    var inside := StudentsWithIds([staleHolder, lateComer], {7, 2});
    assert staleHolder in inside;
    assert forall x :: x in inside ==> x == staleHolder || x == lateComer;
    assert TakenSeats(inside, 2, 1) == {1} by {
      assert Holds(staleHolder, 2, 1, 1);
    }
    assert FreeSeatIn(rooms, inside, 2, 1) == Some(2);
    var inside' := StudentsWithIds([staleHolder, lateComer], {2});
    assert forall x :: x in inside' ==> x == lateComer;
    assert TakenSeats(inside', 2, 1) == {};
    assert FreeSeatIn(rooms, inside', 2, 1) == Some(1);
  }

  /** A General student whose last record, from yesterday, is In still holds a seat for
      the allocator as written: a student entering today is given the next seat, while the
      intended window (records since local midnight) would leave the first one free. */
  lemma StaleInBlocksSeat()
    ensures var rooms := [Room(1, "Main Hall", 50, 10, 5)];
            && StudentsAfterToggle([staleHolder, lateComer], rooms, [staleLog], lateComer, AllocatorBound(dayTwo, 0))[1].seatNo == Some(2)
            && StudentsAfterToggle([staleHolder, lateComer], rooms, [staleLog], lateComer, IntendedBound(dayTwo, 0))[1].seatNo == Some(1)
  {
    assert NewStatus([staleLog], 2) == In;
    StaleWindows();
    StaleSeats();
  }

  datatype ScanResult = NotFound | Toggled(name: string, status: Presence, libraryFull: bool)

  /** `processAttendance`: look up, flip, allocate or release, append the record. */
  method ProcessAttendance(db: Library, scanned: FieldValue, now: int, tz: int) returns (result: ScanResult)
    requires db.Valid()
    modifies db`students, db`attendance, db`nextLogId
    ensures db.Valid()
    ensures result.NotFound? <==> LookUp(old(db.students), scanned).None?
    ensures result.NotFound? ==> db.students == old(db.students) && db.attendance == old(db.attendance)
                                 && db.nextLogId == old(db.nextLogId)
    ensures result.Toggled? ==>
            var s := LookUp(old(db.students), scanned).value;
            && result.name == s.name
            && result.status == NewStatus(old(db.attendance), s.id)
            && db.attendance == old(db.attendance) + [ToggleLog(s.id, result.status, now).(id := old(db.nextLogId))]
            && db.nextLogId == old(db.nextLogId) + 1
            && db.students == StudentsAfterToggle(old(db.students), old(db.rooms), old(db.attendance), s, AllocatorBound(now, tz))
            && (result.libraryFull <==>
                  result.status == In && s.seatType == General &&
                  Allocation(old(db.rooms), StudentsWithIds(old(db.students), InsideIdsNow(old(db.attendance), AllocatorBound(now, tz), s.id)),
                             s.id, s.roomId).None?)
  {
    var parsed := ParseField(scanned);
    if parsed.None? {
      return NotFound;
    }
    var id := parsed.value;
    var found := Keys.Find(db.students, StudentKey, id);
    if found.None? {
      return NotFound;
    }
    var student := found.value;
    var status := NewStatus(db.attendance, id);
    var full := UpdateSeat(db, student, now, tz);
    var _ := db.AddLog(ToggleLog(id, status, now));
    return Toggled(student.name, status, full);
  }

  /** The seat step of `processAttendance`: a General student coming in is given the
      allocated seat (`full` when there is none), one going out gives the seat up. */
  method UpdateSeat(db: Library, student: Student, now: int, tz: int) returns (full: bool)
    requires db.Valid()
    modifies db`students
    ensures db.Valid()
    ensures db.students == StudentsAfterToggle(old(db.students), db.rooms, db.attendance, student, AllocatorBound(now, tz))
    ensures full <==> NewStatus(db.attendance, student.id) == In && student.seatType == General &&
                      Allocation(db.rooms, StudentsWithIds(old(db.students), InsideIdsNow(db.attendance, AllocatorBound(now, tz), student.id)),
                                 student.id, student.roomId).None?
  {
    var id := student.id;
    var status := NewStatus(db.attendance, id);
    full := false;
    if status == In && student.seatType == General {
      var m := Occupancy.StatusMap(LogsAbove(db.attendance, AllocatorBound(now, tz)));
      var ids := Occupancy.InsideOf(m) + {id};
      var inside := StudentsWithIds(db.students, ids);
      var a := AssignSeat(db.rooms, inside, id, student.roomId);
      if a.Some? {
        db.UpdateStudent(student.(seatNo := Some(a.value.seat), roomId := Some(a.value.roomId)));
      } else {
        full := true;
      }
    }
    if status == Out && student.seatType == General {
      db.UpdateStudent(student.(seatNo := None));
    }
  }

  /** `activeLogs`: the status map of the records since local midnight. */
  method ActiveLogs(db: Library, now: int, tz: int) returns (m: map<int, Presence>)
    ensures forall sid :: sid in m <==> Occupancy.LatestStatus(Occupancy.TodaysLogs(db.attendance, now, tz), sid).Some?
    ensures forall sid :: sid in m ==> Occupancy.LatestStatus(Occupancy.TodaysLogs(db.attendance, now, tz), sid) == Some(m[sid])
    ensures Occupancy.InsideOf(m) == Occupancy.InsideIds(Occupancy.TodaysLogs(db.attendance, now, tz))
  {
    m := Occupancy.StatusMap(Occupancy.TodaysLogs(db.attendance, now, tz));
  }

  /** `isInside(id)`: false while the map is loading. */
  function IsInside(active: Option<map<int, Presence>>, id: int): (r: bool)
    ensures r <==> active.Some? && id in Occupancy.InsideOf(active.value)
  {
    active.Some? && id in active.value && active.value[id] == In
  }
}
