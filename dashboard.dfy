/** The live dashboard: who is inside today, the selected room's seat grid with a
    free / away / inside class per seat, the Inside and Away counters, and the shift
    dots drawn on assigned seats. */
module Dashboard {
  import opened Wrappers
  import opened JsValues
  import opened Db
  import Occupancy
  import Seating
  import Seqs
  import Keys

  /** `students.where('status').equals('Active')`. */
  function ActiveStudents(all: seq<Student>): (r: seq<Student>)
    ensures forall s :: s in r <==> s in all && s.status == "Active"
  {
    Seqs.Filter(all, (s: Student) => s.status == "Active")
  }

  /** `activeAttendance`: fill the status map from today's records, then collect the
      students it marks In. */
  method ActiveAttendance(db: Library, now: int, tz: int) returns (inside: set<int>)
    ensures inside == Occupancy.InsideIds(Occupancy.TodaysLogs(db.attendance, now, tz))
  {
    var status := Occupancy.StatusMap(Occupancy.TodaysLogs(db.attendance, now, tz));
    inside := InsideKeys(status);
  }

  /** `Object.keys(studentStatus).forEach(...)`: every key, read back with `parseInt`,
      whose status is In goes into the set. */
  method InsideKeys(status: map<int, Presence>) returns (inside: set<int>)
    ensures inside == Occupancy.InsideOf(status)
  {
    inside := {};
    var pending := status.Keys;
    while pending != {}
      invariant pending <= status.Keys
      invariant inside == set sid | sid in status && sid !in pending && status[sid] == In
      decreases |pending|
    {
      // A non-empty set has an element: otherwise `pending` would equal `{}`.
      if forall y :: y !in pending {
        assert false;
      }
      var sid :| sid in pending;
      if status[sid] == In {
        ParseIntRoundTrip(sid);
        inside := inside + {ParseInt(ShowInt(sid)).value};
      }
      pending := pending - {sid};
    }
  }

  /** The auto-select effect: with rooms loaded and none (or a falsy id) selected, the
      first room is selected. */
  function AutoSelect(rooms: Option<seq<Room>>, selected: Option<int>): (r: Option<int>)
    ensures rooms.Some? && |rooms.value| > 0 && !TruthyNum(selected) ==> r == Some(rooms.value[0].id)
    ensures !(rooms.Some? && |rooms.value| > 0 && !TruthyNum(selected)) ==> r == selected
  {
    if rooms.Some? && |rooms.value| > 0 && !TruthyNum(selected) then Some(rooms.value[0].id) else selected
  }

  /** `rooms.find(r => r.id === parseInt(selectedRoomId))`; a null selection is NaN and
      matches nothing. */
  function CurrentRoom(rooms: seq<Room>, selected: Option<int>): (r: Option<Room>)
    ensures r.Some? ==> r.value in rooms && Some(r.value.id) == selected
    ensures r.None? <==> selected.None? || forall i :: 0 <= i < |rooms| ==> rooms[i].id != selected.value
  {
    if selected.None? then None else Keys.Find(rooms, RoomKey, selected.value)
  }

  /** After the auto-select, a previously unselected dashboard shows the first room. */
  lemma AutoSelectShowsFirstRoom(rooms: seq<Room>, selected: Option<int>)
    requires |rooms| > 0 && !TruthyNum(selected)
    ensures CurrentRoom(rooms, AutoSelect(Some(rooms), selected)) == Some(rooms[0])
  {
  }

  /** The selected room's students, seated or not, in stored order. */
  function RoomStudents(students: seq<Student>, selected: Option<int>): (r: seq<Student>)
    ensures forall s :: s in r <==> s in students && selected.Some? && s.roomId == selected
  {
    Seqs.Filter(students, (s: Student) => selected.Some? && s.roomId == selected)
  }

  /** The grid: seats `1..capacity` of the selected room, none when no room matches. */
  function Seats(rooms: seq<Room>, selected: Option<int>): (r: seq<int>)
    ensures CurrentRoom(rooms, selected).None? ==> r == []
    ensures CurrentRoom(rooms, selected).Some? ==>
            forall k :: k in r <==> 1 <= k <= CurrentRoom(rooms, selected).value.capacity
    ensures CurrentRoom(rooms, selected).Some? ==>
            var c := CurrentRoom(rooms, selected).value.capacity;
            |r| == (if c > 0 then c else 0)
    ensures forall i :: 0 <= i < |r| ==> r[i] == i + 1
  {
    var total := match CurrentRoom(rooms, selected) case Some(room) => room.capacity case None => 0;
    Seating.OneTo(total)
  }

  /** `currentRoom?.cols || 5`. */
  function GridCols(room: Option<Room>): (r: int)
    ensures r != 0
    ensures room.Some? && room.value.cols != 0 ==> r == room.value.cols
    ensures room.None? || room.value.cols == 0 ==> r == 5
  {
    if room.Some? && room.value.cols != 0 then room.value.cols else 5
  }

  function OccupiedCount(roomStudents: seq<Student>): nat
  {
    |roomStudents|
  }

  predicate InsideNow(inside: Option<set<int>>, s: Student)
  {
    inside.Some? && s.id in inside.value
  }

  /** `roomStudents.filter(s => activeAttendance?.has(s.id)).length || 0`. */
  function InsideCount(roomStudents: seq<Student>, inside: Option<set<int>>): (r: nat)
    ensures r <= OccupiedCount(roomStudents)
    ensures inside.None? ==> r == 0
    ensures inside.Some? ==> r == |set i | 0 <= i < |roomStudents| && roomStudents[i].id in inside.value|
  {
    var p := (s: Student) => InsideNow(inside, s);
    var f := Seqs.Filter(roomStudents, p);
    assert f != [] ==> InsideNow(inside, f[0]);
    Seqs.FilterCount(roomStudents, p);
    var a := Seqs.Positions(roomStudents, p);
    assert inside.Some? ==> forall i :: i in a <==> 0 <= i < |roomStudents| && roomStudents[i].id in inside.value;
    assert inside.Some? ==> a == set i | 0 <= i < |roomStudents| && roomStudents[i].id in inside.value;
    |f|
  }

  /** The Away counter, `occupiedCount - actuallyInsideCount`, is never negative. */
  function AwayCount(roomStudents: seq<Student>, inside: Option<set<int>>): (r: nat)
    ensures r + InsideCount(roomStudents, inside) == OccupiedCount(roomStudents)
  {
    OccupiedCount(roomStudents) - InsideCount(roomStudents, inside)
  }

  datatype SeatClass = Free | Away | Inside

  /** The seat's class: free when nobody is mapped to it, inside when the mapped
      student is in the inside set, away otherwise. */
  function ClassOf(seatMap: map<int, Student>, inside: Option<set<int>>, k: int): (r: SeatClass)
    ensures r == Free <==> k !in seatMap
    ensures r == Inside <==> k in seatMap && InsideNow(inside, seatMap[k])
    ensures r == Away <==> k in seatMap && !InsideNow(inside, seatMap[k])
  {
    if k !in seatMap then Free
    else if InsideNow(inside, seatMap[k]) then Inside
    else Away
  }

  /** A seat of the room's map is free exactly when no student of the room holds it. */
  lemma FreeIffUnheld(roomStudents: seq<Student>, inside: Option<set<int>>, k: int)
    requires k != 0
    ensures ClassOf(Seating.SeatMapOf(roomStudents), inside, k) == Free <==>
            forall i :: 0 <= i < |roomStudents| ==> roomStudents[i].seatNo != Some(k)
  {
    var p := Seating.SeatedAt(k);
    assert forall i :: 0 <= i < |roomStudents| ==> (p(roomStudents[i]) <==> roomStudents[i].seatNo == Some(k));
  }

  function InsideSeats(seatMap: map<int, Student>, inside: Option<set<int>>): set<int>
  {
    set k | k in seatMap && ClassOf(seatMap, inside, k) == Inside
  }

  /** Every green seat belongs to a different inside student of the room, so the grid
      never shows more green seats than the Inside counter. */
  lemma InsideSeatsAtMostInsideCount(roomStudents: seq<Student>, inside: Option<set<int>>)
    ensures |InsideSeats(Seating.SeatMapOf(roomStudents), inside)| <= InsideCount(roomStudents, inside)
  {
    var m := Seating.SeatMapOf(roomStudents);
    var p := (s: Student) => InsideNow(inside, s);
    var f := Seqs.Filter(roomStudents, p);
    var same := (x: Student) => x;
    var elems := Seqs.Image(f, same);
    var seats := InsideSeats(m, inside);
    forall k | k in seats ensures m[k] in elems {
      var s := m[k];
      assert s == Seating.Occupant(roomStudents, k).value;
      assert s in roomStudents && p(s);
      var i :| 0 <= i < |roomStudents| && roomStudents[i] == s;
      assert s in f;
    }
    var none := Student(0, "", "", "", General, None, None, "", "", "", 0);
    Seqs.InjectionCard(seats, elems, (k: int) => if k in m then m[k] else none);
    Seqs.ImageAtMostLength(f, same);
  }

  /** Shift dots of an assigned seat. */
  predicate MorningDot(shift: string)
  {
    shift == "Morning" || shift == "Full Day"
  }

  predicate EveningDot(shift: string)
  {
    shift == "Evening" || shift == "Full Day"
  }

  /** A full-day student shows both dots, a morning or evening student exactly one, and
      any other shift none. */
  lemma ShiftDots(shift: string)
    ensures MorningDot(shift) && EveningDot(shift) <==> shift == "Full Day"
    ensures MorningDot(shift) && !EveningDot(shift) <==> shift == "Morning"
    ensures !MorningDot(shift) && EveningDot(shift) <==> shift == "Evening"
    ensures !MorningDot(shift) && !EveningDot(shift) <==> shift !in {"Morning", "Evening", "Full Day"}
  {
  }
}
