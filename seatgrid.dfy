/** The earlier, room-agnostic seat grid: seat numbers `1..totalSeats` and a map from
    seat number to the name of the student holding it, across every room. */
module SeatGrid {
  import opened Wrappers
  import opened JsValues
  import opened Db
  import Seating

  /** The `totalSeats` prop defaults to 50 when it is not passed. */
  const DefaultTotalSeats := 50

  function TotalSeats(prop: Option<int>): int
  {
    if prop.Some? then prop.value else DefaultTotalSeats
  }

  function Seats(prop: Option<int>): (r: seq<int>)
    ensures forall k :: k in r <==> 1 <= k <= TotalSeats(prop)
    ensures prop.None? ==> |r| == 50
    ensures |r| == (if TotalSeats(prop) > 0 then TotalSeats(prop) else 0)
    ensures forall i :: 0 <= i < |r| ==> r[i] == i + 1
  {
    Seating.OneTo(TotalSeats(prop))
  }

  /** The name map the loop builds: seat to the name of its last holder. */
  function NameMapOf(ss: seq<Student>): (m: map<int, string>)
    ensures forall k :: k in m <==> k in Seating.SeatMapOf(ss)
    ensures forall k :: k in m ==> m[k] == Seating.SeatMapOf(ss)[k].name
  {
    if ss == [] then map[]
    else
      var init := ss[..|ss| - 1];
      var s := ss[|ss| - 1];
      assert ss == init + [s];
      Seating.SeatMapSnoc(init, s);
      var m := NameMapOf(init);
      if TruthyNum(s.seatNo) then m[s.seatNo.value := s.name] else m
  }

  /** `students?.forEach(...)`: nothing while the table is loading. */
  method NameMap(students: Option<seq<Student>>) returns (m: map<int, string>)
    ensures students.None? ==> m == map[]
    ensures students.Some? ==> m == NameMapOf(students.value)
  {
    m := map[];
    if students.None? {
      return;
    }
    var ss := students.value;
    for i := 0 to |ss|
      invariant m == NameMapOf(ss[..i])
    {
      assert ss[..i + 1][..i] == ss[..i];
      if TruthyNum(ss[i].seatNo) {
        m := m[ss[i].seatNo.value := ss[i].name];
      }
    }
    assert ss[..|ss|] == ss;
  }

  /** `!!occupantName`: a holder with an empty name leaves the seat looking free. */
  predicate IsOccupied(m: map<int, string>, k: int)
  {
    k in m && m[k] != ""
  }

  function Label(m: map<int, string>, k: int): (r: string)
    ensures IsOccupied(m, k) ==> r == m[k]
    ensures !IsOccupied(m, k) ==> r == "Free"
  {
    if IsOccupied(m, k) then m[k] else "Free"
  }

  /** With every name non-empty, seat `k` shows as occupied exactly when some student,
      in whatever room, has seat number `k`. */
  lemma OccupiedIffSomeoneHoldsSeat(ss: seq<Student>, k: int)
    requires k != 0
    requires forall i :: 0 <= i < |ss| ==> ss[i].name != ""
    ensures IsOccupied(NameMapOf(ss), k) <==> exists i :: 0 <= i < |ss| && ss[i].seatNo == Some(k)
  {
    var p := Seating.SeatedAt(k);
    assert forall i :: 0 <= i < |ss| ==> (p(ss[i]) <==> ss[i].seatNo == Some(k));
    if k in NameMapOf(ss) {
      assert Seating.Occupant(ss, k).value in ss;
    }
  }
}
