/** Seat maps as the pages build them: a loop over students that writes
    `seatMap[s.seat_no]` for every student whose seat number is truthy, so the last such
    student wins a seat, and the seat list `1..n` that the grids draw. */
module Seating {
  import opened Wrappers
  import opened JsValues
  import opened Db
  import Seqs

  function SeatedAt(k: int): Student -> bool
  {
    (s: Student) => TruthyNum(s.seatNo) && s.seatNo.value == k
  }

  /** The student a map-filling loop leaves at seat `k`: the last one seated there. */
  function Occupant(ss: seq<Student>, k: int): Option<Student>
  {
    Seqs.LastWhere(ss, SeatedAt(k))
  }

  /** The seat map of `ss`: every seat some student holds, mapped to its last holder. */
  function SeatMapOf(ss: seq<Student>): (m: map<int, Student>)
    ensures forall k :: k in m <==> Occupant(ss, k).Some?
    ensures forall k :: k in m ==> m[k] == Occupant(ss, k).value
    ensures forall k :: k in m ==> m[k].seatNo == Some(k) && k != 0
  {
    if ss == [] then map[]
    else
      var init := ss[..|ss| - 1];
      var s := ss[|ss| - 1];
      var m := SeatMapOf(init);
      assert ss == init + [s];
      assert forall k :: Occupant(ss, k) == if SeatedAt(k)(s) then Some(s) else Occupant(init, k) by {
        forall k ensures Occupant(ss, k) == if SeatedAt(k)(s) then Some(s) else Occupant(init, k) {
          Seqs.LastWhereSnoc(init, s, SeatedAt(k));
        }
      }
      if TruthyNum(s.seatNo) then m[s.seatNo.value := s] else m
  }

  /** One more student: a seated one takes (or takes over) their seat, an unseated one
      changes nothing. */
  lemma SeatMapSnoc(ss: seq<Student>, s: Student)
    ensures SeatMapOf(ss + [s]) ==
            if TruthyNum(s.seatNo) then SeatMapOf(ss)[s.seatNo.value := s] else SeatMapOf(ss)
  {
    assert (ss + [s])[..|ss|] == ss;
  }

  /** On a seat-number collision the later student holds the seat. */
  lemma LaterStudentWins(ss: seq<Student>, s: Student)
    requires TruthyNum(s.seatNo)
    ensures SeatMapOf(ss + [s])[s.seatNo.value] == s
  {
    SeatMapSnoc(ss, s);
  }

  /** Students without a seat number leave the map as it is. */
  lemma {:induction false} UnseatedIgnored(ss: seq<Student>)
    ensures SeatMapOf(Seqs.Filter(ss, (s: Student) => TruthyNum(s.seatNo))) == SeatMapOf(ss)
  {
    var seated := (s: Student) => TruthyNum(s.seatNo);
    if ss != [] {
      var init := ss[..|ss| - 1];
      var s := ss[|ss| - 1];
      assert ss == init + [s];
      UnseatedIgnored(init);
      Seqs.FilterAppend(init, [s], seated);
      assert Seqs.Filter([s], seated) == if seated(s) then [s] else [] by {
        assert [s][1..] == [];
      }
      SeatMapSnoc(init, s);
      if seated(s) {
        SeatMapSnoc(Seqs.Filter(init, seated), s);
      } else {
        assert Seqs.Filter(init, seated) + [] == Seqs.Filter(init, seated);
      }
    }
  }

  /** `seatMap[s.seat_no] = s` for every student with a truthy seat number. */
  method BuildSeatMap(ss: seq<Student>) returns (m: map<int, Student>)
    ensures m == SeatMapOf(ss)
  {
    m := map[];
    for i := 0 to |ss|
      invariant m == SeatMapOf(ss[..i])
    {
      assert ss[..i + 1] == ss[..i] + [ss[i]];
      SeatMapSnoc(ss[..i], ss[i]);
      if TruthyNum(ss[i].seatNo) {
        m := m[ss[i].seatNo.value := ss[i]];
      }
    }
    assert ss[..|ss|] == ss;
  }

  /** `Array.from({length: n}, (_, i) => i + 1)`: a negative length counts as 0. */
  function OneTo(n: int): (r: seq<int>)
    ensures |r| == if n > 0 then n else 0
    ensures forall i :: 0 <= i < |r| ==> r[i] == i + 1
    ensures forall k :: k in r <==> 1 <= k <= n
  {
    if n <= 0 then [] else OneTo(n - 1) + [n]
  }
}
