/** The student list: fee status from the finance table, the number of distinct days
    present, the room-name lookup, the name/mobile search and the seat label. */
module Students {
  import opened Wrappers
  import opened JsValues
  import opened Db
  import Seqs
  import Keys

  datatype FeeStatus = Ok | Due

  /** The fee window: a payment older than 30 days (in milliseconds) is overdue. */
  const FeeWindow := 30 * MsPerDay

  predicate IsPaymentOf(t: Txn, sid: int)
  {
    t.studentId == Some(sid) && t.txnType == Income
  }

  /** `allTransactions.filter(t => t.studentId === studentId && t.type === 'Income')`. */
  function Payments(txns: seq<Txn>, sid: int): (r: seq<Txn>)
    ensures forall t :: t in r <==> t in txns && IsPaymentOf(t, sid)
  {
    Seqs.Filter(txns, (t: Txn) => IsPaymentOf(t, sid))
  }

  /** The date of the newest payment, which the descending sort puts first. */
  function LatestDate(ps: seq<Txn>): (d: int)
    requires |ps| > 0
    ensures exists i :: 0 <= i < |ps| && ps[i].date == d
    ensures forall i :: 0 <= i < |ps| ==> ps[i].date <= d
  {
    if |ps| == 1 then ps[0].date
    else
      var rest := LatestDate(ps[1..]);
      assert forall i :: 1 <= i < |ps| ==> ps[i] == ps[1..][i - 1];
      if ps[0].date >= rest then ps[0].date else rest
  }

  /** `checkFeeStatus`: fine while the table is loading; otherwise due exactly when
      every Income payment of the student is more than 30 days old, which includes the
      student never having paid. */
  function CheckFeeStatus(txns: Option<seq<Txn>>, sid: int, now: int): (r: FeeStatus)
    ensures txns.None? ==> r == Ok
    ensures txns.Some? ==>
            (r == Due <==> forall t :: t in txns.value && IsPaymentOf(t, sid) ==> now - t.date > FeeWindow)
  {
    if txns.None? then Ok
    else
      var ps := Payments(txns.value, sid);
      if |ps| == 0 then
        assert forall t :: t in txns.value && IsPaymentOf(t, sid) ==> t in ps;
        Due
      else
        var last := LatestDate(ps);
        assert forall t :: t in ps ==> t.date <= last;
        if now - last > FeeWindow then Due else Ok
  }

  /** A student with no Income payment is due. */
  lemma NeverPaidIsDue(txns: seq<Txn>, sid: int, now: int)
    requires forall i :: 0 <= i < |txns| ==> !IsPaymentOf(txns[i], sid)
    ensures CheckFeeStatus(Some(txns), sid, now) == Due
  {
  }

  /** Expenses and other students' payments do not affect the status. */
  lemma OtherTxnsIgnored(txns: seq<Txn>, t: Txn, sid: int, now: int)
    requires !IsPaymentOf(t, sid)
    ensures CheckFeeStatus(Some(txns + [t]), sid, now) == CheckFeeStatus(Some(txns), sid, now)
  {
    assert forall x :: x in txns + [t] && IsPaymentOf(x, sid) ==> x in txns;
  }

  /** A payment made just now clears the status. */
  lemma FreshPaymentIsOk(txns: seq<Txn>, t: Txn, sid: int, now: int)
    requires IsPaymentOf(t, sid) && t.date == now
    ensures CheckFeeStatus(Some(txns + [t]), sid, now) == Ok
  {
    assert t in txns + [t];
  }

  predicate IsInLogOf(l: Log, sid: int)
  {
    l.studentId == sid && l.status == In
  }

  /** `allAttendance.filter(l => l.studentId === studentId && l.status === 'In')`. */
  function InLogsOf(att: seq<Log>, sid: int): (r: seq<Log>)
    ensures forall l :: l in r <==> l in att && IsInLogOf(l, sid)
  {
    Seqs.Filter(att, (l: Log) => IsInLogOf(l, sid))
  }

  /** `countAttendance`: the number of distinct local calendar days on which the
      student has an In record; 0 while the table is loading. */
  function CountAttendance(att: Option<seq<Log>>, sid: int, tz: int): (r: nat)
    ensures att.None? ==> r == 0
    ensures att.Some? ==> r == |DaysPresent(att.value, sid, tz)|
  {
    if att.None? then 0
    else
      var logs := InLogsOf(att.value, sid);
      var days := set i | 0 <= i < |logs| :: LocalDay(logs[i].date, tz);
      assert days == DaysPresent(att.value, sid, tz) by {
        forall d | d in DaysPresent(att.value, sid, tz) ensures d in days {
          var l :| l in att.value && IsInLogOf(l, sid) && LocalDay(l.date, tz) == d;
          var j :| 0 <= j < |att.value| && att.value[j] == l;
          assert l in logs;
          var i :| 0 <= i < |logs| && logs[i] == l;
        }
      }
      |days|
  }

  /** The local days on which the student has an In record. */
  function DaysPresent(att: seq<Log>, sid: int, tz: int): set<int>
  {
    set l | l in att && IsInLogOf(l, sid) :: LocalDay(l.date, tz)
  }

  /** The count never exceeds the number of In records of the student. */
  lemma AttendanceAtMostInLogs(att: seq<Log>, sid: int, tz: int)
    ensures CountAttendance(Some(att), sid, tz) <= |InLogsOf(att, sid)|
  {
    var logs := InLogsOf(att, sid);
    var f := (l: Log) => LocalDay(l.date, tz);
    Seqs.ImageAtMostLength(logs, f);
    forall d | d in DaysPresent(att, sid, tz) ensures d in Seqs.Image(logs, f) {
      var l :| l in att && IsInLogOf(l, sid) && LocalDay(l.date, tz) == d;
      var i :| 0 <= i < |logs| && logs[i] == l;
      assert f(logs[i]) == d;
    }
    Seqs.SubsetCard(DaysPresent(att, sid, tz), Seqs.Image(logs, f));
  }

  /** Out records, and a second In record on a day already counted, change nothing. */
  lemma RepeatOrOutIgnored(att: seq<Log>, l: Log, sid: int, tz: int)
    requires !IsInLogOf(l, sid) || exists x :: x in att && IsInLogOf(x, sid) && LocalDay(x.date, tz) == LocalDay(l.date, tz)
    ensures CountAttendance(Some(att + [l]), sid, tz) == CountAttendance(Some(att), sid, tz)
  {
    forall d | d in DaysPresent(att + [l], sid, tz) ensures d in DaysPresent(att, sid, tz) {
      var x :| x in att + [l] && IsInLogOf(x, sid) && LocalDay(x.date, tz) == d;
      if x !in att {
        assert x == l;
      }
    }
    assert DaysPresent(att + [l], sid, tz) == DaysPresent(att, sid, tz);
  }

  /** `getRoomName(id)`: the room's name, or 'Unknown'. */
  function GetRoomName(rooms: Option<seq<Room>>, id: Option<int>): (r: string)
    ensures rooms.None? || id.None? || (forall i :: 0 <= i < |rooms.value| ==> rooms.value[i].id != id.value)
            ==> r == "Unknown"
    ensures rooms.Some? && id.Some? && Keys.Find(rooms.value, RoomKey, id.value).Some?
            && Keys.Find(rooms.value, RoomKey, id.value).value.name != ""
            ==> r == Keys.Find(rooms.value, RoomKey, id.value).value.name
    ensures rooms.Some? && id.Some? && Keys.Find(rooms.value, RoomKey, id.value).Some?
            && Keys.Find(rooms.value, RoomKey, id.value).value.name == ""
            ==> r == "Unknown"
  {
    RoomNameOr(rooms, id, "Unknown")
  }

  /** The search: the lower-cased name contains the lower-cased query, or the mobile
      number contains the query as typed. */
  predicate Matches(s: Student, query: string)
  {
    Includes(ToLower(s.name), ToLower(query)) || Includes(s.mobile, query)
  }

  /** `filtered`: the matching students, newest first; nothing while loading. */
  function Filtered(students: Option<seq<Student>>, query: string): (r: Option<seq<Student>>)
    ensures students.None? <==> r.None?
    ensures students.Some? ==> forall s :: s in r.value <==> s in students.value && Matches(s, query)
    ensures students.Some? && query == [] ==> r.value == Seqs.Reverse(students.value)
  {
    if students.None? then None
    else
      var p := (s: Student) => Matches(s, query);
      var kept := Seqs.Filter(students.value, p);
      var r := Seqs.Reverse(kept);
      assert forall s :: s in r <==> s in kept by {
        assert forall i :: 0 <= i < |kept| ==> kept[i] == r[|kept| - 1 - i];
      }
      if query == [] then
        assert forall i :: 0 <= i < |students.value| ==> p(students.value[i]);
        Seqs.FilterAll(students.value, p);
        Some(r)
      else Some(r)
  }

  /** Over a key-ordered table the list comes out in strictly decreasing key order. */
  lemma FilteredNewestFirst(students: seq<Student>, query: string)
    requires Keys.Increasing(students, StudentKey)
    ensures var r := Filtered(Some(students), query).value;
            forall i, j :: 0 <= i < j < |r| ==> r[i].id > r[j].id
  {
    var p := (s: Student) => Matches(s, query);
    var kept := Seqs.Filter(students, p);
    Keys.FilterKeepsOrder(students, StudentKey, p, Keys.RaiseGenerator(0, students, StudentKey));
    Keys.ReverseDecreasing(kept, StudentKey);
    assert Filtered(Some(students), query).value == Seqs.Reverse(kept);
  }

  /** The seat label: "room • seat" for a Reserved student (a missing seat shows as
      `null`), "General" otherwise. */
  function SeatText(s: Student, rooms: Option<seq<Room>>): (r: string)
    ensures s.seatType == General ==> r == "General"
    ensures s.seatType == Reserved ==> r == GetRoomName(rooms, s.roomId) + " • " + ShowNullable(s.seatNo)
  {
    if s.seatType == Reserved then GetRoomName(rooms, s.roomId) + " • " + ShowNullable(s.seatNo) else "General"
  }
}
