/** Presence as the pages derive it: a status map filled by walking a list of
    attendance records and overwriting one slot per student, and the set of students
    whose slot says In. */
module Occupancy {
  import opened Wrappers
  import opened JsValues
  import opened Db
  import Seqs
  import Keys

  function OfStudent(sid: int): Log -> bool
  {
    (l: Log) => l.studentId == sid
  }

  /** The last record of `sid` in the order of `logs`. */
  function LastLogOf(logs: seq<Log>, sid: int): Option<Log>
  {
    Seqs.LastWhere(logs, OfStudent(sid))
  }

  function LatestStatus(logs: seq<Log>, sid: int): Option<Presence>
  {
    match LastLogOf(logs, sid)
    case None => None
    case Some(l) => Some(l.status)
  }

  /** `logs.forEach(l => statusMap[l.studentId] = l.status)`. */
  method StatusMap(logs: seq<Log>) returns (m: map<int, Presence>)
    ensures forall sid :: sid in m <==> exists i :: 0 <= i < |logs| && logs[i].studentId == sid
    ensures forall sid :: sid in m ==> LatestStatus(logs, sid) == Some(m[sid])
    ensures InsideOf(m) == InsideIds(logs)
  {
    m := map[];
    for i := 0 to |logs|
      invariant forall sid :: sid in m <==> exists k :: 0 <= k < i && logs[k].studentId == sid
      invariant forall sid :: sid in m ==> LatestStatus(logs[..i], sid) == Some(m[sid])
    {
      var l := logs[i];
      assert logs[..i + 1] == logs[..i] + [l];
      forall sid | sid in m || sid == l.studentId
        ensures LatestStatus(logs[..i + 1], sid) == Some(m[l.studentId := l.status][sid])
      {
        Seqs.LastWhereSnoc(logs[..i], l, OfStudent(sid));
      }
      m := m[l.studentId := l.status];
    }
    assert logs[..|logs|] == logs;
    forall sid | LatestStatus(logs, sid) == Some(In) ensures sid in m {
      var l := LastLogOf(logs, sid).value;
      assert l in logs;
    }
  }

  /** The students a status map marks In. */
  function InsideOf(m: map<int, Presence>): (r: set<int>)
    ensures forall sid :: sid in r <==> sid in m && m[sid] == In
  {
    set sid | sid in m && m[sid] == In
  }

  /** The students whose last record in `logs` is an In record. */
  function InsideIds(logs: seq<Log>): (r: set<int>)
    ensures forall sid :: sid in r <==> LatestStatus(logs, sid) == Some(In)
  {
    var r := set l | l in logs && LatestStatus(logs, l.studentId) == Some(In) :: l.studentId;
    assert forall sid :: LatestStatus(logs, sid) == Some(In) ==> LastLogOf(logs, sid).value in logs;
    r
  }

  /** The date-index window the pages read: records dated after local
      midnight of `now`. */
  function TodaysLogs(att: seq<Log>, now: int, tz: int): (r: seq<Log>)
    ensures DateOrdered(r)
    ensures forall l :: l in r <==> l in att && l.date > LocalMidnight(now, tz)
  {
    LogsAbove(att, DateKey(LocalMidnight(now, tz)))
  }

  /** The latest record (by date, then key) of `sid` among those dated after `midnight`. */
  ghost predicate IsLatestSince(att: seq<Log>, midnight: int, l: Log)
  {
    && l in att && l.date > midnight
    && forall x :: x in att && x.studentId == l.studentId && x.date > midnight ==> !Before(l, x)
  }

  /** The last record of a student, read along the date index from `midnight`, is
      that student's latest record since midnight. */
  lemma LastOfTodayIsLatest(att: seq<Log>, midnight: int, sid: int)
    requires LastLogOf(LogsAbove(att, DateKey(midnight)), sid).Some?
    ensures var m := LastLogOf(LogsAbove(att, DateKey(midnight)), sid).value;
            IsLatestSince(att, midnight, m) && m.studentId == sid
  {
    var today := LogsAbove(att, DateKey(midnight));
    var k := Seqs.LastIndex(today, OfStudent(sid));
    var m := today[k];
    assert m in today;
    forall x | x in att && x.studentId == sid && x.date > midnight ensures !Before(m, x) {
      assert KeyLess(DateKey(midnight), DateKey(x.date));
      assert x in today;
      var j :| 0 <= j < |today| && today[j] == x;
      assert OfStudent(sid)(today[j]);
      assert j <= k;
      NotBeforeEarlier(today, j, k);
    }
  }

  lemma NotBeforeEarlier(s: seq<Log>, j: int, k: int)
    requires DateOrdered(s) && 0 <= j <= k < |s|
    ensures !Before(s[k], s[j])
  {
  }

  /** Record keys are unique, so a student has at most one latest record since midnight. */
  lemma LatestSinceUnique(att: seq<Log>, midnight: int, a: Log, b: Log)
    requires Keys.Increasing(att, LogKey)
    requires IsLatestSince(att, midnight, a) && IsLatestSince(att, midnight, b)
    requires a.studentId == b.studentId
    ensures a == b
  {
    assert !Before(a, b) && !Before(b, a);
    var i :| 0 <= i < |att| && att[i] == a;
    var j :| 0 <= j < |att| && att[j] == b;
    assert i == j;
  }

  /** A student is marked In by the status map built from the records since midnight
      exactly when that student's latest record since midnight is an In record. */
  lemma InsideIffLatestIn(att: seq<Log>, midnight: int, sid: int)
    requires Keys.Increasing(att, LogKey)
    ensures LatestStatus(LogsAbove(att, DateKey(midnight)), sid) == Some(In) <==>
            exists l :: IsLatestSince(att, midnight, l) && l.studentId == sid && l.status == In
  {
    var today := LogsAbove(att, DateKey(midnight));
    if LastLogOf(today, sid).Some? {
      LastOfTodayIsLatest(att, midnight, sid);
      var m := LastLogOf(today, sid).value;
      forall l | IsLatestSince(att, midnight, l) && l.studentId == sid ensures l == m {
        LatestSinceUnique(att, midnight, l, m);
      }
    }
  }
}
