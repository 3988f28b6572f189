/** The local record store: five tables with store-assigned, auto-incrementing integer
    primary keys (`++id`), the attendance table's date index, and the seed room written
    when the store is first created. */
module Db {
  import opened Wrappers
  import opened JsValues
  import Keys
  import Seqs

  datatype Presence = In | Out
  datatype SeatType = Reserved | General
  datatype TxnType = Income | Expense

  /** A member. `shift` is "" when the record has none; `roomId`/`seatNo` are nullable. */
  datatype Student = Student(
    id: int, name: string, mobile: string, status: string, seatType: SeatType,
    roomId: Option<int>, seatNo: Option<int>, shift: string,
    startTime: string, endTime: string, admissionDate: int)

  datatype Room = Room(id: int, name: string, capacity: int, rows: int, cols: int)

  /** One attendance event; `inTime` is set for an In record, `outTime` for an Out one. */
  datatype Log = Log(
    id: int, studentId: int, date: int, status: Presence,
    inTime: Option<int>, outTime: Option<int>)

  datatype Txn = Txn(
    id: int, txnType: TxnType, category: string, amount: string, date: int,
    studentId: Option<int>, description: string)

  datatype Setting = Setting(id: int, key: string, value: string)

  function StudentKey(s: Student): int { s.id }
  function RoomKey(r: Room): int { r.id }
  function LogKey(l: Log): int { l.id }
  function TxnKey(t: Txn): int { t.id }
  function SettingKey(s: Setting): int { s.id }

  /** The keys the modelled range queries compare: numbers and dates. */
  datatype IdbKey = NumberKey(n: int) | DateKey(ms: int)

  /** IndexedDB's key order: numbers by value, dates by time, and every date after
      every number. */
  predicate KeyLess(a: IdbKey, b: IdbKey)
  {
    match (a, b)
    case (NumberKey(x), NumberKey(y)) => x < y
    case (DateKey(x), DateKey(y)) => x < y
    case (NumberKey(_), DateKey(_)) => true
    case (DateKey(_), NumberKey(_)) => false
  }

  /** Order of the date index: by date, then by primary key. */
  predicate Before(a: Log, b: Log)
  {
    a.date < b.date || (a.date == b.date && a.id < b.id)
  }

  predicate DateOrdered(s: seq<Log>)
  {
    forall i, j :: 0 <= i < j < |s| ==> !Before(s[j], s[i])
  }

  function InsertByDate(x: Log, s: seq<Log>): (r: seq<Log>)
    requires DateOrdered(s)
    ensures DateOrdered(r)
    ensures multiset(r) == multiset(s) + multiset{x}
  {
    if s == [] then [x]
    else if !Before(s[0], x) then [x] + s
    else
      var t := InsertByDate(x, s[1..]);
      InsertByDateHead(x, s, t);
      [s[0]] + t
  }

  lemma InsertByDateHead(x: Log, s: seq<Log>, t: seq<Log>)
    requires DateOrdered(s) && |s| > 0 && Before(s[0], x)
    requires DateOrdered(t) && multiset(t) == multiset(s[1..]) + multiset{x}
    ensures DateOrdered([s[0]] + t)
    ensures multiset([s[0]] + t) == multiset(s) + multiset{x}
  {
    forall i | 0 <= i < |t| ensures !Before(t[i], s[0]) {
      assert t[i] in multiset(t);
      if t[i] != x {
        assert t[i] in multiset(s[1..]);
        var j :| 0 <= j < |s[1..]| && s[1..][j] == t[i];
        assert s[j + 1] == t[i];
      }
    }
    assert s == [s[0]] + s[1..];
  }

  function SortByDate(s: seq<Log>): (r: seq<Log>)
    ensures DateOrdered(r)
    ensures multiset(r) == multiset(s)
  {
    if s == [] then []
    else
      assert s == [s[0]] + s[1..];
      InsertByDate(s[0], SortByDate(s[1..]))
  }

  /** `attendance.where('date').above(bound).toArray()`: the records whose date key is
      above `bound`, in date-index order. */
  function LogsAbove(att: seq<Log>, bound: IdbKey): (r: seq<Log>)
    ensures DateOrdered(r)
    ensures forall l :: l in r <==> l in att && KeyLess(bound, DateKey(l.date))
  {
    var picked := Seqs.Filter(att, (l: Log) => KeyLess(bound, DateKey(l.date)));
    var r := SortByDate(picked);
    assert forall l :: l in r <==> l in multiset(picked);
    r
  }

  /** The store. Each table is kept in ascending primary-key order (what `toArray()`
      returns); each `next...` field is that table's key generator. */
  class Library {
    var students: seq<Student>
    var rooms: seq<Room>
    var attendance: seq<Log>
    var finance: seq<Txn>
    var settings: seq<Setting>
    var nextStudentId: int
    var nextRoomId: int
    var nextLogId: int
    var nextTxnId: int
    var nextSettingId: int

    /** Every primary key is unique, the tables are in key order, and every key is
        below its generator, so the next generated key is new. */
    ghost predicate Valid()
      reads this
    {
      StudentsValid() && RoomsValid() && LogsValid() && TxnsValid() && SettingsValid()
    }

    ghost predicate StudentsValid()
      reads this`students, this`nextStudentId
    {
      Keys.Increasing(students, StudentKey) && Keys.AllBelow(students, StudentKey, nextStudentId)
    }

    ghost predicate RoomsValid()
      reads this`rooms, this`nextRoomId
    {
      Keys.Increasing(rooms, RoomKey) && Keys.AllBelow(rooms, RoomKey, nextRoomId)
    }

    ghost predicate LogsValid()
      reads this`attendance, this`nextLogId
    {
      Keys.Increasing(attendance, LogKey) && Keys.AllBelow(attendance, LogKey, nextLogId)
    }

    ghost predicate TxnsValid()
      reads this`finance, this`nextTxnId
    {
      Keys.Increasing(finance, TxnKey) && Keys.AllBelow(finance, TxnKey, nextTxnId)
    }

    ghost predicate SettingsValid()
      reads this`settings, this`nextSettingId
    {
      Keys.Increasing(settings, SettingKey) && Keys.AllBelow(settings, SettingKey, nextSettingId)
    }

    /** The store's first creation: every key generator starts at 1 and the `populate`
        handler adds the single room 'Main Hall' (50 seats, 10 rows of 5). */
    constructor Populate()
      ensures Valid()
      ensures students == [] && attendance == [] && finance == [] && settings == []
      ensures rooms == [Room(1, "Main Hall", 50, 10, 5)]
      ensures nextStudentId == 1 && nextLogId == 1 && nextTxnId == 1 && nextSettingId == 1
      ensures nextRoomId == 2
    {
      students, attendance, finance, settings := [], [], [], [];
      rooms := [Room(1, "Main Hall", 50, 10, 5)];
      nextStudentId, nextRoomId, nextLogId, nextTxnId, nextSettingId := 1, 2, 1, 1, 1;
    }

    /** `students.add(s)`: the record gets the generator's key, new to the table. */
    method AddStudent(s: Student) returns (id: int)
      requires Valid()
      modifies this`students, this`nextStudentId
      ensures Valid()
      ensures id == old(nextStudentId) && nextStudentId == id + 1
      ensures students == old(students) + [s.(id := id)]
      ensures forall i :: 0 <= i < |old(students)| ==> old(students)[i].id != id
    {
      id := nextStudentId;
      Keys.AppendKeepsOrder(students, StudentKey, s.(id := id), id);
      students := students + [s.(id := id)];
      nextStudentId := id + 1;
    }

    method AddRoom(r: Room) returns (id: int)
      requires Valid()
      modifies this`rooms, this`nextRoomId
      ensures Valid()
      ensures id == old(nextRoomId) && nextRoomId == id + 1
      ensures rooms == old(rooms) + [r.(id := id)]
      ensures forall i :: 0 <= i < |old(rooms)| ==> old(rooms)[i].id != id
    {
      id := nextRoomId;
      Keys.AppendKeepsOrder(rooms, RoomKey, r.(id := id), id);
      rooms := rooms + [r.(id := id)];
      nextRoomId := id + 1;
    }

    method AddLog(l: Log) returns (id: int)
      requires Valid()
      modifies this`attendance, this`nextLogId
      ensures Valid()
      ensures id == old(nextLogId) && nextLogId == id + 1
      ensures attendance == old(attendance) + [l.(id := id)]
      ensures forall i :: 0 <= i < |old(attendance)| ==> old(attendance)[i].id != id
    {
      id := nextLogId;
      Keys.AppendKeepsOrder(attendance, LogKey, l.(id := id), id);
      attendance := attendance + [l.(id := id)];
      nextLogId := id + 1;
    }

    method AddTxn(t: Txn) returns (id: int)
      requires Valid()
      modifies this`finance, this`nextTxnId
      ensures Valid()
      ensures id == old(nextTxnId) && nextTxnId == id + 1
      ensures finance == old(finance) + [t.(id := id)]
      ensures forall i :: 0 <= i < |old(finance)| ==> old(finance)[i].id != id
    {
      id := nextTxnId;
      Keys.AppendKeepsOrder(finance, TxnKey, t.(id := id), id);
      finance := finance + [t.(id := id)];
      nextTxnId := id + 1;
    }

    method AddSetting(s: Setting) returns (id: int)
      requires Valid()
      modifies this`settings, this`nextSettingId
      ensures Valid()
      ensures id == old(nextSettingId) && nextSettingId == id + 1
      ensures settings == old(settings) + [s.(id := id)]
      ensures forall i :: 0 <= i < |old(settings)| ==> old(settings)[i].id != id
    {
      id := nextSettingId;
      Keys.AppendKeepsOrder(settings, SettingKey, s.(id := id), id);
      settings := settings + [s.(id := id)];
      nextSettingId := id + 1;
    }

    /** `students.update(s.id, ...)` with the changes already merged into `s`; a key
        that is not in the table changes nothing. */
    method UpdateStudent(s: Student)
      requires Valid()
      modifies this`students
      ensures Valid()
      ensures students == Keys.Replace(old(students), StudentKey, s)
    {
      Keys.ReplaceKeepsOrder(students, StudentKey, s, nextStudentId);
      students := Keys.Replace(students, StudentKey, s);
    }

    method UpdateSetting(s: Setting)
      requires Valid()
      modifies this`settings
      ensures Valid()
      ensures settings == Keys.Replace(old(settings), SettingKey, s)
    {
      Keys.ReplaceKeepsOrder(settings, SettingKey, s, nextSettingId);
      settings := Keys.Replace(settings, SettingKey, s);
    }

    /** `settings.put(s)` with an explicit key: replace or insert, and raise the
        generator past the key. */
    method PutSetting(s: Setting)
      requires Valid()
      modifies this`settings, this`nextSettingId
      ensures Valid()
      ensures settings == Keys.Put(old(settings), SettingKey, s)
      ensures nextSettingId == if s.id + 1 > old(nextSettingId) then s.id + 1 else old(nextSettingId)
    {
      var r := Keys.Put(settings, SettingKey, s);
      nextSettingId := if s.id + 1 > nextSettingId then s.id + 1 else nextSettingId;
      settings := r;
    }

    /** `clear()` on all five tables; the key generators are not reset. */
    method ClearAll()
      modifies this`students, this`rooms, this`finance, this`attendance, this`settings
      ensures students == [] && rooms == [] && finance == [] && attendance == [] && settings == []
    {
      students, rooms, finance, attendance, settings := [], [], [], [], [];
    }

    /** `bulkAdd` of records with explicit keys into a cleared table: the table holds
        them in key order and the generator is raised past them, never lowered. */
    method BulkAddStudents(ss: seq<Student>)
      requires students == [] && Keys.Increasing(ss, StudentKey)
      modifies this`students, this`nextStudentId
      ensures StudentsValid()
      ensures students == ss && nextStudentId >= old(nextStudentId)
    {
      nextStudentId := Keys.RaiseGenerator(nextStudentId, ss, StudentKey);
      students := ss;
    }

    method BulkAddRooms(rs: seq<Room>)
      requires rooms == [] && Keys.Increasing(rs, RoomKey)
      modifies this`rooms, this`nextRoomId
      ensures RoomsValid()
      ensures rooms == rs && nextRoomId >= old(nextRoomId)
    {
      nextRoomId := Keys.RaiseGenerator(nextRoomId, rs, RoomKey);
      rooms := rs;
    }

    method BulkAddTxns(fs: seq<Txn>)
      requires finance == [] && Keys.Increasing(fs, TxnKey)
      modifies this`finance, this`nextTxnId
      ensures TxnsValid()
      ensures finance == fs && nextTxnId >= old(nextTxnId)
    {
      nextTxnId := Keys.RaiseGenerator(nextTxnId, fs, TxnKey);
      finance := fs;
    }

    method BulkAddLogs(ls: seq<Log>)
      requires attendance == [] && Keys.Increasing(ls, LogKey)
      modifies this`attendance, this`nextLogId
      ensures LogsValid()
      ensures attendance == ls && nextLogId >= old(nextLogId)
    {
      nextLogId := Keys.RaiseGenerator(nextLogId, ls, LogKey);
      attendance := ls;
    }

    method BulkAddSettings(es: seq<Setting>)
      requires settings == [] && Keys.Increasing(es, SettingKey)
      modifies this`settings, this`nextSettingId
      ensures SettingsValid()
      ensures settings == es && nextSettingId >= old(nextSettingId)
    {
      nextSettingId := Keys.RaiseGenerator(nextSettingId, es, SettingKey);
      settings := es;
    }

    /** Restoring: clear every table, then `bulkAdd` each one's records. */
    method ReplaceAll(ss: seq<Student>, rs: seq<Room>, fs: seq<Txn>, ls: seq<Log>, es: seq<Setting>)
      requires Keys.Increasing(ss, StudentKey) && Keys.Increasing(rs, RoomKey) && Keys.Increasing(fs, TxnKey)
      requires Keys.Increasing(ls, LogKey) && Keys.Increasing(es, SettingKey)
      modifies this
      ensures Valid()
      ensures students == ss && rooms == rs && finance == fs && attendance == ls && settings == es
      ensures nextStudentId >= old(nextStudentId) && nextRoomId >= old(nextRoomId) && nextTxnId >= old(nextTxnId)
      ensures nextLogId >= old(nextLogId) && nextSettingId >= old(nextSettingId)
    {
      ClearAll();
      BulkAddStudents(ss);
      BulkAddRooms(rs);
      BulkAddTxns(fs);
      BulkAddLogs(ls);
      BulkAddSettings(es);
    }

    method DeleteStudent(id: int)
      requires Valid()
      modifies this`students
      ensures Valid()
      ensures students == Seqs.Filter(old(students), (s: Student) => s.id != id)
    {
      Keys.FilterKeepsOrder(students, StudentKey, (s: Student) => s.id != id, nextStudentId);
      students := Seqs.Filter(students, (s: Student) => s.id != id);
    }

    method DeleteRoom(id: int)
      requires Valid()
      modifies this`rooms
      ensures Valid()
      ensures rooms == Seqs.Filter(old(rooms), (r: Room) => r.id != id)
    {
      Keys.FilterKeepsOrder(rooms, RoomKey, (r: Room) => r.id != id, nextRoomId);
      rooms := Seqs.Filter(rooms, (r: Room) => r.id != id);
    }

    /** `attendance.where('studentId').equals(sid).delete()`. */
    method DeleteLogsOf(sid: int)
      requires Valid()
      modifies this`attendance
      ensures Valid()
      ensures attendance == Seqs.Filter(old(attendance), (l: Log) => l.studentId != sid)
    {
      Keys.FilterKeepsOrder(attendance, LogKey, (l: Log) => l.studentId != sid, nextLogId);
      attendance := Seqs.Filter(attendance, (l: Log) => l.studentId != sid);
    }

    /** `finance.where('studentId').equals(sid).delete()`. */
    method DeleteTxnsOf(sid: int)
      requires Valid()
      modifies this`finance
      ensures Valid()
      ensures finance == Seqs.Filter(old(finance), (t: Txn) => t.studentId != Some(sid))
    {
      Keys.FilterKeepsOrder(finance, TxnKey, (t: Txn) => t.studentId != Some(sid), nextTxnId);
      finance := Seqs.Filter(finance, (t: Txn) => t.studentId != Some(sid));
    }
  }

  /** The index of the first settings entry named `key`, or -1. */
  function NamedIndex(s: seq<Setting>, key: string): (k: int)
    ensures -1 <= k < |s|
    ensures k == -1 <==> forall i :: 0 <= i < |s| ==> s[i].key != key
    ensures k >= 0 ==> s[k].key == key && forall j :: 0 <= j < k ==> s[j].key != key
  {
    if s == [] then -1
    else if s[0].key == key then 0
    else
      var k := NamedIndex(s[1..], key);
      if k == -1 then -1 else k + 1
  }

  /** The settings entry named `key` that `settings.find(s => s.key === key)` and the
      'key' index's `.first()` return: the first in primary-key order. */
  function SettingNamed(s: seq<Setting>, key: string): (r: Option<Setting>)
    ensures r.None? <==> forall i :: 0 <= i < |s| ==> s[i].key != key
    ensures r.Some? ==> r.value in s && r.value.key == key
  {
    var k := NamedIndex(s, key);
    if k == -1 then None else Some(s[k])
  }

  /** The entry at the first index named `key` is the one found. */
  lemma FirstNamedAt(s: seq<Setting>, key: string, k: int)
    requires 0 <= k < |s| && s[k].key == key
    requires forall j :: 0 <= j < k ==> s[j].key != key
    ensures NamedIndex(s, key) == k
    ensures SettingNamed(s, key) == Some(s[k])
  {
    var i := NamedIndex(s, key);
    assert i != -1;
  }

  /** `rooms.find(r => r.id === id)?.name || fallback`, where the room list may still be
      loading (None) and the id may be null. */
  function RoomNameOr(rooms: Option<seq<Room>>, id: Option<int>, fallback: string): (r: string)
    ensures rooms.Some? && id.Some? && Keys.Find(rooms.value, RoomKey, id.value).Some?
            && Keys.Find(rooms.value, RoomKey, id.value).value.name != ""
            ==> r == Keys.Find(rooms.value, RoomKey, id.value).value.name
    ensures rooms.Some? && id.Some? && Keys.Find(rooms.value, RoomKey, id.value).Some?
            && Keys.Find(rooms.value, RoomKey, id.value).value.name == ""
            ==> r == fallback
    ensures rooms.None? || id.None? || (forall i :: 0 <= i < |rooms.value| ==> rooms.value[i].id != id.value)
            ==> r == fallback
  {
    if rooms.None? || id.None? then fallback
    else
      match Keys.Find(rooms.value, RoomKey, id.value)
      case None => fallback
      case Some(room) => if room.name != "" then room.name else fallback
  }
}
