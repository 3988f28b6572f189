/** The configuration page: the library profile saved under fixed settings keys, adding
    and deleting rooms, and restoring every table from a backup. */
module Settings {
  import opened Wrappers
  import opened JsValues
  import opened Db
  import Keys
  import Seqs

  /** Every new room is laid out five seats to a row. */
  const RoomCols := 5

  /** `Math.ceil(cap / 5)`: the fewest rows of five that hold `cap` seats. */
  function RoomRows(cap: int): (rows: int)
    ensures rows * RoomCols >= cap
    ensures (rows - 1) * RoomCols < cap
  {
    -((-cap) / RoomCols)
  }

  /** A positive capacity needs at least one row, and the seed room's 50 seats fill
      exactly 10 rows. */
  lemma RoomRowsExamples(cap: int)
    ensures cap > 0 ==> RoomRows(cap) >= 1
    ensures RoomRows(50) == 10 && RoomRows(51) == 11
  {
  }

  /** The add-room form, as typed. */
  datatype RoomForm = RoomForm(name: string, capacity: string)

  /** The room `handleAddRoom` adds (its id is assigned by the store), or `None` when the
      name or the capacity is empty. A capacity without leading digits is stored as 0. */
  function NewRoom(f: RoomForm): (r: Option<Room>)
    ensures r.None? <==> f.name == "" || f.capacity == ""
    ensures r.Some? ==> r.value.name == f.name && r.value.cols == RoomCols
                        && r.value.rows * r.value.cols >= r.value.capacity
                        && (r.value.rows - 1) * r.value.cols < r.value.capacity
    ensures r.Some? && ParseInt(f.capacity).Some? ==> r.value.capacity == ParseInt(f.capacity).value
  {
    if f.name == "" || f.capacity == "" then None
    else
      var cap := match ParseInt(f.capacity) case Some(n) => n case None => 0;
      Some(Room(0, f.name, cap, RoomRows(cap), RoomCols))
  }

  /** A capacity typed as a decimal number gives a room of that many seats. */
  lemma NewRoomFromTypedCapacity(name: string, cap: int)
    requires name != ""
    ensures NewRoom(RoomForm(name, ShowInt(cap))).Some?
    ensures NewRoom(RoomForm(name, ShowInt(cap))).value.capacity == cap
  {
    ParseIntRoundTrip(cap);
  }

  method HandleAddRoom(db: Library, f: RoomForm) returns (added: bool)
    requires db.Valid()
    modifies db`rooms, db`nextRoomId
    ensures db.Valid()
    ensures added <==> NewRoom(f).Some?
    ensures !added ==> db.rooms == old(db.rooms) && db.nextRoomId == old(db.nextRoomId)
    ensures added ==> db.rooms == old(db.rooms) + [NewRoom(f).value.(id := old(db.nextRoomId))]
                      && db.nextRoomId == old(db.nextRoomId) + 1
  {
    var r := NewRoom(f);
    if r.None? {
      return false;
    }
    var _ := db.AddRoom(r.value);
    return true;
  }

  /** `handleDeleteRoom`: on confirmation only the room with that id goes; students
      that reference it keep their room and seat. */
  method HandleDeleteRoom(db: Library, id: int, confirmed: bool)
    requires db.Valid()
    modifies db`rooms
    ensures db.Valid()
    ensures !confirmed ==> db.rooms == old(db.rooms)
    ensures confirmed ==> db.rooms == Seqs.Filter(old(db.rooms), (r: Room) => r.id != id)
    ensures confirmed ==> forall r :: r in db.rooms <==> r in old(db.rooms) && r.id != id
    ensures db.students == old(db.students)
  {
    if confirmed {
      db.DeleteRoom(id);
    }
  }

  /** The two entries the profile form writes, at fixed ids 1 and 2. */
  function NameEntry(libName: string): Setting { Setting(1, "libraryName", libName) }
  function AddressEntry(libAddress: string): Setting { Setting(2, "libraryAddress", libAddress) }

  /** The settings table after `handleSaveProfile`'s two `put`s. */
  function ProfileSaved(s: seq<Setting>, libName: string, libAddress: string): (r: seq<Setting>)
    requires Keys.Increasing(s, SettingKey)
    ensures Keys.Increasing(r, SettingKey)
    ensures NameEntry(libName) in r && AddressEntry(libAddress) in r
    ensures forall i :: 0 <= i < |s| && s[i].id != 1 && s[i].id != 2 ==> s[i] in r
    ensures forall i :: 0 <= i < |r| ==>
              (r[i] == NameEntry(libName) || r[i] == AddressEntry(libAddress) || (r[i] in s && r[i].id != 1 && r[i].id != 2))
  {
    var t := Keys.Put(s, SettingKey, NameEntry(libName));
    Keys.Put(t, SettingKey, AddressEntry(libAddress))
  }

  /** Saving the same profile twice leaves the table as saving it once, so there is
      still one entry at each of the two ids. */
  lemma SaveProfileIdempotent(s: seq<Setting>, libName: string, libAddress: string)
    requires Keys.Increasing(s, SettingKey)
    ensures ProfileSaved(ProfileSaved(s, libName, libAddress), libName, libAddress) == ProfileSaved(s, libName, libAddress)
  {
    var r := ProfileSaved(s, libName, libAddress);
    Keys.PutPresent(r, SettingKey, NameEntry(libName));
    Keys.PutPresent(r, SettingKey, AddressEntry(libAddress));
  }

  /** `getValue(key)`: the first entry's value, or '' (also while loading). */
  function GetValue(settings: Option<seq<Setting>>, key: string): (r: string)
    ensures settings.None? || SettingNamed(settings.value, key).None? ==> r == ""
    ensures settings.Some? && SettingNamed(settings.value, key).Some? ==> r == SettingNamed(settings.value, key).value.value
  {
    if settings.None? then ""
    else match SettingNamed(settings.value, key)
      case Some(e) => e.value
      case None => ""
  }

  /** An entry that is the only one under its name is the one found. */
  lemma OnlyNamed(r: seq<Setting>, key: string, x: Setting)
    requires x in r && x.key == key
    requires forall i :: 0 <= i < |r| && r[i].key == key ==> r[i] == x
    ensures SettingNamed(r, key) == Some(x)
  {
  }

  /** When nothing else is named 'libraryName' or 'libraryAddress', the form shows the
      saved profile back. */
  lemma SavedProfileShown(s: seq<Setting>, libName: string, libAddress: string)
    requires Keys.Increasing(s, SettingKey)
    requires forall i :: 0 <= i < |s| && s[i].key == "libraryName" ==> s[i].id == 1
    requires forall i :: 0 <= i < |s| && s[i].key == "libraryAddress" ==> s[i].id == 2
    ensures GetValue(Some(ProfileSaved(s, libName, libAddress)), "libraryName") == libName
    ensures GetValue(Some(ProfileSaved(s, libName, libAddress)), "libraryAddress") == libAddress
  {
    var r := ProfileSaved(s, libName, libAddress);
    var n, a := NameEntry(libName), AddressEntry(libAddress);
    assert n.key != a.key;
    assert forall i :: 0 <= i < |r| && r[i].key == n.key ==> r[i] == n;
    OnlyNamed(r, n.key, n);
    assert forall i :: 0 <= i < |r| && r[i].key == a.key ==> r[i] == a;
    OnlyNamed(r, a.key, a);
  }

  method HandleSaveProfile(db: Library, libName: string, libAddress: string)
    requires db.Valid()
    modifies db`settings, db`nextSettingId
    ensures db.Valid()
    ensures db.settings == ProfileSaved(old(db.settings), libName, libAddress)
    ensures db.nextSettingId == if old(db.nextSettingId) > 3 then old(db.nextSettingId) else 3
  {
    db.PutSetting(NameEntry(libName));
    db.PutSetting(AddressEntry(libAddress));
  }

  /** A parsed backup file; a table missing from it is `None`. */
  datatype Backup = Backup(
    students: Option<seq<Student>>, rooms: Option<seq<Room>>, finance: Option<seq<Txn>>,
    attendance: Option<seq<Log>>, settings: Option<seq<Setting>>)

  function OrEmpty<T>(o: Option<seq<T>>): (r: seq<T>)
    ensures o.None? ==> r == []
    ensures o.Some? ==> r == o.value
  {
    if o.Some? then o.value else []
  }

  /** The backup can be added to cleared tables: no table repeats a primary key. (A
      repeated key makes `bulkAdd` fail and the transaction roll back.) */
  predicate Restorable(b: Backup)
  {
    && Keys.Distinct(OrEmpty(b.students), StudentKey)
    && Keys.Distinct(OrEmpty(b.rooms), RoomKey)
    && Keys.Distinct(OrEmpty(b.finance), TxnKey)
    && Keys.Distinct(OrEmpty(b.attendance), LogKey)
    && Keys.Distinct(OrEmpty(b.settings), SettingKey)
  }

  /** The five tables a restore writes. */
  datatype Tables = Tables(
    students: seq<Student>, rooms: seq<Room>, finance: seq<Txn>, attendance: seq<Log>,
    settings: seq<Setting>)

  /** The tables after clearing and adding the backup's records: each holds exactly the
      backup's records in key order, a table the backup lacks is empty, and a repeated
      key anywhere fails the whole restore. */
  function Restored(b: Backup): (r: Option<Tables>)
    ensures r.Some? <==> Restorable(b)
    ensures r.Some? ==>
            && Keys.Increasing(r.value.students, StudentKey) && Keys.Increasing(r.value.rooms, RoomKey)
            && Keys.Increasing(r.value.finance, TxnKey) && Keys.Increasing(r.value.attendance, LogKey)
            && Keys.Increasing(r.value.settings, SettingKey)
    ensures r.Some? ==>
            && multiset(r.value.students) == multiset(OrEmpty(b.students))
            && multiset(r.value.rooms) == multiset(OrEmpty(b.rooms))
            && multiset(r.value.finance) == multiset(OrEmpty(b.finance))
            && multiset(r.value.attendance) == multiset(OrEmpty(b.attendance))
            && multiset(r.value.settings) == multiset(OrEmpty(b.settings))
  {
    var ss := Keys.SortUnique(OrEmpty(b.students), StudentKey);
    var rs := Keys.SortUnique(OrEmpty(b.rooms), RoomKey);
    var fs := Keys.SortUnique(OrEmpty(b.finance), TxnKey);
    var ls := Keys.SortUnique(OrEmpty(b.attendance), LogKey);
    var es := Keys.SortUnique(OrEmpty(b.settings), SettingKey);
    if ss.None? || rs.None? || fs.None? || ls.None? || es.None? then None
    else Some(Tables(ss.value, rs.value, fs.value, ls.value, es.value))
  }

  /** A table missing from the backup ends empty. */
  lemma MissingTableEndsEmpty(b: Backup)
    requires Restorable(b)
    ensures b.students.None? ==> Restored(b).value.students == []
    ensures b.rooms.None? ==> Restored(b).value.rooms == []
    ensures b.finance.None? ==> Restored(b).value.finance == []
    ensures b.attendance.None? ==> Restored(b).value.attendance == []
    ensures b.settings.None? ==> Restored(b).value.settings == []
  {
    var t := Restored(b).value;
    assert |t.students| == |multiset(t.students)|;
    assert |t.rooms| == |multiset(t.rooms)|;
    assert |t.finance| == |multiset(t.finance)|;
    assert |t.attendance| == |multiset(t.attendance)|;
    assert |t.settings| == |multiset(t.settings)|;
  }

  /** `handleRestore`: with a file chosen and the overwrite confirmed, clear all five
      tables and add the backup's records in one transaction; if the transaction fails
      nothing changes. */
  method HandleRestore(db: Library, file: Option<Backup>, confirmed: bool) returns (restored: bool)
    requires db.Valid()
    modifies db
    ensures db.Valid()
    ensures restored <==> file.Some? && confirmed && Restored(file.value).Some?
    ensures !restored ==> db.students == old(db.students) && db.rooms == old(db.rooms)
                          && db.finance == old(db.finance) && db.attendance == old(db.attendance)
                          && db.settings == old(db.settings)
    ensures !restored ==> db.nextStudentId == old(db.nextStudentId) && db.nextRoomId == old(db.nextRoomId)
                          && db.nextTxnId == old(db.nextTxnId) && db.nextLogId == old(db.nextLogId)
                          && db.nextSettingId == old(db.nextSettingId)
    ensures restored ==> Tables(db.students, db.rooms, db.finance, db.attendance, db.settings) == Restored(file.value).value
    ensures restored ==> db.nextStudentId >= old(db.nextStudentId) && db.nextRoomId >= old(db.nextRoomId)
                         && db.nextTxnId >= old(db.nextTxnId) && db.nextLogId >= old(db.nextLogId)
                         && db.nextSettingId >= old(db.nextSettingId)
  {
    if file.None? || !confirmed {
      return false;
    }
    var t := Restored(file.value);
    if t.None? {
      return false;
    }
    var r := t.value;
    db.ReplaceAll(r.students, r.rooms, r.finance, r.attendance, r.settings);
    return true;
  }
}
