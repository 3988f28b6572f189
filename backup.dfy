/** The backup utility's bookkeeping: after the export it records today's date under
    'lastBackupDate', and the unlock handler uses that entry to run at most one automatic
    backup a day. */
module Backup {
  import opened Wrappers
  import opened Db
  import Keys

  const LastBackupKey := "lastBackupDate"
  const AutoBackupKey := "autoBackup"

  /** The settings table after the upsert: the first entry named 'lastBackupDate' gets
      today's date string in place, or, when there is none, one entry is added under the
      next generated key. */
  function WithLastBackup(s: seq<Setting>, next: int, today: string): (r: seq<Setting>)
    requires Keys.Increasing(s, SettingKey) && Keys.AllBelow(s, SettingKey, next)
    ensures Keys.Increasing(r, SettingKey)
    ensures SettingNamed(r, LastBackupKey).Some? && SettingNamed(r, LastBackupKey).value.value == today
    ensures SettingNamed(s, LastBackupKey).Some? ==> |r| == |s|
    ensures SettingNamed(s, LastBackupKey).None? ==> r == s + [Setting(next, LastBackupKey, today)]
    ensures |s| <= |r|
    ensures SettingNamed(s, LastBackupKey).Some? ==>
              forall i :: 0 <= i < |s| ==>
                r[i] == (if i == NamedIndex(s, LastBackupKey) then s[i].(value := today) else s[i])
  {
    match SettingNamed(s, LastBackupKey)
    case None =>
      FirstNamedAt(s + [Setting(next, LastBackupKey, today)], LastBackupKey, |s|);
      s + [Setting(next, LastBackupKey, today)]
    case Some(e) =>
      UpdateInPlace(s, next, e, today);
      Keys.Replace(s, SettingKey, e.(value := today))
  }

  /** Updating the entry found, by its key, changes that entry's value and nothing else. */
  lemma UpdateInPlace(s: seq<Setting>, next: int, e: Setting, today: string)
    requires Keys.Increasing(s, SettingKey) && Keys.AllBelow(s, SettingKey, next)
    requires SettingNamed(s, LastBackupKey) == Some(e)
    ensures var r := Keys.Replace(s, SettingKey, e.(value := today));
            && Keys.Increasing(r, SettingKey)
            && SettingNamed(r, LastBackupKey) == Some(e.(value := today))
            && forall i :: 0 <= i < |s| ==>
                 r[i] == (if i == NamedIndex(s, LastBackupKey) then s[i].(value := today) else s[i])
  {
    Keys.ReplaceKeepsOrder(s, SettingKey, e.(value := today), next);
    UpdateAt(s, LastBackupKey, e, today, NamedIndex(s, LastBackupKey));
  }

  lemma UpdateAt(s: seq<Setting>, key: string, e: Setting, today: string, k: int)
    requires Keys.Increasing(s, SettingKey)
    requires 0 <= k < |s| && s[k] == e && e.key == key
    requires forall j :: 0 <= j < k ==> s[j].key != key
    ensures var r := Keys.Replace(s, SettingKey, e.(value := today));
            && SettingNamed(r, key) == Some(e.(value := today))
            && forall i :: 0 <= i < |s| ==> r[i] == (if i == k then e.(value := today) else s[i])
  {
    var r := Keys.Replace(s, SettingKey, e.(value := today));
    forall i | 0 <= i < |s| ensures r[i] == (if i == k then e.(value := today) else s[i]) {
      if i != k {
        assert s[i].id != s[k].id;
      }
    }
    FirstNamedAt(r, key, k);
  }

  /** Entries under any other name read back exactly as before. */
  lemma OtherSettingsUnchanged(s: seq<Setting>, next: int, today: string, other: string)
    requires Keys.Increasing(s, SettingKey) && Keys.AllBelow(s, SettingKey, next)
    requires other != LastBackupKey
    ensures SettingNamed(WithLastBackup(s, next, today), other) == SettingNamed(s, other)
  {
    var r := WithLastBackup(s, next, today);
    KeysOutsideBackupKept(s, next, today, other);
    match SettingNamed(s, other)
    case None =>
      assert forall i :: 0 <= i < |r| ==> r[i].key != other;
    case Some(e) =>
      var k := NamedIndex(s, other);
      FirstNamedAt(r, other, k);
  }

  /** Position by position, the upsert keeps every entry named `other` and adds none. */
  lemma KeysOutsideBackupKept(s: seq<Setting>, next: int, today: string, other: string)
    requires Keys.Increasing(s, SettingKey) && Keys.AllBelow(s, SettingKey, next)
    requires other != LastBackupKey
    ensures var r := WithLastBackup(s, next, today);
            forall i :: 0 <= i < |r| ==> (r[i].key == other <==> i < |s| && s[i].key == other)
                                         && (i < |s| && s[i].key == other ==> r[i] == s[i])
  {
    var r := WithLastBackup(s, next, today);
    if SettingNamed(s, LastBackupKey).None? {
      assert r == s + [Setting(next, LastBackupKey, today)];
    } else {
      var b := NamedIndex(s, LastBackupKey);
      assert |r| == |s|;
      assert r[b].key == LastBackupKey;
      assert forall i :: 0 <= i < |s| && i != b ==> r[i] == s[i];
    }
  }

  /** `performBackup`: `exported` is whether building and downloading the file
      succeeded. On failure it returns false with the store unchanged; on success it
      records today's date and returns true. */
  method PerformBackup(db: Library, today: string, exported: bool) returns (ok: bool)
    requires db.Valid()
    modifies db`settings, db`nextSettingId
    ensures db.Valid()
    ensures ok == exported
    ensures !ok ==> db.settings == old(db.settings) && db.nextSettingId == old(db.nextSettingId)
    ensures ok ==> db.settings == WithLastBackup(old(db.settings), old(db.nextSettingId), today)
    ensures ok ==> db.nextSettingId == if SettingNamed(old(db.settings), LastBackupKey).Some? then old(db.nextSettingId)
                                       else old(db.nextSettingId) + 1
  {
    if !exported {
      return false;
    }
    var existing := SettingNamed(db.settings, LastBackupKey);
    if existing.Some? {
      db.UpdateSetting(existing.value.(value := today));
    } else {
      var _ := db.AddSetting(Setting(0, LastBackupKey, today));
    }
    return true;
  }

  /** The unlock handler's test: automatic backup is switched on (the entry reads
      'true') and the last backup was not made today (including never). */
  predicate AutoBackupDue(s: seq<Setting>, today: string)
  {
    && SettingNamed(s, AutoBackupKey).Some? && SettingNamed(s, AutoBackupKey).value.value == "true"
    && !(SettingNamed(s, LastBackupKey).Some? && SettingNamed(s, LastBackupKey).value.value == today)
  }

  /** Once a backup has succeeded today the test is false, so unlocking again the same
      day makes no second backup; the automatic-backup switch itself is untouched. */
  lemma BackupClearsDue(s: seq<Setting>, next: int, today: string)
    requires Keys.Increasing(s, SettingKey) && Keys.AllBelow(s, SettingKey, next)
    ensures !AutoBackupDue(WithLastBackup(s, next, today), today)
    ensures SettingNamed(WithLastBackup(s, next, today), AutoBackupKey) == SettingNamed(s, AutoBackupKey)
  {
    OtherSettingsUnchanged(s, next, today, AutoBackupKey);
  }

  /** `handleUnlock`'s backup check: back up when due. Afterwards the check is false
      unless the export failed. */
  method HandleUnlock(db: Library, today: string, exported: bool) returns (backedUp: bool)
    requires db.Valid()
    modifies db`settings, db`nextSettingId
    ensures db.Valid()
    ensures backedUp <==> AutoBackupDue(old(db.settings), today) && exported
    ensures !backedUp ==> db.settings == old(db.settings) && db.nextSettingId == old(db.nextSettingId)
    ensures backedUp ==> db.settings == WithLastBackup(old(db.settings), old(db.nextSettingId), today)
    ensures backedUp ==> db.nextSettingId == if SettingNamed(old(db.settings), LastBackupKey).Some? then old(db.nextSettingId)
                                             else old(db.nextSettingId) + 1
    ensures exported ==> !AutoBackupDue(db.settings, today)
  {
    backedUp := false;
    if AutoBackupDue(db.settings, today) {
      backedUp := PerformBackup(db, today, exported);
      if backedUp {
        BackupClearsDue(old(db.settings), old(db.nextSettingId), today);
      }
    }
  }
}
