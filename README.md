# Library seat and attendance manager — a Dafny model

The application is a single-page web app for a self-study library. It keeps five tables in
the browser's IndexedDB: students, rooms, attendance records, finance records and settings.
Every table has a store-assigned, auto-incrementing integer key. A QR scanner toggles a
student In or Out. A General (unreserved) student coming in is given the lowest free seat,
trying their preferred room first and then every room in stored order. Going out releases
that seat. The dashboard shows who is inside today and draws a seat grid for the selected
room. Around this sit the admission form, the student list and the profile page, the
configuration page (rooms, library profile, restore), the daily backup record and a PIN
lock screen.

The model has one module per page or utility:

- `Db`: the store. It is a class `Library` with one `seq` per table, kept in key order, and
  one key generator per table. Adding, updating, putting, deleting, clearing and bulk-adding
  are methods that prove the tables stay key-ordered with fresh keys. The attendance date
  index is modelled with IndexedDB's key order, in which every date sorts after every number.
- `Scanner`: `processAttendance`, including the seat allocator and its loops.
- `Occupancy`: the status map built from the day's records, and who is inside.
- `Dashboard`: the live seat grid, the seat classes and the counters.
- `Seating`: the shared seat-map loop.
- `SeatGrid`: the earlier grid that ignores rooms.
- `Students`: fee status, days present, search and seat label.
- `StudentProfile`: save, cascade delete, fee payment and room label.
- `Admission`: the admission form.
- `Settings`: rooms, the library profile and restore.
- `Backup`: the `lastBackupDate` upsert and the once-a-day automatic backup check on unlock.
- `LockScreen`: the PIN pad, a class with `pin` and `error` fields.

`JsValues`, `Keys`, `Seqs` and `Wrappers` hold the JavaScript value rules and the sequence
helpers. The JavaScript value rules are truthiness, decimal `parseInt`, lower-casing,
`includes` and local midnight.

These conventions hold throughout:

- Timestamps are integer milliseconds.
- The local time-zone offset is a parameter `tz`.
- A dialog's answer (`confirm`, `prompt`, a chosen file) is an input.
- Whether a backup download succeeded is the input `exported`.
- The current time is an input `now`.

## Model

| member | source | states |
|---|---|---|
| Db.Library.Populate | src/db/db.js:5-30 | a new store has empty tables except rooms, which holds exactly one room: 'Main Hall', 50 seats, 10 rows of 5 (capacity = rows × cols) under key 1; every generator starts past its table's keys |
| Db.Library.AddStudent | src/db/db.js:7 | `add` appends the record under the generator's key, which no existing record has; the table stays key-ordered |
| Db.Library.AddRoom | src/db/db.js:10 | as AddStudent, for rooms |
| Db.Library.AddLog | src/db/db.js:13 | as AddStudent, for attendance records |
| Db.Library.AddTxn | src/db/db.js:16 | as AddStudent, for finance records |
| Db.Library.AddSetting | src/db/db.js:19 | as AddStudent, for settings |
| Db.Library.UpdateStudent | src/pages/Scanner.jsx:104 | `update(id, …)` replaces the record with that key and nothing else, and a missing key changes nothing; keys stay unique and ordered |
| Db.Library.UpdateSetting | src/utils/backup.js:32 | as UpdateStudent, for settings |
| Db.Library.PutSetting | src/pages/Settings.jsx:23-24 | `put` with an explicit key replaces or inserts in key order, and raises the generator past that key |
| Db.Library.ClearAll | src/pages/Settings.jsx:71 | all five tables become empty |
| Db.Library.BulkAddStudents | src/pages/Settings.jsx:72 | a cleared table receives exactly the given key-ordered records; the generator ends past all of them and never goes down |
| Db.Library.BulkAddRooms | src/pages/Settings.jsx:73 | as BulkAddStudents, for rooms |
| Db.Library.BulkAddTxns | src/pages/Settings.jsx:74 | as BulkAddStudents, for finance |
| Db.Library.BulkAddLogs | src/pages/Settings.jsx:75 | as BulkAddStudents, for attendance |
| Db.Library.BulkAddSettings | src/pages/Settings.jsx:76 | as BulkAddStudents, for settings |
| Db.Library.ReplaceAll | src/pages/Settings.jsx:70-77 | after clearing and bulk-adding, every table equals the given records, the store is valid again and no key generator goes down |
| Db.Library.DeleteStudent | src/pages/StudentProfile.jsx:47 | exactly the records with other keys remain, in order |
| Db.Library.DeleteRoom | src/pages/Settings.jsx:41 | exactly the rooms with other keys remain, in order |
| Db.Library.DeleteLogsOf | src/pages/StudentProfile.jsx:49 | exactly the attendance records of other students remain |
| Db.Library.DeleteTxnsOf | src/pages/StudentProfile.jsx:48 | exactly the finance records not tied to that student remain |
| Db.LogsAbove | src/db/db.js:13 | the date-index range query `where('date').above(b)` returns exactly the records whose date key is above `b` in IndexedDB key order, sorted by (date, key) |
| Db.SortByDate | src/db/db.js:13 | the date-index order is a permutation of the records, ordered by (date, key) |
| Db.SettingNamed | src/utils/backup.js:30 | the entry found by key name is None exactly when no entry has that name; otherwise it is an entry of the table with that name, the first in key order (FirstNamedAt) |
| Db.FirstNamedAt | src/App.jsx:26-27 | an entry with the name and no earlier one with it is the one `find` returns |
| Db.RoomNameOr | src/pages/Students.jsx:23 | the room's non-empty name when the id finds a room; the fallback when rooms are loading, the id is null, no room has it or the room's name is empty |
| Keys.Put | src/pages/Settings.jsx:23-24 | `put` keeps key order; the new record is present and every record under another key stays |
| Keys.PutIdempotent | src/pages/Settings.jsx:23-24 | putting the same record twice is the same as putting it once |
| Keys.PutThenFind | src/pages/Settings.jsx:23-24 | after a put, a `get` by the record's key returns that record |
| Keys.SortUnique | src/pages/Settings.jsx:72-76 | `bulkAdd` into an empty table succeeds exactly when no key repeats, and then holds the same multiset of records in key order |
| Keys.RaiseGenerator | src/db/db.js:7-19 | after explicit keys are added the generator is past all of them and never decreases |
| JsValues.ParseIntRoundTrip | src/pages/Admission.jsx:136 | `parseInt` on the decimal text of an integer gives that integer back |
| JsValues.ParseIntOfShow | src/pages/StudentProfile.jsx:38-39 | `parseInt` reads the leading decimal number and ignores trailing non-digits |
| JsValues.IntOrNull | src/pages/StudentProfile.jsx:38-39 | `v ? parseInt(v) : null`: a falsy field is null, a truthy one is its parsed number |
| JsValues.IncludesSpec | src/pages/Students.jsx:156-157 | `includes` holds exactly when the query occurs at some position of the text |
| JsValues.LocalMidnight | src/pages/Scanner.jsx:21 | `setHours(0,0,0,0)` is a local midnight, not after `t` and less than a day before it, so on the same local day |
| JsValues.SameLocalDay | src/pages/Students.jsx:37 | every instant from a local midnight up to the next falls on the same local calendar day |
| Scanner.LookUp | src/pages/Scanner.jsx:33-40 | the scanned text finds the student whose key is its parsed integer; nobody when it does not parse or no student has that key |
| Scanner.NewStatusFromHighestKey | src/pages/Scanner.jsx:43-45 | the new status is the opposite of the status on the student's record with the highest key, over all days |
| Scanner.NewStatus | src/pages/Scanner.jsx:44-45 | a student with no attendance record goes In |
| Scanner.ToggleLog | src/pages/Scanner.jsx:116-122 | the appended record has the student, the date and the new status, with inTime set exactly for In and outTime exactly for Out |
| Scanner.AppendSetsStatus | src/pages/Scanner.jsx:43-45 | appending a student's record sets that student's status to the record's and leaves every other student's as they were |
| Scanner.TwoTogglesRestore | src/pages/Scanner.jsx:43-45 | two toggles in a row add two records, restore the student's status and leave other students' statuses alone |
| Scanner.TodaysLogsAsWritten | src/pages/Scanner.jsx:52 | with the number bound the code passes, the window holds every record ever written |
| Scanner.YesterdayCountsAsInside | src/pages/Scanner.jsx:52 | counterexample: a student who went In yesterday and never out counts as inside by the window as written, and not by the intended window |
| Scanner.InsideIdsNow | src/pages/Scanner.jsx:52-62 | inside = the scanning student plus every student whose last record in the date-index window above the given bound is In |
| Scanner.InsideAsWrittenIffLatestEverIn | src/pages/Scanner.jsx:52-62 | with the bound the code passes, a student other than the scanner counts as inside exactly when their latest record ever, by date and key, is In |
| Scanner.InsideIntendedIffLatestTodayIn | src/pages/Scanner.jsx:52-62 | with a Date bound at local midnight, a student other than the scanner counts as inside exactly when their latest record since midnight is In |
| Scanner.StaleWindows | src/pages/Scanner.jsx:52-62 | on day two, a record from day one keeps its student inside with the number bound and not with the Date bound |
| Scanner.StaleSeats | src/pages/Scanner.jsx:70-101 | with the day-one holder of seat 1 inside, the late comer gets seat 2; without, seat 1 |
| Scanner.StaleInBlocksSeat | src/pages/Scanner.jsx:48-113 | counterexample: the allocator as written gives a student entering today seat 2 because a student In since yesterday holds seat 1; the intended window gives seat 1 |
| Scanner.StudentsWithIds | src/pages/Scanner.jsx:65 | `anyOf(ids)` returns exactly the students whose key is in the set |
| Scanner.TakenSeats | src/pages/Scanner.jsx:75-77 | a seat of the room is taken exactly when another inside student of that room holds it as a truthy seat number; Reserved holders who are away do not take it |
| Scanner.FirstFreeFrom | src/pages/Scanner.jsx:79-82 | the lowest untaken seat in the range, or none exactly when every seat in it is taken |
| Scanner.FreeSeatIn | src/pages/Scanner.jsx:70-83 | none for a missing room; otherwise the lowest seat in 1..capacity not taken, and none exactly when all are taken; the seat collides with no other inside student of that room |
| Scanner.FindFreeSeat | src/pages/Scanner.jsx:70-83 | the `for` loop over 1..capacity with its early return computes FreeSeatIn |
| Scanner.FirstFit | src/pages/Scanner.jsx:90-101 | the first room in stored order that has a free seat, with that seat; none exactly when no room has one |
| Scanner.Allocation | src/pages/Scanner.jsx:85-101 | the preferred room's free seat when the preference is truthy and the room has one, otherwise FirstFit over all rooms |
| Scanner.AllocationSound | src/pages/Scanner.jsx:70-101 | an allocated seat is within an existing room's capacity and held by no other inside student of that room |
| Scanner.AllocationNoneIff | src/pages/Scanner.jsx:91-107 | "Library Full" happens exactly when no room has a free seat |
| Scanner.AssignSeat | src/pages/Scanner.jsx:85-101 | the preferred-room attempt and then the room loop with `break` compute Allocation |
| Scanner.StudentsAfterToggle | src/pages/Scanner.jsx:48-113 | the student table after a toggle: Reserved students and all other students untouched; a General In sets seat and room when a seat is found and changes nothing when the library is full; a General Out clears the seat and keeps the room; the inside set is read above the given bound |
| Scanner.ReservedSeatCanBeDoubleBooked | src/pages/Scanner.jsx:75-77 | with a Reserved holder away, an entering General student is given that very seat, so both records hold it |
| Scanner.ProcessAttendance | src/pages/Scanner.jsx:28-136 | an unknown id writes nothing and leaves the record generator; otherwise the students table becomes StudentsAfterToggle over the window the code passes (every record) and exactly one record with the new status is appended under the old generator key, which rises by one, even when the library is full; the result reports the name, the status and whether the library was full |
| Scanner.UpdateSeat | src/pages/Scanner.jsx:47-113 | the seat step writes StudentsAfterToggle over the window the code passes (every record) and reports full exactly when a General student going In finds no seat |
| Scanner.ActiveLogs | src/pages/Scanner.jsx:20-26 | the status map of today's records holds exactly the students with a record today, maps each to their latest status today, and its In entries are the inside set |
| Scanner.IsInside | src/pages/Scanner.jsx:150 | true exactly when the map is loaded and marks the student In |
| Occupancy.StatusMap | src/pages/Dashboard.jsx:19-20 | the `forEach` overwrite leaves each student who has a record mapped to the status of their last record in list order, and no one else |
| Occupancy.InsideOf | src/pages/Dashboard.jsx:22-24 | the students the map marks In |
| Occupancy.InsideIds | src/pages/Dashboard.jsx:17-25 | the students whose last record in the list is In |
| Occupancy.TodaysLogs | src/pages/Dashboard.jsx:13-15 | the window with a Date bound holds exactly the records dated after local midnight, in date order |
| Occupancy.LastOfTodayIsLatest | src/pages/Dashboard.jsx:15-20 | the last record of a student along the date index from midnight is that student's latest record since midnight by (date, key) |
| Occupancy.LatestSinceUnique | src/db/db.js:13 | unique keys make a student's latest record since midnight unique |
| Occupancy.InsideIffLatestIn | src/pages/Dashboard.jsx:12-26 | a student is in the inside set exactly when their latest record since today's midnight is an In record |
| Dashboard.ActiveStudents | src/pages/Dashboard.jsx:9 | exactly the students whose status is 'Active' |
| Dashboard.ActiveAttendance | src/pages/Dashboard.jsx:12-26 | the loop over the map's keys yields exactly the inside set of today's records |
| Dashboard.InsideKeys | src/pages/Dashboard.jsx:22-24 | iterating the keys, with `parseInt` reading each back, collects exactly the ids marked In |
| Dashboard.AutoSelect | src/pages/Dashboard.jsx:31-35 | with rooms loaded and nothing (or a falsy id) selected, the first room is selected; otherwise the selection stays |
| Dashboard.CurrentRoom | src/pages/Dashboard.jsx:62 | the room whose key equals the selection; none for a null selection or an unknown id |
| Dashboard.AutoSelectShowsFirstRoom | src/pages/Dashboard.jsx:31-35 | after the auto-select, an unselected dashboard shows the first room |
| Dashboard.RoomStudents | src/pages/Dashboard.jsx:63 | exactly the students whose roomId is the selected room, seated or not |
| Dashboard.Seats | src/pages/Dashboard.jsx:70-71 | the seat list is [1, 2, ..., capacity] of the selected room, in order and without repeats (empty for a capacity of 0 or less), and empty when no room matches |
| Dashboard.GridCols | src/pages/Dashboard.jsx:72 | the room's column count when a room is selected and its count is non-zero; 5 when no room is selected or its count is 0 |
| Dashboard.InsideCount | src/pages/Dashboard.jsx:76 | the number of the room's students whose id is in the inside set, counted over positions; 0 while attendance is loading; never more than the occupied count |
| Dashboard.AwayCount | src/pages/Dashboard.jsx:104 | inside + away = occupied, so the away counter is never negative |
| Dashboard.ClassOf | src/pages/Dashboard.jsx:119-121 | each seat is in exactly one class: free when unmapped, inside when its student is in the inside set, away otherwise |
| Dashboard.FreeIffUnheld | src/pages/Dashboard.jsx:65-68 | a seat is free exactly when no student of the room holds it |
| Dashboard.InsideSeatsAtMostInsideCount | src/pages/Dashboard.jsx:75-76 | the grid never shows more inside seats than the Inside counter |
| Dashboard.ShiftDots | src/pages/Dashboard.jsx:124-125 | morning dot exactly for 'Morning' or 'Full Day', evening dot exactly for 'Evening' or 'Full Day' |
| Seating.SeatMapOf | src/pages/Dashboard.jsx:65-68 | a seat is mapped exactly when some student with a truthy seat number holds it, to the last such student |
| Seating.SeatMapSnoc | src/pages/Dashboard.jsx:66-67 | one more student takes (or takes over) their seat when it is truthy, and otherwise changes nothing |
| Seating.LaterStudentWins | src/pages/Dashboard.jsx:66-67 | on a seat-number collision the later student holds the seat |
| Seating.UnseatedIgnored | src/pages/Dashboard.jsx:67 | students without a seat number do not affect the map |
| Seating.BuildSeatMap | src/pages/Dashboard.jsx:65-68 | the `forEach` loop computes SeatMapOf |
| Seating.OneTo | src/pages/Dashboard.jsx:71 | `Array.from({length: n}, (_, i) => i + 1)` is 1..n, and empty for n ≤ 0 |
| SeatGrid.Seats | src/oldCodes/SeatGrid.jsx:5-16 | the seat list is [1, 2, ..., totalSeats], in order and without repeats, with totalSeats 50 when the prop is not passed |
| SeatGrid.NameMapOf | src/oldCodes/SeatGrid.jsx:9-14 | seat to the name of its last holder with a truthy seat number, across all rooms |
| SeatGrid.NameMap | src/oldCodes/SeatGrid.jsx:9-14 | the loop computes NameMapOf, and an empty map while students are loading |
| SeatGrid.Label | src/oldCodes/SeatGrid.jsx:21-37 | an occupied seat shows its holder's name, any other seat shows 'Free' |
| SeatGrid.OccupiedIffSomeoneHoldsSeat | src/oldCodes/SeatGrid.jsx:9-22 | with non-empty names, a seat is occupied exactly when some student in any room has that seat number |
| Students.Payments | src/pages/Students.jsx:27 | exactly the student's Income records |
| Students.LatestDate | src/pages/Students.jsx:29 | the date of the newest payment, which the descending sort puts first |
| Students.CheckFeeStatus | src/pages/Students.jsx:25-32 | 'ok' while loading; otherwise 'due' exactly when every Income payment of the student is more than 30 days old, including never having paid |
| Students.NeverPaidIsDue | src/pages/Students.jsx:28 | a student with no Income payment is due |
| Students.OtherTxnsIgnored | src/pages/Students.jsx:27 | expenses and other students' payments do not change the status |
| Students.FreshPaymentIsOk | src/pages/Students.jsx:29-31 | a payment dated now makes the status 'ok' |
| Students.InLogsOf | src/pages/Students.jsx:36 | exactly the student's In records |
| Students.CountAttendance | src/pages/Students.jsx:34-39 | 0 while loading; otherwise the number of distinct local days with an In record of the student |
| Students.AttendanceAtMostInLogs | src/pages/Students.jsx:34-39 | the day count never exceeds the number of In records |
| Students.RepeatOrOutIgnored | src/pages/Students.jsx:36-37 | an Out record, or a second In on a day already counted, does not change the count |
| Students.GetRoomName | src/pages/Students.jsx:23 | the room's non-empty name, or 'Unknown' when rooms are loading, the id is null, no room has it or the room's name is empty |
| Students.Filtered | src/pages/Students.jsx:155-158 | a student is listed exactly when the lower-cased name contains the lower-cased query or the mobile contains the raw query; an empty query lists everyone, in reverse stored order |
| Students.FilteredNewestFirst | src/pages/Students.jsx:158 | over a key-ordered table the list is in strictly decreasing key order |
| Students.SeatText | src/pages/Students.jsx:184 | "room • seat" for a Reserved student, 'General' otherwise |
| StudentProfile.StartEditing | src/pages/StudentProfile.jsx:30-33 | the form starts as a copy of the record |
| StudentProfile.Saved | src/pages/StudentProfile.jsx:36-41 | the saved record is the edited one, with roomId and seat_no as parsed integers or null when falsy |
| StudentProfile.SaveUnedited | src/pages/StudentProfile.jsx:30-41 | saving without editing gives the record back, except that a room or seat 0 becomes null |
| StudentProfile.SaveParsesTypedNumbers | src/pages/StudentProfile.jsx:38-39 | a typed decimal number is stored as that number, and a cleared field as null |
| StudentProfile.HandleSave | src/pages/StudentProfile.jsx:35-43 | the record with that key is replaced by the saved one |
| StudentProfile.HandleDelete | src/pages/StudentProfile.jsx:45-52 | confirmed: the student and exactly their finance and attendance records go and every other record stays; declined: nothing changes |
| StudentProfile.FeeTxn | src/pages/StudentProfile.jsx:57-64 | the fee record is Income, category 'Fee', for this student, dated now |
| StudentProfile.HandlePayFee | src/pages/StudentProfile.jsx:54-67 | a cancelled or empty answer adds nothing; otherwise exactly one fee record is appended under the old generator key, the generator rises by one, and the fee status is then 'ok' |
| StudentProfile.CurrentRoomName | src/pages/StudentProfile.jsx:75 | the room's non-empty name, or 'Unknown Room' when rooms are loading, the roomId is null, no room has it or the room's name is empty |
| Admission.Admit | src/pages/Admission.jsx:131-141 | refused exactly for a Reserved admission without a room; otherwise status 'Active', admissionDate now, roomId parsed or null, and seat_no stored only for Reserved with a seat entered |
| Admission.InitialFormRejected | src/pages/Admission.jsx:13-28 | the defaults are Reserved, 08:00 and 14:00, so submitting the untouched form is refused |
| Admission.GeneralAdmission | src/pages/Admission.jsx:136-137 | a General admission is accepted and never stores a seat; a typed room number is stored as that number |
| Admission.HandleSubmit | src/pages/Admission.jsx:129-150 | refused: nothing is inserted and the generator stays; accepted: exactly one student is appended under the old generator key and the generator rises by one |
| Settings.RoomRows | src/pages/Settings.jsx:35 | `Math.ceil(cap / 5)`: rows × 5 ≥ cap and (rows − 1) × 5 < cap |
| Settings.RoomRowsExamples | src/pages/Settings.jsx:33-35 | a positive capacity needs at least one row, and 50 seats fill exactly 10 rows |
| Settings.NewRoom | src/pages/Settings.jsx:30-38 | nothing when the name or capacity is empty; otherwise cols 5, rows the ceiling, capacity the parsed number |
| Settings.NewRoomFromTypedCapacity | src/pages/Settings.jsx:33 | a capacity typed as a decimal number gives a room of that many seats |
| Settings.HandleAddRoom | src/pages/Settings.jsx:30-38 | appends exactly the new room under the old generator key, with the generator rising by one, or changes neither |
| Settings.HandleDeleteRoom | src/pages/Settings.jsx:40-42 | confirmed: only the room with that key goes, and students referencing it are unchanged; declined: nothing changes |
| Settings.ProfileSaved | src/pages/Settings.jsx:23-24 | after the two puts the table holds the name entry at key 1 and the address entry at key 2, and every other entry stays |
| Settings.SaveProfileIdempotent | src/pages/Settings.jsx:23-24 | saving the same profile twice leaves the table as saving it once |
| Settings.GetValue | src/pages/Settings.jsx:11 | the first entry's value for the name, or '' while loading or when there is none |
| Settings.SavedProfileShown | src/pages/Settings.jsx:11-24 | when no other entry uses these names, the form shows the saved name and address back |
| Settings.HandleSaveProfile | src/pages/Settings.jsx:16-27 | the settings table becomes ProfileSaved, and the generator is raised to at least 3, past the two explicit keys |
| Settings.OrEmpty | src/pages/Settings.jsx:72-73 | a table missing from the backup reads as empty |
| Settings.Restored | src/pages/Settings.jsx:70-77 | the restore succeeds exactly when no table of the backup repeats a key; each table then holds exactly the backup's records, in key order |
| Settings.MissingTableEndsEmpty | src/pages/Settings.jsx:71-76 | a table absent from the backup ends empty |
| Settings.HandleRestore | src/pages/Settings.jsx:63-83 | without a file or confirmation, or when the transaction fails, no table and no key generator changes; otherwise every table is replaced by Restored and no generator goes down |
| Backup.WithLastBackup | src/utils/backup.js:27-35 | afterwards the 'lastBackupDate' entry reads today; an existing entry is updated in place with the count unchanged and only the first entry of that name (the one `first()` returns) changes, otherwise exactly one is appended under a new key; nothing else changes |
| Backup.KeysOutsideBackupKept | src/utils/backup.js:27-35 | the upsert keeps every entry under another name at its position and adds none under that name |
| Backup.UpdateInPlace | src/utils/backup.js:30-32 | updating the entry found by name changes the value at the first index holding that name and no other index |
| Backup.UpdateAt | src/utils/backup.js:32 | updating the first entry with a name changes exactly that index |
| Backup.OtherSettingsUnchanged | src/utils/backup.js:30-35 | every other name reads back the same entry as before |
| Backup.PerformBackup | src/utils/backup.js:3-42 | returns the export's success; on failure nothing changes; on success the settings become WithLastBackup, and the generator rises by one exactly when a new entry is added |
| Backup.BackupClearsDue | src/utils/backup.js:27-35 | after a backup today the unlock guard is false, and the autoBackup switch is untouched |
| Backup.HandleUnlock | src/App.jsx:24-41 | backs up exactly when the guard holds; after a backup the settings are WithLastBackup of the old table and the generator rises only when an entry is added, otherwise table and key generator are unchanged; once the export succeeds the guard is false for the rest of the day |
| LockScreen.Pressed | src/pages/LockScreen.jsx:8-13 | below four digits the digit is appended; at four, nothing changes |
| LockScreen.PressedAllLength | src/pages/LockScreen.jsx:8-13 | any sequence of presses keeps the PIN at most four digits, equal to min(old + presses, 4), appended in order while there is room |
| LockScreen.AdminPinReachable | src/pages/LockScreen.jsx:8-51 | pressing 1, 2, 3, 4 enters the admin PIN, and later presses change nothing |
| LockScreen.StuckAtFour | src/pages/LockScreen.jsx:9 | a full PIN ignores every press |
| LockScreen.PinPad.constructor | src/pages/LockScreen.jsx:5-6 | the PIN starts empty with no error |
| LockScreen.PinPad.HandlePress | src/pages/LockScreen.jsx:8-13 | the PIN becomes Pressed; the error is cleared when the digit was taken, and otherwise kept |
| LockScreen.PinPad.HandleSubmit | src/pages/LockScreen.jsx:15-23 | unlocks exactly on '1234', and changes nothing then; otherwise the error is set and the PIN emptied |
| LockScreen.PinPad.Clear | src/pages/LockScreen.jsx:50 | CLR empties the PIN and keeps the error flag |
| LockScreen.PinPad.Dots | src/pages/LockScreen.jsx:37-38 | four dots, dot i filled exactly when i < PIN length, so the filled dots are a prefix |

## Left out

- The search in `Students.Filtered` lower-cases only ASCII letters. JavaScript's full Unicode case mapping is not modelled.
- `parseInt` is modelled on decimal text: an optional sign, then leading digits. Leading whitespace, `0x` prefixes and exponent forms are not modelled.
- NaN is folded into null. A room id or seat that does not parse is stored as null, and no room or seat key ever equals NaN.
- Students.SeatText: a Reserved student whose stored seat is NaN shows "null" in the model where the source (src/pages/Students.jsx:184) shows "NaN", because NaN is folded into null.
- Settings.NewRoom: a capacity without leading digits gives NaN in the source and 0 in the model. Both give an empty grid.
- `monthlyFee` (`parseFloat(...) || 0`) and fee amounts are kept as the text typed, because they are floating-point.
- The photo, Aadhar and parent/address fields of the admission form are not modelled, nor HTML `required` checks. They are copied unchanged or checked by the browser.
- The Admission PDF offer, the ID card, QR codes, the PDF report, CSV and WhatsApp links, and the Settings page's manual backup download are not modelled. They are rendering and file output.
- Backup.PerformBackup does not model the JSON file it builds and downloads. Whether the download succeeded is the input `exported`. It also does not model store errors thrown while reading or writing.
- Store errors in the other handlers (`catch` blocks and alerts) are not modelled. Every store call is taken to succeed.
- Scanner.ProcessAttendance is not atomic in the source: a failure midway leaves the records already written. The model has no failures and claims nothing about atomicity.
- The `isProcessing` debounce, the two-second reset, the QR scanner lifecycle, the beep and `useLiveQuery` reactivity are not modelled. They are UI timing.
- The Scanner page's manual list (line 151) is not modelled, nor its Active-only student list. They only render.
- The source calls `new Date()` several times in one handler. The model uses one `now` for all of them.
- The local time zone is a fixed offset `tz`. Daylight-saving changes are not modelled.
- Settings.Restored: JSON turns dates into strings, and restored records keep those strings. The model keeps restored dates as numbers, so it hides three consequences.
  - Index order. IndexedDB sorts every string key after every Date key. So every `where('date').above(..)` window (src/pages/Dashboard.jsx:15, src/pages/Scanner.jsx:21 and 52) holds every restored attendance record, whatever its day, and iterates it after today's records. A restored record therefore decides its student's entry in the status map, the Dashboard's inside set and the allocator's taken seats from then on. A restored In outlasts any later Out.
  - Fee status. In `checkFeeStatus` (src/pages/Students.jsx:28-30), `b.date - a.date` and `new Date() - lastPay.date` give NaN for a restored payment. NaN leaves the sort order unspecified. Whenever the payment picked is a restored one, the status reads 'ok' however old the payment is.
  - Attendance count. `countAttendance` throws on `l.date.toDateString()` (src/pages/Students.jsx:36) once the student has a restored In record.
- `takenSeats` is an array in the source that is only asked `includes`, so it is modelled as a set.
- The add-room form reset (Settings.jsx:37) and the page reload after a restore (line 79) are not modelled. They are UI state.
- sessionStorage authentication, routing, `Navbar.jsx`, `Finance.jsx` and `Attendance.jsx` are not part of this model. They are wiring, floating-point money, and calendar-library date ranges.
- The `libraryName`/`libraryAddress` defaults on the student-list PDF header (Students.jsx:20-22) are not modelled. They are used only by the PDF output.

## Findings

| source | as written | input that shows it | evidently intended | confidence | as-written member | corrected member |
|---|---|---|---|---|---|---|
| src/pages/Scanner.jsx:52 | `where('date').above(new Date().setHours(0,0,0,0))` passes the number `setHours` returns. IndexedDB orders every Date key after every number, so the "today's logs" window holds every record ever written. | one record: student 7 In yesterday and never Out, scanned by a General student today. Student 7 counts as inside, so a seat they hold is treated as taken. | records dated after today's local midnight, as the Dashboard (lines 13-15) and the Scanner's own status map (lines 21-22) compute with a Date bound | medium, not executed | Scanner.TodaysLogsAsWritten, Scanner.YesterdayCountsAsInside, Scanner.InsideAsWrittenIffLatestEverIn, Scanner.StaleInBlocksSeat | Occupancy.TodaysLogs, Occupancy.InsideIffLatestIn, Scanner.InsideIntendedIffLatestTodayIn |

Scanner.ProcessAttendance and Scanner.UpdateSeat model the allocator as written, over Scanner.AllocatorBound. The corrected allocator is Scanner.StudentsAfterToggle over Scanner.IntendedBound, the bound the Scanner's own status map and the Dashboard use (Scanner.ActiveLogs, Dashboard.ActiveAttendance).
