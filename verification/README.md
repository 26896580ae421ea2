# School events tracker — a Dafny model

This project models the core of a small desktop tool a school uses to
track which students took part in which events. The tool keeps three
tables in SQLite:

- `students`: class, class number, name and an economic-situation category code;
- `events`: the event names;
- `records`: one row per (student, event) attendance.

Its main window shows the tables and four category-filtered reports. Two
dialogs import students and attendance from pasted text, one line per row.
An observer (`Announcer`) tells the main window to refresh after every
insert. A small history container records modifications.

The model is functional. The store is three sequences of rows kept in
insertion order, every query is a pure function over them, and every
insert returns a new store. Keys are assigned as SQLite's `AUTOINCREMENT`
assigns them: one more than the largest key ever used, which is the largest
key present, since nothing in the program deletes a row. `Valid` (keys
positive and increasing, and every record naming a stored student and
event) is proved to be kept by every student and event insert, by a record
insert naming a stored student and event, and by both imports. The store
itself inserts a record with any keys, as `addRecord` does.

Modules, in dependency order:

- `Wrappers`: `Option`.
- `Seqs`: counting, filtering, first index, de-duplication, flat map.
- `Text`: Python's `str.strip`, `str.split(',')` and `str.join` on `seq<char>`.
- `RecordStore`: the tables, the inserts, the lookups, the simple queries.
- `Aggregation`: the grouped report queries.
- `Observer`: the `Announcer` registry and its notification.
- `ModificationHistory`: `HistoryContainer` and `History`.
- `InputDialogs`: the student import and the event/attendance import.
  Each is a pure function from the text lines, the typed event name and
  the user's answer to the "already exists" question, to the new store,
  the event types announced in order, and how the handler ended.
- `MainWindow`: the category display names, the category picker and the
  `notifyUpdate` dispatch.

SQL joins on primary keys are modelled as key lookups (`StudentOf`,
`EventOf`). `StudentOfIsJoin` and `EventOfIsJoin` prove that in a
well-formed store a lookup finds exactly the rows the join would match.
Rows are listed in table order, which is one of the orders SQLite may
return, since the queries have no `ORDER BY`.

## Model

| member | source | states |
|---|---|---|
| RecordStore.NextId | src/database.py:32-54 | The key AUTOINCREMENT gives a new row is positive and above every key in the table |
| RecordStore.WellFormedStudentsDistinct | src/database.py:32-39 | A well-formed student table holds no row twice, since its keys differ |
| RecordStore.AppendKeepsKeysIncreasing | src/database.py:32-54 | Appending the next AUTOINCREMENT key keeps a table's keys positive and strictly increasing |
| RecordStore.AddStudent | src/database.py:76-83 | Exactly one student row is appended, with a fresh key and the given fields; the earlier rows and the other two tables are unchanged; a valid store stays valid |
| RecordStore.StudentInsertKeepsValid | src/database.py:76-83 | A student row under the next key is above every stored key and keeps a valid store valid |
| RecordStore.AddEvent | src/database.py:85-92 | Exactly one event row with the given name is appended, under a positive key above every existing event key; the other tables are unchanged; afterwards `isEventExists` holds for that name; a valid store stays valid |
| RecordStore.AddEventWithReturn | src/database.py:103-111 | One event row is appended and its returned key is above every existing event key; afterwards `isEventExists` holds for that name; a valid store stays valid |
| RecordStore.EventInsertKeepsValid | src/database.py:103-111 | An event row under the next key is above every stored key and keeps a valid store valid |
| RecordStore.AddRecord | src/database.py:94-101 | Exactly one record row is appended with the given student and event and status "1" by default; the other tables are unchanged; a valid store stays valid when both keys are stored |
| RecordStore.RecordInsertKeepsValid | src/database.py:94-101 | A record under the next key naming a stored student and event keeps a valid store valid |
| RecordStore.InsertsCount | src/database.py:76-138 | Each insert raises its own table's total by one and leaves the other two totals unchanged |
| RecordStore.FindSid | src/database.py:58-65 | No key exactly when no student row matches all three fields; otherwise the key of a matching row, positive in a well-formed store |
| RecordStore.FindSidSurvivesInserts | src/database.py:58-65 | A student `findSid` finds keeps being found, under the same key, after any insert |
| RecordStore.FindEid | src/database.py:67-74 | No key exactly when no event has that name; otherwise the key of an event with that name |
| RecordStore.IsEventExists | src/database.py:307-314 | True exactly when some stored event has exactly that name |
| RecordStore.AllEventsMatchesExistence | src/database.py:307-332 | A name is listed by `getAllEvents` exactly when `isEventExists` holds for it |
| RecordStore.NumberOfParticipants | src/database.py:149-162 | With "all", the number of records on the event; with a category, the records on the event whose student has that category; never more than the "all" value |
| RecordStore.AllStudents | src/database.py:316-323 | One row per stored student, with its class, number, name and category as stored |
| RecordStore.AllStudentsAfterAdd | src/database.py:76-83 | After `addStudent`, `getAllStudents` lists the earlier students followed by exactly the inserted row |
| RecordStore.AllEvents | src/database.py:325-332 | One name per stored event; `getEvents` at src/database.py:140-147 runs the same query |
| RecordStore.StudentsByForm | src/database.py:296-305 | A student is listed exactly when it is stored and its class begins with the given form; each stored row is listed once, as a well-formed table holds no row twice |
| RecordStore.EmptyFormSelectsAll | src/database.py:296-305 | The empty form selects every student |
| Aggregation.StudentOfIsJoin | src/database.py:191-236 | In a well-formed store, the student a record's key joins to is exactly the stored student with that key |
| Aggregation.EventOfIsJoin | src/database.py:253-294 | In a well-formed store, the event a record's key joins to is exactly the stored event with that key |
| Aggregation.EventAttendance | src/database.py:253-270 | A group's count is the number of records on events with that name, restricted to the category's students when one is given; a filter never raises it |
| Aggregation.ShownEventNames | src/database.py:253-270 | Without a filter, every distinct event name once; with a category, only the names with a record of a student in that category, because the WHERE follows the LEFT JOIN |
| Aggregation.StudentEventTable | src/database.py:253-270 | One row per shown event name, no name twice, each with its group's count |
| Aggregation.EventWithoutRecordsShowsZero | src/database.py:253-270 | An event nobody attended still appears in the unfiltered table, with count 0 |
| Aggregation.CategoryTableWithinAll | src/database.py:253-270 | Every row of a category table has a row for the same event in the unfiltered table with at least its count |
| Aggregation.TableAccountsForEveryRecord | src/database.py:253-270 | In a valid store the unfiltered counts add up to the number of records |
| Aggregation.SumCountsCoversRecords | src/database.py:253-270 | When every record's event has one of a list of distinct names, the per-name counts add up to the number of records |
| Aggregation.ParticipantNames | src/database.py:272-294 | As many names as records of the group's students passing the filter, each the name of a stored student |
| Aggregation.ParticipantNamesCountEach | src/database.py:272-294 | Each name occurs in a group's list exactly as often as the group has qualifying records whose student bears that name |
| Aggregation.EventParticipantWithNames | src/database.py:272-294 | The same event groups as the count table, each with as many names as qualifying records, and each name as often as the group's qualifying records of students bearing it |
| Aggregation.ParticipantsMatchCounts | src/database.py:253-294 | Each event's participant-name list is exactly as long as its count in the count table |
| Aggregation.EventsAttended | src/database.py:191-211 | Unfiltered, a student's count is their number of records; filtered by the student's own category, their number of records on stored events; 0 when they fail the filter; never more than their records |
| Aggregation.StudentsEventCounts | src/database.py:191-211 | Lists exactly the stored students passing the filter with at least one counted record, each with that count; no student without records appears; in a well-formed store each student is listed once, as `GROUP BY records.sid` gives |
| Aggregation.StudentCountsMembership | src/database.py:191-211 | A row is listed exactly when it pairs a stored student having a counted record with that student's count |
| Aggregation.StudentCountsByCategory | src/database.py:191-211 | In a valid store, a category's rows are exactly the unfiltered rows of students in that category |
| Aggregation.EventNamesOf | src/database.py:213-236 | As many event names as joined records of that class, number and name, each the name of a stored event |
| Aggregation.EventNamesOfCountsEach | src/database.py:213-236 | Each event name occurs in a key's list exactly as often as the key has joined records on an event of that name |
| Aggregation.StudentsEventsParticipated | src/database.py:213-236 | One row per distinct (class, number, name) key that has a joined record; its list holds as many names as the key's joined records, and each event name as often as the key has joined records on an event of that name |
| Aggregation.JoinedKeysAreStored | src/database.py:213-236 | A key with a joined record belongs to a stored student |
| Aggregation.ParticipatedMatchesCounts | src/database.py:191-236 | For a student no other student shares a key with, the event list is as long as the event count, and the student is listed in both reports or in neither |
| Observer.Register | src/observer.py:14-16 | The observer is registered afterwards; earlier observers keep their order; a new observer goes last; an existing one changes nothing; no duplicates appear |
| Observer.RegisterIdempotent | src/observer.py:14-16 | Registering the same observer twice gives the same registry as registering it once |
| Observer.RegisterAll | src/observer.py:14-16 | Any sequence of registrations keeps the registry free of duplicates |
| Observer.Unregister | src/observer.py:18-20 | An absent observer changes nothing; otherwise its one occurrence is removed with the others in order, and it is no longer registered |
| Observer.RemoveFirst | src/observer.py:18-20 | An absent element leaves the list unchanged; otherwise exactly its first occurrence is cut out, the rest keeping their order |
| Observer.RemoveFirstFromDistinct | src/observer.py:18-20 | Removing the first occurrence from a list without duplicates removes the element entirely |
| Observer.Notify | src/observer.py:10-12 | One call per registered observer, in registration order, each with the same event type and arguments |
| Observer.NotifyReachesEachOnce | src/observer.py:10-16 | Each registered observer is called exactly once and no other observer is called |
| Observer.RegisterTwiceNotifiedOnce | src/observer.py:10-16 | An observer registered twice is notified once |
| Observer.UnregisterStopsNotifications | src/observer.py:10-20 | After `unregister` the observer gets no call, however many times it was registered |
| ModificationHistory.AddHistory | src/modification_history.py:11-12 | The entry goes at the end and earlier entries are unchanged |
| ModificationHistory.GetHistoryInInsertionOrder | src/modification_history.py:11-15 | `getHistory` returns the added entries in the order they were added |
| ModificationHistory.ClearHistory | src/modification_history.py:17-18 | Nothing is recorded afterwards |
| ModificationHistory.ToString | src/modification_history.py:20-24 | An empty container renders as "History:"; otherwise "History:\n" and the entry texts joined by newlines, right-stripped, and exactly that when the last text ends in a non-space |
| ModificationHistory.Render | src/modification_history.py:20-23 | Before stripping, the text is the header line and each entry's text followed by a newline |
| ModificationHistory.StripRendered | src/modification_history.py:20-24 | Stripping the rendered text leaves the header alone, or the header and the joined lines without trailing whitespace |
| ModificationHistory.MakeHistory | src/modification_history.py:32-35 | The entry holds a value under exactly the keyword names passed |
| ModificationHistory.GetItem | src/modification_history.py:37-38 | A stored key gives its value; any other key is a `KeyError` |
| ModificationHistory.GetItemReturnsKeyword | src/modification_history.py:32-38 | Indexing an entry by a keyword name gives the value passed for it; a name not passed is a `KeyError` |
| Text.Strip | app.py:49 | The result is the line between a whitespace-only prefix and a whitespace-only suffix; empty exactly for an all-whitespace line; otherwise starts and ends with a non-space character |
| Text.Split | app.py:51 | A text splits into one more piece than it has separators, none of them holding the separator |
| Text.Fields | app.py:51 | A line splits into one more field than it has commas, none of them holding a comma |
| Text.FieldsOfJoinedPieces | app.py:51 | Comma-free pieces joined by commas give back each piece with its surrounding whitespace stripped, so `1A, 1, Chan` has the fields `1A`, `1` and `Chan` |
| Text.SplitJoin | app.py:51 | Splitting comma-free pieces joined by commas gives the pieces back |
| Text.JoinSplit | app.py:51 | Joining the split pieces with the separator gives the line back |
| InputDialogs.StopAt | app.py:48-58 | The position of the first line that stops a batch: no earlier line stops it, and the line there does |
| InputDialogs.RowsOf | app.py:49-54 | A line yields one student exactly when it is not blank and has four fields |
| InputDialogs.AddStudentData | app.py:46-61 | Only the student table changes; the handler ends either completed or with a format error; a valid store stays valid |
| InputDialogs.StudentImportStopsAtFirstBadLine | app.py:46-61 | The students added are exactly those of the well-formed lines before the first bad line, one `student_added` each, and the handler completes exactly when there is no bad line |
| InputDialogs.ReadStudentsBeforeStop | app.py:48-58 | The students read are exactly those of the lines before the first bad line |
| InputDialogs.PaddedStudentLine | app.py:48-54 | A line of four comma-free parts, spaced however the user types them, is well formed and yields the student of the four stripped parts |
| InputDialogs.StudentLineRoundTrip | app.py:49-54 | A student written as four clean comma-separated fields is read back as exactly that student |
| InputDialogs.StudentLinesRoundTrip | app.py:48-58 | A batch of written students is read back as exactly those students |
| InputDialogs.MalformedLineAfterValidLines | app.py:46-61 | A bad line after well-formed lines keeps the students before it, adds none after it, and the handler ends with a format error |
| InputDialogs.LineStop | app.py:115-131 | A line stops the attendance batch with a format error exactly when it is not blank and has not three fields; a blank line never stops it |
| InputDialogs.AddAttendance | app.py:115-131 | The attendance loop leaves students and events unchanged, adds one record per `record_added` announcement, and ends completed, raising, with a format error or with the not-found error |
| InputDialogs.LookupStop | app.py:121-128 | A line is recorded exactly when `findSid` returns a key Python reads as true; no row raises; the lookup never ends in a format error |
| InputDialogs.AttendeeIsStored | app.py:121-124 | The key a recorded line reads belongs to a stored student and is not 0 |
| InputDialogs.AddRecords | app.py:121-124 | Recording a list of keys appends one record per key after the existing records and changes no other table |
| InputDialogs.AddRecordsAppends | app.py:115-131 | The appended records are, in order, one (student, event, "1") row per key |
| InputDialogs.AttendanceImport | app.py:115-131 | The attendance loop records exactly the keys read before the first stopping line, announces `record_added` once per record, completes exactly when no line stops it, and otherwise ends the way that line says |
| InputDialogs.AttendanceKeepsValid | app.py:115-131 | The attendance loop keeps a valid store valid |
| InputDialogs.Target | app.py:89-102 | An existing name reuses its event and changes nothing; a new name appends exactly one event with that name; no other table changes |
| InputDialogs.AddEventData | app.py:79-137 | The students never change; an empty name or a declined existing name leaves the store unchanged, announces nothing and refuses |
| InputDialogs.EventDataRefusals | app.py:84-95 | An empty name is refused before any change, and so is an existing name the user declines |
| InputDialogs.EventDataProceeds | app.py:89-113 | When the handler proceeds, the event exists afterwards; a new event is announced first and is kept even when there are no lines, which are then refused |
| InputDialogs.EventDataImport | app.py:79-137 | With lines, the records grow by the keys read before the batch stops, all on the target event, with the event announcement followed by one `record_added` per record |
| InputDialogs.EventDataKeepsValid | app.py:79-137 | The event import keeps a valid store valid |
| InputDialogs.EventDataKeepsNamesUnique | app.py:89-102 | Events created through the handler never duplicate a stored name |
| InputDialogs.UnknownStudentRaises | app.py:121 | A three-field line naming no stored student makes the handler raise |
| InputDialogs.NotFoundDialogUnreachable | app.py:122-128 | In a well-formed store no line reaches the "student not found" error |
| InputDialogs.AddEventDataCorrected | app.py:121-128 | The corrected handler never raises and leaves the same store as the handler as written |
| InputDialogs.CorrectedReportsMissingStudent | app.py:115-131 | The corrected handler shows the not-found error exactly when the stopping line names no stored student, and completes exactly when the handler as written does |
| MainWindow.CategoryDisplay | app.py:297-301 | A known code is shown as its name from `categoryMap`; any other code is shown unchanged |
| MainWindow.CategoryLabel | app.py:21 | A name exactly for the codes `categoryMap` knows; any other code is a `KeyError` |
| MainWindow.CategoryDisplayDistinguishesCodes | app.py:21 | Different known codes have different display names |
| MainWindow.PickerMatchesCategoryMap | app.py:383-407 | The picker offers exactly the codes `categoryMap` knows, each under the name the map gives it |
| MainWindow.ReportTitle | app.py:320-358 | A cancelled picker opens no report; a picked code titles the report exactly when `categoryMap` knows it |
| MainWindow.PickedReportsHaveTitles | app.py:320-407 | Every entry the picker offers opens every report with a title |
| MainWindow.DisplayedStudents | app.py:297-302 | The window first lists every stored student with the category shown by its display name |
| MainWindow.ViewFor | app.py:361-367 | Exactly `student_added`, `event_added` and `record_added` name a view |
| MainWindow.ViewForIsOneToOne | app.py:361-367 | The three event types refresh three different views |
| MainWindow.NotifyUpdate | app.py:361-367 | Only the view the event type names is refreshed, and nothing for any other type; `student_added` reloads the raw student rows |
| MainWindow.NotifyUpdateCorrected | app.py:361-367 | The corrected refresh also touches only the view the event type names |
| MainWindow.CorrectedRefreshMatchesOpen | app.py:297-313 | Each corrected refresh shows what the freshly opened window would show, and refreshing all three views gives the freshly opened window |
| MainWindow.RefreshesAgreeOffStudents | app.py:361-367 | Apart from `student_added`, the refresh as written and the corrected one agree |
| MainWindow.RefreshShowsRawCode | app.py:297-301 | After a category "C" student is added, the refreshed table shows "C" where the freshly opened window shows "綜援" |

## Left out

- Qt widgets, windows, table rendering and message dialogs: a handler's dialog is reduced to its `Outcome`, and the user's answers are parameters.
- `toPlainText().splitlines()`: the import functions take the list of lines directly.
- The text box's "remaining lines" bookkeeping (app.py:125, app.py:134): it only changes what the widget shows.
- The CSV export (app.py:167-178): file I/O.
- The delete-key handler (app.py:206-237): it only removes display rows and logs intent.
- `findCategory` (app.py:376-381): dead code reading a global `header` that is always `None`.
- The sqlite3 connection, `checkIfInitialized`, `checkIfAnyData` and the `initializeDB` DDL: the store is three in-memory sequences. Foreign keys are not enforced by the program; `Valid` states the property the inserts keep instead.
- `getStudentEventCounts` (src/database.py:164-189): it aggregates without `GROUP BY` and returns NULL fields when there are no records.
- `getStudentEventList` (src/database.py:238-251): its filtered branch names a `category` column of `events` that does not exist, so it errors.
- src/database.py:181 and src/database.py:208 name `category` inside a subquery on `events`. SQLite resolves it to the outer `students.category`, and the model filters by the student's category accordingly.
- Row order of queries without `ORDER BY`, and the order of `GROUP_CONCAT`: the model lists rows and names in table order, and its contracts state which rows appear and how often each name occurs in a list, not their order.
- `GROUP_CONCAT`'s comma-joined text: the model keeps the list of names.
- `LIKE`'s ASCII case-insensitivity and the `%`/`_` wildcards inside a form: `StudentsByForm` matches a plain prefix.
- SQLite type affinity: `class_number` is kept as the text the dialog read.
- Python's `str()` of an entry: `ToString` takes the entry-to-text function as a parameter, and `History.__str__`'s `dict` repr is not modelled.
- Observer re-entrancy and exceptions raised by an observer during `notify`: the notification is modelled as a trace of calls.
- The `Observer` abstract base class: observers are values of a type parameter.
- Any batch `addStudent` lemma beyond the single insert: `AllStudentsAfterAdd` covers one insert, and `StudentImportStopsAtFirstBadLine` covers a whole import.
- `getTotalNumberOf*`: modelled as the table lengths, so `InsertsCount` states their change.
- `RecordStore.StudentsByForm`: states membership and that no row repeats, not the order of the rows, since the query has no `ORDER BY`.
- `ModificationHistory.GetHistory`: returns a snapshot of the entries. The source returns the live list, so a list obtained before a later `clearHistory` is emptied with it; the model has no aliasing.
- `RecordStore.NextId`: keys are unbounded integers. SQLite keys are 64-bit, and an `AUTOINCREMENT` insert after the key 2^63-1 fails with `SQLITE_FULL`; the model never runs out of keys.

## Findings

| source | as written | input that shows it | evidently intended | confidence | as-written member | corrected member |
|---|---|---|---|---|---|---|
| app.py:121-128 | `findSid` indexes `fetchone()`, so an unknown student raises `TypeError` out of `addEventData`; keys start at 1, so the `else` branch with the "Student ... not found" dialog can never run | an attendance line `1A, 1, Nobody` when no student `Nobody` of class 1A number 1 exists | show "Student Nobody not found in the database." and return False, keeping the records added before | not executed | InputDialogs.UnknownStudentRaises | InputDialogs.CorrectedReportsMissingStudent |
| app.py:361-363 | `notifyUpdate('student_added')` reloads the student table from `getAllStudents` without the `categoryMap` mapping the window applies on opening (app.py:297-301) | add student `1A, 1, Chan Tai Man, C`: the refreshed table shows `C` where the opened window shows `綜援` | refresh with the mapped category names, as on opening | not executed | MainWindow.RefreshShowsRawCode | MainWindow.CorrectedRefreshMatchesOpen |
