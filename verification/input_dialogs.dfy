/** The two batch-import dialogs, taken apart from their widgets: each turns
    the lines of its text box (and, for events, the typed name and the
    user's answer to the "already exists" question) into a store
    transition, the notifications it sent, and the way the handler ended. */
module InputDialogs {

  import opened Wrappers
  import opened Seqs
  import opened Text
  import opened RecordStore

  /** The event types the dialogs announce. */
  const StudentAdded: string := "student_added"
  const EventAdded: string := "event_added"
  const RecordAdded: string := "record_added"

  /** Why a handler shows an error dialog and returns False. */
  datatype Refusal =
    | InvalidFormat
    | EmptyEventName
    | Declined
    | NoStudentData
    | StudentNotFound(name: string)

  /** How a handler ends: it returns True, it returns False after an error
      dialog, or the `TypeError` of a `findSid` that found no row escapes
      it while handling the student called `name`. */
  datatype Outcome = Completed | Refused(reason: Refusal) | Raised(name: string)

  /** The store after the handler, the event types it announced in order,
      and how it ended. */
  datatype Import = Import(store: Store, notices: seq<string>, outcome: Outcome)

  /** A line the dialogs skip: `line.strip()` is empty. */
  predicate Blank(line: string) {
    Strip(line) == []
  }

  /** `n` announcements of the same event type. */
  function Repeat(x: string, n: nat): (r: seq<string>)
    ensures |r| == n
    ensures forall i :: 0 <= i < n ==> r[i] == x
  {
    if n == 0 then [] else [x] + Repeat(x, n - 1)
  }

  /** Where a batch stops: the first line `stops` holds for, or the number of
      lines when there is none. Every earlier line passed. */
  function StopAt(lines: seq<string>, stops: string -> bool): (k: nat)
    ensures k <= |lines|
    ensures forall j :: 0 <= j < k ==> !stops(lines[j])
    ensures k < |lines| ==> stops(lines[k])
  {
    match FirstIndex(lines, stops)
    case None => |lines|
    case Some(i) => i
  }

  /** The first line `stops` holds for is where the batch stops. */
  lemma StopAtFirst(lines: seq<string>, stops: string -> bool, i: nat)
    requires i < |lines| && stops(lines[i])
    requires forall j :: 0 <= j < i ==> !stops(lines[j])
    ensures StopAt(lines, stops) == i
  {
  }

  /** A batch stops at its first line, or one line later than its tail does. */
  lemma StopAtCons(lines: seq<string>, stops: string -> bool)
    requires |lines| > 0
    ensures stops(lines[0]) ==> StopAt(lines, stops) == 0
    ensures !stops(lines[0]) ==> StopAt(lines, stops) == 1 + StopAt(lines[1..], stops)
  {
    if !stops(lines[0]) {
      var k := StopAt(lines[1..], stops);
      forall j | 0 <= j < k + 1 ensures !stops(lines[j]) {
        if j > 0 {
          assert lines[j] == lines[1..][j - 1];
        }
      }
      if k < |lines[1..]| {
        assert lines[k + 1] == lines[1..][k];
        StopAtFirst(lines, stops, k + 1);
      }
    }
  }

  /* ---------------------------------------------------------------------- */
  /* Student import                                                         */
  /* ---------------------------------------------------------------------- */

  /** A line the student import rejects: not blank, and not four fields. */
  predicate BadStudent(line: string) {
    !Blank(line) && |Fields(line)| != 4
  }

  function BadStudentLine(): string -> bool {
    (line: string) => BadStudent(line)
  }

  /** The student a line describes, if it is not blank and has four fields. */
  function RowsOf(line: string): (rows: seq<StudentRow>)
    ensures |rows| <= 1
    ensures |rows| == 1 <==> !Blank(line) && |Fields(line)| == 4
  {
    var f := Fields(line);
    if !Blank(line) && |f| == 4 then [StudentRow(f[0], f[1], f[2], f[3])] else []
  }

  /** The students the non-blank, four-field lines of a batch describe, in
      line order. */
  function StudentRows(lines: seq<string>): seq<StudentRow> {
    FlatMap(lines, RowsOf)
  }

  /** `addStudentData`, line by line: a blank line is skipped; a line of four
      stripped fields inserts one student and announces `student_added`
      before the rest is read; any other line ends the handler with a
      format error and the rest is not read. Only the student table
      changes, and a valid store stays valid. */
  function AddStudentData(st: Store, lines: seq<string>): (r: Import)
    ensures r.store.events == st.events && r.store.records == st.records
    ensures r.outcome == Completed || r.outcome == Refused(InvalidFormat)
    ensures Valid(st) ==> Valid(r.store)
    decreases |lines|
  {
    if |lines| == 0 then Import(st, [], Completed)
    else
      var line := lines[0];
      if Strip(line) == [] then AddStudentData(st, lines[1..])
      else
        var data := Fields(line);
        if |data| == 4 then
          var mid := AddStudent(st, data[0], data[1], data[2], data[3]);
          var rest := AddStudentData(mid, lines[1..]);
          Import(rest.store, [StudentAdded] + rest.notices, rest.outcome)
        else
          Import(st, [], Refused(InvalidFormat))
  }

  /** The students a batch yields before its first malformed line. */
  function ReadStudents(lines: seq<string>): (rows: seq<StudentRow>)
    ensures |rows| <= |lines|
    decreases |lines|
  {
    if |lines| == 0 || BadStudent(lines[0]) then [] else RowsOf(lines[0]) + ReadStudents(lines[1..])
  }

  /** The students read are those of the lines before the stop. */
  lemma {:induction false} ReadStudentsBeforeStop(lines: seq<string>)
    ensures ReadStudents(lines) == StudentRows(lines[..StopAt(lines, BadStudentLine())])
    decreases |lines|
  {
    if |lines| > 0 {
      StopAtCons(lines, BadStudentLine());
      if !BadStudent(lines[0]) {
        ReadStudentsBeforeStop(lines[1..]);
        StudentRowsBeforeStop(lines);
      }
    }
  }

  /** The rows read before the stop are the first line's row, if any, and
      then the rows read before the tail's stop. */
  lemma StudentRowsBeforeStop(lines: seq<string>)
    requires |lines| > 0 && !BadStudent(lines[0])
    ensures var k := StopAt(lines, BadStudentLine());
      StudentRows(lines[..k]) == RowsOf(lines[0]) + StudentRows(lines[1..][..StopAt(lines[1..], BadStudentLine())])
  {
    StopAtCons(lines, BadStudentLine());
    var k := StopAt(lines, BadStudentLine());
    FlatMapPrefix(lines, k, RowsOf);
  }

  /** What the student import does to a batch: the batch stops at its first
      malformed line; the students of the lines before it are inserted, in
      line order and with their fields as read, one announcement each; and
      the handler completes exactly when no line is malformed. */
  lemma StudentImportStopsAtFirstBadLine(st: Store, lines: seq<string>)
    ensures var r := AddStudentData(st, lines);
      var k := StopAt(lines, BadStudentLine());
      var rows := StudentRows(lines[..k]);
      && AllStudents(r.store) == AllStudents(st) + rows
      && r.notices == Repeat(StudentAdded, |rows|)
      && (r.outcome == Completed <==> k == |lines|)
  {
    ReadStudentsBeforeStop(lines);
    StudentImportInsertsReadStudents(st, lines);
    StudentImportAnnouncesEachRow(st, lines);
    StudentImportCompletesWithoutBadLine(st, lines);
  }

  /** The students inserted are those read, in line order. */
  lemma {:induction false} StudentImportInsertsReadStudents(st: Store, lines: seq<string>)
    ensures AllStudents(AddStudentData(st, lines).store) == AllStudents(st) + ReadStudents(lines)
    decreases |lines|
  {
    if |lines| > 0 && !BadStudent(lines[0]) {
      if Blank(lines[0]) {
        StudentImportInsertsReadStudents(st, lines[1..]);
      } else {
        var data := Fields(lines[0]);
        var row := StudentRow(data[0], data[1], data[2], data[3]);
        var mid := AddStudent(st, data[0], data[1], data[2], data[3]);
        StudentImportInsertsReadStudents(mid, lines[1..]);
        AllStudentsAfterAdd(st, row);
        assert RowsOf(lines[0]) == [row];
      }
    }
  }

  /** One `student_added` announcement per student read. */
  lemma {:induction false} StudentImportAnnouncesEachRow(st: Store, lines: seq<string>)
    ensures AddStudentData(st, lines).notices == Repeat(StudentAdded, |ReadStudents(lines)|)
    decreases |lines|
  {
    if |lines| > 0 && !BadStudent(lines[0]) {
      if Blank(lines[0]) {
        StudentImportAnnouncesEachRow(st, lines[1..]);
      } else {
        var data := Fields(lines[0]);
        var mid := AddStudent(st, data[0], data[1], data[2], data[3]);
        StudentImportAnnouncesEachRow(mid, lines[1..]);
        assert |ReadStudents(lines)| == 1 + |ReadStudents(lines[1..])|;
        assert AddStudentData(st, lines).notices == [StudentAdded] + AddStudentData(mid, lines[1..]).notices;
      }
    }
  }

  /** The student import completes exactly when no line is malformed. */
  lemma {:induction false} StudentImportCompletesWithoutBadLine(st: Store, lines: seq<string>)
    ensures AddStudentData(st, lines).outcome == Completed <==> StopAt(lines, BadStudentLine()) == |lines|
    decreases |lines|
  {
    if |lines| > 0 {
      StopAtCons(lines, BadStudentLine());
      if Blank(lines[0]) {
        StudentImportCompletesWithoutBadLine(st, lines[1..]);
      } else if |Fields(lines[0])| == 4 {
        var data := Fields(lines[0]);
        var mid := AddStudent(st, data[0], data[1], data[2], data[3]);
        StudentImportCompletesWithoutBadLine(mid, lines[1..]);
      }
    }
  }

  /** A field the import reads back unchanged: no comma and no outer
      whitespace. */
  predicate Clean(field: string) {
    ',' !in field && Unpadded(field)
  }

  /** The import line that describes a student, fields separated by commas. */
  function StudentLine(row: StudentRow): string {
    Join([row.className, row.classNumber, row.name, row.category], ",")
  }

  predicate CleanRow(row: StudentRow) {
    Clean(row.className) && Clean(row.classNumber) && Clean(row.name) && Clean(row.category)
  }

  /** Splitting comma-free, stripped fields joined with commas gives the
      fields back. */
  lemma FieldsOfJoin(parts: seq<string>)
    requires |parts| > 0
    requires forall i :: 0 <= i < |parts| ==> Clean(parts[i])
    ensures Fields(Join(parts, ",")) == parts
  {
    SplitJoin(parts, ',');
    forall i | 0 <= i < |parts| ensures Strip(parts[i]) == parts[i] {
      StripUnpadded(parts[i]);
    }
  }

  /** A line that contains a comma is not blank. */
  lemma CommaLineIsNotBlank(line: string)
    requires ',' in line
    ensures !Blank(line)
  {
    var i :| 0 <= i < |line| && line[i] == ',';
    assert !IsSpace(line[i]);
  }

  lemma StudentLineHasComma(row: StudentRow)
    ensures ',' in StudentLine(row)
  {
    var ps := [row.className, row.classNumber, row.name, row.category];
    var tail := Join(ps[1..], ",");
    assert StudentLine(row) == row.className + "," + tail;
    assert StudentLine(row)[|row.className|] == ',';
  }

  /** The import reads a student's line back as exactly that student. */
  lemma StudentLineRoundTrip(row: StudentRow)
    requires CleanRow(row)
    ensures !BadStudent(StudentLine(row))
    ensures RowsOf(StudentLine(row)) == [row]
  {
    var line := StudentLine(row);
    assert Fields(line) == [row.className, row.classNumber, row.name, row.category] by {
      FieldsOfJoin([row.className, row.classNumber, row.name, row.category]);
    }
    assert !Blank(line) by {
      StudentLineHasComma(row);
      CommaLineIsNotBlank(line);
    }
    RowsOfFourFields(line, row);
  }

  /** A non-blank line whose fields are a student's reads as that student. */
  lemma RowsOfFourFields(line: string, row: StudentRow)
    requires !Blank(line)
    requires Fields(line) == [row.className, row.classNumber, row.name, row.category]
    ensures RowsOf(line) == [row]
  {
  }

  /** A line typed as four comma-free pieces with any spacing around the
      commas (`1A, 1, Chan Tai Man, C`) is accepted, and the student it adds
      has the pieces with their outer whitespace removed as its fields. */
  lemma PaddedStudentLine(parts: seq<string>)
    requires |parts| == 4
    requires forall i :: 0 <= i < |parts| ==> ',' !in parts[i]
    ensures !BadStudent(Join(parts, ","))
    ensures RowsOf(Join(parts, ",")) == [StudentRow(Strip(parts[0]), Strip(parts[1]), Strip(parts[2]), Strip(parts[3]))]
  {
    var line := Join(parts, ",");
    var row := StudentRow(Strip(parts[0]), Strip(parts[1]), Strip(parts[2]), Strip(parts[3]));
    assert Fields(line) == [row.className, row.classNumber, row.name, row.category] by {
      FieldsOfJoinedPieces(parts);
      FourElements(Fields(line), row.className, row.classNumber, row.name, row.category);
    }
    assert !Blank(line) by {
      JoinedPiecesHaveComma(parts);
      CommaLineIsNotBlank(line);
    }
    RowsOfFourFields(line, row);
  }

  /** Two or more pieces joined with commas contain a comma. */
  lemma JoinedPiecesHaveComma(parts: seq<string>)
    requires |parts| > 1
    ensures ',' in Join(parts, ",")
  {
    var line := Join(parts, ",");
    assert line == parts[0] + "," + Join(parts[1..], ",");
    assert line[|parts[0]|] == ',';
  }

  /** The lines that describe the given students, one per student. */
  function StudentLines(rows: seq<StudentRow>): (lines: seq<string>)
    ensures |lines| == |rows|
    ensures forall i :: 0 <= i < |rows| ==> lines[i] == StudentLine(rows[i])
  {
    if |rows| == 0 then [] else [StudentLine(rows[0])] + StudentLines(rows[1..])
  }

  /** Writing students as lines and reading them back gives those students,
      in order. */
  lemma StudentLinesRoundTrip(rows: seq<StudentRow>)
    requires forall i :: 0 <= i < |rows| ==> CleanRow(rows[i])
    ensures StudentRows(StudentLines(rows)) == rows
  {
    var lines := StudentLines(rows);
    forall i | 0 <= i < |lines| ensures RowsOf(lines[i]) == [rows[i]] {
      StudentLineRoundTrip(rows[i]);
    }
    FlatMapSingletons(lines, rows, RowsOf);
  }

  /** No line written for a student is malformed, so the import reads the
      whole batch. */
  lemma StudentLinesAreWellFormed(rows: seq<StudentRow>)
    requires forall i :: 0 <= i < |rows| ==> CleanRow(rows[i])
    ensures StopAt(StudentLines(rows), BadStudentLine()) == |rows|
  {
    var lines := StudentLines(rows);
    var k := StopAt(lines, BadStudentLine());
    if k < |lines| {
      StudentLineRoundTrip(rows[k]);
      assert false;
    }
  }

  /** A malformed line after valid ones: the import stops at it and fails,
      and exactly the students of the lines before it are inserted,
      whatever follows. */
  lemma MalformedLineAfterValidLines(st: Store, rows: seq<StudentRow>, bad: string, rest: seq<string>)
    requires forall i :: 0 <= i < |rows| ==> CleanRow(rows[i])
    requires BadStudent(bad)
    ensures var r := AddStudentData(st, StudentLines(rows) + [bad] + rest);
      && AllStudents(r.store) == AllStudents(st) + rows
      && r.outcome == Refused(InvalidFormat)
  {
    var lines := StudentLines(rows) + [bad] + rest;
    var k := |rows|;
    assert StopAt(lines, BadStudentLine()) == k by {
      StudentLinesAreWellFormed(rows);
      forall j | 0 <= j < k ensures !BadStudentLine()(lines[j]) {
        assert lines[j] == StudentLines(rows)[j];
        assert 0 <= j < |StudentLines(rows)| && !BadStudentLine()(StudentLines(rows)[j]);
      }
      assert lines[k] == bad;
      StopAtFirst(lines, BadStudentLine(), k);
    }
    assert StudentRows(lines[..k]) == rows by {
      assert lines[..k] == StudentLines(rows);
      StudentLinesRoundTrip(rows);
    }
    StudentImportStopsAtFirstBadLine(st, lines);
  }

  /* ---------------------------------------------------------------------- */
  /* Event and attendance import                                            */
  /* ---------------------------------------------------------------------- */

  /** Whether the attendance lines are read at all: a name was typed, and the
      event is new or the user agreed to add students to the existing one. */
  predicate Proceeds(st: Store, eventName: string, confirm: bool) {
    eventName != "" && (confirm || !IsEventExists(st, eventName))
  }

  /** The event the attendance lines go to: the first stored event with that
      name (`findEid`) when there is one, otherwise a newly inserted one
      (`addEventWithReturn`). */
  function Target(st: Store, eventName: string): (t: Inserted)
    ensures IsEventExists(st, eventName) ==> t.store == st
    ensures !IsEventExists(st, eventName) ==>
      && |t.store.events| == |st.events| + 1
      && t.store.events[..|st.events|] == st.events
      && t.store.events[|st.events|] == Event(t.id, eventName)
    ensures exists i :: 0 <= i < |t.store.events| && t.store.events[i] == Event(t.id, eventName)
    ensures t.store.students == st.students && t.store.records == st.records
    ensures Valid(st) ==> Valid(t.store)
  {
    if IsEventExists(st, eventName) then
      var eid := FindEid(st, eventName).value;
      assert exists i :: 0 <= i < |st.events| && st.events[i].name == eventName && st.events[i].eid == eid;
      Inserted(st, eid)
    else
      var t := AddEventWithReturn(st, eventName);
      assert t.store.events[|st.events|] == Event(t.id, eventName);
      t
  }

  /** What one attendance line does to the batch when it stops it; `None`
      for a line that is skipped (blank) or recorded. A line without three
      fields is a format error. For three fields, `findSid` either finds no
      row, and indexing its `None` raises, or finds a key, which is recorded
      unless Python reads it as false. */
  function LineStop(st: Store, line: string): (o: Option<Outcome>)
    ensures o.Some? ==> !Blank(line)
    ensures o == Some(Refused(InvalidFormat)) <==> !Blank(line) && |Fields(line)| != 3
  {
    if Blank(line) then None
    else
      var f := Fields(line);
      if |f| != 3 then Some(Refused(InvalidFormat))
      else LookupStop(FindSid(st, f[0], f[1], f[2]), f[2])
  }

  /** How the result of `findSid` for the student called `name` ends the
      batch: no row raises; a key Python reads as false shows the
      not-found error; any other key lets the line be recorded. */
  function LookupStop(found: Option<int>, name: string): (o: Option<Outcome>)
    ensures o.None? <==> found.Some? && found.value != 0
    ensures found.None? ==> o == Some(Raised(name))
    ensures o != Some(Refused(InvalidFormat))
  {
    match found
    case None => Some(Raised(name))
    case Some(sid) => if sid != 0 then None else Some(Refused(StudentNotFound(name)))
  }

  function StopsAttendance(st: Store): string -> bool {
    (line: string) => LineStop(st, line).Some?
  }

  /** The student key a line that does not stop the batch records: none for
      a blank line, otherwise the key `findSid` returns for its fields. */
  function AttendeeOf(st: Store, line: string): (sids: seq<int>)
    requires LineStop(st, line).None?
    ensures |sids| <= 1
    ensures |sids| == 1 <==> !Blank(line)
  {
    if Blank(line) then []
    else
      var f := Fields(line);
      [FindSid(st, f[0], f[1], f[2]).value]
  }

  /** The student keys a batch records before it stops, in line order. */
  function ReadAttendees(st: Store, lines: seq<string>): (sids: seq<int>)
    ensures |sids| <= |lines|
    decreases |lines|
  {
    if |lines| == 0 || LineStop(st, lines[0]).Some? then []
    else AttendeeOf(st, lines[0]) + ReadAttendees(st, lines[1..])
  }

  /** The key a recorded line reads names a stored student and is not 0. */
  lemma AttendeeIsStored(st: Store, line: string)
    requires LineStop(st, line).None? && !Blank(line)
    ensures HasStudent(st, AttendeeOf(st, line)[0]) && AttendeeOf(st, line)[0] != 0
  {
    var f := Fields(line);
    assert LineStop(st, line) == LookupStop(FindSid(st, f[0], f[1], f[2]), f[2]);
  }

  /** A run of `addRecord(sid, eid)` calls with the default status, first
      key first. Only the records grow, by one row per key. */
  function AddRecords(st: Store, sids: seq<int>, eid: int): (r: Store)
    ensures r.students == st.students && r.events == st.events
    ensures |r.records| == |st.records| + |sids| && r.records[..|st.records|] == st.records
    decreases |sids|
  {
    if |sids| == 0 then st else AddRecords(AddRecord(st, sids[0], eid), sids[1..], eid)
  }

  /** Recording a key first and then the rest is recording them all. */
  lemma AddRecordsCons(st: Store, sid: int, sids: seq<int>, eid: int)
    ensures AddRecords(st, [sid] + sids, eid) == AddRecords(AddRecord(st, sid, eid), sids, eid)
  {
    assert ([sid] + sids)[1..] == sids;
  }

  /** A record of `sid` attending `eid`, with the default status. */
  predicate AttendanceRow(rec: Record, sid: int, eid: int) {
    rec.sid == sid && rec.eid == eid && rec.status == Attended
  }

  /** The rows `AddRecords` appends: one per key, in order, each on `eid`
      and with the default status. */
  lemma AddRecordsAppends(st: Store, sids: seq<int>, eid: int)
    ensures var r := AddRecords(st, sids, eid);
      forall j :: 0 <= j < |sids| ==> AttendanceRow(r.records[|st.records| + j], sids[j], eid)
  {
    forall j | 0 <= j < |sids|
      ensures AttendanceRow(AddRecords(st, sids, eid).records[|st.records| + j], sids[j], eid)
    {
      AddRecordsRow(st, sids, eid, j);
    }
  }

  /** The `j`-th appended row records the `j`-th key. */
  lemma {:induction false} AddRecordsRow(st: Store, sids: seq<int>, eid: int, j: nat)
    requires j < |sids|
    ensures AttendanceRow(AddRecords(st, sids, eid).records[|st.records| + j], sids[j], eid)
    decreases |sids|
  {
    var mid := AddRecord(st, sids[0], eid);
    var rest := sids[1..];
    var r := AddRecords(mid, rest, eid);
    assert AddRecords(st, sids, eid) == r;
    if j == 0 {
      assert r.records[..|mid.records|] == mid.records;
      assert r.records[|st.records|] == mid.records[|st.records|];
    } else {
      AddRecordsRow(mid, rest, eid, j - 1);
      assert sids[j] == rest[j - 1];
      assert |st.records| + j == |mid.records| + (j - 1);
    }
  }

  /** The attendance loop of `addEventData`, line by line: a blank line is
      skipped; a line of three fields naming a stored student records that
      student on `eid` and announces `record_added` before the rest is read;
      the first other line ends the handler, and the records added before
      it stay. Only the records change, and they only grow. */
  function AddAttendance(st: Store, eid: int, lines: seq<string>): (r: Import)
    ensures r.store.students == st.students && r.store.events == st.events
    ensures |r.store.records| == |st.records| + |r.notices|
    ensures r.outcome == Completed || r.outcome.Raised? || r.outcome == Refused(InvalidFormat) || r.outcome.reason.StudentNotFound?
    decreases |lines|
  {
    if |lines| == 0 then Import(st, [], Completed)
    else
      var line := lines[0];
      if Strip(line) == [] then AddAttendance(st, eid, lines[1..])
      else
        var data := Fields(line);
        if |data| == 3 then
          match FindSid(st, data[0], data[1], data[2])
          case None => Import(st, [], Raised(data[2]))
          case Some(sid) =>
            if sid != 0 then
              var rest := AddAttendance(AddRecord(st, sid, eid), eid, lines[1..]);
              Import(rest.store, [RecordAdded] + rest.notices, rest.outcome)
            else
              Import(st, [], Refused(StudentNotFound(data[2])))
        else
          Import(st, [], Refused(InvalidFormat))
  }

  /** The first line that stops the batch ends the loop at once, as
      `LineStop` says, with nothing changed or announced. */
  lemma AttendanceStopsAtLine(st: Store, eid: int, lines: seq<string>)
    requires |lines| > 0 && LineStop(st, lines[0]).Some?
    ensures AddAttendance(st, eid, lines) == Import(st, [], LineStop(st, lines[0]).value)
  {
    if !Blank(lines[0]) && |Fields(lines[0])| == 3 {
      var f := Fields(lines[0]);
      assert LineStop(st, lines[0]) == LookupStop(FindSid(st, f[0], f[1], f[2]), f[2]);
    }
  }

  /** A line that does not stop the batch is skipped when blank, and
      otherwise records the key `AttendeeOf` reads and announces it before
      the rest is read. */
  lemma AttendanceReadsLine(st: Store, eid: int, lines: seq<string>)
    requires |lines| > 0 && LineStop(st, lines[0]).None?
    ensures Blank(lines[0]) ==> AddAttendance(st, eid, lines) == AddAttendance(st, eid, lines[1..])
    ensures !Blank(lines[0]) ==>
      var rest := AddAttendance(AddRecord(st, AttendeeOf(st, lines[0])[0], eid), eid, lines[1..]);
      AddAttendance(st, eid, lines) == Import(rest.store, [RecordAdded] + rest.notices, rest.outcome)
  {
    if !Blank(lines[0]) {
      var f := Fields(lines[0]);
      assert LineStop(st, lines[0]) == LookupStop(FindSid(st, f[0], f[1], f[2]), f[2]);
    }
  }

  /** The attendance loop keeps a valid store valid when `eid` is a stored
      event: every record it adds names a student `findSid` found. */
  lemma {:induction false} AttendanceKeepsValid(st: Store, eid: int, lines: seq<string>)
    requires Valid(st) && HasEvent(st, eid)
    ensures Valid(AddAttendance(st, eid, lines).store)
    decreases |lines|
  {
    if |lines| > 0 {
      if LineStop(st, lines[0]).Some? {
        AttendanceStopsAtLine(st, eid, lines);
      } else if Blank(lines[0]) {
        AttendanceReadsLine(st, eid, lines);
        AttendanceKeepsValid(st, eid, lines[1..]);
      } else {
        AttendanceReadsLine(st, eid, lines);
        AttendeeIsStored(st, lines[0]);
        var mid := AddRecord(st, AttendeeOf(st, lines[0])[0], eid);
        assert HasEvent(mid, eid) by {
          var i :| 0 <= i < |st.events| && st.events[i].eid == eid;
          assert mid.events[i].eid == eid;
        }
        AttendanceKeepsValid(mid, eid, lines[1..]);
      }
    }
  }

  /** Stores with the same students answer every attendance line alike. */
  lemma LineStopSameStudents(a: Store, b: Store, line: string)
    requires a.students == b.students
    ensures LineStop(a, line) == LineStop(b, line)
  {
    if Blank(line) {
      assert LineStop(a, line) == None == LineStop(b, line);
    } else if |Fields(line)| != 3 {
      assert LineStop(a, line) == Some(Refused(InvalidFormat)) == LineStop(b, line);
    } else {
      var f := Fields(line);
      assert FindSid(a, f[0], f[1], f[2]) == FindSid(b, f[0], f[1], f[2]);
    }
  }

  /** Stores with the same students read the same keys from a batch. */
  lemma {:induction false} ReadAttendeesSameStudents(a: Store, b: Store, lines: seq<string>)
    requires a.students == b.students
    ensures ReadAttendees(a, lines) == ReadAttendees(b, lines)
    decreases |lines|
  {
    if |lines| > 0 {
      LineStopSameStudents(a, b, lines[0]);
      if LineStop(a, lines[0]).None? {
        assert AttendeeOf(a, lines[0]) == AttendeeOf(b, lines[0]) by {
          if !Blank(lines[0]) {
            var f := Fields(lines[0]);
            assert FindSid(a, f[0], f[1], f[2]) == FindSid(b, f[0], f[1], f[2]);
          }
        }
        ReadAttendeesSameStudents(a, b, lines[1..]);
      }
    }
  }

  /** The attendance loop records exactly the keys read before the stop. */
  lemma {:induction false} AttendanceRecordsReadAttendees(st: Store, eid: int, lines: seq<string>)
    ensures AddAttendance(st, eid, lines).store == AddRecords(st, ReadAttendees(st, lines), eid)
    decreases |lines|
  {
    if |lines| == 0 {
      assert ReadAttendees(st, lines) == [];
    } else {
      if LineStop(st, lines[0]).Some? {
        AttendanceStopsAtLine(st, eid, lines);
        assert ReadAttendees(st, lines) == [];
      } else if Blank(lines[0]) {
        AttendanceReadsLine(st, eid, lines);
        AttendanceRecordsReadAttendees(st, eid, lines[1..]);
        assert ReadAttendees(st, lines) == ReadAttendees(st, lines[1..]);
      } else {
        AttendanceReadsLine(st, eid, lines);
        var sid := AttendeeOf(st, lines[0])[0];
        var mid := AddRecord(st, sid, eid);
        var tail := ReadAttendees(st, lines[1..]);
        assert AddAttendance(mid, eid, lines[1..]).store == AddRecords(mid, tail, eid) by {
          AttendanceRecordsReadAttendees(mid, eid, lines[1..]);
          ReadAttendeesSameStudents(mid, st, lines[1..]);
        }
        assert ReadAttendees(st, lines) == [sid] + tail;
        AddRecordsCons(st, sid, tail, eid);
      }
    }
  }

  /** One `record_added` announcement per recorded key. */
  lemma {:induction false} AttendanceAnnouncesEachRecord(st: Store, eid: int, lines: seq<string>)
    ensures AddAttendance(st, eid, lines).notices == Repeat(RecordAdded, |ReadAttendees(st, lines)|)
    decreases |lines|
  {
    if |lines| > 0 {
      if LineStop(st, lines[0]).Some? {
        AttendanceStopsAtLine(st, eid, lines);
      } else if Blank(lines[0]) {
        AttendanceReadsLine(st, eid, lines);
        AttendanceAnnouncesEachRecord(st, eid, lines[1..]);
      } else {
        AttendanceReadsLine(st, eid, lines);
        var mid := AddRecord(st, AttendeeOf(st, lines[0])[0], eid);
        AttendanceAnnouncesEachRecord(mid, eid, lines[1..]);
        ReadAttendeesSameStudents(mid, st, lines[1..]);
        assert |ReadAttendees(st, lines)| == 1 + |ReadAttendees(st, lines[1..])|;
      }
    }
  }

  /** How the attendance loop ends, for a store with the same students as
      `roster`: it completes exactly when no line stops the batch. */
  lemma {:induction false} AttendanceCompletesWithoutStop(st: Store, roster: Store, eid: int, lines: seq<string>)
    requires st.students == roster.students
    ensures AddAttendance(st, eid, lines).outcome == Completed <==> StopAt(lines, StopsAttendance(roster)) == |lines|
    decreases |lines|
  {
    if |lines| > 0 {
      StopAtCons(lines, StopsAttendance(roster));
      LineStopSameStudents(st, roster, lines[0]);
      if LineStop(st, lines[0]).Some? {
        AttendanceStopsAtLine(st, eid, lines);
      } else {
        AttendanceReadsLine(st, eid, lines);
        if Blank(lines[0]) {
          AttendanceCompletesWithoutStop(st, roster, eid, lines[1..]);
        } else {
          AttendanceCompletesWithoutStop(AddRecord(st, AttendeeOf(st, lines[0])[0], eid), roster, eid, lines[1..]);
        }
      }
    }
  }

  /** Otherwise the loop ends as the first line that stops the batch says. */
  lemma {:induction false} AttendanceEndsAtStop(st: Store, roster: Store, eid: int, lines: seq<string>)
    requires st.students == roster.students
    ensures var k := StopAt(lines, StopsAttendance(roster));
      k < |lines| ==> Some(AddAttendance(st, eid, lines).outcome) == LineStop(roster, lines[k])
    decreases |lines|
  {
    if |lines| > 0 {
      var k := StopAt(lines, StopsAttendance(roster));
      LineStopSameStudents(st, roster, lines[0]);
      if LineStop(st, lines[0]).Some? {
        assert k == 0 by {
          StopAtCons(lines, StopsAttendance(roster));
        }
        AttendanceStopsAtLine(st, eid, lines);
      } else if k < |lines| {
        var rest := lines[1..];
        assert k == 1 + StopAt(rest, StopsAttendance(roster)) by {
          StopAtCons(lines, StopsAttendance(roster));
        }
        var next := if Blank(lines[0]) then st else AddRecord(st, AttendeeOf(st, lines[0])[0], eid);
        assert AddAttendance(st, eid, lines).outcome == AddAttendance(next, eid, rest).outcome by {
          AttendanceReadsLine(st, eid, lines);
        }
        AttendanceEndsAtStop(next, roster, eid, rest);
        assert lines[k] == rest[k - 1];
      }
    }
  }

  /** What the attendance loop does to a batch: the batch stops at the
      first line that is malformed or names no stored student; the students
      of the lines before it are recorded on `eid` in line order, one
      announcement each; the loop completes exactly when no line stops it,
      and otherwise ends as that line says. */
  lemma AttendanceImport(st: Store, eid: int, lines: seq<string>)
    ensures var r := AddAttendance(st, eid, lines);
      var k := StopAt(lines, StopsAttendance(st));
      var sids := ReadAttendees(st, lines);
      && r.store == AddRecords(st, sids, eid)
      && r.notices == Repeat(RecordAdded, |sids|)
      && (r.outcome == Completed <==> k == |lines|)
      && (k < |lines| ==> Some(r.outcome) == LineStop(st, lines[k]))
  {
    AttendanceRecordsReadAttendees(st, eid, lines);
    AttendanceAnnouncesEachRecord(st, eid, lines);
    AttendanceCompletesWithoutStop(st, st, eid, lines);
    AttendanceEndsAtStop(st, st, eid, lines);
  }

  /** Event names are unique in the store. */
  predicate UniqueEventNames(st: Store) {
    forall i, j :: 0 <= i < j < |st.events| ==> st.events[i].name != st.events[j].name
  }

  /** `addEventData`. An empty name is refused; an existing name the user
      declines to extend is refused; otherwise the attendance lines go to
      the target event, which is announced with `event_added` when it is
      new (before the lines are looked at, so it stays even when there are
      none). Only a new name adds an event, the students never change, and
      a valid store stays valid. */
  function AddEventData(st: Store, eventName: string, confirm: bool, lines: seq<string>): (r: Import)
    ensures r.store.students == st.students
    ensures !Proceeds(st, eventName, confirm) ==> r.store == st && r.notices == [] && r.outcome.Refused?
  {
    if eventName == "" then Import(st, [], Refused(EmptyEventName))
    else if IsEventExists(st, eventName) && !confirm then Import(st, [], Refused(Declined))
    else
      var t := Target(st, eventName);
      var opening := if IsEventExists(st, eventName) then [] else [EventAdded];
      if |lines| == 0 then Import(t.store, opening, Refused(NoStudentData))
      else
        var a := AddAttendance(t.store, t.id, lines);
        Import(a.store, opening + a.notices, a.outcome)
  }

  /** The refusals before any change: an empty name, and an existing name
      the user does not want to extend. */
  lemma EventDataRefusals(st: Store, eventName: string, confirm: bool, lines: seq<string>)
    ensures eventName == "" ==> AddEventData(st, eventName, confirm, lines) == Import(st, [], Refused(EmptyEventName))
    ensures eventName != "" && IsEventExists(st, eventName) && !confirm ==>
      AddEventData(st, eventName, confirm, lines) == Import(st, [], Refused(Declined))
  {
  }

  /** Once the handler proceeds, the event table is the target's: unchanged
      for an existing name, one new event for a new name, announced first.
      The event exists afterwards, and an empty list of lines is refused
      with the event kept. Otherwise the attendance loop runs on the target
      event and its announcements follow. */
  lemma EventDataProceeds(st: Store, eventName: string, confirm: bool, lines: seq<string>)
    requires Proceeds(st, eventName, confirm)
    ensures var r := AddEventData(st, eventName, confirm, lines);
      var t := Target(st, eventName);
      var opening := if IsEventExists(st, eventName) then [] else [EventAdded];
      && r.store.events == t.store.events
      && IsEventExists(r.store, eventName)
      && (|lines| == 0 ==> r == Import(t.store, opening, Refused(NoStudentData)))
      && (|lines| > 0 ==> r == Import(AddAttendance(t.store, t.id, lines).store,
                                      opening + AddAttendance(t.store, t.id, lines).notices,
                                      AddAttendance(t.store, t.id, lines).outcome))
  {
    var r := AddEventData(st, eventName, confirm, lines);
    var t := Target(st, eventName);
    var i :| 0 <= i < |t.store.events| && t.store.events[i] == Event(t.id, eventName);
    assert r.store.events[i].name == eventName;
  }

  /** The whole event import when it proceeds with lines: the records grow
      by the keys read before the batch stops, all on the target event; the
      announcements are the opening one for a new event and one per record;
      and the handler completes exactly when no line stops the batch. */
  lemma EventDataImport(st: Store, eventName: string, confirm: bool, lines: seq<string>)
    requires Proceeds(st, eventName, confirm) && |lines| > 0
    ensures var r := AddEventData(st, eventName, confirm, lines);
      var t := Target(st, eventName);
      var opening := if IsEventExists(st, eventName) then [] else [EventAdded];
      var k := StopAt(lines, StopsAttendance(t.store));
      var sids := ReadAttendees(t.store, lines);
      && r.store == AddRecords(t.store, sids, t.id)
      && r.notices == opening + Repeat(RecordAdded, |sids|)
      && (r.outcome == Completed <==> k == |lines|)
      && (k < |lines| ==> Some(r.outcome) == LineStop(t.store, lines[k]))
  {
    var t := Target(st, eventName);
    EventDataProceeds(st, eventName, confirm, lines);
    AttendanceImport(t.store, t.id, lines);
  }

  /** The event import keeps a valid store valid. */
  lemma EventDataKeepsValid(st: Store, eventName: string, confirm: bool, lines: seq<string>)
    requires Valid(st)
    ensures Valid(AddEventData(st, eventName, confirm, lines).store)
  {
    if Proceeds(st, eventName, confirm) && |lines| > 0 {
      var t := Target(st, eventName);
      assert HasEvent(t.store, t.id);
      AttendanceKeepsValid(t.store, t.id, lines);
    }
  }

  /** Event names created by the handler never duplicate a stored name. */
  lemma EventDataKeepsNamesUnique(st: Store, eventName: string, confirm: bool, lines: seq<string>)
    requires UniqueEventNames(st)
    ensures UniqueEventNames(AddEventData(st, eventName, confirm, lines).store)
  {
    if Proceeds(st, eventName, confirm) {
      UniqueAfterTarget(st, eventName);
      EventDataProceeds(st, eventName, confirm, lines);
    }
  }

  /** Resolving the target event keeps event names unique: a stored name is
      reused, and a new event is only inserted under an unused name. */
  lemma UniqueAfterTarget(st: Store, eventName: string)
    ensures UniqueEventNames(st) ==> UniqueEventNames(Target(st, eventName).store)
  {
    var t := Target(st, eventName);
    if UniqueEventNames(st) && !IsEventExists(st, eventName) {
      forall i, j | 0 <= i < j < |t.store.events|
        ensures t.store.events[i].name != t.store.events[j].name
      {
        if j < |st.events| {
          assert t.store.events[i] == st.events[i] && t.store.events[j] == st.events[j];
        } else {
          assert t.store.events[i] == st.events[i];
        }
      }
    }
  }

  /** In a store whose keys are all positive, no line meets the
      "student not found" branch: `findSid` either raises or returns a key
      Python reads as true. */
  lemma NotFoundDialogUnreachable(st: Store, line: string)
    requires WellFormed(st)
    ensures var o := LineStop(st, line); !(o.Some? && o.value.Refused? && o.value.reason.StudentNotFound?)
  {
    if Blank(line) {
      assert LineStop(st, line).None?;
    } else if |Fields(line)| != 3 {
      assert LineStop(st, line) == Some(Refused(InvalidFormat));
    } else {
      var f := Fields(line);
      var found := FindSid(st, f[0], f[1], f[2]);
      assert found.None? || found.value >= 1;
      assert LineStop(st, line) == LookupStop(found, f[2]);
    }
  }

  /** A three-field line naming no stored student makes `findSid` raise. */
  lemma UnknownStudentRaises(st: Store, line: string)
    requires !Blank(line) && |Fields(line)| == 3
    requires var f := Fields(line);
      forall i :: 0 <= i < |st.students| ==> !IsStudent(st.students[i], f[0], f[1], f[2])
    ensures LineStop(st, line) == Some(Raised(Fields(line)[2]))
  {
  }

  /** The end the handler evidently intends when `findSid` finds no row: the
      "student not found" error naming the student, instead of an escaping
      exception. */
  function ReportMissing(o: Outcome): (c: Outcome)
    ensures !c.Raised?
    ensures o.Raised? ==> c == Refused(StudentNotFound(o.name))
    ensures !o.Raised? ==> c == o
  {
    if o.Raised? then Refused(StudentNotFound(o.name)) else o
  }

  /** `addEventData` with a missing student reported rather than raised:
      the store and the announcements are those of the handler as written,
      and the handler always ends with True or an error dialog. */
  function AddEventDataCorrected(st: Store, eventName: string, confirm: bool, lines: seq<string>): (r: Import)
    ensures !r.outcome.Raised?
    ensures r.store == AddEventData(st, eventName, confirm, lines).store
  {
    var w := AddEventData(st, eventName, confirm, lines);
    Import(w.store, w.notices, ReportMissing(w.outcome))
  }

  /** In a valid store, the corrected handler shows the
      not-found error exactly when the line the batch stops at has three
      fields naming no stored student, and it completes exactly when the
      handler as written does. */
  lemma CorrectedReportsMissingStudent(st: Store, eventName: string, confirm: bool, lines: seq<string>)
    requires Valid(st) && Proceeds(st, eventName, confirm) && |lines| > 0
    ensures var r := AddEventDataCorrected(st, eventName, confirm, lines);
      var t := Target(st, eventName);
      var k := StopAt(lines, StopsAttendance(t.store));
      && (r.outcome == Completed <==> k == |lines|)
      && (k < |lines| ==>
            ((r.outcome.Refused? && r.outcome.reason.StudentNotFound?) <==>
               (|Fields(lines[k])| == 3 && FindSid(st, Fields(lines[k])[0], Fields(lines[k])[1], Fields(lines[k])[2]).None?)))
  {
    var t := Target(st, eventName);
    var k := StopAt(lines, StopsAttendance(t.store));
    EventDataImport(st, eventName, confirm, lines);
    if k < |lines| {
      assert Valid(t.store);
      NotFoundDialogUnreachable(t.store, lines[k]);
      if !Blank(lines[k]) && |Fields(lines[k])| == 3 {
        var f := Fields(lines[k]);
        assert FindSid(t.store, f[0], f[1], f[2]) == FindSid(st, f[0], f[1], f[2]);
      }
    }
  }

}
