/** The record store: three append-only tables (students, events and
    attendance records) with AUTOINCREMENT primary keys, the insert
    operations, the key lookups and the simple counting and listing queries.
    Nothing ever deletes or updates a row, so a store is its three tables. */
module RecordStore {

  import opened Wrappers
  import opened Seqs

  /** A `students` row; `class_number` is kept as the text the input dialog
      passes in. */
  datatype Student = Student(sid: int, className: string, classNumber: string, name: string, category: string)

  /** An `events` row. */
  datatype Event = Event(eid: int, name: string)

  /** A `records` row: student `sid` attended event `eid`. */
  datatype Record = Record(rid: int, sid: int, eid: int, status: string)

  datatype Store = Store(students: seq<Student>, events: seq<Event>, records: seq<Record>)

  /** The category value that every query reads as "no filter". */
  const AllCategories: string := "all"

  /** The default `status` of a record. */
  const Attended: string := "1"

  const EmptyStore: Store := Store([], [], [])

  /* ---------------------------------------------------------------------- */
  /* Primary keys                                                           */
  /* ---------------------------------------------------------------------- */

  function Sids(st: Store): seq<int> {
    seq(|st.students|, i requires 0 <= i < |st.students| => st.students[i].sid)
  }

  function Eids(st: Store): seq<int> {
    seq(|st.events|, i requires 0 <= i < |st.events| => st.events[i].eid)
  }

  function Rids(st: Store): seq<int> {
    seq(|st.records|, i requires 0 <= i < |st.records| => st.records[i].rid)
  }

  /** The largest key in use, or 0 for an empty table. */
  function MaxId(ids: seq<int>): (m: nat)
    ensures forall i :: 0 <= i < |ids| ==> ids[i] <= m
    ensures m == 0 || m in ids
  {
    if |ids| == 0 then 0
    else
      var m := MaxId(ids[..|ids| - 1]);
      assert m == 0 || m in ids by {
        assert m in ids[..|ids| - 1] ==> m in ids;
      }
      if ids[|ids| - 1] > m then ids[|ids| - 1] else m
  }

  /** The key AUTOINCREMENT gives a new row: one more than the largest key
      the table has ever held. Rows are never deleted, so that is the
      largest key it holds now. */
  function NextId(ids: seq<int>): (id: int)
    ensures id >= 1
    ensures forall i :: 0 <= i < |ids| ==> ids[i] < id
  {
    MaxId(ids) + 1
  }

  /** Keys are positive and strictly increasing in table order, hence unique. */
  predicate KeysIncreasing(ids: seq<int>) {
    && (forall i :: 0 <= i < |ids| ==> ids[i] >= 1)
    && (forall i, j :: 0 <= i < j < |ids| ==> ids[i] < ids[j])
  }

  /** What the tables look like after any sequence of inserts. */
  predicate WellFormed(st: Store) {
    KeysIncreasing(Sids(st)) && KeysIncreasing(Eids(st)) && KeysIncreasing(Rids(st))
  }

  /** Rows with different keys differ, so a well-formed student table holds
      each row once. */
  lemma WellFormedStudentsDistinct(st: Store)
    ensures WellFormed(st) ==> Distinct(st.students)
  {
    if WellFormed(st) {
      forall i, j | 0 <= i < j < |st.students|
        ensures st.students[i] != st.students[j]
      {
        assert Sids(st)[i] < Sids(st)[j];
      }
    }
  }

  predicate HasStudent(st: Store, sid: int) {
    exists i :: 0 <= i < |st.students| && st.students[i].sid == sid
  }

  predicate HasEvent(st: Store, eid: int) {
    exists i :: 0 <= i < |st.events| && st.events[i].eid == eid
  }

  /** A well-formed store whose records all name a stored student and a
      stored event. The database does not enforce these references; the
      application only ever inserts records whose ids it has just looked up. */
  predicate Valid(st: Store) {
    && WellFormed(st)
    && (forall i :: 0 <= i < |st.records| ==>
          HasStudent(st, st.records[i].sid) && HasEvent(st, st.records[i].eid))
  }

  lemma AppendKeepsKeysIncreasing(ids: seq<int>)
    requires KeysIncreasing(ids)
    ensures KeysIncreasing(ids + [NextId(ids)])
  {
  }

  /* ---------------------------------------------------------------------- */
  /* Counting queries                                                       */
  /* ---------------------------------------------------------------------- */

  function TotalNumberOfStudents(st: Store): nat { |st.students| }

  function TotalNumberOfEvents(st: Store): nat { |st.events| }

  function TotalNumberOfRecords(st: Store): nat { |st.records| }

  /* ---------------------------------------------------------------------- */
  /* Inserts                                                                */
  /* ---------------------------------------------------------------------- */

  /** `addStudent`: inserts one student row, with no uniqueness check. */
  function AddStudent(st: Store, className: string, classNumber: string, name: string, category: string): (r: Store)
    ensures |r.students| == |st.students| + 1 && r.students[..|st.students|] == st.students
    ensures var s := r.students[|st.students|];
      && s.className == className && s.classNumber == classNumber
      && s.name == name && s.category == category
      && s.sid >= 1
      && (forall i :: 0 <= i < |st.students| ==> st.students[i].sid < s.sid)
    ensures r.events == st.events && r.records == st.records
    ensures Valid(st) ==> Valid(r)
  {
    var s := Student(NextId(Sids(st)), className, classNumber, name, category);
    StudentInsertKeepsValid(st, s);
    st.(students := st.students + [s])
  }

  lemma StudentInsertKeepsValid(st: Store, s: Student)
    requires s.sid == NextId(Sids(st))
    ensures forall i :: 0 <= i < |st.students| ==> st.students[i].sid < s.sid
    ensures Valid(st) ==> Valid(st.(students := st.students + [s]))
  {
    var r := st.(students := st.students + [s]);
    assert forall i :: 0 <= i < |st.students| ==> Sids(st)[i] == st.students[i].sid;
    assert Sids(r) == Sids(st) + [s.sid];
    if Valid(st) {
      AppendKeepsKeysIncreasing(Sids(st));
      forall i | 0 <= i < |r.records|
        ensures HasStudent(r, r.records[i].sid)
      {
        var k :| 0 <= k < |st.students| && st.students[k].sid == r.records[i].sid;
        assert r.students[k] == st.students[k];
      }
    }
  }

  /** A new row and the key it was given (`cursor.lastrowid`). */
  datatype Inserted = Inserted(store: Store, id: int)

  /** `addEventWithReturn`: inserts one event row and returns its key, which
      exceeds every key already in the table. Afterwards the name exists. */
  function AddEventWithReturn(st: Store, name: string): (r: Inserted)
    ensures |r.store.events| == |st.events| + 1 && r.store.events[..|st.events|] == st.events
    ensures r.store.events[|st.events|] == Event(r.id, name)
    ensures r.id >= 1 && forall i :: 0 <= i < |st.events| ==> st.events[i].eid < r.id
    ensures r.store.students == st.students && r.store.records == st.records
    ensures IsEventExists(r.store, name)
    ensures Valid(st) ==> Valid(r.store)
  {
    var e := Event(NextId(Eids(st)), name);
    EventInsertKeepsValid(st, e);
    var s := st.(events := st.events + [e]);
    assert s.events[|st.events|].name == name;
    Inserted(s, e.eid)
  }

  lemma EventInsertKeepsValid(st: Store, e: Event)
    requires e.eid == NextId(Eids(st))
    ensures forall i :: 0 <= i < |st.events| ==> st.events[i].eid < e.eid
    ensures Valid(st) ==> Valid(st.(events := st.events + [e]))
  {
    var r := st.(events := st.events + [e]);
    assert forall i :: 0 <= i < |st.events| ==> Eids(st)[i] == st.events[i].eid;
    assert Eids(r) == Eids(st) + [e.eid];
    if Valid(st) {
      AppendKeepsKeysIncreasing(Eids(st));
      forall i | 0 <= i < |r.records|
        ensures HasEvent(r, r.records[i].eid)
      {
        var k :| 0 <= k < |st.events| && st.events[k].eid == r.records[i].eid;
        assert r.events[k] == st.events[k];
      }
    }
  }

  /** `addEvent`: the same insert, without returning the key. */
  function AddEvent(st: Store, name: string): (r: Store)
    ensures |r.events| == |st.events| + 1 && r.events[..|st.events|] == st.events
    ensures r.events[|st.events|].name == name
    ensures r.events[|st.events|].eid >= 1 && forall i :: 0 <= i < |st.events| ==> st.events[i].eid < r.events[|st.events|].eid
    ensures r.students == st.students && r.records == st.records
    ensures IsEventExists(r, name)
    ensures Valid(st) ==> Valid(r)
  {
    AddEventWithReturn(st, name).store
  }

  /** `addRecord`: inserts one attendance record; `status` defaults to "1".
      The store checks neither key. */
  function AddRecord(st: Store, sid: int, eid: int, status: string := Attended): (r: Store)
    ensures |r.records| == |st.records| + 1 && r.records[..|st.records|] == st.records
    ensures var rec := r.records[|st.records|];
      rec.sid == sid && rec.eid == eid && rec.status == status
      && rec.rid >= 1 && forall i :: 0 <= i < |st.records| ==> st.records[i].rid < rec.rid
    ensures r.students == st.students && r.events == st.events
    ensures Valid(st) && HasStudent(st, sid) && HasEvent(st, eid) ==> Valid(r)
  {
    var rec := Record(NextId(Rids(st)), sid, eid, status);
    RecordInsertKeepsValid(st, rec);
    st.(records := st.records + [rec])
  }

  lemma RecordInsertKeepsValid(st: Store, rec: Record)
    requires rec.rid == NextId(Rids(st))
    ensures forall i :: 0 <= i < |st.records| ==> st.records[i].rid < rec.rid
    ensures Valid(st) && HasStudent(st, rec.sid) && HasEvent(st, rec.eid) ==> Valid(st.(records := st.records + [rec]))
  {
    var r := st.(records := st.records + [rec]);
    assert forall i :: 0 <= i < |st.records| ==> Rids(st)[i] == st.records[i].rid;
    assert Rids(r) == Rids(st) + [rec.rid];
    if Valid(st) && HasStudent(st, rec.sid) && HasEvent(st, rec.eid) {
      AppendKeepsKeysIncreasing(Rids(st));
      assert forall i :: 0 <= i < |st.records| ==> r.records[i] == st.records[i];
    }
  }

  /** The counting queries after an insert: the table inserted into has one
      more row and the other two are unchanged. */
  lemma InsertsCount(st: Store, className: string, classNumber: string, name: string, category: string, sid: int, eid: int)
    ensures var r := AddStudent(st, className, classNumber, name, category);
      TotalNumberOfStudents(r) == TotalNumberOfStudents(st) + 1
      && TotalNumberOfEvents(r) == TotalNumberOfEvents(st) && TotalNumberOfRecords(r) == TotalNumberOfRecords(st)
    ensures var r := AddEvent(st, name);
      TotalNumberOfStudents(r) == TotalNumberOfStudents(st)
      && TotalNumberOfEvents(r) == TotalNumberOfEvents(st) + 1 && TotalNumberOfRecords(r) == TotalNumberOfRecords(st)
    ensures var r := AddRecord(st, sid, eid);
      TotalNumberOfStudents(r) == TotalNumberOfStudents(st)
      && TotalNumberOfEvents(r) == TotalNumberOfEvents(st) && TotalNumberOfRecords(r) == TotalNumberOfRecords(st) + 1
  {
  }

  /* ---------------------------------------------------------------------- */
  /* Lookups                                                                */
  /* ---------------------------------------------------------------------- */

  predicate IsStudent(s: Student, className: string, classNumber: string, name: string) {
    s.className == className && s.classNumber == classNumber && s.name == name
  }

  /** `findSid`: the key of the first student row with all three fields
      equal. `None` stands for `fetchone()` returning no row, on which the
      source's `[0]` raises. */
  function FindSid(st: Store, className: string, classNumber: string, name: string): (r: Option<int>)
    ensures r.None? <==> forall i :: 0 <= i < |st.students| ==> !IsStudent(st.students[i], className, classNumber, name)
    ensures r.Some? ==> exists i :: 0 <= i < |st.students| && IsStudent(st.students[i], className, classNumber, name) && st.students[i].sid == r.value
    ensures r.Some? && WellFormed(st) ==> r.value >= 1
  {
    var r := FindSidIn(st.students, className, classNumber, name);
    assert r.Some? && WellFormed(st) ==> r.value >= 1 by {
      if r.Some? && WellFormed(st) {
        var i :| 0 <= i < |st.students| && IsStudent(st.students[i], className, classNumber, name) && st.students[i].sid == r.value;
        assert Sids(st)[i] == st.students[i].sid;
      }
    }
    r
  }

  /** The lookup of `findSid`, which reads the student rows only. */
  function FindSidIn(students: seq<Student>, className: string, classNumber: string, name: string): (r: Option<int>)
    ensures r.None? <==> forall i :: 0 <= i < |students| ==> !IsStudent(students[i], className, classNumber, name)
    ensures r.Some? ==> exists i :: 0 <= i < |students| && IsStudent(students[i], className, classNumber, name) && students[i].sid == r.value
  {
    match FirstIndex(students, (s: Student) => IsStudent(s, className, classNumber, name))
    case None => None
    case Some(i) => Some(students[i].sid)
  }

  /** `findEid`: the key of the first event row with that name. */
  function FindEid(st: Store, name: string): (r: Option<int>)
    ensures r.None? <==> forall i :: 0 <= i < |st.events| ==> st.events[i].name != name
    ensures r.Some? ==> exists i :: 0 <= i < |st.events| && st.events[i].name == name && st.events[i].eid == r.value
  {
    match FirstIndex(st.events, (e: Event) => e.name == name)
    case None => None
    case Some(i) => Some(st.events[i].eid)
  }

  function EventNamed(name: string): Event -> bool {
    (e: Event) => e.name == name
  }

  /** `isEventExists`: whether `COUNT(*)` of events with exactly that name
      is positive, which is whether some stored event has that name. */
  function IsEventExists(st: Store, name: string): (b: bool)
    ensures b <==> exists i :: 0 <= i < |st.events| && st.events[i].name == name
  {
    Count(st.events, EventNamed(name)) > 0
  }

  /* ---------------------------------------------------------------------- */
  /* Participants of one event                                              */
  /* ---------------------------------------------------------------------- */

  /** `sid IN (SELECT sid FROM students WHERE category = ?)`. */
  predicate StudentInCategory(st: Store, sid: int, category: string) {
    exists i :: 0 <= i < |st.students| && st.students[i].sid == sid && st.students[i].category == category
  }

  function OnEvent(eid: int): Record -> bool {
    (r: Record) => r.eid == eid
  }

  function OnEventInCategory(st: Store, eid: int, category: string): Record -> bool {
    (r: Record) => r.eid == eid && StudentInCategory(st, r.sid, category)
  }

  /** `getNumberOfParticipants`: with "all", the number of records on the
      event; with a category, the number of those records whose student has
      that category, which can never be more. */
  function NumberOfParticipants(st: Store, eid: int, category: string := AllCategories): (n: nat)
    ensures category == AllCategories ==> n == Count(st.records, OnEvent(eid))
    ensures category != AllCategories ==> n == Count(st.records, OnEventInCategory(st, eid, category))
    ensures n <= Count(st.records, OnEvent(eid))
  {
    if category == AllCategories then Count(st.records, OnEvent(eid))
    else
      CountMonotone(st.records, OnEventInCategory(st, eid, category), OnEvent(eid));
      Count(st.records, OnEventInCategory(st, eid, category))
  }

  /* ---------------------------------------------------------------------- */
  /* Listings                                                               */
  /* ---------------------------------------------------------------------- */

  /** A row of `SELECT class, class_number, std_name, category FROM students`. */
  datatype StudentRow = StudentRow(className: string, classNumber: string, name: string, category: string)

  function RowOf(s: Student): StudentRow {
    StudentRow(s.className, s.classNumber, s.name, s.category)
  }

  /** `getAllStudents`: every stored student, category as stored. */
  function AllStudents(st: Store): (rows: seq<StudentRow>)
    ensures |rows| == |st.students|
    ensures forall i :: 0 <= i < |rows| ==> rows[i] == RowOf(st.students[i])
  {
    seq(|st.students|, i requires 0 <= i < |st.students| => RowOf(st.students[i]))
  }

  /** `getAllEvents` (and `getEvents`, which runs the same query): every
      stored event name. */
  function AllEvents(st: Store): (names: seq<string>)
    ensures |names| == |st.events|
    ensures forall i :: 0 <= i < |names| ==> names[i] == st.events[i].name
  {
    seq(|st.events|, i requires 0 <= i < |st.events| => st.events[i].name)
  }

  function InForm(form: string): Student -> bool {
    (s: Student) => form <= s.className
  }

  /** `getStudentsByForm`: the student rows whose class begins with `form`
      (`class LIKE form || '%'`), in table order. */
  function StudentsByForm(st: Store, form: string): (rows: seq<Student>)
    ensures forall s :: s in rows <==> s in st.students && form <= s.className
    ensures |rows| <= |st.students|
    ensures Distinct(st.students) ==> Distinct(rows)
    ensures WellFormed(st) ==> Distinct(rows)
  {
    WellFormedStudentsDistinct(st);
    Filter(st.students, InForm(form))
  }

  /* ---------------------------------------------------------------------- */
  /* Properties relating several operations                                 */
  /* ---------------------------------------------------------------------- */

  /** After `addStudent`, `getAllStudents` lists the earlier students
      followed by exactly the inserted row, category unchanged. */
  lemma AllStudentsAfterAdd(st: Store, row: StudentRow)
    ensures AllStudents(AddStudent(st, row.className, row.classNumber, row.name, row.category)) == AllStudents(st) + [row]
  {
    var r := AddStudent(st, row.className, row.classNumber, row.name, row.category);
    var a := AllStudents(r);
    var b := AllStudents(st) + [row];
    assert |a| == |b|;
    forall i | 0 <= i < |a| ensures a[i] == b[i] {
      if i < |st.students| {
        assert r.students[i] == st.students[i];
      }
    }
  }

  /** An event name is listed by `getAllEvents` exactly when
      `isEventExists` reports it. */
  lemma AllEventsMatchesExistence(st: Store, name: string)
    ensures name in AllEvents(st) <==> IsEventExists(st, name)
  {
    if IsEventExists(st, name) {
      var i :| 0 <= i < |st.events| && st.events[i].name == name;
      assert AllEvents(st)[i] == name;
    }
  }

  /** The empty prefix selects every student (`LIKE '%'`). */
  lemma {:induction false} EmptyFormSelectsAll(st: Store)
    ensures StudentsByForm(st, "") == st.students
  {
    FilterAll(st.students, InForm(""));
  }

  lemma {:induction false} FilterAll<T(!new)>(s: seq<T>, p: T -> bool)
    requires forall i :: 0 <= i < |s| ==> p(s[i])
    ensures Filter(s, p) == s
  {
    if |s| > 0 {
      var init := s[..|s| - 1];
      FilterAll(init, p);
      assert p(s[|s| - 1]);
      assert Filter(s, p) == Filter(init, p) + [s[|s| - 1]];
      assert init + [s[|s| - 1]] == s;
    }
  }

  /** A student found by `findSid` keeps being found after any further
      insert: rows are never removed. */
  lemma FindSidSurvivesInserts(st: Store, className: string, classNumber: string, name: string,
                              c: string, n: string, nm: string, cat: string, ename: string, sid: int, eid: int)
    requires FindSid(st, className, classNumber, name).Some?
    ensures FindSid(AddStudent(st, c, n, nm, cat), className, classNumber, name) == FindSid(st, className, classNumber, name)
    ensures FindSid(AddEvent(st, ename), className, classNumber, name) == FindSid(st, className, classNumber, name)
    ensures FindSid(AddRecord(st, sid, eid), className, classNumber, name) == FindSid(st, className, classNumber, name)
  {
    var r := AddStudent(st, c, n, nm, cat);
    var p := (s: Student) => IsStudent(s, className, classNumber, name);
    FirstIndexOfPrefix(st.students, r.students, p);
  }

  lemma {:induction false} FirstIndexOfPrefix<T>(s: seq<T>, t: seq<T>, p: T -> bool)
    requires |s| <= |t| && t[..|s|] == s
    requires FirstIndex(s, p).Some?
    ensures FirstIndex(t, p) == FirstIndex(s, p)
  {
    if p(s[0]) {
      assert t[0] == s[0];
    } else {
      assert t[0] == s[0];
      assert t[1..][..|s[1..]|] == s[1..];
      FirstIndexOfPrefix(s[1..], t[1..], p);
    }
  }

}
