/** The aggregation queries: participants per event (as a count and as a
    list of names), events per student (as a count and as a list of event
    names), each optionally restricted to one student category.

    Every join in these queries is on a primary key. In a well-formed store
    keys are unique (`StudentOfIsJoin`, `EventOfIsJoin`), so a record joins
    with at most one student and one event, and the model writes each join
    as a key lookup. A lookup that finds nothing is the NULL side of a LEFT
    JOIN, or a row an inner JOIN drops. */
module Aggregation {

  import opened Wrappers
  import opened Seqs
  import opened RecordStore

  /* ---------------------------------------------------------------------- */
  /* Joins on a primary key                                                 */
  /* ---------------------------------------------------------------------- */

  /** The student row `records.sid = students.sid` joins to. */
  function StudentOf(st: Store, sid: int): (r: Option<Student>)
    ensures r.None? <==> !HasStudent(st, sid)
    ensures r.Some? ==> r.value in st.students && r.value.sid == sid
  {
    match FirstIndex(st.students, (s: Student) => s.sid == sid)
    case None => None
    case Some(i) => Some(st.students[i])
  }

  /** The event row `records.eid = events.eid` joins to. */
  function EventOf(st: Store, eid: int): (r: Option<Event>)
    ensures r.None? <==> !HasEvent(st, eid)
    ensures r.Some? ==> r.value in st.events && r.value.eid == eid
  {
    match FirstIndex(st.events, (e: Event) => e.eid == eid)
    case None => None
    case Some(i) => Some(st.events[i])
  }

  /** In a well-formed store the lookup finds exactly the rows the join matches. */
  lemma StudentOfIsJoin(st: Store, sid: int, s: Student)
    requires WellFormed(st)
    ensures StudentOf(st, sid) == Some(s) <==> s in st.students && s.sid == sid
  {
    if s in st.students && s.sid == sid {
      var j :| 0 <= j < |st.students| && st.students[j] == s;
      var i :| 0 <= i < |st.students| && st.students[i] == StudentOf(st, sid).value;
      assert Sids(st)[i] == st.students[i].sid && Sids(st)[j] == st.students[j].sid;
    }
  }

  lemma EventOfIsJoin(st: Store, eid: int, e: Event)
    requires WellFormed(st)
    ensures EventOf(st, eid) == Some(e) <==> e in st.events && e.eid == eid
  {
    if e in st.events && e.eid == eid {
      var j :| 0 <= j < |st.events| && st.events[j] == e;
      var i :| 0 <= i < |st.events| && st.events[i] == EventOf(st, eid).value;
      assert Eids(st)[i] == st.events[i].eid && Eids(st)[j] == st.events[j].eid;
    }
  }

  function EventNameOf(st: Store, r: Record): Option<string> {
    match EventOf(st, r.eid)
    case None => None
    case Some(e) => Some(e.name)
  }

  function CategoryOf(st: Store, sid: int): Option<string> {
    match StudentOf(st, sid)
    case None => None
    case Some(s) => Some(s.category)
  }

  /** Whether a student passes the category filter; "all" passes everyone. */
  predicate InCategory(s: Student, category: string) {
    category == AllCategories || s.category == category
  }

  /* ---------------------------------------------------------------------- */
  /* Participants per event: getStudentEventTable                           */
  /* ---------------------------------------------------------------------- */

  function OnEventNamed(st: Store, name: string): Record -> bool {
    (r: Record) => EventNameOf(st, r) == Some(name)
  }

  function OnEventNamedIn(st: Store, name: string, category: string): Record -> bool {
    (r: Record) => EventNameOf(st, r) == Some(name) && CategoryOf(st, r.sid) == Some(category)
  }

  /** `COUNT(records.sid)` for the group of events called `name`: without a
      filter, every record on such an event (the LEFT JOIN keeps events with
      none, at 0); with a category, only those whose student has it, which is
      never more. */
  function EventAttendance(st: Store, name: string, category: string): (n: nat)
    ensures category == AllCategories ==> n == Count(st.records, OnEventNamed(st, name))
    ensures category != AllCategories ==> n == Count(st.records, OnEventNamedIn(st, name, category))
    ensures n <= Count(st.records, OnEventNamed(st, name))
  {
    if category == AllCategories then Count(st.records, OnEventNamed(st, name))
    else
      CountMonotone(st.records, OnEventNamedIn(st, name, category), OnEventNamed(st, name));
      Count(st.records, OnEventNamedIn(st, name, category))
  }

  function HasAttendance(st: Store, category: string): string -> bool {
    (name: string) => EventAttendance(st, name, category) > 0
  }

  /** The event-name groups a query shows: every distinct event name without
      a filter; with a category, the `WHERE category = ?` after the LEFT
      JOIN drops the groups that have no participant of that category. */
  function ShownEventNames(st: Store, category: string): (names: seq<string>)
    ensures Distinct(names)
    ensures forall name :: name in names <==>
      IsEventExists(st, name) && (category == AllCategories || EventAttendance(st, name, category) > 0)
  {
    var names := Dedup(AllEvents(st));
    forall name ensures name in AllEvents(st) <==> IsEventExists(st, name) {
      AllEventsMatchesExistence(st, name);
    }
    if category == AllCategories then names else Filter(names, HasAttendance(st, category))
  }

  datatype EventCount = EventCount(eventName: string, count: nat)

  function CountNames(rows: seq<EventCount>): seq<string> {
    seq(|rows|, i requires 0 <= i < |rows| => rows[i].eventName)
  }

  /** `getStudentEventTable`: one row per distinct event name with its
      participant count. Unfiltered, every event name appears, those without
      records at 0; filtered, only names with a participant of the category. */
  function StudentEventTable(st: Store, category: string := AllCategories): (rows: seq<EventCount>)
    ensures Distinct(CountNames(rows))
    ensures forall name :: name in CountNames(rows) <==>
      IsEventExists(st, name) && (category == AllCategories || EventAttendance(st, name, category) > 0)
    ensures forall i :: 0 <= i < |rows| ==> rows[i].count == EventAttendance(st, rows[i].eventName, category)
  {
    CountRows(st, ShownEventNames(st, category), category)
  }

  function CountRows(st: Store, names: seq<string>, category: string): (rows: seq<EventCount>)
    ensures CountNames(rows) == names
    ensures forall i :: 0 <= i < |rows| ==> rows[i].count == EventAttendance(st, rows[i].eventName, category)
  {
    var rows := seq(|names|, i requires 0 <= i < |names| => EventCount(names[i], EventAttendance(st, names[i], category)));
    assert CountNames(rows) == names;
    rows
  }

  /** An event nobody attended still shows, with count 0. */
  lemma EventWithoutRecordsShowsZero(st: Store, e: Event)
    requires e in st.events
    requires forall i :: 0 <= i < |st.records| ==> EventNameOf(st, st.records[i]) != Some(e.name)
    ensures EventCount(e.name, 0) in StudentEventTable(st)
  {
    var rows := StudentEventTable(st);
    assert IsEventExists(st, e.name);
    assert e.name in CountNames(rows);
    var i :| 0 <= i < |rows| && CountNames(rows)[i] == e.name;
    assert rows[i] == EventCount(e.name, 0);
  }

  /** Every row of a category table has a row of the same event in the
      unfiltered table with at least that count. */
  lemma CategoryTableWithinAll(st: Store, category: string)
    ensures forall row :: row in StudentEventTable(st, category) ==>
      exists all :: all in StudentEventTable(st) && all.eventName == row.eventName && row.count <= all.count
  {
    var rows := StudentEventTable(st);
    forall row | row in StudentEventTable(st, category)
      ensures exists all :: all in rows && all.eventName == row.eventName && row.count <= all.count
    {
      var filtered := StudentEventTable(st, category);
      var k :| 0 <= k < |filtered| && filtered[k] == row;
      assert row.eventName in CountNames(filtered);
      assert row.eventName in CountNames(rows);
      var i :| 0 <= i < |rows| && CountNames(rows)[i] == row.eventName;
      assert rows[i] in rows;
    }
  }

  /* The unfiltered table accounts for every record exactly once. */

  function TableTotal(rows: seq<EventCount>): nat {
    if |rows| == 0 then 0 else TableTotal(rows[..|rows| - 1]) + rows[|rows| - 1].count
  }

  /** How many of `names` a record's event is called: 0 or 1 for distinct names. */
  function Hits(st: Store, r: Record, names: seq<string>): nat {
    if |names| == 0 then 0
    else Hits(st, r, names[..|names| - 1]) + (if OnEventNamed(st, names[|names| - 1])(r) then 1 else 0)
  }

  /** Records on events called one of `names`, summed name by name. */
  function SumCounts(st: Store, rs: seq<Record>, names: seq<string>): nat {
    if |names| == 0 then 0
    else SumCounts(st, rs, names[..|names| - 1]) + Count(rs, OnEventNamed(st, names[|names| - 1]))
  }

  lemma {:induction false} HitsOfDistinct(st: Store, r: Record, names: seq<string>)
    requires Distinct(names)
    ensures Hits(st, r, names) == (if EventNameOf(st, r).Some? && EventNameOf(st, r).value in names then 1 else 0)
  {
    if |names| > 0 {
      var init := names[..|names| - 1];
      var last := names[|names| - 1];
      HitsOfDistinct(st, r, init);
      assert last !in init;
      assert forall x :: x in names <==> x in init || x == last;
    }
  }

  lemma {:induction false} SumCountsAppend(st: Store, rs: seq<Record>, r: Record, names: seq<string>)
    ensures SumCounts(st, rs + [r], names) == SumCounts(st, rs, names) + Hits(st, r, names)
  {
    if |names| > 0 {
      SumCountsAppend(st, rs, r, names[..|names| - 1]);
      CountAppend(rs, r, OnEventNamed(st, names[|names| - 1]));
    }
  }

  lemma {:induction false} SumCountsCoversRecords(st: Store, rs: seq<Record>, names: seq<string>)
    requires Distinct(names)
    requires forall i :: 0 <= i < |rs| ==> EventNameOf(st, rs[i]).Some? && EventNameOf(st, rs[i]).value in names
    ensures SumCounts(st, rs, names) == |rs|
  {
    if |rs| == 0 {
      SumCountsEmpty(st, names);
    } else {
      var init, last := rs[..|rs| - 1], rs[|rs| - 1];
      assert SumCounts(st, init, names) == |init| by {
        assert forall i :: 0 <= i < |init| ==> init[i] == rs[i];
        SumCountsCoversRecords(st, init, names);
      }
      assert Hits(st, last, names) == 1 by {
        HitsOfDistinct(st, last, names);
      }
      InitLast(rs);
      SumCountsAppend(st, init, last, names);
    }
  }

  lemma {:induction false} SumCountsEmpty(st: Store, names: seq<string>)
    ensures SumCounts(st, [], names) == 0
  {
    if |names| > 0 {
      SumCountsEmpty(st, names[..|names| - 1]);
    }
  }

  lemma {:induction false} TableTotalIsSumCounts(st: Store, names: seq<string>)
    ensures TableTotal(seq(|names|, i requires 0 <= i < |names| => EventCount(names[i], EventAttendance(st, names[i], AllCategories))))
         == SumCounts(st, st.records, names)
  {
    var rows := seq(|names|, i requires 0 <= i < |names| => EventCount(names[i], EventAttendance(st, names[i], AllCategories)));
    if |names| > 0 {
      var init := names[..|names| - 1];
      TableTotalIsSumCounts(st, init);
      assert rows[..|rows| - 1] == seq(|init|, i requires 0 <= i < |init| => EventCount(init[i], EventAttendance(st, init[i], AllCategories)));
    }
  }

  /** In a valid store the unfiltered counts add up to the number of
      records: each record is counted under exactly one event name. */
  lemma TableAccountsForEveryRecord(st: Store)
    requires Valid(st)
    ensures TableTotal(StudentEventTable(st)) == |st.records|
  {
    var names := ShownEventNames(st, AllCategories);
    forall i | 0 <= i < |st.records|
      ensures EventNameOf(st, st.records[i]).Some? && EventNameOf(st, st.records[i]).value in names
    {
      var e := EventOf(st, st.records[i].eid).value;
      assert IsEventExists(st, e.name);
    }
    SumCountsCoversRecords(st, st.records, names);
    TableTotalIsSumCounts(st, names);
  }

  /* ---------------------------------------------------------------------- */
  /* Participant names per event: getEventParticipantWithNames              */
  /* ---------------------------------------------------------------------- */

  /** A record on an event called `name` whose student exists and passes the filter. */
  function Attends(st: Store, name: string, category: string): Record -> bool {
    (r: Record) => EventNameOf(st, r) == Some(name) && StudentOf(st, r.sid).Some? && InCategory(StudentOf(st, r.sid).value, category)
  }

  /** The name of the student with key `sid`, if there is one. */
  function NameOf(st: Store, sid: int): Option<string> {
    match StudentOf(st, sid)
    case None => None
    case Some(s) => Some(s.name)
  }

  /** A record that `Attends` the events called `name` and whose student is called `x`. */
  function AttendsAs(st: Store, name: string, category: string, x: string): Record -> bool {
    (r: Record) => Attends(st, name, category)(r) && NameOf(st, r.sid) == Some(x)
  }

  /** The `std_name` values `GROUP_CONCAT` collects for the events called
      `name`, in record order; NULL student columns are skipped. */
  function ParticipantNames(st: Store, rs: seq<Record>, name: string, category: string): (names: seq<string>)
    ensures |names| == Count(rs, Attends(st, name, category))
    ensures forall i :: 0 <= i < |names| ==> exists j :: 0 <= j < |st.students| && st.students[j].name == names[i]
  {
    if |rs| == 0 then []
    else
      var init := ParticipantNames(st, rs[..|rs| - 1], name, category);
      var r := rs[|rs| - 1];
      if Attends(st, name, category)(r) then
        var s := StudentOf(st, r.sid).value;
        assert exists j :: 0 <= j < |st.students| && st.students[j].name == s.name;
        init + [s.name]
      else init
  }

  /** Each name occurs in the list as often as there are qualifying records
      whose student has that name. */
  lemma {:induction false} ParticipantNamesCountEach(st: Store, rs: seq<Record>, name: string, category: string, x: string)
    ensures multiset(ParticipantNames(st, rs, name, category))[x] == Count(rs, AttendsAs(st, name, category, x))
    decreases |rs|
  {
    if |rs| > 0 {
      ParticipantNamesCountEach(st, rs[..|rs| - 1], name, category, x);
    }
  }

  /** A row of `getEventParticipantWithNames`; an empty list is the NULL
      that `GROUP_CONCAT` gives a group without participants. */
  datatype EventParticipants = EventParticipants(eventName: string, participants: seq<string>)

  function ParticipantEventNames(rows: seq<EventParticipants>): seq<string> {
    seq(|rows|, i requires 0 <= i < |rows| => rows[i].eventName)
  }

  /** `getEventParticipantWithNames`: the same groups as
      `getStudentEventTable`, each with the names of its participants. */
  function EventParticipantWithNames(st: Store, category: string := AllCategories): (rows: seq<EventParticipants>)
    ensures ParticipantEventNames(rows) == CountNames(StudentEventTable(st, category))
    ensures forall i :: 0 <= i < |rows| ==> |rows[i].participants| == Count(st.records, Attends(st, rows[i].eventName, category))
    ensures forall i, x :: 0 <= i < |rows| ==>
      multiset(rows[i].participants)[x] == Count(st.records, AttendsAs(st, rows[i].eventName, category, x))
  {
    ParticipantRows(st, CountNames(StudentEventTable(st, category)), category)
  }

  function ParticipantRows(st: Store, names: seq<string>, category: string): (rows: seq<EventParticipants>)
    ensures ParticipantEventNames(rows) == names
    ensures forall i :: 0 <= i < |rows| ==> |rows[i].participants| == Count(st.records, Attends(st, rows[i].eventName, category))
    ensures forall i, x :: 0 <= i < |rows| ==>
      multiset(rows[i].participants)[x] == Count(st.records, AttendsAs(st, rows[i].eventName, category, x))
  {
    var rows := seq(|names|, i requires 0 <= i < |names| => EventParticipants(names[i], ParticipantNames(st, st.records, names[i], category)));
    assert ParticipantEventNames(rows) == names;
    forall i, x | 0 <= i < |rows|
      ensures multiset(rows[i].participants)[x] == Count(st.records, AttendsAs(st, rows[i].eventName, category, x))
    {
      ParticipantNamesCountEach(st, st.records, names[i], category, x);
    }
    rows
  }

  /** The names listed for an event are as many as the count the count table
      shows for it: always for a category, and for "all" once every record's
      student exists. */
  lemma ParticipantsMatchCounts(st: Store, category: string)
    requires category == AllCategories ==> Valid(st)
    ensures var names := EventParticipantWithNames(st, category);
      var counts := StudentEventTable(st, category);
      |names| == |counts| &&
      forall i :: 0 <= i < |names| ==> |names[i].participants| == counts[i].count
  {
    var names := EventParticipantWithNames(st, category);
    var counts := StudentEventTable(st, category);
    assert |names| == |ParticipantEventNames(names)| == |CountNames(counts)| == |counts|;
    forall i | 0 <= i < |names| ensures |names[i].participants| == counts[i].count {
      var n := counts[i].eventName;
      assert names[i].eventName == ParticipantEventNames(names)[i] == CountNames(counts)[i] == n;
      AttendsIsAttendance(st, n, category);
    }
  }

  lemma AttendsIsAttendance(st: Store, name: string, category: string)
    requires category == AllCategories ==> Valid(st)
    ensures Count(st.records, Attends(st, name, category)) == EventAttendance(st, name, category)
  {
    if category == AllCategories {
      forall i | 0 <= i < |st.records|
        ensures Attends(st, name, category)(st.records[i]) <==> OnEventNamed(st, name)(st.records[i])
      {
        assert HasStudent(st, st.records[i].sid);
      }
      CountCongruent(st.records, Attends(st, name, category), OnEventNamed(st, name));
    } else {
      CountCongruent(st.records, Attends(st, name, category), OnEventNamedIn(st, name, category));
    }
  }

  /* ---------------------------------------------------------------------- */
  /* Events per student: getStudentsEventCounts                             */
  /* ---------------------------------------------------------------------- */

  function OfStudent(sid: int): Record -> bool {
    (r: Record) => r.sid == sid
  }

  function OfStudentOnStoredEvent(st: Store, sid: int): Record -> bool {
    (r: Record) => r.sid == sid && HasEvent(st, r.eid)
  }

  /** `COUNT(*)` for one student's group. Unfiltered: the student's records.
      Filtered: the `category` inside the `events` subquery can only be the
      outer `students.category`, so a student of another category has no
      group and a student of that category counts the records whose event
      exists. */
  function EventsAttended(st: Store, s: Student, category: string): (n: nat)
    ensures category == AllCategories ==> n == Count(st.records, OfStudent(s.sid))
    ensures category != AllCategories && s.category == category ==> n == Count(st.records, OfStudentOnStoredEvent(st, s.sid))
    ensures n <= Count(st.records, OfStudent(s.sid))
    ensures !InCategory(s, category) ==> n == 0
  {
    if category == AllCategories then Count(st.records, OfStudent(s.sid))
    else if s.category == category then
      CountMonotone(st.records, OfStudentOnStoredEvent(st, s.sid), OfStudent(s.sid));
      Count(st.records, OfStudentOnStoredEvent(st, s.sid))
    else 0
  }

  /** A row of `getStudentsEventCounts`; the query shows the student's class,
      class number and name beside the count. */
  datatype StudentCount = StudentCount(student: Student, count: nat)

  function Participates(st: Store, category: string): Student -> bool {
    (s: Student) => EventsAttended(st, s, category) > 0
  }

  /** `getStudentsEventCounts`: the inner JOIN with `GROUP BY records.sid`
      lists exactly the students with at least one counted record, each with
      that count; a student without records is absent. */
  function StudentsEventCounts(st: Store, category: string := AllCategories): (rows: seq<StudentCount>)
    ensures forall i :: 0 <= i < |rows| ==>
      rows[i].student in st.students && rows[i].count > 0 && rows[i].count == EventsAttended(st, rows[i].student, category)
    ensures forall i :: 0 <= i < |st.students| && EventsAttended(st, st.students[i], category) > 0 ==>
      StudentCount(st.students[i], EventsAttended(st, st.students[i], category)) in rows
    ensures forall i :: 0 <= i < |rows| ==> InCategory(rows[i].student, category) && Count(st.records, OfStudent(rows[i].student.sid)) > 0
    ensures |rows| <= |st.students|
    ensures WellFormed(st) ==> Distinct(rows)
  {
    var shown := Filter(st.students, Participates(st, category));
    CountRowsAreParticipants(st, category, shown);
    ParticipantsHaveCountRows(st, category, shown);
    WellFormedStudentsDistinct(st);
    StudentCountRows(st, shown, category)
  }

  lemma CountRowsAreParticipants(st: Store, category: string, shown: seq<Student>)
    requires shown == Filter(st.students, Participates(st, category))
    ensures var rows := StudentCountRows(st, shown, category);
      forall i :: 0 <= i < |rows| ==>
        && rows[i].student in st.students && rows[i].count > 0
        && InCategory(rows[i].student, category) && Count(st.records, OfStudent(rows[i].student.sid)) > 0
  {
    var rows := StudentCountRows(st, shown, category);
    forall i | 0 <= i < |rows|
      ensures rows[i].student in st.students && rows[i].count > 0
        && InCategory(rows[i].student, category) && Count(st.records, OfStudent(rows[i].student.sid)) > 0
    {
      assert rows[i].student in shown;
    }
  }

  lemma ParticipantsHaveCountRows(st: Store, category: string, shown: seq<Student>)
    requires shown == Filter(st.students, Participates(st, category))
    ensures forall i :: 0 <= i < |st.students| && EventsAttended(st, st.students[i], category) > 0 ==>
      StudentCount(st.students[i], EventsAttended(st, st.students[i], category)) in StudentCountRows(st, shown, category)
  {
    forall i | 0 <= i < |st.students| && EventsAttended(st, st.students[i], category) > 0
      ensures StudentCount(st.students[i], EventsAttended(st, st.students[i], category)) in StudentCountRows(st, shown, category)
    {
      assert st.students[i] in shown;
    }
  }

  function StudentCountRows(st: Store, shown: seq<Student>, category: string): (rows: seq<StudentCount>)
    ensures |rows| == |shown|
    ensures forall i :: 0 <= i < |rows| ==> rows[i] == StudentCount(shown[i], EventsAttended(st, shown[i], category))
    ensures forall s :: s in shown ==> StudentCount(s, EventsAttended(st, s, category)) in rows
    ensures forall row :: row in rows ==> row.student in shown && row.count == EventsAttended(st, row.student, category)
  {
    var rows := seq(|shown|, i requires 0 <= i < |shown| => StudentCount(shown[i], EventsAttended(st, shown[i], category)));
    assert forall s :: s in shown ==> StudentCount(s, EventsAttended(st, s, category)) in rows by {
      forall s | s in shown ensures StudentCount(s, EventsAttended(st, s, category)) in rows {
        var k :| 0 <= k < |shown| && shown[k] == s;
        assert rows[k] == StudentCount(s, EventsAttended(st, s, category));
      }
    }
    rows
  }

  /** A row is in `getStudentsEventCounts` exactly when it pairs a stored
      student with that student's positive count. */
  lemma StudentCountsMembership(st: Store, category: string, row: StudentCount)
    ensures row in StudentsEventCounts(st, category) <==>
      row.student in st.students && row.count == EventsAttended(st, row.student, category) && row.count > 0
  {
    var rows := StudentsEventCounts(st, category);
    if row in rows {
      var k :| 0 <= k < |rows| && rows[k] == row;
    }
    if row.student in st.students && row.count == EventsAttended(st, row.student, category) && row.count > 0 {
      var j :| 0 <= j < |st.students| && st.students[j] == row.student;
    }
  }

  /** In a valid store every record's event exists, so a category table is
      exactly the unfiltered table restricted to the students of that
      category. */
  lemma StudentCountsByCategory(st: Store, category: string)
    requires Valid(st)
    requires category != AllCategories
    ensures forall row :: row in StudentsEventCounts(st, category) <==>
      row in StudentsEventCounts(st) && row.student.category == category
  {
    forall row
      ensures row in StudentsEventCounts(st, category) <==> row in StudentsEventCounts(st) && row.student.category == category
    {
      StudentCountsMembership(st, category, row);
      StudentCountsMembership(st, AllCategories, row);
      if row.student.category == category {
        forall i | 0 <= i < |st.records|
          ensures OfStudentOnStoredEvent(st, row.student.sid)(st.records[i]) <==> OfStudent(row.student.sid)(st.records[i])
        {
          assert HasEvent(st, st.records[i].eid);
        }
        CountCongruent(st.records, OfStudentOnStoredEvent(st, row.student.sid), OfStudent(row.student.sid));
      }
    }
  }

  /* ---------------------------------------------------------------------- */
  /* Event names per student: getStudentsEventsParticipated                 */
  /* ---------------------------------------------------------------------- */

  /** The grouping key `class, class_number, std_name`. */
  datatype StudentKey = StudentKey(className: string, classNumber: string, name: string)

  function KeyOf(s: Student): StudentKey {
    StudentKey(s.className, s.classNumber, s.name)
  }

  /** A record that joins to both its student and its event, whose student
      has grouping key `key` and passes the filter. */
  function JoinedWithKey(st: Store, key: StudentKey, category: string): Record -> bool {
    (r: Record) =>
      && StudentOf(st, r.sid).Some? && EventOf(st, r.eid).Some?
      && KeyOf(StudentOf(st, r.sid).value) == key
      && InCategory(StudentOf(st, r.sid).value, category)
  }

  /** The `event_name` values `GROUP_CONCAT` collects for one key, in record order. */
  function EventNamesOf(st: Store, rs: seq<Record>, key: StudentKey, category: string): (names: seq<string>)
    ensures |names| == Count(rs, JoinedWithKey(st, key, category))
    ensures forall i :: 0 <= i < |names| ==> IsEventExists(st, names[i])
  {
    if |rs| == 0 then []
    else
      var init := EventNamesOf(st, rs[..|rs| - 1], key, category);
      var r := rs[|rs| - 1];
      if JoinedWithKey(st, key, category)(r) then
        var e := EventOf(st, r.eid).value;
        assert IsEventExists(st, e.name);
        init + [e.name]
      else init
  }

  /** A record joined to key `key` whose event is called `x`. */
  function JoinedOnEvent(st: Store, key: StudentKey, category: string, x: string): Record -> bool {
    (r: Record) => JoinedWithKey(st, key, category)(r) && EventNameOf(st, r) == Some(x)
  }

  /** Each event name occurs in a key's list as often as there are joined
      records of that key on an event with that name. */
  lemma {:induction false} EventNamesOfCountsEach(st: Store, rs: seq<Record>, key: StudentKey, category: string, x: string)
    ensures multiset(EventNamesOf(st, rs, key, category))[x] == Count(rs, JoinedOnEvent(st, key, category, x))
    decreases |rs|
  {
    if |rs| > 0 {
      var init := rs[..|rs| - 1];
      var r := rs[|rs| - 1];
      EventNamesOfCountsEach(st, init, key, category, x);
      if JoinedWithKey(st, key, category)(r) {
        var e := EventOf(st, r.eid).value;
        assert EventNamesOf(st, rs, key, category) == EventNamesOf(st, init, key, category) + [e.name];
        assert JoinedOnEvent(st, key, category, x)(r) <==> e.name == x;
      }
    }
  }

  /** A row of `getStudentsEventsParticipated`; the query renders `events`
      as one text joined with ", ". */
  datatype StudentEvents = StudentEvents(key: StudentKey, events: seq<string>)

  function EventsKeys(rows: seq<StudentEvents>): seq<StudentKey> {
    seq(|rows|, i requires 0 <= i < |rows| => rows[i].key)
  }

  function StudentKeys(st: Store): seq<StudentKey> {
    seq(|st.students|, i requires 0 <= i < |st.students| => KeyOf(st.students[i]))
  }

  function HasJoinedRecord(st: Store, category: string): StudentKey -> bool {
    (key: StudentKey) => Count(st.records, JoinedWithKey(st, key, category)) > 0
  }

  /** `getStudentsEventsParticipated`: one row per distinct (class, class
      number, name) that has a record joining to both a student and an event
      (inner JOINs), with the names of those events. Students without
      records are absent; two students sharing a key share a row. */
  function StudentsEventsParticipated(st: Store, category: string := AllCategories): (rows: seq<StudentEvents>)
    ensures Distinct(EventsKeys(rows))
    ensures forall key :: key in EventsKeys(rows) <==> Count(st.records, JoinedWithKey(st, key, category)) > 0
    ensures forall i :: 0 <= i < |rows| ==> |rows[i].events| == Count(st.records, JoinedWithKey(st, rows[i].key, category))
    ensures forall i, x :: 0 <= i < |rows| ==>
      multiset(rows[i].events)[x] == Count(st.records, JoinedOnEvent(st, rows[i].key, category, x))
  {
    var keys := Filter(Dedup(StudentKeys(st)), HasJoinedRecord(st, category));
    JoinedKeysAreStored(st, category);
    KeyRows(st, keys, category)
  }

  /** A key with a joined record is the key of some stored student. */
  lemma JoinedKeysAreStored(st: Store, category: string)
    ensures forall key :: Count(st.records, JoinedWithKey(st, key, category)) > 0 ==> key in StudentKeys(st)
  {
    forall key | Count(st.records, JoinedWithKey(st, key, category)) > 0
      ensures key in StudentKeys(st)
    {
      var i :| 0 <= i < |st.records| && JoinedWithKey(st, key, category)(st.records[i]);
      var s := StudentOf(st, st.records[i].sid).value;
      var j :| 0 <= j < |st.students| && st.students[j] == s;
      assert StudentKeys(st)[j] == key;
    }
  }

  function KeyRows(st: Store, keys: seq<StudentKey>, category: string): (rows: seq<StudentEvents>)
    ensures EventsKeys(rows) == keys
    ensures forall i :: 0 <= i < |rows| ==> |rows[i].events| == Count(st.records, JoinedWithKey(st, rows[i].key, category))
    ensures forall i, x :: 0 <= i < |rows| ==>
      multiset(rows[i].events)[x] == Count(st.records, JoinedOnEvent(st, rows[i].key, category, x))
  {
    var rows := seq(|keys|, i requires 0 <= i < |keys| => StudentEvents(keys[i], EventNamesOf(st, st.records, keys[i], category)));
    assert EventsKeys(rows) == keys;
    forall i, x | 0 <= i < |rows|
      ensures multiset(rows[i].events)[x] == Count(st.records, JoinedOnEvent(st, rows[i].key, category, x))
    {
      EventNamesOfCountsEach(st, st.records, keys[i], category, x);
    }
    rows
  }

  /** For a student no other student shares a key with, the event list of
      its key is as long as its count in `getStudentsEventCounts`, and the
      student is in one listing exactly when it is in the other. */
  lemma ParticipatedMatchesCounts(st: Store, s: Student)
    requires Valid(st)
    requires s in st.students
    requires forall i :: 0 <= i < |st.students| && KeyOf(st.students[i]) == KeyOf(s) ==> st.students[i] == s
    ensures var rows := StudentsEventsParticipated(st);
      forall i :: 0 <= i < |rows| && rows[i].key == KeyOf(s) ==> |rows[i].events| == EventsAttended(st, s, AllCategories)
    ensures KeyOf(s) in EventsKeys(StudentsEventsParticipated(st)) <==>
      StudentCount(s, EventsAttended(st, s, AllCategories)) in StudentsEventCounts(st)
  {
    forall i | 0 <= i < |st.records|
      ensures JoinedWithKey(st, KeyOf(s), AllCategories)(st.records[i]) <==> OfStudent(s.sid)(st.records[i])
    {
      var r := st.records[i];
      assert HasStudent(st, r.sid) && HasEvent(st, r.eid);
      var t := StudentOf(st, r.sid).value;
      StudentOfIsJoin(st, r.sid, s);
      var j :| 0 <= j < |st.students| && st.students[j] == t;
      assert KeyOf(t) == KeyOf(s) ==> t == s;
    }
    CountCongruent(st.records, JoinedWithKey(st, KeyOf(s), AllCategories), OfStudent(s.sid));
    var counts := StudentsEventCounts(st);
    if StudentCount(s, EventsAttended(st, s, AllCategories)) in counts {
      var k :| 0 <= k < |counts| && counts[k] == StudentCount(s, EventsAttended(st, s, AllCategories));
    }
  }

}
