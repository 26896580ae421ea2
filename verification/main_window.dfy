/** The main window's share of the logic: the display names of the student
    categories, the category picker behind the four report windows, and the
    refresh of the three live tables when the store announces a change. The
    window itself is reduced to the contents of those three tables. */
module MainWindow {

  import opened Wrappers
  import opened RecordStore
  import opened Aggregation
  import opened InputDialogs

  /* ---------------------------------------------------------------------- */
  /* Category display names                                                 */
  /* ---------------------------------------------------------------------- */

  /** `categoryMap`: the code stored for a student's economic situation, and
      the name shown for it. */
  const CategoryMap: map<string, string> := map[
    "C" := "綜援", "F" := "全免", "H" := "半免",
    "D" := "經濟困難", "S" := "特殊", AllCategories := "所有"]

  /** `categoryMap.get(code, code)`: the display name of a known code; any
      other code is shown as it is stored. */
  function CategoryDisplay(code: string): (shown: string)
    ensures code in CategoryMap ==> shown == CategoryMap[code]
    ensures code !in CategoryMap ==> shown == code
  {
    if code in CategoryMap then CategoryMap[code] else code
  }

  /** `categoryMap[code]`: `None` is the `KeyError` an unknown code raises. */
  function CategoryLabel(code: string): (name: Option<string>)
    ensures name.Some? <==> code in CategoryMap
    ensures name.Some? ==> name.value == CategoryDisplay(code)
  {
    if code in CategoryMap then Some(CategoryMap[code]) else None
  }

  /** Different codes have different display names, so the mapped student
      table shows which code each student has: the display name determines
      the code. */
  lemma CategoryDisplayDistinguishesCodes(a: string, b: string)
    requires a in CategoryMap && b in CategoryMap
    ensures CategoryDisplay(a) == CategoryDisplay(b) <==> a == b
  {
  }

  /** One entry of the category picker: the name it shows and the code it
      returns. */
  datatype PickerItem = PickerItem(shown: string, code: string)

  /** The picker's entries, in the order they are added. */
  const PickerItems: seq<PickerItem> := [
    PickerItem("所有", AllCategories), PickerItem("綜援", "C"), PickerItem("全免", "F"),
    PickerItem("半免", "H"), PickerItem("經濟困難", "D"), PickerItem("特殊", "S")]

  /** The picker offers exactly the codes `categoryMap` knows, each under the
      name `categoryMap` gives it. So whatever the user picks, looking the
      code up never raises, and the window title shows the name that was
      picked. */
  lemma PickerMatchesCategoryMap()
    ensures forall i :: 0 <= i < |PickerItems| ==> CategoryLabel(PickerItems[i].code) == Some(PickerItems[i].shown)
    ensures forall code :: code in CategoryMap <==> exists i :: 0 <= i < |PickerItems| && PickerItems[i].code == code
  {
    forall code | code in CategoryMap
      ensures exists i :: 0 <= i < |PickerItems| && PickerItems[i].code == code
    {
      if code == AllCategories {
        assert PickerItems[0].code == code;
      } else if code == "C" {
        assert PickerItems[1].code == code;
      } else if code == "F" {
        assert PickerItems[2].code == code;
      } else if code == "H" {
        assert PickerItems[3].code == code;
      } else if code == "D" {
        assert PickerItems[4].code == code;
      } else {
        assert PickerItems[5].code == code;
      }
    }
  }

  /** The four report windows the picker leads to. */
  datatype Report = EventTotals | EventNames | StudentCounts | StudentEvents

  /** The title of a report window for a picked code, `None` when the code
      lookup raises. A cancelled picker opens no window. */
  function ReportTitle(report: Report, picked: Option<string>): (title: Option<string>)
    ensures picked.None? ==> title.None?
    ensures picked.Some? ==> (title.Some? <==> picked.value in CategoryMap)
  {
    match picked
    case None => None
    case Some(code) =>
      match CategoryLabel(code)
      case None => None
      case Some(name) =>
        match report
        case EventTotals => Some("活動紀錄-總數(經濟情況-" + name + ")")
        case EventNames => Some("活動紀錄-姓名(經濟情況-" + name + ")")
        case StudentCounts => Some("學生活動紀錄-個人(所有活動)-經濟情況(" + name + ")")
        case StudentEvents => Some("學生活動紀錄-個人(所有活動)-經濟情況(" + name + ")")
  }

  /** Every entry the picker offers opens every report with a title. */
  lemma PickedReportsHaveTitles(report: Report, i: nat)
    requires i < |PickerItems|
    ensures ReportTitle(report, Some(PickerItems[i].code)).Some?
  {
    PickerMatchesCategoryMap();
  }

  /* ---------------------------------------------------------------------- */
  /* The three live tables                                                  */
  /* ---------------------------------------------------------------------- */

  /** A student row with its category replaced by its display name. */
  function DisplayRow(row: StudentRow): StudentRow {
    row.(category := CategoryDisplay(row.category))
  }

  /** The student table as the window first shows it: every stored student,
      with the category mapped to its display name. */
  function DisplayedStudents(st: Store): (rows: seq<StudentRow>)
    ensures |rows| == |st.students|
    ensures forall i :: 0 <= i < |rows| ==> rows[i] == DisplayRow(AllStudents(st)[i])
  {
    var all := AllStudents(st);
    seq(|all|, i requires 0 <= i < |all| => DisplayRow(all[i]))
  }

  /** What the three sub-windows show: students, event names, and the
      participants-per-event table. */
  datatype Screen = Screen(students: seq<StudentRow>, events: seq<string>, records: seq<EventCount>)

  /** The window as it opens on a store. */
  function OpenScreen(st: Store): Screen {
    Screen(DisplayedStudents(st), AllEvents(st), StudentEventTable(st))
  }

  /** The three live tables. */
  datatype View = StudentsView | EventsView | RecordsView

  /** The table an announced event type refreshes, if any. */
  function ViewFor(eventType: string): (v: Option<View>)
    ensures v.Some? <==> eventType == StudentAdded || eventType == EventAdded || eventType == RecordAdded
  {
    if eventType == StudentAdded then Some(StudentsView)
    else if eventType == EventAdded then Some(EventsView)
    else if eventType == RecordAdded then Some(RecordsView)
    else None
  }

  /** The three announced event types refresh three different tables. */
  lemma ViewForIsOneToOne(a: string, b: string)
    requires ViewFor(a).Some? && ViewFor(b).Some?
    ensures ViewFor(a) == ViewFor(b) <==> a == b
  {
  }

  /** `notifyUpdate`, as written: `student_added` reloads the student table
      from `getAllStudents` without mapping the categories; `event_added`
      and `record_added` reload their tables; any other event type changes
      nothing. Only the table `ViewFor` names is touched. */
  function NotifyUpdate(screen: Screen, st: Store, eventType: string): (r: Screen)
    ensures ViewFor(eventType) != Some(StudentsView) ==> r.students == screen.students
    ensures ViewFor(eventType) != Some(EventsView) ==> r.events == screen.events
    ensures ViewFor(eventType) != Some(RecordsView) ==> r.records == screen.records
    ensures ViewFor(eventType) == Some(StudentsView) ==> r.students == AllStudents(st)
  {
    if eventType == StudentAdded then screen.(students := AllStudents(st))
    else if eventType == EventAdded then screen.(events := AllEvents(st))
    else if eventType == RecordAdded then screen.(records := StudentEventTable(st))
    else screen
  }

  /** `notifyUpdate` with the student table reloaded the way it is first
      loaded, categories mapped. */
  function NotifyUpdateCorrected(screen: Screen, st: Store, eventType: string): (r: Screen)
    ensures ViewFor(eventType) != Some(StudentsView) ==> r.students == screen.students
    ensures ViewFor(eventType) != Some(EventsView) ==> r.events == screen.events
    ensures ViewFor(eventType) != Some(RecordsView) ==> r.records == screen.records
  {
    if eventType == StudentAdded then screen.(students := DisplayedStudents(st))
    else if eventType == EventAdded then screen.(events := AllEvents(st))
    else if eventType == RecordAdded then screen.(records := StudentEventTable(st))
    else screen
  }

  /** The corrected refresh shows in the refreshed table what the window
      would show if it were opened on the current store; after all three
      event types the whole window is as if freshly opened. */
  lemma CorrectedRefreshMatchesOpen(screen: Screen, st: Store, eventType: string)
    ensures ViewFor(eventType) == Some(StudentsView) ==> NotifyUpdateCorrected(screen, st, eventType).students == OpenScreen(st).students
    ensures ViewFor(eventType) == Some(EventsView) ==> NotifyUpdateCorrected(screen, st, eventType).events == OpenScreen(st).events
    ensures ViewFor(eventType) == Some(RecordsView) ==> NotifyUpdateCorrected(screen, st, eventType).records == OpenScreen(st).records
    ensures NotifyUpdateCorrected(NotifyUpdateCorrected(NotifyUpdateCorrected(screen, st, StudentAdded), st, EventAdded), st, RecordAdded) == OpenScreen(st)
  {
  }

  /** Outside the corrected student refresh, the two refreshes agree. */
  lemma RefreshesAgreeOffStudents(screen: Screen, st: Store, eventType: string)
    ensures eventType != StudentAdded ==> NotifyUpdate(screen, st, eventType) == NotifyUpdateCorrected(screen, st, eventType)
  {
  }

  /** As written, refreshing after a student is added shows the stored code
      where the freshly opened window shows the category's name: one student
      of category "C" is listed as "C" after the refresh but as "綜援" on
      opening. */
  lemma RefreshShowsRawCode()
    ensures var st := AddStudent(EmptyStore, "1A", "1", "Chan Tai Man", "C");
      && NotifyUpdate(OpenScreen(st), st, StudentAdded).students[0].category == "C"
      && OpenScreen(st).students[0].category == "綜援"
  {
    var st := AddStudent(EmptyStore, "1A", "1", "Chan Tai Man", "C");
    assert AllStudents(st)[0].category == "C";
  }

}
