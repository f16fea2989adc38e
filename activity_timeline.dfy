/**
 * The attendance activity screen (AttendActUserControl): today's counters, the
 * timeline of today's attendance records, and the search bar that narrows the
 * timeline by employee name or code.
 *
 * The screen keeps the records it loaded in a cache; every search works on that
 * cache, never on the database.  What the panel shows is modelled as a value:
 * one timeline item per record, or one of the two messages.
 */
module ActivityTimeline {
  import opened Common
  import opened Text
  import opened AttendanceStore

  // ---------------------------------------------------------------- one timeline item

  /** The four detail lines an item can carry. */
  datatype Detail = TimeInDetail | TimeOutDetail | BreakStartDetail | BreakEndDetail

  /** The caption CreateActivityLabel puts in front of the value. */
  function Caption(k: Detail): string {
    match k
    case TimeInDetail => "\U{23F1}\U{FE0F} Time In:"
    case TimeOutDetail => "\U{23F1}\U{FE0F} Time Out:"
    case BreakStartDetail => "\U{2615} Break Start:"
    case BreakEndDetail => "\U{2615} Break End:"
  }

  datatype Point = Point(x: int, y: int)

  /** A detail label: its text is the caption, a space and the value. */
  datatype ActivityLabel = ActivityLabel(kind: Detail, value: string, location: Point)

  function LabelText(l: ActivityLabel): string {
    Caption(l.kind) + " " + l.value
  }

  /** A timeline card: the employee line and the detail labels, in the order they are added. */
  datatype TimelineItem = TimelineItem(header: string, details: seq<ActivityLabel>)

  /** The four time columns of a record, as the item reads them. */
  datatype Times = Times(timeIn: string, timeOut: string, startBreak: string, stopBreak: string)

  function TimeOf(t: Times, k: Detail): string {
    match k
    case TimeInDetail => t.timeIn
    case TimeOutDetail => t.timeOut
    case BreakStartDetail => t.startBreak
    case BreakEndDetail => t.stopBreak
  }

  /** Where a shown detail goes: Time In and Time Out stack in the left column from y = 45
      in steps of 20, the break lines have fixed places in the right column. */
  function DetailLocation(t: Times, k: Detail): Point {
    match k
    case TimeInDetail => Point(10, 45)
    case TimeOutDetail => Point(10, if t.timeIn != "" then 65 else 45)
    case BreakStartDetail => Point(450, 45)
    case BreakEndDetail => Point(450, 65)
  }

  /** The employee line of an item. */
  function Header(fullName: string, empCode: string): string {
    "\U{1F464} " + fullName + " (" + empCode + ")"
  }

  /** A label for k when its time is not empty. */
  function DetailIfSet(k: Detail, value: string, location: Point): seq<ActivityLabel> {
    if value != "" then [ActivityLabel(k, value, location)] else []
  }

  /** CreateActivityTimelineItem: the employee line, then a detail label for each time that
      is not empty, in the order Time In, Time Out, Break Start, Break End. */
  function CreateActivityTimelineItem(fullName: string, empCode: string, t: Times): (item: TimelineItem)
    ensures item.header == Header(fullName, empCode)
  {
    var yPos := 45;
    var timeInLine := DetailIfSet(TimeInDetail, t.timeIn, Point(10, yPos));
    var yPos := if t.timeIn != "" then yPos + 20 else yPos;
    var timeOutLine := DetailIfSet(TimeOutDetail, t.timeOut, Point(10, yPos));
    TimelineItem(Header(fullName, empCode),
                 timeInLine + timeOutLine
                 + DetailIfSet(BreakStartDetail, t.startBreak, Point(450, 45))
                 + DetailIfSet(BreakEndDetail, t.stopBreak, Point(450, 65)))
  }

  /** The detail labels of an item, piece by piece. */
  lemma DetailsPieces(fullName: string, empCode: string, t: Times)
    ensures CreateActivityTimelineItem(fullName, empCode, t).details
            == DetailIfSet(TimeInDetail, t.timeIn, DetailLocation(t, TimeInDetail))
               + DetailIfSet(TimeOutDetail, t.timeOut, DetailLocation(t, TimeOutDetail))
               + DetailIfSet(BreakStartDetail, t.startBreak, DetailLocation(t, BreakStartDetail))
               + DetailIfSet(BreakEndDetail, t.stopBreak, DetailLocation(t, BreakEndDetail))
  {
  }

  /** An item shows a line for a time exactly when that time is not empty, with that time
      as its value and at that line's place. */
  lemma CreateActivityTimelineItemSpec(fullName: string, empCode: string, t: Times)
    ensures var item := CreateActivityTimelineItem(fullName, empCode, t);
            && (forall k :: (exists d :: d in item.details && d.kind == k) <==> TimeOf(t, k) != "")
            && (forall d :: d in item.details ==> d.value == TimeOf(t, d.kind) && d.location == DetailLocation(t, d.kind))
  {
    var details := CreateActivityTimelineItem(fullName, empCode, t).details;
    DetailsPieces(fullName, empCode, t);
    forall k | TimeOf(t, k) != "" ensures ActivityLabel(k, TimeOf(t, k), DetailLocation(t, k)) in details {
    }
  }

  /** No line is shown twice: the lines follow the order Time In, Time Out, Break Start,
      Break End. */
  lemma CreateActivityTimelineItemOrder(fullName: string, empCode: string, t: Times)
    ensures var ds := CreateActivityTimelineItem(fullName, empCode, t).details;
            forall i, j :: 0 <= i < j < |ds| ==> Rank(ds[i].kind) < Rank(ds[j].kind)
  {
    DetailsPieces(fullName, empCode, t);
  }

  /** The place of a detail line in the order the item adds them. */
  function Rank(k: Detail): int {
    match k
    case TimeInDetail => 0
    case TimeOutDetail => 1
    case BreakStartDetail => 2
    case BreakEndDetail => 3
  }

  /** row[column].ToString(): a NULL column reads as "". */
  function FieldText(f: Option<string>): string {
    match f
    case None => ""
    case Some(s) => s
  }

  function TimesOf(r: TodayRecord): Times {
    Times(FieldText(r.timeIn), FieldText(r.timeOut), FieldText(r.startBreak), FieldText(r.stopBreak))
  }

  /** The item the timeline builds for one record. */
  function ItemOf(r: TodayRecord): TimelineItem {
    CreateActivityTimelineItem(r.fullName, r.empCode, TimesOf(r))
  }

  /** A record's item carries a line for a column exactly when that column holds a non-empty
      time, which is the test the daily counters use. */
  lemma ItemShowsRecordedColumns(r: TodayRecord)
    ensures (exists d :: d in ItemOf(r).details && d.kind == TimeInDetail) <==> Recorded(r.timeIn)
    ensures (exists d :: d in ItemOf(r).details && d.kind == TimeOutDetail) <==> Recorded(r.timeOut)
    ensures (exists d :: d in ItemOf(r).details && d.kind == BreakStartDetail) <==> Recorded(r.startBreak)
    ensures (exists d :: d in ItemOf(r).details && d.kind == BreakEndDetail) <==> Recorded(r.stopBreak)
  {
    var t := TimesOf(r);
    CreateActivityTimelineItemSpec(r.fullName, r.empCode, t);
    assert TimeOf(t, TimeInDetail) == FieldText(r.timeIn);
    assert TimeOf(t, TimeOutDetail) == FieldText(r.timeOut);
    assert TimeOf(t, BreakStartDetail) == FieldText(r.startBreak);
    assert TimeOf(t, BreakEndDetail) == FieldText(r.stopBreak);
  }

  // ---------------------------------------------------------------- the panel

  /** What the timeline panel shows: nothing yet, one item per record, the "No attendance
      records for today" message, or the no-match message of a search. */
  datatype TimelineView = Blank | Timeline(items: seq<TimelineItem>) | NoActivity | NoSearchResults

  /** The items of a table, in row order. */
  function ItemsOf(data: seq<TodayRecord>): (items: seq<TimelineItem>)
    ensures |items| == |data|
    ensures forall i :: 0 <= i < |data| ==> items[i] == ItemOf(data[i])
  {
    if data == [] then [] else ItemsOf(data[..|data| - 1]) + [ItemOf(data[|data| - 1])]
  }

  /** What DisplayAttendanceRecords leaves in the panel for a table: the empty-day message
      exactly for an empty table, and otherwise the item of every record, in row order. */
  function TimelineOf(data: seq<TodayRecord>): (v: TimelineView)
    ensures v == NoActivity <==> data == []
    ensures v.Timeline? <==> data != []
    ensures v.Timeline? ==> |v.items| == |data| && forall i :: 0 <= i < |data| ==> v.items[i] == ItemOf(data[i])
  {
    if data == [] then NoActivity else Timeline(ItemsOf(data))
  }

  // ---------------------------------------------------------------- the search

  /** The Where of PerformSmartSearch: the lower-cased name or employee code contains the
      query, which the text box handler has already trimmed and lower-cased. */
  predicate RecordMatches(query: string, r: TodayRecord) {
    Contains(ToLower(r.fullName), query) || Contains(ToLower(r.empCode), query)
  }

  /** The rows the search keeps, in table order. */
  function SearchRows(rows: seq<TodayRecord>, query: string): (r: seq<TodayRecord>)
    ensures forall x :: x in r <==> x in rows && RecordMatches(query, x)
  {
    FilterMembers(rows, x => RecordMatches(query, x));
    Filter(rows, x => RecordMatches(query, x))
  }

  /** The search keeps the table order: it distributes over concatenation. */
  lemma SearchRowsKeepOrder(a: seq<TodayRecord>, b: seq<TodayRecord>, query: string)
    ensures SearchRows(a + b, query) == SearchRows(a, query) + SearchRows(b, query)
  {
    FilterAppend(a, b, x => RecordMatches(query, x));
  }

  /** What PerformSmartSearch leaves in the panel: the no-match message when nothing is
      cached, the cache is empty or no row matches, else the matching rows' timeline. */
  function SearchView(cache: Option<seq<TodayRecord>>, query: string): (v: TimelineView)
    ensures v == NoSearchResults <==>
              cache.None? || forall x :: x in cache.value ==> !RecordMatches(query, x)
    ensures v != NoSearchResults ==> v == Timeline(ItemsOf(SearchRows(cache.value, query)))
    ensures v.Timeline? || v == NoSearchResults
  {
    if cache.None? || |cache.value| == 0 then NoSearchResults
    else
      var filtered := SearchRows(cache.value, query);
      if |filtered| > 0 then
        assert filtered[0] in filtered;
        TimelineOf(filtered)
      else NoSearchResults
  }

  /** The query the text box handler searches for. */
  function SearchQuery(text: string): string {
    ToLower(Trim(text))
  }

  /** The trimmed, lower-cased query is empty exactly when the text is blank. */
  lemma SearchQueryEmptyIffBlank(text: string)
    ensures SearchQuery(text) == "" <==> IsBlank(text)
  {
    TrimEmptyIffBlank(text);
  }

  // ---------------------------------------------------------------- the screen

  class ActivityScreen {
    /** _allAttendanceData: what the last load read, or null before the first load. */
    var allAttendanceData: Option<seq<TodayRecord>>
    /** The contents of PanelActTimeLine. */
    var timeline: TimelineView
    /** The four counter labels, or None while they still show the designer text. */
    var stats: Option<AttendanceStats>

    constructor ()
      ensures allAttendanceData.None? && timeline == Blank && stats.None?
    {
      allAttendanceData := None;
      timeline := Blank;
      stats := None;
    }

    /** AttendActUserControl_Load: the counters, then the timeline. */
    method Load(es: seq<Employee>, rows: seq<AttendanceRow>, today: int)
      modifies this
      ensures stats == Some(GetTodayAttendanceStats(rows, today))
      ensures allAttendanceData == Some(TodayAllAttendance(es, rows, today))
      ensures timeline == TimelineOf(allAttendanceData.value)
    {
      LoadAttendanceStatistics(rows, today);
      LoadActivityTimeline(es, rows, today);
    }

    /** RefreshData: the same two loads again. */
    method RefreshData(es: seq<Employee>, rows: seq<AttendanceRow>, today: int)
      modifies this
      ensures stats == Some(GetTodayAttendanceStats(rows, today))
      ensures allAttendanceData == Some(TodayAllAttendance(es, rows, today))
      ensures timeline == TimelineOf(allAttendanceData.value)
    {
      Load(es, rows, today);
    }

    /** LoadAttendanceStatistics: the four counters of today's rows. */
    method LoadAttendanceStatistics(rows: seq<AttendanceRow>, today: int)
      modifies this`stats
      ensures stats == Some(GetTodayAttendanceStats(rows, today))
    {
      stats := Some(GetTodayAttendanceStats(rows, today));
    }

    /** LoadActivityTimeline: today's records are cached, then displayed. */
    method LoadActivityTimeline(es: seq<Employee>, rows: seq<AttendanceRow>, today: int)
      modifies this`allAttendanceData, this`timeline
      ensures allAttendanceData == Some(TodayAllAttendance(es, rows, today))
      ensures timeline == TimelineOf(allAttendanceData.value)
    {
      allAttendanceData := Some(TodayAllAttendance(es, rows, today));
      DisplayAttendanceRecords(allAttendanceData.value);
    }

    /** DisplayAttendanceRecords: the panel is cleared; an empty table shows the empty-day
        message, any other one an item per row, added in row order. */
    method DisplayAttendanceRecords(data: seq<TodayRecord>)
      modifies this`timeline
      ensures timeline == TimelineOf(data)
    {
      timeline := Blank;
      if |data| == 0 {
        timeline := NoActivity;
        return;
      }
      var items: seq<TimelineItem> := [];
      var i := 0;
      while i < |data|
        invariant 0 <= i <= |data|
        invariant items == ItemsOf(data[..i])
      {
        assert data[..i + 1][..i] == data[..i];
        items := items + [ItemOf(data[i])];
        i := i + 1;
      }
      assert data[..i] == data;
      timeline := Timeline(items);
    }

    /** PerformSmartSearch: nothing cached, an empty cache or no match shows the no-match
        message; otherwise the matching rows are copied into a new table, which is displayed. */
    method PerformSmartSearch(query: string)
      modifies this`timeline
      ensures timeline == SearchView(allAttendanceData, query)
    {
      if allAttendanceData.None? || |allAttendanceData.value| == 0 {
        timeline := NoSearchResults;
        return;
      }
      var filteredRows := SearchRows(allAttendanceData.value, query);
      if |filteredRows| > 0 {
        var filteredTable: seq<TodayRecord> := [];
        var i := 0;
        while i < |filteredRows|
          invariant 0 <= i <= |filteredRows|
          invariant filteredTable == filteredRows[..i]
        {
          filteredTable := filteredTable + [filteredRows[i]];
          i := i + 1;
        }
        assert filteredTable == filteredRows;
        DisplayAttendanceRecords(filteredTable);
      } else {
        timeline := NoSearchResults;
      }
    }

    /** TxtSearchBar_TextChanged: the text is trimmed and lower-cased; an empty query, which is
        a blank text (SearchQueryEmptyIffBlank), shows every cached record again and does
        nothing before the first load; any other query is searched. */
    method SearchTextChanged(text: string)
      modifies this`timeline
      ensures SearchQuery(text) == "" && allAttendanceData.Some? ==> timeline == TimelineOf(allAttendanceData.value)
      ensures SearchQuery(text) == "" && allAttendanceData.None? ==> timeline == old(timeline)
      ensures SearchQuery(text) != "" ==> timeline == SearchView(allAttendanceData, SearchQuery(text))
    {
      var searchText := SearchQuery(text);
      if searchText == "" {
        if allAttendanceData.Some? {
          DisplayAttendanceRecords(allAttendanceData.value);
        }
      } else {
        ghost var cache := allAttendanceData;
        PerformSmartSearch(searchText);
        assert timeline == SearchView(cache, searchText);
      }
    }
  }

  /** After a load, the timeline shows an item for every one of today's records of an
      existing employee, and a search shows the item of every such record that matches. */
  lemma SearchShowsMatchingRecords(es: seq<Employee>, rows: seq<AttendanceRow>, today: int, query: string,
                                   a: AttendanceRow)
    requires a in rows && a.day == today && GetEmployeeById(es, a.empId).Some?
    ensures var r := RecordOf(a, GetEmployeeById(es, a.empId).value);
            var cache := TodayAllAttendance(es, rows, today);
            && ItemOf(r) in TimelineOf(cache).items
            && (RecordMatches(query, r) ==> ItemOf(r) in SearchView(Some(cache), query).items)
  {
    var r := RecordOf(a, GetEmployeeById(es, a.empId).value);
    var cache := TodayAllAttendance(es, rows, today);
    var i :| 0 <= i < |cache| && cache[i] == r;
    assert TimelineOf(cache).items[i] == ItemOf(r);
    if RecordMatches(query, r) {
      var f := SearchRows(cache, query);
      var j :| 0 <= j < |f| && f[j] == r;
      assert SearchView(Some(cache), query).items[j] == ItemOf(r);
    }
  }
}
