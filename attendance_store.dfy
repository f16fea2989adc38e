/**
 * DatabaseHelper over in-memory tables.  The three tables Employees,
 * FaceImages and Attendance are sequences in insertion order; identity
 * columns come from per-table counters; nullable columns are Option values,
 * so SQL NULL and the empty string stay different.  `today` stands for
 * CAST(GETDATE() AS DATE) and each attendance row stores the day of its
 * LogTime.
 */
module AttendanceStore {
  import opened Common

  datatype Employee = Employee(empId: int, empCode: string, fullName: string, profilePhotoPath: Option<string>)

  datatype FaceImage = FaceImage(faceImageId: int, empId: int, imgPath: string)

  datatype AttendanceRow = AttendanceRow(
    attendanceId: int, empId: int, day: int,
    timeIn: Option<string>, timeOut: Option<string>, startBreak: Option<string>, stopBreak: Option<string>)

  /** The four strings LogAttendance receives; "" means "not this action". */
  datatype LogRequest = LogRequest(timeIn: string, timeOut: string, startBreak: string, stopBreak: string)

  /** The four attendance columns, in the order LogAttendance checks them. */
  datatype Field = TimeIn | TimeOut | StartBreak | StopBreak

  function Col(row: AttendanceRow, f: Field): Option<string> {
    match f
    case TimeIn => row.timeIn
    case TimeOut => row.timeOut
    case StartBreak => row.startBreak
    case StopBreak => row.stopBreak
  }

  function Req(req: LogRequest, f: Field): string {
    match f
    case TimeIn => req.timeIn
    case TimeOut => req.timeOut
    case StartBreak => req.startBreak
    case StopBreak => req.stopBreak
  }

  const SuccessMessage: string := "Attendance recorded successfully."

  /** The refusal message for an action already recorded today. */
  function RecordedMessage(f: Field): string {
    match f
    case TimeIn => "Time In already recorded today."
    case TimeOut => "Time Out already recorded today."
    case StartBreak => "Start Break already recorded today."
    case StopBreak => "Stop Break already recorded today."
  }

  /** A column counts as recorded when it is neither NULL nor "" (the reader maps NULL to ""). */
  predicate Recorded(col: Option<string>) {
    col.Some? && col.value != ""
  }

  // ---------------------------------------------------------------- table invariants

  /** At most one attendance row per employee per day. */
  predicate OneRowPerDay(rows: seq<AttendanceRow>) {
    forall i, j :: 0 <= i < j < |rows| ==> !(rows[i].empId == rows[j].empId && rows[i].day == rows[j].day)
  }

  predicate AttendanceIdsBelow(rows: seq<AttendanceRow>, next: int) {
    forall r :: r in rows ==> r.attendanceId < next
  }

  /** Rows lie in insertion order: attendanceID is an IDENTITY column, so it grows with every
      INSERT, and the INSERT is the only statement that writes LogTime (GETDATE()). */
  predicate AttendanceIdsIncreasing(rows: seq<AttendanceRow>) {
    forall i, j :: 0 <= i < j < |rows| ==> rows[i].attendanceId < rows[j].attendanceId
  }

  predicate EmployeeIdsUnique(es: seq<Employee>) {
    forall i, j :: 0 <= i < j < |es| ==> es[i].empId != es[j].empId
  }

  predicate EmployeeIdsBelow(es: seq<Employee>, next: int) {
    forall e :: e in es ==> e.empId < next
  }

  predicate FaceImageIdsBelow(fs: seq<FaceImage>, next: int) {
    forall f :: f in fs ==> f.faceImageId < next
  }

  // ---------------------------------------------------------------- today's row

  /** The row the check query reads for (empId, today): the first such row. */
  function TodayIndex(rows: seq<AttendanceRow>, empId: int, today: int): (r: Option<nat>)
    ensures r.None? <==> forall j :: 0 <= j < |rows| ==> !(rows[j].empId == empId && rows[j].day == today)
    ensures r.Some? ==> r.value < |rows| && rows[r.value].empId == empId && rows[r.value].day == today
    ensures r.Some? ==> forall j :: 0 <= j < r.value ==> !(rows[j].empId == empId && rows[j].day == today)
  {
    if rows == [] then None
    else if rows[0].empId == empId && rows[0].day == today then Some(0)
    else match TodayIndex(rows[1..], empId, today)
      case None => None
      case Some(k) => Some(k + 1)
  }

  // ---------------------------------------------------------------- LogAttendance

  /** The first requested action already recorded in the row, checked TimeIn, TimeOut,
      StartBreak, StopBreak in that order. */
  function AlreadyRecorded(row: AttendanceRow, req: LogRequest): (r: Option<Field>)
    ensures r.Some? ==> Req(req, r.value) != "" && Recorded(Col(row, r.value))
    ensures r.None? <==> forall f :: Req(req, f) != "" ==> !Recorded(Col(row, f))
  {
    if req.timeIn != "" && Recorded(row.timeIn) then Some(TimeIn)
    else if req.timeOut != "" && Recorded(row.timeOut) then Some(TimeOut)
    else if req.startBreak != "" && Recorded(row.startBreak) then Some(StartBreak)
    else if req.stopBreak != "" && Recorded(row.stopBreak) then Some(StopBreak)
    else None
  }

  /** The CASE of the UPDATE: a column takes the requested value only if it is NULL and the
      value is not "". */
  function FillIfNull(col: Option<string>, v: string): Option<string> {
    if v != "" && col.None? then Some(v) else col
  }

  function UpdatedRow(row: AttendanceRow, req: LogRequest): AttendanceRow {
    row.(timeIn := FillIfNull(row.timeIn, req.timeIn),
         timeOut := FillIfNull(row.timeOut, req.timeOut),
         startBreak := FillIfNull(row.startBreak, req.startBreak),
         stopBreak := FillIfNull(row.stopBreak, req.stopBreak))
  }

  /** The INSERT stores all four strings as given, "" included. */
  function InsertedRow(id: int, empId: int, today: int, req: LogRequest): AttendanceRow {
    AttendanceRow(id, empId, today, Some(req.timeIn), Some(req.timeOut), Some(req.startBreak), Some(req.stopBreak))
  }

  datatype LogOutcome = LogOutcome(success: bool, message: string, rows: seq<AttendanceRow>)

  /** LogAttendance on the Attendance table, as written. */
  function LogAttendanceOn(rows: seq<AttendanceRow>, nextId: int, empId: int, today: int, req: LogRequest): LogOutcome {
    match TodayIndex(rows, empId, today)
    case None => LogOutcome(true, SuccessMessage, rows + [InsertedRow(nextId, empId, today, req)])
    case Some(i) =>
      match AlreadyRecorded(rows[i], req)
      case Some(f) => LogOutcome(false, RecordedMessage(f), rows)
      case None => LogOutcome(true, SuccessMessage, rows[i := UpdatedRow(rows[i], req)])
  }

  /** With no row for the employee today, exactly one row holding the given strings is added. */
  lemma LogInsertsWhenNoRow(rows: seq<AttendanceRow>, nextId: int, empId: int, today: int, req: LogRequest)
    requires OneRowPerDay(rows) && TodayIndex(rows, empId, today).None?
    ensures var o := LogAttendanceOn(rows, nextId, empId, today, req);
            o.success && o.message == SuccessMessage && |o.rows| == |rows| + 1 && o.rows[..|rows|] == rows
            && o.rows[|rows|].empId == empId && o.rows[|rows|].day == today
            && forall f :: Col(o.rows[|rows|], f) == Some(Req(req, f))
  {
    var o := LogAttendanceOn(rows, nextId, empId, today, req);
    assert o.rows[..|rows|] == rows;
  }

  /** Every call keeps "at most one row per employee per day" and the identity bound, and
      leaves a row for the employee today. */
  lemma LogKeepsOneRowPerDay(rows: seq<AttendanceRow>, nextId: int, empId: int, today: int, req: LogRequest)
    requires OneRowPerDay(rows) && AttendanceIdsBelow(rows, nextId)
    ensures var o := LogAttendanceOn(rows, nextId, empId, today, req);
            OneRowPerDay(o.rows) && AttendanceIdsBelow(o.rows, nextId + 1)
            && TodayIndex(o.rows, empId, today).Some?
  {
    var o := LogAttendanceOn(rows, nextId, empId, today, req);
    match TodayIndex(rows, empId, today)
    case None =>
      assert o.rows[|rows|].empId == empId && o.rows[|rows|].day == today;
    case Some(i) =>
      assert o.rows[i].empId == empId && o.rows[i].day == today;
      assert forall j :: 0 <= j < |rows| ==> o.rows[j].empId == rows[j].empId && o.rows[j].day == rows[j].day;
  }

  /** Every call keeps the rows in insertion order: an update keeps the row's id and place,
      and an insert appends the next identity value. */
  lemma LogKeepsInsertionOrder(rows: seq<AttendanceRow>, nextId: int, empId: int, today: int, req: LogRequest)
    requires AttendanceIdsBelow(rows, nextId) && AttendanceIdsIncreasing(rows)
    ensures AttendanceIdsIncreasing(LogAttendanceOn(rows, nextId, empId, today, req).rows)
  {
    var o := LogAttendanceOn(rows, nextId, empId, today, req);
    match TodayIndex(rows, empId, today)
    case None =>
      assert forall j :: 0 <= j < |rows| ==> o.rows[j] == rows[j] && rows[j] in rows;
    case Some(i) =>
      assert forall j :: 0 <= j < |rows| ==> o.rows[j].attendanceId == rows[j].attendanceId;
  }

  /** With a row today, the call is refused exactly when a requested action is already
      recorded; the message names the first such action in check order, and nothing changes. */
  lemma LogRefusesRecorded(rows: seq<AttendanceRow>, nextId: int, empId: int, today: int, req: LogRequest)
    requires TodayIndex(rows, empId, today).Some?
    ensures var i := TodayIndex(rows, empId, today).value;
            var o := LogAttendanceOn(rows, nextId, empId, today, req);
            && (!o.success <==> exists f :: Req(req, f) != "" && Recorded(Col(rows[i], f)))
            && (!o.success ==> o.rows == rows)
            && (!o.success && o.message == RecordedMessage(TimeIn) <==> req.timeIn != "" && Recorded(rows[i].timeIn))
            && (!o.success && o.message == RecordedMessage(TimeOut) <==>
                  !(req.timeIn != "" && Recorded(rows[i].timeIn)) && req.timeOut != "" && Recorded(rows[i].timeOut))
            && (!o.success && o.message == RecordedMessage(StartBreak) <==>
                  !(req.timeIn != "" && Recorded(rows[i].timeIn)) && !(req.timeOut != "" && Recorded(rows[i].timeOut))
                  && req.startBreak != "" && Recorded(rows[i].startBreak))
            && (o.success ==> o.message == SuccessMessage)
  {
    var i := TodayIndex(rows, empId, today).value;
    if AlreadyRecorded(rows[i], req).Some? {
      var f := AlreadyRecorded(rows[i], req).value;
      assert Req(req, f) != "" && Recorded(Col(rows[i], f));
    }
  }

  /** A successful update touches only today's row, and in it fills exactly the NULL columns
      whose requested value is not ""; a column holding a value, "" included, is kept. */
  lemma LogUpdatesOnlyNullColumns(rows: seq<AttendanceRow>, nextId: int, empId: int, today: int, req: LogRequest)
    requires TodayIndex(rows, empId, today).Some?
    ensures var i := TodayIndex(rows, empId, today).value;
            var o := LogAttendanceOn(rows, nextId, empId, today, req);
            o.success ==>
              && |o.rows| == |rows|
              && (forall j :: 0 <= j < |rows| && j != i ==> o.rows[j] == rows[j])
              && o.rows[i].attendanceId == rows[i].attendanceId && o.rows[i].empId == empId && o.rows[i].day == today
              && (forall f :: Col(rows[i], f).Some? ==> Col(o.rows[i], f) == Col(rows[i], f))
              && (forall f :: Col(rows[i], f).None? ==>
                    Col(o.rows[i], f) == if Req(req, f) != "" then Some(Req(req, f)) else None)
  {
    var i := TodayIndex(rows, empId, today).value;
    var o := LogAttendanceOn(rows, nextId, empId, today, req);
    if o.success {
      assert o.rows[i] == UpdatedRow(rows[i], req);
      forall f ensures Col(o.rows[i], f) == FillIfNull(Col(rows[i], f), Req(req, f)) {
        match f
        case TimeIn =>
        case TimeOut =>
        case StartBreak =>
        case StopBreak =>
      }
    }
  }

  /** A call that stores its Time In leaves it in the employee's row for today: the new row,
      or the existing row whose Time In was NULL. */
  lemma TimeInStored(rows: seq<AttendanceRow>, nextId: int, empId: int, today: int, first: LogRequest)
    requires first.timeIn != ""
    requires TodayIndex(rows, empId, today).None? || rows[TodayIndex(rows, empId, today).value].timeIn.None?
    requires LogAttendanceOn(rows, nextId, empId, today, first).success
    ensures var o1 := LogAttendanceOn(rows, nextId, empId, today, first);
            TodayIndex(o1.rows, empId, today).Some?
            && o1.rows[TodayIndex(o1.rows, empId, today).value].timeIn == Some(first.timeIn)
  {
    var o1 := LogAttendanceOn(rows, nextId, empId, today, first);
    match TodayIndex(rows, empId, today)
    case None =>
      var n := |rows|;
      assert o1.rows == rows + [InsertedRow(nextId, empId, today, first)];
      assert o1.rows[n] == InsertedRow(nextId, empId, today, first);
      assert TodayIndex(o1.rows, empId, today) == Some(n) by {
        forall j | 0 <= j < n ensures !(o1.rows[j].empId == empId && o1.rows[j].day == today) {
          assert o1.rows[j] == rows[j];
        }
      }
    case Some(i) =>
      assert o1.rows[i] == UpdatedRow(rows[i], first);
      assert TodayIndex(o1.rows, empId, today) == Some(i) by {
        forall j | 0 <= j < i ensures !(o1.rows[j].empId == empId && o1.rows[j].day == today) {
          assert o1.rows[j] == rows[j];
        }
      }
  }

  /** Once a Time In has been stored today, another Time In the same day is refused with
      the Time In message and the stored value stays.  The lemma starts from a day on which
      Time In is stored by the first call: no row yet, or a NULL Time In column. */
  lemma SecondTimeInRefused(rows: seq<AttendanceRow>, nextId: int, empId: int, today: int,
                            first: LogRequest, second: LogRequest, nextId2: int)
    requires first.timeIn != "" && second.timeIn != ""
    requires TodayIndex(rows, empId, today).None? || rows[TodayIndex(rows, empId, today).value].timeIn.None?
    requires LogAttendanceOn(rows, nextId, empId, today, first).success
    ensures var o1 := LogAttendanceOn(rows, nextId, empId, today, first);
            var o2 := LogAttendanceOn(o1.rows, nextId2, empId, today, second);
            && !o2.success && o2.message == RecordedMessage(TimeIn) && o2.rows == o1.rows
            && o2.rows[TodayIndex(o2.rows, empId, today).value].timeIn == Some(first.timeIn)
  {
    TimeInStored(rows, nextId, empId, today, first);
  }

  /** The lost update: an action logged after the row was inserted by another action
      reports success but stores nothing, because the INSERT wrote "" and the UPDATE only
      fills NULL; the same Start Break then succeeds again.  LogAttendanceIntended stores it. */
  lemma LostUpdateAsWritten()
    ensures var r0: seq<AttendanceRow> := [];
            var o1 := LogAttendanceOn(r0, 1, 7, 100, LogRequest("08:00 AM", "", "", ""));
            var o2 := LogAttendanceOn(o1.rows, 2, 7, 100, LogRequest("", "", "12:00 PM", ""));
            var o3 := LogAttendanceOn(o2.rows, 2, 7, 100, LogRequest("", "", "12:05 PM", ""));
            var fixed := LogAttendanceIntended(o1.rows, 2, 7, 100, LogRequest("", "", "12:00 PM", ""));
            && o1.success && o2.success && o2.message == SuccessMessage && o2.rows == o1.rows
            && !GetTodayAttendanceStatus(o2.rows, 7, 100).hasStartBreak
            && o3.success && o3.rows == o1.rows
            && fixed.success && GetTodayAttendanceStatus(fixed.rows, 7, 100).hasStartBreak
  {
    var o1 := LogAttendanceOn([], 1, 7, 100, LogRequest("08:00 AM", "", "", ""));
    assert o1.rows == [AttendanceRow(1, 7, 100, Some("08:00 AM"), Some(""), Some(""), Some(""))];
    assert TodayIndex(o1.rows, 7, 100) == Some(0);
    var fixed := LogAttendanceIntended(o1.rows, 2, 7, 100, LogRequest("", "", "12:00 PM", ""));
    assert fixed.rows == [AttendanceRow(1, 7, 100, Some("08:00 AM"), Some(""), Some("12:00 PM"), Some(""))];
    assert TodayIndex(fixed.rows, 7, 100) == Some(0);
  }

  // ---------------------------------------------------------------- the intended UPDATE

  /** The evidently intended UPDATE: a column takes the requested value when it is not yet
      recorded (NULL or ""). */
  function FillIfUnrecorded(col: Option<string>, v: string): Option<string> {
    if v != "" && !Recorded(col) then Some(v) else col
  }

  function UpdatedRowIntended(row: AttendanceRow, req: LogRequest): AttendanceRow {
    row.(timeIn := FillIfUnrecorded(row.timeIn, req.timeIn),
         timeOut := FillIfUnrecorded(row.timeOut, req.timeOut),
         startBreak := FillIfUnrecorded(row.startBreak, req.startBreak),
         stopBreak := FillIfUnrecorded(row.stopBreak, req.stopBreak))
  }

  /** LogAttendance with the intended UPDATE: same check, same INSERT. */
  function LogAttendanceIntended(rows: seq<AttendanceRow>, nextId: int, empId: int, today: int, req: LogRequest): LogOutcome {
    match TodayIndex(rows, empId, today)
    case None => LogOutcome(true, SuccessMessage, rows + [InsertedRow(nextId, empId, today, req)])
    case Some(i) =>
      match AlreadyRecorded(rows[i], req)
      case Some(f) => LogOutcome(false, RecordedMessage(f), rows)
      case None => LogOutcome(true, SuccessMessage, rows[i := UpdatedRowIntended(rows[i], req)])
  }

  /** With the intended UPDATE, success means stored: after a successful call every requested
      action holds its value in today's row, so the same request made again is refused. */
  lemma IntendedSuccessStores(rows: seq<AttendanceRow>, nextId: int, empId: int, today: int,
                              req: LogRequest, nextId2: int)
    requires LogAttendanceIntended(rows, nextId, empId, today, req).success
    ensures var o := LogAttendanceIntended(rows, nextId, empId, today, req);
            && TodayIndex(o.rows, empId, today).Some?
            && (forall f :: Req(req, f) != "" ==> Col(o.rows[TodayIndex(o.rows, empId, today).value], f) == Some(Req(req, f)))
            && ((exists f :: Req(req, f) != "") ==> !LogAttendanceIntended(o.rows, nextId2, empId, today, req).success)
  {
    var o := LogAttendanceIntended(rows, nextId, empId, today, req);
    var k: nat;
    match TodayIndex(rows, empId, today)
    case None =>
      k := |rows|;
      assert o.rows[k] == InsertedRow(nextId, empId, today, req);
      assert TodayIndex(o.rows, empId, today) == Some(k) by {
        forall j | 0 <= j < k ensures !(o.rows[j].empId == empId && o.rows[j].day == today) {
          assert o.rows[j] == rows[j];
        }
      }
    case Some(i) =>
      k := i;
      assert o.rows[i] == UpdatedRowIntended(rows[i], req);
      assert TodayIndex(o.rows, empId, today) == Some(i) by {
        forall j | 0 <= j < i ensures !(o.rows[j].empId == empId && o.rows[j].day == today) {
          assert o.rows[j] == rows[j];
        }
      }
      forall f | Req(req, f) != "" ensures Col(o.rows[i], f) == Some(Req(req, f)) {
        assert !Recorded(Col(rows[i], f));
        match f
        case TimeIn =>
        case TimeOut =>
        case StartBreak =>
        case StopBreak =>
      }
    if exists f :: Req(req, f) != "" {
      var f :| Req(req, f) != "";
      assert Recorded(Col(o.rows[k], f));
    }
  }

  /** With the intended UPDATE a second Time In the same day is refused after any successful
      Time In, whatever the row held before. */
  lemma IntendedSecondTimeInRefused(rows: seq<AttendanceRow>, nextId: int, empId: int, today: int,
                                    first: LogRequest, second: LogRequest, nextId2: int)
    requires first.timeIn != "" && second.timeIn != ""
    requires LogAttendanceIntended(rows, nextId, empId, today, first).success
    ensures var o1 := LogAttendanceIntended(rows, nextId, empId, today, first);
            var o2 := LogAttendanceIntended(o1.rows, nextId2, empId, today, second);
            && !o2.success && o2.message == RecordedMessage(TimeIn) && o2.rows == o1.rows
            && o2.rows[TodayIndex(o2.rows, empId, today).value].timeIn == Some(first.timeIn)
  {
    IntendedSuccessStores(rows, nextId, empId, today, first, nextId2);
    var o1 := LogAttendanceIntended(rows, nextId, empId, today, first);
    assert Col(o1.rows[TodayIndex(o1.rows, empId, today).value], TimeIn) == Some(first.timeIn);
  }

  /** As written, a Time In logged after a Time Out of the same day (whose INSERT wrote "" as
      Time In) reports success but leaves "", and a second Time In then succeeds too. */
  lemma SecondTimeInAcceptedAsWritten()
    ensures var r0 := [AttendanceRow(1, 7, 100, Some(""), Some("08:30 AM"), Some(""), Some(""))];
            var o1 := LogAttendanceOn(r0, 2, 7, 100, LogRequest("08:40 AM", "", "", ""));
            var o2 := LogAttendanceOn(o1.rows, 2, 7, 100, LogRequest("08:45 AM", "", "", ""));
            o1.success && o2.success && o2.rows == r0
  {
    var r0 := [AttendanceRow(1, 7, 100, Some(""), Some("08:30 AM"), Some(""), Some(""))];
    assert TodayIndex(r0, 7, 100) == Some(0);
  }

  // ---------------------------------------------------------------- status and statistics

  datatype AttendanceStatus = AttendanceStatus(hasTimeIn: bool, hasTimeOut: bool, hasStartBreak: bool, hasStopBreak: bool)

  function Has(s: AttendanceStatus, f: Field): bool {
    match f
    case TimeIn => s.hasTimeIn
    case TimeOut => s.hasTimeOut
    case StartBreak => s.hasStartBreak
    case StopBreak => s.hasStopBreak
  }

  /** GetTodayAttendanceStatus: which actions today's row records. */
  function GetTodayAttendanceStatus(rows: seq<AttendanceRow>, empId: int, today: int): (s: AttendanceStatus)
    ensures TodayIndex(rows, empId, today).None? ==> s == AttendanceStatus(false, false, false, false)
    ensures TodayIndex(rows, empId, today).Some? ==>
              forall f :: Has(s, f) == Recorded(Col(rows[TodayIndex(rows, empId, today).value], f))
  {
    match TodayIndex(rows, empId, today)
    case None => AttendanceStatus(false, false, false, false)
    case Some(i) =>
      var r := rows[i];
      AttendanceStatus(Recorded(r.timeIn), Recorded(r.timeOut), Recorded(r.startBreak), Recorded(r.stopBreak))
  }

  /** The status flags and the refusal check of LogAttendance agree: a request for one action
      is refused exactly when the status says that action is done. */
  lemma StatusMatchesRefusal(rows: seq<AttendanceRow>, nextId: int, empId: int, today: int, req: LogRequest, f: Field)
    requires Req(req, f) != "" && forall g :: g != f ==> Req(req, g) == ""
    ensures var o := LogAttendanceOn(rows, nextId, empId, today, req);
            !o.success <==> Has(GetTodayAttendanceStatus(rows, empId, today), f)
    ensures var o := LogAttendanceOn(rows, nextId, empId, today, req);
            !o.success ==> o.message == RecordedMessage(f)
  {
    var o := LogAttendanceOn(rows, nextId, empId, today, req);
    if TodayIndex(rows, empId, today).Some? {
      var i := TodayIndex(rows, empId, today).value;
      if AlreadyRecorded(rows[i], req).Some? {
        assert AlreadyRecorded(rows[i], req).value == f;
      } else if Recorded(Col(rows[i], f)) {
        assert false;
      }
    }
  }

  /** The number of today's rows. */
  function TodayRows(rows: seq<AttendanceRow>, today: int): nat {
    if rows == [] then 0 else (if rows[0].day == today then 1 else 0) + TodayRows(rows[1..], today)
  }

  /** How many of today's rows record field f. */
  function CountRecorded(rows: seq<AttendanceRow>, today: int, f: Field): (n: nat)
    ensures n <= TodayRows(rows, today)
    ensures n > 0 <==> exists i :: 0 <= i < |rows| && rows[i].day == today && Recorded(Col(rows[i], f))
  {
    if rows == [] then 0
    else
      var rest := CountRecorded(rows[1..], today, f);
      assert (exists i :: 0 <= i < |rows[1..]| && rows[1..][i].day == today && Recorded(Col(rows[1..][i], f)))
             ==> (exists i :: 0 <= i < |rows| && rows[i].day == today && Recorded(Col(rows[i], f))) by {
        if exists i :: 0 <= i < |rows[1..]| && rows[1..][i].day == today && Recorded(Col(rows[1..][i], f)) {
          var i :| 0 <= i < |rows[1..]| && rows[1..][i].day == today && Recorded(Col(rows[1..][i], f));
          assert rows[i + 1] == rows[1..][i];
        }
      }
      assert (exists i :: 0 <= i < |rows| && rows[i].day == today && Recorded(Col(rows[i], f)))
             && !(rows[0].day == today && Recorded(Col(rows[0], f)))
             ==> (exists i :: 0 <= i < |rows[1..]| && rows[1..][i].day == today && Recorded(Col(rows[1..][i], f))) by {
        if (exists i :: 0 <= i < |rows| && rows[i].day == today && Recorded(Col(rows[i], f)))
           && !(rows[0].day == today && Recorded(Col(rows[0], f))) {
          var i :| 0 <= i < |rows| && rows[i].day == today && Recorded(Col(rows[i], f));
          assert rows[1..][i - 1] == rows[i];
        }
      }
      (if rows[0].day == today && Recorded(Col(rows[0], f)) then 1 else 0) + rest
  }

  datatype AttendanceStats = AttendanceStats(timeInCount: nat, timeOutCount: nat, startBreakCount: nat, stopBreakCount: nat)

  /** GetTodayAttendanceStats: per column, today's rows that record it. */
  function GetTodayAttendanceStats(rows: seq<AttendanceRow>, today: int): (s: AttendanceStats)
    ensures s.timeInCount <= TodayRows(rows, today) && s.timeOutCount <= TodayRows(rows, today)
    ensures s.startBreakCount <= TodayRows(rows, today) && s.stopBreakCount <= TodayRows(rows, today)
    ensures s.timeInCount > 0 <==> exists i :: 0 <= i < |rows| && rows[i].day == today && Recorded(rows[i].timeIn)
    ensures s.timeOutCount > 0 <==> exists i :: 0 <= i < |rows| && rows[i].day == today && Recorded(rows[i].timeOut)
    ensures s.startBreakCount > 0 <==> exists i :: 0 <= i < |rows| && rows[i].day == today && Recorded(rows[i].startBreak)
    ensures s.stopBreakCount > 0 <==> exists i :: 0 <= i < |rows| && rows[i].day == today && Recorded(rows[i].stopBreak)
  {
    AttendanceStats(CountRecorded(rows, today, TimeIn), CountRecorded(rows, today, TimeOut),
                    CountRecorded(rows, today, StartBreak), CountRecorded(rows, today, StopBreak))
  }

  /** With one row per employee per day, the Time In count is positive exactly when some
      employee's status shows Time In today. */
  lemma StatsMatchStatus(rows: seq<AttendanceRow>, today: int)
    requires OneRowPerDay(rows)
    ensures GetTodayAttendanceStats(rows, today).timeInCount > 0 <==>
              exists i :: 0 <= i < |rows| && GetTodayAttendanceStatus(rows, rows[i].empId, today).hasTimeIn
  {
    if GetTodayAttendanceStats(rows, today).timeInCount > 0 {
      var i :| 0 <= i < |rows| && rows[i].day == today && Recorded(rows[i].timeIn);
      var k := TodayIndex(rows, rows[i].empId, today).value;
      assert k == i;
      assert GetTodayAttendanceStatus(rows, rows[i].empId, today).hasTimeIn;
    }
    if exists i :: 0 <= i < |rows| && GetTodayAttendanceStatus(rows, rows[i].empId, today).hasTimeIn {
      var i :| 0 <= i < |rows| && GetTodayAttendanceStatus(rows, rows[i].empId, today).hasTimeIn;
      var k := TodayIndex(rows, rows[i].empId, today).value;
      assert rows[k].day == today && Recorded(rows[k].timeIn);
    }
  }

  // ---------------------------------------------------------------- employees and images

  datatype EmployeeInfo = EmployeeInfo(empId: int, empCode: string, fullName: string)

  function InfoOf(e: Employee): EmployeeInfo {
    EmployeeInfo(e.empId, e.empCode, e.fullName)
  }

  /** GetEmployeeById: the employee with that id, or null. */
  function GetEmployeeById(es: seq<Employee>, empId: int): (r: Option<EmployeeInfo>)
    ensures r.Some? ==> r.value.empId == empId
  {
    if es == [] then None
    else if es[0].empId == empId then Some(InfoOf(es[0]))
    else GetEmployeeById(es[1..], empId)
  }

  /** GetEmployeeById finds a row exactly when one has the id, and returns that row's info. */
  lemma {:induction false} GetEmployeeByIdSpec(es: seq<Employee>, empId: int)
    ensures GetEmployeeById(es, empId).None? <==> forall e :: e in es ==> e.empId != empId
    ensures GetEmployeeById(es, empId).Some? ==>
              exists e :: e in es && e.empId == empId && GetEmployeeById(es, empId).value == InfoOf(e)
  {
    if es != [] {
      GetEmployeeByIdSpec(es[1..], empId);
      assert forall e :: e in es ==> e == es[0] || e in es[1..];
    }
  }

  /** GetEmployeeFaceImage: the path of the employee's image with the largest faceImageID. */
  function GetEmployeeFaceImage(fs: seq<FaceImage>, empId: int): (r: Option<string>)
    ensures r.None? <==> forall j :: 0 <= j < |fs| ==> fs[j].empId != empId
    ensures r.Some? ==> exists j :: 0 <= j < |fs| && fs[j].empId == empId && fs[j].imgPath == r.value
                          && forall m :: 0 <= m < |fs| && fs[m].empId == empId ==> fs[m].faceImageId <= fs[j].faceImageId
  {
    match LatestImageIndex(fs, empId)
    case None => None
    case Some(j) => Some(fs[j].imgPath)
  }

  /** The index of the employee's image with the largest id (the last one among equal ids). */
  function LatestImageIndex(fs: seq<FaceImage>, empId: int): (r: Option<nat>)
    ensures r.None? <==> forall j :: 0 <= j < |fs| ==> fs[j].empId != empId
    ensures r.Some? ==> r.value < |fs| && fs[r.value].empId == empId
                        && forall m :: 0 <= m < |fs| && fs[m].empId == empId ==> fs[m].faceImageId <= fs[r.value].faceImageId
  {
    if fs == [] then None
    else
      var p := fs[..|fs| - 1];
      var last := fs[|fs| - 1];
      var r := LatestImageIndex(p, empId);
      if last.empId != empId then r
      else if r.Some? && fs[r.value].faceImageId > last.faceImageId then r
      else Some(|fs| - 1)
  }

  /** The image just added with a fresh id is the one GetEmployeeFaceImage returns. */
  lemma LatestAfterAdd(fs: seq<FaceImage>, nextId: int, empId: int, path: string)
    requires FaceImageIdsBelow(fs, nextId)
    ensures GetEmployeeFaceImage(fs + [FaceImage(nextId, empId, path)], empId) == Some(path)
  {
    var g := fs + [FaceImage(nextId, empId, path)];
    assert g[..|g| - 1] == fs;
    var r := LatestImageIndex(fs, empId);
    if r.Some? {
      assert fs[r.value].faceImageId < nextId;
    }
  }

  /** A row of GetAllEmployeesWithFaces. */
  datatype FaceRow = FaceRow(empId: int, imgPath: string)

  function RowOf(img: FaceImage): FaceRow {
    FaceRow(img.empId, img.imgPath)
  }

  /** GetAllEmployeesWithFaces (INNER JOIN): one row per face image whose employee exists,
      in FaceImages order. */
  function EmployeesWithFaces(es: seq<Employee>, fs: seq<FaceImage>): (r: seq<FaceRow>)
    ensures |r| <= |fs|
  {
    if fs == [] then []
    else (if GetEmployeeById(es, fs[0].empId).Some? then [RowOf(fs[0])] else []) + EmployeesWithFaces(es, fs[1..])
  }

  /** A row is returned exactly when some face image produces it and its employee exists. */
  lemma {:induction false} EmployeesWithFacesMembers(es: seq<Employee>, fs: seq<FaceImage>)
    ensures forall x :: x in EmployeesWithFaces(es, fs) <==>
              exists img :: img in fs && RowOf(img) == x && GetEmployeeById(es, img.empId).Some?
  {
    if fs != [] {
      EmployeesWithFacesMembers(es, fs[1..]);
      assert forall img :: img in fs ==> img == fs[0] || img in fs[1..];
    }
  }

  /** A row of GetAllEmployeesForDisplay: the profile photo if set, else the latest face image. */
  datatype DisplayRow = DisplayRow(empId: int, empCode: string, fullName: string, imgPath: Option<string>)

  function DisplayRowOf(e: Employee, fs: seq<FaceImage>): DisplayRow {
    DisplayRow(e.empId, e.empCode, e.fullName,
               if e.profilePhotoPath.Some? then e.profilePhotoPath else GetEmployeeFaceImage(fs, e.empId))
  }

  /** GetAllEmployeesForDisplay: one row per employee (LEFT JOIN, ROW_NUMBER() = 1). */
  function EmployeesForDisplay(es: seq<Employee>, fs: seq<FaceImage>): (r: seq<DisplayRow>)
    ensures |r| == |es|
    ensures forall i :: 0 <= i < |es| ==> r[i] == DisplayRowOf(es[i], fs)
  {
    seq(|es|, i requires 0 <= i < |es| => DisplayRowOf(es[i], fs))
  }

  /** A row of GetTodayAllAttendance (INNER JOIN with Employees). */
  datatype TodayRecord = TodayRecord(
    attendanceId: int, empId: int, fullName: string, empCode: string,
    timeIn: Option<string>, timeOut: Option<string>, startBreak: Option<string>, stopBreak: Option<string>)

  /** The joined row of attendance row a and its employee e. */
  function RecordOf(a: AttendanceRow, e: EmployeeInfo): TodayRecord {
    TodayRecord(a.attendanceId, a.empId, e.fullName, e.empCode, a.timeIn, a.timeOut, a.startBreak, a.stopBreak)
  }

  /** GetTodayAllAttendance: exactly today's attendance rows whose employee exists, each joined
      with that employee, newest first (ORDER BY LogTime DESC): the table is read from its
      last row back. */
  function TodayAllAttendance(es: seq<Employee>, rows: seq<AttendanceRow>, today: int): (r: seq<TodayRecord>)
    ensures |r| <= |rows|
    ensures forall t :: t in r ==> exists a :: a in rows && a.day == today && GetEmployeeById(es, a.empId).Some?
                                              && t == RecordOf(a, GetEmployeeById(es, a.empId).value)
    ensures forall a :: a in rows && a.day == today && GetEmployeeById(es, a.empId).Some? ==>
                          RecordOf(a, GetEmployeeById(es, a.empId).value) in r
  {
    if rows == [] then []
    else
      var init := rows[..|rows| - 1];
      var a := rows[|rows| - 1];
      var rest := TodayAllAttendance(es, init, today);
      var e := GetEmployeeById(es, a.empId);
      assert rows == init + [a];
      if a.day == today && e.Some? then [RecordOf(a, e.value)] + rest else rest
  }

  /** Records whose attendance ids strictly decrease: the newest row comes first. */
  predicate NewestFirst(r: seq<TodayRecord>) {
    forall i, j :: 0 <= i < j < |r| ==> r[i].attendanceId > r[j].attendanceId
  }

  /** With rows in insertion order, today's records come newest first: their attendance ids
      strictly decrease. */
  lemma {:induction false} TodayAllAttendanceNewestFirst(es: seq<Employee>, rows: seq<AttendanceRow>, today: int)
    requires AttendanceIdsIncreasing(rows)
    ensures NewestFirst(TodayAllAttendance(es, rows, today))
  {
    if rows != [] {
      var n := |rows| - 1;
      var init := rows[..n];
      var a := rows[n];
      assert AttendanceIdsIncreasing(init) by {
        assert forall k :: 0 <= k < n ==> init[k] == rows[k];
      }
      TodayAllAttendanceNewestFirst(es, init, today);
      TodayIdsBelow(es, init, today, a.attendanceId);
      var rest := TodayAllAttendance(es, init, today);
      var e := GetEmployeeById(es, a.empId);
      if a.day == today && e.Some? {
        ConsNewestFirst(RecordOf(a, e.value), rest);
      }
    }
  }

  /** A record newer than every record of a newest-first list can go in front of it. */
  lemma ConsNewestFirst(x: TodayRecord, rest: seq<TodayRecord>)
    requires NewestFirst(rest) && forall t :: t in rest ==> t.attendanceId < x.attendanceId
    ensures NewestFirst([x] + rest)
  {
    var r := [x] + rest;
    forall i, j | 0 <= i < j < |r| ensures r[i].attendanceId > r[j].attendanceId {
      assert r[j] == rest[j - 1] && rest[j - 1] in rest;
      if i > 0 {
        assert r[i] == rest[i - 1];
      }
    }
  }

  /** A bound on the ids of the table bounds the ids of today's records. */
  lemma {:induction false} TodayIdsBelow(es: seq<Employee>, rows: seq<AttendanceRow>, today: int, bound: int)
    requires forall k :: 0 <= k < |rows| ==> rows[k].attendanceId < bound
    ensures forall t :: t in TodayAllAttendance(es, rows, today) ==> t.attendanceId < bound
  {
    if rows != [] {
      var n := |rows| - 1;
      assert forall k :: 0 <= k < n ==> rows[..n][k] == rows[k];
      TodayIdsBelow(es, rows[..n], today, bound);
    }
  }

  /** GetProfilePhoto: the profile photo path of the employee, null for none or no employee. */
  function GetProfilePhoto(es: seq<Employee>, empId: int): (r: Option<string>)
    ensures r.Some? ==> exists e :: e in es && e.empId == empId && e.profilePhotoPath == r
    ensures (forall e :: e in es ==> e.empId != empId) ==> r.None?
  {
    if es == [] then None
    else if es[0].empId == empId then es[0].profilePhotoPath
    else GetProfilePhoto(es[1..], empId)
  }

  // ---------------------------------------------------------------- row updates

  /** UPDATE Employees SET FullName = name WHERE empID = id. */
  function RenameEmployee(es: seq<Employee>, empId: int, fullName: string): (r: seq<Employee>)
    ensures |r| == |es|
    ensures forall i :: 0 <= i < |es| ==>
              r[i] == if es[i].empId == empId then es[i].(fullName := fullName) else es[i]
  {
    seq(|es|, i requires 0 <= i < |es| => if es[i].empId == empId then es[i].(fullName := fullName) else es[i])
  }

  /** UPDATE Employees SET profilePhotoPath = path WHERE empID = id. */
  function SetProfilePhoto(es: seq<Employee>, empId: int, path: string): (r: seq<Employee>)
    ensures |r| == |es|
    ensures forall i :: 0 <= i < |es| ==>
              r[i] == if es[i].empId == empId then es[i].(profilePhotoPath := Some(path)) else es[i]
  {
    seq(|es|, i requires 0 <= i < |es| => if es[i].empId == empId then es[i].(profilePhotoPath := Some(path)) else es[i])
  }

  /** A stored profile photo is what GetProfilePhoto then returns. */
  lemma ProfilePhotoRoundTrip(es: seq<Employee>, empId: int, path: string)
    requires EmployeeIdsUnique(es) && GetEmployeeById(es, empId).Some?
    ensures GetProfilePhoto(SetProfilePhoto(es, empId, path), empId) == Some(path)
  {
    var r := SetProfilePhoto(es, empId, path);
    var j :| 0 <= j < |es| && es[j].empId == empId;
    ProfilePhotoAt(r, j);
    assert r[j].profilePhotoPath == Some(path);
  }

  /** With unique ids, GetProfilePhoto reads the row of that id. */
  lemma {:induction false} ProfilePhotoAt(es: seq<Employee>, j: int)
    requires 0 <= j < |es| && forall i :: 0 <= i < |es| && i != j ==> es[i].empId != es[j].empId
    ensures GetProfilePhoto(es, es[j].empId) == es[j].profilePhotoPath
  {
    if j > 0 {
      var t := es[1..];
      forall i | 0 <= i < |t| && i != j - 1 ensures t[i].empId != t[j - 1].empId {
        assert t[i] == es[i + 1];
      }
      ProfilePhotoAt(t, j - 1);
    }
  }

  /** DELETE FROM Attendance WHERE empID = id. */
  function DeleteAttendanceOf(rows: seq<AttendanceRow>, empId: int): (r: seq<AttendanceRow>)
    ensures forall x :: x in r <==> x in rows && x.empId != empId
    ensures |r| <= |rows|
  {
    FilterMembers(rows, (a: AttendanceRow) => a.empId != empId);
    FilterLength(rows, (a: AttendanceRow) => a.empId != empId);
    Filter(rows, (a: AttendanceRow) => a.empId != empId)
  }

  /** DELETE FROM FaceImages WHERE empID = id. */
  function DeleteFaceImagesOf(fs: seq<FaceImage>, empId: int): (r: seq<FaceImage>)
    ensures forall x :: x in r <==> x in fs && x.empId != empId
    ensures |r| <= |fs|
  {
    FilterMembers(fs, (f: FaceImage) => f.empId != empId);
    FilterLength(fs, (f: FaceImage) => f.empId != empId);
    Filter(fs, (f: FaceImage) => f.empId != empId)
  }

  /** DELETE FROM Employees WHERE empID = id. */
  function DeleteEmployeeRow(es: seq<Employee>, empId: int): (r: seq<Employee>)
    ensures forall x :: x in r <==> x in es && x.empId != empId
    ensures |r| <= |es|
  {
    FilterMembers(es, (e: Employee) => e.empId != empId);
    FilterLength(es, (e: Employee) => e.empId != empId);
    Filter(es, (e: Employee) => e.empId != empId)
  }

  /** After the three deletes nothing of the employee remains: no employee row, no face
      image, no attendance status. */
  lemma DeleteLeavesNothing(es: seq<Employee>, fs: seq<FaceImage>, rows: seq<AttendanceRow>, empId: int, today: int)
    ensures GetEmployeeById(DeleteEmployeeRow(es, empId), empId).None?
    ensures GetEmployeeFaceImage(DeleteFaceImagesOf(fs, empId), empId).None?
    ensures GetTodayAttendanceStatus(DeleteAttendanceOf(rows, empId), empId, today) == AttendanceStatus(false, false, false, false)
  {
    var e := DeleteEmployeeRow(es, empId);
    forall j | 0 <= j < |e| ensures e[j].empId != empId { assert e[j] in e; }
    GetEmployeeByIdSpec(e, empId);
    var f := DeleteFaceImagesOf(fs, empId);
    forall j | 0 <= j < |f| ensures f[j].empId != empId { assert f[j] in f; }
    var a := DeleteAttendanceOf(rows, empId);
    forall j | 0 <= j < |a| ensures a[j].empId != empId { assert a[j] in a; }
  }

  // ---------------------------------------------------------------- the database

  class Database {
    var employees: seq<Employee>
    var faceImages: seq<FaceImage>
    var attendance: seq<AttendanceRow>
    /** The next IDENTITY values of empID, faceImageID and attendanceID. */
    var nextEmpId: int
    var nextFaceImageId: int
    var nextAttendanceId: int

    /** Keys are unique and below their identity counters; at most one attendance row per
        employee per day. */
    predicate Valid()
      reads this
    {
      && EmployeeIdsUnique(employees) && EmployeeIdsBelow(employees, nextEmpId)
      && FaceImageIdsBelow(faceImages, nextFaceImageId)
      && AttendanceIdsBelow(attendance, nextAttendanceId)
      && OneRowPerDay(attendance)
    }

    constructor ()
      ensures Valid()
      ensures employees == [] && faceImages == [] && attendance == []
    {
      employees := [];
      faceImages := [];
      attendance := [];
      nextEmpId := 1;
      nextFaceImageId := 1;
      nextAttendanceId := 1;
    }

    /** AddEmployee: inserts the employee and returns the generated empID.  The empCode the
        schema assigns is an input. */
    method AddEmployee(fullName: string, empCode: string) returns (empId: int)
      requires Valid()
      modifies this`employees, this`nextEmpId
      ensures Valid()
      ensures empId == old(nextEmpId) && nextEmpId == old(nextEmpId) + 1
      ensures employees == old(employees) + [Employee(empId, empCode, fullName, None)]
      ensures GetEmployeeById(old(employees), empId).None?
      ensures GetEmployeeById(employees, empId) == Some(EmployeeInfo(empId, empCode, fullName))
      ensures GetProfilePhoto(employees, empId).None?
    {
      empId := nextEmpId;
      GetEmployeeByIdSpec(employees, empId);
      employees := employees + [Employee(empId, empCode, fullName, None)];
      nextEmpId := nextEmpId + 1;
      EmployeeAt(employees, |employees| - 1);
    }

    /** AddFaceImage: inserts a face image row. */
    method AddFaceImage(empId: int, imagePath: string)
      requires Valid()
      modifies this`faceImages, this`nextFaceImageId
      ensures Valid()
      ensures faceImages == old(faceImages) + [FaceImage(old(nextFaceImageId), empId, imagePath)]
      ensures nextFaceImageId == old(nextFaceImageId) + 1
      ensures GetEmployeeFaceImage(faceImages, empId) == Some(imagePath)
    {
      LatestAfterAdd(faceImages, nextFaceImageId, empId, imagePath);
      faceImages := faceImages + [FaceImage(nextFaceImageId, empId, imagePath)];
      nextFaceImageId := nextFaceImageId + 1;
    }

    /** LogAttendance: reads today's row, then refuses, updates it or inserts a new one. */
    method LogAttendance(empId: int, today: int, timeIn: string, timeOut: string, startBr: string, stopBr: string)
      returns (success: bool, message: string)
      requires Valid()
      modifies this`attendance, this`nextAttendanceId
      ensures Valid()
      ensures var o := LogAttendanceOn(old(attendance), old(nextAttendanceId), empId, today,
                                       LogRequest(timeIn, timeOut, startBr, stopBr));
              success == o.success && message == o.message && attendance == o.rows
      ensures nextAttendanceId == old(nextAttendanceId) +
                (if TodayIndex(old(attendance), empId, today).None? then 1 else 0)
    {
      var req := LogRequest(timeIn, timeOut, startBr, stopBr);
      LogKeepsOneRowPerDay(attendance, nextAttendanceId, empId, today, req);
      var existing := TodayIndex(attendance, empId, today);
      if existing.Some? {
        var i := existing.value;
        var row := attendance[i];
        if timeIn != "" && Recorded(row.timeIn) {
          return false, RecordedMessage(TimeIn);
        }
        if timeOut != "" && Recorded(row.timeOut) {
          return false, RecordedMessage(TimeOut);
        }
        if startBr != "" && Recorded(row.startBreak) {
          return false, RecordedMessage(StartBreak);
        }
        if stopBr != "" && Recorded(row.stopBreak) {
          return false, RecordedMessage(StopBreak);
        }
        attendance := attendance[i := UpdatedRow(row, req)];
      } else {
        attendance := attendance + [InsertedRow(nextAttendanceId, empId, today, req)];
        nextAttendanceId := nextAttendanceId + 1;
      }
      return true, SuccessMessage;
    }

    /** UpdateEmployee: renames the employee. */
    method UpdateEmployee(empId: int, fullName: string)
      requires Valid()
      modifies this`employees
      ensures Valid()
      ensures employees == RenameEmployee(old(employees), empId, fullName)
    {
      employees := RenameEmployee(employees, empId, fullName);
    }

    /** AddProfilePhoto: stores the employee's full photo path. */
    method AddProfilePhoto(empId: int, photoPath: string)
      requires Valid()
      modifies this`employees
      ensures Valid()
      ensures employees == SetProfilePhoto(old(employees), empId, photoPath)
      ensures GetEmployeeById(old(employees), empId).Some? ==> GetProfilePhoto(employees, empId) == Some(photoPath)
    {
      if GetEmployeeById(employees, empId).Some? {
        ProfilePhotoRoundTrip(employees, empId, photoPath);
      }
      employees := SetProfilePhoto(employees, empId, photoPath);
    }

    /** DeleteEmployee: deletes the attendance rows, then the face images, then the employee. */
    method DeleteEmployee(empId: int)
      requires Valid()
      modifies this`employees, this`faceImages, this`attendance
      ensures Valid()
      ensures attendance == DeleteAttendanceOf(old(attendance), empId)
      ensures faceImages == DeleteFaceImagesOf(old(faceImages), empId)
      ensures employees == DeleteEmployeeRow(old(employees), empId)
    {
      DeleteAttendanceKeepsKeys(attendance, empId);
      attendance := DeleteAttendanceOf(attendance, empId);
      faceImages := DeleteFaceImagesOf(faceImages, empId);
      DeleteEmployeeKeepsKeys(employees, empId);
      employees := DeleteEmployeeRow(employees, empId);
    }
  }

  /** With unique ids, GetEmployeeById reads the row of that id. */
  lemma {:induction false} EmployeeAt(es: seq<Employee>, j: int)
    requires 0 <= j < |es| && forall i :: 0 <= i < |es| && i != j ==> es[i].empId != es[j].empId
    ensures GetEmployeeById(es, es[j].empId) == Some(InfoOf(es[j]))
    ensures GetProfilePhoto(es, es[j].empId) == es[j].profilePhotoPath
  {
    if j > 0 {
      var t := es[1..];
      forall i | 0 <= i < |t| && i != j - 1 ensures t[i].empId != t[j - 1].empId {
        assert t[i] == es[i + 1];
      }
      EmployeeAt(t, j - 1);
    }
  }

  /** Deleting an employee's attendance keeps one row per employee per day. */
  lemma DeleteAttendanceKeepsKeys(rows: seq<AttendanceRow>, empId: int)
    requires OneRowPerDay(rows)
    ensures OneRowPerDay(DeleteAttendanceOf(rows, empId))
  {
    FilterPairwise(rows, (a: AttendanceRow) => a.empId != empId,
                   (x: AttendanceRow, y: AttendanceRow) => !(x.empId == y.empId && x.day == y.day));
  }

  /** Deleting an employee's attendance keeps the other rows in insertion order. */
  lemma DeleteAttendanceKeepsOrder(rows: seq<AttendanceRow>, empId: int)
    requires AttendanceIdsIncreasing(rows)
    ensures AttendanceIdsIncreasing(DeleteAttendanceOf(rows, empId))
  {
    FilterPairwise(rows, (a: AttendanceRow) => a.empId != empId,
                   (x: AttendanceRow, y: AttendanceRow) => x.attendanceId < y.attendanceId);
  }

  /** Deleting an employee row keeps ids unique. */
  lemma DeleteEmployeeKeepsKeys(es: seq<Employee>, empId: int)
    requires EmployeeIdsUnique(es)
    ensures EmployeeIdsUnique(DeleteEmployeeRow(es, empId))
  {
    FilterPairwise(es, (e: Employee) => e.empId != empId, (x: Employee, y: Employee) => x.empId != y.empId);
  }
}
