/**
 * The time clock's attendance decision (UserControl1): which period of the
 * working day it is, which action that period logs on its own or offers in
 * a dialog, how a dialog answer becomes an action name, and the four
 * argument patterns handed to LogAttendance.
 *
 * Times of day are TimeSpan ticks (100 ns).  The user's answer to a dialog
 * is an input: None when the window is closed, Some(i) when button i is
 * clicked; a disabled button cannot be clicked.
 */
module AttendancePolicy {
  import opened Common
  import opened Text
  import opened AttendanceStore

  const TicksPerSecond: int := 10_000_000
  const TicksPerMinute: int := 60 * TicksPerSecond
  const TicksPerHour: int := 60 * TicksPerMinute
  const TicksPerDay: int := 24 * TicksPerHour

  /** new TimeSpan(h, m, s). */
  function TimeOfDay(h: int, m: int, s: int): int {
    ((h * 60 + m) * 60 + s) * TicksPerSecond
  }

  const EarlyLoginEnd: int := TimeOfDay(9, 0, 0)
  const MorningWorkEnd: int := TimeOfDay(12, 0, 0)
  const LunchEnd: int := TimeOfDay(13, 0, 0)
  const AfternoonWorkEnd: int := TimeOfDay(18, 0, 0)

  datatype AttendancePeriod = EarlyLogin | MorningWork | LunchBreak | AfternoonWork | AfterWork

  /** The position of a period in the day. */
  function Rank(p: AttendancePeriod): nat {
    match p
    case EarlyLogin => 0
    case MorningWork => 1
    case LunchBreak => 2
    case AfternoonWork => 3
    case AfterWork => 4
  }

  /** GetCurrentTimePeriod: the half-open intervals [0, 9:00), [9:00, 12:00), [12:00, 13:00),
      [13:00, 18:00) and [18:00, ...). */
  function GetCurrentTimePeriod(now: int): (p: AttendancePeriod)
    ensures p == EarlyLogin <==> now < EarlyLoginEnd
    ensures p == MorningWork <==> EarlyLoginEnd <= now < MorningWorkEnd
    ensures p == LunchBreak <==> MorningWorkEnd <= now < LunchEnd
    ensures p == AfternoonWork <==> LunchEnd <= now < AfternoonWorkEnd
    ensures p == AfterWork <==> AfternoonWorkEnd <= now
  {
    if now < EarlyLoginEnd then EarlyLogin
    else if now < MorningWorkEnd then MorningWork
    else if now < LunchEnd then LunchBreak
    else if now < AfternoonWorkEnd then AfternoonWork
    else AfterWork
  }

  /** Periods follow each other through the day. */
  lemma PeriodsInOrder(t1: int, t2: int)
    requires t1 <= t2
    ensures Rank(GetCurrentTimePeriod(t1)) <= Rank(GetCurrentTimePeriod(t2))
  {
  }

  /** The boundary instants fall on the later side. */
  lemma PeriodBoundaries()
    ensures GetCurrentTimePeriod(TimeOfDay(8, 59, 59)) == EarlyLogin
    ensures GetCurrentTimePeriod(TimeOfDay(9, 0, 0)) == MorningWork
    ensures GetCurrentTimePeriod(TimeOfDay(11, 59, 59)) == MorningWork
    ensures GetCurrentTimePeriod(TimeOfDay(12, 0, 0)) == LunchBreak
    ensures GetCurrentTimePeriod(TimeOfDay(12, 59, 59)) == LunchBreak
    ensures GetCurrentTimePeriod(TimeOfDay(13, 0, 0)) == AfternoonWork
    ensures GetCurrentTimePeriod(TimeOfDay(17, 59, 59)) == AfternoonWork
    ensures GetCurrentTimePeriod(TimeOfDay(18, 0, 0)) == AfterWork
  {
  }

  // ---------------------------------------------------------------- action names

  /** The two words of each action's button text. */
  function FirstWord(f: Field): string {
    match f
    case TimeIn => "Time"
    case TimeOut => "Time"
    case StartBreak => "Start"
    case StopBreak => "Stop"
  }

  function SecondWord(f: Field): string {
    match f
    case TimeIn => "In"
    case TimeOut => "Out"
    case StartBreak => "Break"
    case StopBreak => "Break"
  }

  /** The button text of each action: "Time In", "Time Out", "Start Break", "Stop Break". */
  function ActionLabel(f: Field): string {
    FirstWord(f) + " " + SecondWord(f)
  }

  /** The action name used in code: "TimeIn", "TimeOut", "StartBreak", "StopBreak". */
  function ActionName(f: Field): string {
    FirstWord(f) + SecondWord(f)
  }

  /** The dialog tag of a label, Replace(" ", ""), is its action name. */
  lemma LabelToName(f: Field)
    ensures RemoveSpaces(ActionLabel(f)) == ActionName(f)
  {
    assert ' ' !in FirstWord(f) && ' ' !in SecondWord(f) by {
      match f
      case TimeIn =>
      case TimeOut =>
      case StartBreak =>
      case StopBreak =>
    }
    JoinWords(FirstWord(f), SecondWord(f));
  }

  /** The action a name stands for, if any (the switch in AutoLogAttendance). */
  function FieldOfName(action: string): (r: Option<Field>)
    ensures r.Some? ==> ActionName(r.value) == action
  {
    if action == "TimeIn" then Some(TimeIn)
    else if action == "TimeOut" then Some(TimeOut)
    else if action == "StartBreak" then Some(StartBreak)
    else if action == "StopBreak" then Some(StopBreak)
    else None
  }

  /** Every action name stands for its own action. */
  lemma NameToField(f: Field)
    ensures FieldOfName(ActionName(f)) == Some(f)
  {
    match f
    case TimeIn =>
    case TimeOut =>
    case StartBreak =>
    case StopBreak =>
  }

  /** FormatActionName: the label of an action name; any other string is returned as is. */
  function FormatActionName(action: string): string {
    if action == "TimeIn" then "Time In"
    else if action == "TimeOut" then "Time Out"
    else if action == "StartBreak" then "Start Break"
    else if action == "StopBreak" then "Stop Break"
    else action
  }

  /** FormatActionName undoes Replace(" ", "") on the four labels. */
  lemma FormatActionNameInverse(f: Field)
    ensures FormatActionName(RemoveSpaces(ActionLabel(f))) == ActionLabel(f)
  {
    LabelToName(f);
    FormatActionNameOfName(f);
  }

  /** FormatActionName maps each action name to its label. */
  lemma FormatActionNameOfName(f: Field)
    ensures FormatActionName(ActionName(f)) == ActionLabel(f)
  {
    match f
    case TimeIn =>
    case TimeOut =>
    case StartBreak =>
    case StopBreak =>
  }

  /** FormatActionName leaves any string that is not an action name alone. */
  lemma FormatActionNameIdentity(s: string)
    requires forall g :: ActionName(g) != s
    ensures FormatActionName(s) == s
  {
    assert ActionName(TimeIn) != s && ActionName(TimeOut) != s;
    assert ActionName(StartBreak) != s && ActionName(StopBreak) != s;
  }

  // ---------------------------------------------------------------- dialogs

  datatype DialogKind = EarlyLoginDialog | LunchBreakDialog | AfternoonDialog

  /** A dialog button: one of the four actions, or Cancel. */
  datatype Button = ActionButton(f: Field) | CancelButton

  /** The text of a button before it is marked done. */
  function ButtonText(b: Button): string {
    match b
    case ActionButton(f) => ActionLabel(f)
    case CancelButton => "Cancel"
  }

  /** The buttons of each dialog, in display order. */
  function DialogButtons(k: DialogKind): seq<Button> {
    match k
    case EarlyLoginDialog => [ActionButton(TimeIn), ActionButton(TimeOut), ActionButton(StartBreak), ActionButton(StopBreak), CancelButton]
    case LunchBreakDialog => [ActionButton(StartBreak), ActionButton(StopBreak), ActionButton(TimeIn), CancelButton]
    case AfternoonDialog => [ActionButton(TimeIn), ActionButton(TimeOut), ActionButton(StartBreak), ActionButton(StopBreak), CancelButton]
  }

  /** The isDisabled switch: a button is disabled when its action is already recorded today. */
  function IsDisabled(action: string, status: AttendanceStatus): bool {
    if action == "Time In" then status.hasTimeIn
    else if action == "Time Out" then status.hasTimeOut
    else if action == "Start Break" then status.hasStartBreak
    else if action == "Stop Break" then status.hasStopBreak
    else false
  }

  /** What the switch and the click handler make of each button's text. */
  lemma ButtonTextFacts(b: Button, status: AttendanceStatus)
    ensures ButtonText(b) == "Cancel" <==> b == CancelButton
    ensures b == CancelButton ==> !IsDisabled(ButtonText(b), status)
    ensures b.ActionButton? ==> IsDisabled(ButtonText(b), status) == Has(status, b.f)
                                && RemoveSpaces(ButtonText(b)) == ActionName(b.f)
  {
    if b.ActionButton? {
      LabelToName(b.f);
      ActionTextFacts(b.f, status);
    }
  }

  /** The isDisabled switch reads the status flag of each action label. */
  lemma ActionTextFacts(f: Field, status: AttendanceStatus)
    ensures ActionLabel(f) != "Cancel"
    ensures IsDisabled(ActionLabel(f), status) == Has(status, f)
  {
    match f
    case TimeIn =>
    case TimeOut =>
    case StartBreak =>
    case StopBreak =>
  }

  /** An answer the dialog can give: closed, or a click on an enabled button. */
  predicate CanAnswer(buttons: seq<Button>, status: AttendanceStatus, choice: Option<nat>) {
    choice.Some? ==> choice.value < |buttons| && !IsDisabled(ButtonText(buttons[choice.value]), status)
  }

  /** What the dialog returns: null when closed or cancelled, else the clicked text without spaces. */
  function DialogResult(buttons: seq<Button>, status: AttendanceStatus, choice: Option<nat>): Option<string>
    requires CanAnswer(buttons, status, choice)
  {
    match choice
    case None => None
    case Some(i) => if ButtonText(buttons[i]) == "Cancel" then None else Some(RemoveSpaces(ButtonText(buttons[i])))
  }

  /** A dialog answer is null or the name of an offered action not yet recorded today. */
  lemma DialogResultOffered(buttons: seq<Button>, status: AttendanceStatus, choice: Option<nat>)
    requires CanAnswer(buttons, status, choice)
    ensures var r := DialogResult(buttons, status, choice);
            r.Some? ==> exists g :: r.value == ActionName(g) && ActionButton(g) in buttons && !Has(status, g)
  {
    if choice.Some? {
      var b := buttons[choice.value];
      ButtonTextFacts(b, status);
    }
  }

  /** Every offered action not yet recorded can be chosen and gives its name; the last
      button, Cancel, gives null. */
  lemma DialogOffersOpenActions(k: DialogKind, status: AttendanceStatus, f: Field)
    ensures ActionButton(f) in DialogButtons(k) && !Has(status, f) ==>
              exists i :: 0 <= i < |DialogButtons(k)| && DialogButtons(k)[i] == ActionButton(f)
                          && CanAnswer(DialogButtons(k), status, Some(i))
                          && DialogResult(DialogButtons(k), status, Some(i)) == Some(ActionName(f))
    ensures CanAnswer(DialogButtons(k), status, Some(|DialogButtons(k)| - 1))
            && DialogResult(DialogButtons(k), status, Some(|DialogButtons(k)| - 1)).None?
  {
    var bs := DialogButtons(k);
    ButtonTextFacts(CancelButton, status);
    assert bs[|bs| - 1] == CancelButton;
    if ActionButton(f) in bs && !Has(status, f) {
      var i :| 0 <= i < |bs| && bs[i] == ActionButton(f);
      ButtonTextFacts(bs[i], status);
      assert DialogResult(bs, status, Some(i)) == Some(ActionName(f));
    }
  }

  // ---------------------------------------------------------------- HandleAttendanceByTime

  /** The dialog HandleAttendanceByTime shows, if any. */
  function DialogShown(period: AttendancePeriod, status: AttendanceStatus): Option<DialogKind> {
    match period
    case EarlyLogin => Some(EarlyLoginDialog)
    case MorningWork => if status.hasTimeIn then Some(AfternoonDialog) else None
    case LunchBreak => Some(LunchBreakDialog)
    case AfternoonWork => Some(AfternoonDialog)
    case AfterWork => None
  }

  /** A valid answer to whatever dialog is shown. */
  predicate ValidAnswer(period: AttendancePeriod, status: AttendanceStatus, choice: Option<nat>) {
    DialogShown(period, status).Some? ==> CanAnswer(DialogButtons(DialogShown(period, status).value), status, choice)
  }

  /** HandleAttendanceByTime: the action to log, or null. */
  function HandleAttendanceByTime(period: AttendancePeriod, status: AttendanceStatus, choice: Option<nat>): Option<string>
    requires ValidAnswer(period, status, choice)
  {
    match period
    case EarlyLogin => DialogResult(DialogButtons(EarlyLoginDialog), status, choice)
    case MorningWork =>
      if status.hasTimeIn then DialogResult(DialogButtons(AfternoonDialog), status, choice) else Some("TimeIn")
    case LunchBreak => DialogResult(DialogButtons(LunchBreakDialog), status, choice)
    case AfternoonWork => DialogResult(DialogButtons(AfternoonDialog), status, choice)
    case AfterWork => if status.hasTimeOut then None else Some("TimeOut")
  }

  /** Morning work logs Time In without a dialog unless it is recorded; after work logs
      Time Out without a dialog, or nothing once it is recorded; the other periods ask. */
  lemma HandleByPeriod(period: AttendancePeriod, status: AttendanceStatus, choice: Option<nat>)
    requires ValidAnswer(period, status, choice)
    ensures period == MorningWork && !status.hasTimeIn ==>
              DialogShown(period, status).None? && HandleAttendanceByTime(period, status, choice) == Some("TimeIn")
    ensures period == MorningWork && status.hasTimeIn ==> DialogShown(period, status) == Some(AfternoonDialog)
    ensures period == AfterWork ==>
              DialogShown(period, status).None?
              && HandleAttendanceByTime(period, status, choice) == if status.hasTimeOut then None else Some("TimeOut")
    ensures period in {EarlyLogin, LunchBreak, AfternoonWork} ==> DialogShown(period, status).Some?
    ensures period == LunchBreak ==> HandleAttendanceByTime(period, status, choice) != Some("TimeOut")
  {
    if period == LunchBreak {
      DialogResultOffered(DialogButtons(LunchBreakDialog), status, choice);
    }
  }

  /** Whatever the period and the answer, the chosen action is one of the four and is not
      yet recorded today. */
  lemma HandleNeverRepeats(period: AttendancePeriod, status: AttendanceStatus, choice: Option<nat>)
    requires ValidAnswer(period, status, choice)
    ensures var r := HandleAttendanceByTime(period, status, choice);
            r.Some? ==> FieldOfName(r.value).Some? && !Has(status, FieldOfName(r.value).value)
  {
    var r := HandleAttendanceByTime(period, status, choice);
    match DialogShown(period, status)
    case None =>
    case Some(k) =>
      DialogResultOffered(DialogButtons(k), status, choice);
      if r.Some? {
        var g :| r.value == ActionName(g) && ActionButton(g) in DialogButtons(k) && !Has(status, g);
        NameToField(g);
      }
  }

  // ---------------------------------------------------------------- LogTimeIn and friends

  /** LogTimeIn, LogTimeOut, LogStartBreak, LogStopBreak: the time in the action's slot. */
  function LogRequestFor(f: Field, time: string): (req: LogRequest)
    ensures Req(req, f) == time && forall g :: g != f ==> Req(req, g) == ""
  {
    match f
    case TimeIn => LogRequest(time, "", "", "")
    case TimeOut => LogRequest("", time, "", "")
    case StartBreak => LogRequest("", "", time, "")
    case StopBreak => LogRequest("", "", "", time)
  }

  /** Two decimal digits. */
  function TwoDigits(n: int): (r: string)
    requires 0 <= n < 100
    ensures |r| == 2 && '0' <= r[0] <= '9' && '0' <= r[1] <= '9'
  {
    [('0' as int + n / 10) as char, ('0' as int + n % 10) as char]
  }

  /** DateTime.ToString("hh:mm:ss tt") for a time of day, with the AM/PM designators. */
  function FormatTime(now: int): (r: string)
    requires 0 <= now < TicksPerDay
    ensures |r| == 11 && r[2] == ':' && r[5] == ':' && r[8] == ' ' && r[10] == 'M'
    ensures r[9] == (if now < MorningWorkEnd then 'A' else 'P')
  {
    var h := now / TicksPerHour;
    var h12 := if h % 12 == 0 then 12 else h % 12;
    var m := (now / TicksPerMinute) % 60;
    var s := (now / TicksPerSecond) % 60;
    TwoDigits(h12) + ":" + TwoDigits(m) + ":" + TwoDigits(s) + " " + (if h < 12 then "AM" else "PM")
  }

  /** An action HandleAttendanceByTime chooses is never refused by LogAttendance when the
      status and the log read the same table: the refusal branch of AutoLogAttendance
      cannot be reached. */
  lemma ChosenActionIsLogged(rows: seq<AttendanceRow>, nextId: int, empId: int, today: int,
                             now: int, choice: Option<nat>)
    requires 0 <= now < TicksPerDay
    requires ValidAnswer(GetCurrentTimePeriod(now), GetTodayAttendanceStatus(rows, empId, today), choice)
    ensures var status := GetTodayAttendanceStatus(rows, empId, today);
            var r := HandleAttendanceByTime(GetCurrentTimePeriod(now), status, choice);
            r.Some? ==>
              FieldOfName(r.value).Some?
              && LogAttendanceOn(rows, nextId, empId, today,
                                 LogRequestFor(FieldOfName(r.value).value, FormatTime(now))).success
  {
    var status := GetTodayAttendanceStatus(rows, empId, today);
    var r := HandleAttendanceByTime(GetCurrentTimePeriod(now), status, choice);
    HandleNeverRepeats(GetCurrentTimePeriod(now), status, choice);
    if r.Some? {
      var f := FieldOfName(r.value).value;
      var req := LogRequestFor(f, FormatTime(now));
      assert Req(req, f) != "";
      StatusMatchesRefusal(rows, nextId, empId, today, req, f);
    }
  }
}
