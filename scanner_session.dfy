/**
 * The time clock's scanner screen (UserControl1) as a state machine over its
 * flags: whether the camera runs, whether a log is being processed or has
 * been made for the current camera session, whether auto-scan is on, and
 * whether the screen has been cleaned up.  Events (frames, timer ticks, the
 * delayed restart, visibility changes, button clicks) are methods; what the
 * camera, the detector, the recogniser and the user answer are inputs.
 *
 * ProcessFrame runs on the capture thread, so AutoLogAttendance re-posts
 * itself to the UI thread; here it is the event that follows a
 * ProcessFaceDetection that started a log.
 */
module ScannerSession {
  import opened Common
  import opened CameraDevices
  import opened FaceGeometry
  import opened AttendanceStore
  import opened AttendancePolicy
  import FaceRecognition

  /** The status HandleAttendanceByTime reads: today's flags of the recognised employee, all
      false when nobody is recognised. */
  function StatusFor(rows: seq<AttendanceRow>, empId: Option<int>, today: int): AttendanceStatus {
    match empId
    case None => AttendanceStatus(false, false, false, false)
    case Some(e) => GetTodayAttendanceStatus(rows, e, today)
  }

  class Scanner {
    var selectedAction: string
    var cameraRunning: bool
    /** The device index of the open capture while the camera runs. */
    var device: Option<int>
    var recognizedEmpId: Option<int>
    var recognizedEmpName: Option<string>
    var isRecognitionStable: bool
    var hasLoggedAttendance: bool
    var isAutoScanEnabled: bool
    var isProcessingAttendance: bool
    var isCleanedUp: bool
    var visible: bool
    /** The auto-clear timer exists until cleanup and runs between Start and Stop. */
    var hasAutoClearTimer: bool
    var autoClearTimerRunning: bool
    /** A Task.Delay(2000) restart is pending. */
    var restartPending: bool
    /** The face service reference is set until cleanup. */
    var hasFaceService: bool
    const service: FaceRecognition.FaceRecognitionService
    const db: Database

    /** The session invariant: the camera has a device exactly while it runs; each camera run
        logs at most once; after cleanup the camera, the timer and the service are gone;
        stability needs a recognised employee. */
    predicate Flags()
      reads this
    {
      && (cameraRunning <==> device.Some?)
      && (device.Some? ==> 0 <= device.value < DeviceCount)
      && (hasLoggedAttendance ==> !cameraRunning)
      && (isCleanedUp ==> !cameraRunning && !hasAutoClearTimer)
      && (hasFaceService <==> !isCleanedUp)
      && (!hasAutoClearTimer ==> !autoClearTimerRunning)
      && (isRecognitionStable ==> recognizedEmpId.Some?)
      && (recognizedEmpId.Some? <==> recognizedEmpName.Some?)
    }

    /** The session invariant together with those of the service and the database. */
    predicate Valid()
      reads this, service, db
    {
      Flags() && service.Valid() && db.Valid()
    }

    /** The constructor with InitializeFaceService: the service, a parameter here, is trained
        on the employees with faces.  In the source the scanner builds its own instance, while
        the profile screen uses the singleton, so the two screens hold different services. */
    constructor (db: Database, service: FaceRecognition.FaceRecognitionService, usable: set<string>, trainSucceeds: bool)
      requires db.Valid() && service.Valid()
      modifies service`labelToEmpId, service`isModelTrained, service`retrainedEvents
      ensures Valid() && this.db == db && this.service == service
      ensures selectedAction == "TimeIn" && !cameraRunning && isAutoScanEnabled && !isCleanedUp
      ensures !hasLoggedAttendance && !isProcessingAttendance && visible
      ensures service.labelToEmpId
                == FaceRecognition.RetrainedLabelMap(old(service.labelToEmpId), EmployeesWithFaces(db.employees, db.faceImages), usable)
      ensures service.isModelTrained == FaceRecognition.TrainsModel(EmployeesWithFaces(db.employees, db.faceImages), usable, trainSucceeds)
    {
      this.db := db;
      this.service := service;
      selectedAction := "TimeIn";
      cameraRunning := false;
      device := None;
      recognizedEmpId := None;
      recognizedEmpName := None;
      isRecognitionStable := false;
      hasLoggedAttendance := false;
      isAutoScanEnabled := true;
      isProcessingAttendance := false;
      isCleanedUp := false;
      visible := true;
      hasAutoClearTimer := true;
      autoClearTimerRunning := false;
      restartPending := false;
      hasFaceService := true;
      new;
      var _ := service.TrainModel(EmployeesWithFaces(db.employees, db.faceImages), usable, trainSucceeds);
    }

    /** StartCamera: no-op while running; otherwise resets the attendance flags, stops the
        timer and opens the lowest device index in 0..4 that opens, if any.  Its only caller,
        AutoStartCamera, never reaches it after cleanup. */
    method StartCamera(openable: set<int>)
      requires Flags() && !isCleanedUp
      modifies this`hasLoggedAttendance, this`isProcessingAttendance, this`autoClearTimerRunning
      modifies this`device, this`cameraRunning
      ensures Flags()
      ensures old(cameraRunning) ==> unchanged(this)
      ensures !old(cameraRunning) ==>
                && !hasLoggedAttendance && !isProcessingAttendance && !autoClearTimerRunning
                && (cameraRunning <==> exists j :: 0 <= j < DeviceCount && j in openable)
                && (device.Some? ==> device.value in openable && forall j :: 0 <= j < device.value ==> j !in openable)
    {
      if cameraRunning {
        return;
      }
      hasLoggedAttendance := false;
      isProcessingAttendance := false;
      autoClearTimerRunning := false;
      var found := OpenFirstCamera(openable);
      if found.None? {
        return;
      }
      device := found;
      cameraRunning := true;
    }

    /** StopCamera: releases the capture if the camera runs. */
    method StopCamera()
      requires Flags()
      modifies this`cameraRunning, this`device
      ensures Flags()
      ensures !cameraRunning && device.None?
    {
      if !cameraRunning {
        return;
      }
      device := None;
      cameraRunning := false;
    }

    /** AutoStartCamera: nothing after cleanup, while hidden or while running; otherwise
        retrains the model (InitializeCameraPanel) and starts the camera. */
    method AutoStartCamera(openable: set<int>, usable: set<string>, trainSucceeds: bool)
      requires Valid()
      modifies this`hasLoggedAttendance, this`isProcessingAttendance, this`autoClearTimerRunning
      modifies this`device, this`cameraRunning
      modifies service`labelToEmpId, service`isModelTrained, service`retrainedEvents
      ensures Valid()
      ensures old(isCleanedUp) || !old(visible) || old(cameraRunning) ==> unchanged(this) && unchanged(service)
      ensures old(isCleanedUp) ==> !cameraRunning
      ensures !(old(isCleanedUp) || !old(visible) || old(cameraRunning)) ==>
                && !hasLoggedAttendance && !isProcessingAttendance && !autoClearTimerRunning
                && (cameraRunning <==> exists j :: 0 <= j < DeviceCount && j in openable)
                && service.labelToEmpId == (if |EmployeesWithFaces(db.employees, db.faceImages)| == 0
                                            then old(service.labelToEmpId)
                                            else FaceRecognition.LabelMap(FaceRecognition.TrainedLabels(
                                                   EmployeesWithFaces(db.employees, db.faceImages), usable)))
                && service.isModelTrained
                     == FaceRecognition.TrainsModel(EmployeesWithFaces(db.employees, db.faceImages), usable, trainSucceeds)
    {
      if isCleanedUp || !visible {
        return;
      }
      if cameraRunning {
        return;
      }
      var _ := service.TrainModel(EmployeesWithFaces(db.employees, db.faceImages), usable, trainSucceeds);
      StartCamera(openable);
    }

    /** ProcessFaceDetection: skipped without a service or while a log is processed; otherwise
        recognises the face and, when the match is stable and nothing was logged in this camera
        run, marks a log as being processed and hands it to AutoLogAttendance. */
    method ProcessFaceDetection(detected: seq<Rect>, normalizes: bool, prediction: FaceRecognition.Prediction)
      returns (recognition: Option<FaceRecognition.Recognition>, logStarted: bool)
      requires Valid()
      modifies this`recognizedEmpId, this`recognizedEmpName, this`isRecognitionStable, this`isProcessingAttendance
      modifies service
      ensures Valid()
      ensures !old(hasFaceService) || old(isProcessingAttendance) ==>
                unchanged(this) && unchanged(service) && recognition.None? && !logStarted
      ensures old(hasFaceService) && !old(isProcessingAttendance) ==> Recognized(recognition)
      ensures old(hasFaceService) && !old(isProcessingAttendance) && recognition.Some?
              && GetEmployeeById(db.employees, recognition.value.empId).None? ==>
                recognizedEmpId == old(recognizedEmpId) && isRecognitionStable == old(isRecognitionStable)
      ensures old(hasFaceService) && !old(isProcessingAttendance) ==> isProcessingAttendance == logStarted
      ensures logStarted <==> old(hasFaceService) && !old(isProcessingAttendance) && recognition.Some?
                              && GetEmployeeById(db.employees, recognition.value.empId).Some?
                              && recognition.value.isStable && !old(hasLoggedAttendance)
    {
      recognition := None;
      logStarted := false;
      if !hasFaceService || isProcessingAttendance {
        return;
      }
      recognition := service.RecognizeFace(detected, normalizes, prediction);
      logStarted := TakeRecognition(recognition);
    }

    /** What a frame's recognition leaves in the session: the employee and its stability when
        the match names an existing employee, nobody when there is no match. */
    predicate Recognized(recognition: Option<FaceRecognition.Recognition>)
      reads this, db
    {
      && (recognition.Some? && GetEmployeeById(db.employees, recognition.value.empId).Some? ==>
            recognizedEmpId == Some(recognition.value.empId) && isRecognitionStable == recognition.value.isStable)
      && (recognition.None? ==> recognizedEmpId.None? && !isRecognitionStable)
    }

    /** The part of ProcessFaceDetection after RecognizeFace: looks the employee up and, for a
        stable match not yet logged in this camera run, starts processing a log. */
    method TakeRecognition(recognition: Option<FaceRecognition.Recognition>) returns (logStarted: bool)
      requires Flags() && !isProcessingAttendance
      modifies this`recognizedEmpId, this`recognizedEmpName, this`isRecognitionStable, this`isProcessingAttendance
      ensures Flags()
      ensures Recognized(recognition)
      ensures recognition.Some? && GetEmployeeById(db.employees, recognition.value.empId).None? ==>
                recognizedEmpId == old(recognizedEmpId) && isRecognitionStable == old(isRecognitionStable)
      ensures logStarted <==> recognition.Some? && GetEmployeeById(db.employees, recognition.value.empId).Some?
                              && recognition.value.isStable && !hasLoggedAttendance
      ensures isProcessingAttendance == logStarted
    {
      logStarted := false;
      if recognition.Some? {
        var r := recognition.value;
        var emp := GetEmployeeById(db.employees, r.empId);
        if emp.Some? {
          recognizedEmpId := Some(emp.value.empId);
          recognizedEmpName := Some(emp.value.fullName);
          isRecognitionStable := r.isStable;
          if r.isStable {
            if !hasLoggedAttendance && !isProcessingAttendance {
              isProcessingAttendance := true;
              logStarted := true;
            }
          }
        }
      } else {
        recognizedEmpId := None;
        recognizedEmpName := None;
        isRecognitionStable := false;
      }
    }

    /** AutoLogAttendance at time of day `now` on day `today`, with the user's answer to the
        dialog if one is shown.  A log is attempted only for a stable, recognised employee not
        yet logged in this camera run; a null action clears both flags and leaves the camera;
        an attempted log marks the run as logged, stops the camera and, being an action not yet
        recorded today, is reported as logged (as written, after the day's first action the
        row may not change; see AttendanceStore.LostUpdateAsWritten). */
    method AutoLogAttendance(today: int, now: int, choice: Option<nat>) returns (action: Option<string>, success: bool)
      requires Valid()
      requires 0 <= now < TicksPerDay
      requires ValidAnswer(GetCurrentTimePeriod(now), StatusFor(db.attendance, recognizedEmpId, today), choice)
      modifies this`isProcessingAttendance, this`hasLoggedAttendance, this`selectedAction, this`restartPending
      modifies this`cameraRunning, this`device, this`autoClearTimerRunning
      modifies db`attendance, db`nextAttendanceId
      ensures Valid()
      ensures old(recognizedEmpId).None? || !old(isRecognitionStable) || old(hasLoggedAttendance) ==>
                action.None? && !success && !isProcessingAttendance
                && hasLoggedAttendance == old(hasLoggedAttendance) && cameraRunning == old(cameraRunning)
                && db.attendance == old(db.attendance)
      ensures old(recognizedEmpId).Some? && old(isRecognitionStable) && !old(hasLoggedAttendance) ==>
                action == HandleAttendanceByTime(GetCurrentTimePeriod(now),
                                                 GetTodayAttendanceStatus(old(db.attendance), old(recognizedEmpId).value, today), choice)
      ensures old(recognizedEmpId).Some? && old(isRecognitionStable) && !old(hasLoggedAttendance) && action.None? ==>
                !success && !isProcessingAttendance && !hasLoggedAttendance && cameraRunning == old(cameraRunning)
                && db.attendance == old(db.attendance)
      ensures action.Some? ==>
                && hasLoggedAttendance && !cameraRunning && success
                && FieldOfName(action.value).Some? && selectedAction == action.value
                && db.attendance == LogAttendanceOn(old(db.attendance), old(db.nextAttendanceId), old(recognizedEmpId).value,
                                                    today, LogRequestFor(FieldOfName(action.value).value, FormatTime(now))).rows
                && autoClearTimerRunning == hasAutoClearTimer
    {
      action := None;
      success := false;
      if recognizedEmpId.None? || !isRecognitionStable || hasLoggedAttendance {
        isProcessingAttendance := false;
        return;
      }
      ghost var rows := db.attendance;
      ghost var nextId := db.nextAttendanceId;
      var empId := recognizedEmpId.value;
      var status := GetTodayAttendanceStatus(db.attendance, empId, today);
      action := HandleAttendanceByTime(GetCurrentTimePeriod(now), status, choice);
      var currentTime := FormatTime(now);
      success := LogChosen(empId, today, action, currentTime);
      ChosenActionIsLogged(rows, nextId, empId, today, now, choice);
    }

    /** AutoLogAttendance once the action is chosen: no action clears both flags, an action
        is logged with the current time. */
    method LogChosen(empId: int, today: int, action: Option<string>, currentTime: string) returns (success: bool)
      requires Flags() && db.Valid() && !hasLoggedAttendance
      modifies this`isProcessingAttendance, this`hasLoggedAttendance, this`selectedAction, this`restartPending
      modifies this`cameraRunning, this`device, this`autoClearTimerRunning
      modifies db`attendance, db`nextAttendanceId
      ensures Flags() && db.Valid()
      ensures action.None? ==>
                !success && !isProcessingAttendance && !hasLoggedAttendance && cameraRunning == old(cameraRunning)
                && db.attendance == old(db.attendance)
      ensures action.Some? ==>
                && hasLoggedAttendance && !cameraRunning && selectedAction == action.value
                && (success ==> autoClearTimerRunning == hasAutoClearTimer)
                && (FieldOfName(action.value).None? ==> !success && db.attendance == old(db.attendance))
      ensures action.Some? && FieldOfName(action.value).Some? ==>
                var o := LogAttendanceOn(old(db.attendance), old(db.nextAttendanceId), empId, today,
                                         LogRequestFor(FieldOfName(action.value).value, currentTime));
                success == o.success && db.attendance == o.rows
    {
      success := false;
      if action.None? {
        isProcessingAttendance := false;
        hasLoggedAttendance := false;
      } else {
        selectedAction := action.value;
        success := LogAction(empId, today, action.value, currentTime);
      }
    }

    /** The switch of AutoLogAttendance: the action's log call with the current time, then the
        end of the log step. */
    method LogAction(empId: int, today: int, action: string, currentTime: string) returns (success: bool)
      requires Flags() && db.Valid()
      modifies this`isProcessingAttendance, this`hasLoggedAttendance, this`restartPending
      modifies this`cameraRunning, this`device, this`autoClearTimerRunning
      modifies db`attendance, db`nextAttendanceId
      ensures Flags() && db.Valid()
      ensures FieldOfName(action).Some? ==>
                var o := LogAttendanceOn(old(db.attendance), old(db.nextAttendanceId), empId, today,
                                         LogRequestFor(FieldOfName(action).value, currentTime));
                success == o.success && db.attendance == o.rows
      ensures FieldOfName(action).None? ==> !success && db.attendance == old(db.attendance)
      ensures hasLoggedAttendance && !cameraRunning
      ensures success ==> autoClearTimerRunning == hasAutoClearTimer
      ensures !success ==> !isProcessingAttendance && restartPending == (old(restartPending) || isAutoScanEnabled)
    {
      success := false;
      match FieldOfName(action) {
        case Some(f) =>
          var req := LogRequestFor(f, currentTime);
          var message;
          success, message := db.LogAttendance(empId, today, req.timeIn, req.timeOut, req.startBreak, req.stopBreak);
        case None =>
      }
      AfterLog(success);
    }

    /** The end of AutoLogAttendance: marks the camera run as logged and stops the camera; on
        success the auto-clear timer starts, on refusal processing ends and, with auto-scan
        on, a restart is scheduled. */
    method AfterLog(success: bool)
      requires Flags()
      modifies this`isProcessingAttendance, this`hasLoggedAttendance, this`restartPending
      modifies this`cameraRunning, this`device, this`autoClearTimerRunning
      ensures Flags()
      ensures hasLoggedAttendance && !cameraRunning
      ensures success ==> autoClearTimerRunning == hasAutoClearTimer
                          && isProcessingAttendance == old(isProcessingAttendance)
                          && restartPending == old(restartPending)
      ensures !success ==> !isProcessingAttendance && autoClearTimerRunning == old(autoClearTimerRunning)
                           && restartPending == (old(restartPending) || isAutoScanEnabled)
    {
      StopCamera();
      hasLoggedAttendance := true;
      if success {
        if hasAutoClearTimer {
          autoClearTimerRunning := true;
        }
      } else {
        isProcessingAttendance := false;
        if isAutoScanEnabled {
          restartPending := true;
        }
      }
    }

    /** AutoClearTimer_Tick: stops the timer, resets both attendance flags and, with auto-scan
        on and the camera off, restarts scanning. */
    method AutoClearTimerTick(openable: set<int>, usable: set<string>, trainSucceeds: bool)
      requires Valid() && autoClearTimerRunning
      modifies this`hasLoggedAttendance, this`isProcessingAttendance, this`autoClearTimerRunning
      modifies this`device, this`cameraRunning
      modifies service`labelToEmpId, service`isModelTrained, service`retrainedEvents
      ensures Valid()
      ensures !hasLoggedAttendance && !isProcessingAttendance && !autoClearTimerRunning
      ensures !(old(isAutoScanEnabled) && !old(cameraRunning)) ==> cameraRunning == old(cameraRunning)
      ensures old(isAutoScanEnabled) && !old(cameraRunning) && old(visible) ==>
                (cameraRunning <==> exists j :: 0 <= j < DeviceCount && j in openable)
    {
      autoClearTimerRunning := false;
      hasLoggedAttendance := false;
      isProcessingAttendance := false;
      if isAutoScanEnabled && !cameraRunning {
        AutoStartCamera(openable, usable, trainSucceeds);
      }
    }

    /** The Task.Delay(2000) continuation after a refused log: restarts scanning if the camera
        is off. */
    method DelayedRestart(openable: set<int>, usable: set<string>, trainSucceeds: bool)
      requires Valid() && restartPending
      modifies this`restartPending
      modifies this`hasLoggedAttendance, this`isProcessingAttendance, this`autoClearTimerRunning
      modifies this`device, this`cameraRunning
      modifies service`labelToEmpId, service`isModelTrained, service`retrainedEvents
      ensures Valid()
      ensures !restartPending && selectedAction == old(selectedAction)
      ensures old(isCleanedUp) ==> !cameraRunning
      ensures old(cameraRunning) ==> cameraRunning
      ensures !old(cameraRunning) && !old(isCleanedUp) && old(visible) ==>
                (cameraRunning <==> exists j :: 0 <= j < DeviceCount && j in openable)
    {
      restartPending := false;
      if !cameraRunning {
        AutoStartCamera(openable, usable, trainSucceeds);
      }
    }

    /** Cleanup: no camera start from now on; the timer, the camera and the service go. */
    method Cleanup()
      requires Valid()
      modifies this`cameraRunning, this`device, this`isCleanedUp, this`isAutoScanEnabled
      modifies this`autoClearTimerRunning, this`hasAutoClearTimer, this`hasFaceService
      ensures Valid()
      ensures isCleanedUp && !isAutoScanEnabled && !hasAutoClearTimer && !autoClearTimerRunning
      ensures !cameraRunning && !hasFaceService
      ensures hasLoggedAttendance == old(hasLoggedAttendance)
              && isProcessingAttendance == old(isProcessingAttendance)
    {
      StopCamera();
      isCleanedUp := true;
      isAutoScanEnabled := false;
      autoClearTimerRunning := false;
      hasAutoClearTimer := false;
      hasFaceService := false;
    }

    /** OnVisibleChanged with the new visibility: nothing after cleanup; hidden stops auto-scan,
        the timer and the camera; shown with the camera off turns auto-scan on and starts it. */
    method OnVisibleChanged(nowVisible: bool, openable: set<int>, usable: set<string>, trainSucceeds: bool)
      requires Valid()
      modifies this`visible, this`isAutoScanEnabled, this`autoClearTimerRunning
      modifies this`hasLoggedAttendance, this`isProcessingAttendance, this`device, this`cameraRunning
      modifies service`labelToEmpId, service`isModelTrained, service`retrainedEvents
      ensures Valid() && visible == nowVisible
      ensures old(isCleanedUp) ==> !cameraRunning && isAutoScanEnabled == old(isAutoScanEnabled)
      ensures !old(isCleanedUp) && !nowVisible ==> !isAutoScanEnabled && !autoClearTimerRunning && !cameraRunning
      ensures !old(isCleanedUp) && nowVisible && !old(cameraRunning) ==>
                isAutoScanEnabled && (cameraRunning <==> exists j :: 0 <= j < DeviceCount && j in openable)
      ensures !old(isCleanedUp) && nowVisible && old(cameraRunning) ==>
                cameraRunning && isAutoScanEnabled == old(isAutoScanEnabled)
    {
      visible := nowVisible;
      if isCleanedUp {
        return;
      }
      if !visible {
        isAutoScanEnabled := false;
        autoClearTimerRunning := false;
        StopCamera();
      } else if !cameraRunning {
        isAutoScanEnabled := true;
        AutoStartCamera(openable, usable, trainSucceeds);
      }
    }

    /** BtnStartScan_Click: toggles scanning. */
    method StartScanClick(openable: set<int>, usable: set<string>, trainSucceeds: bool)
      requires Valid()
      modifies this`isAutoScanEnabled
      modifies this`hasLoggedAttendance, this`isProcessingAttendance, this`autoClearTimerRunning
      modifies this`device, this`cameraRunning
      modifies service`labelToEmpId, service`isModelTrained, service`retrainedEvents
      ensures Valid() && !autoClearTimerRunning
      ensures old(cameraRunning) ==> !isAutoScanEnabled && !cameraRunning
      ensures !old(cameraRunning) ==> isAutoScanEnabled
      ensures !old(cameraRunning) && !old(isCleanedUp) && old(visible) ==>
                (cameraRunning <==> exists j :: 0 <= j < DeviceCount && j in openable)
      ensures old(isCleanedUp) ==> !cameraRunning
    {
      autoClearTimerRunning := false;
      if !cameraRunning {
        isAutoScanEnabled := true;
        AutoStartCamera(openable, usable, trainSucceeds);
      } else {
        isAutoScanEnabled := false;
        StopCamera();
      }
    }

    /** BtnTimeIn_Click and its three siblings: select the action and reset both flags. */
    method SelectAction(f: Field)
      requires Flags()
      modifies this`selectedAction, this`hasLoggedAttendance, this`isProcessingAttendance
      ensures Flags()
      ensures selectedAction == ActionName(f) && !hasLoggedAttendance && !isProcessingAttendance
    {
      selectedAction := ActionName(f);
      hasLoggedAttendance := false;
      isProcessingAttendance := false;
    }
  }
}
