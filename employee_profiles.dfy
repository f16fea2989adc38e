/**
 * The employee profile screen (EmployeeProfileControl): the searchable list of
 * profile cards, the edit dialog, and the enrolment panel, where the camera
 * runs, each frame is checked against the registered faces, and the Add
 * button enrols a new employee: a duplicate check, the employee row, the
 * training images, the colour profile photo, and retraining.
 *
 * What the camera, the detector, the recogniser and the file system do, and
 * what the user answers, are inputs.  `detected` is what DetectFaces finds in
 * the frame at hand; every detection on one frame sees the same boxes.
 */
module EmployeeProfiles {
  import opened Common
  import opened Text
  import opened CameraDevices
  import opened FaceGeometry
  import opened AttendanceStore
  import FaceRecognition

  // ---------------------------------------------------------------- the profile list

  /** What the profile list panel shows: one card per row, the "No employees added yet"
      label, or the no-match message of a search. */
  datatype ProfileView = Cards(rows: seq<DisplayRow>) | NoEmployeesYet | NoProfilesMatch

  /** DisplayProfiles: a card per row, in order; an empty table shows the empty-list label.
      The source draws each card's photo from GetProfilePhoto(empId), the profile photo column
      alone, not from the row's imgPath; which picture a card shows is not part of ProfileView. */
  function DisplayProfiles(rows: seq<DisplayRow>): (v: ProfileView)
    ensures v.Cards? <==> rows != []
    ensures v.Cards? ==> v.rows == rows
    ensures !v.NoProfilesMatch?
  {
    if rows == [] then NoEmployeesYet else Cards(rows)
  }

  /** The Where of FilterProfiles: the lower-cased name or employee code contains the
      lower-cased search text. */
  predicate ProfileMatches(searchText: string, row: DisplayRow) {
    Contains(ToLower(row.fullName), ToLower(searchText)) || Contains(ToLower(row.empCode), ToLower(searchText))
  }

  /** The rows a search keeps, in table order. */
  function MatchingProfiles(rows: seq<DisplayRow>, searchText: string): (r: seq<DisplayRow>)
    ensures forall x :: x in r <==> x in rows && ProfileMatches(searchText, x)
    ensures |r| <= |rows|
  {
    FilterLength(rows, x => ProfileMatches(searchText, x));
    FilterMembers(rows, x => ProfileMatches(searchText, x));
    Filter(rows, x => ProfileMatches(searchText, x))
  }

  /** A search keeps the table order: it distributes over concatenation. */
  lemma MatchingProfilesKeepOrder(a: seq<DisplayRow>, b: seq<DisplayRow>, searchText: string)
    ensures MatchingProfiles(a + b, searchText) == MatchingProfiles(a, searchText) + MatchingProfiles(b, searchText)
  {
    FilterAppend(a, b, x => ProfileMatches(searchText, x));
  }

  /** FilterProfiles: nothing before the profiles are loaded; a blank or whitespace search
      (not trimmed otherwise) shows every row; any other search shows the matching rows, or
      the no-match message when there are none. */
  function FilterProfiles(all: Option<seq<DisplayRow>>, searchText: string, shown: ProfileView): (v: ProfileView)
    ensures all.None? ==> v == shown
    ensures all.Some? && IsBlank(searchText) ==> v == DisplayProfiles(all.value)
    ensures all.Some? && !IsBlank(searchText) ==>
              (v == NoProfilesMatch <==> forall x :: x in all.value ==> !ProfileMatches(searchText, x))
    ensures all.Some? && !IsBlank(searchText) && v.Cards? ==>
              forall x :: x in v.rows <==> x in all.value && ProfileMatches(searchText, x)
    ensures all.Some? && !IsBlank(searchText) ==> v.Cards? || v.NoProfilesMatch?
  {
    if all.None? then shown
    else if IsBlank(searchText) then DisplayProfiles(all.value)
    else
      var filtered := MatchingProfiles(all.value, searchText);
      if filtered != [] then
        assert filtered[0] in filtered;
        Cards(filtered)
      else NoProfilesMatch
  }

  // ---------------------------------------------------------------- the profile photo crop

  /** (int)(width * 0.2): a fifth of the width, truncated toward zero. */
  function CropPadding(width: int): (p: int)
    ensures width >= 0 ==> 0 <= p <= width && 5 * p <= width < 5 * p + 5
  {
    if width >= 0 then width / 5 else -((-width) / 5)
  }

  /** The face box lies inside a frame of the given size. */
  predicate InsideFrame(face: Rect, frameWidth: int, frameHeight: int) {
    && 0 <= face.x && 0 <= face.y && 0 <= face.width && 0 <= face.height
    && face.x + face.width <= frameWidth && face.y + face.height <= frameHeight
  }

  /** `outer` covers `inner`. */
  predicate Encloses(outer: Rect, inner: Rect) {
    && outer.x <= inner.x && outer.y <= inner.y
    && inner.x + inner.width <= outer.x + outer.width
    && inner.y + inner.height <= outer.y + outer.height
  }

  /** The padded region of CaptureFaceOnlyColoredPhoto: the face grown by a fifth of its
      width on every side, clipped to the frame.  It never leaves the frame on any side,
      and it covers a face that lies inside the frame. */
  function PaddedCrop(face: Rect, frameWidth: int, frameHeight: int): (r: Rect)
    ensures 0 <= r.x && 0 <= r.y && r.x + r.width <= frameWidth && r.y + r.height <= frameHeight
    ensures InsideFrame(face, frameWidth, frameHeight) ==> Encloses(r, face)
  {
    var padding := CropPadding(face.width);
    var x := Max(0, face.x - padding);
    var y := Max(0, face.y - padding);
    Rect(x, y, Min(frameWidth - x, face.width + 2 * padding), Min(frameHeight - y, face.height + 2 * padding))
  }

  /** faces.OrderByDescending(area).First(): the face of largest area, the first of them in
      detector order; null for no faces. */
  function LargestFace(faces: seq<Rect>): (r: Option<Rect>)
    ensures r.None? <==> faces == []
  {
    if faces == [] then None
    else
      SortByAreaDescendingCorrect(faces);
      Some(SortByAreaDescending(faces)[0])
  }

  /** The first box of area a is the head of the boxes of area a. */
  lemma {:induction false} WithAreaHead(s: seq<Rect>, a: int)
    requires WithArea(s, a) != []
    ensures exists i :: 0 <= i < |s| && s[i] == WithArea(s, a)[0] && Area(s[i]) == a
                        && forall j :: 0 <= j < i ==> Area(s[j]) != a
  {
    if Area(s[0]) == a {
      assert s[0] == WithArea(s, a)[0];
    } else {
      WithAreaHead(s[1..], a);
      var i :| 0 <= i < |s[1..]| && s[1..][i] == WithArea(s[1..], a)[0] && Area(s[1..][i]) == a
               && forall j :: 0 <= j < i ==> Area(s[1..][j]) != a;
      assert s[i + 1] == WithArea(s, a)[0];
      forall j | 0 <= j < i + 1 ensures Area(s[j]) != a {
        if j > 0 {
          assert s[j] == s[1..][j - 1];
        }
      }
    }
  }

  /** LargestFace picks a box of the input with the largest area, and no earlier box is as
      large. */
  lemma LargestFaceSpec(faces: seq<Rect>)
    requires faces != []
    ensures var f := LargestFace(faces).value;
            && (forall j :: 0 <= j < |faces| ==> Area(faces[j]) <= Area(f))
            && exists i :: 0 <= i < |faces| && faces[i] == f && forall j :: 0 <= j < i ==> Area(faces[j]) < Area(f)
  {
    var s := SortByAreaDescending(faces);
    SortByAreaDescendingCorrect(faces);
    var f := s[0];
    assert LargestFace(faces).value == f;
    forall j | 0 <= j < |faces| ensures Area(faces[j]) <= Area(f) {
      assert faces[j] in multiset(s);
      var k :| 0 <= k < |s| && s[k] == faces[j];
      if k > 0 {
        assert Area(s[0]) >= Area(s[k]);
      }
    }
    var a := Area(f);
    assert s == [s[0]] + s[1..];
    assert WithArea(s, a) == [f] + WithArea(s[1..], a);
    assert WithArea(faces, a) != [] && WithArea(faces, a)[0] == f;
    WithAreaHead(faces, a);
  }

  /** The colour photo's file: Faces\emp_<id>_profile_color_<yyyyMMddHHmmss>.jpg. */
  function ProfilePhotoPath(folder: string, empId: int, stamp: string): string {
    folder + "\\emp_" + IntToString(empId) + "_profile_color_" + stamp + ".jpg"
  }

  /** The region CaptureFaceOnlyColoredPhoto saves: the padded crop of the largest face, or
      none when there is no face. */
  function ProfileCrop(detected: seq<Rect>, frame: Frame): (r: Option<Rect>)
    ensures r.None? <==> detected == []
    ensures r.Some? ==> r.value == PaddedCrop(LargestFace(detected).value, frame.width, frame.height)
  {
    match LargestFace(detected)
    case None => None
    case Some(face) => Some(PaddedCrop(face, frame.width, frame.height))
  }

  /** CaptureFaceOnlyColoredPhoto: the saved file's path, or null when there is no face or
      the crop or the save fails (`saved` says whether the JPEG was written). */
  function CaptureFaceOnlyColoredPhoto(detected: seq<Rect>, frame: Frame, empId: int, folder: string,
                                       stamp: string, saved: bool): (path: Option<string>)
    ensures path.Some? <==> ProfileCrop(detected, frame).Some? && saved
    ensures path.Some? ==> path.value == ProfilePhotoPath(folder, empId, stamp) && path.value != ""
  {
    if ProfileCrop(detected, frame).Some? && saved then Some(ProfilePhotoPath(folder, empId, stamp)) else None
  }

  // ---------------------------------------------------------------- enrolment

  /** BtnAdd's Enabled and Text. */
  datatype AddButton = AddButton(enabled: bool, text: string)

  const AddReady: AddButton := AddButton(true, "ADD")
  const AlreadyRegisteredButton: AddButton := AddButton(false, "Already Registered")
  const NoFaceButton: AddButton := AddButton(false, "No Face")
  const WaitingButton: AddButton := AddButton(false, "Waiting...")
  const CheckingButton: AddButton := AddButton(false, "Checking...")
  /** The progress texts of an enrolment; they change only the text, so the button stays
      enabled after a duplicate warning answered Yes and disabled otherwise. */
  const CapturingImagesText: string := "Capturing training images..."
  const CapturingPhotoText: string := "Capturing profile photo..."
  const TrainingText: string := "Training model..."


  /** How a click on Add ends. */
  datatype AddOutcome =
    | NameRequired
    | FrameRequired
    | DuplicateDeclined
    | CaptureFailed(empId: int)
    | Added(empId: int, images: seq<string>)

  /** The duplicate warning is shown: a match above 70% confidence whose employee exists. */
  predicate DuplicateWarned(check: Option<FaceRecognition.Recognition>, es: seq<Employee>) {
    check.Some? && check.value.confidence > 70.0 && GetEmployeeById(es, check.value.empId).Some?
  }

  /** The face image rows AddFaceImage inserts for `paths`, the identities counting up from
      `next`. */
  function FaceImagesFrom(next: int, empId: int, paths: seq<string>): (r: seq<FaceImage>)
    ensures |r| == |paths|
  {
    if paths == [] then []
    else
      var n := |paths| - 1;
      FaceImagesFrom(next, empId, paths[..n]) + [FaceImage(next + n, empId, paths[n])]
  }

  /** The i-th inserted row holds the i-th path under identity next + i. */
  lemma {:induction false} FaceImagesFromAt(next: int, empId: int, paths: seq<string>, i: int)
    requires 0 <= i < |paths|
    ensures FaceImagesFrom(next, empId, paths)[i] == FaceImage(next + i, empId, paths[i])
  {
    var n := |paths| - 1;
    if i < n {
      FaceImagesFromAt(next, empId, paths[..n], i);
    }
  }

  /** Deleting a just-added employee restores the employee table. */
  lemma DeleteRestoresEmployees(es: seq<Employee>, e: Employee)
    requires forall x :: x in es ==> x.empId != e.empId
    ensures DeleteEmployeeRow(es + [e], e.empId) == es
  {
    FilterSnoc(es, e, (x: Employee) => x.empId != e.empId);
    FilterAllPass(es, (x: Employee) => x.empId != e.empId);
  }

  /** Deleting the face images of an employee that has none changes nothing. */
  lemma DeleteFaceImagesOfAbsent(fs: seq<FaceImage>, empId: int)
    requires forall f :: f in fs ==> f.empId != empId
    ensures DeleteFaceImagesOf(fs, empId) == fs
  {
    FilterAllPass(fs, (f: FaceImage) => f.empId != empId);
  }

  /** Deleting the attendance of an employee that has none changes nothing. */
  lemma DeleteAttendanceOfAbsent(rows: seq<AttendanceRow>, empId: int)
    requires forall a :: a in rows ==> a.empId != empId
    ensures DeleteAttendanceOf(rows, empId) == rows
  {
    FilterAllPass(rows, (a: AttendanceRow) => a.empId != empId);
  }

  /** Setting a profile photo keeps every employee's id, code and name. */
  lemma {:induction false} PhotoKeepsEmployees(es: seq<Employee>, empId: int, path: string, k: int)
    ensures GetEmployeeById(SetProfilePhoto(es, empId, path), k) == GetEmployeeById(es, k)
  {
    if es != [] {
      var r := SetProfilePhoto(es, empId, path);
      PhotoKeepsEmployees(es[1..], empId, path, k);
      assert r[1..] == SetProfilePhoto(es[1..], empId, path);
      assert InfoOf(r[0]) == InfoOf(es[0]);
    }
  }

  /** Every stored image of an existing employee is a row of the training query. */
  lemma StoredImagesAreTrained(es: seq<Employee>, fs: seq<FaceImage>, next: int, empId: int, paths: seq<string>)
    requires GetEmployeeById(es, empId).Some?
    ensures forall p :: p in paths ==> FaceRow(empId, p) in EmployeesWithFaces(es, fs + FaceImagesFrom(next, empId, paths))
  {
    var g := fs + FaceImagesFrom(next, empId, paths);
    EmployeesWithFacesMembers(es, g);
    forall p | p in paths ensures FaceRow(empId, p) in EmployeesWithFaces(es, g) {
      var i :| 0 <= i < |paths| && paths[i] == p;
      FaceImagesFromAt(next, empId, paths, i);
      assert g[|fs| + i] == FaceImage(next + i, empId, p);
      assert RowOf(g[|fs| + i]) == FaceRow(empId, p);
    }
  }

  class ProfileScreen {
    var cameraRunning: bool
    /** The device index of the open capture while the camera runs. */
    var device: Option<int>
    /** _lastFrame: the last frame retrieved, kept after the camera stops. */
    var lastFrame: Option<Frame>
    var recognizedEmpId: Option<int>
    var recognizedEmpName: Option<string>
    var isRecognitionStable: bool
    var addButton: AddButton
    /** TxtEnterName.Text, which the user edits freely. */
    var nameText: string
    /** PnlCameraEmpAdd.Visible. */
    var panelVisible: bool
    /** _allEmployees: the rows of the last load, or null before the first. */
    var allEmployees: Option<seq<DisplayRow>>
    var shown: ProfileView
    const service: FaceRecognition.FaceRecognitionService
    const db: Database

    /** The screen invariant: a device exactly while the camera runs; stability needs a
        recognised employee, who has a name. */
    predicate Flags()
      reads this
    {
      && (cameraRunning <==> device.Some?)
      && (device.Some? ==> 0 <= device.value < DeviceCount)
      && (isRecognitionStable ==> recognizedEmpId.Some?)
      && (recognizedEmpId.Some? <==> recognizedEmpName.Some?)
    }

    predicate Valid()
      reads this, service, db
    {
      Flags() && service.Valid() && db.Valid()
    }

    /** The constructor: the service, a parameter here (the singleton instance in the source,
        not the scanner's own one), is trained on the employees with faces; the
        enrolment panel is hidden.  The Add button starts as the designer leaves it, here
        enabled with "ADD". */
    constructor (db: Database, service: FaceRecognition.FaceRecognitionService, usable: set<string>, trainSucceeds: bool)
      requires db.Valid() && service.Valid()
      modifies service`labelToEmpId, service`isModelTrained, service`retrainedEvents
      ensures Valid() && this.db == db && this.service == service
      ensures !cameraRunning && lastFrame.None? && !panelVisible && allEmployees.None?
      ensures service.labelToEmpId
                == FaceRecognition.RetrainedLabelMap(old(service.labelToEmpId), EmployeesWithFaces(db.employees, db.faceImages), usable)
      ensures service.isModelTrained == FaceRecognition.TrainsModel(EmployeesWithFaces(db.employees, db.faceImages), usable, trainSucceeds)
    {
      this.db := db;
      this.service := service;
      cameraRunning := false;
      device := None;
      lastFrame := None;
      recognizedEmpId := None;
      recognizedEmpName := None;
      isRecognitionStable := false;
      addButton := AddReady;
      nameText := "";
      panelVisible := false;
      allEmployees := None;
      shown := NoEmployeesYet;
      new;
      var _ := service.TrainModel(EmployeesWithFaces(db.employees, db.faceImages), usable, trainSucceeds);
    }

    /** LoadAllProfiles (also RefreshProfiles): caches GetAllEmployeesForDisplay and shows all
        of it, whatever the search box holds. */
    method LoadAllProfiles()
      modifies this`allEmployees, this`shown
      ensures allEmployees == Some(EmployeesForDisplay(db.employees, db.faceImages))
      ensures shown == DisplayProfiles(allEmployees.value)
      ensures |allEmployees.value| == |db.employees|
    {
      allEmployees := Some(EmployeesForDisplay(db.employees, db.faceImages));
      shown := DisplayProfiles(allEmployees.value);
    }

    /** TxtSearchBar_TextChanged. */
    method SearchTextChanged(searchText: string)
      modifies this`shown
      ensures shown == FilterProfiles(allEmployees, searchText, old(shown))
    {
      shown := FilterProfiles(allEmployees, searchText, shown);
    }

    /** The Save button of the edit dialog: a blank name is refused and nothing is stored;
        any other name is written to the employee's row. */
    method SaveEdit(empId: int, name: string) returns (saved: bool)
      requires db.Valid()
      modifies db`employees
      ensures db.Valid()
      ensures saved <==> !IsBlank(name)
      ensures !saved ==> db.employees == old(db.employees)
      ensures saved ==> db.employees == RenameEmployee(old(db.employees), empId, name)
      ensures saved && GetEmployeeById(old(db.employees), empId).Some? ==>
                GetEmployeeById(db.employees, empId) == Some(GetEmployeeById(old(db.employees), empId).value.(fullName := name))
    {
      if IsBlank(name) {
        return false;
      }
      RenameKeepsOthers(db.employees, empId, name);
      db.UpdateEmployee(empId, name);
      saved := true;
    }

    /** StartCamera: no-op while running; otherwise opens the lowest device index in 0..4
        that opens, and leaves the camera off when none does. */
    method StartCamera(openable: set<int>)
      requires Flags()
      modifies this`device, this`cameraRunning
      ensures Flags()
      ensures old(cameraRunning) ==> cameraRunning && device == old(device)
      ensures !old(cameraRunning) ==>
                && (cameraRunning <==> exists j :: 0 <= j < DeviceCount && j in openable)
                && (device.Some? ==> device.value in openable && forall j :: 0 <= j < device.value ==> j !in openable)
    {
      if cameraRunning {
        return;
      }
      var found := OpenFirstCamera(openable);
      if found.None? {
        return;
      }
      device := found;
      cameraRunning := true;
    }

    /** StopCamera: when running, releases the capture, forgets the recognised employee and
        resets the Add button to enabled "ADD". */
    method StopCamera()
      requires Flags()
      modifies this`cameraRunning, this`device, this`recognizedEmpId, this`recognizedEmpName
      modifies this`isRecognitionStable, this`addButton
      ensures Flags()
      ensures !cameraRunning && device.None?
      ensures old(cameraRunning) ==>
                recognizedEmpId.None? && recognizedEmpName.None? && !isRecognitionStable && addButton == AddReady
      ensures !old(cameraRunning) ==>
                recognizedEmpId == old(recognizedEmpId) && isRecognitionStable == old(isRecognitionStable)
                && addButton == old(addButton)
    {
      if !cameraRunning {
        return;
      }
      device := None;
      cameraRunning := false;
      recognizedEmpId := None;
      recognizedEmpName := None;
      isRecognitionStable := false;
      addButton := AddReady;
    }

    /** BtnStartScan_Click: a stopped camera gets a fresh panel (Add disabled, "Waiting...")
        and is started; a running one is stopped. */
    method StartScanClick(openable: set<int>)
      requires Flags()
      modifies this`cameraRunning, this`device, this`recognizedEmpId, this`recognizedEmpName
      modifies this`isRecognitionStable, this`addButton
      ensures Flags()
      ensures old(cameraRunning) ==> !cameraRunning && addButton == AddReady && recognizedEmpId.None?
      ensures !old(cameraRunning) ==>
                addButton == WaitingButton && (cameraRunning <==> exists j :: 0 <= j < DeviceCount && j in openable)
    {
      if !cameraRunning {
        addButton := WaitingButton;
        StartCamera(openable);
      } else {
        StopCamera();
      }
    }

    /** ProcessFaceRecognition on one frame, with the Add button as the recognition outcome
        leaves it: a stable match of an existing employee disables it as "Already
        Registered"; a match still being verified leaves it; no match with a face present
        enables it as "ADD"; no face disables it as "No Face".  A match whose employee no
        longer exists changes nothing here. */
    method ProcessFaceRecognition(detected: seq<Rect>, normalizes: bool, prediction: FaceRecognition.Prediction)
      returns (result: Option<FaceRecognition.Recognition>)
      requires Valid()
      modifies this`recognizedEmpId, this`recognizedEmpName, this`isRecognitionStable, this`addButton
      modifies service`recognitionHistory, service`detectedFaceDistance
      ensures Valid()
      ensures result.Some? && GetEmployeeById(db.employees, result.value.empId).Some? ==>
                && recognizedEmpId == Some(result.value.empId)
                && recognizedEmpName == Some(GetEmployeeById(db.employees, result.value.empId).value.fullName)
                && isRecognitionStable == result.value.isStable
                && addButton == (if result.value.isStable then AlreadyRegisteredButton else old(addButton))
      ensures result.Some? && GetEmployeeById(db.employees, result.value.empId).None? ==>
                recognizedEmpId == old(recognizedEmpId) && isRecognitionStable == old(isRecognitionStable)
                && addButton == old(addButton)
      ensures result.None? ==>
                recognizedEmpId.None? && !isRecognitionStable
                && addButton == (if detected != [] then AddReady else NoFaceButton)
    {
      result := service.RecognizeFace(detected, normalizes, prediction);
      match result {
        case Some(r) =>
          var emp := GetEmployeeById(db.employees, r.empId);
          if emp.Some? {
            recognizedEmpId := Some(emp.value.empId);
            recognizedEmpName := Some(emp.value.fullName);
            isRecognitionStable := r.isStable;
            if r.isStable {
              addButton := AlreadyRegisteredButton;
            }
          }
        case None =>
          recognizedEmpId := None;
          recognizedEmpName := None;
          isRecognitionStable := false;
          addButton := if detected != [] then AddReady else NoFaceButton;
      }
    }

    /** ProcessFrame: while the camera runs, the retrieved frame becomes the last frame and,
        unless it is empty, goes through ProcessFaceRecognition. */
    method ProcessFrame(frame: Frame, detected: seq<Rect>, normalizes: bool, prediction: FaceRecognition.Prediction)
      returns (result: Option<FaceRecognition.Recognition>)
      requires Valid()
      modifies this`lastFrame, this`recognizedEmpId, this`recognizedEmpName, this`isRecognitionStable, this`addButton
      modifies service`recognitionHistory, service`detectedFaceDistance
      ensures Valid()
      ensures !old(cameraRunning) ==> unchanged(this) && unchanged(service) && result.None?
      ensures old(cameraRunning) ==> lastFrame == Some(frame)
      ensures old(cameraRunning) && frame.isEmpty ==>
                result.None? && recognizedEmpId == old(recognizedEmpId) && addButton == old(addButton) && unchanged(service)
      ensures old(cameraRunning) && !frame.isEmpty && result.Some? && GetEmployeeById(db.employees, result.value.empId).Some? ==>
                recognizedEmpId == Some(result.value.empId) && isRecognitionStable == result.value.isStable
      ensures old(cameraRunning) && !frame.isEmpty && result.None? ==>
                recognizedEmpId.None? && addButton == (if detected != [] then AddReady else NoFaceButton)
    {
      result := None;
      if !cameraRunning {
        return;
      }
      lastFrame := Some(frame);
      if frame.isEmpty {
        return;
      }
      result := ProcessFaceRecognition(detected, normalizes, prediction);
    }

    /** BtnAdd_Click.  A blank name, or no frame or an empty one, stops before anything
        changes.  Then the last frame is checked against the registered faces: a match above
        70% of an existing employee shows the duplicate warning, and answering No stops
        before the employee is added.  Otherwise the employee is added and the training
        images are captured; none captured deletes the employee again.  Each captured image
        is stored, then the colour profile photo if one was saved, then the model is
        retrained on every stored image, the camera is stopped, the panel closes and the
        list is reloaded. */
    method AddClick(detected: seq<Rect>, normalizes: bool, prediction: FaceRecognition.Prediction, proceed: bool,
                    empCode: string, captureNormalizes: bool, stamp: string, savesBeforeError: nat,
                    photoStamp: string, photoSaved: bool, usable: set<string>, trainSucceeds: bool)
      returns (outcome: AddOutcome, check: Option<FaceRecognition.Recognition>)
      requires Valid()
      modifies this`cameraRunning, this`device, this`recognizedEmpId, this`recognizedEmpName
      modifies this`isRecognitionStable, this`addButton, this`nameText, this`panelVisible
      modifies this`allEmployees, this`shown
      modifies db`employees, db`nextEmpId, db`faceImages, db`nextFaceImageId, db`attendance
      modifies service`recognitionHistory, service`detectedFaceDistance
      modifies service`labelToEmpId, service`isModelTrained, service`retrainedEvents
      ensures Valid()
      ensures outcome == NameRequired <==> IsBlank(old(nameText))
      ensures outcome == FrameRequired <==> !IsBlank(old(nameText)) && (old(lastFrame).None? || old(lastFrame).value.isEmpty)
      ensures outcome == NameRequired || outcome == FrameRequired ==> unchanged(this) && unchanged(db) && unchanged(service)
      ensures outcome == DuplicateDeclined <==>
                !IsBlank(old(nameText)) && old(lastFrame).Some? && !old(lastFrame).value.isEmpty
                && DuplicateWarned(check, old(db.employees)) && !proceed
      ensures outcome == DuplicateDeclined ==>
                addButton == AddReady && unchanged(db) && service.labelToEmpId == old(service.labelToEmpId)
                && service.isModelTrained == old(service.isModelTrained)
      ensures outcome == DuplicateDeclined || outcome.CaptureFailed? ==>
                cameraRunning == old(cameraRunning) && device == old(device) && nameText == old(nameText)
                && panelVisible == old(panelVisible) && allEmployees == old(allEmployees) && shown == old(shown)
                && recognizedEmpId == old(recognizedEmpId) && recognizedEmpName == old(recognizedEmpName)
                && isRecognitionStable == old(isRecognitionStable)
      ensures outcome.CaptureFailed? || outcome.Added? ==>
                && outcome.empId == old(db.nextEmpId) && GetEmployeeById(old(db.employees), outcome.empId).None?
                && addButton == AddReady
                && (outcome.CaptureFailed? <==>
                      FirstCloseEnough(SortByAreaDescending(detected), old(lastFrame).value.width, old(lastFrame).value.height).None?
                      || !captureNormalizes || savesBeforeError == 0)
      ensures outcome.CaptureFailed? ==>
                && db.employees == old(db.employees)
                && db.faceImages == DeleteFaceImagesOf(old(db.faceImages), outcome.empId)
                && db.attendance == DeleteAttendanceOf(old(db.attendance), outcome.empId)
                && service.labelToEmpId == old(service.labelToEmpId) && service.isModelTrained == old(service.isModelTrained)
      ensures outcome.Added? ==>
                outcome.images == FaceRecognition.VariantPaths(service.facesFolder, outcome.empId, stamp)[..Min(4, savesBeforeError)]
                && outcome.images != []
      ensures outcome.Added? ==>
                GetEmployeeById(db.employees, outcome.empId) == Some(EmployeeInfo(outcome.empId, empCode, old(nameText)))
      ensures outcome.Added? ==>
                db.faceImages == old(db.faceImages) + FaceImagesFrom(old(db.nextFaceImageId), outcome.empId, outcome.images)
      ensures outcome.Added? ==> db.attendance == old(db.attendance)
      ensures outcome.Added? ==>
                GetProfilePhoto(db.employees, outcome.empId)
                  == CaptureFaceOnlyColoredPhoto(detected, old(lastFrame).value, outcome.empId, service.facesFolder, photoStamp, photoSaved)
      ensures outcome.Added? ==>
                forall p :: p in outcome.images ==> FaceRow(outcome.empId, p) in EmployeesWithFaces(db.employees, db.faceImages)
      ensures outcome.Added? ==>
                service.labelToEmpId
                  == FaceRecognition.RetrainedLabelMap(old(service.labelToEmpId), EmployeesWithFaces(db.employees, db.faceImages), usable)
      ensures outcome.Added? ==>
                service.isModelTrained == FaceRecognition.TrainsModel(EmployeesWithFaces(db.employees, db.faceImages), usable, trainSucceeds)
      ensures outcome.Added? ==> !cameraRunning && nameText == "" && !panelVisible
      ensures outcome.Added? ==>
                allEmployees == Some(EmployeesForDisplay(db.employees, db.faceImages)) && shown == DisplayProfiles(allEmployees.value)
    {
      check := None;
      if IsBlank(nameText) {
        return NameRequired, check;
      }
      if lastFrame.None? || lastFrame.value.isEmpty {
        return FrameRequired, check;
      }
      var declined;
      check, declined := CheckDuplicate(detected, normalizes, prediction, proceed);
      if declined {
        return DuplicateDeclined, check;
      }
      outcome := Enroll(lastFrame.value, detected, empCode, captureNormalizes, stamp, savesBeforeError,
                        photoStamp, photoSaved, usable, trainSucceeds);
    }

    /** The enrolment of BtnAdd_Click once the duplicate check let it through: the employee
        is added and the images captured, and either the employee is deleted again or the
        images, the photo and the retrained model are stored and the panel reset. */
    method Enroll(frame: Frame, detected: seq<Rect>, empCode: string, captureNormalizes: bool, stamp: string,
                  savesBeforeError: nat, photoStamp: string, photoSaved: bool, usable: set<string>, trainSucceeds: bool)
      returns (outcome: AddOutcome)
      requires Valid()
      modifies this`cameraRunning, this`device, this`recognizedEmpId, this`recognizedEmpName
      modifies this`isRecognitionStable, this`addButton, this`nameText, this`panelVisible
      modifies this`allEmployees, this`shown
      modifies db`employees, db`nextEmpId, db`faceImages, db`nextFaceImageId, db`attendance
      modifies service`labelToEmpId, service`isModelTrained, service`retrainedEvents
      ensures Valid()
      ensures outcome.CaptureFailed? || outcome.Added?
      ensures outcome.empId == old(db.nextEmpId) && GetEmployeeById(old(db.employees), outcome.empId).None?
      ensures addButton == AddReady
      ensures outcome.CaptureFailed? <==>
                FirstCloseEnough(SortByAreaDescending(detected), frame.width, frame.height).None?
                || !captureNormalizes || savesBeforeError == 0
      ensures outcome.CaptureFailed? ==>
                && db.employees == old(db.employees)
                && db.faceImages == DeleteFaceImagesOf(old(db.faceImages), outcome.empId)
                && db.attendance == DeleteAttendanceOf(old(db.attendance), outcome.empId)
                && service.labelToEmpId == old(service.labelToEmpId) && service.isModelTrained == old(service.isModelTrained)
      ensures outcome.CaptureFailed? ==>
                cameraRunning == old(cameraRunning) && device == old(device) && nameText == old(nameText)
                && panelVisible == old(panelVisible) && allEmployees == old(allEmployees) && shown == old(shown)
                && recognizedEmpId == old(recognizedEmpId) && recognizedEmpName == old(recognizedEmpName)
                && isRecognitionStable == old(isRecognitionStable)
      ensures outcome.Added? ==>
                outcome.images == FaceRecognition.VariantPaths(service.facesFolder, outcome.empId, stamp)[..Min(4, savesBeforeError)]
                && outcome.images != []
      ensures outcome.Added? ==>
                GetEmployeeById(db.employees, outcome.empId) == Some(EmployeeInfo(outcome.empId, empCode, old(nameText)))
      ensures outcome.Added? ==>
                db.faceImages == old(db.faceImages) + FaceImagesFrom(old(db.nextFaceImageId), outcome.empId, outcome.images)
      ensures outcome.Added? ==> db.attendance == old(db.attendance)
      ensures outcome.Added? ==>
                GetProfilePhoto(db.employees, outcome.empId)
                  == CaptureFaceOnlyColoredPhoto(detected, frame, outcome.empId, service.facesFolder, photoStamp, photoSaved)
      ensures outcome.Added? ==>
                forall p :: p in outcome.images ==> FaceRow(outcome.empId, p) in EmployeesWithFaces(db.employees, db.faceImages)
      ensures outcome.Added? ==>
                service.labelToEmpId
                  == FaceRecognition.RetrainedLabelMap(old(service.labelToEmpId), EmployeesWithFaces(db.employees, db.faceImages), usable)
      ensures outcome.Added? ==>
                service.isModelTrained == FaceRecognition.TrainsModel(EmployeesWithFaces(db.employees, db.faceImages), usable, trainSucceeds)
      ensures outcome.Added? ==> !cameraRunning && nameText == "" && !panelVisible
      ensures outcome.Added? ==>
                allEmployees == Some(EmployeesForDisplay(db.employees, db.faceImages)) && shown == DisplayProfiles(allEmployees.value)
    {
      ghost var attendance, name := db.attendance, nameText;
      var empId, paths := AddAndCapture(frame, detected, empCode, captureNormalizes, stamp, savesBeforeError);
      if paths == [] {
        return CaptureFailed(empId);
      }
      assert db.attendance == attendance && nameText == name;
      FinishEnrollment(frame, detected, empId, paths, photoStamp, photoSaved, usable, trainSucceeds);
      outcome := Added(empId, paths);
    }

    /** The duplicate check of BtnAdd_Click: the button shows "Checking..." while the last
        frame is recognised; the warning re-enables it, and the answer No declines. */
    method CheckDuplicate(detected: seq<Rect>, normalizes: bool, prediction: FaceRecognition.Prediction, proceed: bool)
      returns (check: Option<FaceRecognition.Recognition>, declined: bool)
      requires service.Valid()
      modifies this`addButton, service`recognitionHistory, service`detectedFaceDistance
      ensures service.Valid()
      ensures declined <==> DuplicateWarned(check, db.employees) && !proceed
      ensures addButton == if DuplicateWarned(check, db.employees) then AddReady else CheckingButton
    {
      addButton := CheckingButton;
      check := service.RecognizeFace(detected, normalizes, prediction);
      declined := false;
      if check.Some? && check.value.confidence > 70.0 {
        var existing := GetEmployeeById(db.employees, check.value.empId);
        if existing.Some? {
          addButton := AddReady;
          declined := !proceed;
        }
      }
    }

    /** The employee row and the training images of BtnAdd_Click: with no image captured the
        employee is deleted again and the button re-enabled. */
    method AddAndCapture(frame: Frame, detected: seq<Rect>, empCode: string, captureNormalizes: bool,
                         stamp: string, savesBeforeError: nat)
      returns (empId: int, paths: seq<string>)
      requires db.Valid()
      modifies this`addButton, db`employees, db`nextEmpId, db`faceImages, db`attendance
      ensures db.Valid()
      ensures empId == old(db.nextEmpId) && db.nextEmpId == empId + 1
      ensures GetEmployeeById(old(db.employees), empId).None?
      ensures paths == [] ==> db.employees == old(db.employees) && addButton == AddReady
      ensures paths == [] ==> db.faceImages == DeleteFaceImagesOf(old(db.faceImages), empId)
      ensures paths == [] ==> db.attendance == DeleteAttendanceOf(old(db.attendance), empId)
      ensures paths != [] ==> db.faceImages == old(db.faceImages) && db.attendance == old(db.attendance)
      ensures paths != [] ==> GetEmployeeById(db.employees, empId) == Some(EmployeeInfo(empId, empCode, nameText))
      ensures paths != [] ==> GetProfilePhoto(db.employees, empId).None?
      ensures FirstCloseEnough(SortByAreaDescending(detected), frame.width, frame.height).None? || !captureNormalizes ==>
                paths == []
      ensures FirstCloseEnough(SortByAreaDescending(detected), frame.width, frame.height).Some? && captureNormalizes ==>
                paths == FaceRecognition.VariantPaths(service.facesFolder, empId, stamp)[..Min(4, savesBeforeError)]
    {
      ghost var employees := db.employees;
      empId := db.AddEmployee(nameText, empCode);
      addButton := addButton.(text := CapturingImagesText);
      paths := service.CaptureMultipleFaces(detected, frame.width, frame.height, empId, 4, captureNormalizes, stamp, savesBeforeError);
      if paths == [] {
        DeleteRestoresEmployees(employees, Employee(empId, empCode, nameText, None));
        db.DeleteEmployee(empId);
        addButton := AddReady;
      }
    }

    /** The foreach over the captured paths: each is stored as a face image of the employee,
        in order. */
    method StoreFaceImages(empId: int, paths: seq<string>)
      requires db.Valid()
      modifies db`faceImages, db`nextFaceImageId
      ensures db.Valid()
      ensures db.faceImages == old(db.faceImages) + FaceImagesFrom(old(db.nextFaceImageId), empId, paths)
      ensures db.nextFaceImageId == old(db.nextFaceImageId) + |paths|
    {
      ghost var before, next := db.faceImages, db.nextFaceImageId;
      var i := 0;
      while i < |paths|
        invariant 0 <= i <= |paths|
        invariant db.Valid()
        invariant db.faceImages == before + FaceImagesFrom(next, empId, paths[..i])
        invariant db.nextFaceImageId == next + i
      {
        assert paths[..i + 1][..i] == paths[..i];
        assert FaceImagesFrom(next, empId, paths[..i + 1])
            == FaceImagesFrom(next, empId, paths[..i]) + [FaceImage(next + i, empId, paths[i])];
        db.AddFaceImage(empId, paths[i]);
        i := i + 1;
      }
      assert paths[..i] == paths;
    }

    /** The end of BtnAdd_Click once images were captured: the images and the profile photo
        are stored, the model is retrained on every stored image, then the panel is reset and
        the list reloaded. */
    method FinishEnrollment(frame: Frame, detected: seq<Rect>, empId: int, paths: seq<string>,
                            photoStamp: string, photoSaved: bool, usable: set<string>, trainSucceeds: bool)
      requires Valid() && paths != []
      requires GetEmployeeById(db.employees, empId).Some? && GetProfilePhoto(db.employees, empId).None?
      modifies this`cameraRunning, this`device, this`recognizedEmpId, this`recognizedEmpName
      modifies this`isRecognitionStable, this`addButton, this`nameText, this`panelVisible
      modifies this`allEmployees, this`shown
      modifies db`employees, db`faceImages, db`nextFaceImageId
      modifies service`labelToEmpId, service`isModelTrained, service`retrainedEvents
      ensures Valid()
      ensures db.faceImages == old(db.faceImages) + FaceImagesFrom(old(db.nextFaceImageId), empId, paths)
      ensures GetEmployeeById(db.employees, empId) == GetEmployeeById(old(db.employees), empId)
      ensures GetProfilePhoto(db.employees, empId)
                == CaptureFaceOnlyColoredPhoto(detected, frame, empId, service.facesFolder, photoStamp, photoSaved)
      ensures forall p :: p in paths ==> FaceRow(empId, p) in EmployeesWithFaces(db.employees, db.faceImages)
      ensures service.labelToEmpId == FaceRecognition.RetrainedLabelMap(old(service.labelToEmpId),
                                        EmployeesWithFaces(db.employees, db.faceImages), usable)
      ensures service.isModelTrained == FaceRecognition.TrainsModel(EmployeesWithFaces(db.employees, db.faceImages), usable, trainSucceeds)
      ensures !cameraRunning && addButton == AddReady && nameText == "" && !panelVisible
      ensures allEmployees == Some(EmployeesForDisplay(db.employees, db.faceImages))
      ensures shown == DisplayProfiles(allEmployees.value)
    {
      StoreEnrollment(frame, detected, empId, paths, photoStamp, photoSaved);
      addButton := addButton.(text := TrainingText);
      Retrain(usable, trainSucceeds);
      CloseAfterEnrollment();
    }

    /** The stores of BtnAdd_Click: every captured path, then the profile photo if one was
        saved. */
    method StoreEnrollment(frame: Frame, detected: seq<Rect>, empId: int, paths: seq<string>,
                           photoStamp: string, photoSaved: bool)
      requires db.Valid()
      requires GetEmployeeById(db.employees, empId).Some? && GetProfilePhoto(db.employees, empId).None?
      modifies this`addButton, db`employees, db`faceImages, db`nextFaceImageId
      ensures db.Valid()
      ensures db.faceImages == old(db.faceImages) + FaceImagesFrom(old(db.nextFaceImageId), empId, paths)
      ensures GetEmployeeById(db.employees, empId) == GetEmployeeById(old(db.employees), empId)
      ensures GetProfilePhoto(db.employees, empId)
                == CaptureFaceOnlyColoredPhoto(detected, frame, empId, service.facesFolder, photoStamp, photoSaved)
      ensures forall p :: p in paths ==> FaceRow(empId, p) in EmployeesWithFaces(db.employees, db.faceImages)
    {
      StoreFaceImages(empId, paths);
      addButton := addButton.(text := CapturingPhotoText);
      var photo := CaptureFaceOnlyColoredPhoto(detected, frame, empId, service.facesFolder, photoStamp, photoSaved);
      if photo.Some? && photo.value != "" {
        PhotoKeepsEmployees(db.employees, empId, photo.value, empId);
        db.AddProfilePhoto(empId, photo.value);
      }
      StoredImagesAreTrained(db.employees, old(db.faceImages), old(db.nextFaceImageId), empId, paths);
    }

    /** The retraining step of BtnAdd_Click, on every stored image. */
    method Retrain(usable: set<string>, trainSucceeds: bool)
      requires service.Valid()
      modifies service`labelToEmpId, service`isModelTrained, service`retrainedEvents
      ensures service.Valid()
      ensures service.labelToEmpId == FaceRecognition.RetrainedLabelMap(old(service.labelToEmpId),
                                        EmployeesWithFaces(db.employees, db.faceImages), usable)
      ensures service.isModelTrained == FaceRecognition.TrainsModel(EmployeesWithFaces(db.employees, db.faceImages), usable, trainSucceeds)
    {
      var _ := service.TrainModel(EmployeesWithFaces(db.employees, db.faceImages), usable, trainSucceeds);
    }

    /** The last steps of BtnAdd_Click: the name cleared, the camera stopped, the button
        re-enabled, the panel hidden, the list reloaded. */
    method CloseAfterEnrollment()
      requires Flags()
      modifies this`cameraRunning, this`device, this`recognizedEmpId, this`recognizedEmpName
      modifies this`isRecognitionStable, this`addButton, this`nameText, this`panelVisible
      modifies this`allEmployees, this`shown
      ensures Flags()
      ensures !cameraRunning && addButton == AddReady && nameText == "" && !panelVisible
      ensures allEmployees == Some(EmployeesForDisplay(db.employees, db.faceImages))
      ensures shown == DisplayProfiles(allEmployees.value)
    {
      nameText := "";
      StopCamera();
      addButton := AddReady;
      panelVisible := false;
      LoadAllProfiles();
    }

    /** BtnCancel_Click: stops the camera, clears the name and hides the panel. */
    method CancelClick()
      requires Flags()
      modifies this`cameraRunning, this`device, this`recognizedEmpId, this`recognizedEmpName
      modifies this`isRecognitionStable, this`addButton, this`nameText, this`panelVisible
      ensures Flags()
      ensures !cameraRunning && nameText == "" && !panelVisible
    {
      StopCamera();
      nameText := "";
      panelVisible := false;
    }
  }

  /** Renaming an employee keeps the other fields of its info and every other employee. */
  lemma {:induction false} RenameKeepsOthers(es: seq<Employee>, empId: int, name: string)
    ensures GetEmployeeById(es, empId).Some? ==>
              GetEmployeeById(RenameEmployee(es, empId, name), empId) == Some(GetEmployeeById(es, empId).value.(fullName := name))
  {
    if es != [] {
      var r := RenameEmployee(es, empId, name);
      RenameKeepsOthers(es[1..], empId, name);
      assert r[1..] == RenameEmployee(es[1..], empId, name);
    }
  }
}
