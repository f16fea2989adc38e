# AttendanceFaceRocog — a Dafny model of the face-recognition time clock

AttendanceFaceRocog is a WinForms time clock for small offices. A webcam finds a face.
An LBPH recogniser, trained on each employee's stored face images, names the person.
A time-of-day policy then decides which of the four daily actions to record:
Time In, Time Out, Start Break or Stop Break. The record goes into the `Attendance`
table. A second screen enrols new employees: it checks for a duplicate face, saves four
training variants and a colour profile photo, and retrains the recogniser. A third
screen shows today's statistics and a searchable activity timeline.

This project models the five core files:

- `FaceRecognitionService.cs`:
  - the camera geometry: the face distance in inches, the optimal-distance gate, the close-enough gate and the closest face;
  - training with its label map;
  - recognition with its one-entry history, which decides whether a match is stable;
  - the capture of four training variants.
- `DatabaseHelper.cs`: the SQL tables, modelled as sequences of rows inside a `Database` class.
  Every query is a function over those sequences.
  `LogAttendance` is modelled exactly as written: it inserts empty strings and updates only NULL columns.
- `UserControl1.cs`: the scanner screen modelled as a state machine.
  - The `Scanner` class keeps the screen's flags.
  - Each camera event, timer tick, delayed restart, visibility change and button click is a method.
  - The time periods, the action dialogs and `HandleAttendanceByTime` are pure functions.
- `EmployeeProfileControl.cs`: the profile list with its search, the edit dialog, the
  enrolment sequence of the Add button and the profile-photo crop, all in the `ProfileScreen` class.
- `AttendActUserControl.cs`: the activity screen in the `ActivityScreen` class.
  It covers the statistics, the timeline items with their detail labels and the smart search.

Modules, one per file:

- `Common`: Option and a filter.
- `Text`: trimming, lower case, substring search, space removal and number formatting.
- `CameraDevices`: the device-opening loop.
- `FaceGeometry`
- `FaceRecognition`
- `AttendanceStore`
- `AttendancePolicy`
- `ScannerSession`
- `EmployeeProfiles`
- `ActivityTimeline`

Some outside values become plain inputs to the model:

- what the camera delivers;
- what the Haar cascade detects;
- whether a crop normalises;
- what the LBPH recogniser predicts;
- which images load;
- how many saves succeed before an exception;
- which camera index opens;
- what the user clicks in a dialog;
- the current time, as ticks since midnight plus a day number.

## Model

| member | source | states |
|---|---|---|
| FaceGeometry.CalculateFaceDistanceInches | AttendanceFaceRocog/FaceRecognitionService.cs:146-153 | a zero or negative width gives double.MaxValue; otherwise the distance is positive and distance × width equals the average face width (5.5 in) × focal length (500) |
| FaceGeometry.DistanceInvertible | AttendanceFaceRocog/FaceRecognitionService.cs:146-153 | the distance function is the inverse of width: any d with d × width = 5.5 × 500 is the computed distance |
| FaceGeometry.AtOptimalDistanceIff | AttendanceFaceRocog/FaceRecognitionService.cs:158-172 | a face is at optimal distance (5 to 35 inches) exactly when its width is between 79 and 550 pixels |
| FaceGeometry.CloseEnoughIff | AttendanceFaceRocog/FaceRecognitionService.cs:174-186 | for a frame of positive area, a face is close enough exactly when it is at least 60 pixels wide and high and covers at least 0.8% of the frame (125 × face area ≥ frame area) |
| FaceGeometry.SortByAreaDescendingCorrect | AttendanceFaceRocog/FaceRecognitionService.cs:188-203 | the area ordering is non-increasing, a permutation of the input, and stable (equal-area boxes keep detector order) |
| FaceGeometry.DetectFaces | AttendanceFaceRocog/FaceRecognitionService.cs:279-347 | an empty frame, or one whose larger side is at most 40 pixels, yields no faces; otherwise the cascade result for boxes from 40 pixels up to the smaller of 800 and the frame's larger side |
| FaceGeometry.DetectCloseFacesCorrect | AttendanceFaceRocog/FaceRecognitionService.cs:349-359 | DetectCloseFaces keeps exactly the close-enough detections, with their multiplicities, largest first, equal areas in detector order |
| FaceGeometry.OptimalDistanceFacesCorrect | AttendanceFaceRocog/FaceRecognitionService.cs:361-371 | DetectFacesAtOptimalDistance keeps exactly the detections at optimal distance (widths 79 to 550), with their multiplicities, largest first, equal areas in detector order |
| FaceGeometry.FirstCloseEnoughSpec | AttendanceFaceRocog/FaceRecognitionService.cs:195-202 | the scan returns the first close-enough box of the sequence, or none when no box is close enough |
| FaceGeometry.GetClosestFace | AttendanceFaceRocog/FaceRecognitionService.cs:188-203 | none exactly when no detected face is close enough; otherwise a close-enough detection, and every face before it in largest-first order fails the gate |
| CameraDevices.OpenFirstCamera | AttendanceFaceRocog/UserControl1.cs:495-514 | the result is the lowest of device indices 0..4 that opens, or none exactly when none of them opens |
| FaceRecognition.GroupKeysSpec | AttendanceFaceRocog/FaceRecognitionService.cs:415-416 | grouping by employee yields each employee with a face row exactly once |
| FaceRecognition.GroupHasInstancesIff | AttendanceFaceRocog/FaceRecognitionService.cs:420-482 | a group contributes training images exactly when at least one of its image files loads |
| FaceRecognition.LabelledSpec | AttendanceFaceRocog/FaceRecognitionService.cs:476-480 | the labelled employees are distinct, and they are exactly the employees with a loadable image |
| FaceRecognition.InstanceLabelsRange | AttendanceFaceRocog/FaceRecognitionService.cs:420-482 | every training label is an index into the trained-employee list |
| FaceRecognition.InstanceLabelsCount | AttendanceFaceRocog/FaceRecognitionService.cs:420-482 | label i occurs twice per loadable image of the i-th trained employee (the image and its flip) |
| FaceRecognition.InstanceLabelsLength | AttendanceFaceRocog/FaceRecognitionService.cs:420-482 | the instance count is even, and zero exactly when no employee was labelled |
| FaceRecognition.TrainedLabelsInjective | AttendanceFaceRocog/FaceRecognitionService.cs:476-480 | the label map is defined on 0 .. n-1 and maps distinct labels to distinct employees |
| FaceRecognition.TrainedLabelledIff | AttendanceFaceRocog/FaceRecognitionService.cs:397-520 | an employee is trained exactly when one of their images loads |
| FaceRecognition.TrainedInstancesPerLabel | AttendanceFaceRocog/FaceRecognitionService.cs:420-482 | every instance label is in the label map, and each trained employee's label occurs twice per loadable image |
| FaceRecognition.TrainedInstancesEnough | AttendanceFaceRocog/FaceRecognitionService.cs:484-493 | fewer than two instances (the "not enough" branch) happens exactly when no image of any employee loads |
| FaceRecognition.FaceRecognitionService.TrainModel | AttendanceFaceRocog/FaceRecognitionService.cs:397-520 | no rows: the model is untrained and the old map is kept; otherwise the label map is rebuilt from the loadable groups; the model is trained exactly when there are at least two instances and training succeeds; ModelRetrained is raised once per successful training; trained exactly when some row's image is usable and training succeeds (TrainsModel) |
| FaceRecognition.PushHistorySpec | AttendanceFaceRocog/FaceRecognitionService.cs:569-586 | the history has room for one entry: after a push it holds just the pushed employee, so an accepted recognition is always stable |
| FaceRecognition.AcceptedConfidence | AttendanceFaceRocog/FaceRecognitionService.cs:569-586 | an accepted prediction (distance below 100, label known) has confidence 100 − distance, which is positive, and at most 100 for non-negative distances |
| FaceRecognition.ReportedDistanceIsLastBox | AttendanceFaceRocog/FaceRecognitionService.cs:361-371 | the distance reported with a recognition is that of the last detection examined, not the face recognised (a concrete two-box frame shows it) |
| FaceRecognition.FaceRecognitionService.RecognizeFace | AttendanceFaceRocog/FaceRecognitionService.cs:525-598 | untrained: null and nothing changes; no face at optimal distance: null and the history is cleared; a crop that does not normalise: null with the history kept; otherwise a recognition exactly when the prediction is accepted, with the employee pushed, its confidence and its stability; a rejected prediction clears the history |
| FaceRecognition.FaceRecognitionService.ClearRecognitionHistory | AttendanceFaceRocog/FaceRecognitionService.cs:600-603 | the history is empty afterwards |
| FaceRecognition.VariantPathsDistinct | AttendanceFaceRocog/FaceRecognitionService.cs:205-271 | the four variant files (normal, flipped, bright, dark) have distinct paths |
| FaceRecognition.FaceRecognitionService.CaptureMultipleFaces | AttendanceFaceRocog/FaceRecognitionService.cs:205-271 | nothing is saved without a close-enough face or a normalised crop; otherwise the variant paths saved before the first failure, at most four |
| FaceRecognition.FaceRecognitionService.CaptureFace | AttendanceFaceRocog/FaceRecognitionService.cs:273-277 | a path exactly when the first variant is saved, and it is the normal variant's path |
| AttendanceStore.TodayIndex | AttendanceFaceRocog/DatabaseHelper.cs:141-157 | the first row of the employee for today, or none exactly when there is no such row |
| AttendanceStore.AlreadyRecorded | AttendanceFaceRocog/DatabaseHelper.cs:161-171 | the refusal check picks a requested action whose column holds a non-empty value; none exactly when every requested column is NULL or empty (String.IsNullOrEmpty after NULL reads as "") |
| AttendanceStore.LogInsertsWhenNoRow | AttendanceFaceRocog/DatabaseHelper.cs:190-203 | with no row today the call succeeds and appends a row holding the four requested values, "" included |
| AttendanceStore.LogKeepsOneRowPerDay | AttendanceFaceRocog/DatabaseHelper.cs:135-209 | every call keeps at most one row per employee per day and leaves a row for the employee today |
| AttendanceStore.LogKeepsInsertionOrder | AttendanceFaceRocog/DatabaseHelper.cs:174-200 | every call keeps the rows in insertion order: the UPDATE keeps the row's id, and the INSERT (the only writer of LogTime) takes the next identity value |
| AttendanceStore.LogRefusesRecorded | AttendanceFaceRocog/DatabaseHelper.cs:161-171 | with a row today the call is refused exactly when a requested action is recorded; the message names the first in the order Time In, Time Out, Start Break, Stop Break; a refusal changes nothing |
| AttendanceStore.LogUpdatesOnlyNullColumns | AttendanceFaceRocog/DatabaseHelper.cs:174-188 | a successful update changes only today's row, fills exactly its NULL columns whose requested value is non-empty, and keeps every non-NULL column, "" included |
| AttendanceStore.TimeInStored | AttendanceFaceRocog/DatabaseHelper.cs:135-209 | with no Time In column yet, a successful Time In is stored in today's row |
| AttendanceStore.SecondTimeInRefused | AttendanceFaceRocog/DatabaseHelper.cs:135-209 | after a stored Time In, a second Time In the same day is refused with the Time In message and changes nothing |
| AttendanceStore.SecondTimeInAcceptedAsWritten | AttendanceFaceRocog/DatabaseHelper.cs:161-188 | a row whose Time In column is "" lets a Time In succeed twice, and neither call stores anything |
| AttendanceStore.LostUpdateAsWritten | AttendanceFaceRocog/DatabaseHelper.cs:174-203 | after the day's first Time In, a Start Break is reported as recorded but the row is unchanged, so the break can be logged again; the intended update stores it |
| AttendanceStore.IntendedSuccessStores | AttendanceFaceRocog/DatabaseHelper.cs:135-209 | with the intended update, a successful call stores every requested value in today's row, and repeating the request is refused |
| AttendanceStore.IntendedSecondTimeInRefused | AttendanceFaceRocog/DatabaseHelper.cs:135-209 | with the intended update, a second Time In after a successful one is always refused |
| AttendanceStore.GetTodayAttendanceStatus | AttendanceFaceRocog/DatabaseHelper.cs:281-305 | all false without a row today; otherwise each flag says whether that column holds a non-empty value |
| AttendanceStore.StatusMatchesRefusal | AttendanceFaceRocog/DatabaseHelper.cs:281-305 | a single-action request is refused exactly when the status flag of that action is set, with that action's message |
| AttendanceStore.CountRecorded | AttendanceFaceRocog/DatabaseHelper.cs:341-368 | a count is at most the number of today's rows, and positive exactly when some row today records the action |
| AttendanceStore.GetTodayAttendanceStats | AttendanceFaceRocog/DatabaseHelper.cs:341-368 | each of the four counts is bounded by today's rows and positive exactly when some row today records it |
| AttendanceStore.StatsMatchStatus | AttendanceFaceRocog/DatabaseHelper.cs:341-368 | the Time In count is positive exactly when some employee's status today shows Time In |
| AttendanceStore.GetEmployeeByIdSpec | AttendanceFaceRocog/DatabaseHelper.cs:113-129 | none exactly when no employee has the id; otherwise the first such employee's id, code and name |
| AttendanceStore.GetEmployeeFaceImage | AttendanceFaceRocog/DatabaseHelper.cs:214-246 | none exactly when the employee has no image; otherwise the path of one of their images |
| AttendanceStore.LatestImageIndex | AttendanceFaceRocog/DatabaseHelper.cs:214-246 | the image chosen is one of the employee's, with the largest image id |
| AttendanceStore.LatestAfterAdd | AttendanceFaceRocog/DatabaseHelper.cs:39-52 | right after AddFaceImage, GetEmployeeFaceImage returns the image just added |
| AttendanceStore.EmployeesWithFacesMembers | AttendanceFaceRocog/DatabaseHelper.cs:92-108 | the join holds exactly the (employee, image path) pairs of existing employees |
| AttendanceStore.EmployeesForDisplay | AttendanceFaceRocog/DatabaseHelper.cs:57-87 | one display row per employee, in table order; its picture is the profile photo when set, else the employee's latest face image |
| AttendanceStore.TodayAllAttendance | AttendanceFaceRocog/DatabaseHelper.cs:310-336 | every record comes from today's row of an existing employee, and every such row appears; the table is read from its last row back (ORDER BY LogTime DESC) |
| AttendanceStore.TodayAllAttendanceNewestFirst | AttendanceFaceRocog/DatabaseHelper.cs:310-336 | with rows in insertion order (attendance ids increasing), today's records come newest first: their attendance ids strictly decrease |
| AttendanceStore.GetProfilePhoto | AttendanceFaceRocog/DatabaseHelper.cs:441-453 | a path only from the employee's row; null for an unknown employee |
| AttendanceStore.ProfilePhotoRoundTrip | AttendanceFaceRocog/DatabaseHelper.cs:422-453 | GetProfilePhoto after AddProfilePhoto returns the stored path |
| AttendanceStore.DeleteAttendanceOf | AttendanceFaceRocog/DatabaseHelper.cs:392-417 | exactly the other employees' attendance rows remain |
| AttendanceStore.DeleteFaceImagesOf | AttendanceFaceRocog/DatabaseHelper.cs:392-417 | exactly the other employees' face images remain |
| AttendanceStore.DeleteEmployeeRow | AttendanceFaceRocog/DatabaseHelper.cs:392-417 | exactly the other employees remain |
| AttendanceStore.DeleteLeavesNothing | AttendanceFaceRocog/DatabaseHelper.cs:392-417 | after the delete the employee has no details, no face image and no attendance status |
| AttendanceStore.DeleteAttendanceKeepsKeys | AttendanceFaceRocog/DatabaseHelper.cs:392-417 | the delete keeps one row per employee per day |
| AttendanceStore.DeleteAttendanceKeepsOrder | AttendanceFaceRocog/DatabaseHelper.cs:392-417 | the delete keeps the remaining rows in insertion order |
| AttendanceStore.DeleteEmployeeKeepsKeys | AttendanceFaceRocog/DatabaseHelper.cs:392-417 | the delete keeps employee ids unique |
| AttendanceStore.Database.AddEmployee | AttendanceFaceRocog/DatabaseHelper.cs:21-34 | appends the employee with a fresh id, which GetEmployeeById then finds, with no profile photo |
| AttendanceStore.Database.AddFaceImage | AttendanceFaceRocog/DatabaseHelper.cs:39-52 | appends the image with a fresh id; it becomes the employee's latest image |
| AttendanceStore.Database.LogAttendance | AttendanceFaceRocog/DatabaseHelper.cs:135-209 | the table becomes the result of the as-written log, and the id counter advances only on an insert |
| AttendanceStore.Database.UpdateEmployee | AttendanceFaceRocog/DatabaseHelper.cs:373-387 | the table becomes the renamed table |
| AttendanceStore.Database.AddProfilePhoto | AttendanceFaceRocog/DatabaseHelper.cs:422-436 | the table gets the new photo path, which GetProfilePhoto then returns |
| AttendanceStore.Database.DeleteEmployee | AttendanceFaceRocog/DatabaseHelper.cs:392-417 | removes the employee's attendance, face images and row, and keeps the table invariants |
| AttendancePolicy.GetCurrentTimePeriod | AttendanceFaceRocog/UserControl1.cs:185-199 | each period holds exactly in its interval: before 9:00, 9:00–11:59, 12:00–12:59, 13:00–17:59, from 18:00 |
| AttendancePolicy.PeriodsInOrder | AttendanceFaceRocog/UserControl1.cs:185-199 | the period never goes back as the time of day advances |
| AttendancePolicy.PeriodBoundaries | AttendanceFaceRocog/UserControl1.cs:185-199 | the last and first second of each period fall on the documented sides |
| AttendancePolicy.LabelToName | AttendanceFaceRocog/UserControl1.cs:407 | removing spaces from a button label gives the action name |
| AttendancePolicy.FieldOfName | AttendanceFaceRocog/UserControl1.cs:727-741 | a recognised action name maps to the action it names |
| AttendancePolicy.NameToField | AttendanceFaceRocog/UserControl1.cs:727-741 | every action's name is recognised as that action |
| AttendancePolicy.FormatActionNameInverse | AttendanceFaceRocog/UserControl1.cs:821-831 | FormatActionName restores the label the dialog button showed |
| AttendancePolicy.FormatActionNameOfName | AttendanceFaceRocog/UserControl1.cs:821-831 | FormatActionName turns each action name into its spaced label |
| AttendancePolicy.FormatActionNameIdentity | AttendanceFaceRocog/UserControl1.cs:821-831 | any other string is returned unchanged |
| AttendancePolicy.ButtonTextFacts | AttendanceFaceRocog/UserControl1.cs:358-365 | only Cancel reads "Cancel"; Cancel is never disabled; an action button is disabled exactly when its action is recorded today |
| AttendancePolicy.ActionTextFacts | AttendanceFaceRocog/UserControl1.cs:358-365 | an action label is never "Cancel", and it is disabled exactly when the action is recorded |
| AttendancePolicy.DialogResultOffered | AttendanceFaceRocog/UserControl1.cs:399-411 | a dialog answer is null or the name of an offered action not yet recorded today |
| AttendancePolicy.DialogOffersOpenActions | AttendanceFaceRocog/UserControl1.cs:258-418 | every offered action not yet recorded can be clicked and returns its name; the last button is Cancel and returns null |
| AttendancePolicy.HandleByPeriod | AttendanceFaceRocog/UserControl1.cs:205-253 | morning work logs Time In without a dialog unless it is recorded, and then shows the all-actions dialog; after work logs Time Out without a dialog, or nothing once it is recorded; the other periods ask; the lunch dialog never returns Time Out |
| AttendancePolicy.HandleNeverRepeats | AttendanceFaceRocog/UserControl1.cs:205-253 | whatever the period and the answer, the chosen action is one of the four and is not yet recorded today |
| AttendancePolicy.LogRequestFor | AttendanceFaceRocog/UserControl1.cs:792-819 | the time goes into the action's own column and every other column gets "" |
| AttendancePolicy.FormatTime | AttendanceFaceRocog/UserControl1.cs:721 | "hh:mm:ss tt" has eleven characters, with colons, a space and an AM/PM designator whose first letter is A exactly before noon |
| AttendancePolicy.ChosenActionIsLogged | AttendanceFaceRocog/UserControl1.cs:693-787 | an action the policy chooses from today's status is never refused by LogAttendance on the same table, so the "Already Recorded" branch cannot be reached from the policy |
| ScannerSession.Scanner.constructor | AttendanceFaceRocog/UserControl1.cs:58-86 | starts with Time In selected, the camera stopped, auto-scan on and no log made; the service is trained on the stored faces: its label map is the retrained map and it is trained exactly when some stored image is usable and training succeeds |
| ScannerSession.Scanner.StartCamera | AttendanceFaceRocog/UserControl1.cs:484-526 | a running camera is left alone; otherwise the flags are reset and the camera runs exactly when some device opens |
| ScannerSession.Scanner.StopCamera | AttendanceFaceRocog/UserControl1.cs:528-548 | afterwards no camera runs and no device is held |
| ScannerSession.Scanner.AutoStartCamera | AttendanceFaceRocog/UserControl1.cs:438-456 | nothing happens once cleaned up, hidden or already running; otherwise the flags are reset, the label map is retrained on the stored faces, the model is trained exactly when some stored image is usable and training succeeds, and the camera starts exactly when some device opens |
| ScannerSession.Scanner.ProcessFaceDetection | AttendanceFaceRocog/UserControl1.cs:600-684 | without a service, or while a log is in progress, nothing changes; otherwise a match of an existing employee becomes the recognised employee, no match clears it, and a log starts exactly when a stable match of an existing employee arrives and nothing was logged in this camera run |
| ScannerSession.Scanner.TakeRecognition | AttendanceFaceRocog/UserControl1.cs:611-678 | a match of an unknown employee leaves the session alone; no match clears the recognised employee; a log starts exactly when a stable match of an existing employee arrives and nothing was logged yet |
| ScannerSession.Scanner.AutoLogAttendance | AttendanceFaceRocog/UserControl1.cs:693-787 | without a stable recognition, or once a log was made, nothing is logged; otherwise the action is the policy's choice; no action clears both flags; a chosen action is reported as logged at the current time, always with success (as written the row may not change, see AttendanceStore.LostUpdateAsWritten), then the camera stops and the auto-clear timer starts |
| ScannerSession.Scanner.LogChosen | AttendanceFaceRocog/UserControl1.cs:710-741 | no action clears both flags and logs nothing; an action is selected and logged with the current time in its column, and the table becomes that log's result |
| ScannerSession.Scanner.LogAction | AttendanceFaceRocog/UserControl1.cs:727-779 | a known action is logged with the time in its column; an unknown one logs nothing; afterwards the log is marked made and the camera is stopped; a refusal schedules a restart when auto-scan is on |
| ScannerSession.Scanner.AfterLog | AttendanceFaceRocog/UserControl1.cs:743-779 | the log is marked made and the camera stopped; success starts the auto-clear timer; a refusal ends processing and, with auto-scan on, schedules a restart |
| ScannerSession.Scanner.AutoClearTimerTick | AttendanceFaceRocog/UserControl1.cs:111-125 | the timer stops, both log flags are cleared, and the camera restarts only when auto-scan is on and it was stopped; only the timer, the log flags, the camera and the recogniser's training can change |
| ScannerSession.Scanner.DelayedRestart | AttendanceFaceRocog/UserControl1.cs:771-777 | the pending restart is cleared; a stopped, visible screen that is not cleaned up runs again exactly when some device opens; a cleaned-up screen never starts and a running camera is never stopped; only these flags, the camera and the recogniser's training can change |
| ScannerSession.Scanner.Cleanup | AttendanceFaceRocog/UserControl1.cs:1182-1206 | the screen is cleaned up: auto-scan off, timer gone, camera stopped, service released; every other field, the log flags included, stays as it was |
| ScannerSession.Scanner.OnVisibleChanged | AttendanceFaceRocog/UserControl1.cs:1215-1235 | hiding turns auto-scan, the timer and the camera off; showing turns auto-scan on and starts the camera; a cleaned-up screen never starts |
| ScannerSession.Scanner.StartScanClick | AttendanceFaceRocog/UserControl1.cs:1134-1148 | the auto-clear timer stops; the button toggles: a running camera stops with auto-scan off, a stopped one turns auto-scan on and starts; only these flags, the camera and the recogniser's training can change |
| ScannerSession.Scanner.SelectAction | AttendanceFaceRocog/UserControl1.cs:1150-1176 | the manual buttons select their action and clear both log flags |
| EmployeeProfiles.DisplayProfiles | AttendanceFaceRocog/EmployeeProfileControl.cs:118-161 | cards exactly when there are rows, showing those rows; otherwise "No employees added yet" |
| EmployeeProfiles.MatchingProfiles | AttendanceFaceRocog/EmployeeProfileControl.cs:100-104 | the matches are exactly the rows whose lower-cased name or code contains the lower-cased search text |
| EmployeeProfiles.MatchingProfilesKeepOrder | AttendanceFaceRocog/EmployeeProfileControl.cs:100-104 | the filter keeps table order |
| EmployeeProfiles.FilterProfiles | AttendanceFaceRocog/EmployeeProfileControl.cs:90-116 | no list loaded: nothing changes; blank text shows all; otherwise the matching cards, or "no results" exactly when nothing matches |
| EmployeeProfiles.CropPadding | AttendanceFaceRocog/EmployeeProfileControl.cs:936 | the padding is a fifth of the width, truncated |
| EmployeeProfiles.PaddedCrop | AttendanceFaceRocog/EmployeeProfileControl.cs:935-942 | the crop never leaves the frame, and it covers a face that lies inside the frame |
| EmployeeProfiles.LargestFaceSpec | AttendanceFaceRocog/EmployeeProfileControl.cs:933 | the chosen face has the largest area, and no earlier face is as large |
| EmployeeProfiles.ProfileCrop | AttendanceFaceRocog/EmployeeProfileControl.cs:929-942 | no faces gives no crop; otherwise the padded crop of the largest face |
| EmployeeProfiles.CaptureFaceOnlyColoredPhoto | AttendanceFaceRocog/EmployeeProfileControl.cs:925-966 | a path exactly when a face is found and the JPEG is saved; the path is the profile-colour file name |
| EmployeeProfiles.FaceImagesFromAt | AttendanceFaceRocog/EmployeeProfileControl.cs:872-876 | the i-th stored image row has id next + i and the i-th path |
| EmployeeProfiles.DeleteRestoresEmployees | AttendanceFaceRocog/EmployeeProfileControl.cs:854-856 | deleting a just-added employee restores the employee table |
| EmployeeProfiles.DeleteFaceImagesOfAbsent | AttendanceFaceRocog/EmployeeProfileControl.cs:854-856 | deleting an employee with no images keeps the image table |
| EmployeeProfiles.DeleteAttendanceOfAbsent | AttendanceFaceRocog/EmployeeProfileControl.cs:854-856 | deleting an employee with no attendance keeps the attendance table |
| EmployeeProfiles.PhotoKeepsEmployees | AttendanceFaceRocog/EmployeeProfileControl.cs:884-887 | storing the profile photo changes nobody's details |
| EmployeeProfiles.StoredImagesAreTrained | AttendanceFaceRocog/EmployeeProfileControl.cs:872-891 | every stored training image of an existing employee is in the next training set |
| EmployeeProfiles.RenameKeepsOthers | AttendanceFaceRocog/DatabaseHelper.cs:373-387 | renaming an existing employee gives them the new name and keeps their id and code |
| EmployeeProfiles.ProfileScreen.constructor | AttendanceFaceRocog/EmployeeProfileControl.cs:29-45 | starts with the camera stopped, no frame, the panel hidden and no list; the service is trained on the stored faces: its label map is the retrained map and it is trained exactly when some stored image is usable and training succeeds |
| EmployeeProfiles.ProfileScreen.LoadAllProfiles | AttendanceFaceRocog/EmployeeProfileControl.cs:71-83 | the cached list is the display rows of all employees, and the view shows them |
| EmployeeProfiles.ProfileScreen.SearchTextChanged | AttendanceFaceRocog/EmployeeProfileControl.cs:85-88 | the view becomes the filter of the cached list |
| EmployeeProfiles.ProfileScreen.SaveEdit | AttendanceFaceRocog/EmployeeProfileControl.cs:496-506 | a blank name is refused and changes nothing; otherwise the employee is renamed |
| EmployeeProfiles.ProfileScreen.StartCamera | AttendanceFaceRocog/EmployeeProfileControl.cs:553-578 | a running camera is left alone; otherwise it runs exactly when some device opens |
| EmployeeProfiles.ProfileScreen.StopCamera | AttendanceFaceRocog/EmployeeProfileControl.cs:580-603 | afterwards no camera runs; stopping a running camera clears the recognition and readies Add |
| EmployeeProfiles.ProfileScreen.StartScanClick | AttendanceFaceRocog/EmployeeProfileControl.cs:774-785 | a stopped camera shows "Waiting..." and runs exactly when some device opens; a running one stops, clears the recognition and readies Add |
| EmployeeProfiles.ProfileScreen.ProcessFaceRecognition | AttendanceFaceRocog/EmployeeProfileControl.cs:645-730 | a stable match of an existing employee disables Add as "Already Registered" and an unstable one leaves the button; a match whose employee is missing changes nothing; no match clears the recognition and shows ADD when a face is present, "No Face" otherwise |
| EmployeeProfiles.ProfileScreen.ProcessFrame | AttendanceFaceRocog/EmployeeProfileControl.cs:605-643 | with no camera nothing changes; otherwise the frame is kept; an empty frame is not recognised; other frames go to ProcessFaceRecognition |
| EmployeeProfiles.ProfileScreen.AddClick | AttendanceFaceRocog/EmployeeProfileControl.cs:787-920 | a blank name or a missing frame changes nothing; a declined duplicate warning adds nobody and leaves the model; a declined warning or a failed capture leaves the camera, the name, the panel, the list and the recognition state as they were; a failed capture rolls the new employee back; success adds the employee with the captured images and photo, retrains (trained exactly when some stored image is usable and training succeeds) and closes the panel |
| EmployeeProfiles.ProfileScreen.Enroll | AttendanceFaceRocog/EmployeeProfileControl.cs:845-911 | the new employee has a fresh id; the capture fails exactly when no face is close enough, the crop does not normalise or the first save fails, and then the employee's rows are deleted, the model is kept and the camera, name, panel, list and recognition state are unchanged; success stores the images and the photo, keeps the attendance, retrains (trained exactly when some stored image is usable and training succeeds) and reloads |
| EmployeeProfiles.ProfileScreen.CheckDuplicate | AttendanceFaceRocog/EmployeeProfileControl.cs:805-842 | the enrolment stops exactly when the duplicate warning (an existing employee matched above 70%) is shown and answered No; the warning re-enables Add |
| EmployeeProfiles.ProfileScreen.AddAndCapture | AttendanceFaceRocog/EmployeeProfileControl.cs:845-870 | the employee gets a fresh id; with no image captured its rows are deleted again; otherwise the employee exists without a photo and the captured paths are the variants saved |
| EmployeeProfiles.ProfileScreen.StoreFaceImages | AttendanceFaceRocog/EmployeeProfileControl.cs:872-876 | one image row per captured path, in order, with consecutive ids |
| EmployeeProfiles.ProfileScreen.StoreEnrollment | AttendanceFaceRocog/EmployeeProfileControl.cs:872-887 | the images are stored, the details kept, the photo stored when one was saved, and every image joins the training set |
| EmployeeProfiles.ProfileScreen.FinishEnrollment | AttendanceFaceRocog/EmployeeProfileControl.cs:872-911 | stores the enrolment, retrains on the new face set (the label map is the retrained map; trained exactly when some stored image is usable and training succeeds), stops the camera, closes the panel and reloads the list |
| EmployeeProfiles.ProfileScreen.Retrain | AttendanceFaceRocog/EmployeeProfileControl.cs:889-891 | the label map becomes the one trained on the stored faces, and the model is trained exactly when some stored image is usable and training succeeds |
| EmployeeProfiles.ProfileScreen.CloseAfterEnrollment | AttendanceFaceRocog/EmployeeProfileControl.cs:906-911 | the camera stops, the panel closes, Add is ready and the list is reloaded |
| EmployeeProfiles.ProfileScreen.CancelClick | AttendanceFaceRocog/EmployeeProfileControl.cs:968-973 | the camera stops, the name is cleared and the panel closes |
| ActivityTimeline.CreateActivityTimelineItemSpec | AttendanceFaceRocog/AttendActUserControl.cs:193-255 | the item shows a detail for each non-empty time, with its caption and that time |
| ActivityTimeline.CreateActivityTimelineItemOrder | AttendanceFaceRocog/AttendActUserControl.cs:227-252 | details appear in the order the item adds them: Time In, Time Out, Break Start, Break End, each at most once |
| ActivityTimeline.ItemShowsRecordedColumns | AttendanceFaceRocog/AttendActUserControl.cs:150-188 | a record's item has a detail of a kind exactly when that column is recorded |
| ActivityTimeline.ItemsOf | AttendanceFaceRocog/AttendActUserControl.cs:150-188 | one item per record, in order |
| ActivityTimeline.TimelineOf | AttendanceFaceRocog/AttendActUserControl.cs:150-188 | "no activity" exactly when there are no records; otherwise one item per record |
| ActivityTimeline.SearchRows | AttendanceFaceRocog/AttendActUserControl.cs:71-104 | the hits are exactly the records whose name or code contains the query, ignoring case |
| ActivityTimeline.SearchRowsKeepOrder | AttendanceFaceRocog/AttendActUserControl.cs:71-104 | the search keeps table order |
| ActivityTimeline.SearchView | AttendanceFaceRocog/AttendActUserControl.cs:71-104 | "no results" exactly when nothing is cached or nothing matches; otherwise the items of the hits |
| ActivityTimeline.SearchQueryEmptyIffBlank | AttendanceFaceRocog/AttendActUserControl.cs:51 | the trimmed, lower-cased query is empty exactly when the text is blank |
| ActivityTimeline.SearchShowsMatchingRecords | AttendanceFaceRocog/AttendActUserControl.cs:24-104 | after a load, the timeline shows an item for every today's record of an existing employee, and a search shows every such record that matches |
| ActivityTimeline.ActivityScreen.Load | AttendanceFaceRocog/AttendActUserControl.cs:24-29 | statistics, cache and timeline come from today's rows |
| ActivityTimeline.ActivityScreen.RefreshData | AttendanceFaceRocog/AttendActUserControl.cs:309-313 | statistics, cache and timeline come from today's rows |
| ActivityTimeline.ActivityScreen.LoadAttendanceStatistics | AttendanceFaceRocog/AttendActUserControl.cs:109-126 | the statistics are today's counts |
| ActivityTimeline.ActivityScreen.LoadActivityTimeline | AttendanceFaceRocog/AttendActUserControl.cs:131-145 | the cache is today's records and the timeline shows them |
| ActivityTimeline.ActivityScreen.DisplayAttendanceRecords | AttendanceFaceRocog/AttendActUserControl.cs:150-188 | the timeline shows the given records |
| ActivityTimeline.ActivityScreen.PerformSmartSearch | AttendanceFaceRocog/AttendActUserControl.cs:71-104 | the timeline becomes the search view of the cache |
| ActivityTimeline.ActivityScreen.SearchTextChanged | AttendanceFaceRocog/AttendActUserControl.cs:47-66 | a blank text restores the cached timeline; other text searches for the trimmed query |
| Text.TrimEmptyIffBlank | AttendanceFaceRocog/EmployeeProfileControl.cs:94 | trimming leaves nothing exactly when the text is blank (String.IsNullOrWhiteSpace) |
| Text.ContainsIff | AttendanceFaceRocog/EmployeeProfileControl.cs:102-103 | Contains holds exactly when the pattern occurs at some position |
| Text.JoinWords | AttendanceFaceRocog/UserControl1.cs:407 | removing the space between two space-free words joins them |

## Left out

- The image processing (EmguCV Haar cascade, histogram equalisation, resizing, flips, brightness, the LBPH algorithm itself): the detector output, whether a crop normalises and the recogniser's prediction are inputs.
- Camera I/O, bitmaps, drawing and all UI layout (fonts, colours, positions, scroll panels, message boxes): only what decides behaviour is kept.
- Threads, `Invoke`, `Task.Delay` and WinForms timers: each callback is a separate method (DelayedRestart, AutoClearTimerTick) called on the UI thread; interleavings are not modelled.
- The file system: image paths are strings; whether a file loads or a save succeeds is an input (`usable`, `saved`, `savesBeforeError`).
- SQL plumbing (connections, parameters, `DataTable`): the tables are sequences in insertion order; foreign keys and cascades are not modelled.
- EmployeesWithFaces and EmployeesForDisplay: the `ORDER BY e.FullName` of GetAllEmployeesWithFaces (DatabaseHelper.cs:100) and of GetAllEmployeesForDisplay (DatabaseHelper.cs:79) is not modelled, because it depends on the server's collation; both keep table order. So the model's TrainModel may give label 0 to a different employee than the source does. The label map is still dense and injective, and the same employees are trained.
- TodayAllAttendance: `ORDER BY a.LogTime DESC` is modelled as reverse insertion order. Rows inserted within the same LogTime tick are ordered by the server, not by the model.
- `empCode` is generated by the database schema; the model takes it as an input of the enrolment.
- `DateTime.Now` is read once per event as a time of day and a day number; the history filter of the timeline other than "today" is not modelled.
- Double arithmetic is modelled on reals; `(int)(width * 0.2)` is modelled as a truncated fifth of the width, which agrees for non-negative widths; 32-bit integer overflow is not modelled.
- `ToLower` is modelled on ASCII letters only; culture-specific case mapping is not modelled.
- FormatTime: the "tt" of "hh:mm:ss tt" prints the current culture's AM/PM designators; the model writes the en-US "AM" and "PM".
- Exceptions: only these catches are modelled, each as an input:
  - a training image that does not load (FaceRecognitionService.cs:469-472): `usable`;
  - training that throws (FaceRecognitionService.cs:509-513): `trainSucceeds`;
  - a variant save that throws in CaptureMultipleFaces (FaceRecognitionService.cs:264-267): `savesBeforeError`;
  - a crop that does not normalise (FaceRecognitionService.cs:138-142): `normalizes`;
  - a colour photo that is not saved (EmployeeProfileControl.cs:961-965): `saved` / `photoSaved`;
  - a camera index that throws while opening (UserControl1.cs:510-513, EmployeeProfileControl.cs:565): `openable`.
- Exceptions not modelled; in the model these calls always complete:
  - every SQL exception in DatabaseHelper (LogAttendance, AddEmployee, AddFaceImage, DeleteEmployee and the queries), and GetEmployeeFaceImage's catch (DatabaseHelper.cs:238-243), which returns null;
  - AutoLogAttendance's catch (UserControl1.cs:781-786), which shows a message and clears `_isProcessingAttendance` so that the next frame retries;
  - ProcessFaceDetection's and both ProcessFrame catches (UserControl1.cs:587-590 and 680-683, EmployeeProfileControl.cs:639-642 and 726-729), which only write a debug line;
  - BtnAdd_Click's catch (EmployeeProfileControl.cs:913-919): an exception after AddEmployee re-enables Add and leaves the employee half-enrolled, without the rollback; the model has no such path;
  - the load catches of the activity and profile screens (AttendActUserControl.cs:121-124 and 140-143, EmployeeProfileControl.cs:78-81) and the detector catches (FaceRecognitionService.cs:332-341), which return no faces;
  - RecognizeFace's catch (FaceRecognitionService.cs:593-597), which returns null as an unknown face does; the model's `prediction` input always completes;
  - the error message boxes.
- `IsDisposed` checks and `Dispose`: disposal is the `Cleanup` flag only.
- `UserControl1_Load`'s 500 ms delay before the first start: Load is modelled as AutoStartCamera.
- ProcessFaceDetection's drawing of face boxes and captions on the frame is not modelled.
- The scanner's ProcessFrame copies the frame and hands it to the detector; its empty-frame and detection steps are folded into the `detected` input of ProcessFaceDetection.
- The designer's initial state of the Add button and the edit dialog's layout are not modelled; the dialog's text box is modelled as its result.
- The timeline's date label, `SetupSearchBar`'s event wiring and `CreateActivityLabel`'s styling are not modelled; ActivityTimeline.CreateActivityTimelineItem keeps their texts.
- The check-then-update race between two clients logging for the same employee at once is not modelled (one process, one table).
- CaptureMultipleFaces: its `count` parameter is unused by the source, and the model takes it and ignores it too.
- CaptureMultipleFaces: the source formats `DateTime.Now` separately for each of the four file names (FaceRecognitionService.cs:228, 235, 243, 251), so a second boundary between saves can give the variants different timestamps; the model uses one `stamp` for all four.
- SecondTimeInRefused: proved only when the stored Time In column is NULL before the first call; as written, a Time In column holding "" lets a second Time In succeed without storing anything (see Findings and AttendanceStore.SecondTimeInAcceptedAsWritten).
- The enrolment helpers (CheckDuplicate, AddAndCapture, StoreFaceImages, StoreEnrollment, FinishEnrollment, Retrain, CloseAfterEnrollment) and the scanner helpers (TakeRecognition, LogChosen, LogAction, AfterLog) are sections of one source method each (BtnAdd_Click, AutoLogAttendance, ProcessFaceDetection), split so that each step has its own contract.

## Findings

| source | as written | input that shows it | evidently intended | confidence | as-written member | corrected member |
|---|---|---|---|---|---|---|
| AttendanceFaceRocog/DatabaseHelper.cs:174-203 | the INSERT stores "" in the three actions not requested, and the UPDATE fills a column only when it is NULL, so a later action on the same day finds "" and is dropped while the call reports success; the refusal check treats "" as not recorded, so that action can be "recorded" again and again, and a Time In column holding "" accepts repeated Time Ins | Time In at 08:00 AM inserts the day's row; Start Break at 12:00 PM then returns success and leaves the row unchanged; a second Start Break at 12:05 PM succeeds again | the UPDATE stores each requested value in a column that is not yet recorded (NULL or ""), so a success means the action is stored and a repeat is refused | high, from reading; not executed | AttendanceStore.LostUpdateAsWritten | AttendanceStore.IntendedSuccessStores |

The main model (AttendanceStore.Database.LogAttendance and everything that calls it) keeps the code as written. The corrected update is AttendanceStore.LogAttendanceIntended. Its properties are AttendanceStore.IntendedSuccessStores and AttendanceStore.IntendedSecondTimeInRefused. AttendanceStore.SecondTimeInAcceptedAsWritten shows the same defect for Time In.
