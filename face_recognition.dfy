/**
 * FaceRecognitionService: the shared recogniser.  Training turns the rows of
 * GetAllEmployeesWithFaces into LBPH training instances with dense labels;
 * recognition gates the detected boxes by distance, asks the recogniser for
 * a (label, distance) prediction and keeps a bounded history of accepted ids.
 *
 * The EmguCV calls are inputs: `usable` is the set of image paths that exist,
 * load with a non-zero size and normalise to a non-empty 100×100 image;
 * `trainSucceeds` says whether LBPH Train returns normally; the detector's
 * boxes, whether the chosen crop normalises, and the prediction are given to
 * RecognizeFace.
 */
module FaceRecognition {
  import opened Common
  import opened Text
  import opened FaceGeometry
  import AttendanceStore

  /** One row of GetAllEmployeesWithFaces. */
  type FaceRow = AttendanceStore.FaceRow

  /** What LBPH Predict returns. */
  datatype Prediction = Prediction(predictedLabel: int, distance: real)

  /** The tuple RecognizeFace returns. */
  datatype Recognition = Recognition(empId: int, confidence: real, isStable: bool, distanceInches: real)

  const UnknownThreshold: real := 100.0
  const RecognitionHistorySize: nat := 1

  // ---------------------------------------------------------------- grouping

  /** The keys of GroupBy(empID): each employee id once, in order of first occurrence. */
  function GroupKeys(rows: seq<FaceRow>): seq<int>
  {
    if rows == [] then []
    else
      var p := GroupKeys(rows[..|rows| - 1]);
      if rows[|rows| - 1].empId in p then p else p + [rows[|rows| - 1].empId]
  }

  predicate Distinct(s: seq<int>) {
    forall i, j :: 0 <= i < j < |s| ==> s[i] != s[j]
  }

  /** The rows of employee k have ids listed in GroupKeys. */
  predicate HasRowOf(rows: seq<FaceRow>, k: int) {
    exists i :: 0 <= i < |rows| && rows[i].empId == k
  }

  lemma {:induction false} GroupKeysSpec(rows: seq<FaceRow>)
    ensures Distinct(GroupKeys(rows))
    ensures forall k :: k in GroupKeys(rows) <==> HasRowOf(rows, k)
  {
    if rows != [] {
      var q := rows[..|rows| - 1];
      GroupKeysSpec(q);
      forall k ensures k in GroupKeys(rows) <==> HasRowOf(rows, k) {
        if HasRowOf(q, k) {
          var i :| 0 <= i < |q| && q[i].empId == k;
          assert rows[i].empId == k;
        }
        if HasRowOf(rows, k) && k != rows[|rows| - 1].empId {
          var i :| 0 <= i < |rows| && rows[i].empId == k;
          assert q[i].empId == k;
        }
      }
    }
  }

  /** The image paths of employee k's group, in row order. */
  function PathsOf(rows: seq<FaceRow>, k: int): seq<string> {
    if rows == [] then []
    else
      var r := rows[|rows| - 1];
      PathsOf(rows[..|rows| - 1], k) + (if r.empId == k then [r.imgPath] else [])
  }

  /** The number of paths in ps that give a usable image. */
  function UsableCount(ps: seq<string>, usable: set<string>): nat {
    if ps == [] then 0
    else UsableCount(ps[..|ps| - 1], usable) + (if ps[|ps| - 1] in usable then 1 else 0)
  }

  /** Employee k has a row whose image is usable. */
  predicate HasUsableImage(rows: seq<FaceRow>, k: int, usable: set<string>) {
    exists i :: 0 <= i < |rows| && rows[i].empId == k && rows[i].imgPath in usable
  }

  /** The usable count of a group grows by the last row's contribution. */
  lemma UsableCountSnoc(rows: seq<FaceRow>, k: int, usable: set<string>)
    requires rows != []
    ensures var r := rows[|rows| - 1];
            UsableCount(PathsOf(rows, k), usable) ==
              UsableCount(PathsOf(rows[..|rows| - 1], k), usable) + (if r.empId == k && r.imgPath in usable then 1 else 0)
  {
    var r := rows[|rows| - 1];
    var pq := PathsOf(rows[..|rows| - 1], k);
    var ps := PathsOf(rows, k);
    if r.empId == k {
      assert ps[..|ps| - 1] == pq;
    } else {
      assert ps == pq;
    }
  }

  /** A usable image of employee k is in the last row or in the rows before it. */
  lemma HasUsableImageSnoc(rows: seq<FaceRow>, k: int, usable: set<string>)
    requires rows != []
    ensures var r := rows[|rows| - 1];
            HasUsableImage(rows, k, usable) <==>
              HasUsableImage(rows[..|rows| - 1], k, usable) || (r.empId == k && r.imgPath in usable)
  {
    var q := rows[..|rows| - 1];
    var r := rows[|rows| - 1];
    if HasUsableImage(q, k, usable) {
      var i :| 0 <= i < |q| && q[i].empId == k && q[i].imgPath in usable;
      assert rows[i] == q[i];
    }
    if r.empId == k && r.imgPath in usable {
      assert rows[|rows| - 1] == r;
    }
    if HasUsableImage(rows, k, usable) && !(r.empId == k && r.imgPath in usable) {
      var i :| 0 <= i < |rows| && rows[i].empId == k && rows[i].imgPath in usable;
      assert q[i] == rows[i];
    }
  }

  /** Employee k receives instances exactly when one of its images is usable. */
  lemma {:induction false} GroupHasInstancesIff(rows: seq<FaceRow>, k: int, usable: set<string>)
    ensures UsableCount(PathsOf(rows, k), usable) > 0 <==> HasUsableImage(rows, k, usable)
  {
    if rows != [] {
      GroupHasInstancesIff(rows[..|rows| - 1], k, usable);
      UsableCountSnoc(rows, k, usable);
      HasUsableImageSnoc(rows, k, usable);
    }
  }

  // ---------------------------------------------------------------- labels

  /** The keys that receive a label: those with at least one usable image, in group order. */
  function Labelled(keys: seq<int>, rows: seq<FaceRow>, usable: set<string>): seq<int> {
    if keys == [] then []
    else
      var k := keys[|keys| - 1];
      Labelled(keys[..|keys| - 1], rows, usable) + (if UsableCount(PathsOf(rows, k), usable) > 0 then [k] else [])
  }

  /** n copies of x. */
  function Repeat(x: int, n: nat): seq<int> {
    if n == 0 then [] else Repeat(x, n - 1) + [x]
  }

  lemma {:induction false} RepeatSpec(x: int, n: nat)
    ensures |Repeat(x, n)| == n
    ensures forall i :: 0 <= i < n ==> Repeat(x, n)[i] == x
    ensures forall y :: multiset(Repeat(x, n))[y] == if y == x then n else 0
  {
    if n > 0 {
      RepeatSpec(x, n - 1);
    }
  }

  /** Two more copies at the end. */
  lemma RepeatSnoc2(x: int, n: nat)
    ensures Repeat(x, n + 2) == Repeat(x, n) + [x, x]
  {
    assert Repeat(x, n + 2) == Repeat(x, n + 1) + [x];
  }

  /** The labels vector handed to Train: for each labelled employee, two instances (the
      image and its mirror) of its label per usable image. */
  function InstanceLabels(keys: seq<int>, rows: seq<FaceRow>, usable: set<string>): seq<int> {
    if keys == [] then []
    else
      var p := keys[..|keys| - 1];
      var k := keys[|keys| - 1];
      InstanceLabels(p, rows, usable) + Repeat(|Labelled(p, rows, usable)|, 2 * UsableCount(PathsOf(rows, k), usable))
  }

  /** _labelToEmpId after training: label i belongs to the i-th labelled employee. */
  function LabelMap(ls: seq<int>): map<int, int> {
    map i | 0 <= i < |ls| :: ls[i]
  }

  function TrainedLabels(rows: seq<FaceRow>, usable: set<string>): seq<int> {
    Labelled(GroupKeys(rows), rows, usable)
  }

  /** _labelToEmpId after TrainModel on `rows`: untouched when there are no rows. */
  function RetrainedLabelMap(previous: map<int, int>, rows: seq<FaceRow>, usable: set<string>): map<int, int> {
    if |rows| == 0 then previous else LabelMap(TrainedLabels(rows, usable))
  }

  function TrainedInstances(rows: seq<FaceRow>, usable: set<string>): seq<int> {
    InstanceLabels(GroupKeys(rows), rows, usable)
  }

  lemma {:induction false} LabelledSpec(keys: seq<int>, rows: seq<FaceRow>, usable: set<string>)
    requires Distinct(keys)
    ensures Distinct(Labelled(keys, rows, usable))
    ensures forall k :: k in Labelled(keys, rows, usable) <==> k in keys && UsableCount(PathsOf(rows, k), usable) > 0
  {
    if keys != [] {
      var p := keys[..|keys| - 1];
      assert Distinct(p) by {
        forall i, j | 0 <= i < j < |p| ensures p[i] != p[j] { assert p[i] == keys[i] && p[j] == keys[j]; }
      }
      LabelledSpec(p, rows, usable);
      assert keys == p + [keys[|keys| - 1]];
      assert keys[|keys| - 1] !in p;
    }
  }

  /** Every instance label names a labelled employee. */
  lemma {:induction false} InstanceLabelsRange(keys: seq<int>, rows: seq<FaceRow>, usable: set<string>)
    ensures forall x :: x in InstanceLabels(keys, rows, usable) ==> 0 <= x < |Labelled(keys, rows, usable)|
  {
    if keys != [] {
      var p := keys[..|keys| - 1];
      var n := |Labelled(p, rows, usable)|;
      var c := 2 * UsableCount(PathsOf(rows, keys[|keys| - 1]), usable);
      InstanceLabelsRange(p, rows, usable);
      RepeatSpec(n, c);
      forall x | x in InstanceLabels(keys, rows, usable) ensures 0 <= x < |Labelled(keys, rows, usable)| {
        if x !in InstanceLabels(p, rows, usable) {
          assert x in multiset(Repeat(n, c));
        }
      }
    }
  }

  /** Label i occurs twice per usable image of the i-th labelled employee. */
  lemma {:induction false} InstanceLabelsCount(keys: seq<int>, rows: seq<FaceRow>, usable: set<string>)
    ensures forall i :: 0 <= i < |Labelled(keys, rows, usable)| ==>
              multiset(InstanceLabels(keys, rows, usable))[i] ==
                2 * UsableCount(PathsOf(rows, Labelled(keys, rows, usable)[i]), usable)
  {
    if keys != [] {
      var p := keys[..|keys| - 1];
      var k := keys[|keys| - 1];
      var lp := Labelled(p, rows, usable);
      var n := |lp|;
      var c := 2 * UsableCount(PathsOf(rows, k), usable);
      var ip := InstanceLabels(p, rows, usable);
      InstanceLabelsCount(p, rows, usable);
      InstanceLabelsRange(p, rows, usable);
      RepeatSpec(n, c);
      var l := Labelled(keys, rows, usable);
      assert multiset(InstanceLabels(keys, rows, usable)) == multiset(ip) + multiset(Repeat(n, c));
      forall i | 0 <= i < |l|
        ensures multiset(InstanceLabels(keys, rows, usable))[i] == 2 * UsableCount(PathsOf(rows, l[i]), usable)
      {
        if i == n {
          assert n !in ip;
          assert multiset(ip)[n] == 0;
          assert l[i] == k;
        } else {
          assert l[i] == lp[i];
        }
      }
    }
  }

  /** There is an even number of instances, and none exactly when nobody is labelled. */
  lemma {:induction false} InstanceLabelsLength(keys: seq<int>, rows: seq<FaceRow>, usable: set<string>)
    ensures |InstanceLabels(keys, rows, usable)| % 2 == 0
    ensures InstanceLabels(keys, rows, usable) == [] <==> Labelled(keys, rows, usable) == []
  {
    if keys != [] {
      var p := keys[..|keys| - 1];
      var n := |Labelled(p, rows, usable)|;
      var u := UsableCount(PathsOf(rows, keys[|keys| - 1]), usable);
      var ip := InstanceLabels(p, rows, usable);
      InstanceLabelsLength(p, rows, usable);
      RepeatSpec(n, 2 * u);
      assert |InstanceLabels(keys, rows, usable)| == |ip| + 2 * u;
      assert |ip| % 2 == 0;
    }
  }

  /** One more key extends the labelled keys and the instance labels at the end. */
  lemma TrainingStep(keys: seq<int>, g: int, rows: seq<FaceRow>, usable: set<string>)
    requires 0 <= g < |keys|
    ensures var c := UsableCount(PathsOf(rows, keys[g]), usable);
            && Labelled(keys[..g + 1], rows, usable) ==
                 Labelled(keys[..g], rows, usable) + (if c > 0 then [keys[g]] else [])
            && InstanceLabels(keys[..g + 1], rows, usable) ==
                 InstanceLabels(keys[..g], rows, usable) + Repeat(|Labelled(keys[..g], rows, usable)|, 2 * c)
  {
    assert keys[..g + 1][..g] == keys[..g];
  }

  /** Giving the next label to one more employee extends the label map by one entry. */
  lemma LabelMapSnoc(ls: seq<int>, k: int)
    ensures LabelMap(ls + [k]) == LabelMap(ls)[|ls| := k]
  {
  }

  /** The prefix-indexed count grows by the next path's contribution. */
  lemma UsableCountStep(ps: seq<string>, j: int, usable: set<string>)
    requires 0 <= j < |ps|
    ensures UsableCount(ps[..j + 1], usable) == UsableCount(ps[..j], usable) + (if ps[j] in usable then 1 else 0)
  {
    assert ps[..j + 1][..j] == ps[..j];
  }

  /** The training labels are dense (0..n-1) and distinct labels name distinct employees. */
  lemma TrainedLabelsInjective(rows: seq<FaceRow>, usable: set<string>)
    ensures forall l :: l in LabelMap(TrainedLabels(rows, usable)) <==> 0 <= l < |TrainedLabels(rows, usable)|
    ensures forall l1, l2 :: l1 in LabelMap(TrainedLabels(rows, usable)) && l2 in LabelMap(TrainedLabels(rows, usable)) && l1 != l2
              ==> LabelMap(TrainedLabels(rows, usable))[l1] != LabelMap(TrainedLabels(rows, usable))[l2]
  {
    GroupKeysSpec(rows);
    LabelledSpec(GroupKeys(rows), rows, usable);
  }

  /** An employee receives a label iff one of its images is usable. */
  lemma TrainedLabelledIff(rows: seq<FaceRow>, usable: set<string>)
    ensures forall k :: k in TrainedLabels(rows, usable) <==> HasUsableImage(rows, k, usable)
  {
    GroupKeysSpec(rows);
    LabelledSpec(GroupKeys(rows), rows, usable);
    forall k ensures k in TrainedLabels(rows, usable) <==> HasUsableImage(rows, k, usable) {
      GroupHasInstancesIff(rows, k, usable);
      if HasUsableImage(rows, k, usable) {
        var i :| 0 <= i < |rows| && rows[i].empId == k && rows[i].imgPath in usable;
        assert HasRowOf(rows, k);
      }
    }
  }

  /** Every instance carries a mapped label, and label i carries two instances (image and
      mirror) per usable image of its employee. */
  lemma TrainedInstancesPerLabel(rows: seq<FaceRow>, usable: set<string>)
    ensures forall x :: x in TrainedInstances(rows, usable) ==> x in LabelMap(TrainedLabels(rows, usable))
    ensures forall i :: 0 <= i < |TrainedLabels(rows, usable)| ==>
              multiset(TrainedInstances(rows, usable))[i] ==
                2 * UsableCount(PathsOf(rows, TrainedLabels(rows, usable)[i]), usable)
  {
    InstanceLabelsRange(GroupKeys(rows), rows, usable);
    InstanceLabelsCount(GroupKeys(rows), rows, usable);
  }

  /** Some row has a usable image. */
  predicate AnyUsable(rows: seq<FaceRow>, usable: set<string>) {
    exists i :: 0 <= i < |rows| && rows[i].imgPath in usable
  }

  /** Whether TrainModel on `rows` leaves _isModelTrained set: some row's image is usable
      (so there are at least two instances) and the Train call succeeds. */
  predicate TrainsModel(rows: seq<FaceRow>, usable: set<string>, trainSucceeds: bool) {
    AnyUsable(rows, usable) && trainSucceeds
  }

  /** The instance count is even, so "fewer than two instances" means "none", which
      happens exactly when no row has a usable image. */
  lemma TrainedInstancesEnough(rows: seq<FaceRow>, usable: set<string>)
    ensures |TrainedInstances(rows, usable)| % 2 == 0
    ensures |TrainedInstances(rows, usable)| < 2 <==> !AnyUsable(rows, usable)
  {
    InstanceLabelsLength(GroupKeys(rows), rows, usable);
    TrainedLabelledIff(rows, usable);
    var l := TrainedLabels(rows, usable);
    forall k | k in l ensures AnyUsable(rows, usable) {
      var i :| 0 <= i < |rows| && rows[i].empId == k && rows[i].imgPath in usable;
    }
    if l != [] {
      assert l[0] in l;
    }
    if AnyUsable(rows, usable) {
      var i :| 0 <= i < |rows| && rows[i].imgPath in usable;
      assert HasUsableImage(rows, rows[i].empId, usable);
      assert rows[i].empId in l;
    }
  }

  // ---------------------------------------------------------------- history

  /** Enqueue, then dequeue once if the queue is over capacity. */
  function PushHistory(h: seq<int>, id: int): seq<int> {
    var q := h + [id];
    if |q| > RecognitionHistorySize then q[1..] else q
  }

  /** isStable: the queue is full and every entry is the current id. */
  predicate IsStable(h: seq<int>, id: int) {
    |h| >= RecognitionHistorySize && forall i :: 0 <= i < |h| ==> h[i] == id
  }

  /** The queue never exceeds its capacity, keeps the newest id last, and with capacity 1
      every accepted match is stable. */
  lemma PushHistorySpec(h: seq<int>, id: int)
    requires |h| <= RecognitionHistorySize
    ensures |PushHistory(h, id)| <= RecognitionHistorySize
    ensures PushHistory(h, id)[|PushHistory(h, id)| - 1] == id
    ensures PushHistory(h, id) == [id]
    ensures IsStable(PushHistory(h, id), id)
  {
  }

  /** The acceptance test of RecognizeFace. */
  predicate Accepts(p: Prediction, labels: map<int, int>) {
    p.predictedLabel >= 0 && p.distance < UnknownThreshold && p.predictedLabel in labels
  }

  /** Math.Max(0, 100 - distance). */
  function Confidence(distance: real): real {
    if 100.0 - distance >= 0.0 then 100.0 - distance else 0.0
  }

  /** An accepted prediction has positive confidence, at most 100 for a non-negative LBPH
      distance, and equal to 100 - distance. */
  lemma AcceptedConfidence(p: Prediction, labels: map<int, int>)
    requires Accepts(p, labels)
    ensures 0.0 < Confidence(p.distance) && Confidence(p.distance) == 100.0 - p.distance
    ensures p.distance >= 0.0 ==> Confidence(p.distance) <= 100.0
  {
  }

  /** The distance RecognizeFace reports: the estimate written for the last box the
      distance gate examined, or the previous value when there was none. */
  function LastDistance(detected: seq<Rect>, previous: real): real {
    if detected == [] then previous else CalculateFaceDistanceInches(detected[|detected| - 1])
  }

  /** The reported distance need not belong to the chosen face: with a 100-pixel face
      first and a 50-pixel face last, the 100-pixel face (27.5 inches) is chosen and
      55 inches, outside the 5..35 window, is reported. */
  lemma ReportedDistanceIsLastBox()
    ensures var detected := [Rect(0, 0, 100, 100), Rect(200, 0, 50, 50)];
            OptimalDistanceFaces(detected) == [Rect(0, 0, 100, 100)] &&
            CalculateFaceDistanceInches(Rect(0, 0, 100, 100)) == 27.5 &&
            LastDistance(detected, 0.0) == 55.0 && !(55.0 <= MaxOptimalDistanceInches)
  {
    var detected := [Rect(0, 0, 100, 100), Rect(200, 0, 50, 50)];
    AtOptimalDistanceIff(detected[0]);
    AtOptimalDistanceIff(detected[1]);
    assert detected[1..] == [Rect(200, 0, 50, 50)];
    assert detected[1..][1..] == [];
    assert Filter(detected[1..], AtOptimalDistance) == [];
    assert Filter(detected, AtOptimalDistance) == [Rect(0, 0, 100, 100)];
    assert SortByAreaDescending([Rect(0, 0, 100, 100)]) == InsertByArea(Rect(0, 0, 100, 100), []);
  }

  // ---------------------------------------------------------------- captured files

  /** The four files CaptureMultipleFaces writes, in order: the normalised face, its mirror,
      a brightened and a darkened copy.  `folder` is _facesFolder, `stamp` the yyyyMMddHHmmss
      time stamp. */
  function VariantPaths(folder: string, empId: int, stamp: string): seq<string> {
    var prefix := folder + "\\emp_" + IntToString(empId) + "_" + stamp + "_";
    [prefix + "0.jpg", prefix + "flip.jpg", prefix + "bright.jpg", prefix + "dark.jpg"]
  }

  /** The four variant paths are pairwise different. */
  lemma VariantPathsDistinct(folder: string, empId: int, stamp: string)
    ensures forall i, j :: 0 <= i < j < 4 ==> VariantPaths(folder, empId, stamp)[i] != VariantPaths(folder, empId, stamp)[j]
  {
    var prefix := folder + "\\emp_" + IntToString(empId) + "_" + stamp + "_";
    var v := VariantPaths(folder, empId, stamp);
    var n := |prefix|;
    assert v[0][n] == '0' && v[1][n] == 'f' && v[2][n] == 'b' && v[3][n] == 'd';
  }

  // ---------------------------------------------------------------- the service

  class FaceRecognitionService {
    /** _labelToEmpId. */
    var labelToEmpId: map<int, int>
    /** _isModelTrained. */
    var isModelTrained: bool
    /** _recognitionHistory, oldest first. */
    var recognitionHistory: seq<int>
    /** _detectedFaceDistance. */
    var detectedFaceDistance: real
    /** How many times ModelRetrained has been raised. */
    var retrainedEvents: nat
    /** _facesFolder. */
    const facesFolder: string

    /** The history queue stays within its capacity. */
    predicate Valid()
      reads this
    {
      |recognitionHistory| <= RecognitionHistorySize
    }

    constructor (facesFolder: string)
      ensures Valid()
      ensures this.facesFolder == facesFolder
      ensures labelToEmpId == map[] && !isModelTrained && recognitionHistory == []
      ensures detectedFaceDistance == 0.0 && retrainedEvents == 0
    {
      this.facesFolder := facesFolder;
      labelToEmpId := map[];
      isModelTrained := false;
      recognitionHistory := [];
      detectedFaceDistance := 0.0;
      retrainedEvents := 0;
    }

    /** TrainedEmployeeCount. */
    function TrainedEmployeeCount(): nat
      reads this
    {
      |labelToEmpId|
    }

    /** The loop of TrainModel over the employees in first-appearance order: each employee
        with a usable image gets the next label, and its images (with mirrors) join the
        training set. */
    static method BuildLabels(rows: seq<FaceRow>, usable: set<string>) returns (labels: seq<int>, labelMap: map<int, int>)
      ensures labels == TrainedInstances(rows, usable)
      ensures labelMap == LabelMap(TrainedLabels(rows, usable))
    {
      labels := [];
      labelMap := map[];
      var keys := GroupKeys(rows);
      var labelIndex := 0;
      ghost var labelled: seq<int> := [];
      var g := 0;
      while g < |keys|
        invariant 0 <= g <= |keys|
        invariant labelled == Labelled(keys[..g], rows, usable)
        invariant labelIndex == |labelled|
        invariant labels == InstanceLabels(keys[..g], rows, usable)
        invariant labelMap == LabelMap(labelled)
      {
        var empId := keys[g];
        var group := PathsOf(rows, empId);
        var imagesForEmployee;
        labels, imagesForEmployee := AddGroupInstances(labels, labelIndex, group, usable);
        TrainingStep(keys, g, rows, usable);
        if imagesForEmployee > 0 {
          LabelMapSnoc(labelled, empId);
          labelMap := labelMap[labelIndex := empId];
          labelIndex := labelIndex + 1;
          labelled := labelled + [empId];
        }
        g := g + 1;
      }
      assert keys[..g] == keys;
    }

    /** The inner loop of TrainModel over one employee's rows: each usable image adds its
        label twice (the image and its mirror). */
    static method AddGroupInstances(labels: seq<int>, labelIndex: int, group: seq<string>, usable: set<string>)
      returns (labels': seq<int>, imagesForEmployee: nat)
      ensures imagesForEmployee == 2 * UsableCount(group, usable)
      ensures labels' == labels + Repeat(labelIndex, imagesForEmployee)
    {
      labels' := labels;
      imagesForEmployee := 0;
      var j := 0;
      while j < |group|
        invariant 0 <= j <= |group|
        invariant imagesForEmployee == 2 * UsableCount(group[..j], usable)
        invariant labels' == labels + Repeat(labelIndex, imagesForEmployee)
      {
        UsableCountStep(group, j, usable);
        if group[j] in usable {
          RepeatSnoc2(labelIndex, imagesForEmployee);
          labels' := labels' + [labelIndex];
          imagesForEmployee := imagesForEmployee + 1;
          labels' := labels' + [labelIndex];
          imagesForEmployee := imagesForEmployee + 1;
        }
        j := j + 1;
      }
      assert group[..j] == group;
    }

    /** TrainModel: groups the rows by employee, gives each employee with a usable image the
        next label, collects two instances per usable image, and trains when there are at
        least two instances.  Zero rows leave the previous label map in place.  The labels
        vector handed to Train is returned as `labels`. */
    method TrainModel(rows: seq<FaceRow>, usable: set<string>, trainSucceeds: bool) returns (labels: seq<int>)
      requires Valid()
      modifies this`labelToEmpId, this`isModelTrained, this`retrainedEvents
      ensures Valid()
      ensures |rows| == 0 ==> !isModelTrained && labels == [] && labelToEmpId == old(labelToEmpId)
                              && retrainedEvents == old(retrainedEvents)
      ensures labelToEmpId == RetrainedLabelMap(old(labelToEmpId), rows, usable)
      ensures |rows| > 0 ==> labels == TrainedInstances(rows, usable)
                             && labelToEmpId == LabelMap(TrainedLabels(rows, usable))
                             && isModelTrained == (|labels| >= 2 && trainSucceeds)
                             && retrainedEvents == old(retrainedEvents) + (if isModelTrained then 1 else 0)
      ensures isModelTrained == TrainsModel(rows, usable, trainSucceeds)
    {
      TrainedInstancesEnough(rows, usable);
      if |rows| == 0 {
        isModelTrained := false;
        return [];
      }
      labels, labelToEmpId := BuildLabels(rows, usable);
      if |labels| < 2 {
        isModelTrained := false;
        return;
      }
      if trainSucceeds {
        isModelTrained := true;
        retrainedEvents := retrainedEvents + 1;
      } else {
        isModelTrained := false;
      }
    }

    /** IsFaceAtOptimalDistance: the distance test, which also records the estimate. */
    method IsFaceAtOptimalDistance(face: Rect) returns (isOptimal: bool)
      modifies this`detectedFaceDistance
      ensures isOptimal == AtOptimalDistance(face) && isOptimal == (79 <= face.width <= 550)
      ensures detectedFaceDistance == CalculateFaceDistanceInches(face)
    {
      AtOptimalDistanceIff(face);
      var distance := CalculateFaceDistanceInches(face);
      detectedFaceDistance := distance;
      isOptimal := MinOptimalDistanceInches <= distance <= MaxOptimalDistanceInches;
    }

    /** DetectFacesAtOptimalDistance over the boxes DetectFaces found: every box is examined
        in detector order, the passing ones are ordered largest first. */
    method DetectFacesAtOptimalDistance(detected: seq<Rect>) returns (faces: seq<Rect>)
      modifies this`detectedFaceDistance
      ensures faces == OptimalDistanceFaces(detected)
      ensures detectedFaceDistance == LastDistance(detected, old(detectedFaceDistance))
    {
      var kept: seq<Rect> := [];
      var i := 0;
      while i < |detected|
        invariant 0 <= i <= |detected|
        invariant kept == Filter(detected[..i], AtOptimalDistance)
        invariant detectedFaceDistance == LastDistance(detected[..i], old(detectedFaceDistance))
      {
        var ok := IsFaceAtOptimalDistance(detected[i]);
        FilterSnoc(detected[..i], detected[i], AtOptimalDistance);
        assert detected[..i + 1] == detected[..i] + [detected[i]];
        if ok {
          kept := kept + [detected[i]];
        }
        i := i + 1;
      }
      assert detected[..i] == detected;
      faces := SortByAreaDescending(kept);
    }

    /** RecognizeFace: null when untrained (history kept), when no box is at optimal distance
        (history cleared), when the crop does not normalise (history kept) or when the
        prediction is rejected (history cleared); otherwise the mapped employee with
        confidence max(0, 100 - distance), the stability of the updated history and the
        last recorded distance. */
    method RecognizeFace(detected: seq<Rect>, normalizes: bool, prediction: Prediction)
      returns (result: Option<Recognition>)
      requires Valid()
      modifies this`recognitionHistory, this`detectedFaceDistance
      ensures Valid()
      ensures labelToEmpId == old(labelToEmpId) && isModelTrained == old(isModelTrained)
      ensures retrainedEvents == old(retrainedEvents)
      ensures !old(isModelTrained) ==>
                result == None && recognitionHistory == old(recognitionHistory)
                && detectedFaceDistance == old(detectedFaceDistance)
      ensures old(isModelTrained) ==> detectedFaceDistance == LastDistance(detected, old(detectedFaceDistance))
      ensures old(isModelTrained) && OptimalDistanceFaces(detected) == [] ==>
                result == None && recognitionHistory == []
      ensures old(isModelTrained) && OptimalDistanceFaces(detected) != [] && !normalizes ==>
                result == None && recognitionHistory == old(recognitionHistory)
      ensures old(isModelTrained) && OptimalDistanceFaces(detected) != [] && normalizes ==>
                (result.Some? <==> Accepts(prediction, labelToEmpId))
      ensures (old(isModelTrained) && OptimalDistanceFaces(detected) != [] && normalizes
               && !Accepts(prediction, labelToEmpId)) ==> recognitionHistory == []
      ensures result.Some? ==>
                var empId := labelToEmpId[prediction.predictedLabel];
                recognitionHistory == PushHistory(old(recognitionHistory), empId)
                && result.value == Recognition(empId, Confidence(prediction.distance),
                                               IsStable(recognitionHistory, empId), detectedFaceDistance)
    {
      if !isModelTrained {
        return None;
      }
      var optimalFaces := DetectFacesAtOptimalDistance(detected);
      if |optimalFaces| == 0 {
        recognitionHistory := [];
        return None;
      }
      if !normalizes {
        return None;
      }
      if prediction.predictedLabel >= 0 && prediction.distance < UnknownThreshold {
        if prediction.predictedLabel in labelToEmpId {
          var empId := labelToEmpId[prediction.predictedLabel];
          var confidence := Confidence(prediction.distance);
          PushHistorySpec(recognitionHistory, empId);
          recognitionHistory := recognitionHistory + [empId];
          if |recognitionHistory| > RecognitionHistorySize {
            recognitionHistory := recognitionHistory[1..];
          }
          var isStable := |recognitionHistory| >= RecognitionHistorySize
                          && forall i :: 0 <= i < |recognitionHistory| ==> recognitionHistory[i] == empId;
          return Some(Recognition(empId, confidence, isStable, detectedFaceDistance));
        }
      }
      recognitionHistory := [];
      return None;
    }

    /** ClearRecognitionHistory. */
    method ClearRecognitionHistory()
      requires Valid()
      modifies this`recognitionHistory
      ensures Valid() && recognitionHistory == []
    {
      recognitionHistory := [];
    }

    /** CaptureMultipleFaces over the boxes DetectFaces found in a frame of the given size:
        nothing without a close-enough face or when the crop does not normalise; otherwise
        the variant files in order, as many as were saved before a save failed
        (`savesBeforeError`).  The requested `count` does not influence the result. */
    method CaptureMultipleFaces(detected: seq<Rect>, frameWidth: int, frameHeight: int, empId: int,
                                count: int, normalizes: bool, stamp: string, savesBeforeError: nat)
      returns (savedPaths: seq<string>)
      ensures FirstCloseEnough(SortByAreaDescending(detected), frameWidth, frameHeight).None? || !normalizes ==>
                savedPaths == []
      ensures FirstCloseEnough(SortByAreaDescending(detected), frameWidth, frameHeight).Some? && normalizes ==>
                savedPaths == VariantPaths(facesFolder, empId, stamp)[..Min(4, savesBeforeError)]
      ensures |savedPaths| <= 4
    {
      savedPaths := [];
      if |detected| == 0 {
        return;
      }
      var closestFace := GetClosestFace(detected, frameWidth, frameHeight);
      if closestFace.None? {
        return;
      }
      if normalizes {
        var variants := VariantPaths(facesFolder, empId, stamp);
        // Each save either succeeds and is recorded, or throws and ends the capture.
        if savesBeforeError == 0 { return; }
        savedPaths := savedPaths + [variants[0]];
        if savesBeforeError == 1 { return; }
        savedPaths := savedPaths + [variants[1]];
        if savesBeforeError == 2 { return; }
        savedPaths := savedPaths + [variants[2]];
        if savesBeforeError == 3 { return; }
        savedPaths := savedPaths + [variants[3]];
      }
    }

    /** CaptureFace: the first path CaptureMultipleFaces saved, or null. */
    method CaptureFace(detected: seq<Rect>, frameWidth: int, frameHeight: int, empId: int,
                       normalizes: bool, stamp: string, savesBeforeError: nat)
      returns (path: Option<string>)
      ensures path.Some? <==> savesBeforeError > 0 && normalizes
                              && FirstCloseEnough(SortByAreaDescending(detected), frameWidth, frameHeight).Some?
      ensures path.Some? ==> path.value == VariantPaths(facesFolder, empId, stamp)[0]
    {
      var paths := CaptureMultipleFaces(detected, frameWidth, frameHeight, empId, 1, normalizes, stamp, savesBeforeError);
      path := if |paths| == 0 then None else Some(paths[0]);
    }
  }
}
