/**
 * The integer geometry of FaceRecognitionService: bounding boxes, the
 * pinhole distance estimate, the two proximity gates, the stable
 * largest-first ordering of boxes (LINQ OrderByDescending on area) and the
 * searches built on them.  Distances are exact reals; IEEE double rounding
 * is not modelled.
 */
module FaceGeometry {
  import opened Common

  /** System.Drawing.Rectangle. */
  datatype Rect = Rect(x: int, y: int, width: int, height: int)

  /** A camera frame as the detector sees it: its size and whether it is empty. */
  datatype Frame = Frame(width: int, height: int, isEmpty: bool)

  function Area(r: Rect): int {
    r.width * r.height
  }

  const AverageFaceWidthInches: real := 5.5
  const CameraFocalLength: real := 500.0
  /** double.MaxValue, returned for a box without width. */
  const DoubleMaxValue: real := 1.7976931348623157e308
  const MinOptimalDistanceInches: real := 5.0
  const MaxOptimalDistanceInches: real := 35.0
  const MinFaceSizeForRecognition: int := 60
  const MinFaceSizeForDetection: int := 40
  const MaxFaceSize: int := 800
  const MinFaceAreaRatio: real := 0.008

  // ---------------------------------------------------------------- distance

  /** CalculateFaceDistanceInches: width × distance is the constant 5.5 × 500, so the
      estimate is the distance a face of average width would have. */
  function CalculateFaceDistanceInches(face: Rect): (d: real)
    ensures face.width <= 0 ==> d == DoubleMaxValue
    ensures face.width > 0 ==> d > 0.0 && d * face.width as real == AverageFaceWidthInches * CameraFocalLength
  {
    if face.width <= 0 then DoubleMaxValue
    else (AverageFaceWidthInches * CameraFocalLength) / face.width as real
  }

  /** The estimator inverts the pinhole relation: a box whose width makes the
      relation hold for a distance D yields exactly D. */
  lemma DistanceInvertible(face: Rect, d: real)
    requires face.width > 0 && d * face.width as real == AverageFaceWidthInches * CameraFocalLength
    ensures CalculateFaceDistanceInches(face) == d
  {
    var w := face.width as real;
    var e := CalculateFaceDistanceInches(face);
    assert (e - d) * w == 0.0;
  }

  /** The test of IsFaceAtOptimalDistance (its write of the last distance lives in
      FaceRecognition.FaceRecognitionService). */
  predicate AtOptimalDistance(face: Rect) {
    var d := CalculateFaceDistanceInches(face);
    MinOptimalDistanceInches <= d <= MaxOptimalDistanceInches
  }

  /** The 5..35 inch window is the width window 79..550 pixels. */
  lemma {:induction false} AtOptimalDistanceIff(face: Rect)
    ensures AtOptimalDistance(face) <==> 79 <= face.width <= 550
  {
    var d := CalculateFaceDistanceInches(face);
    if face.width > 0 {
      var w := face.width as real;
      assert d * w == 2750.0;
      if 79 <= face.width <= 550 {
        assert d * w <= 35.0 * w by { assert 2750.0 <= 35.0 * w; }
        assert d * w >= 5.0 * w by { assert 2750.0 >= 5.0 * w; }
      } else if face.width < 79 {
        assert 35.0 * w < 2750.0 by { assert w <= 78.0; }
        assert d > 35.0;
      } else {
        assert 5.0 * w > 2750.0 by { assert w >= 551.0; }
        assert d < 5.0;
      }
    }
  }

  // ---------------------------------------------------------------- size and area

  /** IsFaceCloseEnough: both sides at least 60 pixels and the box covers at least 0.008
      of the frame (a frame of area 0 gives an infinite ratio, which passes). */
  predicate IsFaceCloseEnough(face: Rect, frameWidth: int, frameHeight: int) {
    if face.width < MinFaceSizeForRecognition || face.height < MinFaceSizeForRecognition then false
    else
      var frameArea := frameWidth * frameHeight;
      frameArea == 0 || (Area(face) as real) / (frameArea as real) >= MinFaceAreaRatio
  }

  /** For a frame of positive area the gate is integer arithmetic: 125 × face area ≥ frame area. */
  lemma CloseEnoughIff(face: Rect, frameWidth: int, frameHeight: int)
    requires frameWidth * frameHeight > 0
    ensures IsFaceCloseEnough(face, frameWidth, frameHeight) <==>
              face.width >= 60 && face.height >= 60 && 125 * Area(face) >= frameWidth * frameHeight
  {
    var fa := (frameWidth * frameHeight) as real;
    var ratio := (Area(face) as real) / fa;
    assert ratio * fa == Area(face) as real;
    if ratio >= MinFaceAreaRatio {
      assert ratio * fa >= 0.008 * fa;
    } else {
      assert ratio * fa < 0.008 * fa;
    }
  }

  // ---------------------------------------------------------------- ordering

  /** s is in non-increasing order of area. */
  predicate AreaNonIncreasing(s: seq<Rect>) {
    forall i, j :: 0 <= i < j < |s| ==> Area(s[i]) >= Area(s[j])
  }

  /** The boxes of s with area a, in the order of s. */
  function WithArea(s: seq<Rect>, a: int): seq<Rect> {
    if s == [] then [] else (if Area(s[0]) == a then [s[0]] else []) + WithArea(s[1..], a)
  }

  /** Places r before the first box that is not larger. */
  function InsertByArea(r: Rect, s: seq<Rect>): seq<Rect> {
    if s == [] || Area(s[0]) <= Area(r) then [r] + s else [s[0]] + InsertByArea(r, s[1..])
  }

  /** OrderByDescending(f => f.Width * f.Height): a stable sort, largest area first. */
  function SortByAreaDescending(faces: seq<Rect>): seq<Rect> {
    if faces == [] then [] else InsertByArea(faces[0], SortByAreaDescending(faces[1..]))
  }

  lemma {:induction false} InsertByAreaMultiset(r: Rect, s: seq<Rect>)
    ensures multiset(InsertByArea(r, s)) == multiset(s) + multiset{r}
  {
    if s != [] && Area(s[0]) > Area(r) {
      InsertByAreaMultiset(r, s[1..]);
      assert s == [s[0]] + s[1..];
    }
  }

  lemma {:induction false} InsertByAreaWithArea(r: Rect, s: seq<Rect>, a: int)
    requires AreaNonIncreasing(s)
    ensures WithArea(InsertByArea(r, s), a) == (if Area(r) == a then [r] else []) + WithArea(s, a)
  {
    var t := InsertByArea(r, s);
    if s == [] || Area(s[0]) <= Area(r) {
      assert t[1..] == s;
    } else {
      InsertByAreaWithArea(r, s[1..], a);
      assert t[1..] == InsertByArea(r, s[1..]);
      if Area(r) == a {
        assert Area(s[0]) != a;
      }
    }
  }

  lemma {:induction false} InsertByAreaSorted(r: Rect, s: seq<Rect>)
    requires AreaNonIncreasing(s)
    ensures AreaNonIncreasing(InsertByArea(r, s))
  {
    var t := InsertByArea(r, s);
    if s == [] || Area(s[0]) <= Area(r) {
      assert t[1..] == s;
    } else {
      var u := InsertByArea(r, s[1..]);
      InsertByAreaSorted(r, s[1..]);
      InsertByAreaMultiset(r, s[1..]);
      assert t[1..] == u;
      forall j | 0 < j < |t| ensures Area(t[0]) >= Area(t[j]) {
        assert t[j] == u[j - 1];
        assert t[j] in multiset(u);
        if t[j] != r {
          assert t[j] in multiset(s[1..]);
          var k :| 0 <= k < |s[1..]| && s[1..][k] == t[j];
          assert s[k + 1] == t[j];
        }
      }
    }
  }

  /** The ordering is sorted, a permutation, and keeps boxes of equal area in input order. */
  lemma {:induction false} SortByAreaDescendingCorrect(faces: seq<Rect>)
    ensures AreaNonIncreasing(SortByAreaDescending(faces))
    ensures multiset(SortByAreaDescending(faces)) == multiset(faces)
    ensures forall a :: WithArea(SortByAreaDescending(faces), a) == WithArea(faces, a)
  {
    if faces != [] {
      var rest := SortByAreaDescending(faces[1..]);
      SortByAreaDescendingCorrect(faces[1..]);
      InsertByAreaSorted(faces[0], rest);
      InsertByAreaMultiset(faces[0], rest);
      forall a ensures WithArea(SortByAreaDescending(faces), a) == WithArea(faces, a) {
        InsertByAreaWithArea(faces[0], rest, a);
      }
      assert faces == [faces[0]] + faces[1..];
    }
  }

  // ---------------------------------------------------------------- LINQ filters

  /** DetectFaces, with the cascade detector as an input: it is asked for boxes between
      minSize = 40 and maxSize = min(800, max(frame width, frame height)) pixels; an empty
      frame or an empty size range gives no boxes. */
  function DetectFaces(frame: Frame, detector: (int, int) -> seq<Rect>): (faces: seq<Rect>)
    ensures frame.isEmpty || Max(frame.width, frame.height) <= MinFaceSizeForDetection ==> faces == []
    ensures !frame.isEmpty && Max(frame.width, frame.height) > MinFaceSizeForDetection ==>
              faces == detector(40, if Max(frame.width, frame.height) < 800 then Max(frame.width, frame.height) else 800)
  {
    var minSize := Max(MinFaceSizeForDetection, 20);
    var maxSize := Min(MaxFaceSize, Max(frame.width, frame.height));
    if frame.isEmpty || minSize >= maxSize then [] else detector(minSize, maxSize)
  }

  /** DetectCloseFaces: the close-enough boxes, largest first. */
  function DetectCloseFaces(detected: seq<Rect>, frameWidth: int, frameHeight: int): seq<Rect> {
    SortByAreaDescending(Filter(detected, f => IsFaceCloseEnough(f, frameWidth, frameHeight)))
  }

  /** The boxes DetectFacesAtOptimalDistance returns: those at optimal distance, largest first. */
  function OptimalDistanceFaces(detected: seq<Rect>): seq<Rect> {
    SortByAreaDescending(Filter(detected, AtOptimalDistance))
  }

  /** A gated, ordered detection result: every box passes the gate, the result holds
      exactly the passing boxes with their multiplicities, largest first, ties in
      detector order. */
  ghost predicate GatedAndOrdered(detected: seq<Rect>, p: Rect -> bool, r: seq<Rect>) {
    && (forall i :: 0 <= i < |r| ==> p(r[i]))
    && multiset(r) == multiset(Filter(detected, p))
    && AreaNonIncreasing(r)
    && (forall a :: WithArea(r, a) == WithArea(Filter(detected, p), a))
  }

  lemma DetectCloseFacesCorrect(detected: seq<Rect>, frameWidth: int, frameHeight: int)
    ensures GatedAndOrdered(detected, f => IsFaceCloseEnough(f, frameWidth, frameHeight),
                            DetectCloseFaces(detected, frameWidth, frameHeight))
  {
    var p := f => IsFaceCloseEnough(f, frameWidth, frameHeight);
    var g := Filter(detected, p);
    FilterMembers(detected, p);
    SortByAreaDescendingCorrect(g);
    var r := SortByAreaDescending(g);
    forall i | 0 <= i < |r| ensures p(r[i]) {
      assert r[i] in multiset(g);
    }
  }

  lemma OptimalDistanceFacesCorrect(detected: seq<Rect>)
    ensures GatedAndOrdered(detected, AtOptimalDistance, OptimalDistanceFaces(detected))
    ensures forall i :: 0 <= i < |OptimalDistanceFaces(detected)| ==>
              79 <= OptimalDistanceFaces(detected)[i].width <= 550
  {
    var g := Filter(detected, AtOptimalDistance);
    FilterMembers(detected, AtOptimalDistance);
    SortByAreaDescendingCorrect(g);
    var r := SortByAreaDescending(g);
    forall i | 0 <= i < |r| ensures AtOptimalDistance(r[i]) && 79 <= r[i].width <= 550 {
      assert r[i] in multiset(g);
      AtOptimalDistanceIff(r[i]);
    }
  }

  // ---------------------------------------------------------------- closest face

  /** The first box of an ordered list that passes the close-enough gate. */
  function FirstCloseEnough(sorted: seq<Rect>, frameWidth: int, frameHeight: int): Option<Rect> {
    if sorted == [] then None
    else if IsFaceCloseEnough(sorted[0], frameWidth, frameHeight) then Some(sorted[0])
    else FirstCloseEnough(sorted[1..], frameWidth, frameHeight)
  }

  /** The first passing box is a passing box, and every box before it fails. */
  lemma {:induction false} FirstCloseEnoughSpec(sorted: seq<Rect>, frameWidth: int, frameHeight: int)
    ensures FirstCloseEnough(sorted, frameWidth, frameHeight).None? <==>
              forall j :: 0 <= j < |sorted| ==> !IsFaceCloseEnough(sorted[j], frameWidth, frameHeight)
    ensures FirstCloseEnough(sorted, frameWidth, frameHeight).Some? ==>
              exists k :: 0 <= k < |sorted| && sorted[k] == FirstCloseEnough(sorted, frameWidth, frameHeight).value
                && IsFaceCloseEnough(sorted[k], frameWidth, frameHeight)
                && forall j :: 0 <= j < k ==> !IsFaceCloseEnough(sorted[j], frameWidth, frameHeight)
  {
    if sorted != [] && !IsFaceCloseEnough(sorted[0], frameWidth, frameHeight) {
      var rest := sorted[1..];
      FirstCloseEnoughSpec(rest, frameWidth, frameHeight);
      if FirstCloseEnough(rest, frameWidth, frameHeight).Some? {
        var k :| 0 <= k < |rest| && rest[k] == FirstCloseEnough(rest, frameWidth, frameHeight).value
                 && IsFaceCloseEnough(rest[k], frameWidth, frameHeight)
                 && forall j :: 0 <= j < k ==> !IsFaceCloseEnough(rest[j], frameWidth, frameHeight);
        assert sorted[k + 1] == rest[k];
        forall j | 0 <= j < k + 1 ensures !IsFaceCloseEnough(sorted[j], frameWidth, frameHeight) {
          if j > 0 { assert sorted[j] == rest[j - 1]; }
        }
      } else {
        forall j | 0 <= j < |sorted| ensures !IsFaceCloseEnough(sorted[j], frameWidth, frameHeight) {
          if j > 0 { assert sorted[j] == rest[j - 1]; }
        }
      }
    }
  }

  /** GetClosestFace: walks the boxes largest first and returns the first that is close
      enough; null for no boxes or when none passes. */
  method GetClosestFace(faces: seq<Rect>, frameWidth: int, frameHeight: int) returns (closest: Option<Rect>)
    ensures closest == FirstCloseEnough(SortByAreaDescending(faces), frameWidth, frameHeight)
    ensures closest.None? <==> forall f :: f in faces ==> !IsFaceCloseEnough(f, frameWidth, frameHeight)
    ensures closest.Some? ==> closest.value in faces && IsFaceCloseEnough(closest.value, frameWidth, frameHeight)
    ensures closest.Some? ==>
              var sorted := SortByAreaDescending(faces);
              exists k :: 0 <= k < |sorted| && sorted[k] == closest.value
                && forall j :: 0 <= j < k ==> !IsFaceCloseEnough(sorted[j], frameWidth, frameHeight)
  {
    if |faces| == 0 {
      return None;
    }
    var sorted := SortByAreaDescending(faces);
    SortByAreaDescendingCorrect(faces);
    FirstCloseEnoughSpec(sorted, frameWidth, frameHeight);
    var i := 0;
    while i < |sorted|
      invariant 0 <= i <= |sorted|
      invariant forall j :: 0 <= j < i ==> !IsFaceCloseEnough(sorted[j], frameWidth, frameHeight)
      invariant FirstCloseEnough(sorted, frameWidth, frameHeight) == FirstCloseEnough(sorted[i..], frameWidth, frameHeight)
    {
      if IsFaceCloseEnough(sorted[i], frameWidth, frameHeight) {
        assert sorted[i] in multiset(faces);
        return Some(sorted[i]);
      }
      assert sorted[i..][1..] == sorted[i + 1..];
      i := i + 1;
    }
    forall f | f in faces ensures !IsFaceCloseEnough(f, frameWidth, frameHeight) {
      assert f in multiset(sorted);
    }
    return None;
  }
}
