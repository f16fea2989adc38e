/**
 * Opening a camera: both camera screens try the DirectShow device indices
 * 0, 1, 2, 3, 4 in turn and keep the first one that opens.  Whether device i
 * opens (its VideoCapture constructor neither throws nor reports "not opened")
 * is an input: `openable` is the set of indices that open.
 */
module CameraDevices {
  import opened Common

  /** Number of device indices tried. */
  const DeviceCount: int := 5

  /** The index loop of StartCamera: the lowest index in 0..4 that opens, or None. */
  method OpenFirstCamera(openable: set<int>) returns (device: Option<int>)
    ensures device.Some? ==> 0 <= device.value < DeviceCount && device.value in openable
    ensures device.Some? ==> forall j :: 0 <= j < device.value ==> j !in openable
    ensures device.None? <==> forall j :: 0 <= j < DeviceCount ==> j !in openable
  {
    device := None;
    var i := 0;
    while i < DeviceCount
      invariant 0 <= i <= DeviceCount
      invariant forall j :: 0 <= j < i ==> j !in openable
    {
      if i in openable {
        device := Some(i);
        return;
      }
      i := i + 1;
    }
  }
}
