/** FisheyeCamera: pulls frames from a capture device, undistorts them with remap
    tables computed once at construction, and hands them out in RGB order, either at
    the capture size or letterboxed into a 640 x 640 square. */
module Camera {
  import opened Images
  import opened OpenCv
  import opened Letterbox

  /** A frame or nothing; None stands for the null shared_ptr. */
  datatype Option<T> = None | Some(value: T)

  /** The resolution the device is configured for and the remap tables are built for:
      1920 columns by 1080 rows. */
  const CaptureSize := Size(1920, 1080)

  /** The empty matrix `capture_ >> frame` leaves behind when no frame is available. */
  const NoFrame: Mat := Image(0, 0, [])

  /** The frame the next read delivers: the head of the stream, or an empty matrix when
      the stream is exhausted. A frame in the stream may itself be empty (a read that
      failed). */
  function NextFrame(stream: seq<Mat>): (frame: Mat)
    ensures stream == [] ==> frame.Empty()
    ensures stream != [] ==> frame == stream[0]
  {
    if stream == [] then NoFrame else stream[0]
  }

  /** What is left of the stream after one read. */
  function AfterRead(stream: seq<Mat>): (rest: seq<Mat>)
    ensures |rest| == if stream == [] then 0 else |stream| - 1
    ensures forall i :: 0 <= i < |rest| ==> rest[i] == stream[i + 1]
  {
    if stream == [] then [] else stream[1..]
  }

  /** The result of GetRgbFrame() for a captured frame: nothing for an empty frame,
      otherwise the undistorted frame at the size of the remap tables, in RGB order. */
  function UndistortedRgb(frame: Mat, maps: RemapTables, cv: Interpolation): (out: Option<Mat>)
    requires maps.WellFormed()
    ensures out.None? <==> frame.Empty()
    ensures out.Some? ==> out.value.rows == maps.size.height && out.value.cols == maps.size.width
    ensures out.Some? ==> forall r, c :: 0 <= r < maps.size.height && 0 <= c < maps.size.width ==>
      out.value.data[r][c] == BgrToRgb(cv.remap(frame, maps.map1[r][c], maps.map2[r][c]))
  {
    if frame.Empty() then None
    else Some(CvtColorBgrToRgb(Remap(frame, maps, cv.remap)))
  }

  /** The result of GetRgbFrame(int&&) for a captured frame: nothing for an empty frame,
      otherwise the undistorted frame letterboxed into a 640 x 640 square, in RGB order. */
  function LetterboxedRgb(frame: Mat, maps: RemapTables, cv: Interpolation): (out: Option<Mat>)
    requires maps.WellFormed() && maps.size == CaptureSize
    ensures out.None? <==> frame.Empty()
    ensures out.Some? ==> out.value.rows == DesiredSize && out.value.cols == DesiredSize
  {
    if frame.Empty() then None
    else
      CaptureFrameGeometry();
      Some(CvtColorBgrToRgb(LetterboxSquare(Remap(frame, maps, cv.remap), cv)))
  }

  /** After the colour conversion the padding is still black, and every pixel of the
      pasted rectangle is the resized image's pixel with its channels swapped. */
  lemma LetterboxedPixels(undistorted: Mat, cv: Interpolation)
    requires Letterboxable(undistorted)
    ensures var g := LetterboxGeometry(undistorted.rows, undistorted.cols, DesiredSize);
      var out := CvtColorBgrToRgb(LetterboxSquare(undistorted, cv));
      forall r, c :: 0 <= r < DesiredSize && 0 <= c < DesiredSize ==>
        out.data[r][c] == if InRect(r, c, g.xOffset, g.yOffset, g.newWidth, g.newHeight)
                          then BgrToRgb(cv.resize(undistorted, Size(g.newWidth, g.newHeight), r - g.yOffset, c - g.xOffset))
                          else Black
  {
    var g := LetterboxGeometry(undistorted.rows, undistorted.cols, DesiredSize);
    var square := LetterboxSquare(undistorted, cv);
    var out := CvtColorBgrToRgb(square);
    forall r, c | 0 <= r < DesiredSize && 0 <= c < DesiredSize
      ensures out.data[r][c] == BgrToRgb(square.data[r][c])
    {
    }
    BgrToRgbInvolutive(Black);
  }

  /** For a captured frame the letterboxed result has 140 black rows above and below a
      640 x 360 band holding the resized undistorted frame. */
  lemma {:induction false} CaptureFrameLetterbox(frame: Mat, maps: RemapTables, cv: Interpolation)
    requires maps.WellFormed() && maps.size == CaptureSize
    requires !frame.Empty()
    ensures var out := LetterboxedRgb(frame, maps, cv);
      var undistorted := Remap(frame, maps, cv.remap);
      out.Some? &&
      forall r, c :: 0 <= r < 640 && 0 <= c < 640 ==>
        out.value.data[r][c] == if 140 <= r < 500
                                then BgrToRgb(cv.resize(undistorted, Size(640, 360), r - 140, c))
                                else Black
  {
    var undistorted := Remap(frame, maps, cv.remap);
    CaptureFrameGeometry();
    LetterboxedPixels(undistorted, cv);
  }

  class FisheyeCamera {
    /** size_: the capture resolution. */
    const size: Size
    /** map1_ and map2_, computed once by the constructor and never changed. */
    const maps: RemapTables
    /** The frames the capture device will still deliver, in order. */
    var stream: seq<Mat>

    /** The remap tables have the capture size. */
    predicate Valid()
    {
      size == CaptureSize && maps.size == size && maps.WellFormed()
    }

    /** Opens the device and builds the remap tables for `size_` from the lens model. */
    constructor (frames: seq<Mat>, lens: (nat, nat) -> (real, real))
      ensures Valid()
      ensures maps == InitUndistortRectifyMap(CaptureSize, lens)
      ensures stream == frames
    {
      size := CaptureSize;
      maps := InitUndistortRectifyMap(CaptureSize, lens);
      stream := frames;
    }

    /** capture_ >> frame: takes the next frame off the device. */
    method Read() returns (frame: Mat)
      modifies this`stream
      ensures frame == NextFrame(old(stream))
      ensures stream == AfterRead(old(stream))
    {
      if stream == [] {
        frame := NoFrame;
      } else {
        frame := stream[0];
        stream := stream[1..];
      }
    }

    /** GetRgbFrame(): one read; null for an empty frame, else the undistorted frame
        in RGB order. */
    method GetRgbFrame(cv: Interpolation) returns (out: Option<Mat>)
      requires Valid()
      modifies this`stream
      ensures stream == AfterRead(old(stream))
      ensures out == UndistortedRgb(NextFrame(old(stream)), maps, cv)
    {
      var frame := Read();
      if frame.Empty() {
        return None;
      }
      var undistorted := Remap(frame, maps, cv.remap);
      out := Some(CvtColorBgrToRgb(undistorted));
    }

    /** GetRgbFrame(int&& derired_size): one read; null for an empty frame, else the
        undistorted frame letterboxed into a 640 x 640 square in RGB order. The argument
        `requestedSize` is not used: the side is always DesiredSize. */
    method GetRgbFrameSized(requestedSize: int, cv: Interpolation) returns (out: Option<Mat>)
      requires Valid()
      modifies this`stream
      ensures stream == AfterRead(old(stream))
      ensures out == LetterboxedRgb(NextFrame(old(stream)), maps, cv)
    {
      var frame := Read();
      if frame.Empty() {
        return None;
      }
      var undistorted := Remap(frame, maps, cv.remap);
      var desiredSize := DesiredSize;
      CaptureFrameGeometry();
      var g := LetterboxGeometry(undistorted.rows, undistorted.cols, desiredSize);
      var scaled := Resize(undistorted, Size(g.newWidth, g.newHeight), cv.resize);
      var square := PasteCentered(scaled, desiredSize, g.xOffset, g.yOffset);
      out := Some(CvtColorBgrToRgb(Snapshot(square)));
    }
  }
}
