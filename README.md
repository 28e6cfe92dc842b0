# Fisheye camera letterbox — a Dafny model

This project models the frame pipeline of `FisheyeCamera` in the YOLOv8 fisheye demo.
A capture device yields frames. Each frame is undistorted with two remap tables built
once at construction for the capture size, 1920×1080. The camera hands frames out in
two ways:

- `GetRgbFrame()` returns the undistorted frame in RGB order.
- `GetRgbFrame(int&&)` letterboxes the undistorted frame into a 640×640 square and
  returns it in RGB order. It scales the frame so that its longer side is 640 and the
  aspect ratio is kept (integer arithmetic, rounding down). It then pastes the result
  centred on a zero-filled square. The top/left padding gets the smaller half of an odd
  remainder.

Both return null when the read yields an empty frame.

Files, one module each:

- `images.dfy` (`Images`): pixels, matrices (`Mat`), the BGR→RGB conversion, and the
  value held by a pixel buffer (`Snapshot`).
- `opencv.dfy` (`OpenCv`): stand-ins for `initUndistortRectifyMap`, `remap` and
  `resize`. Their output sizes are exact. Their pixel values come from interpolation
  kernels passed in as an `Interpolation` value.
- `letterbox.dfy` (`Letterbox`): the geometry function and its lemmas, and the
  specification of the padded square (`PadToSquare`). It also holds the imperative
  zero-fill and paste on an `array2<Pixel>` (`ZeroSquare`, `CopyTo`, `PasteCentered`).
- `fisheye_camera.dfy` (`Camera`): the `FisheyeCamera` class and the pure results of
  both `GetRgbFrame` overloads (`UndistortedRgb`, `LetterboxedRgb`). The device is a
  field `stream: seq<Mat>`. The remap tables are a `const` field, so they never change
  after construction.

The argument of `GetRgbFrame(int&&)` is ignored by the code, which fixes the side to 640
(`desired_size` at line 79). `GetRgbFrameSized(requestedSize, cv)` takes the argument,
but its postcondition does not mention it: the result is the same for every argument.

Three facts about the code shape the model:

- The `derired_size` argument of `GetRgbFrame(int&&)` is ignored. The side of the square
  is always 640 (line 79).
- The remap tables are built once for the fixed `size_` (lines 8 and 25-27).
  `cv::remap` produces output at the size of the tables, whatever size the captured
  frame has.
- A failed read and an empty frame are not told apart. Both leave an empty matrix, and
  both overloads return null for it (lines 55-59 and 71-75).

## Model

| member | source | states |
|---|---|---|
| `Images.CvtColorBgrToRgb` | examples/yolov8_kaylor/cpp/fisheye_camera.cpp:103-104 | the converted image has the same rows and cols, and each pixel is the input pixel at the same position with channels 0 and 2 exchanged and channel 1 kept |
| `Images.BgrToRgb` | examples/yolov8_kaylor/cpp/fisheye_camera.cpp:104 | the converted pixel has the input's channel 2 first, channel 1 in the middle and channel 0 last |
| `Images.BgrToRgbInvolutive` | examples/yolov8_kaylor/cpp/fisheye_camera.cpp:104 | swapping channels twice restores a pixel; a pixel is unchanged exactly when channels 0 and 2 agree; black stays black |
| `Images.CvtColorInvolutive` | examples/yolov8_kaylor/cpp/fisheye_camera.cpp:104 | converting an image twice gives it back, so the conversion loses no information |
| `Images.Image.Empty` | examples/yolov8_kaylor/cpp/fisheye_camera.cpp:56 | a matrix is empty exactly when rows × cols is 0, the test that sends both overloads to the null result |
| `OpenCv.InitUndistortRectifyMap` | examples/yolov8_kaylor/cpp/fisheye_camera.cpp:25-27 | the tables have exactly the requested size, and each entry is the source position the lens model gives for that output pixel |
| `OpenCv.Remap` | examples/yolov8_kaylor/cpp/fisheye_camera.cpp:77 | the undistorted image has the size of the remap tables, whatever the size of the frame, and each pixel is the frame sampled at the tables' position |
| `OpenCv.Resize` | examples/yolov8_kaylor/cpp/fisheye_camera.cpp:90 | needs a non-empty image and a non-empty target; the result has exactly the requested width and height |
| `Letterbox.LetterboxGeometry` | examples/yolov8_kaylor/cpp/fisheye_camera.cpp:79-98 | the longer side becomes `d` (the height if rows > cols, else the width); both scaled sides lie in [0, d]; offsets are non-negative and the rectangle fits in the square; on each axis the leading padding is at most the trailing padding, which is at most one more |
| `Letterbox.GeometryKeepsAspect` | examples/yolov8_kaylor/cpp/fisheye_camera.cpp:81-87 | the shorter scaled side is the largest length whose ratio to `d` does not exceed the image's own ratio, i.e. the exact scaled length rounded down |
| `Letterbox.SquareInputFillsSquare` | examples/yolov8_kaylor/cpp/fisheye_camera.cpp:81-98 | a square image is scaled to d×d with both offsets 0 |
| `Letterbox.CaptureFrameGeometry` | examples/yolov8_kaylor/cpp/fisheye_camera.cpp:79-98 | a 1080-row, 1920-column image is scaled to 640×360 and placed at column 0, row 140 |
| `Letterbox.Letterboxable` | examples/yolov8_kaylor/cpp/fisheye_camera.cpp:81-90 | what `cv::resize` needs here holds exactly when the image is non-empty and its shorter side times 640 is at least its longer side, so that neither scaled side is 0 |
| `Letterbox.ScaledSideIsPositive` | examples/yolov8_kaylor/cpp/fisheye_camera.cpp:81-90 | both scaled sides are positive exactly when the shorter side times 640 is at least the longer side |
| `Letterbox.ThinImageNotLetterboxable` | examples/yolov8_kaylor/cpp/fisheye_camera.cpp:81-90 | a 1-row, 1000-column image scales to a height of 0, so `cv::resize` would refuse it |
| `Letterbox.PadToSquare` | examples/yolov8_kaylor/cpp/fisheye_camera.cpp:93-102 | the square is d×d; every pixel outside the pasted rectangle is black; pixel (y+r, x+c) is the scaled image's pixel (r, c) |
| `Letterbox.ZeroSquare` | examples/yolov8_kaylor/cpp/fisheye_camera.cpp:93-94 | a new d×d buffer whose every pixel is black |
| `Letterbox.CopyTo` | examples/yolov8_kaylor/cpp/fisheye_camera.cpp:101-102 | inside the rectangle at (x, y) of the scaled image's size the buffer holds the scaled image; every pixel outside keeps its old value |
| `Letterbox.PasteCentered` | examples/yolov8_kaylor/cpp/fisheye_camera.cpp:93-102 | the buffer built by zero-fill then paste holds exactly `PadToSquare` |
| `Letterbox.LetterboxSquare` | examples/yolov8_kaylor/cpp/fisheye_camera.cpp:79-102 | the square is 640×640; inside the centred rectangle each pixel is the resized image's pixel, outside it is black |
| `Camera.NextFrame` | examples/yolov8_kaylor/cpp/fisheye_camera.cpp:71 | a read delivers the head of the stream, or an empty matrix when the stream is exhausted |
| `Camera.AfterRead` | examples/yolov8_kaylor/cpp/fisheye_camera.cpp:71 | a read consumes exactly the first frame of the stream and keeps the rest in order |
| `Camera.UndistortedRgb` | examples/yolov8_kaylor/cpp/fisheye_camera.cpp:52-66 | the result is null exactly when the frame is empty; otherwise it has the size of the remap tables, and each pixel is the frame sampled at the tables' position with channels 0 and 2 swapped |
| `Camera.LetterboxedRgb` | examples/yolov8_kaylor/cpp/fisheye_camera.cpp:68-108 | the result is null exactly when the frame is empty; otherwise it is always 640×640 |
| `Camera.LetterboxedPixels` | examples/yolov8_kaylor/cpp/fisheye_camera.cpp:93-104 | after the colour conversion the padding is black, and each pixel inside the rectangle is the resized pixel with channels 0 and 2 swapped |
| `Camera.CaptureFrameLetterbox` | examples/yolov8_kaylor/cpp/fisheye_camera.cpp:79-104 | for a captured frame, rows 0-139 and 500-639 are black and rows 140-499 hold the 640×360 resized undistorted frame in RGB order |
| `Camera.FisheyeCamera.constructor` | examples/yolov8_kaylor/cpp/fisheye_camera.cpp:7-28 | the camera has size 1920×1080 and remap tables of that size built from the lens model |
| `Camera.FisheyeCamera.Read` | examples/yolov8_kaylor/cpp/fisheye_camera.cpp:71 | returns the next frame, or an empty one, and removes it from the stream |
| `Camera.FisheyeCamera.GetRgbFrame` | examples/yolov8_kaylor/cpp/fisheye_camera.cpp:52-66 | consumes exactly one frame and changes nothing else; the result is `UndistortedRgb` of that frame: null exactly when it is empty |
| `Camera.FisheyeCamera.GetRgbFrameSized` | examples/yolov8_kaylor/cpp/fisheye_camera.cpp:68-108 | consumes exactly one frame and changes nothing else; the result is `LetterboxedRgb` of that frame, whatever `requestedSize` is: null exactly when it is empty, otherwise 640×640 |

## Left out

- Device setup is not modelled: opening the V4L2 device, setting width, height, frame
  rate and fourcc, the fourcc warning, and the process exit when the device cannot be
  opened (lines 7-24). This is device I/O and process termination. The device is a
  given sequence of frames.
- The lens mathematics is not modelled: `getOptimalNewCameraMatrix` and the fisheye
  projection inside `initUndistortRectifyMap` (lines 25-27). This is floating-point
  work inside OpenCV. The constructor takes the resulting projection as the function
  `lens`. Table entries are `real`, so float rounding is not modelled.
- Pixel values of `cv::remap` and `cv::resize` are not modelled. Their bilinear
  interpolation is library code that is not part of this model. The kernels are the
  `Interpolation` parameter; only which inputs they see, and the output sizes, are
  modelled.
- The debug image writes (`cv::imwrite`, lines 63-64 and 76) are left out. They are file
  I/O and do not affect the result.
- `Refresh` (lines 36-50) is left out: it is a display loop with `imshow` and `waitKey`.
  The destructor (lines 30-34) is left out: it only releases resources.
- main.cc is not part of this model: camera intrinsics, argument checks, the inference
  runtime and the drawing are glue around calls into other libraries.
- Only 8-bit, three-channel images are modelled. `Mat::zeros(..., type())` keeps the
  input type, and the model fixes that type to `Pixel`.
- `int` overflow of `cols * 640` is not modelled. Dafny integers are unbounded, and for
  the 1920×1080 capture size the products stay far below 2^31.
- Shared ownership is not modelled. The returned `shared_ptr<cv::Mat>` becomes an
  `Option<Mat>` value, and the buffer `tmp` allocated before `cvtColor` writes into it
  (line 103) is folded into the conversion.
- LetterboxSquare: requires `Letterboxable`, so it says nothing about an image whose
  shorter side scales to 0 (for example 1 row × 1000 columns, see
  `ThinImageNotLetterboxable`). For such an image `cv::resize` at line 90 throws, and
  that exception is not modelled. The camera never reaches this case: its undistorted
  frames are always 1920×1080 and scale to 640×360.
- LetterboxedPixels: requires `Letterboxable` for the same reason, and leaves the same
  thrown case unmodelled.
- The warning logged for an empty frame (`KAYLORDUT_LOG_WARN("frame is empty")`, lines
  57 and 73) is left out. It is logging only and does not affect the result.
