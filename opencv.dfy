/** Stand-ins for the OpenCV routines the camera calls. Only their shape behaviour is
    modelled exactly; the floating-point lens model and the bilinear interpolation
    kernels are supplied from outside as function values. */
module OpenCv {
  import opened Images

  /** cv::Size: width is the number of columns, height the number of rows. */
  datatype Size = Size(width: nat, height: nat)

  /** The two CV_32FC1 remap tables: map1 holds, for each output pixel, the source
      x coordinate to sample, map2 the source y coordinate. */
  datatype RemapTables = RemapTables(size: Size, map1: seq<seq<real>>, map2: seq<seq<real>>)
  {
    predicate WellFormed()
    {
      |map1| == size.height && |map2| == size.height &&
      forall r :: 0 <= r < size.height ==> |map1[r]| == size.width && |map2[r]| == size.width
    }
  }

  /** The interpolation OpenCV performs with cv::INTER_LINEAR, which is not modelled:
      `remap` gives the value sampled from an image at a real (x, y) position,
      `resize` the value of output pixel (row, col) when an image is resized to a size. */
  datatype Interpolation = Interpolation(
    remap: (Mat, real, real) -> Pixel,
    resize: (Mat, Size, nat, nat) -> Pixel)

  /** cv::fisheye::initUndistortRectifyMap(K, D, R, newK, size, CV_32FC1, map1, map2).
      `lens` is the undistortion projection derived from K, D and newK: it sends output
      pixel (row, col) to the source position (x, y). The tables have exactly `size`. */
  function InitUndistortRectifyMap(size: Size, lens: (nat, nat) -> (real, real)): (t: RemapTables)
    ensures t.WellFormed() && t.size == size
    ensures forall r, c :: 0 <= r < size.height && 0 <= c < size.width ==>
      (t.map1[r][c], t.map2[r][c]) == lens(r, c)
  {
    RemapTables(size,
      seq(size.height, r requires 0 <= r => seq(size.width, c requires 0 <= c => lens(r, c).0)),
      seq(size.height, r requires 0 <= r => seq(size.width, c requires 0 <= c => lens(r, c).1)))
  }

  /** cv::remap(src, dst, map1, map2, cv::INTER_LINEAR): the output has the size of the
      tables, whatever the size of the source, and output pixel (r, c) is the source
      sampled at (map1[r][c], map2[r][c]). */
  function Remap(src: Mat, maps: RemapTables, sample: (Mat, real, real) -> Pixel): (dst: Mat)
    requires maps.WellFormed()
    ensures dst.rows == maps.size.height && dst.cols == maps.size.width
    ensures forall r, c :: 0 <= r < dst.rows && 0 <= c < dst.cols ==>
      dst.data[r][c] == sample(src, maps.map1[r][c], maps.map2[r][c])
  {
    Image(maps.size.height, maps.size.width,
      seq(maps.size.height, r requires 0 <= r < maps.size.height =>
        seq(maps.size.width, c requires 0 <= c < maps.size.width =>
          sample(src, maps.map1[r][c], maps.map2[r][c]))))
  }

  /** cv::resize(src, dst, dsize): OpenCV refuses an empty source or an empty target
      size; the output has exactly the requested size. */
  function Resize(src: Mat, dsize: Size, sample: (Mat, Size, nat, nat) -> Pixel): (dst: Mat)
    requires !src.Empty() && dsize.width > 0 && dsize.height > 0
    ensures dst.rows == dsize.height && dst.cols == dsize.width
    ensures forall r, c :: 0 <= r < dst.rows && 0 <= c < dst.cols ==>
      dst.data[r][c] == sample(src, dsize, r, c)
  {
    Image(dsize.height, dsize.width,
      seq(dsize.height, r requires 0 <= r =>
        seq(dsize.width, c requires 0 <= c => sample(src, dsize, r, c))))
  }
}
