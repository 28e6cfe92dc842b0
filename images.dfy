/** Pixels and 2-D images (the part of cv::Mat that the camera code relies on). */
module Images {

  /** One 8-bit channel value (CV_8U). */
  newtype byte = x: int | 0 <= x < 256

  /** A three-channel pixel, channels in storage order: c0 is stored first.
      In a BGR image c0 is blue and c2 is red; in an RGB image the reverse. */
  datatype Pixel = Pixel(c0: byte, c1: byte, c2: byte)

  /** The value cv::Mat::zeros fills a CV_8UC3 image with. */
  const Black := Pixel(0, 0, 0)

  /** Per-pixel effect of cv::COLOR_BGR2RGB: channels 0 and 2 trade places. */
  function BgrToRgb(p: Pixel): (q: Pixel)
    ensures q.c0 == p.c2 && q.c1 == p.c1 && q.c2 == p.c0
  {
    Pixel(p.c2, p.c1, p.c0)
  }

  /** Swapping twice gives the pixel back, and black stays black. */
  lemma BgrToRgbInvolutive(p: Pixel)
    ensures BgrToRgb(BgrToRgb(p)) == p
    ensures BgrToRgb(p) == p <==> p.c0 == p.c2
    ensures BgrToRgb(Black) == Black
  {
  }

  /** An image of `rows` x `cols` pixels, stored row by row. */
  datatype Image = Image(rows: nat, cols: nat, data: seq<seq<Pixel>>)
  {
    predicate WellFormed()
    {
      |data| == rows && forall r :: 0 <= r < rows ==> |data[r]| == cols
    }

    /** cv::Mat::empty(): the matrix holds no element, i.e. rows * cols == 0. */
    predicate Empty()
      ensures Empty() <==> rows * cols == 0
    {
      rows == 0 || cols == 0
    }
  }

  /** A matrix whose stored rows agree with its declared size. */
  type Mat = m: Image | m.WellFormed() witness Image(0, 0, [])

  /** Two matrices of the same size that agree on every pixel are equal. */
  lemma SameMat(a: Mat, b: Mat)
    requires a.rows == b.rows && a.cols == b.cols
    requires forall r, c :: 0 <= r < a.rows && 0 <= c < a.cols ==> a.data[r][c] == b.data[r][c]
    ensures a == b
  {
    forall r | 0 <= r < a.rows
      ensures a.data[r] == b.data[r]
    {
      assert |a.data[r]| == |b.data[r]| == a.cols;
    }
  }

  /** cv::cvtColor(src, dst, cv::COLOR_BGR2RGB): same size, every pixel channel-swapped. */
  function CvtColorBgrToRgb(src: Mat): (dst: Mat)
    ensures dst.rows == src.rows && dst.cols == src.cols
    ensures forall r, c :: 0 <= r < src.rows && 0 <= c < src.cols ==>
      dst.data[r][c].c0 == src.data[r][c].c2 &&
      dst.data[r][c].c1 == src.data[r][c].c1 &&
      dst.data[r][c].c2 == src.data[r][c].c0
  {
    Image(src.rows, src.cols,
      seq(src.rows, r requires 0 <= r < src.rows =>
        seq(src.cols, c requires 0 <= c < src.cols => BgrToRgb(src.data[r][c]))))
  }

  /** Converting twice restores the image: the conversion loses nothing. */
  lemma CvtColorInvolutive(m: Mat)
    ensures CvtColorBgrToRgb(CvtColorBgrToRgb(m)) == m
  {
    var once := CvtColorBgrToRgb(m);
    var twice := CvtColorBgrToRgb(once);
    forall r, c | 0 <= r < m.rows && 0 <= c < m.cols
      ensures twice.data[r][c] == m.data[r][c]
    {
      BgrToRgbInvolutive(m.data[r][c]);
    }
    SameMat(twice, m);
  }

  /** The value held by a pixel buffer: row r, column c of the result is a[r, c]. */
  function Snapshot(a: array2<Pixel>): (m: Mat)
    reads a
    ensures m.rows == a.Length0 && m.cols == a.Length1
    ensures forall r, c :: 0 <= r < a.Length0 && 0 <= c < a.Length1 ==> m.data[r][c] == a[r, c]
  {
    Image(a.Length0, a.Length1,
      seq(a.Length0, r requires 0 <= r < a.Length0 reads a =>
        seq(a.Length1, c requires 0 <= c < a.Length1 reads a => a[r, c])))
  }
}
