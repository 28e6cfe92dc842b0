/** The letterbox step of FisheyeCamera::GetRgbFrame(int&&): fit an image into a
    square of side `desired_size` keeping its aspect ratio, centred on a black
    background. */
module Letterbox {
  import opened Images
  import opened OpenCv

  /** The side of the square; the source fixes it to 640 whatever its caller asks. */
  const DesiredSize: int := 640

  /** Scaled size of the image and where its top-left corner sits in the square. */
  datatype Geometry = Geometry(newWidth: int, newHeight: int, xOffset: int, yOffset: int)

  /** Multiplying both sides by a positive number preserves <= and <. */
  lemma MulLeCancel(q: int, den: int, d: int)
    requires den > 0 && q * den <= d * den
    ensures q <= d
  {
  }

  lemma MulLtCancel(q: int, den: int, d: int)
    requires den > 0 && q * den < d * den
    ensures q < d
  {
  }

  /** n / m is the largest q with q * m <= n. */
  lemma FloorDivBounds(n: int, m: int)
    requires n >= 0 && m > 0
    ensures (n / m) * m <= n < (n / m + 1) * m
  {
    var q := n / m;
    assert n == q * m + n % m;
    assert (q + 1) * m == q * m + m;
  }

  /** Scale `num` / `den` of `d`, rounded down, stays within [0, d] when num <= den. */
  lemma ScaleWithin(num: int, den: int, d: int)
    requires 0 <= num <= den && den > 0 && d >= 0
    ensures 0 <= num * d / den <= d
  {
    var n := num * d;
    var q := n / den;
    assert n <= d * den by {
      assert (den - num) * d >= 0;
    }
    FloorDivBounds(n, den);
    MulLeCancel(q, den, d);
  }

  /** Sizes and offsets the source computes from the undistorted image's rows and cols:
      the longer side becomes `d`, the other one is scaled down (rounded down), and the
      padding is split so that the top/left side gets the smaller half. */
  function LetterboxGeometry(rows: int, cols: int, d: int): (g: Geometry)
    requires rows > 0 && cols > 0 && d >= 0
    ensures rows > cols ==> g.newHeight == d
    ensures rows <= cols ==> g.newWidth == d
    ensures 0 <= g.newWidth <= d && 0 <= g.newHeight <= d
    ensures 0 <= g.xOffset && g.xOffset + g.newWidth <= d
    ensures 0 <= g.yOffset && g.yOffset + g.newHeight <= d
    ensures g.xOffset <= d - g.newWidth - g.xOffset <= g.xOffset + 1
    ensures g.yOffset <= d - g.newHeight - g.yOffset <= g.yOffset + 1
  {
    if rows > cols then
      ScaleWithin(cols, rows, d);
      var w := cols * d / rows;
      Geometry(w, d, (d - w) / 2, (d - d) / 2)
    else
      ScaleWithin(rows, cols, d);
      var h := rows * d / cols;
      Geometry(d, h, (d - d) / 2, (d - h) / 2)
  }

  /** The shorter side is the exact scaled length rounded down: it is the largest length
      whose ratio to `d` does not exceed the image's own ratio. */
  lemma {:induction false} GeometryKeepsAspect(rows: int, cols: int, d: int)
    requires rows > 0 && cols > 0 && d >= 0
    ensures var g := LetterboxGeometry(rows, cols, d);
      rows > cols ==> g.newWidth * rows <= cols * d < (g.newWidth + 1) * rows
    ensures var g := LetterboxGeometry(rows, cols, d);
      rows <= cols ==> g.newHeight * cols <= rows * d < (g.newHeight + 1) * cols
  {
    var g := LetterboxGeometry(rows, cols, d);
    if rows > cols {
      FloorDivBounds(cols * d, rows);
    } else {
      FloorDivBounds(rows * d, cols);
    }
  }

  /** A square image fills the whole square: no padding at all. */
  lemma {:induction false} SquareInputFillsSquare(side: int, d: int)
    requires side > 0 && d >= 0
    ensures LetterboxGeometry(side, side, d) == Geometry(d, d, 0, 0)
  {
    var n := side * d;
    var q := n / side;
    assert n == d * side;
    FloorDivBounds(n, side);
    MulLeCancel(q, side, d);
    MulLtCancel(d, side, q + 1);
  }

  /** The undistorted camera frame (1080 rows, 1920 columns) becomes a 640 x 360 image
      placed 140 rows down from the top of the square. */
  lemma CaptureFrameGeometry()
    ensures LetterboxGeometry(1080, 1920, DesiredSize) == Geometry(640, 360, 0, 140)
  {
    assert 1080 * 640 / 1920 == 360;
  }

  /** True when (r, c) lies in the w x h rectangle whose top-left corner is (y, x). */
  predicate InRect(r: int, c: int, x: int, y: int, w: int, h: int)
  {
    y <= r < y + h && x <= c < x + w
  }

  /** The square the source builds: a d x d black image with `scaled` copied so that its
      top-left corner is at column x, row y. */
  function PadToSquare(scaled: Mat, d: nat, x: nat, y: nat): (square: Mat)
    requires y + scaled.rows <= d && x + scaled.cols <= d
    ensures square.rows == d && square.cols == d
    ensures forall r, c :: 0 <= r < d && 0 <= c < d && !InRect(r, c, x, y, scaled.cols, scaled.rows) ==>
      square.data[r][c] == Black
    ensures forall r, c :: 0 <= r < scaled.rows && 0 <= c < scaled.cols ==>
      square.data[y + r][x + c] == scaled.data[r][c]
  {
    var data := seq(d, r requires 0 <= r < d =>
        seq(d, c requires 0 <= c < d =>
          if InRect(r, c, x, y, scaled.cols, scaled.rows) then scaled.data[r - y][c - x] else Black));
    assert forall r :: 0 <= r < d ==> |data[r]| == d;
    Image(d, d, data)
  }

  /** cv::Mat::zeros(d, d, type): a new d x d buffer holding only black pixels. */
  method ZeroSquare(d: nat) returns (square: array2<Pixel>)
    ensures fresh(square)
    ensures square.Length0 == d && square.Length1 == d
    ensures forall r, c :: 0 <= r < d && 0 <= c < d ==> square[r, c] == Black
  {
    square := new Pixel[d, d];
    var r := 0;
    while r < d
      invariant 0 <= r <= d
      invariant forall i, j :: 0 <= i < r && 0 <= j < d ==> square[i, j] == Black
    {
      var c := 0;
      while c < d
        invariant 0 <= c <= d
        invariant forall i, j :: 0 <= i < r && 0 <= j < d ==> square[i, j] == Black
        invariant forall j :: 0 <= j < c ==> square[r, j] == Black
      {
        square[r, c] := Black;
        c := c + 1;
      }
      r := r + 1;
    }
  }

  /** scaled.copyTo(square(cv::Rect(x, y, scaled.cols, scaled.rows))): the rectangle
      receives the scaled image and every pixel outside it keeps its value. */
  method CopyTo(scaled: Mat, square: array2<Pixel>, x: nat, y: nat)
    requires y + scaled.rows <= square.Length0 && x + scaled.cols <= square.Length1
    modifies square
    ensures forall r, c :: 0 <= r < square.Length0 && 0 <= c < square.Length1 ==>
      square[r, c] == if InRect(r, c, x, y, scaled.cols, scaled.rows)
                      then scaled.data[r - y][c - x] else old(square[r, c])
  {
    var i := 0;
    while i < scaled.rows
      invariant 0 <= i <= scaled.rows
      invariant forall r, c :: 0 <= r < square.Length0 && 0 <= c < square.Length1 ==>
        square[r, c] == if InRect(r, c, x, y, scaled.cols, i)
                        then scaled.data[r - y][c - x] else old(square[r, c])
    {
      var j := 0;
      while j < scaled.cols
        invariant 0 <= j <= scaled.cols
        invariant forall r, c :: 0 <= r < square.Length0 && 0 <= c < square.Length1 ==>
          square[r, c] == if InRect(r, c, x, y, scaled.cols, i) || (r == y + i && x <= c < x + j)
                          then scaled.data[r - y][c - x] else old(square[r, c])
      {
        square[y + i, x + j] := scaled.data[i][j];
        j := j + 1;
      }
      i := i + 1;
    }
  }

  /** The zero-fill and paste of GetRgbFrame(int&&): a d x d black buffer with `scaled` pasted at
      (x, y); its contents are exactly PadToSquare. */
  method PasteCentered(scaled: Mat, d: nat, x: nat, y: nat) returns (square: array2<Pixel>)
    requires y + scaled.rows <= d && x + scaled.cols <= d
    ensures fresh(square)
    ensures Snapshot(square) == PadToSquare(scaled, d, x, y)
  {
    square := ZeroSquare(d);
    CopyTo(scaled, square, x, y);
    SameMat(Snapshot(square), PadToSquare(scaled, d, x, y));
  }

  /** What cv::resize demands of the letterbox step: a non-empty image whose scaled
      size is non-empty in both directions. */
  predicate Letterboxable(m: Mat)
    ensures Letterboxable(m) <==>
      !m.Empty() &&
      (if m.rows > m.cols then m.cols * DesiredSize >= m.rows else m.rows * DesiredSize >= m.cols)
  {
    if m.Empty() then false
    else
      ScaledSideIsPositive(m.rows, m.cols);
      var g := LetterboxGeometry(m.rows, m.cols, DesiredSize);
      g.newWidth > 0 && g.newHeight > 0
  }

  /** The scaled shorter side is at least one pixel exactly when the shorter side is at
      least 1/640 of the longer one. */
  lemma ScaledSideIsPositive(rows: int, cols: int)
    requires rows > 0 && cols > 0
    ensures var g := LetterboxGeometry(rows, cols, DesiredSize);
      (g.newWidth > 0 && g.newHeight > 0) <==>
      (if rows > cols then cols * DesiredSize >= rows else rows * DesiredSize >= cols)
  {
    var g := LetterboxGeometry(rows, cols, DesiredSize);
    if rows > cols {
      var n := cols * DesiredSize;
      PositiveQuotient(n, rows);
      assert g.newWidth == n / rows;
    } else {
      var n := rows * DesiredSize;
      PositiveQuotient(n, cols);
      assert g.newHeight == n / cols;
    }
  }

  /** A non-negative n divided by a positive m is positive exactly when n >= m. */
  lemma PositiveQuotient(n: int, m: int)
    requires n >= 0 && m > 0
    ensures n / m > 0 <==> n >= m
  {
    FloorDivBounds(n, m);
    var q := n / m;
    if q > 0 {
      assert q * m >= m by { assert (q - 1) * m >= 0; }
    }
  }

  /** A 1-row, 1000-column image scales to a height of 0, which cv::resize refuses. */
  lemma ThinImageNotLetterboxable()
    ensures LetterboxGeometry(1, 1000, DesiredSize).newHeight == 0
    ensures !Letterboxable(Image(1, 1000, [seq(1000, _ => Black)]))
  {
    assert 1 * 640 / 1000 == 0;
  }

  /** The square GetRgbFrame(int&&) builds from the undistorted image, before the colour
      conversion: the image resized to the scaled size, pasted centred in black. */
  function LetterboxSquare(undistorted: Mat, cv: Interpolation): (square: Mat)
    requires Letterboxable(undistorted)
    ensures square.rows == DesiredSize && square.cols == DesiredSize
    ensures var g := LetterboxGeometry(undistorted.rows, undistorted.cols, DesiredSize);
      forall r, c :: 0 <= r < DesiredSize && 0 <= c < DesiredSize ==>
        square.data[r][c] == if InRect(r, c, g.xOffset, g.yOffset, g.newWidth, g.newHeight)
                             then cv.resize(undistorted, Size(g.newWidth, g.newHeight), r - g.yOffset, c - g.xOffset)
                             else Black
  {
    var g := LetterboxGeometry(undistorted.rows, undistorted.cols, DesiredSize);
    var scaled := Resize(undistorted, Size(g.newWidth, g.newHeight), cv.resize);
    PadToSquare(scaled, DesiredSize, g.xOffset, g.yOffset)
  }
}
