/** The infrared denoiser `Camera::medianFilter` (src/camera.cpp): a square
    window of side 2r+1 slides over a 16-bit frame in snake order (right
    along one row, down, left along the next, down), keeping a 4096-bin
    histogram of the window and rescanning it for the median after every
    slide. Results go to a zeroed scratch buffer that is finally copied over
    the frame.

    Pixels are addressed with `coord(x, y, w)`; that helper is not part of
    this model, and its use (x runs along the width) implies y * w + x.

    A window is described by how many of its pixels fall in a value range
    [lo, hi]; the histogram bin v holds the count for [v, v], and the median
    is the least m for which more than `middle` pixels are at most m. */
module MedianFilter {
  import opened Frames
  import opened Histograms

  /** Offset of row y in a row-major frame of width w: y rows of w pixels
      each (RowStartIsProduct shows it is y * w). */
  function RowStart(y: int, w: int): (s: int)
    ensures 0 <= w ==> 0 <= s
    decreases y
  {
    if y <= 0 then 0 else RowStart(y - 1, w) + w
  }

  lemma {:induction false} RowStartIsProduct(y: nat, w: int)
    ensures RowStart(y, w) == y * w
  {
    if y > 0 {
      RowStartIsProduct(y - 1, w);
    }
  }

  /** Flat index of pixel (x, y) in a row-major frame of width w. */
  function Coord(x: int, y: int, w: int): int
  {
    RowStart(y, w) + x
  }

  /** A pixel on an earlier row comes earlier in the frame. */
  lemma {:induction false} RowsApart(w: int, a: int, xa: int, b: int, xb: int)
    requires 0 <= xa < w && 0 <= xb < w && 0 <= a < b
    ensures Coord(xa, a, w) < Coord(xb, b, w)
    decreases b - a
  {
    if a + 1 < b {
      RowsApart(w, a, xa, b - 1, xb);
    }
  }

  lemma CoordInFrame(x: int, y: int, w: int, h: int)
    requires 0 <= x < w && 0 <= y < h
    ensures 0 <= Coord(x, y, w) < RowStart(h, w)
  {
    RowsApart(w, y, x, h, 0);
  }

  ghost predicate InFrame(w: int, h: int)
  {
    forall px, py | 0 <= px < w && 0 <= py < h :: 0 <= Coord(px, py, w) < RowStart(h, w)
  }

  lemma FrameIndices(w: int, h: int)
    ensures InFrame(w, h)
  {
    forall px, py | 0 <= px < w && 0 <= py < h
      ensures 0 <= Coord(px, py, w) < RowStart(h, w)
    {
      CoordInFrame(px, py, w, h);
    }
  }

  /** Two distinct pixels of a frame have distinct flat indices. */
  lemma CoordDistinct(w: int, x: int, y: int, px: int, py: int)
    requires 0 <= x < w && 0 <= px < w && 0 <= y && 0 <= py && (px != x || py != y)
    ensures Coord(px, py, w) != Coord(x, y, w)
  {
    if py < y {
      RowsApart(w, py, px, y, x);
    } else if y < py {
      RowsApart(w, y, x, py, px);
    }
  }

  /** The value of pixel (x, y) of a frame (0 off the frame, where the
      filter never reads). */
  function Px(img: seq<int>, w: int, x: int, y: int): int
  {
    var q := Coord(x, y, w);
    if 0 <= q < |img| then img[q] else 0
  }

  /** The frame as a function of pixel position. */
  ghost function Pixels(img: seq<int>, w: int): (int, int) -> int
  {
    (x, y) => Px(img, w, x, y)
  }

  /** Inside the frame, pixel (x, y) is the sample at its flat index. */
  lemma PixelIs(img: seq<int>, w: int, h: int, x: int, y: int)
    requires 0 <= x < w && 0 <= y < h && |img| == RowStart(h, w)
    ensures 0 <= Coord(x, y, w) < |img| && Pixels(img, w)(x, y) == img[Coord(x, y, w)]
  {
    CoordInFrame(x, y, w, h);
  }

  /** P gives the samples of the w-by-h frame held in raw. */
  ghost predicate Shows(P: (int, int) -> int, raw: array<u16>, w: int, h: int)
    reads raw
  {
    raw.Length == RowStart(h, w) && InFrame(w, h) &&
    forall x, y {:trigger raw[Coord(x, y, w)]} | 0 <= x < w && 0 <= y < h :: P(x, y) == raw[Coord(x, y, w)]
  }

  ghost predicate Samples12Bit(P: (int, int) -> int)
  {
    forall x, y :: 0 <= P(x, y) < BINS
  }

  lemma PixelsInRange(img: seq<int>, w: int)
    requires forall q | 0 <= q < |img| :: 0 <= img[q] < BINS
    ensures Samples12Bit(Pixels(img, w))
  {
  }

  // ---------------------------------------------------------------------
  // Windows, counted by value range

  /** How many of the n pixels (x, y0), ..., (x, y0 + n - 1) lie in [lo, hi]. */
  ghost function ColumnCount(P: (int, int) -> int, x: int, y0: int, n: nat, lo: int, hi: int): nat
    decreases n
  {
    if n == 0 then 0
    else ColumnCount(P, x, y0, n - 1, lo, hi) + (if lo <= P(x, y0 + n - 1) <= hi then 1 else 0)
  }

  /** How many of the n pixels (x0, y), ..., (x0 + n - 1, y) lie in [lo, hi]. */
  ghost function RowCount(P: (int, int) -> int, x0: int, y: int, n: nat, lo: int, hi: int): nat
    decreases n
  {
    if n == 0 then 0
    else RowCount(P, x0, y, n - 1, lo, hi) + (if lo <= P(x0 + n - 1, y) <= hi then 1 else 0)
  }

  /** How many pixels of the nc-by-nr rectangle with top-left corner
      (x0, y0) lie in [lo, hi]. */
  ghost function WindowCount(P: (int, int) -> int, x0: int, y0: int, nc: nat, nr: nat, lo: int, hi: int): nat
    decreases nc
  {
    if nc == 0 then 0
    else WindowCount(P, x0, y0, nc - 1, nr, lo, hi) + ColumnCount(P, x0 + nc - 1, y0, nr, lo, hi)
  }

  lemma {:induction false} ColumnSplitFirst(P: (int, int) -> int, x: int, y0: int, n: nat, lo: int, hi: int)
    ensures ColumnCount(P, x, y0, n + 1, lo, hi)
            == (if lo <= P(x, y0) <= hi then 1 else 0) + ColumnCount(P, x, y0 + 1, n, lo, hi)
    decreases n
  {
    if n > 0 {
      ColumnSplitFirst(P, x, y0, n - 1, lo, hi);
    }
  }

  lemma {:induction false} WindowSplitFirst(P: (int, int) -> int, x0: int, y0: int, nc: nat, nr: nat, lo: int, hi: int)
    ensures WindowCount(P, x0, y0, nc + 1, nr, lo, hi)
            == ColumnCount(P, x0, y0, nr, lo, hi) + WindowCount(P, x0 + 1, y0, nc, nr, lo, hi)
    decreases nc
  {
    if nc > 0 {
      WindowSplitFirst(P, x0, y0, nc - 1, nr, lo, hi);
    }
  }

  lemma {:induction false} WindowNoRows(P: (int, int) -> int, x0: int, y0: int, nc: nat, lo: int, hi: int)
    ensures WindowCount(P, x0, y0, nc, 0, lo, hi) == 0
    decreases nc
  {
    if nc > 0 {
      WindowNoRows(P, x0, y0, nc - 1, lo, hi);
    }
  }

  /** One more row at the bottom adds that row's pixels. */
  lemma {:induction false} WindowAddRow(P: (int, int) -> int, x0: int, y0: int, nc: nat, nr: nat, lo: int, hi: int)
    ensures WindowCount(P, x0, y0, nc, nr + 1, lo, hi)
            == WindowCount(P, x0, y0, nc, nr, lo, hi) + RowCount(P, x0, y0 + nr, nc, lo, hi)
    decreases nc
  {
    if nc > 0 {
      WindowAddRow(P, x0, y0, nc - 1, nr, lo, hi);
    }
  }

  /** A window one row taller is its top row plus the window one row lower. */
  lemma {:induction false} WindowDropRow(P: (int, int) -> int, x0: int, y0: int, nc: nat, nr: nat, lo: int, hi: int)
    ensures WindowCount(P, x0, y0, nc, nr + 1, lo, hi)
            == RowCount(P, x0, y0, nc, lo, hi) + WindowCount(P, x0, y0 + 1, nc, nr, lo, hi)
    decreases nc
  {
    if nc > 0 {
      WindowDropRow(P, x0, y0, nc - 1, nr, lo, hi);
      ColumnSplitFirst(P, x0 + nc - 1, y0, nr, lo, hi);
    }
  }

  /** Sliding the square window one column to the right removes its left
      column and adds the column after its right edge (read backwards, this
      is the slide to the left). */
  lemma SlideAcross(P: (int, int) -> int, x0: int, y0: int, n: nat, lo: int, hi: int)
    ensures WindowCount(P, x0 + 1, y0, n, n, lo, hi) + ColumnCount(P, x0, y0, n, lo, hi)
            == WindowCount(P, x0, y0, n, n, lo, hi) + ColumnCount(P, x0 + n, y0, n, lo, hi)
  {
    WindowSplitFirst(P, x0, y0, n, n, lo, hi);
  }

  /** Sliding the square window one row down removes its top row and adds
      the row below its bottom edge. */
  lemma SlideDown(P: (int, int) -> int, x0: int, y0: int, n: nat, lo: int, hi: int)
    ensures WindowCount(P, x0, y0 + 1, n, n, lo, hi) + RowCount(P, x0, y0, n, lo, hi)
            == WindowCount(P, x0, y0, n, n, lo, hi) + RowCount(P, x0, y0 + n, n, lo, hi)
  {
    WindowAddRow(P, x0, y0, n, n, lo, hi);
    WindowDropRow(P, x0, y0, n, n, lo, hi);
  }

  lemma {:induction false} ColumnCountSplit(P: (int, int) -> int, x: int, y0: int, n: nat, lo: int, k: int)
    requires lo <= k
    ensures ColumnCount(P, x, y0, n, lo, k) == ColumnCount(P, x, y0, n, lo, k - 1) + ColumnCount(P, x, y0, n, k, k)
    decreases n
  {
    if n > 0 {
      ColumnCountSplit(P, x, y0, n - 1, lo, k);
    }
  }

  /** The pixels in [lo, k] are those in [lo, k - 1] and those equal to k:
      a running sum of histogram bins counts the pixels up to its last bin. */
  lemma {:induction false} WindowCountSplit(P: (int, int) -> int, x0: int, y0: int, nc: nat, nr: nat, lo: int, k: int)
    requires lo <= k
    ensures WindowCount(P, x0, y0, nc, nr, lo, k)
            == WindowCount(P, x0, y0, nc, nr, lo, k - 1) + WindowCount(P, x0, y0, nc, nr, k, k)
    decreases nc
  {
    if nc > 0 {
      WindowCountSplit(P, x0, y0, nc - 1, nr, lo, k);
      ColumnCountSplit(P, x0 + nc - 1, y0, nr, lo, k);
    }
  }

  lemma {:induction false} ColumnCountMonotone(P: (int, int) -> int, x: int, y0: int, n: nat, lo: int, hi: int, hi': int)
    requires hi <= hi'
    ensures ColumnCount(P, x, y0, n, lo, hi) <= ColumnCount(P, x, y0, n, lo, hi')
    decreases n
  {
    if n > 0 {
      ColumnCountMonotone(P, x, y0, n - 1, lo, hi, hi');
    }
  }

  /** Widening the value range never loses pixels. */
  lemma {:induction false} WindowCountMonotone(P: (int, int) -> int, x0: int, y0: int, nc: nat, nr: nat, lo: int, hi: int, hi': int)
    requires hi <= hi'
    ensures WindowCount(P, x0, y0, nc, nr, lo, hi) <= WindowCount(P, x0, y0, nc, nr, lo, hi')
    decreases nc
  {
    if nc > 0 {
      WindowCountMonotone(P, x0, y0, nc - 1, nr, lo, hi, hi');
      ColumnCountMonotone(P, x0 + nc - 1, y0, nr, lo, hi, hi');
    }
  }

  lemma {:induction false} ColumnCountAll(P: (int, int) -> int, x: int, y0: int, n: nat)
    requires Samples12Bit(P)
    ensures ColumnCount(P, x, y0, n, 0, BINS - 1) == n
    decreases n
  {
    if n > 0 {
      ColumnCountAll(P, x, y0, n - 1);
    }
  }

  /** In a 12-bit frame every pixel of a window falls in some bin: the whole
      histogram of an nc-by-nr window sums to nc * nr. */
  lemma {:induction false} WindowCountAll(P: (int, int) -> int, x0: int, y0: int, nc: nat, nr: nat)
    requires Samples12Bit(P)
    ensures WindowCount(P, x0, y0, nc, nr, 0, BINS - 1) == nc * nr
    decreases nc
  {
    if nc > 0 {
      WindowCountAll(P, x0, y0, nc - 1, nr);
      ColumnCountAll(P, x0 + nc - 1, y0, nr);
      assert (nc - 1) * nr + nr == nc * nr;
    }
  }

  /** In a frame where every sample is c, a column has all its pixels in
      [lo, hi] or none. */
  lemma {:induction false} ColumnCountConstant(P: (int, int) -> int, c: int, x: int, y0: int, n: nat, lo: int, hi: int)
    requires forall x, y :: P(x, y) == c
    ensures ColumnCount(P, x, y0, n, lo, hi) == if lo <= c <= hi then n else 0
    decreases n
  {
    if n > 0 {
      ColumnCountConstant(P, c, x, y0, n - 1, lo, hi);
    }
  }

  lemma {:induction false} WindowCountConstant(P: (int, int) -> int, c: int, x0: int, y0: int, nc: nat, nr: nat, lo: int, hi: int)
    requires forall x, y :: P(x, y) == c
    ensures WindowCount(P, x0, y0, nc, nr, lo, hi) == if lo <= c <= hi then nc * nr else 0
    decreases nc
  {
    if nc > 0 {
      WindowCountConstant(P, c, x0, y0, nc - 1, nr, lo, hi);
      ColumnCountConstant(P, c, x0 + nc - 1, y0, nr, lo, hi);
      assert (nc - 1) * nr + nr == nc * nr;
    }
  }

  // ---------------------------------------------------------------------
  // The median as the histogram scan finds it

  /** How many pixels of the n-by-n window at (x0, y0) are at most k. */
  ghost function AtMost(P: (int, int) -> int, x0: int, y0: int, n: nat, k: int): nat
  {
    WindowCount(P, x0, y0, n, n, 0, k)
  }

  /** The bin scan continued from bin k, while at most `middle` pixels have
      been counted. */
  ghost function MedianSearch(P: (int, int) -> int, x0: int, y0: int, n: nat, middle: int, k: nat): (m: nat)
    requires k < BINS
    requires AtMost(P, x0, y0, n, k - 1) <= middle
    ensures k <= m < BINS
    ensures AtMost(P, x0, y0, n, m - 1) <= middle
    ensures AtMost(P, x0, y0, n, m) > middle || m == BINS - 1
    decreases BINS - k
  {
    if AtMost(P, x0, y0, n, k) > middle || k == BINS - 1 then k
    else MedianSearch(P, x0, y0, n, middle, k + 1)
  }

  /** The median of the n-by-n window at (x0, y0): the least bin m for which
      more than `middle` pixels are at most m. */
  ghost function MedianOf(P: (int, int) -> int, x0: int, y0: int, n: nat, middle: nat): (m: nat)
    ensures m < BINS
    ensures AtMost(P, x0, y0, n, m - 1) <= middle
  {
    WindowCountSplit(P, x0, y0, n, n, 0, 0);
    MedianSearch(P, x0, y0, n, middle, 0)
  }

  /** In a 12-bit frame, when the window has more than `middle` pixels, the
      median is the element of rank `middle` (from 0) in sorted order: at
      most `middle` pixels lie below it and more than `middle` lie at or
      below it. */
  lemma MedianIsOrderStatistic(P: (int, int) -> int, x0: int, y0: int, n: nat, middle: nat)
    requires Samples12Bit(P)
    requires n * n > middle
    ensures AtMost(P, x0, y0, n, MedianOf(P, x0, y0, n, middle) - 1) <= middle
    ensures middle < AtMost(P, x0, y0, n, MedianOf(P, x0, y0, n, middle))
  {
    WindowCountAll(P, x0, y0, n, n);
  }

  /** The median of a window of a constant 12-bit frame is that constant. */
  lemma ConstantMedian(P: (int, int) -> int, c: int, x0: int, y0: int, n: nat, middle: nat)
    requires forall x, y :: P(x, y) == c
    requires 0 <= c < BINS && n * n > middle
    ensures MedianOf(P, x0, y0, n, middle) == c
  {
    var m := MedianOf(P, x0, y0, n, middle);
    MedianIsOrderStatistic(P, x0, y0, n, middle);
    if m < c {
      // no pixel is at most m, yet more than `middle` should be
      WindowCountConstant(P, c, x0, y0, n, n, 0, m);
      assert false;
    } else if m > c {
      // every pixel is at most m - 1, yet at most `middle` should be
      WindowCountConstant(P, c, x0, y0, n, n, 0, m - 1);
      assert false;
    }
  }

  /** `middle_element`: the rank of the median in a (2r+1)^2 window. It is
      defined by the growth from radius r - 1 to r (the window gains
      8r cells, the rank 4r), which keeps products out of the walk's
      proofs; MiddleIsHalfSquare ties it to the source's (2r+1)^2 / 2. */
  function Middle(r: nat): nat
  {
    if r == 0 then 0 else Middle(r - 1) + 4 * r
  }

  lemma {:induction false} MiddleIsHalfSquare(r: nat)
    ensures Middle(r) == (2 * r + 1) * (2 * r + 1) / 2
    ensures Middle(r) == 2 * r * r + 2 * r
  {
    if r > 0 {
      MiddleIsHalfSquare(r - 1);
      assert (2 * r + 1) * (2 * r + 1) == 2 * (2 * r * r + 2 * r) + 1;
    } else {
      assert (2 * r + 1) * (2 * r + 1) == 1;
    }
  }

  lemma MiddleInWindow(r: nat)
    ensures (2 * r + 1) * (2 * r + 1) > Middle(r)
  {
    MiddleIsHalfSquare(r);
  }

  /** The median of the window centred at (cx, cy). */
  ghost function MedianAt(P: (int, int) -> int, r: nat, cx: int, cy: int): nat
  {
    MedianOf(P, cx - r, cy - r, 2 * r + 1, Middle(r))
  }

  ghost predicate Interior(w: int, h: int, r: nat, px: int, py: int)
  {
    r <= px < w - r && r <= py < h - r
  }

  /** The value the filter leaves at (px, py): the window median at the first
      window (r, r); the median plus one at every later window, because the
      scan's `k` is written there without the `k--` correction; 0 within r
      of an edge, where the zeroed scratch buffer is never written. */
  ghost function FilteredPixel(P: (int, int) -> int, w: int, h: int, r: nat, px: int, py: int): (v: int)
    ensures 0 <= v <= BINS
  {
    if Interior(w, h, r, px, py) then
      var m := MedianAt(P, r, px, py);
      if px == r && py == r then m else m + 1
    else 0
  }

  /** Every value written is at most 4096 and so fits the 16-bit frame. */
  lemma FilteredPixelBound(P: (int, int) -> int, w: int, h: int, r: nat, px: int, py: int)
    ensures 0 <= FilteredPixel(P, w, h, r, px, py) <= BINS
    ensures !Interior(w, h, r, px, py) ==> FilteredPixel(P, w, h, r, px, py) == 0
  {
  }

  /** A constant frame c comes out as c at the first window (r, r), c + 1
      at every other interior pixel, and 0 on the border. */
  lemma ConstantFrame(P: (int, int) -> int, c: int, w: int, h: int, r: nat, px: int, py: int)
    requires forall x, y :: P(x, y) == c
    requires 0 <= c < BINS
    ensures FilteredPixel(P, w, h, r, px, py)
            == if !Interior(w, h, r, px, py) then 0 else if px == r && py == r then c else c + 1
  {
    if Interior(w, h, r, px, py) {
      MiddleInWindow(r);
      ConstantMedian(P, c, px - r, py - r, 2 * r + 1, Middle(r));
    }
  }

  // ---------------------------------------------------------------------
  // A window's median depends only on the window

  lemma {:induction false} ColumnCountAgree(P: (int, int) -> int, Q: (int, int) -> int, x: int, y0: int, n: nat, lo: int, hi: int)
    requires forall y | y0 <= y < y0 + n :: P(x, y) == Q(x, y)
    ensures ColumnCount(P, x, y0, n, lo, hi) == ColumnCount(Q, x, y0, n, lo, hi)
    decreases n
  {
    if n > 0 {
      ColumnCountAgree(P, Q, x, y0, n - 1, lo, hi);
    }
  }

  lemma {:induction false} WindowCountAgree(P: (int, int) -> int, Q: (int, int) -> int, x0: int, y0: int, nc: nat, nr: nat, lo: int, hi: int)
    requires forall x, y | x0 <= x < x0 + nc && y0 <= y < y0 + nr :: P(x, y) == Q(x, y)
    ensures WindowCount(P, x0, y0, nc, nr, lo, hi) == WindowCount(Q, x0, y0, nc, nr, lo, hi)
    decreases nc
  {
    if nc > 0 {
      WindowCountAgree(P, Q, x0, y0, nc - 1, nr, lo, hi);
      ColumnCountAgree(P, Q, x0 + nc - 1, y0, nr, lo, hi);
    }
  }

  lemma {:induction false} MedianSearchAgree(P: (int, int) -> int, Q: (int, int) -> int, x0: int, y0: int, n: nat, middle: int, k: nat)
    requires forall x, y | x0 <= x < x0 + n && y0 <= y < y0 + n :: P(x, y) == Q(x, y)
    requires k < BINS
    requires AtMost(P, x0, y0, n, k - 1) <= middle && AtMost(Q, x0, y0, n, k - 1) <= middle
    ensures MedianSearch(P, x0, y0, n, middle, k) == MedianSearch(Q, x0, y0, n, middle, k)
    decreases BINS - k
  {
    WindowCountAgree(P, Q, x0, y0, n, n, 0, k);
    if !(AtMost(P, x0, y0, n, k) > middle || k == BINS - 1) {
      MedianSearchAgree(P, Q, x0, y0, n, middle, k + 1);
    }
  }

  /** Frames that agree on a window have the same median there. */
  lemma MedianOfAgree(P: (int, int) -> int, Q: (int, int) -> int, x0: int, y0: int, n: nat, middle: nat)
    requires forall x, y | x0 <= x < x0 + n && y0 <= y < y0 + n :: P(x, y) == Q(x, y)
    ensures MedianOf(P, x0, y0, n, middle) == MedianOf(Q, x0, y0, n, middle)
  {
    WindowCountSplit(P, x0, y0, n, n, 0, 0);
    WindowCountSplit(Q, x0, y0, n, n, 0, 0);
    MedianSearchAgree(P, Q, x0, y0, n, middle, 0);
  }

  // ---------------------------------------------------------------------
  // A saturated 12-bit frame leaves 4096, one past the 12-bit range

  /** A WIDTH-by-HEIGHT frame of 4095s, filtered with the capture radius 3,
      holds 4096 at (4, 3), the second window of the walk. */
  lemma SaturatedFrameGives4096(img: seq<int>)
    requires |img| == PIXELS && forall q | 0 <= q < |img| :: img[q] == 4095
    ensures FilteredPixel(Pixels(img, WIDTH), WIDTH, HEIGHT, 3, 4, 3) == BINS
  {
    var P := Pixels(img, WIDTH);
    var Q: (int, int) -> int := (x, y) => 4095;
    RowStartIsProduct(HEIGHT, WIDTH);
    forall x, y | 1 <= x < 1 + 7 && 0 <= y < 0 + 7
      ensures P(x, y) == Q(x, y)
    {
      PixelIs(img, WIDTH, HEIGHT, x, y);
    }
    MedianOfAgree(P, Q, 1, 0, 7, Middle(3));
    ConstantFrame(Q, 4095, WIDTH, HEIGHT, 3, 4, 3);
  }

  /** The evidently intended output rule: the window median at every
      interior pixel (the `k--` correction applied after every scan), 0
      within r of an edge. */
  ghost function MedianPixel(P: (int, int) -> int, w: int, h: int, r: nat, px: int, py: int): (v: int)
    ensures 0 <= v < BINS
  {
    if Interior(w, h, r, px, py) then MedianAt(P, r, px, py) else 0
  }

  /** Under the intended rule a constant frame c comes out as c at every
      interior pixel, and every output stays in the 12-bit range. */
  lemma MedianPixelConstant(P: (int, int) -> int, c: int, w: int, h: int, r: nat, px: int, py: int)
    requires forall x, y :: P(x, y) == c
    requires 0 <= c < BINS
    ensures MedianPixel(P, w, h, r, px, py) == if Interior(w, h, r, px, py) then c else 0
  {
    if Interior(w, h, r, px, py) {
      MiddleInWindow(r);
      ConstantMedian(P, c, px - r, py - r, 2 * r + 1, Middle(r));
    }
  }

  /** The as-written rule is the intended one plus one at every interior
      pixel but the first window. */
  lemma FilteredIsMedianPlusOne(P: (int, int) -> int, w: int, h: int, r: nat, px: int, py: int)
    ensures FilteredPixel(P, w, h, r, px, py)
            == MedianPixel(P, w, h, r, px, py) + (if Interior(w, h, r, px, py) && (px, py) != (r, r) then 1 else 0)
  {
  }

  // ---------------------------------------------------------------------
  // Traversal state

  /** Rows r, r+2, ... are walked rightwards, the others leftwards. */
  predicate Rightward(r: nat, y: int)
  {
    (y - r) % 2 == 0
  }

  /** Consecutive rows are walked in opposite directions. */
  lemma Alternate(r: nat, y: int)
    ensures Rightward(r, y + 1) <==> !Rightward(r, y)
  {
  }

  /** Pixel (px, py) has been written once the window has reached (cx, cy). */
  ghost predicate Written(w: int, r: nat, px: int, py: int, cx: int, cy: int)
  {
    r <= px < w - r && r <= py &&
    (py < cy || (py == cy && if Rightward(r, cy) then px <= cx else cx <= px))
  }

  /** The scratch buffer holds the final value at every pixel written so far
      and 0 everywhere else. */
  ghost predicate Progress(out: seq<int>, P: (int, int) -> int, w: int, h: int, r: nat, cx: int, cy: int)
  {
    |out| == RowStart(h, w) && InFrame(w, h) &&
    forall px, py {:trigger out[Coord(px, py, w)]} | 0 <= px < w && 0 <= py < h ::
      out[Coord(px, py, w)] == if Written(w, r, px, py, cx, cy) then FilteredPixel(P, w, h, r, px, py) else 0
  }

  /** The moves of the snake walk: one step right on a rightward row, one
      step left on a leftward row, or one step down at the row's end. */
  ghost predicate Step(w: int, r: nat, x0: int, y0: int, x: int, y: int)
  {
    r <= y0 && r <= x < w - r &&
    ((y == y0 && Rightward(r, y) && x == x0 + 1) ||
     (y == y0 && !Rightward(r, y) && x == x0 - 1) ||
     (y == y0 + 1 && Rightward(r, y0) && x == x0 == w - r - 1) ||
     (y == y0 + 1 && !Rightward(r, y0) && x == x0 == r))
  }

  /** Bin v of H counts the pixels of value v in the n-by-n window at (x0, y0). */
  ghost predicate HistOf(hist: seq<int>, P: (int, int) -> int, x0: int, y0: int, n: nat)
  {
    |hist| == BINS && forall v {:trigger hist[v]} | 0 <= v < BINS :: hist[v] == WindowCount(P, x0, y0, n, n, v, v)
  }

  // ---------------------------------------------------------------------
  // The filter

  /** Histogram of the first window: rows 0..n-1, columns 0..n-1. */
  method AccumulateFirstWindow(raw: array<u16>, H: array<int>, w: int, h: int, n: nat, ghost P: (int, int) -> int)
    requires n <= w && n <= h
    requires Shows(P, raw, w, h) && Samples12Bit(P)
    requires H.Length == BINS && forall v | 0 <= v < BINS :: H[v] == 0
    modifies H
    ensures HistOf(H[..], P, 0, 0, n)
  {
    forall v | 0 <= v < BINS
      ensures H[v] == WindowCount(P, 0, 0, n, 0, v, v)
    {
      WindowNoRows(P, 0, 0, n, v, v);
    }
    for j := 0 to n
      invariant forall v | 0 <= v < BINS :: H[v] == WindowCount(P, 0, 0, n, j, v, v)
    {
      for i := 0 to n
        invariant forall v | 0 <= v < BINS :: H[v] == WindowCount(P, 0, 0, n, j, v, v) + RowCount(P, 0, j, i, v, v)
      {
        H[raw[Coord(i, j, w)]] := H[raw[Coord(i, j, w)]] + 1;
      }
      forall v | 0 <= v < BINS
        ensures H[v] == WindowCount(P, 0, 0, n, j + 1, v, v)
      {
        WindowAddRow(P, 0, 0, n, j, v, v);
      }
    }
  }

  /** One histogram update: bin `drop` loses a pixel, then bin `add` gains one. */
  function Exchange(hist: seq<int>, drop: int, add: int): (hist': seq<int>)
    requires 0 <= drop < |hist| && 0 <= add < |hist|
    ensures |hist'| == |hist|
  {
    var h1 := hist[drop := hist[drop] - 1];
    h1[add := h1[add] + 1]
  }

  /** After i rows of a column exchange, hist is base with the first i pixels
      of column xOut taken out and those of column xIn put in. */
  ghost predicate ColumnsExchanged(P: (int, int) -> int, xOut: int, xIn: int, y0: int, i: nat, base: seq<int>, hist: seq<int>)
  {
    |base| == BINS && |hist| == BINS &&
    forall v {:trigger hist[v]} | 0 <= v < BINS ::
      hist[v] + ColumnCount(P, xOut, y0, i, v, v) == base[v] + ColumnCount(P, xIn, y0, i, v, v)
  }

  /** The row counterpart of ColumnsExchanged. */
  ghost predicate RowsExchanged(P: (int, int) -> int, x0: int, yOut: int, yIn: int, i: nat, base: seq<int>, hist: seq<int>)
  {
    |base| == BINS && |hist| == BINS &&
    forall v {:trigger hist[v]} | 0 <= v < BINS ::
      hist[v] + RowCount(P, x0, yOut, i, v, v) == base[v] + RowCount(P, x0, yIn, i, v, v)
  }

  lemma ColumnsExchangeStep(P: (int, int) -> int, xOut: int, xIn: int, y0: int, i: nat, base: seq<int>, hist: seq<int>)
    requires Samples12Bit(P)
    requires ColumnsExchanged(P, xOut, xIn, y0, i, base, hist)
    ensures ColumnsExchanged(P, xOut, xIn, y0, i + 1, base, Exchange(hist, P(xOut, y0 + i), P(xIn, y0 + i)))
  {
  }

  lemma RowsExchangeStep(P: (int, int) -> int, x0: int, yOut: int, yIn: int, i: nat, base: seq<int>, hist: seq<int>)
    requires Samples12Bit(P)
    requires RowsExchanged(P, x0, yOut, yIn, i, base, hist)
    ensures RowsExchanged(P, x0, yOut, yIn, i + 1, base, Exchange(hist, P(x0 + i, yOut), P(x0 + i, yIn)))
  {
  }

  /** `Histogram[drop]--; Histogram[add]++;` for one pixel pair. */
  method ExchangeOne(H: array<int>, drop: int, add: int)
    requires 0 <= drop < H.Length && 0 <= add < H.Length
    modifies H
    ensures H[..] == Exchange(old(H[..]), drop, add)
  {
    H[drop] := H[drop] - 1;
    H[add] := H[add] + 1;
  }

  /** For each of the n rows from y0: drop pixel (xOut, row) from the
      histogram and add pixel (xIn, row). */
  method ExchangeColumns(raw: array<u16>, H: array<int>, w: int, h: int, xOut: int, xIn: int, y0: int, n: nat,
                         ghost P: (int, int) -> int)
    requires 0 <= xOut < w && 0 <= xIn < w && 0 <= y0 && y0 + n <= h
    requires Shows(P, raw, w, h) && Samples12Bit(P)
    requires H.Length == BINS
    modifies H
    ensures ColumnsExchanged(P, xOut, xIn, y0, n, old(H[..]), H[..])
  {
    ghost var base := H[..];
    for i := 0 to n
      invariant ColumnsExchanged(P, xOut, xIn, y0, i, base, H[..])
    {
      ghost var before := H[..];
      var drop := raw[Coord(xOut, y0 + i, w)];
      var add := raw[Coord(xIn, y0 + i, w)];
      ExchangeOne(H, drop as int, add as int);
      ColumnsExchangeStep(P, xOut, xIn, y0, i, base, before);
    }
  }

  /** For each of the n columns from x0: drop pixel (column, yOut) from the
      histogram and add pixel (column, yIn). */
  method ExchangeRows(raw: array<u16>, H: array<int>, w: int, h: int, x0: int, yOut: int, yIn: int, n: nat,
                      ghost P: (int, int) -> int)
    requires 0 <= x0 && x0 + n <= w && 0 <= yOut < h && 0 <= yIn < h
    requires Shows(P, raw, w, h) && Samples12Bit(P)
    requires H.Length == BINS
    modifies H
    ensures RowsExchanged(P, x0, yOut, yIn, n, old(H[..]), H[..])
  {
    ghost var base := H[..];
    for i := 0 to n
      invariant RowsExchanged(P, x0, yOut, yIn, i, base, H[..])
    {
      ghost var before := H[..];
      var drop := raw[Coord(x0 + i, yOut, w)];
      var add := raw[Coord(x0 + i, yIn, w)];
      ExchangeOne(H, drop as int, add as int);
      RowsExchangeStep(P, x0, yOut, yIn, i, base, before);
    }
  }

  /** The counts behind SlideRight and SlideLeft: exchanging the leaving column for
      the entering one turns the histogram of the window at x0 into that of
      the window at x1. */
  lemma ColumnsSlid(P: (int, int) -> int, xOut: int, xIn: int, y0: int, n: nat, x0: int, x1: int,
                    base: seq<int>, hist: seq<int>)
    requires (xOut == x0 && xIn == x0 + n && x1 == x0 + 1) || (xOut == x0 + n - 1 && xIn == x0 - 1 && x1 == x0 - 1)
    requires HistOf(base, P, x0, y0, n)
    requires ColumnsExchanged(P, xOut, xIn, y0, n, base, hist)
    ensures HistOf(hist, P, x1, y0, n)
  {
    forall v | 0 <= v < BINS
      ensures hist[v] == WindowCount(P, x1, y0, n, n, v, v)
    {
      if x1 == x0 + 1 {
        SlideAcross(P, x0, y0, n, v, v);
      } else {
        SlideAcross(P, x1, y0, n, v, v);
      }
    }
  }

  /** The counts behind SlideRows. */
  lemma RowsSlid(P: (int, int) -> int, x0: int, yOut: int, yIn: int, n: nat, y1: int,
                 base: seq<int>, hist: seq<int>)
    requires yIn == yOut + n && y1 == yOut + 1
    requires HistOf(base, P, x0, yOut, n)
    requires RowsExchanged(P, x0, yOut, yIn, n, base, hist)
    ensures HistOf(hist, P, x0, y1, n)
  {
    forall v | 0 <= v < BINS
      ensures hist[v] == WindowCount(P, x0, y1, n, n, v, v)
    {
      SlideDown(P, x0, yOut, n, v, v);
    }
  }

  /** Move the histogram of the n-by-n window at (x0, y0) one column
      right: column x0 leaves it and column x0 + n enters it. */
  method SlideRight(raw: array<u16>, H: array<int>, w: int, h: int, x0: int, y0: int, n: nat,
                    ghost P: (int, int) -> int)
    requires 0 <= x0 && x0 + n < w && 0 <= y0 && y0 + n <= h
    requires Shows(P, raw, w, h) && Samples12Bit(P)
    requires HistOf(H[..], P, x0, y0, n)
    modifies H
    ensures HistOf(H[..], P, x0 + 1, y0, n)
  {
    ghost var base := H[..];
    ExchangeColumns(raw, H, w, h, x0, x0 + n, y0, n, P);
    ColumnsSlid(P, x0, x0 + n, y0, n, x0, x0 + 1, base, H[..]);
  }

  /** Move the histogram of the n-by-n window at (x0, y0) one column left:
      column x0 + n - 1 leaves it and column x0 - 1 enters it. */
  method SlideLeft(raw: array<u16>, H: array<int>, w: int, h: int, x0: int, y0: int, n: nat,
                   ghost P: (int, int) -> int)
    requires 0 < x0 && x0 + n <= w && 0 <= y0 && y0 + n <= h && n > 0
    requires Shows(P, raw, w, h) && Samples12Bit(P)
    requires HistOf(H[..], P, x0, y0, n)
    modifies H
    ensures HistOf(H[..], P, x0 - 1, y0, n)
  {
    ghost var base := H[..];
    ExchangeColumns(raw, H, w, h, x0 + n - 1, x0 - 1, y0, n, P);
    ColumnsSlid(P, x0 + n - 1, x0 - 1, y0, n, x0, x0 - 1, base, H[..]);
  }

  /** Move the histogram of the n-by-n window at (x0, yOut) one row down to
      (x0, y1): row yOut leaves it and row yIn == yOut + n enters it. */
  method SlideRows(raw: array<u16>, H: array<int>, w: int, h: int, x0: int, yOut: int, yIn: int, n: nat,
                   ghost P: (int, int) -> int, ghost y1: int)
    requires 0 <= x0 && x0 + n <= w && 0 <= yOut && yIn == yOut + n && yIn < h && y1 == yOut + 1
    requires Shows(P, raw, w, h) && Samples12Bit(P)
    requires HistOf(H[..], P, x0, yOut, n)
    modifies H
    ensures HistOf(H[..], P, x0, y1, n)
  {
    ghost var base := H[..];
    ExchangeRows(raw, H, w, h, x0, yOut, yIn, n, P);
    RowsSlid(P, x0, yOut, yIn, n, y1, base, H[..]);
  }

  /** The median scan `while (sum <= middle) { sum += Histogram[k]; k++; }`
      over the histogram of the n-by-n window at (x0, y0). It returns the
      scan's final `k`, one past the median bin. */
  method ScanHistogram(H: array<int>, middle: nat, ghost P: (int, int) -> int, ghost x0: int, ghost y0: int, ghost n: nat)
    returns (k: int)
    requires Samples12Bit(P) && n * n > middle
    requires HistOf(H[..], P, x0, y0, n)
    ensures k == MedianOf(P, x0, y0, n, middle) + 1
  {
    MedianIsOrderStatistic(P, x0, y0, n, middle);
    ghost var m := MedianOf(P, x0, y0, n, middle);
    var sum := 0;
    k := 0;
    WindowCountSplit(P, x0, y0, n, n, 0, 0);
    while sum <= middle
      invariant 0 <= k <= m + 1
      invariant sum == AtMost(P, x0, y0, n, k - 1)
      decreases m + 1 - k
    {
      assert k <= m;
      WindowCountSplit(P, x0, y0, n, n, 0, k);
      sum := sum + H[k];
      k := k + 1;
    }
    ScanEnd(P, x0, y0, n, middle, k);
  }

  /** A scan that has passed `middle` pixels without passing the median bin
      stops one past the median bin. */
  lemma ScanEnd(P: (int, int) -> int, x0: int, y0: int, n: nat, middle: nat, k: int)
    requires Samples12Bit(P) && n * n > middle
    requires 0 <= k <= MedianOf(P, x0, y0, n, middle) + 1
    requires AtMost(P, x0, y0, n, k - 1) > middle
    ensures k == MedianOf(P, x0, y0, n, middle) + 1
  {
    var m := MedianOf(P, x0, y0, n, middle);
    if k <= m {
      WindowCountMonotone(P, x0, y0, n, n, 0, k - 1, m - 1);
    }
  }

  /** One step of the walk writes exactly the pixel it moves to, and that
      pixel was not written before: each interior pixel is written once. */
  lemma WrittenStep(w: int, r: nat, x0: int, y0: int, x: int, y: int, px: int, py: int)
    requires Step(w, r, x0, y0, x, y)
    ensures Written(w, r, px, py, x, y) <==> Written(w, r, px, py, x0, y0) || (px == x && py == y)
    ensures !Written(w, r, x, y, x0, y0)
  {
    Alternate(r, y0);
  }

  /** Writing the value for the pixel the walk moves to keeps Progress. */
  lemma EmitStep(out: seq<int>, P: (int, int) -> int, w: int, h: int, r: nat, x: int, y: int, value: int, x0: int, y0: int)
    requires Progress(out, P, w, h, r, x0, y0)
    requires Step(w, r, x0, y0, x, y) && 2 * r + 1 <= w && y < h - r
    requires value == FilteredPixel(P, w, h, r, x, y)
    ensures 0 <= Coord(x, y, w) < |out|
    ensures Progress(out[Coord(x, y, w) := value], P, w, h, r, x, y)
  {
    CoordInFrame(x, y, w, h);
    var out' := out[Coord(x, y, w) := value];
    forall px, py | 0 <= px < w && 0 <= py < h
      ensures out'[Coord(px, py, w)] == if Written(w, r, px, py, x, y) then FilteredPixel(P, w, h, r, px, py) else 0
    {
      WrittenStep(w, r, x0, y0, x, y, px, py);
      if px != x || py != y {
        CoordDistinct(w, x, y, px, py);
      }
    }
  }

  /** Store one output value in the scratch buffer. */
  method Emit(filter: array<u16>, ghost P: (int, int) -> int, w: int, h: int, r: nat, x: int, y: int, value: u16,
              ghost x0: int, ghost y0: int)
    requires Progress(filter[..], P, w, h, r, x0, y0)
    requires Step(w, r, x0, y0, x, y) && 2 * r + 1 <= w && y < h - r
    requires value == FilteredPixel(P, w, h, r, x, y)
    modifies filter
    ensures Progress(filter[..], P, w, h, r, x, y)
  {
    EmitStep(filter[..], P, w, h, r, x, y, value, x0, y0);
    filter[Coord(x, y, w)] := value;
  }

  /** The value written at a window other than the first: the scan's final
      `k`, one past the median bin. */
  method NextValue(H: array<int>, r: nat, middle: nat, ghost P: (int, int) -> int,
                   w: int, h: int, x: int, y: int) returns (k: u16)
    requires Samples12Bit(P) && middle == Middle(r)
    requires HistOf(H[..], P, x - r, y - r, 2 * r + 1)
    requires Interior(w, h, r, x, y) && (x != r || y != r)
    ensures k == FilteredPixel(P, w, h, r, x, y)
  {
    MiddleInWindow(r);
    var scanned := ScanHistogram(H, middle, P, x - r, y - r, 2 * r + 1);
    k := scanned;
  }

  /** What stays fixed during one call of the filter: raw holds the 12-bit
      samples P, and the scratch buffer is another array. */
  ghost predicate Walk(raw: array<u16>, filter: array<u16>, P: (int, int) -> int, w: int, h: int, r: nat)
    reads raw
  {
    raw != filter && Shows(P, raw, w, h) &&
    Samples12Bit(P) && 2 * r + 1 <= w && 2 * r + 1 <= h
  }

  /** The window centred at (x, y) moves one column right; returns the
      value for its new centre. */
  method WindowRight(raw: array<u16>, H: array<int>, w: int, h: int, r: nat, middle: nat, x: int, y: int,
                     ghost P: (int, int) -> int) returns (k: u16)
    requires Shows(P, raw, w, h) && Samples12Bit(P) && middle == Middle(r)
    requires r <= y < h - r && r <= x < w - r - 1
    requires HistOf(H[..], P, x - r, y - r, 2 * r + 1)
    modifies H
    ensures HistOf(H[..], P, x + 1 - r, y - r, 2 * r + 1)
    ensures k == FilteredPixel(P, w, h, r, x + 1, y)
  {
    SlideRight(raw, H, w, h, x - r, y - r, 2 * r + 1, P);
    assert HistOf(H[..], P, x + 1 - r, y - r, 2 * r + 1);
    k := NextValue(H, r, middle, P, w, h, x + 1, y);
  }

  /** The window centred at (x, y) moves one column left; returns the value
      for its new centre. */
  method WindowLeft(raw: array<u16>, H: array<int>, w: int, h: int, r: nat, middle: nat, x: int, y: int,
                    ghost P: (int, int) -> int) returns (k: u16)
    requires Shows(P, raw, w, h) && Samples12Bit(P) && middle == Middle(r)
    requires r < y < h - r && r < x <= w - r - 1
    requires HistOf(H[..], P, x - r, y - r, 2 * r + 1)
    modifies H
    ensures HistOf(H[..], P, x - 1 - r, y - r, 2 * r + 1)
    ensures k == FilteredPixel(P, w, h, r, x - 1, y)
  {
    SlideLeft(raw, H, w, h, x - r, y - r, 2 * r + 1, P);
    assert HistOf(H[..], P, x - 1 - r, y - r, 2 * r + 1);
    k := NextValue(H, r, middle, P, w, h, x - 1, y);
  }

  /** The window centred at (x, y) moves one row down; returns the value for
      its new centre. */
  method WindowDown(raw: array<u16>, H: array<int>, w: int, h: int, r: nat, middle: nat, x: int, y: int,
                    ghost P: (int, int) -> int) returns (k: u16)
    requires Shows(P, raw, w, h) && Samples12Bit(P) && middle == Middle(r)
    requires r <= y && y + 1 < h - r && r <= x < w - r
    requires HistOf(H[..], P, x - r, y - r, 2 * r + 1)
    modifies H
    ensures HistOf(H[..], P, x - r, y + 1 - r, 2 * r + 1)
    ensures k == FilteredPixel(P, w, h, r, x, y + 1)
  {
    SlideRows(raw, H, w, h, x - r, y - r, y + r + 1, 2 * r + 1, P, y + 1 - r);
    assert HistOf(H[..], P, x - r, y + 1 - r, 2 * r + 1);
    k := NextValue(H, r, middle, P, w, h, x, y + 1);
  }

  /** One step right along row y: the window centred at x moves to x + 1,
      and the value for x + 1 is written. */
  method StepRight(raw: array<u16>, filter: array<u16>, H: array<int>, w: int, h: int, r: nat, middle: nat,
                   x: int, y: int, ghost P: (int, int) -> int)
    requires Walk(raw, filter, P, w, h, r) && middle == Middle(r)
    requires r <= y < h - r && Rightward(r, y) && r <= x < w - r - 1
    requires HistOf(H[..], P, x - r, y - r, 2 * r + 1)
    requires Progress(filter[..], P, w, h, r, x, y)
    modifies H, filter
    ensures Walk(raw, filter, P, w, h, r)
    ensures HistOf(H[..], P, x + 1 - r, y - r, 2 * r + 1)
    ensures Progress(filter[..], P, w, h, r, x + 1, y)
  {
    var k := WindowRight(raw, H, w, h, r, middle, x, y, P);
    Emit(filter, P, w, h, r, x + 1, y, k, x, y);
  }

  /** One step left along row y: the window centred at x moves to x - 1,
      and the value for x - 1 is written. */
  method StepLeft(raw: array<u16>, filter: array<u16>, H: array<int>, w: int, h: int, r: nat, middle: nat,
                  x: int, y: int, ghost P: (int, int) -> int)
    requires Walk(raw, filter, P, w, h, r) && middle == Middle(r)
    requires r < y < h - r && !Rightward(r, y) && r < x <= w - r - 1
    requires HistOf(H[..], P, x - r, y - r, 2 * r + 1)
    requires Progress(filter[..], P, w, h, r, x, y)
    modifies H, filter
    ensures Walk(raw, filter, P, w, h, r)
    ensures HistOf(H[..], P, x - 1 - r, y - r, 2 * r + 1)
    ensures Progress(filter[..], P, w, h, r, x - 1, y)
  {
    var k := WindowLeft(raw, H, w, h, r, middle, x, y, P);
    Emit(filter, P, w, h, r, x - 1, y, k, x, y);
  }

  /** The window walks right along row y, from centre (r, y) to (w-r-1, y). */
  method SweepRight(raw: array<u16>, filter: array<u16>, H: array<int>, w: int, h: int, r: nat, middle: nat, y: int,
                    ghost P: (int, int) -> int)
    requires Walk(raw, filter, P, w, h, r) && middle == Middle(r)
    requires r <= y < h - r && Rightward(r, y)
    requires HistOf(H[..], P, 0, y - r, 2 * r + 1)
    requires Progress(filter[..], P, w, h, r, r, y)
    modifies H, filter
    ensures Walk(raw, filter, P, w, h, r)
    ensures HistOf(H[..], P, w - r - 1 - r, y - r, 2 * r + 1)
    ensures Progress(filter[..], P, w, h, r, w - r - 1, y)
  {
    var x := r;
    while x < w - r - 1
      invariant r <= x <= w - r - 1
      invariant HistOf(H[..], P, x - r, y - r, 2 * r + 1)
      invariant Progress(filter[..], P, w, h, r, x, y)
    {
      StepRight(raw, filter, H, w, h, r, middle, x, y, P);
      x := x + 1;
    }
    assert x - r == w - r - 1 - r;
  }

  /** The window walks left along row y, from centre (w-r-1, y) to (r, y). */
  method SweepLeft(raw: array<u16>, filter: array<u16>, H: array<int>, w: int, h: int, r: nat, middle: nat, y: int,
                   ghost P: (int, int) -> int)
    requires Walk(raw, filter, P, w, h, r) && middle == Middle(r)
    requires r < y < h - r && !Rightward(r, y)
    requires HistOf(H[..], P, w - r - 1 - r, y - r, 2 * r + 1)
    requires Progress(filter[..], P, w, h, r, w - r - 1, y)
    modifies H, filter
    ensures Walk(raw, filter, P, w, h, r)
    ensures HistOf(H[..], P, 0, y - r, 2 * r + 1)
    ensures Progress(filter[..], P, w, h, r, r, y)
  {
    var x := w - r - 1;
    while x > r
      invariant r <= x <= w - r - 1
      invariant HistOf(H[..], P, x - r, y - r, 2 * r + 1)
      invariant Progress(filter[..], P, w, h, r, x, y)
    {
      StepLeft(raw, filter, H, w, h, r, middle, x, y, P);
      x := x - 1;
    }
  }

  lemma DownStep(w: int, r: nat, x: int, y: int)
    requires r <= y && 2 * r + 1 <= w
    requires (Rightward(r, y) && x == w - r - 1) || (!Rightward(r, y) && x == r)
    ensures Step(w, r, x, y, x, y + 1)
  {
  }

  /** At the end of row y (centre x) the window moves down to row y + 1. */
  method MoveDown(raw: array<u16>, filter: array<u16>, H: array<int>, w: int, h: int, r: nat, middle: nat, x: int, y: int,
                  ghost P: (int, int) -> int)
    requires Walk(raw, filter, P, w, h, r) && middle == Middle(r)
    requires r <= y && y + 1 < h - r && Step(w, r, x, y, x, y + 1)
    requires HistOf(H[..], P, x - r, y - r, 2 * r + 1)
    requires Progress(filter[..], P, w, h, r, x, y)
    modifies H, filter
    ensures Walk(raw, filter, P, w, h, r)
    ensures HistOf(H[..], P, x - r, y + 1 - r, 2 * r + 1)
    ensures Progress(filter[..], P, w, h, r, x, y + 1)
  {
    var k := WindowDown(raw, H, w, h, r, middle, x, y, P);
    assert Progress(filter[..], P, w, h, r, x, y);
    Emit(filter, P, w, h, r, x, y + 1, k, x, y);
  }

  /** The first window, centred at (r, r): its histogram is built from
      scratch and the scan's `k - 1`, the median itself, is written. */
  method FirstWindow(raw: array<u16>, filter: array<u16>, H: array<int>, w: int, h: int, r: nat, middle: nat,
                     ghost P: (int, int) -> int)
    requires Walk(raw, filter, P, w, h, r) && middle == Middle(r)
    requires H.Length == BINS && forall v | 0 <= v < BINS :: H[v] == 0
    requires Progress(filter[..], P, w, h, r, r - 1, r)
    modifies H, filter
    ensures HistOf(H[..], P, 0, 0, 2 * r + 1)
    ensures Progress(filter[..], P, w, h, r, r, r)
  {
    AccumulateFirstWindow(raw, H, w, h, 2 * r + 1, P);
    MiddleInWindow(r);
    var k := ScanHistogram(H, middle, P, 0, 0, 2 * r + 1);
    Emit(filter, P, w, h, r, r, r, k - 1, r - 1, r);
  }

  /** Every pixel of the frame holds its final value. */
  ghost predicate Complete(out: seq<int>, P: (int, int) -> int, w: int, h: int, r: nat)
  {
    |out| == RowStart(h, w) && InFrame(w, h) &&
    forall px, py {:trigger out[Coord(px, py, w)]} | 0 <= px < w && 0 <= py < h ::
      out[Coord(px, py, w)] == FilteredPixel(P, w, h, r, px, py)
  }

  /** Once the walk has finished the last interior row, every pixel is done. */
  lemma Finished(out: seq<int>, P: (int, int) -> int, w: int, h: int, r: nat, cx: int, cy: int)
    requires r <= cy < h - r <= cy + 1
    requires Progress(out, P, w, h, r, cx, cy)
    requires (Rightward(r, cy) && cx == w - r - 1) || (!Rightward(r, cy) && cx == r)
    ensures Complete(out, P, w, h, r)
  {
  }


  /** The first half of the walk's loop: the rightward sweep of row y,
      then, unless y is the last row the windows reach, the step down at
      the row's end. `done` tells that the walk is over. */
  method RightHalf(raw: array<u16>, filter: array<u16>, H: array<int>, w: int, h: int, r: nat, middle: nat, y: int,
                   ghost P: (int, int) -> int) returns (done: bool)
    requires Walk(raw, filter, P, w, h, r) && middle == Middle(r)
    requires r <= y < h - r && Rightward(r, y)
    requires HistOf(H[..], P, 0, y - r, 2 * r + 1)
    requires Progress(filter[..], P, w, h, r, r, y)
    modifies H, filter
    ensures Walk(raw, filter, P, w, h, r)
    ensures done <==> y + 1 >= h - r
    ensures done ==> Complete(filter[..], P, w, h, r)
    ensures !done ==> HistOf(H[..], P, w - r - 1 - r, y + 1 - r, 2 * r + 1) &&
                      Progress(filter[..], P, w, h, r, w - r - 1, y + 1)
  {
    SweepRight(raw, filter, H, w, h, r, middle, y, P);
    if y + 1 >= h - r {
      Finished(filter[..], P, w, h, r, w - r - 1, y);
      return true;
    }
    DownStep(w, r, w - r - 1, y);
    MoveDown(raw, filter, H, w, h, r, middle, w - r - 1, y, P);
    return false;
  }

  /** The second half: the leftward sweep of row y, then, unless it is the
      last row, the step down at the row's start. */
  method LeftHalf(raw: array<u16>, filter: array<u16>, H: array<int>, w: int, h: int, r: nat, middle: nat, y: int,
                  ghost P: (int, int) -> int) returns (done: bool)
    requires Walk(raw, filter, P, w, h, r) && middle == Middle(r)
    requires r < y < h - r && !Rightward(r, y)
    requires HistOf(H[..], P, w - r - 1 - r, y - r, 2 * r + 1)
    requires Progress(filter[..], P, w, h, r, w - r - 1, y)
    modifies H, filter
    ensures Walk(raw, filter, P, w, h, r)
    ensures done <==> y + 1 >= h - r
    ensures done ==> Complete(filter[..], P, w, h, r)
    ensures !done ==> HistOf(H[..], P, 0, y + 1 - r, 2 * r + 1) &&
                      Progress(filter[..], P, w, h, r, r, y + 1)
  {
    SweepLeft(raw, filter, H, w, h, r, middle, y, P);
    if y + 1 >= h - r {
      Finished(filter[..], P, w, h, r, r, y);
      return true;
    }
    DownStep(w, r, r, y);
    MoveDown(raw, filter, H, w, h, r, middle, r, y, P);
    return false;
  }

  /** The snake walk over every interior centre after the first: right along
      rows r, r+2, ..., left along rows r+1, r+3, ..., down at each row's end. */
  method WalkFrame(raw: array<u16>, filter: array<u16>, H: array<int>, w: int, h: int, r: nat, middle: nat,
                   ghost P: (int, int) -> int)
    requires Walk(raw, filter, P, w, h, r) && middle == Middle(r)
    requires HistOf(H[..], P, 0, 0, 2 * r + 1)
    requires Progress(filter[..], P, w, h, r, r, r)
    modifies H, filter
    ensures Complete(filter[..], P, w, h, r)
  {
    var y := r;
    while true
      invariant Walk(raw, filter, P, w, h, r)
      invariant r <= y < h - r
      invariant Rightward(r, y) ==> HistOf(H[..], P, 0, y - r, 2 * r + 1) &&
                                    Progress(filter[..], P, w, h, r, r, y)
      invariant !Rightward(r, y) ==> r < y && HistOf(H[..], P, w - r - 1 - r, y - r, 2 * r + 1) &&
                                     Progress(filter[..], P, w, h, r, w - r - 1, y)
      decreases h - y
    {
      var done;
      if Rightward(r, y) {
        done := RightHalf(raw, filter, H, w, h, r, middle, y, P);
      } else {
        done := LeftHalf(raw, filter, H, w, h, r, middle, y, P);
      }
      if done {
        return;
      }
      Alternate(r, y);
      y := y + 1;
    }
  }

  lemma PixelsShow(raw: array<u16>, img: seq<int>, w: int, h: int)
    requires raw[..] == img && raw.Length == RowStart(h, w)
    ensures Shows(Pixels(img, w), raw, w, h)
  {
    FrameIndices(w, h);
  }

  /** `Camera::medianFilter(radius)`: after the call every pixel holds
      FilteredPixel of the original frame. */
  method Filter(raw: array<u16>, w: int, h: int, radius: nat)
    requires 2 * radius + 1 <= w && 2 * radius + 1 <= h
    requires raw.Length == w * h
    requires forall q | 0 <= q < raw.Length :: raw[q] < BINS
    modifies raw
    ensures forall px, py | 0 <= px < w && 0 <= py < h ::
      0 <= Coord(px, py, w) < raw.Length && raw[Coord(px, py, w)] == FilteredPixel(Pixels(old(raw[..]), w), w, h, radius, px, py)
  {
    RowStartIsProduct(h, w);
    ghost var img := raw[..];
    ghost var P := Pixels(img, w);
    PixelsInRange(img, w);
    PixelsShow(raw, img, w, h);
    var filter := new u16[raw.Length](_ => 0);
    var H := new int[BINS](_ => 0);
    var n := 2 * radius + 1;
    var middle := (n * n) / 2;
    MiddleIsHalfSquare(radius);
    assert Walk(raw, filter, P, w, h, radius);
    FirstWindow(raw, filter, H, w, h, radius, middle, P);
    WalkFrame(raw, filter, H, w, h, radius, middle, P);
    // memcpy(rawPtr, filterPtr, ImageSize)
    forall q | 0 <= q < raw.Length {
      raw[q] := filter[q];
    }
  }

  /** The 7-by-7 window of the capture path: radius 3, middle element 24. */
  lemma SevenBySeven()
    ensures 2 * 3 + 1 == 7 && Middle(3) == 24
  {
  }

  /** Frame capture: a Mono16 frame of WIDTH by HEIGHT samples is median
      filtered with radius 3 in place; any other frame is left as it is. */
  method CaptureFilter(raw: array<u16>, mono16: bool)
    requires raw.Length == PIXELS
    requires mono16 ==> forall q | 0 <= q < raw.Length :: raw[q] < BINS
    modifies raw
    ensures mono16 ==> forall px, py | 0 <= px < WIDTH && 0 <= py < HEIGHT ::
      0 <= Coord(px, py, WIDTH) < raw.Length &&
      raw[Coord(px, py, WIDTH)] == FilteredPixel(Pixels(old(raw[..]), WIDTH), WIDTH, HEIGHT, 3, px, py)
    ensures !mono16 ==> raw[..] == old(raw[..])
  {
    if mono16 {
      Filter(raw, WIDTH, HEIGHT, 3);
    }
  }
}
