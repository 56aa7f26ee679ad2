/**
 * The occupancy map (src/readmap.rs): the black-pixel threshold, the tight
 * bounding box of the navigable (non-black) pixels, the obstruction test for
 * a point and the sampled collision test for a segment.
 */
module ReadMap {
  import opened Structs

  /** An 8-bit colour channel. */
  newtype u8 = x: int | 0 <= x < 256

  /** The largest value of a Rust `u32`. */
  const U32Max: nat := 0xFFFF_FFFF

  /** A pixel of an RGB image. */
  datatype Rgb = Rgb(r: u8, g: u8, b: u8)

  /** A width-by-height RGB image; `pixels[y][x]` is the pixel at column x, row y. */
  datatype Image = Image(width: nat, height: nat, pixels: seq<seq<Rgb>>)

  /** Every row exists and has `width` pixels. */
  ghost predicate ValidImage(img: Image) {
    |img.pixels| == img.height && forall y :: 0 <= y < img.height ==> |img.pixels[y]| == img.width
  }

  /** `get_pixel(x, y)`. */
  function GetPixel(img: Image, x: nat, y: nat): Rgb
    requires ValidImage(img) && x < img.width && y < img.height
  {
    img.pixels[y][x]
  }

  /** Channels strictly below this value count as black. */
  const Threshold: u8 := 50

  /** `is_black`: all three channels below the threshold. */
  predicate IsBlack(p: Rgb) {
    p.r < Threshold && p.g < Threshold && p.b < Threshold
  }

  /** Row y holds a non-black pixel. */
  ghost predicate RowNonBlack(img: Image, y: nat)
    requires ValidImage(img) && y < img.height
  {
    exists x :: 0 <= x < img.width && !IsBlack(GetPixel(img, x, y))
  }

  /** Column x holds a non-black pixel in rows y0..=y1. */
  ghost predicate ColumnNonBlack(img: Image, x: nat, y0: nat, y1: nat)
    requires ValidImage(img) && x < img.width && y1 < img.height
  {
    exists y :: y0 <= y <= y1 && !IsBlack(GetPixel(img, x, y))
  }

  /** The image holds some non-black pixel. */
  ghost predicate AnyNonBlack(img: Image)
    requires ValidImage(img)
  {
    exists x, y :: 0 <= x < img.width && 0 <= y < img.height && !IsBlack(GetPixel(img, x, y))
  }

  /** The inner loop over one row of `find_bounds`: does the row hold a non-black pixel? */
  method ScanRow(img: Image, y: nat) returns (found: bool)
    requires ValidImage(img) && y < img.height
    ensures found <==> RowNonBlack(img, y)
  {
    found := false;
    var x := 0;
    while x < img.width
      invariant 0 <= x <= img.width
      invariant forall x' :: 0 <= x' < x ==> IsBlack(GetPixel(img, x', y))
    {
      if !IsBlack(GetPixel(img, x, y)) {
        found := true;
        break;
      }
      x := x + 1;
    }
  }

  /** The inner loop over one column of `find_bounds`, rows y0..=y1. */
  method ScanColumn(img: Image, x: nat, y0: nat, y1: nat) returns (found: bool)
    requires ValidImage(img) && x < img.width && y1 < img.height
    ensures found <==> ColumnNonBlack(img, x, y0, y1)
  {
    found := false;
    var y := y0;
    while y <= y1
      invariant y0 <= y <= y1 + 1 || y == y0
      invariant forall y' :: y0 <= y' < y && y' <= y1 ==> IsBlack(GetPixel(img, x, y'))
    {
      if !IsBlack(GetPixel(img, x, y)) {
        found := true;
        break;
      }
      y := y + 1;
    }
  }

  /** A box of pixel coordinates, both ends inclusive. */
  datatype Bounds = Bounds(xMin: nat, yMin: nat, xMax: nat, yMax: nat)

  /**
   * `find_bounds`: with a non-black pixel present, the tightest box holding
   * every non-black pixel, each side touching one; with none, the defaults
   * (0, 0, width-1, height-1). `height - 1` and `width - 1` demand a
   * non-empty image.
   */
  method FindBounds(img: Image) returns (b: Bounds)
    requires ValidImage(img) && img.width >= 1 && img.height >= 1
    ensures b.xMax < img.width && b.yMax < img.height
    ensures !AnyNonBlack(img) ==> b == Bounds(0, 0, img.width - 1, img.height - 1)
    ensures AnyNonBlack(img) ==>
              && b.yMin <= b.yMax && b.xMin <= b.xMax
              && RowNonBlack(img, b.yMin) && RowNonBlack(img, b.yMax)
              && (forall y :: 0 <= y < b.yMin ==> !RowNonBlack(img, y))
              && (forall y :: b.yMax < y < img.height ==> !RowNonBlack(img, y))
              && ColumnNonBlack(img, b.xMin, b.yMin, b.yMax) && ColumnNonBlack(img, b.xMax, b.yMin, b.yMax)
              && (forall x :: 0 <= x < b.xMin ==> !ColumnNonBlack(img, x, b.yMin, b.yMax))
              && (forall x :: b.xMax < x < img.width ==> !ColumnNonBlack(img, x, b.yMin, b.yMax))
    ensures forall x, y :: 0 <= x < img.width && 0 <= y < img.height && !IsBlack(GetPixel(img, x, y)) ==>
              b.xMin <= x <= b.xMax && b.yMin <= y <= b.yMax
  {
    var yMin, yMax, xMin, xMax := 0, img.height - 1, 0, img.width - 1;

    var y := 0;
    while y < img.height
      invariant 0 <= y <= img.height && yMin == 0
      invariant forall y' :: 0 <= y' < y ==> !RowNonBlack(img, y')
    {
      var found := ScanRow(img, y);
      if found {
        yMin := y;
        break;
      }
      y := y + 1;
    }
    ghost var firstRow := y;

    y := img.height;
    while y > 0
      invariant 0 <= y <= img.height && yMax == img.height - 1
      invariant forall y' :: y <= y' < img.height ==> !RowNonBlack(img, y')
    {
      var found := ScanRow(img, y - 1);
      if found {
        yMax := y - 1;
        break;
      }
      y := y - 1;
    }
    ghost var lastRow := y;

    forall y' | 0 <= y' < img.height && RowNonBlack(img, y') ensures AnyNonBlack(img) {
      var x' :| 0 <= x' < img.width && !IsBlack(GetPixel(img, x', y'));
    }
    if AnyNonBlack(img) {
      var px, py :| 0 <= px < img.width && 0 <= py < img.height && !IsBlack(GetPixel(img, px, py));
      assert RowNonBlack(img, py);
      assert firstRow < img.height && RowNonBlack(img, yMin) && yMin <= py;
      assert lastRow > 0 && RowNonBlack(img, yMax) && py <= yMax;
    }
    assert yMin <= yMax;

    var x := 0;
    while x < img.width
      invariant 0 <= x <= img.width && xMin == 0
      invariant forall x' :: 0 <= x' < x ==> !ColumnNonBlack(img, x', yMin, yMax)
    {
      var found := ScanColumn(img, x, yMin, yMax);
      if found {
        xMin := x;
        break;
      }
      x := x + 1;
    }
    ghost var firstCol := x;

    x := img.width;
    while x > 0
      invariant 0 <= x <= img.width && xMax == img.width - 1
      invariant forall x' :: x <= x' < img.width ==> !ColumnNonBlack(img, x', yMin, yMax)
    {
      var found := ScanColumn(img, x - 1, yMin, yMax);
      if found {
        xMax := x - 1;
        break;
      }
      x := x - 1;
    }
    ghost var lastCol := x;

    b := Bounds(xMin, yMin, xMax, yMax);

    forall x', y' | 0 <= x' < img.width && 0 <= y' < img.height && !IsBlack(GetPixel(img, x', y'))
      ensures b.xMin <= x' <= b.xMax && b.yMin <= y' <= b.yMax
    {
      assert RowNonBlack(img, y');
      assert yMin <= y' <= yMax;
      assert ColumnNonBlack(img, x', yMin, yMax);
    }
    forall x' | 0 <= x' < img.width && ColumnNonBlack(img, x', yMin, yMax) ensures AnyNonBlack(img) {
      var y' :| yMin <= y' <= yMax && !IsBlack(GetPixel(img, x', y'));
    }
    if AnyNonBlack(img) {
      var px, py :| 0 <= px < img.width && 0 <= py < img.height && !IsBlack(GetPixel(img, px, py));
      assert ColumnNonBlack(img, px, yMin, yMax);
      assert firstCol < img.width && lastCol > 0;
    }
  }

  /** The navigable image and its pixel bounds. */
  datatype OccupancyMap = OccupancyMap(image: Image, pixelBounds: Bounds)

  /**
   * The integer-pixel part of `is_obstructed`: pixels outside the image are
   * obstacles, and a pixel inside is an obstacle exactly when it is black.
   */
  function IsObstructedPixel(img: Image, px: nat, py: nat): (b: bool)
    requires ValidImage(img)
    ensures px >= img.width || py >= img.height ==> b
    ensures px < img.width && py < img.height ==> (b <==> IsBlack(GetPixel(img, px, py)))
  {
    px >= img.width || py >= img.height || IsBlack(GetPixel(img, px, py))
  }

  /** `f64::round`: to the nearest integer, halves away from zero. */
  function Round(r: real): (n: int)
    ensures r - 0.5 <= n as real <= r + 0.5
    ensures r >= 0.0 ==> r - 0.5 < n as real
    ensures r < 0.0 ==> n as real < r + 0.5
  {
    if r >= 0.0 then (r + 0.5).Floor else -((-r + 0.5).Floor)
  }

  /** Rust's saturating `as u32` on an integer value. */
  function AsU32(n: int): (u: nat)
    ensures u <= U32Max
    ensures 0 <= n <= U32Max ==> u == n
    ensures n < 0 ==> u == 0
    ensures n > U32Max ==> u == U32Max
  {
    if n < 0 then 0 else if n > U32Max then U32Max else n
  }

  /** `is_obstructed`: round the point to a pixel and test that pixel. */
  function IsObstructed(m: OccupancyMap, p: Point): bool
    requires ValidImage(m.image)
  {
    IsObstructedPixel(m.image, AsU32(Round(p.x)), AsU32(Round(p.y)))
  }

  /**
   * A point standing on a pixel of the image is an obstacle exactly when
   * that pixel is black: rounding and the cast keep its coordinates, which
   * as pixel coordinates of the image fit a `u32`.
   */
  lemma ObstructedOnPixel(m: OccupancyMap, x: nat, y: nat)
    requires ValidImage(m.image) && x < m.image.width && y < m.image.height
    requires x <= U32Max && y <= U32Max
    ensures IsObstructed(m, Point(x as real, y as real)) <==> IsBlack(GetPixel(m.image, x, y))
  {
    assert Round(x as real) == x && Round(y as real) == y;
  }

  /** The i-th of the `steps + 1` evenly spaced points from s to e. */
  function SamplePoint(s: Point, e: Point, i: nat, steps: nat): Point
    requires steps >= 1
  {
    var t := i as real / steps as real;
    Point(s.x + t * (e.x - s.x), s.y + t * (e.y - s.y))
  }

  /**
   * Whether sample i of `is_path_colliding` is obstructed. With zero steps
   * the parameter `t = 0 / 0` is NaN, so is the sampled point, and a NaN
   * rounds to NaN, which `as u32` sends to 0: the single sample is pixel (0, 0).
   */
  function SampleObstructed(m: OccupancyMap, s: Point, e: Point, i: nat, steps: nat): bool
    requires ValidImage(m.image)
  {
    if steps == 0 then IsObstructedPixel(m.image, 0, 0)
    else IsObstructed(m, SamplePoint(s, e, i, steps))
  }

  /** Some sample i with 0 <= i <= steps is obstructed; a negative step count samples nothing. */
  ghost predicate PathColliding(m: OccupancyMap, s: Point, e: Point, steps: int)
    requires ValidImage(m.image)
  {
    steps >= 0 && exists i :: 0 <= i <= steps && SampleObstructed(m, s, e, i, steps)
  }

  /** With at least one step, a collision is an obstructed point among the evenly spaced samples. */
  lemma PathCollidingSampled(m: OccupancyMap, s: Point, e: Point, steps: nat)
    requires ValidImage(m.image) && steps >= 1
    ensures PathColliding(m, s, e, steps) <==> exists i :: 0 <= i <= steps && IsObstructed(m, SamplePoint(s, e, i, steps))
  {
    if PathColliding(m, s, e, steps) {
      var i :| 0 <= i <= steps && SampleObstructed(m, s, e, i, steps);
      assert IsObstructed(m, SamplePoint(s, e, i, steps));
    }
    if exists i :: 0 <= i <= steps && IsObstructed(m, SamplePoint(s, e, i, steps)) {
      var i :| 0 <= i <= steps && IsObstructed(m, SamplePoint(s, e, i, steps));
      assert SampleObstructed(m, s, e, i, steps);
    }
  }

  /** The first and last samples are the end points themselves. */
  lemma SampleEnds(s: Point, e: Point, steps: nat)
    requires steps >= 1
    ensures SamplePoint(s, e, 0, steps) == s
    ensures SamplePoint(s, e, steps, steps) == e
  {
    assert steps as real / steps as real == 1.0;
  }

  /**
   * `is_path_colliding`: checks the samples in order and stops at the first
   * obstructed one.
   */
  method IsPathColliding(m: OccupancyMap, s: Point, e: Point, steps: int) returns (colliding: bool)
    requires ValidImage(m.image)
    ensures colliding <==> PathColliding(m, s, e, steps)
    ensures steps < 0 ==> !colliding
  {
    if steps < 0 {
      return false;
    }
    var i := 0;
    while i <= steps
      invariant 0 <= i <= steps + 1
      invariant forall j :: 0 <= j < i ==> !SampleObstructed(m, s, e, j, steps)
    {
      if SampleObstructed(m, s, e, i, steps) {
        return true;
      }
      i := i + 1;
    }
    return false;
  }
}
