/**
 * Stage 1 of the indexer: choose the tile height for a given tile width and
 * crop the source image to that aspect ratio.
 *
 * The source compares `double` and `float` quotients. The model compares the
 * same quotients exactly, cleared of their (positive) denominators, so every
 * comparison is on integers: `ErrorRises` is the search's test and `TooWide`
 * the crop's. The lemmas `ErrorRisesIffErrGrows` and `TooWideIffRatio` state
 * that these are the real-valued comparisons of the source.
 */
module Geometry {

  /** Largest Java `int`. */
  const INT_MAX := 0x7fff_ffff

  function Abs(x: int): nat
  {
    if x < 0 then -x else x
  }

  function RealAbs(x: real): real
  {
    if x < 0.0 then -x else x
  }

  /**
   * The search's error for candidate height `i`: how far the tile ratio
   * `tileWidth / i` is from the image ratio `w / h`.
   */
  ghost function Err(w: nat, h: nat, tileWidth: int, i: nat): real
    requires h > 0 && i > 0
  {
    RealAbs(w as real / h as real - tileWidth as real / i as real)
  }

  /**
   * `err(i) < err(i + 1)`, the test that ends the search, with both errors
   * multiplied by `h * i * (i + 1)`: `err(i) = |w*i - tileWidth*h| / (h*i)`.
   */
  predicate ErrorRises(w: nat, h: nat, tileWidth: int, i: nat)
  {
    Abs(w * i - tileWidth * h) * (i + 1) < Abs(w * (i + 1) - tileWidth * h) * i
  }

  /** Once a candidate tile is no wider than the image, the error only grows. */
  lemma RisesOncePast(w: nat, h: nat, tileWidth: nat, i: nat)
    requires h > 0 && tileWidth > 0 && i >= 1
    requires w * i >= tileWidth * h
    ensures ErrorRises(w, h, tileWidth, i)
  {
    var t := tileWidth * h;
    var a := w * i - t;
    assert t > 0;
    assert w * (i + 1) - t == a + w;
    assert Abs(w * i - t) * (i + 1) == a * i + a;
    assert Abs(w * (i + 1) - t) * i == a * i + w * i;
  }

  /**
   * A tile width of zero or less, which `Integer.parseInt` lets through: for
   * every positive candidate the error does not rise, it only falls or stays,
   * so the test that ends the search never holds at a positive candidate.
   */
  lemma NonPositiveWidthNeverRises(w: nat, h: nat, tileWidth: int, i: nat)
    requires h > 0 && tileWidth <= 0 && i >= 1
    ensures !ErrorRises(w, h, tileWidth, i)
    ensures Err(w, h, tileWidth, i + 1) <= Err(w, h, tileWidth, i)
  {
    var k := -tileWidth * h;
    assert k >= 0;
    assert Abs(w * i - tileWidth * h) * (i + 1) == (w * i + k) * i + w * i + k;
    assert Abs(w * (i + 1) - tileWidth * h) * i == (w * i + k) * i + w * i;
    ErrorRisesIffErrGrows(w, h, tileWidth, i);
  }

  /**
   * The first candidate at or after `i` at which the error rises. It exists:
   * no later than the first `i` with `w * i >= tileWidth * h`.
   */
  function FirstRiseFrom(w: nat, h: nat, tileWidth: nat, i: nat): (s: nat)
    requires w > 0 && h > 0 && tileWidth > 0 && i >= 1
    ensures s >= i && ErrorRises(w, h, tileWidth, s)
    ensures forall j :: i <= j < s ==> !ErrorRises(w, h, tileWidth, j)
    ensures s == i || w * (s - 1) < tileWidth * h
    decreases tileWidth * h - w * i
  {
    if ErrorRises(w, h, tileWidth, i) then i
    else
      if w * i >= tileWidth * h then RisesOncePast(w, h, tileWidth, i); i
      else FirstRiseFrom(w, h, tileWidth, i + 1)
  }

  /** The first candidate height whose error is smaller than the next one's. */
  function FirstRise(w: nat, h: nat, tileWidth: nat): (s: nat)
    requires w > 0 && h > 0 && tileWidth > 0
    ensures s >= 1 && ErrorRises(w, h, tileWidth, s)
    ensures forall j :: 1 <= j < s ==> !ErrorRises(w, h, tileWidth, j)
  {
    FirstRiseFrom(w, h, tileWidth, 1)
  }

  /**
   * The height the search as written answers: one below the candidate at
   * which the error starts to rise, or 1 when it rises at once. Below the
   * answer the error never rises; the answer is not itself a stopping
   * candidate unless it is 1.
   */
  function AsWrittenTileHeight(w: nat, h: nat, tileWidth: nat): (t: nat)
    requires w > 0 && h > 0 && tileWidth > 0
    ensures t >= 1
    ensures forall j :: 1 <= j < t ==> !ErrorRises(w, h, tileWidth, j)
    ensures t > 1 ==> !ErrorRises(w, h, tileWidth, t) && ErrorRises(w, h, tileWidth, t + 1)
    ensures t == 1 ==> ErrorRises(w, h, tileWidth, 1) || ErrorRises(w, h, tileWidth, 2)
  {
    var s := FirstRise(w, h, tileWidth);
    if s == 1 then 1 else s - 1
  }

  /**
   * The tile-height search as the source writes it: `tileHeight` is assigned
   * only on the iterations that do not stop, so it ends one below the
   * candidate at which the error starts to rise (or at 1).
   */
  method ResolveTileHeight(w: nat, h: nat, tileWidth: nat) returns (tileHeight: nat)
    requires w > 0 && h > 0 && tileWidth > 0
    ensures tileHeight >= 1
    ensures tileHeight == AsWrittenTileHeight(w, h, tileWidth)
  {
    tileHeight := 1;
    var i := 1;
    while true
      invariant i >= 1
      invariant forall j :: 1 <= j < i ==> !ErrorRises(w, h, tileWidth, j)
      invariant tileHeight == if i == 1 then 1 else i - 1
      decreases tileWidth * h - w * i
    {
      if ErrorRises(w, h, tileWidth, i) {
        break;
      }
      if w * i >= tileWidth * h {
        RisesOncePast(w, h, tileWidth, i);
      }
      tileHeight := i;
      i := i + 1;
    }
    assert i == FirstRise(w, h, tileWidth);
  }

  /**
   * The height the search evidently means to return: the candidate at which
   * it stops, a local minimum of the error.
   */
  function IntendedTileHeight(w: nat, h: nat, tileWidth: nat): (t: nat)
    requires w > 0 && h > 0 && tileWidth > 0
    ensures t >= 1
    ensures Err(w, h, tileWidth, t) < Err(w, h, tileWidth, t + 1)
    ensures t > 1 ==> Err(w, h, tileWidth, t) <= Err(w, h, tileWidth, t - 1)
  {
    var t := FirstRise(w, h, tileWidth);
    ErrorRisesIffErrGrows(w, h, tileWidth, t);
    if t > 1 then ErrorRisesIffErrGrows(w, h, tileWidth, t - 1); t else t
  }

  /**
   * A 1920x1080 image with tile width 4: the error falls from height 1 to
   * height 2 and then rises, yet the search as written answers 1.
   */
  lemma SearchStopsOneShort()
    ensures FirstRise(1920, 1080, 4) == 2
    ensures AsWrittenTileHeight(1920, 1080, 4) == 1
    ensures IntendedTileHeight(1920, 1080, 4) == 2
    ensures Err(1920, 1080, 4, 2) < Err(1920, 1080, 4, 1)
  {
    assert !ErrorRises(1920, 1080, 4, 1);
    assert ErrorRises(1920, 1080, 4, 2);
    ErrorRisesIffErrGrows(1920, 1080, 4, 1);
  }

  /** The integer test `ErrorRises` is the source's comparison of real errors. */
  lemma ErrorRisesIffErrGrows(w: nat, h: nat, tileWidth: int, i: nat)
    requires h > 0 && i >= 1
    ensures ErrorRises(w, h, tileWidth, i) <==> Err(w, h, tileWidth, i) < Err(w, h, tileWidth, i + 1)
  {
    var x, y := Abs(w * i - tileWidth * h), Abs(w * (i + 1) - tileWidth * h);
    ErrAsQuotient(w, h, tileWidth, i);
    ErrAsQuotient(w, h, tileWidth, i + 1);
    QuotientLessInt(x, y, h * i, h * (i + 1));
    CommonFactor(x, y, h, i);
  }

  lemma CommonFactor(x: int, y: int, h: int, i: int)
    requires h > 0
    ensures x * (h * (i + 1)) < y * (h * i) <==> x * (i + 1) < y * i
  {
    assert x * (h * (i + 1)) == (x * (i + 1)) * h;
    assert y * (h * i) == (y * i) * h;
    ScaleLess(x * (i + 1), y * i, h);
  }

  lemma ErrAsQuotient(w: nat, h: nat, tileWidth: int, i: nat)
    requires h > 0 && i > 0
    ensures Err(w, h, tileWidth, i) == Abs(w * i - tileWidth * h) as real / (h * i) as real
  {
    var x := w as real / h as real - tileWidth as real / i as real;
    var p := (h * i) as real;
    assert p == h as real * i as real;
    assert x * p == (w * i - tileWidth * h) as real by {
      assert (w as real / h as real) * p == w as real * i as real;
      assert (tileWidth as real / i as real) * p == tileWidth as real * h as real;
    }
    assert x == (w * i - tileWidth * h) as real / p;
    AbsQuotient(w * i - tileWidth * h, p);
  }

  lemma AbsQuotient(n: int, p: real)
    requires p > 0.0
    ensures RealAbs(n as real / p) == Abs(n) as real / p
  {
    if n < 0 {
      assert n as real / p < 0.0;
      assert -(n as real / p) == (-n) as real / p;
    } else {
      assert n as real / p >= 0.0;
    }
  }

  lemma QuotientLessInt(x: int, y: int, p: int, q: int)
    requires p > 0 && q > 0
    ensures x as real / p as real < y as real / q as real <==> x * q < y * p
  {
    QuotientLess(x as real, y as real, p as real, q as real);
    assert (x * q) as real == x as real * q as real;
    assert (y * p) as real == y as real * p as real;
  }

  lemma QuotientLess(a: real, b: real, p: real, q: real)
    requires p > 0.0 && q > 0.0
    ensures a / p < b / q <==> a * q < b * p
  {
    assert a / p * (p * q) == a * q;
    assert b / q * (p * q) == b * p;
  }

  lemma ScaleLess(x: int, y: int, k: int)
    requires k > 0
    ensures x * k < y * k <==> x < y
  {
  }

  /** A window of the source image: `getSubimage(x, y, width, height)`. */
  datatype Window = Window(x: nat, y: nat, width: nat, height: nat)

  /** `ratio > (float) tileWidth / tileHeight`: the image is wider than the tiles. */
  predicate TooWide(w: nat, h: nat, tileWidth: nat, tileHeight: nat)
  {
    w * tileHeight > tileWidth * h
  }

  lemma TooWideIffRatio(w: nat, h: nat, tileWidth: nat, tileHeight: nat)
    requires h > 0 && tileHeight > 0
    ensures TooWide(w, h, tileWidth, tileHeight) <==>
              w as real / h as real > tileWidth as real / tileHeight as real
  {
    QuotientLess(tileWidth as real, w as real, tileHeight as real, h as real);
  }

  /**
   * The crop: the widest (or tallest) window with the tiles' aspect ratio,
   * centred in the source, with an odd excess leaving the extra pixel on the
   * right (or bottom) side.
   */
  function CropWindow(w: nat, h: nat, tileWidth: nat, tileHeight: nat): (win: Window)
    requires w > 0 && h > 0 && tileWidth > 0 && tileHeight > 0
    requires h * tileWidth <= INT_MAX && w * tileHeight <= INT_MAX
    requires TooWide(w, h, tileWidth, tileHeight) ==> h * tileWidth >= tileHeight
    requires !TooWide(w, h, tileWidth, tileHeight) ==> w * tileHeight >= tileWidth
    ensures win.width >= 1 && win.height >= 1
    ensures win.x + win.width <= w && win.y + win.height <= h
    ensures TooWide(w, h, tileWidth, tileHeight) ==>
              && win.y == 0 && win.height == h
              && win.width * tileHeight <= h * tileWidth < (win.width + 1) * tileHeight
              && win.x <= w - win.x - win.width <= win.x + 1
    ensures !TooWide(w, h, tileWidth, tileHeight) ==>
              && win.x == 0 && win.width == w
              && win.height * tileWidth <= w * tileHeight < (win.height + 1) * tileWidth
              && win.y <= h - win.y - win.height <= win.y + 1
  {
    if TooWide(w, h, tileWidth, tileHeight) then
      var wOptimal := h * tileWidth / tileHeight;
      FloorBelow(h * tileWidth, tileHeight, w);
      var excess := w - wOptimal;
      Window(excess / 2, 0, wOptimal, h)
    else
      var hOptimal := w * tileHeight / tileWidth;
      FloorBelow(w * tileHeight, tileWidth, h + 1);
      var excess := h - hOptimal;
      Window(0, excess / 2, w, hOptimal)
  }

  /** `n / d` is the largest `q` with `q * d <= n`; below `bound` when `n < bound * d`. */
  lemma FloorBelow(n: nat, d: nat, bound: nat)
    requires d > 0
    ensures (n / d) * d <= n < (n / d + 1) * d
    ensures n < bound * d ==> n / d < bound
    ensures n >= d ==> n / d >= 1
  {
    var q := n / d;
    assert n == q * d + n % d;
    if n < bound * d {
      assert q * d < bound * d;
      ScaleLess(q, bound, d);
    }
  }

  /** The outcome of stage 1: the tile height and the window to crop. */
  datatype Layout = Layout(tileHeight: nat, crop: Window)

  /**
   * Stage 1 with the corrected search (`StageOne` is the program as written):
   * the tile height is a local minimum of the error, and the crop keeps a full
   * side of the image and cuts the other to the tiles' aspect ratio.
   */
  function PlanLayout(w: nat, h: nat, tileWidth: nat): (p: Layout)
    requires w > 0 && h > 0 && tileWidth > 0
    requires h * tileWidth <= INT_MAX && w * IntendedTileHeight(w, h, tileWidth) <= INT_MAX
    requires TooWide(w, h, tileWidth, IntendedTileHeight(w, h, tileWidth)) ==> h * tileWidth >= IntendedTileHeight(w, h, tileWidth)
    requires !TooWide(w, h, tileWidth, IntendedTileHeight(w, h, tileWidth)) ==> w * IntendedTileHeight(w, h, tileWidth) >= tileWidth
    ensures p.tileHeight >= 1
    ensures Err(w, h, tileWidth, p.tileHeight) < Err(w, h, tileWidth, p.tileHeight + 1)
    ensures p.tileHeight > 1 ==> Err(w, h, tileWidth, p.tileHeight) <= Err(w, h, tileWidth, p.tileHeight - 1)
    ensures p.crop.x + p.crop.width <= w && p.crop.y + p.crop.height <= h
    ensures TooWide(w, h, tileWidth, p.tileHeight) ==>
              p.crop.height == h && p.crop.width * p.tileHeight <= h * tileWidth < (p.crop.width + 1) * p.tileHeight
    ensures !TooWide(w, h, tileWidth, p.tileHeight) ==>
              p.crop.width == w && p.crop.height * tileWidth <= w * p.tileHeight < (p.crop.height + 1) * tileWidth
  {
    var t := IntendedTileHeight(w, h, tileWidth);
    Layout(t, CropWindow(w, h, tileWidth, t))
  }

  /**
   * Stage 1 as the program runs it: the search as written, then the crop to
   * the height it answers. The crop keeps a full side of the image and cuts
   * the other to the floor of the tiles' ratio, whichever height it is given.
   */
  method StageOne(w: nat, h: nat, tileWidth: nat) returns (p: Layout)
    requires w > 0 && h > 0 && tileWidth > 0
    requires h * tileWidth <= INT_MAX && w * AsWrittenTileHeight(w, h, tileWidth) <= INT_MAX
    requires TooWide(w, h, tileWidth, AsWrittenTileHeight(w, h, tileWidth)) ==> h * tileWidth >= AsWrittenTileHeight(w, h, tileWidth)
    requires !TooWide(w, h, tileWidth, AsWrittenTileHeight(w, h, tileWidth)) ==> w * AsWrittenTileHeight(w, h, tileWidth) >= tileWidth
    ensures p.tileHeight == AsWrittenTileHeight(w, h, tileWidth)
    ensures p.crop.width >= 1 && p.crop.height >= 1
    ensures p.crop.x + p.crop.width <= w && p.crop.y + p.crop.height <= h
    ensures TooWide(w, h, tileWidth, p.tileHeight) ==>
              p.crop.height == h && p.crop.width * p.tileHeight <= h * tileWidth < (p.crop.width + 1) * p.tileHeight
    ensures !TooWide(w, h, tileWidth, p.tileHeight) ==>
              p.crop.width == w && p.crop.height * tileWidth <= w * p.tileHeight < (p.crop.height + 1) * tileWidth
  {
    var tileHeight := ResolveTileHeight(w, h, tileWidth);
    p := Layout(tileHeight, CropWindow(w, h, tileWidth, tileHeight));
  }
}
