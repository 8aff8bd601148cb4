/**
  Fitting the loaded picture into the sample canvas: the picture keeps its
  proportions and is scaled into a box of at most maxAlfaWidth x
  maxAlfaHeight CSS pixels (700 x 500 in preparePuzzle), and the canvas
  size is that box times the device pixel ratio.
 */
module CanvasFit {

  /** Width and height of the sample canvas, in device pixels. */
  datatype CanvasSize = CanvasSize(width: real, height: real)

  /** The bounding box preparePuzzle passes for the picture. */
  const MaxAlfaWidth: real := 700.0
  const MaxAlfaHeight: real := 500.0

  /**
    getCanvasHeightAndWidth. A landscape picture is first given the full
    width, and its height is capped at maxAlfaHeight (the width then
    shrinking to keep the ratio); a picture that is not landscape is always
    given the full height.
   */
  function GetCanvasHeightAndWidth(maxAlfaWidth: real, maxAlfaHeight: real, aspectRatio: real,
                                   dpr: real, isImgWidthGreater: bool): (r: CanvasSize)
    requires aspectRatio > 0.0 && dpr > 0.0
    ensures isImgWidthGreater ==> r.width == r.height * aspectRatio
    ensures !isImgWidthGreater ==> r.height == r.width * aspectRatio
    ensures r.height <= maxAlfaHeight * dpr
  {
    var heightForWidthGreater := maxAlfaWidth / aspectRatio;
    var widthForWidthGreater :=
      if heightForWidthGreater > maxAlfaHeight then maxAlfaHeight * aspectRatio else maxAlfaWidth;
    var cappedHeight := if heightForWidthGreater > maxAlfaHeight then maxAlfaHeight else heightForWidthGreater;
    var canvasWidth := (if isImgWidthGreater then widthForWidthGreater else maxAlfaHeight / aspectRatio) * dpr;
    var canvasHeight := (if isImgWidthGreater then cappedHeight else maxAlfaHeight) * dpr;
    CanvasSize(canvasWidth, canvasHeight)
  }

  /** The ratio preparePuzzle computes: longer side over shorter side. */
  function AspectRatio(imgWidth: real, imgHeight: real): (ratio: real)
    requires imgWidth > 0.0 && imgHeight > 0.0
    ensures ratio >= 1.0
    ensures imgWidth > imgHeight ==> ratio * imgHeight == imgWidth
    ensures imgWidth <= imgHeight ==> ratio * imgWidth == imgHeight
  {
    var ratio := if imgWidth > imgHeight then imgWidth / imgHeight else imgHeight / imgWidth;
    if imgWidth > imgHeight then
      RatioAtLeastOne(imgWidth, imgHeight);
      ratio
    else
      RatioAtLeastOne(imgHeight, imgWidth);
      ratio
  }

  /** The canvas size preparePuzzle sets for a picture of the given size. */
  function PreparedCanvas(imgWidth: real, imgHeight: real, dpr: real): (r: CanvasSize)
    requires imgWidth > 0.0 && imgHeight > 0.0 && dpr > 0.0
  {
    GetCanvasHeightAndWidth(MaxAlfaWidth, MaxAlfaHeight, AspectRatio(imgWidth, imgHeight), dpr, imgWidth > imgHeight)
  }

  lemma RatioAtLeastOne(big: real, small: real)
    requires 0.0 < small <= big
    ensures big / small >= 1.0 && big / small * small == big
  {
    var q := big / small;
    assert (q - 1.0) * small == big - small;
    ProductSign(q - 1.0, small);
  }

  /** A product with a positive factor has the sign of the other factor. */
  lemma ProductSign(a: real, c: real)
    requires c > 0.0
    ensures a * c >= 0.0 ==> a >= 0.0
    ensures a * c > 0.0 ==> a > 0.0
    ensures a * c == 0.0 ==> a == 0.0
  {
    if a < 0.0 {
      assert a * c < 0.0;
    } else if a > 0.0 {
      assert a * c > 0.0;
    }
  }

  lemma MulLeMul(a: real, b: real, c: real)
    requires a <= b && c >= 0.0
    ensures a * c <= b * c
  {
    assert b * c - a * c == (b - a) * c;
  }

  lemma MulPos(a: real, b: real)
    requires a > 0.0 && b > 0.0
    ensures a * b > 0.0
  {
  }

  /** A landscape canvas is cut to the box, spans it in one direction and has width ratio times height. */
  lemma LandscapeFits(maxAlfaWidth: real, maxAlfaHeight: real, aspectRatio: real, dpr: real)
    requires 0.0 < maxAlfaHeight && 0.0 < maxAlfaWidth && aspectRatio >= 1.0 && dpr > 0.0
    ensures var r := GetCanvasHeightAndWidth(maxAlfaWidth, maxAlfaHeight, aspectRatio, dpr, true);
      && 0.0 < r.height <= r.width <= maxAlfaWidth * dpr
      && (r.width == maxAlfaWidth * dpr || r.height == maxAlfaHeight * dpr)
  {
    var r := GetCanvasHeightAndWidth(maxAlfaWidth, maxAlfaHeight, aspectRatio, dpr, true);
    var h := maxAlfaWidth / aspectRatio;
    RatioAtLeastOne(aspectRatio, 1.0);
    assert h * aspectRatio == maxAlfaWidth;
    if h > maxAlfaHeight {
      assert r.height == maxAlfaHeight * dpr;
      MulLeMul(maxAlfaHeight, h, aspectRatio);
      MulLeMul(maxAlfaHeight * aspectRatio, maxAlfaWidth, dpr);
      assert r.width == maxAlfaHeight * aspectRatio * dpr;
    } else {
      assert r.width == maxAlfaWidth * dpr;
      assert r.height == h * dpr;
      assert h > 0.0 by {
        if h <= 0.0 {
          MulLeMul(h, 0.0, aspectRatio);
          assert false;
        }
      }
    }
    MulPos(r.height, 1.0);
    MulLeMul(1.0, aspectRatio, r.height);
  }

  /** Any other canvas spans the full height and has height ratio times width. */
  lemma PortraitFits(maxAlfaWidth: real, maxAlfaHeight: real, aspectRatio: real, dpr: real)
    requires 0.0 < maxAlfaHeight <= maxAlfaWidth && aspectRatio >= 1.0 && dpr > 0.0
    ensures var r := GetCanvasHeightAndWidth(maxAlfaWidth, maxAlfaHeight, aspectRatio, dpr, false);
      && 0.0 < r.width <= r.height == maxAlfaHeight * dpr
  {
    var r := GetCanvasHeightAndWidth(maxAlfaWidth, maxAlfaHeight, aspectRatio, dpr, false);
    var w := maxAlfaHeight / aspectRatio;
    assert w * aspectRatio == maxAlfaHeight;
    assert w > 0.0 by {
      if w <= 0.0 {
        MulLeMul(w, 0.0, aspectRatio);
        assert false;
      }
    }
    assert r.width == w * dpr;
    MulPos(w, dpr);
    MulLeMul(1.0, aspectRatio, r.width);
  }

  /**
    For a ratio of at least 1 and a box that is not taller than it is wide,
    the canvas is a non-empty box inside maxAlfaWidth*dpr x maxAlfaHeight*dpr,
    its longer side is `aspectRatio` times its shorter side, and it touches
    the box: it spans the full width or the full height.
   */
  lemma CanvasFitsBox(maxAlfaWidth: real, maxAlfaHeight: real, aspectRatio: real, dpr: real, isImgWidthGreater: bool)
    requires 0.0 < maxAlfaHeight <= maxAlfaWidth && aspectRatio >= 1.0 && dpr > 0.0
    ensures var r := GetCanvasHeightAndWidth(maxAlfaWidth, maxAlfaHeight, aspectRatio, dpr, isImgWidthGreater);
      && 0.0 < r.width <= maxAlfaWidth * dpr
      && 0.0 < r.height <= maxAlfaHeight * dpr
      && (if r.width >= r.height then r.width == r.height * aspectRatio else r.height == r.width * aspectRatio)
      && (r.width == maxAlfaWidth * dpr || r.height == maxAlfaHeight * dpr)
  {
    var r := GetCanvasHeightAndWidth(maxAlfaWidth, maxAlfaHeight, aspectRatio, dpr, isImgWidthGreater);
    if isImgWidthGreater {
      LandscapeFits(maxAlfaWidth, maxAlfaHeight, aspectRatio, dpr);
    } else {
      PortraitFits(maxAlfaWidth, maxAlfaHeight, aspectRatio, dpr);
      MulLeMul(maxAlfaHeight, maxAlfaWidth, dpr);
      if r.width >= r.height {
        assert (aspectRatio - 1.0) * r.width == r.height - r.width;
        ProductSign(aspectRatio - 1.0, r.width);
      }
    }
  }

  /**
    The sample canvas has the picture's proportions and fits into the
    700 x 500 box scaled by dpr.
   */
  lemma PreparedCanvasKeepsProportions(imgWidth: real, imgHeight: real, dpr: real)
    requires imgWidth > 0.0 && imgHeight > 0.0 && dpr > 0.0
    ensures var r := PreparedCanvas(imgWidth, imgHeight, dpr);
      && r.width * imgHeight == r.height * imgWidth
      && 0.0 < r.width <= MaxAlfaWidth * dpr && 0.0 < r.height <= MaxAlfaHeight * dpr
  {
    var ratio := AspectRatio(imgWidth, imgHeight);
    var r := PreparedCanvas(imgWidth, imgHeight, dpr);
    CanvasFitsBox(MaxAlfaWidth, MaxAlfaHeight, ratio, dpr, imgWidth > imgHeight);
    if imgWidth > imgHeight {
      assert r.width * imgHeight == r.height * (ratio * imgHeight);
    } else {
      assert r.height * imgWidth == r.width * (ratio * imgWidth);
    }
  }
}
