/**
 * The integer parts of `ImageUtils`: the output dimensions chosen by
 * `resize_to_fit`, and the file counter `count_directory_files` computes
 * from a directory listing. Pixel data and the OpenCV calls are not
 * modelled.
 */
module ImageUtils {
  import opened Wrappers

  datatype Size = Size(width: nat, height: nat)

  predicate FitsIn(s: Size, maxWidth: int, maxHeight: int) {
    s.width <= maxWidth && s.height <= maxHeight
  }

  /** Neither side is larger than in the original image. */
  predicate ShrinksFrom(s: Size, width: nat, height: nat) {
    s.width <= width && s.height <= height
  }

  /** `int(max_width / (width / height))`, computed exactly: the side
      scaled to the aspect ratio of the image, rounded down. */
  function ScaleSide(target: nat, num: nat, den: nat): (r: nat)
    requires den >= 1
    ensures r * den <= target * num < (r + 1) * den
  {
    target * num / den
  }

  /**
   * The dimensions `resize_to_fit` passes to `cv2.resize`; `None` where it
   * returns without a result. A width greater than the height is
   * landscape (the float aspect ratio exceeds 1), otherwise the image is
   * treated as portrait or square. `height` must be positive once the
   * bounds pass, as the aspect ratio divides by it.
   */
  function ResizeToFit(width: nat, height: nat, maxWidth: int, maxHeight: int): (r: Option<Size>)
    requires maxWidth >= 1 && maxHeight >= 1 ==> height >= 1
    ensures r.None? <==> maxWidth < 1 || maxHeight < 1
    ensures r.Some? && width <= maxWidth && height <= maxHeight ==> r.value == Size(width, height)
    ensures r.Some? && (width > maxWidth || height > maxHeight) && width > height ==>
      r.value.width == maxWidth &&
      r.value.height * width <= maxWidth * height < (r.value.height + 1) * width
    ensures r.Some? && (width > maxWidth || height > maxHeight) && width <= height ==>
      r.value.height == maxHeight &&
      r.value.width * height <= maxHeight * width < (r.value.width + 1) * height
  {
    if maxHeight < 1 || maxWidth < 1 then None
    else if width > maxWidth || height > maxHeight then
      if width > height then Some(Size(maxWidth, ScaleSide(maxWidth, height, width)))
      else Some(Size(ScaleSide(maxHeight, width, height), maxHeight))
    else Some(Size(width, height))
  }

  lemma MulMonotone(a: nat, b: nat, c: nat)
    requires a <= b
    ensures a * c <= b * c
  {
  }

  /** Rounding down never exceeds a bound the exact quotient stays within. */
  lemma DivAtMost(n: nat, d: nat, q: nat)
    requires d >= 1 && n <= q * d
    ensures n / d <= q
  {
  }

  /** With square bounds, as at the one call site, the result fits within
      the bounds and no side grows: the case `maxWidth == maxHeight` of
      `ResizeNearSquareBoundsFit`. */
  lemma ResizeSquareBoundsShrinks(width: nat, height: nat, bound: int)
    requires bound >= 1 && height >= 1
    ensures ResizeToFit(width, height, bound, bound).Some?
    ensures FitsIn(ResizeToFit(width, height, bound, bound).value, bound, bound)
    ensures ShrinksFrom(ResizeToFit(width, height, bound, bound).value, width, height)
  {
    ResizeNearSquareBoundsFit(width, height, bound, bound);
  }

  /** With bounds that are not square the rule can break the promise of
      fitting within both bounds: a 200x100 landscape image under a
      1000x50 box is enlarged to 1000x500. */
  lemma ResizeNonSquareBoundsOverflow()
    ensures var r := ResizeToFit(200, 100, 1000, 50);
      r == Some(Size(1000, 500)) && !FitsIn(r.value, 1000, 50) && !ShrinksFrom(r.value, 200, 100)
  {
  }

  lemma MulCancelStrict(a: nat, b: nat, c: nat)
    requires a * c < b * c
    ensures a < b
  {
    if a >= b { MulMonotone(b, a, c); }
  }

  /** Landscape case of `ResizeNearSquareBoundsFit`: the width is clamped
      to the bound, and the scaled height is below the width bound, hence at
      most the height bound, and at most the original height. */
  lemma NearSquareLandscape(width: nat, height: nat, maxWidth: nat, maxHeight: nat)
    requires maxHeight >= 1 && maxHeight <= maxWidth <= maxHeight + 1
    requires width > height && (width > maxWidth || height > maxHeight)
    ensures width > maxWidth
    ensures ScaleSide(maxWidth, height, width) <= maxHeight
    ensures ScaleSide(maxWidth, height, width) <= height
  {
    var r := ScaleSide(maxWidth, height, width);
    MulMonotone(height + 1, width, maxWidth);
    assert r * width < maxWidth * width;
    MulCancelStrict(r, maxWidth, width);
    MulMonotone(maxWidth, width, height);
    DivAtMost(maxWidth * height, width, height);
  }

  /** Portrait or square case of `ResizeNearSquareBoundsFit`: the height
      is clamped to the bound, and the scaled width is at most the height
      bound, hence the width bound, and at most the original width. */
  lemma NearSquarePortrait(width: nat, height: nat, maxWidth: nat, maxHeight: nat)
    requires maxHeight >= 1 && maxHeight <= maxWidth <= maxHeight + 1
    requires width <= height && (width > maxWidth || height > maxHeight)
    ensures height > maxHeight
    ensures ScaleSide(maxHeight, width, height) <= maxWidth
    ensures ScaleSide(maxHeight, width, height) <= width
  {
    MulMonotone(width, height, maxHeight);
    DivAtMost(maxHeight * width, height, maxHeight);
    MulMonotone(maxHeight, height, width);
    DivAtMost(maxHeight * width, height, width);
  }

  /** The rule fits and never enlarges whenever the width bound is the
      height bound or one more; square bounds are the case `maxWidth ==
      maxHeight`. */
  lemma ResizeNearSquareBoundsFit(width: nat, height: nat, maxWidth: int, maxHeight: int)
    requires maxHeight >= 1 && height >= 1
    requires maxHeight <= maxWidth <= maxHeight + 1
    ensures ResizeToFit(width, height, maxWidth, maxHeight).Some?
    ensures FitsIn(ResizeToFit(width, height, maxWidth, maxHeight).value, maxWidth, maxHeight)
    ensures ShrinksFrom(ResizeToFit(width, height, maxWidth, maxHeight).value, width, height)
  {
    if width > maxWidth || height > maxHeight {
      if width > height {
        NearSquareLandscape(width, height, maxWidth, maxHeight);
      } else {
        NearSquarePortrait(width, height, maxWidth, maxHeight);
      }
    }
  }

  /** Bounds taller than wide: a square image one pixel taller than the
      height bound is scaled to the height bound in both directions, which
      is wider than the width bound. */
  lemma ResizeTallBoundsOverflow(maxWidth: int, maxHeight: int)
    requires 1 <= maxWidth < maxHeight
    ensures var r := ResizeToFit(maxHeight + 1, maxHeight + 1, maxWidth, maxHeight);
      r == Some(Size(maxHeight, maxHeight)) && !FitsIn(r.value, maxWidth, maxHeight)
  {
    var s: nat := maxHeight + 1;
    var r := ScaleSide(maxHeight, s, s);
    MulCancelStrict(r, maxHeight + 1, s);
    if r < maxHeight { MulMonotone(r + 1, maxHeight, s); }
  }

  /** Bounds at least two wider than high: a landscape image one pixel
      wider than it is high and one pixel higher than the height bound
      comes out higher than the height bound. */
  lemma ResizeWideBoundsOverflow(maxWidth: int, maxHeight: int)
    requires maxHeight >= 1 && maxWidth >= maxHeight + 2
    ensures var r := ResizeToFit(maxHeight + 2, maxHeight + 1, maxWidth, maxHeight);
      r.Some? && r.value.width == maxWidth && r.value.height > maxHeight &&
      !FitsIn(r.value, maxWidth, maxHeight)
  {
    var w: nat, h: nat, mw: nat := maxHeight + 2, maxHeight + 1, maxWidth;
    var r := ScaleSide(mw, h, w);
    MulMonotone(w, mw, h);
    assert w * h <= mw * h < (r + 1) * w;
    MulCancelStrict(h, r + 1, w);
  }

  /** Every image fits and keeps or loses size under the bounds. */
  ghost predicate AlwaysFits(maxWidth: int, maxHeight: int)
    requires maxWidth >= 1 && maxHeight >= 1
  {
    forall width: nat, height: nat :: height >= 1 ==>
      FitsIn(ResizeToFit(width, height, maxWidth, maxHeight).value, maxWidth, maxHeight) &&
      ShrinksFrom(ResizeToFit(width, height, maxWidth, maxHeight).value, width, height)
  }

  /** For positive bounds, the rule keeps the promise of fitting within
      both bounds for every image exactly when the width bound is the
      height bound or one more. */
  lemma ResizeAlwaysFitsIff(maxWidth: int, maxHeight: int)
    requires maxWidth >= 1 && maxHeight >= 1
    ensures AlwaysFits(maxWidth, maxHeight) <==> maxHeight <= maxWidth <= maxHeight + 1
  {
    if maxHeight <= maxWidth <= maxHeight + 1 {
      forall width: nat, height: nat | height >= 1
        ensures FitsIn(ResizeToFit(width, height, maxWidth, maxHeight).value, maxWidth, maxHeight)
        ensures ShrinksFrom(ResizeToFit(width, height, maxWidth, maxHeight).value, width, height)
      {
        ResizeNearSquareBoundsFit(width, height, maxWidth, maxHeight);
      }
    } else if maxWidth < maxHeight {
      ResizeTallBoundsOverflow(maxWidth, maxHeight);
    } else {
      ResizeWideBoundsOverflow(maxWidth, maxHeight);
    }
  }

  /** When the width bound binds first, the image is wider than that
      bound and the scaled height stays within both the height bound and
      the original height. */
  lemma WidthBinds(width: nat, height: nat, maxWidth: nat, maxHeight: nat)
    requires maxWidth >= 1 && maxHeight >= 1 && height >= 1
    requires width > maxWidth || height > maxHeight
    requires width * maxHeight > height * maxWidth
    ensures width > maxWidth
    ensures ScaleSide(maxWidth, height, width) <= maxHeight
    ensures ScaleSide(maxWidth, height, width) <= height
  {
    if width <= maxWidth {
      MulMonotone(width, maxWidth, maxHeight);
      MulMonotone(maxHeight, height, maxWidth);
      assert false;
    }
    DivAtMost(maxWidth * height, width, maxHeight);
    MulMonotone(maxWidth, width, height);
    DivAtMost(maxWidth * height, width, height);
  }

  /** When the height bound binds first, the image is taller than that
      bound and the scaled width stays within both the width bound and
      the original width. */
  lemma HeightBinds(width: nat, height: nat, maxWidth: nat, maxHeight: nat)
    requires maxWidth >= 1 && maxHeight >= 1 && height >= 1
    requires width > maxWidth || height > maxHeight
    requires width * maxHeight <= height * maxWidth
    ensures height > maxHeight
    ensures ScaleSide(maxHeight, width, height) <= maxWidth
    ensures ScaleSide(maxHeight, width, height) <= width
  {
    if height <= maxHeight {
      MulMonotone(height, maxHeight, maxWidth);
      MulMonotone(maxWidth + 1, width, maxHeight);
      assert false;
    }
    DivAtMost(maxHeight * width, height, maxWidth);
    MulMonotone(maxHeight, height, width);
    DivAtMost(maxHeight * width, height, width);
  }

  /** The intended rule: clamp the side whose bound binds first (compare
      width / height against maxWidth / maxHeight), then scale the other.
      It fits within any positive bounds, never enlarges, keeps an image
      that already fits, and otherwise clamps one side to its bound and
      scales the other to the aspect ratio, rounded down. */
  function FitWithin(width: nat, height: nat, maxWidth: int, maxHeight: int): (r: Option<Size>)
    requires maxWidth >= 1 && maxHeight >= 1 ==> height >= 1
    ensures r.None? <==> maxWidth < 1 || maxHeight < 1
    ensures r.Some? ==> FitsIn(r.value, maxWidth, maxHeight) && ShrinksFrom(r.value, width, height)
    ensures r.Some? && width <= maxWidth && height <= maxHeight ==> r.value == Size(width, height)
    ensures r.Some? && r.value != Size(width, height) ==>
      r.value.width == maxWidth || r.value.height == maxHeight
    ensures r.Some? && (width > maxWidth || height > maxHeight) && width * maxHeight > height * maxWidth ==>
      r.value.width == maxWidth &&
      r.value.height * width <= maxWidth * height < (r.value.height + 1) * width
    ensures r.Some? && (width > maxWidth || height > maxHeight) && width * maxHeight <= height * maxWidth ==>
      r.value.height == maxHeight &&
      r.value.width * height <= maxHeight * width < (r.value.width + 1) * height
  {
    if maxHeight < 1 || maxWidth < 1 then None
    else if width > maxWidth || height > maxHeight then
      if width * maxHeight > height * maxWidth then
        WidthBinds(width, height, maxWidth, maxHeight);
        Some(Size(maxWidth, ScaleSide(maxWidth, height, width)))
      else
        HeightBinds(width, height, maxWidth, maxHeight);
        Some(Size(ScaleSide(maxHeight, width, height), maxHeight))
    else Some(Size(width, height))
  }

  /** Under square bounds the source's rule and the corrected one agree. */
  lemma FitWithinAgreesOnSquareBounds(width: nat, height: nat, bound: int)
    requires bound >= 1 ==> height >= 1
    ensures FitWithin(width, height, bound, bound) == ResizeToFit(width, height, bound, bound)
  {
    if bound >= 1 {
      var m: nat := bound;
      if width > height { MulMonotone(height + 1, width, m); }
      else { MulMonotone(width, height, m); }
    }
  }

  /** The resize step of `processImage`, which asks for a 500x500 box. */
  function ProcessImageSize(width: nat, height: nat): (r: Size)
    requires height >= 1
    ensures Some(r) == ResizeToFit(width, height, 500, 500)
    ensures Some(r) == FitWithin(width, height, 500, 500)
    ensures FitsIn(r, 500, 500) && ShrinksFrom(r, width, height)
  {
    ResizeSquareBoundsShrinks(width, height, 500);
    FitWithinAgreesOnSquareBounds(width, height, 500);
    ResizeToFit(width, height, 500, 500).value
  }

  /**
   * `count_directory_files`: -1 when the path is not a directory (`None`),
   * otherwise the number of entries less one, on the assumption that the
   * one entry that is not an image is `.gitignore`.
   */
  function CountDirectoryFiles(listing: Option<set<string>>): (r: int)
    ensures r >= -1
    ensures r == -1 <==> listing.None? || listing.value == {}
  {
    match listing
    case None => -1
    case Some(entries) => |entries| - 1
  }

  /** When `.gitignore` is present the result is the number of other
      entries, the images. */
  lemma CountDirectoryFilesImages(entries: set<string>)
    requires ".gitignore" in entries
    ensures CountDirectoryFiles(Some(entries)) == |entries - {".gitignore"}|
  {
  }

  /** Saving one image under a new name raises the count by exactly one,
      so the next image takes the next number. */
  lemma CountDirectoryFilesAfterSave(entries: set<string>, name: string)
    requires name !in entries
    ensures CountDirectoryFiles(Some(entries + {name})) == CountDirectoryFiles(Some(entries)) + 1
  {
  }

  /** An empty directory gives the same -1 as a path that is not a
      directory at all. */
  lemma CountDirectoryFilesEmptyLikeMissing()
    ensures CountDirectoryFiles(Some({})) == CountDirectoryFiles(None)
  {
  }
}
