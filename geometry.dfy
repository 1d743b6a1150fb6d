/**
 * Geometry of the random crop in `F_transform` (utils/dataset.py lines 55-68): the
 * undersize guard with its resize, the two `np.random.randint` draws, and the window
 * handed to `crop` for the image and for the mask. Only sizes and offsets are
 * modelled; pixels are not.
 */
module Geometry {
  import opened Errors

  /** PIL's `image.size`: width first, then height, in pixels. */
  datatype Size = Size(width: nat, height: nat)

  /** The arguments `(top, left, height, width)` of `transforms.functional.crop`. */
  datatype Window = Window(top: int, left: int, height: nat, width: nat)

  /** The sizes of the image and of the mask being cropped, and the window each is cropped with. */
  datatype Crop = Crop(image: Size, mask: Size, imageWindow: Window, maskWindow: Window)

  /** A decoded PNG has both sides at least one pixel. */
  predicate Decoded(image: Size)
  {
    image.width > 0 && image.height > 0
  }

  function Max(a: int, b: int): int
  {
    if a >= b then a else b
  }

  lemma FloorDiv(x: nat, d: nat)
    requires d > 0
    ensures (x / d) * d <= x < (x / d + 1) * d
  {
  }

  lemma MulMonotone(a: nat, b: nat, c: nat)
    requires a <= b
    ensures a * c <= b * c
  {
    var d := b - a;
    assert b * c == a * c + d * c;
  }

  /** The quotient `size * long / short` is at least `size`, and exactly `size` when `long == short`. */
  lemma ScaledSideBounds(size: nat, long: nat, short: nat, q: nat)
    requires 0 < short <= long
    requires q * short <= size * long < (q + 1) * short
    ensures q >= size
    ensures long == short ==> q == size
  {
    MulMonotone(short, long, size);
    assert short * size == size * short && long * size == size * long;
    if q < size {
      MulMonotone(q + 1, size, short);
    }
    if long == short && q > size {
      MulMonotone(size + 1, q, short);
    }
  }

  /** `int(size * long / short)` for sides `short <= long`: never below `size`, and `size` for a square. */
  function ScaledSide(size: nat, long: nat, short: nat): (l: nat)
    requires 0 < short <= long
    ensures l >= size
    ensures l * short <= size * long < (l + 1) * short
    ensures long == short ==> l == size
  {
    var q := size * long / short;
    FloorDiv(size * long, short);
    ScaledSideBounds(size, long, short, q);
    q
  }

  lemma KeepsShorterSide(w: nat, h: nat, size: nat)
    requires w > 0 && h > 0
    requires (w <= h && w == size) || (h <= w && h == size)
    ensures w <= h ==> w == size && h * w <= size * h < (h + 1) * w
    ensures h <= w ==> h == size
    ensures h < w ==> w * h <= size * w < (w + 1) * h
  {
    if w <= h {
      assert w == size;
      assert h * w == size * h;
    } else {
      assert h == size;
      assert w * h == size * w;
    }
  }

  /**
   * torchvision's `resize(img, size)` with an integer `size`: the shorter side becomes
   * `size` and the longer one `int(size * long / short)`, keeping the aspect ratio up
   * to truncation. An image whose shorter side is already `size` is returned as it is.
   */
  function Resize(image: Size, size: nat): (r: Size)
    requires Decoded(image)
    ensures image.width <= image.height ==> r.width == size && r.height >= size
    ensures image.height <= image.width ==> r.height == size && r.width >= size
    ensures image.width <= image.height ==>
      r.height * image.width <= size * image.height < (r.height + 1) * image.width
    ensures image.height < image.width ==>
      r.width * image.height <= size * image.width < (r.width + 1) * image.height
  {
    if (image.width <= image.height && image.width == size)
      || (image.height <= image.width && image.height == size) then
      KeepsShorterSide(image.width, image.height, size);
      image
    else if image.width < image.height then
      Size(size, ScaledSide(size, image.height, image.width))
    else
      Size(ScaledSide(size, image.width, image.height), size)
  }

  /** Line 59: the image is narrower or lower than the target. */
  predicate Undersize(image: Size, height: nat, width: nat)
  {
    image.width < width || image.height < height
  }

  /**
   * Lines 59-61: an undersize image is resized so that its shorter side becomes
   * `max(height, width)`; any other image keeps its size. Either way the result is at
   * least the target size, and after a resize one side is exactly `max(height, width)`.
   */
  function Guard(image: Size, height: nat, width: nat): (r: Size)
    requires Decoded(image)
    ensures r.width >= width && r.height >= height
    ensures !Undersize(image, height, width) ==> r == image
    ensures Undersize(image, height, width) ==>
      && r.width >= Max(height, width) && r.height >= Max(height, width)
      && (r.width == Max(height, width) || r.height == Max(height, width))
  {
    if Undersize(image, height, width) then Resize(image, Max(height, width)) else image
  }

  /** The draw supplied for `np.random.randint(high)` lies in `[0, high)` whenever that range is not empty. */
  predicate DrawFits(draw: nat, high: int)
  {
    high > 0 ==> draw < high
  }

  /**
   * `np.random.randint(high)`: a value in `[0, high)`, here the supplied draw; numpy
   * raises when `high <= 0`, so `high` itself is never returned.
   */
  function RandInt(high: int, draw: nat): (r: Result<nat>)
    requires DrawFits(draw, high)
    ensures r.Success? <==> high > 0
    ensures r.Success? ==> r.value < high
    ensures r.Failure? ==> r.error == EmptyRange(high)
  {
    if high <= 0 then Failure(EmptyRange(high)) else Success(draw)
  }

  /** Both sides strictly exceed the target: the condition for both draws of lines 64-65 to succeed. */
  predicate StrictlyLarger(image: Size, height: nat, width: nat)
  {
    image.height > height && image.width > width
  }

  /** The window lies within an image of the given size. */
  predicate WindowInside(w: Window, image: Size)
  {
    0 <= w.top && w.top + w.height <= image.height && 0 <= w.left && w.left + w.width <= image.width
  }

  /** `crop` always returns an image of the window's size (PIL pads outside the image). */
  function CroppedSize(w: Window): Size
  {
    Size(w.width, w.height)
  }

  /**
   * Lines 56-68 as written. The crop succeeds exactly when the guarded image is strictly
   * larger than the target on both sides; otherwise `randint` raises for the first side
   * that is not. On success the window has the target size, starts at the drawn offsets
   * (which stop one short of the last possible offset), lies within the guarded image,
   * and is applied unchanged to the mask, whose size the guard left as it was.
   */
  method CropGeometry(image: Size, mask: Size, height: nat, width: nat, topDraw: nat, leftDraw: nat)
    returns (r: Result<Crop>)
    requires Decoded(image)
    requires DrawFits(topDraw, Guard(image, height, width).height - height)
    requires DrawFits(leftDraw, Guard(image, height, width).width - width)
    ensures r.Success? <==> StrictlyLarger(Guard(image, height, width), height, width)
    ensures r.Failure? ==>
      r.error == if Guard(image, height, width).height <= height
                 then EmptyRange(Guard(image, height, width).height - height)
                 else EmptyRange(Guard(image, height, width).width - width)
    ensures r.Success? ==>
      && r.value.image == Guard(image, height, width)
      && r.value.mask == mask
      && r.value.imageWindow == Window(topDraw, leftDraw, height, width)
      && r.value.maskWindow == r.value.imageWindow
      && r.value.imageWindow.top < r.value.image.height - height
      && r.value.imageWindow.left < r.value.image.width - width
      && WindowInside(r.value.imageWindow, r.value.image)
  {
    var orWidth, orHeight := image.width, image.height;
    var current := image;
    if orWidth < width || orHeight < height {
      current := Resize(current, Max(height, width));
      orWidth, orHeight := current.width, current.height;
    }
    var top := RandInt(orHeight - height, topDraw);
    if top.Failure? {
      return Failure(top.error);
    }
    var left := RandInt(orWidth - width, leftDraw);
    if left.Failure? {
      return Failure(left.error);
    }
    var imageWindow := Window(top.value, left.value, height, width);
    var maskWindow := Window(top.value, left.value, height, width);
    r := Success(Crop(current, mask, imageWindow, maskWindow));
  }

  /**
   * The crop as written fails exactly when the guarded image has a side equal to the
   * target: the guard only ensures "at least", the draws need "more than".
   */
  lemma RejectedIffSideAtTarget(image: Size, height: nat, width: nat)
    requires Decoded(image)
    ensures !StrictlyLarger(Guard(image, height, width), height, width)
      <==> Guard(image, height, width).height == height || Guard(image, height, width).width == width
  {
  }

  /** An image exactly at the target size is left alone by the guard and then rejected by `randint(0)`. */
  lemma ExactFitIsRejected(height: nat, width: nat)
    requires height > 0 && width > 0
    ensures Guard(Size(width, height), height, width) == Size(width, height)
    ensures !StrictlyLarger(Guard(Size(width, height), height, width), height, width)
  {
  }

  /**
   * With a square target (the default is 210 by 210) every undersize image is rejected:
   * the resize makes one side exactly the target, and `randint(0)` raises for it.
   */
  lemma SquareTargetRejectsUndersize(image: Size, side: nat)
    requires Decoded(image)
    requires Undersize(image, side, side)
    ensures !StrictlyLarger(Guard(image, side, side), side, side)
  {
  }

  /**
   * When the guard resizes, the mask keeps the image's original size, and the window,
   * which has the target size, cannot fit in it: the mask is cropped partly or wholly
   * outside itself and no longer lines up with the image.
   */
  lemma UndersizeMaskMissesWindow(mask: Size, height: nat, width: nat, w: Window)
    requires Undersize(mask, height, width)
    requires w.height == height && w.width == width
    ensures !WindowInside(w, mask)
  {
  }

  /**
   * A crop that succeeds after a resize: a 50 by 100 image with a 50 by 100 mask and a
   * target of height 200 and width 100. The image becomes 200 by 400 and the window
   * drawn at (150, 50) lies within it, but starts below the bottom of the mask.
   */
  lemma MaskWindowMissesMask()
    ensures Guard(Size(50, 100), 200, 100) == Size(200, 400)
    ensures StrictlyLarger(Size(200, 400), 200, 100)
    ensures DrawFits(150, 400 - 200) && DrawFits(50, 200 - 100)
    ensures WindowInside(Window(150, 50, 200, 100), Size(200, 400))
    ensures !WindowInside(Window(150, 50, 200, 100), Size(50, 100))
  {
    assert Resize(Size(50, 100), 200) == Size(200, 400);
  }

  /**
   * The crop as evidently intended: the mask is resized together with the image, and the
   * offsets are drawn from `randint(n + 1)`, so that every window position inside the
   * image can be chosen, including the one flush with the bottom or right edge. It never
   * fails, and when image and mask have the same size the window lies inside both.
   */
  method CorrectedCropGeometry(image: Size, mask: Size, height: nat, width: nat, topDraw: nat, leftDraw: nat)
    returns (c: Crop)
    requires Decoded(image) && Decoded(mask)
    requires topDraw <= Guard(image, height, width).height - height
    requires leftDraw <= Guard(image, height, width).width - width
    ensures c.image == Guard(image, height, width)
    ensures c.imageWindow == Window(topDraw, leftDraw, height, width)
    ensures c.maskWindow == c.imageWindow
    ensures WindowInside(c.imageWindow, c.image)
    ensures mask == image ==> c.mask == c.image && WindowInside(c.maskWindow, c.mask)
  {
    var orWidth, orHeight := image.width, image.height;
    var current, currentMask := image, mask;
    if orWidth < width || orHeight < height {
      current := Resize(image, Max(height, width));
      currentMask := Resize(mask, Max(height, width));
      orWidth, orHeight := current.width, current.height;
    }
    var top := RandInt(orHeight - height + 1, topDraw);
    var left := RandInt(orWidth - width + 1, leftDraw);
    var window := Window(top.value, left.value, height, width);
    c := Crop(current, currentMask, window, window);
  }
}
