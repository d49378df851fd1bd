/**
 The transforms of the point filter (point.c), each taking the raster that the
 decoder produced and returning the raster the encoder will write. The C program
 keeps the image in globals and mutates it in place; here the raster goes in and
 comes out as a value.
 */
module Point {
  import opened Rasters

  /** The base J_COLOR_SPACE values; `process_file` treats every value other than RGB alike. */
  datatype ColorSpace = Unknown | Grayscale | RGB | YCbCr | CMYK | YCCK

  /** The diagnostic the filter prints, if any; anything but `Done` means the
      raster is handed to the encoder unchanged. */
  datatype Status = Done | UnsupportedColorSpace | UnknownFilter(name: string) | UnknownDirection

  datatype Outcome = Outcome(image: Raster, status: Status)

  function Dist(a: int, b: int): nat {
    if a < b then b - a else a - b
  }

  /** `clamp(min, max, value)`: the value bounded to `[lo, hi]`. */
  function Clamp(lo: int, hi: int, v: int): (r: int)
    ensures lo <= hi ==> lo <= r <= hi
    ensures lo <= v <= hi ==> r == v
    ensures lo <= hi ==> forall z | lo <= z <= hi :: Dist(r, v) <= Dist(z, v)
    ensures hi < lo ==> r == lo || r == hi
  {
    if v < lo then lo else if v > hi then hi else v
  }

  /** `negate`: every sample `s` becomes `255 - s`. */
  function Negate(img: Raster): (r: Raster)
    requires Valid(img)
    ensures Valid(r) && SameShape(r, img)
    ensures forall x, y, k | InBounds(img, x, y) && 0 <= k < img.nc ::
              Sample(r, x, y, k) == 255 - Sample(img, x, y, k)
  {
    MapSamples(img, s => 255 - s)
  }

  /** The sample loop shared by `brightness` and `contrast`. `level(s)` stands for
      the floating-point expression each of them computes from a sample `s` and
      truncates to `int`; the result is clamped to `[0, 255]`. */
  function Adjust(img: Raster, level: int -> int): (r: Raster)
    requires Valid(img)
    ensures Valid(r) && SameShape(r, img)
    ensures forall x, y, k | InBounds(img, x, y) && 0 <= k < img.nc ::
              Sample(r, x, y, k) == Clamp(0, 255, level(Sample(img, x, y, k)))
  {
    var f := s => Clamp(0, 255, level(s));
    assert forall v | IsByte(v) :: IsByte(f(v)) by {
      forall v | IsByte(v)
        ensures IsByte(f(v))
      {
        assert f(v) == Clamp(0, 255, level(v));
      }
    }
    MapSamples(img, f)
  }

  /** `swap(a, b)`: exchanges the component blocks of pixels `(x1, y1)` and `(x2, y2)`. */
  function SwapPixels(img: Raster, x1: int, y1: int, x2: int, y2: int): (r: Raster)
    requires Valid(img) && InBounds(img, x1, y1) && InBounds(img, x2, y2)
    ensures Valid(r) && SameShape(r, img)
    ensures Pixel(r, x1, y1) == Pixel(img, x2, y2)
    ensures Pixel(r, x2, y2) == Pixel(img, x1, y1)
    ensures forall x, y | InBounds(img, x, y) && (x != x1 || y != y1) && (x != x2 || y != y2) ::
              Pixel(r, x, y) == Pixel(img, x, y)
  {
    Remap(img, img.width, img.height,
      (x, y) => if x == x1 && y == y1 then (x2, y2) else if x == x2 && y == y2 then (x1, y1) else (x, y))
  }

  /** `flip` about the `"y"` axis: each row mirrored left to right. */
  function MirrorLeftRight(img: Raster): (r: Raster)
    requires Valid(img)
    ensures Valid(r) && SameShape(r, img)
    ensures forall x, y | InBounds(img, x, y) :: Pixel(r, img.width - 1 - x, y) == Pixel(img, x, y)
  {
    Remap(img, img.width, img.height, (x, y) => (img.width - 1 - x, y))
  }

  /** `flip` about the `"x"` axis: the rows in reverse order. */
  function MirrorTopBottom(img: Raster): (r: Raster)
    requires Valid(img)
    ensures Valid(r) && SameShape(r, img)
    ensures forall x, y | InBounds(img, x, y) :: Pixel(r, x, img.height - 1 - y) == Pixel(img, x, y)
  {
    Remap(img, img.width, img.height, (x, y) => (x, img.height - 1 - y))
  }

  /** `flip`: `"y"` mirrors each row, `"x"` mirrors the row order, and any other
      axis leaves the raster alone without a diagnostic. */
  function Flip(img: Raster, axis: string): (r: Raster)
    requires Valid(img)
    ensures Valid(r) && SameShape(r, img)
    ensures axis == "y" ==>
              forall x, y | InBounds(img, x, y) :: Pixel(r, x, y) == Pixel(img, img.width - 1 - x, y)
    ensures axis == "x" ==>
              forall x, y | InBounds(img, x, y) :: Pixel(r, x, y) == Pixel(img, x, img.height - 1 - y)
    ensures axis != "x" && axis != "y" ==> r == img
  {
    if axis == "y" then MirrorLeftRight(img)
    else if axis == "x" then MirrorTopBottom(img)
    else img
  }

  /** Where `rotate "right"` sends source pixel `(x, y)` of an image `h` rows high:
      new row `x`, column `new_width - 1 - y` with `new_width == h`. */
  function RightTarget(h: int, x: int, y: int): (int, int) {
    (h - 1 - y, x)
  }

  /** Where `rotate "left"` sends source pixel `(x, y)` of an image `w` pixels wide:
      new row `new_height - 1 - x` with `new_height == w`, column `y`. */
  function LeftTarget(w: int, x: int, y: int): (int, int) {
    (y, w - 1 - x)
  }

  /** The source pixel that `rotate "right"` copies into destination pixel `(nx, ny)`. */
  function RightSource(h: int, nx: int, ny: int): (int, int) {
    (ny, h - 1 - nx)
  }

  /** The source pixel that `rotate "left"` copies into destination pixel `(nx, ny)`
      of an image that was `w` pixels wide. */
  function LeftSource(w: int, nx: int, ny: int): (int, int) {
    (w - 1 - ny, nx)
  }

  /** `rotate "right"`: a clockwise quarter turn into a new raster. */
  function RotateRight(img: Raster): (r: Raster)
    requires Valid(img)
    ensures Valid(r) && r.width == img.height && r.height == img.width && r.nc == img.nc
    ensures forall x, y | InBounds(img, x, y) :: Pixel(r, img.height - 1 - y, x) == Pixel(img, x, y)
  {
    Remap(img, img.height, img.width, (nx, ny) => RightSource(img.height, nx, ny))
  }

  /** `rotate "left"`: a counter-clockwise quarter turn into a new raster. */
  function RotateLeft(img: Raster): (r: Raster)
    requires Valid(img)
    ensures Valid(r) && r.width == img.height && r.height == img.width && r.nc == img.nc
    ensures forall x, y | InBounds(img, x, y) :: Pixel(r, y, img.width - 1 - x) == Pixel(img, x, y)
  {
    Remap(img, img.height, img.width, (nx, ny) => LeftSource(img.width, nx, ny))
  }

  /** `rotate`: `"right"` or `"left"`; any other direction prints a diagnostic and
      leaves the raster and its dimensions as they were. */
  function Rotate(img: Raster, direction: string): (o: Outcome)
    requires Valid(img)
    ensures Valid(o.image)
    ensures o.status == Done <==> direction == "right" || direction == "left"
    ensures direction == "right" ==> o.image == RotateRight(img)
    ensures direction == "left" ==> o.image == RotateLeft(img)
    ensures o.status == Done ==>
              o.image.width == img.height && o.image.height == img.width && o.image.nc == img.nc
    ensures o.status != Done ==> o.status == UnknownDirection && o.image == img
  {
    if direction == "right" then Outcome(RotateRight(img), Done)
    else if direction == "left" then Outcome(RotateLeft(img), Done)
    else Outcome(img, UnknownDirection)
  }

  predicate KnownFilter(filter: string) {
    filter in ["negate", "brightness", "contrast", "flip", "rotate"]
  }

  /** `process_file`: checks the colour space, then dispatches on the filter name.
      `brighten` and `contrast` stand for the per-sample expressions of the
      brightness and contrast filters (see `Adjust`). */
  function ProcessFile(space: ColorSpace, filter: string, axis: string, direction: string,
                       brighten: int -> int, contrast: int -> int, img: Raster): (o: Outcome)
    requires Valid(img)
    ensures Valid(o.image)
    ensures o.status == UnsupportedColorSpace <==> space != RGB
    ensures o.status.UnknownFilter? <==> space == RGB && !KnownFilter(filter)
    ensures o.status.UnknownFilter? ==> o.status.name == filter
    ensures o.status == UnknownDirection <==> space == RGB && filter == "rotate" && direction != "right" && direction != "left"
    ensures o.status != Done ==> o.image == img
    ensures SameShape(o.image, img) || (filter == "rotate" && o.status == Done)
    ensures space == RGB && filter == "negate" ==> o.image == Negate(img)
    ensures space == RGB && filter == "brightness" ==> o.image == Adjust(img, brighten)
    ensures space == RGB && filter == "contrast" ==> o.image == Adjust(img, contrast)
    ensures space == RGB && filter == "flip" ==> o.image == Flip(img, axis)
    ensures space == RGB && filter == "rotate" ==> o == Rotate(img, direction)
  {
    if space != RGB then Outcome(img, UnsupportedColorSpace)
    else if filter == "negate" then Outcome(Negate(img), Done)
    else if filter == "brightness" then Outcome(Adjust(img, brighten), Done)
    else if filter == "contrast" then Outcome(Adjust(img, contrast), Done)
    else if filter == "flip" then Outcome(Flip(img, axis), Done)
    else if filter == "rotate" then Rotate(img, direction)
    else Outcome(img, UnknownFilter(filter))
  }
}
