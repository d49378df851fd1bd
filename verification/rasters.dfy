/**
 A decoded image as the point filter holds it: `height` rows, each row a flat
 sequence of `width * nc` byte samples, the `nc` components of one pixel stored
 next to each other. Pixel `(x, y)` is the block `rows[y][x * nc .. x * nc + nc]`.

 Besides the data model this module provides `Build`, which assembles a raster
 from a grid of pixel blocks, and `Grid`, its inverse; every transform of the
 filter is defined through them, so that its properties can be stated and proved
 pixel by pixel.
 */
module Rasters {

  datatype Raster = Raster(width: nat, height: nat, nc: nat, rows: seq<seq<int>>)

  predicate IsByte(v: int) {
    0 <= v <= 255
  }

  predicate AllBytes(s: seq<int>) {
    forall i | 0 <= i < |s| :: IsByte(s[i])
  }

  /** The shape invariant the decoder establishes and every transform keeps. */
  predicate Valid(img: Raster) {
    && |img.rows| == img.height
    && forall y | 0 <= y < |img.rows| ::
         |img.rows[y]| == Offset(img.width, img.nc) && AllBytes(img.rows[y])
  }

  predicate SameShape(a: Raster, b: Raster) {
    a.width == b.width && a.height == b.height && a.nc == b.nc
  }

  predicate InBounds(img: Raster, x: int, y: int) {
    0 <= x < img.width && 0 <= y < img.height
  }

  /** Where pixel `x` starts in a row of `nc`-sample pixels: `x * nc`, written as
      repeated addition so that proofs about rows need no nonlinear arithmetic. */
  function Offset(x: nat, nc: nat): nat
  {
    if x == 0 then 0 else Offset(x - 1, nc) + nc
  }

  /** `Offset` is the C program's `x * num_components`. */
  lemma {:induction false} OffsetIsProduct(x: nat, nc: nat)
    ensures Offset(x, nc) == x * nc
  {
    if x > 0 {
      OffsetIsProduct(x - 1, nc);
      assert x * nc == (x - 1) * nc + nc;
    }
  }

  /** Pixel blocks are laid out in order: block `x` ends where block `x + 1` begins,
      and a row of `w` pixels holds every block `x < w`. */
  lemma {:induction false} OffsetMono(x: nat, w: nat, nc: nat)
    requires x < w
    ensures Offset(x, nc) + nc <= Offset(w, nc)
    decreases w
  {
    if x + 1 < w {
      OffsetMono(x, w - 1, nc);
    }
  }

  /** Every pixel block of a row of `w` pixels lies inside the row. */
  lemma OffsetFits(w: nat, nc: nat)
    ensures forall x | 0 <= x < w :: Offset(x, nc) + nc <= Offset(w, nc)
  {
    forall x | 0 <= x < w
      ensures Offset(x, nc) + nc <= Offset(w, nc)
    {
      OffsetMono(x, w, nc);
    }
  }

  /** The `nc` samples of pixel `x` of a row. */
  function Block(row: seq<int>, x: nat, nc: nat): (p: seq<int>)
    requires Offset(x, nc) + nc <= |row|
    ensures |p| == nc
  {
    row[Offset(x, nc) .. Offset(x, nc) + nc]
  }

  /** The `nc` samples of pixel `(x, y)`. */
  function Pixel(img: Raster, x: int, y: int): (p: seq<int>)
    requires Valid(img) && InBounds(img, x, y)
    ensures |p| == img.nc && AllBytes(p)
  {
    OffsetMono(x, img.width, img.nc);
    Block(img.rows[y], x, img.nc)
  }

  /** Component `k` of pixel `(x, y)`. */
  function Sample(img: Raster, x: int, y: int, k: int): int
    requires Valid(img) && InBounds(img, x, y) && 0 <= k < img.nc
  {
    Pixel(img, x, y)[k]
  }

  /** The samples of a row of pixel blocks, laid end to end. */
  function Concat(ps: seq<seq<int>>): seq<int>
  {
    if |ps| == 0 then [] else Concat(ps[..|ps| - 1]) + ps[|ps| - 1]
  }

  /** Every block has `nc` byte samples. */
  predicate Uniform(ps: seq<seq<int>>, nc: nat) {
    forall j | 0 <= j < |ps| :: |ps[j]| == nc && AllBytes(ps[j])
  }

  lemma {:induction false} ConcatLength(ps: seq<seq<int>>, nc: nat)
    requires Uniform(ps, nc)
    ensures |Concat(ps)| == Offset(|ps|, nc)
    ensures AllBytes(Concat(ps))
  {
    if |ps| > 0 {
      ConcatLength(ps[..|ps| - 1], nc);
    }
  }

  /** In a row of blocks of `nc` samples laid end to end, block `x` starts at
      `Offset(x, nc)`. */
  lemma {:induction false} ConcatBlock(ps: seq<seq<int>>, nc: nat, x: int)
    requires Uniform(ps, nc) && 0 <= x < |ps|
    ensures Offset(x, nc) + nc <= |Concat(ps)|
    ensures Concat(ps)[Offset(x, nc) .. Offset(x, nc) + nc] == ps[x]
  {
    var n := |ps| - 1;
    var init := ps[..n];
    ConcatLength(ps, nc);
    ConcatLength(init, nc);
    OffsetMono(x, |ps|, nc);
    var c := Concat(ps);
    assert c == Concat(init) + ps[n];
    if x < n {
      ConcatBlock(init, nc, x);
      OffsetMono(x, n, nc);
      assert c[Offset(x, nc) .. Offset(x, nc) + nc] == Concat(init)[Offset(x, nc) .. Offset(x, nc) + nc];
    }
  }

  /** Every sample index of a row of `w` pixels lies in the block of some pixel. */
  lemma {:induction false} BlockIndex(i: int, w: nat, nc: nat) returns (x: nat)
    requires 0 <= i < Offset(w, nc)
    ensures x < w && Offset(x, nc) <= i < Offset(x, nc) + nc <= Offset(w, nc)
    decreases w
  {
    if i < Offset(w - 1, nc) {
      x := BlockIndex(i, w - 1, nc);
      OffsetMono(x, w - 1, nc);
    } else {
      x := w - 1;
    }
  }

  /** Two rows of `w` pixels that agree on every pixel block are equal. */
  lemma RowExt(a: seq<int>, b: seq<int>, w: nat, nc: nat)
    requires |a| == Offset(w, nc) && |b| == Offset(w, nc)
    requires forall x | 0 <= x < w :: Offset(x, nc) + nc <= Offset(w, nc) && Block(a, x, nc) == Block(b, x, nc)
    ensures a == b
  {
    forall i | 0 <= i < |a|
      ensures a[i] == b[i]
    {
      var x := BlockIndex(i, w, nc);
      assert a[i] == Block(a, x, nc)[i - Offset(x, nc)];
      assert b[i] == Block(b, x, nc)[i - Offset(x, nc)];
    }
  }

  /** The row with the block of pixel `x` replaced by `p`; every other block is kept. */
  function Overwrite(row: seq<int>, x: nat, nc: nat, p: seq<int>): (r: seq<int>)
    requires Offset(x, nc) + nc <= |row| && |p| == nc
    ensures |r| == |row|
    ensures Block(r, x, nc) == p
    ensures forall x' | 0 <= x' && x' != x && Offset(x', nc) + nc <= |row| :: Block(r, x', nc) == Block(row, x', nc)
    ensures AllBytes(row) && AllBytes(p) ==> AllBytes(r)
  {
    var o := Offset(x, nc);
    var r := row[..o] + p + row[o + nc ..];
    assert forall i | 0 <= i < |row| && (i < o || o + nc <= i) :: r[i] == row[i];
    assert forall i | o <= i < o + nc :: r[i] == p[i - o];
    assert forall x' | 0 <= x' && x' != x && Offset(x', nc) + nc <= |row| :: Block(r, x', nc) == Block(row, x', nc) by {
      forall x' | 0 <= x' && x' != x && Offset(x', nc) + nc <= |row|
        ensures Block(r, x', nc) == Block(row, x', nc)
      {
        if x' < x {
          OffsetMono(x', x, nc);
        } else {
          OffsetMono(x, x', nc);
        }
      }
    }
    r
  }

  /** The raster with pixel `(x, y)` set to `p` and every other pixel kept. */
  function SetPixel(img: Raster, x: int, y: int, p: seq<int>): (r: Raster)
    requires Valid(img) && InBounds(img, x, y) && |p| == img.nc && AllBytes(p)
    ensures Valid(r) && SameShape(r, img)
    ensures Pixel(r, x, y) == p
    ensures forall x', y' | InBounds(img, x', y') && (x' != x || y' != y) :: Pixel(r, x', y') == Pixel(img, x', y')
  {
    OffsetMono(x, img.width, img.nc);
    var row := Overwrite(img.rows[y], x, img.nc, p);
    var r := img.(rows := img.rows[y := row]);
    assert Valid(r);
    assert forall x', y' | InBounds(img, x', y') && (x' != x || y' != y) :: Pixel(r, x', y') == Pixel(img, x', y') by {
      forall x', y' | InBounds(img, x', y') && (x' != x || y' != y)
        ensures Pixel(r, x', y') == Pixel(img, x', y')
      {
        OffsetMono(x', img.width, img.nc);
      }
    }
    r
  }

  /** `g[y][x]` is a block of `nc` bytes for every pixel of a `w` by `h` image. */
  predicate IsGrid(w: nat, h: nat, nc: nat, g: seq<seq<seq<int>>>) {
    && |g| == h
    && forall y | 0 <= y < h :: |g[y]| == w && Uniform(g[y], nc)
  }

  /** The raster whose pixel `(x, y)` is `g[y][x]`. */
  function Build(w: nat, h: nat, nc: nat, g: seq<seq<seq<int>>>): (r: Raster)
    requires IsGrid(w, h, nc, g)
    ensures Valid(r) && r.width == w && r.height == h && r.nc == nc
    ensures forall x, y | 0 <= x < w && 0 <= y < h :: Pixel(r, x, y) == g[y][x]
  {
    var r := Raster(w, h, nc, seq(h, y requires 0 <= y < h => Concat(g[y])));
    assert Valid(r) by {
      forall y | 0 <= y < h
        ensures |r.rows[y]| == Offset(w, nc) && AllBytes(r.rows[y])
      {
        ConcatLength(g[y], nc);
      }
    }
    assert forall x, y | 0 <= x < w && 0 <= y < h :: Pixel(r, x, y) == g[y][x] by {
      forall x, y | 0 <= x < w && 0 <= y < h
        ensures Pixel(r, x, y) == g[y][x]
      {
        ConcatBlock(g[y], nc, x);
      }
    }
    r
  }

  /** The pixel blocks of a raster, row by row. */
  function Grid(img: Raster): (g: seq<seq<seq<int>>>)
    requires Valid(img)
    ensures IsGrid(img.width, img.height, img.nc, g)
  {
    seq(img.height, y requires 0 <= y < img.height =>
      seq(img.width, x requires 0 <= x < img.width => Pixel(img, x, y)))
  }

  /** Reassembling a raster from its pixel blocks gives the raster back. */
  lemma BuildGrid(img: Raster)
    requires Valid(img)
    ensures Build(img.width, img.height, img.nc, Grid(img)) == img
  {
    var r := Build(img.width, img.height, img.nc, Grid(img));
    forall y | 0 <= y < img.height
      ensures r.rows[y] == img.rows[y]
    {
      forall x | 0 <= x < img.width
        ensures Offset(x, img.nc) + img.nc <= Offset(img.width, img.nc)
        ensures Block(r.rows[y], x, img.nc) == Block(img.rows[y], x, img.nc)
      {
        OffsetMono(x, img.width, img.nc);
        assert Pixel(r, x, y) == Grid(img)[y][x];
      }
      RowExt(r.rows[y], img.rows[y], img.width, img.nc);
    }
  }

  /** Two valid rasters of the same shape that agree on every pixel are equal. */
  lemma PixelExt(a: Raster, b: Raster)
    requires Valid(a) && Valid(b) && SameShape(a, b)
    requires forall x, y | InBounds(a, x, y) :: Pixel(a, x, y) == Pixel(b, x, y)
    ensures a == b
  {
    forall y | 0 <= y < a.height
      ensures a.rows[y] == b.rows[y]
    {
      forall x | 0 <= x < a.width
        ensures Offset(x, a.nc) + a.nc <= Offset(a.width, a.nc)
        ensures Block(a.rows[y], x, a.nc) == Block(b.rows[y], x, a.nc)
      {
        OffsetMono(x, a.width, a.nc);
        assert Pixel(a, x, y) == Pixel(b, x, y);
      }
      RowExt(a.rows[y], b.rows[y], a.width, a.nc);
    }
  }

  /** Two rasters of the same shape whose samples all agree are equal. */
  lemma SampleExt(a: Raster, b: Raster)
    requires Valid(a) && Valid(b) && SameShape(a, b)
    requires forall x, y, k | InBounds(a, x, y) && 0 <= k < a.nc :: Sample(a, x, y, k) == Sample(b, x, y, k)
    ensures a == b
  {
    assert forall x, y | InBounds(a, x, y) :: Pixel(a, x, y) == Pixel(b, x, y) by {
      forall x, y | InBounds(a, x, y)
        ensures Pixel(a, x, y) == Pixel(b, x, y)
      {
        assert forall k | 0 <= k < a.nc :: Pixel(a, x, y)[k] == Sample(a, x, y, k);
      }
    }
    PixelExt(a, b);
  }

  /** The `w` by `h` raster whose pixel `(x, y)` is pixel `from(x, y)` of `img`: the
      shape of every geometric transform of the filter. */
  function Remap(img: Raster, w: nat, h: nat, from: (int, int) -> (int, int)): (r: Raster)
    requires Valid(img)
    requires forall x, y | 0 <= x < w && 0 <= y < h :: InBounds(img, from(x, y).0, from(x, y).1)
    ensures Valid(r) && r.width == w && r.height == h && r.nc == img.nc
    ensures forall x, y | 0 <= x < w && 0 <= y < h ::
              Pixel(r, x, y) == Pixel(img, from(x, y).0, from(x, y).1)
  {
    var g := seq(h, y requires 0 <= y < h =>
               seq(w, x requires 0 <= x < w => Pixel(img, from(x, y).0, from(x, y).1)));
    assert IsGrid(w, h, img.nc, g) by {
      forall y | 0 <= y < h
        ensures |g[y]| == w && Uniform(g[y], img.nc)
      {
        forall x | 0 <= x < w
          ensures |g[y][x]| == img.nc && AllBytes(g[y][x])
        {
          assert InBounds(img, from(x, y).0, from(x, y).1);
          assert g[y][x] == Pixel(img, from(x, y).0, from(x, y).1);
        }
      }
    }
    Build(w, h, img.nc, g)
  }

  /** The raster whose every sample `s` is replaced by `f(s)`. */
  function MapSamples(img: Raster, f: int -> int): (r: Raster)
    requires Valid(img)
    requires forall v | IsByte(v) :: IsByte(f(v))
    ensures Valid(r) && SameShape(r, img)
    ensures forall x, y, k | InBounds(img, x, y) && 0 <= k < img.nc ::
              Sample(r, x, y, k) == f(Sample(img, x, y, k))
  {
    var r := img.(rows := seq(img.height, y requires 0 <= y < img.height =>
               seq(|img.rows[y]|, i requires 0 <= i < |img.rows[y]| => f(img.rows[y][i]))));
    assert Valid(r) by {
      forall y | 0 <= y < img.height
        ensures |r.rows[y]| == Offset(img.width, img.nc) && AllBytes(r.rows[y])
      {
        assert AllBytes(img.rows[y]);
      }
    }
    assert forall x, y, k | InBounds(img, x, y) && 0 <= k < img.nc ::
             Sample(r, x, y, k) == f(Sample(img, x, y, k)) by {
      forall x, y, k | InBounds(img, x, y) && 0 <= k < img.nc
        ensures Sample(r, x, y, k) == f(Sample(img, x, y, k))
      {
        OffsetMono(x, img.width, img.nc);
      }
    }
    r
  }
}
