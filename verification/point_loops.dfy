/**
 The loops of point.c written out as they run: sample by sample and pixel by
 pixel over a raster that is updated in place. Each method is proved to compute
 exactly the functional transform of module `Point`.
 */
module PointLoops {
  import opened Rasters
  import opened Point

  /** The loop nest of `negate`, `brightness` and `contrast`: every sample of every
      pixel of every row is replaced by `f` of itself, in place. */
  method MapInPlace(img: Raster, f: int -> int) returns (r: Raster)
    requires Valid(img)
    requires forall v | IsByte(v) :: IsByte(f(v))
    ensures r == MapSamples(img, f)
  {
    var rows := img.rows;
    for y := 0 to img.height
      invariant |rows| == img.height
      invariant forall j | 0 <= j < y :: |rows[j]| == |img.rows[j]| &&
                  forall i | 0 <= i < |rows[j]| :: rows[j][i] == f(img.rows[j][i])
      invariant forall j | y <= j < img.height :: rows[j] == img.rows[j]
    {
      var row := MapRow(rows[y], img.width, img.nc, f);
      rows := rows[y := row];
    }
    r := Raster(img.width, img.height, img.nc, rows);
    var m := MapSamples(img, f);
    assert Valid(r);
    forall x, y | InBounds(r, x, y)
      ensures Pixel(r, x, y) == Pixel(m, x, y)
    {
      OffsetMono(x, img.width, img.nc);
      assert Pixel(r, x, y) == Block(rows[y], x, img.nc);
      forall k | 0 <= k < img.nc
        ensures Pixel(r, x, y)[k] == Pixel(m, x, y)[k]
      {
        assert Sample(m, x, y, k) == f(Sample(img, x, y, k));
      }
    }
    PixelExt(r, m);
  }

  /** `negate` as written. */
  method NegateInPlace(img: Raster) returns (r: Raster)
    requires Valid(img)
    ensures r == Negate(img)
  {
    r := MapInPlace(img, s => 255 - s);
    SampleExt(r, Negate(img));
  }

  /** `brightness` and `contrast` as written, with `level` standing for the
      truncated floating-point expression of each. */
  method AdjustInPlace(img: Raster, level: int -> int) returns (r: Raster)
    requires Valid(img)
    ensures r == Adjust(img, level)
  {
    var f := s => Clamp(0, 255, level(s));
    forall v | IsByte(v)
      ensures IsByte(f(v))
    {
      assert f(v) == Clamp(0, 255, level(v));
    }
    r := MapInPlace(img, f);
    SampleExt(r, Adjust(img, level));
  }

  /** One row of the loop nest: pixel `x`, component `k` is sample
      `x * nc + k` of the row. */
  method MapRow(row: seq<int>, w: nat, nc: nat, f: int -> int) returns (r: seq<int>)
    requires |row| == Offset(w, nc)
    ensures |r| == |row|
    ensures forall i | 0 <= i < |row| :: r[i] == f(row[i])
  {
    r := row;
    for x := 0 to w
      invariant |r| == |row| && Offset(x, nc) <= |row|
      invariant forall i | 0 <= i < Offset(x, nc) :: r[i] == f(row[i])
      invariant forall i | Offset(x, nc) <= i < |row| :: r[i] == row[i]
    {
      OffsetMono(x, w, nc);
      var start := Offset(x, nc);
      for k := 0 to nc
        invariant |r| == |row|
        invariant forall i | 0 <= i < start + k :: r[i] == f(row[i])
        invariant forall i | start + k <= i < |row| :: r[i] == row[i]
      {
        r := r[start + k := f(r[start + k])];
      }
    }
  }

  /** `swap(a, b)`: the component loop through a temporary exchanges the contents
      of two blocks of equal length. */
  method SwapComponents(a: seq<int>, b: seq<int>) returns (a': seq<int>, b': seq<int>)
    requires |a| == |b|
    ensures a' == b && b' == a
  {
    a', b' := a, b;
    for k := 0 to |a|
      invariant |a'| == |a| && |b'| == |a|
      invariant forall j | 0 <= j < k :: a'[j] == b[j] && b'[j] == a[j]
      invariant forall j | k <= j < |a| :: a'[j] == a[j] && b'[j] == b[j]
    {
      var temp := a'[k];
      a' := a'[k := b'[k]];
      b' := b'[k := temp];
    }
  }

  /** `swap` applied to the blocks of pixels `(x1, y1)` and `(x2, y2)`, which are then
      stored back. Two different pixels have disjoint blocks; when both are the same
      pixel the blocks are equal and nothing changes, as in the C loop. */
  method Swap(img: Raster, x1: int, y1: int, x2: int, y2: int) returns (r: Raster)
    requires Valid(img) && InBounds(img, x1, y1) && InBounds(img, x2, y2)
    ensures r == SwapPixels(img, x1, y1, x2, y2)
  {
    var a, b := SwapComponents(Pixel(img, x1, y1), Pixel(img, x2, y2));
    StoreBack(img, x1, y1, x2, y2);
    r := SetPixel(SetPixel(img, x1, y1, a), x2, y2, b);
  }

  /** Storing each pixel's block at the other pixel is the swap. */
  lemma StoreBack(img: Raster, x1: int, y1: int, x2: int, y2: int)
    requires Valid(img) && InBounds(img, x1, y1) && InBounds(img, x2, y2)
    ensures SetPixel(SetPixel(img, x1, y1, Pixel(img, x2, y2)), x2, y2, Pixel(img, x1, y1)) == SwapPixels(img, x1, y1, x2, y2)
  {
    hide SwapPixels, SetPixel;
    var once := SetPixel(img, x1, y1, Pixel(img, x2, y2));
    var r := SetPixel(once, x2, y2, Pixel(img, x1, y1));
    var s := SwapPixels(img, x1, y1, x2, y2);
    forall x, y | InBounds(img, x, y)
      ensures Pixel(r, x, y) == Pixel(s, x, y)
    {
      if x == x2 && y == y2 {
      } else if x == x1 && y == y1 {
        assert Pixel(r, x, y) == Pixel(once, x, y);
      } else {
        assert Pixel(r, x, y) == Pixel(once, x, y);
      }
    }
    PixelExt(r, s);
  }

  /** `flip` as written: swaps pixel pairs in place, and does nothing for an axis
      other than `"y"` or `"x"`. */
  method FlipInPlace(img: Raster, axis: string) returns (r: Raster)
    requires Valid(img)
    ensures r == Flip(img, axis)
  {
    if axis == "y" {
      r := MirrorEachRow(img);
    } else if axis == "x" {
      r := ReverseRowOrder(img);
    } else {
      r := img;
    }
  }

  /** The `"y"` branch: every row mirrored by `MirrorRow`, top to bottom. */
  method MirrorEachRow(img: Raster) returns (r: Raster)
    requires Valid(img)
    ensures r == MirrorLeftRight(img)
  {
    var w, h, nc := img.width, img.height, img.nc;
    hide Block, MirrorLeftRight;
    var m := MirrorLeftRight(img);
    assert |img.rows| == h && forall j | 0 <= j < h :: |img.rows[j]| == Offset(w, nc);
    assert |m.rows| == h && forall j | 0 <= j < h :: |m.rows[j]| == Offset(w, nc);
    hide Valid;
    OffsetFits(w, nc);
    var rows := img.rows;
    for y := 0 to h
      invariant |rows| == h
      invariant forall j | 0 <= j < y :: |rows[j]| == Offset(w, nc) &&
                  forall x {:trigger Block(rows[j], x, nc)} | 0 <= x < w ::
                    Block(rows[j], x, nc) == Block(img.rows[j], w - 1 - x, nc)
      invariant forall j | y <= j < h :: rows[j] == img.rows[j]
    {
      var row := MirrorRow(rows[y], w, nc);
      rows := rows[y := row];
    }
    forall y | 0 <= y < h
      ensures rows[y] == m.rows[y]
    {
      forall x | 0 <= x < w
        ensures Offset(x, nc) + nc <= Offset(w, nc) && Block(rows[y], x, nc) == Block(m.rows[y], x, nc)
      {
        assert Pixel(m, w - 1 - (w - 1 - x), y) == Pixel(img, w - 1 - x, y);
      }
      RowExt(rows[y], m.rows[y], w, nc);
    }
    r := Raster(w, h, nc, rows);
  }

  /** One row of the `"y"` branch: block `x` is swapped with block `w - 1 - x` for
      `x < w / 2`; the middle block of an odd-width row is never touched. */
  method MirrorRow(row: seq<int>, w: nat, nc: nat) returns (r: seq<int>)
    requires |row| == Offset(w, nc)
    ensures |r| == |row|
    ensures forall x {:trigger Block(r, x, nc)} | 0 <= x < w ::
              Offset(x, nc) + nc <= |row| && Offset(w - 1 - x, nc) + nc <= |row| &&
              Block(r, x, nc) == Block(row, w - 1 - x, nc)
  {
    hide Block, Overwrite;
    OffsetFits(w, nc);
    r := row;
    for x := 0 to w / 2
      invariant |r| == |row|
      invariant forall x' {:trigger Block(r, x', nc)} | 0 <= x' < x || w - x <= x' < w ::
                  Block(r, x', nc) == Block(row, w - 1 - x', nc)
      invariant forall x' {:trigger Block(r, x', nc)} | x <= x' < w - x :: Block(r, x', nc) == Block(row, x', nc)
    {
      var p, q := SwapComponents(Block(r, x, nc), Block(r, w - 1 - x, nc));
      r := Overwrite(Overwrite(r, x, nc, p), w - 1 - x, nc, q);
    }
  }

  /** The `"x"` branch: the rows of the image in reverse order, built by
      `ReverseRows`, are exactly `MirrorTopBottom`. */
  method ReverseRowOrder(img: Raster) returns (r: Raster)
    requires Valid(img)
    ensures r == MirrorTopBottom(img)
  {
    var rows := ReverseRows(img);
    hide Valid, MirrorTopBottom;
    var m := MirrorTopBottom(img);
    ReversedRows(img);
    assert rows == m.rows;
    r := Raster(img.width, img.height, img.nc, rows);
  }

  /** The loop of the `"x"` branch: for `y < height / 2`, row `y` is exchanged
      with row `height - 1 - y`; the middle row of an odd-height image is never
      touched. The result holds row `height - 1 - y` at position `y`. */
  method ReverseRows(img: Raster) returns (rows: seq<seq<int>>)
    requires Valid(img)
    ensures |rows| == img.height
    ensures forall j {:trigger rows[j]} | 0 <= j < img.height :: rows[j] == img.rows[img.height - 1 - j]
  {
    var w, h, nc := img.width, img.height, img.nc;
    assert |img.rows| == h && forall j | 0 <= j < h :: |img.rows[j]| == Offset(w, nc);
    hide Valid;
    rows := img.rows;
    for y := 0 to h / 2
      invariant |rows| == h
      invariant forall j {:trigger rows[j]} | 0 <= j < y || h - y <= j < h :: rows[j] == img.rows[h - 1 - j]
      invariant forall j {:trigger rows[j]} | y <= j < h - y :: rows[j] == img.rows[j]
    {
      var a, b := ExchangeRows(rows[y], rows[h - 1 - y], w, nc);
      rows := rows[y := a][h - 1 - y := b];
    }
    forall j | 0 <= j < h
      ensures rows[j] == img.rows[h - 1 - j]
    {
      if h / 2 <= j < h - h / 2 {
        assert h - 1 - j == j;
      }
    }
  }

  /** Row `y` of the image with its row order reversed is row `height - 1 - y`. */
  lemma ReversedRows(img: Raster)
    requires Valid(img)
    ensures |MirrorTopBottom(img).rows| == img.height
    ensures forall y {:trigger MirrorTopBottom(img).rows[y]} | 0 <= y < img.height ::
              MirrorTopBottom(img).rows[y] == img.rows[img.height - 1 - y]
  {
    var w, h, nc := img.width, img.height, img.nc;
    hide Block, MirrorTopBottom;
    var m := MirrorTopBottom(img);
    OffsetFits(w, nc);
    forall y | 0 <= y < h
      ensures m.rows[y] == img.rows[h - 1 - y]
    {
      forall x | 0 <= x < w
        ensures Offset(x, nc) + nc <= Offset(w, nc) && Block(img.rows[h - 1 - y], x, nc) == Block(m.rows[y], x, nc)
      {
        assert Pixel(m, x, h - 1 - (h - 1 - y)) == Pixel(img, x, h - 1 - y);
      }
      RowExt(img.rows[h - 1 - y], m.rows[y], w, nc);
    }
  }

  /** One step of the `"x"` branch: block `x` of one row is swapped with block `x`
      of the other, for every `x`, which exchanges the two rows. */
  method ExchangeRows(a: seq<int>, b: seq<int>, w: nat, nc: nat) returns (a': seq<int>, b': seq<int>)
    requires |a| == Offset(w, nc) && |b| == Offset(w, nc)
    ensures a' == b && b' == a
  {
    hide Block, Overwrite;
    OffsetFits(w, nc);
    a', b' := a, b;
    for x := 0 to w
      invariant |a'| == Offset(w, nc) && |b'| == Offset(w, nc)
      invariant forall x' | 0 <= x' < x :: Block(a', x', nc) == Block(b, x', nc) && Block(b', x', nc) == Block(a, x', nc)
      invariant forall x' | x <= x' < w :: Block(a', x', nc) == Block(a, x', nc) && Block(b', x', nc) == Block(b, x', nc)
    {
      var p, q := SwapComponents(Block(a', x, nc), Block(b', x, nc));
      a' := Overwrite(a', x, nc, p);
      b' := Overwrite(b', x, nc, q);
    }
    RowExt(a', b, w, nc);
    RowExt(b', a, w, nc);
  }

  /** Where `rotate` in direction `right` (or else left) writes source pixel `(x, y)`. */
  function Target(right: bool, w: int, h: int, x: int, y: int): (int, int) {
    if right then RightTarget(h, x, y) else LeftTarget(w, x, y)
  }

  /** The source pixel `rotate` in direction `right` (or else left) copies into
      destination pixel `(nx, ny)`. */
  function Source(right: bool, w: int, h: int, nx: int, ny: int): (int, int) {
    if right then RightSource(h, nx, ny) else LeftSource(w, nx, ny)
  }

  /** Source pixel `s` comes before pixel `(x, y)` in the row-major order of the
      copy loops. */
  predicate Before(s: (int, int), x: int, y: int) {
    s.1 < y || (s.1 == y && s.0 < x)
  }

  /** `buf` has the shape of the raster `rotate` allocates for `img`: `img.width`
      rows of `img.height` pixels. */
  ghost predicate Allocated(img: Raster, buf: seq<seq<int>>) {
    |buf| == img.width && forall ny | 0 <= ny < img.width :: |buf[ny]| == Offset(img.height, img.nc)
  }

  /** The state of `rotate`'s copy loops when they reach source pixel `(x, y)`:
      exactly the destinations of the source pixels visited so far have been
      written, and each holds its source pixel. */
  ghost predicate Copied(img: Raster, right: bool, buf: seq<seq<int>>, written: set<(int, int)>, x: int, y: int)
    requires Valid(img) && Allocated(img, buf)
  {
    forall nx, ny | 0 <= nx < img.height && 0 <= ny < img.width ::
      ((nx, ny) in written <==> Before(Source(right, img.width, img.height, nx, ny), x, y)) &&
      (Before(Source(right, img.width, img.height, nx, ny), x, y) ==> Holds(img, right, buf, nx, ny))
  }

  /** Destination block `(nx, ny)` of `buf` holds the source pixel `rotate`
      copies into it. */
  ghost predicate Holds(img: Raster, right: bool, buf: seq<seq<int>>, nx: int, ny: int)
    requires Valid(img) && Allocated(img, buf) && 0 <= nx < img.height && 0 <= ny < img.width
  {
    var src := Source(right, img.width, img.height, nx, ny);
    Offset(nx, img.nc) + img.nc <= Offset(img.height, img.nc) &&
    Block(buf[ny], nx, img.nc) == Pixel(img, src.0, src.1)
  }

  /** Visiting source pixel `(x, y)` adds exactly its destination to the
      destinations already visited. */
  lemma StepOrder(right: bool, w: int, h: int, x: int, y: int)
    requires 0 <= x < w && 0 <= y < h
    ensures 0 <= Target(right, w, h, x, y).0 < h && 0 <= Target(right, w, h, x, y).1 < w
    ensures Source(right, w, h, Target(right, w, h, x, y).0, Target(right, w, h, x, y).1) == (x, y)
    ensures forall nx, ny | 0 <= nx < h && 0 <= ny < w ::
              Before(Source(right, w, h, nx, ny), x + 1, y) <==>
              Before(Source(right, w, h, nx, ny), x, y) || (nx, ny) == Target(right, w, h, x, y)
  {
    var t := Target(right, w, h, x, y);
    forall nx, ny | 0 <= nx < h && 0 <= ny < w
      ensures Before(Source(right, w, h, nx, ny), x + 1, y) <==>
              Before(Source(right, w, h, nx, ny), x, y) || (nx, ny) == t
    {
      var src := Source(right, w, h, nx, ny);
      assert src == (x, y) <==> (nx, ny) == t;
    }
  }

  /** Storing block `p` at pixel `tx` of row `ty` changes that block only. */
  lemma StoreBlock(buf: seq<seq<int>>, tx: nat, ty: int, nc: nat, p: seq<int>)
    requires 0 <= ty < |buf| && Offset(tx, nc) + nc <= |buf[ty]| && |p| == nc
    ensures var buf' := buf[ty := Overwrite(buf[ty], tx, nc, p)];
            |buf'| == |buf| && (forall j | 0 <= j < |buf| :: |buf'[j]| == |buf[j]|) &&
            Block(buf'[ty], tx, nc) == p &&
            forall nx: nat, ny | 0 <= ny < |buf| && (nx != tx || ny != ty) && Offset(nx, nc) + nc <= |buf[ny]| ::
              Block(buf'[ny], nx, nc) == Block(buf[ny], nx, nc)
  {
  }

  /** One pass of the inner copy loop: the destination of `(x, y)` has not been
      written yet, and writing it advances the loop state to `(x + 1, y)`. */
  lemma CopyStep(img: Raster, right: bool, buf: seq<seq<int>>, written: set<(int, int)>, x: int, y: int)
    requires Valid(img) && Allocated(img, buf) && InBounds(img, x, y)
    requires Copied(img, right, buf, written, x, y)
    ensures var t := Target(right, img.width, img.height, x, y);
            0 <= t.0 < img.height && 0 <= t.1 < img.width &&
            Offset(t.0, img.nc) + img.nc <= |buf[t.1]| &&
            t !in written &&
            var buf' := buf[t.1 := Overwrite(buf[t.1], t.0, img.nc, Pixel(img, x, y))];
            Allocated(img, buf') && Copied(img, right, buf', written + {t}, x + 1, y)
  {
    var w, h, nc := img.width, img.height, img.nc;
    var t := Target(right, w, h, x, y);
    StepOrder(right, w, h, x, y);
    OffsetMono(t.0, h, nc);
    var p := Pixel(img, x, y);
    CopyTarget(img, right, buf, x, y);
    assert t !in written;
    hide Pixel, Block, Overwrite, Valid, Target, Source, Before, Holds;
    var buf' := buf[t.1 := Overwrite(buf[t.1], t.0, nc, p)];
    assert Allocated(img, buf');
    forall nx, ny | 0 <= nx < h && 0 <= ny < w
      ensures ((nx, ny) in written + {t} <==> Before(Source(right, w, h, nx, ny), x + 1, y)) &&
              (Before(Source(right, w, h, nx, ny), x + 1, y) ==> Holds(img, right, buf', nx, ny))
    {
      if (nx, ny) != t && Before(Source(right, w, h, nx, ny), x, y) {
        CopyKeeps(img, right, buf, t.0, t.1, p, nx, ny);
      }
    }
  }

  /** Copying source pixel `(x, y)` to its destination makes that destination
      hold its source pixel. */
  lemma CopyTarget(img: Raster, right: bool, buf: seq<seq<int>>, x: int, y: int)
    requires Valid(img) && Allocated(img, buf) && InBounds(img, x, y)
    ensures var t := Target(right, img.width, img.height, x, y);
            0 <= t.0 < img.height && 0 <= t.1 < img.width &&
            Offset(t.0, img.nc) + img.nc <= |buf[t.1]| &&
            Holds(img, right, buf[t.1 := Overwrite(buf[t.1], t.0, img.nc, Pixel(img, x, y))], t.0, t.1)
  {
    var w, h, nc := img.width, img.height, img.nc;
    var t := Target(right, w, h, x, y);
    StepOrder(right, w, h, x, y);
    OffsetMono(t.0, h, nc);
    var p := Pixel(img, x, y);
    StoreBlock(buf, t.0, t.1, nc, p);
    hide Pixel, Block, Overwrite, Valid, Target;
    var buf' := buf[t.1 := Overwrite(buf[t.1], t.0, nc, p)];
    assert Block(buf'[t.1], t.0, nc) == p;
  }

  /** Storing a block at destination `(tx, ty)` leaves every other destination
      holding what it held. */
  lemma CopyKeeps(img: Raster, right: bool, buf: seq<seq<int>>, tx: int, ty: int, p: seq<int>, nx: int, ny: int)
    requires Valid(img) && Allocated(img, buf) && |p| == img.nc
    requires 0 <= tx < img.height && 0 <= ty < img.width && Offset(tx, img.nc) + img.nc <= Offset(img.height, img.nc)
    requires 0 <= nx < img.height && 0 <= ny < img.width && (nx, ny) != (tx, ty)
    requires Holds(img, right, buf, nx, ny)
    ensures Holds(img, right, buf[ty := Overwrite(buf[ty], tx, img.nc, p)], nx, ny)
  {
    StoreBlock(buf, tx, ty, img.nc, p);
  }

  /** Finishing source row `y` is starting row `y + 1`. */
  lemma RowCopied(img: Raster, right: bool, buf: seq<seq<int>>, written: set<(int, int)>, y: int)
    requires Valid(img) && Allocated(img, buf)
    requires Copied(img, right, buf, written, img.width, y)
    ensures Copied(img, right, buf, written, 0, y + 1)
  {
    hide Pixel, Block, Valid, Holds;
    forall nx, ny | 0 <= nx < img.height && 0 <= ny < img.width
      ensures Before(Source(right, img.width, img.height, nx, ny), img.width, y) <==>
              Before(Source(right, img.width, img.height, nx, ny), 0, y + 1)
    {
      assert 0 <= Source(right, img.width, img.height, nx, ny).0 < img.width;
    }
  }

  /** `rotate` as written. `scratch` holds whatever the `new_height` freshly allocated
      rows of `new_width * num_components` samples contain before the copy loops
      run; every one of its samples is overwritten. With an unknown direction the
      old raster is kept. */
  method RotateInto(img: Raster, direction: string, scratch: seq<seq<int>>) returns (o: Outcome)
    requires Valid(img)
    requires |scratch| == img.width
    requires forall ny | 0 <= ny < |scratch| :: |scratch[ny]| == Offset(img.height, img.nc)
    ensures o == Rotate(img, direction)
  {
    if direction != "right" && direction != "left" {
      return Outcome(img, UnknownDirection);
    }
    var right := direction == "right";
    var w, h, nc := img.width, img.height, img.nc;
    var buf := scratch;
    ghost var written: set<(int, int)> := {};
    for y := 0 to h
      invariant Allocated(img, buf) && Copied(img, right, buf, written, 0, y)
    {
      for x := 0 to w
        invariant Allocated(img, buf) && Copied(img, right, buf, written, x, y)
      {
        var t := Target(right, w, h, x, y);
        CopyStep(img, right, buf, written, x, y);
        assert t !in written;
        buf := buf[t.1 := Overwrite(buf[t.1], t.0, nc, Pixel(img, x, y))];
        written := written + {t};
      }
      RowCopied(img, right, buf, written, y);
    }
    FilledBuffer(img, right, buf, written);
    o := Outcome(Raster(h, w, nc, buf), Done);
  }

  /** A buffer in which every destination block holds its source pixel is the
      rotated raster. */
  lemma FilledBuffer(img: Raster, right: bool, buf: seq<seq<int>>, written: set<(int, int)>)
    requires Valid(img) && Allocated(img, buf)
    requires Copied(img, right, buf, written, 0, img.height)
    ensures Raster(img.height, img.width, img.nc, buf) == if right then RotateRight(img) else RotateLeft(img)
  {
    var w, h, nc := img.width, img.height, img.nc;
    var rot := if right then RotateRight(img) else RotateLeft(img);
    hide RotateRight, RotateLeft;
    forall ny | 0 <= ny < w
      ensures buf[ny] == rot.rows[ny]
    {
      forall nx | 0 <= nx < h
        ensures Offset(nx, nc) + nc <= Offset(h, nc) && Block(buf[ny], nx, nc) == Block(rot.rows[ny], nx, nc)
      {
        var (sx, sy) := Source(right, w, h, nx, ny);
        assert Before((sx, sy), 0, h);
        assert Holds(img, right, buf, nx, ny);
        assert Block(buf[ny], nx, nc) == Pixel(img, sx, sy);
        assert Pixel(rot, nx, ny) == Pixel(img, sx, sy);
      }
      RowExt(buf[ny], rot.rows[ny], h, nc);
    }
  }
}
