/**
 Laws relating the transforms of the point filter to one another: the
 self-inverse filters, the rotations undoing each other, and the pixel maps of
 the rotations being one-to-one and onto.
 */
module PointLaws {
  import opened Rasters
  import opened Point

  /** Negating twice gives back the original raster. */
  lemma NegateInvolutive(img: Raster)
    requires Valid(img)
    ensures Negate(Negate(img)) == img
  {
    hide Negate;
    var once := Negate(img);
    var twice := Negate(once);
    assert forall x, y, k | InBounds(img, x, y) && 0 <= k < img.nc :: Sample(twice, x, y, k) == Sample(img, x, y, k) by {
      forall x, y, k | InBounds(img, x, y) && 0 <= k < img.nc
        ensures Sample(twice, x, y, k) == Sample(img, x, y, k)
      {
        assert Sample(twice, x, y, k) == 255 - Sample(once, x, y, k);
      }
    }
    SampleExt(twice, img);
  }

  /** A level that keeps every byte (brightness with percent 0, contrast with
      multiplier 1) leaves the raster exactly as it was. */
  lemma AdjustIdentity(img: Raster, level: int -> int)
    requires Valid(img)
    requires forall v | IsByte(v) :: level(v) == v
    ensures Adjust(img, level) == img
  {
    hide Adjust;
    var r := Adjust(img, level);
    assert forall x, y, k | InBounds(img, x, y) && 0 <= k < img.nc :: Sample(r, x, y, k) == Sample(img, x, y, k) by {
      forall x, y, k | InBounds(img, x, y) && 0 <= k < img.nc
        ensures Sample(r, x, y, k) == Sample(img, x, y, k)
      {
        assert IsByte(Sample(img, x, y, k));
        assert Sample(r, x, y, k) == Clamp(0, 255, level(Sample(img, x, y, k)));
      }
    }
    SampleExt(r, img);
  }

  /** Swapping the same two pixels twice gives back the original raster. */
  lemma SwapTwice(img: Raster, x1: int, y1: int, x2: int, y2: int)
    requires Valid(img) && InBounds(img, x1, y1) && InBounds(img, x2, y2)
    ensures SwapPixels(SwapPixels(img, x1, y1, x2, y2), x1, y1, x2, y2) == img
  {
    hide SwapPixels;
    var once := SwapPixels(img, x1, y1, x2, y2);
    var twice := SwapPixels(once, x1, y1, x2, y2);
    assert forall x, y | InBounds(img, x, y) :: Pixel(twice, x, y) == Pixel(img, x, y) by {
      forall x, y | InBounds(img, x, y)
        ensures Pixel(twice, x, y) == Pixel(img, x, y)
      {
        if (x != x1 || y != y1) && (x != x2 || y != y2) {
          assert Pixel(twice, x, y) == Pixel(once, x, y);
        }
      }
    }
    PixelExt(twice, img);
  }

  /** Which of the two pixels is named first does not matter. */
  lemma SwapSymmetric(img: Raster, x1: int, y1: int, x2: int, y2: int)
    requires Valid(img) && InBounds(img, x1, y1) && InBounds(img, x2, y2)
    ensures SwapPixels(img, x1, y1, x2, y2) == SwapPixels(img, x2, y2, x1, y1)
  {
    hide SwapPixels;
    var a := SwapPixels(img, x1, y1, x2, y2);
    var b := SwapPixels(img, x2, y2, x1, y1);
    assert forall x, y | InBounds(img, x, y) :: Pixel(a, x, y) == Pixel(b, x, y) by {
      forall x, y | InBounds(img, x, y)
        ensures Pixel(a, x, y) == Pixel(b, x, y)
      {
        if (x != x1 || y != y1) && (x != x2 || y != y2) {
          assert Pixel(a, x, y) == Pixel(img, x, y);
        }
      }
    }
    PixelExt(a, b);
  }

  /** Mirroring every row twice gives back the original raster. */
  lemma MirrorLeftRightInvolutive(img: Raster)
    requires Valid(img)
    ensures MirrorLeftRight(MirrorLeftRight(img)) == img
  {
    hide MirrorLeftRight;
    var once := MirrorLeftRight(img);
    var twice := MirrorLeftRight(once);
    assert forall x, y | InBounds(img, x, y) :: Pixel(twice, x, y) == Pixel(img, x, y) by {
      forall x, y | InBounds(img, x, y)
        ensures Pixel(twice, x, y) == Pixel(img, x, y)
      {
        var x' := img.width - 1 - x;
        assert Pixel(once, x', y) == Pixel(img, x, y);
        assert Pixel(twice, img.width - 1 - x', y) == Pixel(once, x', y);
      }
    }
    PixelExt(twice, img);
  }

  /** Reversing the row order twice gives back the original raster. */
  lemma MirrorTopBottomInvolutive(img: Raster)
    requires Valid(img)
    ensures MirrorTopBottom(MirrorTopBottom(img)) == img
  {
    hide MirrorTopBottom;
    var once := MirrorTopBottom(img);
    var twice := MirrorTopBottom(once);
    assert forall x, y | InBounds(img, x, y) :: Pixel(twice, x, y) == Pixel(img, x, y) by {
      forall x, y | InBounds(img, x, y)
        ensures Pixel(twice, x, y) == Pixel(img, x, y)
      {
        var y' := img.height - 1 - y;
        assert Pixel(once, x, y') == Pixel(img, x, y);
        assert Pixel(twice, x, img.height - 1 - y') == Pixel(once, x, y');
      }
    }
    PixelExt(twice, img);
  }

  /** Flipping twice about the same axis gives back the original raster, whatever
      the axis. */
  lemma FlipInvolutive(img: Raster, axis: string)
    requires Valid(img)
    ensures Flip(Flip(img, axis), axis) == img
  {
    if axis == "y" {
      MirrorLeftRightInvolutive(img);
    } else if axis == "x" {
      MirrorTopBottomInvolutive(img);
    }
  }

  /** With an odd width `2 * m + 1` the middle column `m` is its own mirror image,
      so mirroring each row leaves it where it was. */
  lemma MirrorLeftRightKeepsMiddle(img: Raster, m: int)
    requires Valid(img) && img.width == 2 * m + 1
    ensures forall y | 0 <= y < img.height :: Pixel(MirrorLeftRight(img), m, y) == Pixel(img, m, y)
  {
    hide MirrorLeftRight;
    var f := MirrorLeftRight(img);
    assert forall y | 0 <= y < img.height :: Pixel(f, m, y) == Pixel(img, m, y) by {
      forall y | 0 <= y < img.height
        ensures Pixel(f, m, y) == Pixel(img, m, y)
      {
        assert Pixel(f, img.width - 1 - m, y) == Pixel(img, m, y);
      }
    }
  }

  /** With an odd height `2 * m + 1` the middle row `m` is its own mirror image,
      so reversing the row order leaves it where it was. */
  lemma MirrorTopBottomKeepsMiddle(img: Raster, m: int)
    requires Valid(img) && img.height == 2 * m + 1
    ensures forall x | 0 <= x < img.width :: Pixel(MirrorTopBottom(img), x, m) == Pixel(img, x, m)
  {
    hide MirrorTopBottom;
    var f := MirrorTopBottom(img);
    assert forall x | 0 <= x < img.width :: Pixel(f, x, m) == Pixel(img, x, m) by {
      forall x | 0 <= x < img.width
        ensures Pixel(f, x, m) == Pixel(img, x, m)
      {
        assert Pixel(f, x, img.height - 1 - m) == Pixel(img, x, m);
      }
    }
  }

  /** A right turn followed by a left turn gives back the original raster. */
  lemma RotateRightThenLeft(img: Raster)
    requires Valid(img)
    ensures RotateLeft(RotateRight(img)) == img
  {
    hide RotateRight, RotateLeft;
    var r := RotateRight(img);
    var back := RotateLeft(r);
    assert forall x, y | InBounds(img, x, y) :: Pixel(back, x, y) == Pixel(img, x, y) by {
      forall x, y | InBounds(img, x, y)
        ensures Pixel(back, x, y) == Pixel(img, x, y)
      {
        var nx := img.height - 1 - y;
        assert Pixel(r, nx, x) == Pixel(img, x, y);
        assert Pixel(back, x, r.width - 1 - nx) == Pixel(r, nx, x);
      }
    }
    PixelExt(back, img);
  }

  /** A left turn followed by a right turn gives back the original raster. */
  lemma RotateLeftThenRight(img: Raster)
    requires Valid(img)
    ensures RotateRight(RotateLeft(img)) == img
  {
    hide RotateRight, RotateLeft;
    var l := RotateLeft(img);
    var back := RotateRight(l);
    assert forall x, y | InBounds(img, x, y) :: Pixel(back, x, y) == Pixel(img, x, y) by {
      forall x, y | InBounds(img, x, y)
        ensures Pixel(back, x, y) == Pixel(img, x, y)
      {
        var ny := img.width - 1 - x;
        assert Pixel(l, y, ny) == Pixel(img, x, y);
        assert Pixel(back, l.height - 1 - ny, y) == Pixel(l, y, ny);
      }
    }
    PixelExt(back, img);
  }

  /** The half turn: pixel `(x, y)` moves to `(width - 1 - x, height - 1 - y)`. */
  function HalfTurn(img: Raster): (r: Raster)
    requires Valid(img)
    ensures Valid(r) && SameShape(r, img)
    ensures forall x, y | InBounds(img, x, y) :: Pixel(r, img.width - 1 - x, img.height - 1 - y) == Pixel(img, x, y)
  {
    Remap(img, img.width, img.height, (x, y) => (img.width - 1 - x, img.height - 1 - y))
  }

  /** Two half turns give back the original raster. */
  lemma HalfTurnInvolutive(img: Raster)
    requires Valid(img)
    ensures HalfTurn(HalfTurn(img)) == img
  {
    hide HalfTurn;
    var once := HalfTurn(img);
    var twice := HalfTurn(once);
    assert forall x, y | InBounds(img, x, y) :: Pixel(twice, x, y) == Pixel(img, x, y) by {
      forall x, y | InBounds(img, x, y)
        ensures Pixel(twice, x, y) == Pixel(img, x, y)
      {
        var x', y' := img.width - 1 - x, img.height - 1 - y;
        assert Pixel(once, x', y') == Pixel(img, x, y);
        assert Pixel(twice, img.width - 1 - x', img.height - 1 - y') == Pixel(once, x', y');
      }
    }
    PixelExt(twice, img);
  }

  /** Two right turns make the half turn. */
  lemma RightHalfTurn(img: Raster)
    requires Valid(img)
    ensures RotateRight(RotateRight(img)) == HalfTurn(img)
  {
    hide RotateRight, HalfTurn, Pixel;
    var r := RotateRight(img);
    var rr := RotateRight(r);
    var ht := HalfTurn(img);
    assert forall x', y' | InBounds(img, x', y') :: Pixel(rr, x', y') == Pixel(ht, x', y') by {
      forall x', y' | InBounds(img, x', y')
        ensures Pixel(rr, x', y') == Pixel(ht, x', y')
      {
        var x, y := img.width - 1 - x', img.height - 1 - y';
        var nx := img.height - 1 - y;
        assert Pixel(r, nx, x) == Pixel(img, x, y);
        assert Pixel(rr, r.height - 1 - x, nx) == Pixel(r, nx, x);
        assert Pixel(ht, img.width - 1 - x, img.height - 1 - y) == Pixel(img, x, y);
      }
    }
    PixelExt(rr, ht);
  }

  /** Two left turns make the same half turn. */
  lemma LeftHalfTurn(img: Raster)
    requires Valid(img)
    ensures RotateLeft(RotateLeft(img)) == HalfTurn(img)
  {
    hide RotateLeft, HalfTurn, Pixel;
    var l := RotateLeft(img);
    var ll := RotateLeft(l);
    var ht := HalfTurn(img);
    assert forall x', y' | InBounds(img, x', y') :: Pixel(ll, x', y') == Pixel(ht, x', y') by {
      forall x', y' | InBounds(img, x', y')
        ensures Pixel(ll, x', y') == Pixel(ht, x', y')
      {
        var x, y := img.width - 1 - x', img.height - 1 - y';
        var ny := img.width - 1 - x;
        assert Pixel(l, y, ny) == Pixel(img, x, y);
        assert Pixel(ll, ny, l.width - 1 - y) == Pixel(l, y, ny);
        assert Pixel(ht, img.width - 1 - x, img.height - 1 - y) == Pixel(img, x, y);
      }
    }
    PixelExt(ll, ht);
  }

  /** Four right turns give back the original raster, dimensions and samples. */
  lemma RotateRightFourTimes(img: Raster)
    requires Valid(img)
    ensures RotateRight(RotateRight(RotateRight(RotateRight(img)))) == img
  {
    var half := RotateRight(RotateRight(img));
    RightHalfTurn(img);
    RightHalfTurn(half);
    HalfTurnInvolutive(img);
  }

  /** Four left turns give back the original raster, dimensions and samples. */
  lemma RotateLeftFourTimes(img: Raster)
    requires Valid(img)
    ensures RotateLeft(RotateLeft(RotateLeft(RotateLeft(img)))) == img
  {
    var half := RotateLeft(RotateLeft(img));
    LeftHalfTurn(img);
    LeftHalfTurn(half);
    HalfTurnInvolutive(img);
  }

  /** The right turn's pixel map and `RightSource` are inverse bijections between the
      `w` by `h` source pixels and the `h` by `w` destination pixels, so every
      destination pixel is written by exactly one source pixel. */
  lemma RightTargetBijective(w: nat, h: nat)
    ensures forall x, y | 0 <= x < w && 0 <= y < h ::
              0 <= RightTarget(h, x, y).0 < h && 0 <= RightTarget(h, x, y).1 < w &&
              RightSource(h, RightTarget(h, x, y).0, RightTarget(h, x, y).1) == (x, y)
    ensures forall nx, ny | 0 <= nx < h && 0 <= ny < w ::
              0 <= RightSource(h, nx, ny).0 < w && 0 <= RightSource(h, nx, ny).1 < h &&
              RightTarget(h, RightSource(h, nx, ny).0, RightSource(h, nx, ny).1) == (nx, ny)
  {
    forall x, y | 0 <= x < w && 0 <= y < h
      ensures RightSource(h, RightTarget(h, x, y).0, RightTarget(h, x, y).1) == (x, y)
    {
      var t := RightTarget(h, x, y);
      assert RightSource(h, t.0, t.1).0 == x && RightSource(h, t.0, t.1).1 == y;
    }
    forall nx, ny | 0 <= nx < h && 0 <= ny < w
      ensures RightTarget(h, RightSource(h, nx, ny).0, RightSource(h, nx, ny).1) == (nx, ny)
    {
      var t := RightSource(h, nx, ny);
      assert RightTarget(h, t.0, t.1).0 == nx && RightTarget(h, t.0, t.1).1 == ny;
    }
  }

  /** The left turn's pixel map and `LeftSource` are likewise inverse bijections. */
  lemma LeftTargetBijective(w: nat, h: nat)
    ensures forall x, y | 0 <= x < w && 0 <= y < h ::
              0 <= LeftTarget(w, x, y).0 < h && 0 <= LeftTarget(w, x, y).1 < w &&
              LeftSource(w, LeftTarget(w, x, y).0, LeftTarget(w, x, y).1) == (x, y)
    ensures forall nx, ny | 0 <= nx < h && 0 <= ny < w ::
              0 <= LeftSource(w, nx, ny).0 < w && 0 <= LeftSource(w, nx, ny).1 < h &&
              LeftTarget(w, LeftSource(w, nx, ny).0, LeftSource(w, nx, ny).1) == (nx, ny)
  {
    forall x, y | 0 <= x < w && 0 <= y < h
      ensures LeftSource(w, LeftTarget(w, x, y).0, LeftTarget(w, x, y).1) == (x, y)
    {
      var t := LeftTarget(w, x, y);
      assert LeftSource(w, t.0, t.1).0 == x && LeftSource(w, t.0, t.1).1 == y;
    }
    forall nx, ny | 0 <= nx < h && 0 <= ny < w
      ensures LeftTarget(w, LeftSource(w, nx, ny).0, LeftSource(w, nx, ny).1) == (nx, ny)
    {
      var t := LeftSource(w, nx, ny);
      assert LeftTarget(w, t.0, t.1).0 == nx && LeftTarget(w, t.0, t.1).1 == ny;
    }
  }
}
