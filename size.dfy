/**
 * The size resolver: from the decoded bitmap's dimensions, the keep-aspect
 * switch and the two requested sides (each a number or "auto") to the pixel
 * size the image is redrawn at before encoding.
 */
module Size {
  import opened Wrappers
  import opened Builtins

  /** A requested side: `number | "auto"`. */
  datatype AutoNumber = Auto | Num(n: int)

  type Pixels = n: int | n >= 1 witness 1

  /** The decoded source bitmap; only its dimensions matter here. */
  datatype Bitmap = Bitmap(width: Pixels, height: Pixels)

  datatype Dims = Dims(w: int, h: int)

  /** `width / height` of the source. */
  function Aspect(b: Bitmap): (a: real)
    ensures a > 0.0
    ensures a * b.height as real == b.width as real
  {
    b.width as real / b.height as real
  }

  /** The width that goes with height `h` under the source's aspect ratio: rounded, at least 1. */
  function WidthForHeight(b: Bitmap, h: int): (w: int)
    ensures w >= 1
    ensures w == 1 || -0.5 < w as real - h as real * Aspect(b) <= 0.5
    ensures w == 1 ==> h as real * Aspect(b) < 1.5
  {
    Max(1, Round(h as real * Aspect(b)))
  }

  /** The height that goes with width `w` under the source's aspect ratio: rounded, at least 1. */
  function HeightForWidth(b: Bitmap, w: int): (h: int)
    ensures h >= 1
    ensures h == 1 || -0.5 < h as real - w as real / Aspect(b) <= 0.5
    ensures h == 1 ==> w as real / Aspect(b) < 1.5
  {
    Max(1, Round(w as real / Aspect(b)))
  }

  /**
   * A side of at least 1 that is either 1 (with `x` below 1.5) or the
   * integer nearest `x` is exactly `max(1, round(x))`: the contracts of
   * `WidthForHeight` and `HeightForWidth` pin their values.
   */
  lemma ClampedRoundIsUnique(x: real, n: int)
    requires n >= 1
    requires n == 1 || -0.5 < n as real - x <= 0.5
    requires n == 1 ==> x < 1.5
    ensures n == Max(1, Round(x))
  {
    if n == 1 {
      assert Round(x) as real <= x + 0.5 < 2.0;
    } else {
      assert x - 0.5 < n as real <= x + 0.5;
      assert x - 0.5 < Round(x) as real <= x + 0.5;
    }
  }

  /** Any width meeting `WidthForHeight`'s contract is the one it computes. */
  lemma WidthForHeightIsDetermined(b: Bitmap, h: int, w: int)
    requires w >= 1
    requires w == 1 || -0.5 < w as real - h as real * Aspect(b) <= 0.5
    requires w == 1 ==> h as real * Aspect(b) < 1.5
    ensures w == WidthForHeight(b, h)
  {
    ClampedRoundIsUnique(h as real * Aspect(b), w);
  }

  /** Any height meeting `HeightForWidth`'s contract is the one it computes. */
  lemma HeightForWidthIsDetermined(b: Bitmap, w: int, h: int)
    requires h >= 1
    requires h == 1 || -0.5 < h as real - w as real / Aspect(b) <= 0.5
    requires h == 1 ==> w as real / Aspect(b) < 1.5
    ensures h == HeightForWidth(b, w)
  {
    ClampedRoundIsUnique(w as real / Aspect(b), h);
  }

  /** `computeResolvedSize`. */
  function ComputeResolvedSize(bitmap: Option<Bitmap>, keepAspect: bool, targetW: AutoNumber, targetH: AutoNumber): (r: Dims)
    ensures bitmap.None? ==> r == Dims(0, 0)
    ensures bitmap.Some? ==> r.w >= 0 && r.h >= 0
  {
    match bitmap
    case None => Dims(0, 0)
    case Some(b) =>
      if keepAspect then
        var aspect := Aspect(b);
        if targetW.Auto? && targetH.Auto? then
          Dims(b.width, b.height)
        else if targetW.Auto? then
          var h := Max(1, targetH.n);
          Dims(WidthForHeight(b, h), h)
        else if targetH.Auto? then
          var w := Max(1, targetW.n);
          Dims(w, HeightForWidth(b, w))
        else
          // both given: contain-fit into the box
          var boxW := Max(1, targetW.n);
          var boxH := Max(1, targetH.n);
          if boxW as real / boxH as real > aspect then
            Dims(Round(boxH as real * aspect), boxH)
          else
            Dims(boxW, Round(boxW as real / aspect))
      else
        Dims(Max(1, if targetW.Auto? then b.width else targetW.n),
             Max(1, if targetH.Auto? then b.height else targetH.n))
  }

  /** Keep-aspect with nothing requested: the source size, unchanged. */
  lemma BothAutoKeepsSource(b: Bitmap)
    ensures ComputeResolvedSize(Some(b), true, Auto, Auto) == Dims(b.width, b.height)
  {
  }

  /** Keep-aspect with only a height: that height (at least 1) and the nearest width under the aspect ratio. */
  lemma HeightOnlyFollowsAspect(b: Bitmap, th: int)
    ensures var r := ComputeResolvedSize(Some(b), true, Auto, Num(th));
      && r.h == Max(1, th) && r.w >= 1
      && (r.w == 1 || -0.5 < r.w as real - r.h as real * Aspect(b) <= 0.5)
      && (r.w == 1 ==> r.h as real * Aspect(b) < 1.5)
  {
  }

  /** Keep-aspect with only a width: that width (at least 1) and the nearest height under the aspect ratio. */
  lemma WidthOnlyFollowsAspect(b: Bitmap, tw: int)
    ensures var r := ComputeResolvedSize(Some(b), true, Num(tw), Auto);
      && r.w == Max(1, tw) && r.h >= 1
      && (r.h == 1 || -0.5 < r.h as real - r.w as real / Aspect(b) <= 0.5)
      && (r.h == 1 ==> r.w as real / Aspect(b) < 1.5)
  {
  }

  /** A box wider than the source's shape: the source scaled to the box height is narrower than the box. */
  lemma NarrowerThanBox(bw: real, bh: real, a: real)
    requires bh > 0.0 && a > 0.0 && bw / bh > a
    ensures bh * a < bw
  {
    assert bh * (bw / bh) == bw;
  }

  /** A box no wider than the source's shape: the source scaled to the box width is no taller than the box. */
  lemma NoTallerThanBox(bw: real, bh: real, a: real)
    requires bh > 0.0 && a > 0.0 && bw / bh <= a
    ensures bw / a <= bh
  {
    assert bh * (bw / bh) == bw;
    assert bw <= bh * a;
    assert (bw / a) * a == bw;
  }

  /**
   * Keep-aspect with both sides given: the result fits the box (each side
   * clamped to at least 1), touches it on one side, and the other side is the
   * nearest integer under the aspect ratio.
   */
  lemma ContainFitStaysInBox(b: Bitmap, tw: int, th: int)
    ensures var r := ComputeResolvedSize(Some(b), true, Num(tw), Num(th));
      var boxW := Max(1, tw);
      var boxH := Max(1, th);
      && 0 <= r.w <= boxW && 0 <= r.h <= boxH
      && ((r.h == boxH && -0.5 < r.w as real - r.h as real * Aspect(b) <= 0.5)
          || (r.w == boxW && -0.5 < r.h as real - r.w as real / Aspect(b) <= 0.5))
  {
    var boxW, boxH := Max(1, tw), Max(1, th);
    var a := Aspect(b);
    var bw, bh := boxW as real, boxH as real;
    if bw / bh > a {
      NarrowerThanBox(bw, bh, a);
    } else {
      NoTallerThanBox(bw, bh, a);
    }
  }

  /** Both sides requested at the source's own size resolve to that size, with or without keep-aspect. */
  lemma OwnSizeResolvesToItself(b: Bitmap, keepAspect: bool)
    ensures ComputeResolvedSize(Some(b), keepAspect, Num(b.width), Num(b.height)) == Dims(b.width, b.height)
  {
    if keepAspect {
      var a := Aspect(b);
      var bw, bh := b.width as real, b.height as real;
      assert bw / bh == a;
      assert bw / a == bh by {
        assert a * bh == bw;
      }
      RoundOfInteger(b.height);
    }
  }

  /**
   * The contain-fit branch is not clamped to 1: a 1×1000 source fitted into a
   * 1×1 box resolves to a width of 0.
   */
  lemma ContainFitCanCollapse()
    ensures ComputeResolvedSize(Some(Bitmap(1, 1000)), true, Num(1), Num(1)) == Dims(0, 1)
  {
    var b := Bitmap(1, 1000);
    assert Aspect(b) == 1.0 / 1000.0;
    assert Round(1.0 / 1000.0) == 0;
  }

  /** Every branch except contain-fit yields at least one pixel on each side. */
  lemma AtLeastOnePixelOutsideContainFit(b: Bitmap, keepAspect: bool, tw: AutoNumber, th: AutoNumber)
    requires !(keepAspect && tw.Num? && th.Num?)
    ensures var r := ComputeResolvedSize(Some(b), keepAspect, tw, th); r.w >= 1 && r.h >= 1
  {
  }

  /** Without keep-aspect each side is its own request (or the source's side), at least 1, whatever the other side asks. */
  lemma FreeSidesAreIndependent(b: Bitmap, tw: AutoNumber, th: AutoNumber, tw': AutoNumber, th': AutoNumber)
    ensures ComputeResolvedSize(Some(b), false, tw, th).w == ComputeResolvedSize(Some(b), false, tw, th').w
    ensures ComputeResolvedSize(Some(b), false, tw, th).h == ComputeResolvedSize(Some(b), false, tw', th).h
    ensures ComputeResolvedSize(Some(b), false, tw, th).w == Max(1, if tw.Auto? then b.width else tw.n)
    ensures ComputeResolvedSize(Some(b), false, tw, th).h == Max(1, if th.Auto? then b.height else th.n)
  {
  }

  /**
   * A 4000×3000 source with only the width 800 requested resolves to 800×600.
   */
  lemma LandscapeToEightHundred()
    ensures ComputeResolvedSize(Some(Bitmap(4000, 3000)), true, Num(800), Auto) == Dims(800, 600)
  {
    var b := Bitmap(4000, 3000);
    assert Aspect(b) == 4.0 / 3.0;
    assert 800.0 / (4.0 / 3.0) == 600.0;
    RoundOfInteger(600);
  }
}
