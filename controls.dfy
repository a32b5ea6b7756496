/**
 * The size controls: the linked width and height handlers, the keep-aspect
 * toggle, the maximum-size input and the displayed output size. The
 * linked-dimension rules are stated once, as transitions on `Dimensions`;
 * the controls component and the page both follow them.
 */
module Controls {
  import opened Wrappers
  import opened Builtins
  import opened Size

  /** The requested size and the keep-aspect switch. */
  datatype Dimensions = Dimensions(targetW: AutoNumber, targetH: AutoNumber, keepAspect: bool)

  /** Editing the width to `v`: stored as is; with keep-aspect, a loaded bitmap and a number, the height follows. */
  function AfterWidthChange(d: Dimensions, bitmap: Option<Bitmap>, v: AutoNumber): (r: Dimensions)
    ensures r.targetW == v && r.keepAspect == d.keepAspect
    ensures d.keepAspect && bitmap.Some? && v.Num? ==> r.targetH == Num(HeightForWidth(bitmap.value, v.n))
    ensures !(d.keepAspect && bitmap.Some? && v.Num?) ==> r.targetH == d.targetH
  {
    if d.keepAspect && bitmap.Some? && v.Num? then
      Dimensions(v, Num(HeightForWidth(bitmap.value, v.n)), d.keepAspect)
    else d.(targetW := v)
  }

  /** Editing the height to `v`: stored as is; with keep-aspect, a loaded bitmap and a number, the width follows. */
  function AfterHeightChange(d: Dimensions, bitmap: Option<Bitmap>, v: AutoNumber): (r: Dimensions)
    ensures r.targetH == v && r.keepAspect == d.keepAspect
    ensures d.keepAspect && bitmap.Some? && v.Num? ==> r.targetW == Num(WidthForHeight(bitmap.value, v.n))
    ensures !(d.keepAspect && bitmap.Some? && v.Num?) ==> r.targetW == d.targetW
  {
    if d.keepAspect && bitmap.Some? && v.Num? then
      Dimensions(Num(WidthForHeight(bitmap.value, v.n)), v, d.keepAspect)
    else d.(targetH := v)
  }

  /**
   * Setting keep-aspect to `next`. Turning it on with a bitmap re-links the
   * sides, the width taking priority: a numeric width recomputes the height,
   * otherwise a numeric height recomputes the width. Turning it off changes
   * no side.
   */
  function AfterToggle(d: Dimensions, bitmap: Option<Bitmap>, next: bool): (r: Dimensions)
    ensures r.keepAspect == next
    ensures !next || bitmap.None? ==> r.targetW == d.targetW && r.targetH == d.targetH
    ensures next && bitmap.Some? && d.targetW.Num? ==>
      r.targetW == d.targetW && r.targetH == Num(HeightForWidth(bitmap.value, d.targetW.n))
    ensures next && bitmap.Some? && d.targetW.Auto? && d.targetH.Num? ==>
      r.targetH == d.targetH && r.targetW == Num(WidthForHeight(bitmap.value, d.targetH.n))
    ensures d.targetW.Auto? && d.targetH.Auto? ==> r.targetW == Auto && r.targetH == Auto
  {
    var d' := d.(keepAspect := next);
    if next && bitmap.Some? then
      if d.targetW.Num? then d'.(targetH := Num(HeightForWidth(bitmap.value, d.targetW.n)))
      else if d.targetH.Num? then d'.(targetW := Num(WidthForHeight(bitmap.value, d.targetH.n)))
      else d'
    else d'
  }

  /** Repeating a width edit changes nothing more. */
  lemma WidthChangeIsIdempotent(d: Dimensions, bitmap: Option<Bitmap>, v: AutoNumber)
    ensures AfterWidthChange(AfterWidthChange(d, bitmap, v), bitmap, v) == AfterWidthChange(d, bitmap, v)
  {
  }

  /** Repeating a height edit changes nothing more. */
  lemma HeightChangeIsIdempotent(d: Dimensions, bitmap: Option<Bitmap>, v: AutoNumber)
    ensures AfterHeightChange(AfterHeightChange(d, bitmap, v), bitmap, v) == AfterHeightChange(d, bitmap, v)
  {
  }

  /**
   * A linked width edit of at least one pixel stores the height the size
   * resolver computes for that width alone.
   */
  lemma LinkedHeightMatchesResolver(d: Dimensions, b: Bitmap, v: int)
    requires d.keepAspect && v >= 1
    ensures AfterWidthChange(d, Some(b), Num(v)).targetH == Num(ComputeResolvedSize(Some(b), true, Num(v), Auto).h)
    ensures ComputeResolvedSize(Some(b), true, Num(v), Auto).w == v
  {
  }

  /**
   * A linked height edit of at least one pixel stores the width the size
   * resolver computes for that height alone.
   */
  lemma LinkedWidthMatchesResolver(d: Dimensions, b: Bitmap, v: int)
    requires d.keepAspect && v >= 1
    ensures AfterHeightChange(d, Some(b), Num(v)).targetW == Num(ComputeResolvedSize(Some(b), true, Auto, Num(v)).w)
    ensures ComputeResolvedSize(Some(b), true, Auto, Num(v)).h == v
  {
  }

  /** Toggling keep-aspect off and then on again ends where turning it on directly does. */
  lemma ToggleOffOnRelinks(d: Dimensions, bitmap: Option<Bitmap>)
    ensures AfterToggle(AfterToggle(d, bitmap, false), bitmap, true) == AfterToggle(d, bitmap, true)
  {
  }

  /**
   * A width or height input: empty means `auto`, otherwise `parseInt` of the
   * text; an input with no leading integer reads as NaN (`None`).
   */
  function SideFromInput(text: string): (r: Option<AutoNumber>)
    ensures text == [] ==> r == Some(Auto)
    ensures text != [] ==> r != Some(Auto)
    ensures text != [] ==> (r.Some? <==> ParseInt(text).Some?)
    ensures text != [] && r.Some? ==> r.value == Num(ParseInt(text).value)
  {
    if text == [] then Some(Auto)
    else
      match ParseInt(text)
      case None => None
      case Some(n) => Some(Num(n))
  }

  /** A whole number typed into a side input is requested as that number. */
  lemma SideOfNumeral(n: nat)
    ensures SideFromInput(Numeral(n)) == Some(Num(n))
  {
    ParseIntOfNumeral(n);
  }

  /**
   * `Math.max(1, parseInt(text || "1"))`: an empty input counts as 1, a number
   * is clamped to at least 1, and an input with no leading integer is NaN (`None`).
   */
  function MaxKBFromInput(text: string): (r: Option<int>)
    ensures text == [] ==> r == Some(1)
    ensures r.Some? ==> r.value >= 1
  {
    assert ParseInt("1") == Some(1) by {
      ParseIntOfNumeral(1);
      assert Numeral(1) == "1";
    }
    match ParseInt(if text == [] then "1" else text)
    case None => None
    case Some(n) => Some(Max(1, n))
  }

  /** A whole number of kilobytes typed in is stored as itself, or as 1 when it is 0. */
  lemma MaxKBOfNumeral(n: nat)
    ensures MaxKBFromInput(Numeral(n)) == Some(if n == 0 then 1 else n)
  {
    ParseIntOfNumeral(n);
  }

  /** The size shown under the inputs: the page's resolved target when given, else the resolver's own result. */
  function DisplayedSize(resolvedTarget: Option<Dims>, bitmap: Option<Bitmap>, d: Dimensions): (r: Dims)
    ensures resolvedTarget.Some? ==> r == resolvedTarget.value
    ensures resolvedTarget.None? ==> r == ComputeResolvedSize(bitmap, d.keepAspect, d.targetW, d.targetH)
  {
    match resolvedTarget
    case Some(t) => t
    case None => ComputeResolvedSize(bitmap, d.keepAspect, d.targetW, d.targetH)
  }

  /** The controls component over the state its setters write. */
  class Controls {
    var targetW: AutoNumber
    var targetH: AutoNumber
    var keepAspect: bool
    var maxKB: int
    const bitmap: Option<Bitmap>
    const resolvedTarget: Option<Dims>

    function Requested(): Dimensions
      reads this
    {
      Dimensions(targetW, targetH, keepAspect)
    }

    constructor (d: Dimensions, maxKB: int, bitmap: Option<Bitmap>, resolvedTarget: Option<Dims>)
      ensures Requested() == d && this.maxKB == maxKB
      ensures this.bitmap == bitmap && this.resolvedTarget == resolvedTarget
    {
      targetW := d.targetW;
      targetH := d.targetH;
      keepAspect := d.keepAspect;
      this.maxKB := maxKB;
      this.bitmap := bitmap;
      this.resolvedTarget := resolvedTarget;
    }

    /** `handleWidthChange`. */
    method HandleWidthChange(v: AutoNumber)
      modifies this
      ensures Requested() == AfterWidthChange(old(Requested()), bitmap, v)
      ensures maxKB == old(maxKB)
    {
      targetW := v;
      if keepAspect && bitmap.Some? && v.Num? {
        targetH := Num(HeightForWidth(bitmap.value, v.n));
      }
    }

    /** `handleHeightChange`. */
    method HandleHeightChange(v: AutoNumber)
      modifies this
      ensures Requested() == AfterHeightChange(old(Requested()), bitmap, v)
      ensures maxKB == old(maxKB)
    {
      targetH := v;
      if keepAspect && bitmap.Some? && v.Num? {
        targetW := Num(WidthForHeight(bitmap.value, v.n));
      }
    }

    /** The keep-aspect checkbox handler. */
    method ToggleKeepAspect(next: bool)
      modifies this
      ensures Requested() == AfterToggle(old(Requested()), bitmap, next)
      ensures maxKB == old(maxKB)
    {
      keepAspect := next;
      if next && bitmap.Some? {
        if targetW.Num? {
          targetH := Num(HeightForWidth(bitmap.value, targetW.n));
        } else if targetH.Num? {
          targetW := Num(WidthForHeight(bitmap.value, targetH.n));
        }
      }
    }

    /** The maximum-size input handler; an input read as NaN leaves the stored value alone. */
    method HandleMaxKBInput(text: string)
      modifies this
      ensures MaxKBFromInput(text).Some? ==> maxKB == MaxKBFromInput(text).value
      ensures MaxKBFromInput(text).None? ==> maxKB == old(maxKB)
      ensures maxKB >= 1 || maxKB == old(maxKB)
      ensures Requested() == old(Requested())
    {
      match MaxKBFromInput(text) {
        case Some(k) => maxKB := k;
        case None =>
      }
    }

    /** The output size the component displays. */
    function Displayed(): (r: Dims)
      reads this
      ensures resolvedTarget.Some? ==> r == resolvedTarget.value
      ensures resolvedTarget.None? ==> r == ComputeResolvedSize(bitmap, keepAspect, targetW, targetH)
    {
      DisplayedSize(resolvedTarget, bitmap, Requested())
    }
  }
}
