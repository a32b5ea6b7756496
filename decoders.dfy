/**
 * The decoder registry and the SVG intrinsic-size rule. Decoders are listed
 * in registration order; a file goes to the first decoder that lists its
 * lower-cased MIME type, or to the raster decoder. The decode bodies
 * (canvas, DOM parsing) are foreign: a decoder is identified here by its
 * name and MIME list.
 */
module Decoders {
  import opened Wrappers
  import opened Builtins

  datatype Decoder = Decoder(name: string, mimes: seq<string>)

  const SvgMime: string := "image/svg+xml"

  /** The browser-native raster decoder, also the fallback. */
  const RasterDecoder: Decoder :=
    Decoder("raster", ["image/png", "image/jpeg", "image/webp", "image/avif", "image/gif", "image/bmp"])

  /** The SVG decoder: sizes the drawing, then rasterises it. */
  const SvgDecoder: Decoder := Decoder("svg", [SvgMime])

  /** The first decoder in `decoders` that lists `mime`, if any. */
  function FirstListing(decoders: seq<Decoder>, mime: string): (r: Option<nat>)
    ensures r.Some? ==> r.value < |decoders| && mime in decoders[r.value].mimes
    ensures r.Some? ==> forall j :: 0 <= j < r.value ==> mime !in decoders[j].mimes
    ensures r.None? <==> forall j :: 0 <= j < |decoders| ==> mime !in decoders[j].mimes
  {
    if decoders == [] then None
    else if mime in decoders[0].mimes then Some(0)
    else
      match FirstListing(decoders[1..], mime)
      case None => None
      case Some(i) => Some(i + 1)
  }

  /**
   * `decodeFile`'s choice: the first registered decoder listing the
   * lower-cased type, or the raster decoder when none does.
   */
  function Dispatch(decoders: seq<Decoder>, fileType: string): (d: Decoder)
    ensures var mime := ToLower(fileType);
      forall i :: (0 <= i < |decoders| && mime in decoders[i].mimes &&
        (forall j :: 0 <= j < i ==> mime !in decoders[j].mimes)) ==> d == decoders[i]
    ensures var mime := ToLower(fileType);
      (forall i :: 0 <= i < |decoders| ==> mime !in decoders[i].mimes) ==> d == RasterDecoder
    ensures d in decoders || d == RasterDecoder
  {
    match FirstListing(decoders, ToLower(fileType))
    case Some(i) => decoders[i]
    case None => RasterDecoder
  }

  /** The module-level registry. */
  class Registry {
    var decoders: seq<Decoder>

    /** The built-ins are registered on load: SVG first, then raster. */
    constructor ()
      ensures decoders == [SvgDecoder, RasterDecoder]
    {
      decoders := [];
      new;
      RegisterDecoder(SvgDecoder);
      RegisterDecoder(RasterDecoder);
    }

    /** `registerDecoder`: append at the end, earlier entries untouched. */
    method RegisterDecoder(d: Decoder)
      modifies this
      ensures decoders == old(decoders) + [d]
    {
      decoders := decoders + [d];
    }

    /** The decoder `decodeFile` hands the file to. */
    function DecodeFile(fileType: string): (d: Decoder)
      reads this
      ensures var mime := ToLower(fileType);
        forall i :: (0 <= i < |decoders| && mime in decoders[i].mimes &&
          (forall j :: 0 <= j < i ==> mime !in decoders[j].mimes)) ==> d == decoders[i]
      ensures (forall i :: 0 <= i < |decoders| ==> ToLower(fileType) !in decoders[i].mimes) ==> d == RasterDecoder
      ensures d in decoders || d == RasterDecoder
    {
      Dispatch(decoders, fileType)
    }
  }

  const BuiltIn: seq<Decoder> := [SvgDecoder, RasterDecoder]

  /** With the built-ins, SVG goes to the SVG decoder and the six raster types to the raster decoder. */
  lemma BuiltinDispatch(fileType: string)
    ensures ToLower(fileType) == SvgMime ==> Dispatch(BuiltIn, fileType) == SvgDecoder
    ensures ToLower(fileType) in RasterDecoder.mimes ==> Dispatch(BuiltIn, fileType) == RasterDecoder
    ensures ToLower(fileType) != SvgMime ==> Dispatch(BuiltIn, fileType) == RasterDecoder
  {
    assert SvgMime in BuiltIn[0].mimes;
    if ToLower(fileType) != SvgMime {
      assert ToLower(fileType) !in BuiltIn[0].mimes;
    }
  }

  /** The file type is lower-cased first: its case never changes the choice. */
  lemma DispatchIgnoresCase(decoders: seq<Decoder>, fileType: string)
    ensures Dispatch(decoders, fileType) == Dispatch(decoders, ToLower(fileType))
  {
    ToLowerIdempotent(fileType);
  }

  /** An upper-case SVG type still reaches the SVG decoder. */
  lemma UpperCaseSvgDispatch()
    ensures Dispatch(BuiltIn, "IMAGE/SVG+XML") == SvgDecoder
  {
    var t := "IMAGE/SVG+XML";
    assert forall i :: 0 <= i < |t| ==> ToLower(t)[i] == SvgMime[i];
    assert ToLower(t) == SvgMime;
    BuiltinDispatch(t);
  }

  /** A file without a type falls back to the raster decoder. */
  lemma EmptyTypeFallsBack(decoders: seq<Decoder>)
    requires forall i :: 0 <= i < |decoders| ==> "" !in decoders[i].mimes
    ensures Dispatch(decoders, "") == RasterDecoder
  {
    assert ToLower("") == "";
  }

  /** A decoder registered later never takes a type an earlier one already lists. */
  lemma LaterRegistrationsDoNotShadow(decoders: seq<Decoder>, d: Decoder, fileType: string)
    requires exists i :: 0 <= i < |decoders| && ToLower(fileType) in decoders[i].mimes
    ensures Dispatch(decoders + [d], fileType) == Dispatch(decoders, fileType)
  {
    var mime := ToLower(fileType);
    var i := FirstListing(decoders, mime).value;
    assert (decoders + [d])[i] == decoders[i];
    assert forall j :: 0 <= j < i ==> (decoders + [d])[j] == decoders[j];
  }

  /** A new decoder for an unclaimed type takes that type. */
  lemma NewDecoderTakesUnclaimedType(decoders: seq<Decoder>, d: Decoder, fileType: string)
    requires ToLower(fileType) in d.mimes
    requires forall i :: 0 <= i < |decoders| ==> ToLower(fileType) !in decoders[i].mimes
    ensures Dispatch(decoders + [d], fileType) == d
  {
    var all := decoders + [d];
    assert all[|decoders|] == d;
    assert forall j :: 0 <= j < |decoders| ==> all[j] == decoders[j];
  }

  // ----- SVG intrinsic size -----

  /**
   * The root element's `width`, `height` and `viewBox` attributes as read
   * from the parsed document; `None` for an attribute that is absent.
   */
  datatype SvgAttributes = SvgAttributes(width: Option<string>, height: Option<string>, viewBox: Option<string>)

  datatype SvgSize = SvgSize(width: int, height: int)

  /** The fallback side when nothing else resolves it. */
  const FallbackSide: int := 512

  predicate IsNumChar(c: char)
  {
    IsDigit(c) || c == '.'
  }

  /** Index of the first character of `[0-9.]` at or after `from`, or `|s|`. */
  function NextNumChar(s: string, from: nat): (i: nat)
    requires from <= |s|
    ensures from <= i <= |s|
    ensures i < |s| ==> IsNumChar(s[i])
    ensures forall k :: from <= k < i ==> !IsNumChar(s[k])
    decreases |s| - from
  {
    if from == |s| || IsNumChar(s[from]) then from else NextNumChar(s, from + 1)
  }

  /** Index just past the run of `[0-9.]` starting at `from`. */
  function NumRunEnd(s: string, from: nat): (j: nat)
    requires from <= |s|
    ensures from <= j <= |s|
    ensures j < |s| ==> !IsNumChar(s[j])
    ensures forall k :: from <= k < j ==> IsNumChar(s[k])
    decreases |s| - from
  {
    if from == |s| || !IsNumChar(s[from]) then from else NumRunEnd(s, from + 1)
  }

  /** The first match of `/([0-9.]+)/`: the leftmost maximal run of digits and dots. */
  function NumericRun(s: string): (r: Option<string>)
    ensures r.None? <==> forall k :: 0 <= k < |s| ==> !IsNumChar(s[k])
    ensures r.Some? ==> |r.value| >= 1 && forall k :: 0 <= k < |r.value| ==> IsNumChar(r.value[k])
    ensures r.Some? ==> exists i :: IsLeftmostMaximalRun(s, i, r.value)
  {
    var i := NextNumChar(s, 0);
    if i == |s| then None
    else
      var run := s[i..NumRunEnd(s, i)];
      assert IsLeftmostMaximalRun(s, i, run);
      Some(run)
  }

  /**
   * `run` sits at index `i` of `s`, no `[0-9.]` character comes before it,
   * and the character after it (if any) is not one.
   */
  predicate IsLeftmostMaximalRun(s: string, i: nat, run: string)
  {
    && i + |run| <= |s| && s[i..i + |run|] == run
    && (forall k :: 0 <= k < i ==> !IsNumChar(s[k]))
    && (i + |run| == |s| || !IsNumChar(s[i + |run|]))
  }

  /**
   * `toPx`: a missing or empty value, a value without a digit run, or a
   * run that does not read as a positive number give `None`; otherwise the
   * number rounded (0 for a positive value under one half).
   */
  function ToPx(v: Option<string>): (r: Option<int>)
    ensures v.None? || v == Some([]) ==> r.None?
    ensures r.Some? ==> r.value >= 0
  {
    match v
    case None => None
    case Some(text) =>
      if text == [] then None
      else
        match NumericRun(Trim(text))
        case None => None
        case Some(run) =>
          match ParseFloat(run)
          case None => None
          case Some(n) => if n <= 0.0 then None else Some(Round(n))
  }

  /** JavaScript truthiness of `number | null` where NaN is absent: present and not zero. */
  predicate Truthy(x: Option<int>)
  {
    x.Some? && x.value != 0
  }

  /** A `viewBox` side: `max(1, round(p))`, or NaN (`None`) when the part does not parse. */
  function ViewBoxSide(p: Option<real>): (r: Option<int>)
    ensures p.Some? <==> r.Some?
    ensures r.Some? ==> r.value >= 1
    ensures r.Some? && r.value > 1 ==> -0.5 < r.value as real - p.value <= 0.5
    ensures r.Some? && r.value == 1 ==> p.value < 1.5
  {
    match p
    case None => None
    case Some(x) => Some(Max(1, Round(x)))
  }

  /** The four `viewBox` numbers, when the trimmed value splits into exactly four parts. */
  function ViewBoxParts(viewBox: Option<string>): (parts: Option<seq<Option<real>>>)
    ensures parts.Some? ==> |parts.value| == 4
    ensures parts.Some? <==> viewBox.Some? && viewBox.value != [] && |SplitOnSpace(Trim(viewBox.value))| == 4
  {
    match viewBox
    case None => None
    case Some(text) =>
      if text == [] then None
      else
        var pieces := SplitOnSpace(Trim(text));
        if |pieces| == 4 then Some([ParseFloat(pieces[0]), ParseFloat(pieces[1]), ParseFloat(pieces[2]), ParseFloat(pieces[3])])
        else None
  }

  /**
   * `parseSvgSize`: the width and height attributes first; the `viewBox`
   * fills a side they leave unresolved; 512×512 when a side is still
   * unresolved or the document could not be parsed (`None`).
   */
  function ParseSvgSize(attributes: Option<SvgAttributes>): (r: SvgSize)
    ensures r.width >= 1 && r.height >= 1
    ensures attributes.None? ==> r == SvgSize(FallbackSide, FallbackSide)
  {
    match attributes
    case None => SvgSize(FallbackSide, FallbackSide)
    case Some(attrs) =>
      var w0 := ToPx(attrs.width);
      var h0 := ToPx(attrs.height);
      var wh :=
        if !Truthy(w0) || !Truthy(h0) then
          match ViewBoxParts(attrs.viewBox)
          case None => (w0, h0)
          case Some(parts) =>
            (if Truthy(w0) then w0 else ViewBoxSide(parts[2]),
             if Truthy(h0) then h0 else ViewBoxSide(parts[3]))
        else (w0, h0);
      if !Truthy(wh.0) || !Truthy(wh.1) then SvgSize(FallbackSide, FallbackSide)
      else SvgSize(wh.0.value, wh.1.value)
  }

  /** Width and height attributes that both resolve decide the size; the `viewBox` is not consulted. */
  lemma AttributesTakePriority(attrs: SvgAttributes)
    requires Truthy(ToPx(attrs.width)) && Truthy(ToPx(attrs.height))
    ensures ParseSvgSize(Some(attrs)) == SvgSize(ToPx(attrs.width).value, ToPx(attrs.height).value)
    ensures forall vb :: ParseSvgSize(Some(attrs.(viewBox := vb))) == ParseSvgSize(Some(attrs))
  {
    ResolvedAttributesDecide(attrs);
    forall vb ensures ParseSvgSize(Some(attrs.(viewBox := vb))) == ParseSvgSize(Some(attrs)) {
      ResolvedAttributesDecide(attrs.(viewBox := vb));
    }
  }

  lemma ResolvedAttributesDecide(attrs: SvgAttributes)
    requires Truthy(ToPx(attrs.width)) && Truthy(ToPx(attrs.height))
    ensures ParseSvgSize(Some(attrs)) == SvgSize(ToPx(attrs.width).value, ToPx(attrs.height).value)
  {
  }

  /**
   * With a four-part `viewBox` whose size parts parse, each side an attribute
   * resolves keeps it and each other side takes the `viewBox` value.
   */
  lemma ViewBoxFillsMissingSides(attrs: SvgAttributes)
    requires ViewBoxParts(attrs.viewBox).Some?
    requires ViewBoxParts(attrs.viewBox).value[2].Some? && ViewBoxParts(attrs.viewBox).value[3].Some?
    ensures var parts := ViewBoxParts(attrs.viewBox).value;
      var w0 := ToPx(attrs.width);
      var h0 := ToPx(attrs.height);
      ParseSvgSize(Some(attrs)) == SvgSize(
        if Truthy(w0) then w0.value else Max(1, Round(parts[2].value)),
        if Truthy(h0) then h0.value else Max(1, Round(parts[3].value)))
  {
  }

  /** With a side unresolved by the attributes and no usable `viewBox`, the size is 512×512. */
  lemma UnresolvedFallsBack(attrs: SvgAttributes)
    requires !Truthy(ToPx(attrs.width)) || !Truthy(ToPx(attrs.height))
    requires ViewBoxParts(attrs.viewBox).None?
    ensures ParseSvgSize(Some(attrs)) == SvgSize(FallbackSide, FallbackSide)
  {
  }

  /** A `viewBox` size part that does not parse, on a side the attributes leave open, gives 512×512. */
  lemma UnparsableViewBoxFallsBack(attrs: SvgAttributes)
    requires ViewBoxParts(attrs.viewBox).Some?
    requires (!Truthy(ToPx(attrs.width)) && ViewBoxParts(attrs.viewBox).value[2].None?)
          || (!Truthy(ToPx(attrs.height)) && ViewBoxParts(attrs.viewBox).value[3].None?)
    ensures ParseSvgSize(Some(attrs)) == SvgSize(FallbackSide, FallbackSide)
  {
  }

  /**
   * A `viewBox` of four white-space-free pieces separated by single spaces
   * gives the four numbers `parseFloat` reads from the pieces, in order.
   */
  lemma ViewBoxOfFourPieces(p0: string, p1: string, p2: string, p3: string)
    requires p0 != [] && p1 != [] && p2 != [] && p3 != []
    requires NoSpace(p0) && NoSpace(p1) && NoSpace(p2) && NoSpace(p3)
    ensures ViewBoxParts(Some(p0 + " " + p1 + " " + p2 + " " + p3))
         == Some([ParseFloat(p0), ParseFloat(p1), ParseFloat(p2), ParseFloat(p3)])
  {
    var text := p0 + " " + p1 + " " + p2 + " " + p3;
    FourPiecesUnpadded(p0, p1, p2, p3);
    FourPiecesSplit(p0, p1, p2, p3);
    ViewBoxOfSplit(text, [p0, p1, p2, p3]);
  }

  lemma ViewBoxOfSplit(text: string, pieces: seq<string>)
    requires text != [] && |pieces| == 4 && SplitOnSpace(Trim(text)) == pieces
    ensures ViewBoxParts(Some(text))
         == Some([ParseFloat(pieces[0]), ParseFloat(pieces[1]), ParseFloat(pieces[2]), ParseFloat(pieces[3])])
  {
  }

  /** The four pieces joined by single spaces split back into the pieces. */
  lemma FourPiecesSplit(p0: string, p1: string, p2: string, p3: string)
    requires p0 != [] && p1 != [] && p2 != [] && p3 != []
    requires NoSpace(p0) && NoSpace(p1) && NoSpace(p2) && NoSpace(p3)
    ensures SplitOnSpace(p0 + " " + p1 + " " + p2 + " " + p3) == [p0, p1, p2, p3]
  {
    var t2 := p2 + [' '] + p3;
    var t1 := p1 + [' '] + t2;
    assert p0 + " " + p1 + " " + p2 + " " + p3 == p0 + [' '] + t1;
    SplitWithoutSpace(p3);
    SplitAtSpace(p2, ' ', p3);
    assert t2[0] == p2[0];
    SplitAtSpace(p1, ' ', t2);
    assert t1[0] == p1[0];
    SplitAtSpace(p0, ' ', t1);
  }

  /** The four pieces joined by single spaces have nothing for `trim` to remove. */
  lemma FourPiecesUnpadded(p0: string, p1: string, p2: string, p3: string)
    requires p0 != [] && p3 != [] && NoSpace(p0) && NoSpace(p3)
    ensures Trim(p0 + " " + p1 + " " + p2 + " " + p3) == p0 + " " + p1 + " " + p2 + " " + p3
  {
    var text := p0 + " " + p1 + " " + p2 + " " + p3;
    assert text[0] == p0[0];
    assert text[|text| - 1] == p3[|p3| - 1];
    TrimKeepsUnpadded(text);
  }

  lemma TrimKeepsUnpadded(text: string)
    requires text != [] && !IsSpace(text[0]) && !IsSpace(text[|text| - 1])
    ensures Trim(text) == text
  {
    assert TrimStart(text) == text;
    assert TrimEnd(text) == text;
  }

  lemma NumericRunOfDigits(digits: string, unit: string)
    requires digits != [] && forall k :: 0 <= k < |digits| ==> IsDigit(digits[k])
    requires unit == [] || !IsNumChar(unit[0])
    ensures NumericRun(digits + unit) == Some(digits)
  {
    var text := digits + unit;
    assert text[0] == digits[0];
    assert forall k :: 0 <= k < |digits| ==> text[k] == digits[k];
    if unit != [] {
      assert text[|digits|] == unit[0];
    }
    assert NextNumChar(text, 0) == 0;
    assert NumRunEnd(text, 0) == |digits|;
    assert text[0..|digits|] == digits;
  }

  /** `toPx` reads back a whole number of pixels written with an optional unit suffix. */
  lemma ToPxOfNumeral(n: nat, unit: string)
    requires n >= 1
    requires unit == [] || (!IsNumChar(unit[0]) && !IsSpace(unit[|unit| - 1]))
    ensures ToPx(Some(Numeral(n) + unit)) == Some(n)
  {
    var digits := Numeral(n);
    var text := digits + unit;
    assert text[0] == digits[0];
    assert text[|text| - 1] == if unit == [] then digits[|digits| - 1] else unit[|unit| - 1];
    TrimKeepsUnpadded(text);
    NumericRunOfDigits(digits, unit);
    ParseFloatOfNumeral(n);
    RoundOfInteger(n);
  }
}
