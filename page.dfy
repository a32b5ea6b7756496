/**
 * The converter page: its state, the handlers that change it (reset, the
 * linked size inputs, the keep-aspect toggle, the maximum-size input, a
 * dropped or loaded file, and the conversion), and the pure helpers it uses
 * (the resolved target size, the download file name, the drop filter).
 */
module Page {
  import opened Wrappers
  import opened Builtins
  import opened Size
  import opened Encoders
  import opened Export
  import opened Converter
  import opened Controls

  // ----- resolved target size -----

  /** The page's own copy of the size rule, branch for branch; it agrees with `computeResolvedSize` everywhere. */
  function ResolvedTarget(bitmap: Option<Bitmap>, keepAspect: bool, targetW: AutoNumber, targetH: AutoNumber): (r: Dims)
    ensures r == ComputeResolvedSize(bitmap, keepAspect, targetW, targetH)
  {
    if bitmap.None? then Dims(0, 0)
    else
      var b := bitmap.value;
      if keepAspect then
        var aspect := Aspect(b);
        if targetW.Auto? && targetH.Auto? then Dims(b.width, b.height)
        else if targetW.Auto? && targetH.Num? then
          var h := Max(1, targetH.n);
          assert Max(1, Round(h as real * aspect)) == WidthForHeight(b, h);
          Dims(Max(1, Round(h as real * aspect)), h)
        else if targetH.Auto? && targetW.Num? then
          var w := Max(1, targetW.n);
          assert Max(1, Round(w as real / aspect)) == HeightForWidth(b, w);
          Dims(w, Max(1, Round(w as real / aspect)))
        else
          var boxW := Max(1, targetW.n);
          var boxH := Max(1, targetH.n);
          if boxW as real / boxH as real > aspect then Dims(Round(boxH as real * aspect), boxH)
          else Dims(boxW, Round(boxW as real / aspect))
      else
        Dims(Max(1, if targetW.Auto? then b.width else targetW.n),
             Max(1, if targetH.Auto? then b.height else targetH.n))
  }

  /** A freshly loaded bitmap, with both sides requested at its own size, resolves to that size. */
  lemma LoadedImageResolvesToItself(b: Bitmap, keepAspect: bool)
    ensures ResolvedTarget(Some(b), keepAspect, Num(b.width), Num(b.height)) == Dims(b.width, b.height)
  {
    OwnSizeResolvesToItself(b, keepAspect);
  }

  // ----- download name -----

  /** The position of the last `.` in `s`, if any. */
  function LastDot(s: string): (r: Option<nat>)
    ensures r.Some? ==> r.value < |s| && s[r.value] == '.' && forall k :: r.value < k < |s| ==> s[k] != '.'
    ensures r.None? ==> forall k :: 0 <= k < |s| ==> s[k] != '.'
  {
    if s == [] then None
    else if s[|s| - 1] == '.' then Some(|s| - 1)
    else LastDot(s[..|s| - 1])
  }

  /**
   * `replace(/\.[^.]+$/, "")`: drop a final `.` and the dot-free, non-empty
   * tail after it; a name ending in `.` or without a `.` is kept whole.
   */
  function StripExtension(name: string): (r: string)
    ensures |r| <= |name| && r == name[..|r|]
    ensures r != name ==> |name| >= |r| + 2 && name[|r|] == '.' && forall k :: |r| < k < |name| ==> name[k] != '.'
    ensures r == name ==> name == [] || name[|name| - 1] == '.' || forall k :: 0 <= k < |name| ==> name[k] != '.'
  {
    match LastDot(name)
    case None => name
    case Some(i) => if i < |name| - 1 then name[..i] else name
  }

  /** Appending a dot-free, non-empty extension and stripping it again gives the name back. */
  lemma StripExtensionOfAppended(base: string, ext: string)
    requires ext != [] && '.' !in ext
    ensures StripExtension(base + "." + ext) == base
  {
    var s := base + "." + ext;
    assert s[|base|] == '.';
    assert forall k :: |base| < k < |s| ==> s[k] == ext[k - |base| - 1];
    assert s[..|base|] == base;
  }

  /** The position of the first `c` in `s`. */
  function FirstIndexOfChar(s: string, c: char): (i: nat)
    requires c in s
    ensures i < |s| && s[i] == c
    ensures forall k :: 0 <= k < i ==> s[k] != c
  {
    if s[0] == c then 0 else 1 + FirstIndexOfChar(s[1..], c)
  }

  /** `mime.split("/")[1]`: the text between the first `/` and the next one (or the end). */
  function Subtype(mime: string): (r: string)
    requires '/' in mime
  {
    var rest := mime[FirstIndexOfChar(mime, '/') + 1..];
    if '/' in rest then rest[..FirstIndexOfChar(rest, '/')] else rest
  }

  /** The extension of the download: the subtype with its first `jpeg` made `jpg`, and `qoi` for QOI. */
  function DownloadExtension(mime: string): string
    requires '/' in mime
  {
    if mime == QoiMime then "qoi" else ReplaceFirst(Subtype(mime), "jpeg", "jpg")
  }

  /**
   * `downloadName`: the file's name (or `image`) without its extension, a dot,
   * and the format's extension. For an output format, stripping the extension
   * of the download name gives the stem back, and the name ends in the
   * format's own suffix.
   */
  function DownloadName(fileName: Option<string>, mime: string): (r: string)
    requires '/' in mime
    ensures var base := if fileName.None? || fileName.value == [] then "image" else fileName.value;
      r == StripExtension(base) + "." + DownloadExtension(mime)
    ensures var base := if fileName.None? || fileName.value == [] then "image" else fileName.value;
      IsOutputFormat(mime) ==> StripExtension(r) == StripExtension(base)
    ensures mime == PngMime ==> EndsWith(r, ".png")
    ensures mime == JpegMime ==> EndsWith(r, ".jpg")
    ensures mime == WebpMime ==> EndsWith(r, ".webp")
    ensures mime == AvifMime ==> EndsWith(r, ".avif")
    ensures mime == QoiMime ==> EndsWith(r, ".qoi")
  {
    var base := if fileName.None? || fileName.value == [] then "image" else fileName.value;
    var stem := StripExtension(base);
    AppendedExtension(stem, mime);
    stem + "." + DownloadExtension(mime)
  }

  /** The subtype of `image/<sub>` is `sub` when it holds no further `/`. */
  lemma SubtypeOfImageMime(sub: string)
    requires '/' !in sub
    ensures '/' in "image/" + sub && Subtype("image/" + sub) == sub
  {
    var mime := "image/" + sub;
    assert mime[5] == '/';
    var i := FirstIndexOfChar(mime, '/');
    assert forall k :: 0 <= k < 5 ==> mime[k] == "image"[k];
    assert i == 5;
    assert mime[6..] == sub;
  }

  /** A subtype without a `j` holds no `jpeg` and is left as it is. */
  lemma NoJpegLeftAlone(sub: string)
    requires 'j' !in sub
    ensures ReplaceFirst(sub, "jpeg", "jpg") == sub
  {
    forall k: nat | k + 4 <= |sub| ensures !OccursAt(sub, "jpeg", k) {
      assert sub[k..k + 4][0] == sub[k] != 'j';
    }
  }

  lemma JpegBecomesJpg()
    ensures ReplaceFirst("jpeg", "jpeg", "jpg") == "jpg"
  {
    assert IndexOf("jpeg", "jpeg", 0) == Some(0);
  }

  /** A subtype not starting with `q` is not QOI's, so only the `jpeg` rewrite applies to it. */
  lemma ImageSubtypeExtension(mime: string, sub: string)
    requires mime == "image/" + sub && sub != [] && sub[0] != 'q' && '/' !in sub
    ensures '/' in mime && DownloadExtension(mime) == ReplaceFirst(sub, "jpeg", "jpg")
  {
    SubtypeOfImageMime(sub);
    assert mime[6] == sub[0] != QoiMime[6];
  }

  lemma PngExtension(mime: string)
    requires mime == PngMime
    ensures '/' in mime && DownloadExtension(mime) == "png"
  {
    var sub := "png";
    NoJpegLeftAlone(sub);
    ImageSubtypeExtension(mime, sub);
  }

  lemma JpegExtension(mime: string)
    requires mime == JpegMime
    ensures '/' in mime && DownloadExtension(mime) == "jpg"
  {
    var sub := "jpeg";
    ImageSubtypeExtension(mime, sub);
    JpegBecomesJpg();
  }

  lemma WebpExtension(mime: string)
    requires mime == WebpMime
    ensures '/' in mime && DownloadExtension(mime) == "webp"
  {
    var sub := "webp";
    NoJpegLeftAlone(sub);
    ImageSubtypeExtension(mime, sub);
  }

  lemma AvifExtension(mime: string)
    requires mime == AvifMime
    ensures '/' in mime && DownloadExtension(mime) == "avif"
  {
    var sub := "avif";
    NoJpegLeftAlone(sub);
    ImageSubtypeExtension(mime, sub);
  }

  lemma QoiExtension(mime: string)
    requires mime == QoiMime
    ensures '/' in mime && DownloadExtension(mime) == "qoi"
  {
    assert mime[5] == '/';
  }

  /** The five output formats download as `.png`, `.jpg`, `.webp`, `.avif` and `.qoi`. */
  lemma ExtensionsOfOutputFormats()
    ensures '/' in PngMime && DownloadExtension(PngMime) == "png"
    ensures '/' in JpegMime && DownloadExtension(JpegMime) == "jpg"
    ensures '/' in WebpMime && DownloadExtension(WebpMime) == "webp"
    ensures '/' in AvifMime && DownloadExtension(AvifMime) == "avif"
    ensures '/' in QoiMime && DownloadExtension(QoiMime) == "qoi"
  {
    PngExtension(PngMime);
    JpegExtension(JpegMime);
    WebpExtension(WebpMime);
    AvifExtension(AvifMime);
    QoiExtension(QoiMime);
  }

  lemma DotFreeExtension(ext: string)
    requires ext == "png" || ext == "jpg" || ext == "webp" || ext == "avif" || ext == "qoi"
    ensures ext != [] && '.' !in ext
  {
  }

  /** Every output format's extension is a non-empty run without a dot. */
  lemma ExtensionIsDotFree(mime: string)
    requires IsOutputFormat(mime)
    ensures '/' in mime
    ensures DownloadExtension(mime) != [] && '.' !in DownloadExtension(mime)
  {
    var ext: string;
    if mime == PngMime {
      PngExtension(mime);
      ext := "png";
    } else if mime == JpegMime {
      JpegExtension(mime);
      ext := "jpg";
    } else if mime == WebpMime {
      WebpExtension(mime);
      ext := "webp";
    } else if mime == AvifMime {
      AvifExtension(mime);
      ext := "avif";
    } else {
      QoiExtension(mime);
      ext := "qoi";
    }
    assert DownloadExtension(mime) == ext;
    DotFreeExtension(ext);
  }

  /** Appending an output format's extension: it strips off again, and the name ends in the format's suffix. */
  lemma AppendedExtension(stem: string, mime: string)
    requires '/' in mime
    ensures IsOutputFormat(mime) ==> StripExtension(stem + "." + DownloadExtension(mime)) == stem
    ensures mime == PngMime ==> EndsWith(stem + "." + DownloadExtension(mime), ".png")
    ensures mime == JpegMime ==> EndsWith(stem + "." + DownloadExtension(mime), ".jpg")
    ensures mime == WebpMime ==> EndsWith(stem + "." + DownloadExtension(mime), ".webp")
    ensures mime == AvifMime ==> EndsWith(stem + "." + DownloadExtension(mime), ".avif")
    ensures mime == QoiMime ==> EndsWith(stem + "." + DownloadExtension(mime), ".qoi")
  {
    if IsOutputFormat(mime) {
      ExtensionIsDotFree(mime);
      StripExtensionOfAppended(stem, DownloadExtension(mime));
    }
    if mime == PngMime {
      PngDownloadSuffix(stem, mime);
    } else if mime == JpegMime {
      JpegDownloadSuffix(stem, mime);
    } else if mime == WebpMime {
      WebpDownloadSuffix(stem, mime);
    } else if mime == AvifMime {
      AvifDownloadSuffix(stem, mime);
    } else if mime == QoiMime {
      QoiDownloadSuffix(stem, mime);
    }
  }

  /** Appending a dot and an extension ends the name in the dotted extension. */
  lemma EndsWithDotted(stem: string, ext: string, suffix: string)
    requires suffix == "." + ext
    ensures EndsWith(stem + "." + ext, suffix)
  {
    var name := stem + "." + ext;
    assert name[|name| - |suffix|..] == suffix;
  }

  lemma PngDownloadSuffix(stem: string, mime: string)
    requires mime == PngMime
    ensures '/' in mime && EndsWith(stem + "." + DownloadExtension(mime), ".png")
  {
    PngExtension(mime);
    DottedPng(stem);
  }

  lemma DottedPng(stem: string)
    ensures EndsWith(stem + "." + "png", ".png")
  {
    EndsWithDotted(stem, "png", ".png");
  }

  lemma JpegDownloadSuffix(stem: string, mime: string)
    requires mime == JpegMime
    ensures '/' in mime && EndsWith(stem + "." + DownloadExtension(mime), ".jpg")
  {
    JpegExtension(mime);
    DottedJpg(stem);
  }

  lemma DottedJpg(stem: string)
    ensures EndsWith(stem + "." + "jpg", ".jpg")
  {
    EndsWithDotted(stem, "jpg", ".jpg");
  }

  lemma WebpDownloadSuffix(stem: string, mime: string)
    requires mime == WebpMime
    ensures '/' in mime && EndsWith(stem + "." + DownloadExtension(mime), ".webp")
  {
    WebpExtension(mime);
    DottedWebp(stem);
  }

  lemma DottedWebp(stem: string)
    ensures EndsWith(stem + "." + "webp", ".webp")
  {
    EndsWithDotted(stem, "webp", ".webp");
  }

  lemma AvifDownloadSuffix(stem: string, mime: string)
    requires mime == AvifMime
    ensures '/' in mime && EndsWith(stem + "." + DownloadExtension(mime), ".avif")
  {
    AvifExtension(mime);
    DottedAvif(stem);
  }

  lemma DottedAvif(stem: string)
    ensures EndsWith(stem + "." + "avif", ".avif")
  {
    EndsWithDotted(stem, "avif", ".avif");
  }

  lemma QoiDownloadSuffix(stem: string, mime: string)
    requires mime == QoiMime
    ensures '/' in mime && EndsWith(stem + "." + DownloadExtension(mime), ".qoi")
  {
    QoiExtension(mime);
    DottedQoi(stem);
  }

  lemma DottedQoi(stem: string)
    ensures EndsWith(stem + "." + "qoi", ".qoi")
  {
    EndsWithDotted(stem, "qoi", ".qoi");
  }

  // ----- drop filter -----

  datatype FileInfo = FileInfo(name: string, mimeType: string)

  /** The extensions the drop filter accepts, matched case-insensitively at the end of the name after a dot. */
  const DropExtensions: seq<string> := ["jpg", "jpeg", "png", "gif", "webp", "avif", "bmp", "svg", "ico"]

  predicate HasImageExtension(name: string)
  {
    exists e :: e in DropExtensions && EndsWith(ToLower(name), "." + e)
  }

  /** A dropped file is taken when its type starts with `image/` or its name has one of the image extensions. */
  function AcceptDrop(f: Option<FileInfo>): (accepted: bool)
    ensures accepted ==> f.Some?
    ensures f.Some? && StartsWith(f.value.mimeType, "image/") ==> accepted
  {
    f.Some? && (StartsWith(f.value.mimeType, "image/") || HasImageExtension(f.value.name))
  }

  /** The name is matched without regard to case. */
  lemma DropNameCaseIsIgnored(f: FileInfo)
    ensures AcceptDrop(Some(f)) == AcceptDrop(Some(f.(name := ToLower(f.name))))
  {
    ToLowerIdempotent(f.name);
  }

  /** A name ending in a dot and a listed extension, in any case, is taken whatever its type. */
  lemma ListedExtensionIsTaken(stem: string, ext: string, mimeType: string)
    requires ToLower(ext) in DropExtensions
    ensures AcceptDrop(Some(FileInfo(stem + "." + ext, mimeType)))
  {
    var name := stem + "." + ext;
    var suffix := "." + ToLower(ext);
    assert ToLower(name)[|name| - |suffix|..] == suffix;
    assert EndsWith(ToLower(name), suffix);
  }

  /** A name without a dot is taken only for an `image/` type. */
  lemma DotlessNameNeedsImageType(f: FileInfo)
    requires '.' !in f.name
    ensures AcceptDrop(Some(f)) <==> StartsWith(f.mimeType, "image/")
  {
    var lower := ToLower(f.name);
    forall e | e in DropExtensions ensures !EndsWith(lower, "." + e) {
      if |e| + 1 <= |lower| {
        var k := |lower| - |e| - 1;
        assert lower[k..][0] == lower[k] != '.';
      }
    }
  }

  /** The listed extensions are non-empty and hold no dot. */
  lemma DropExtensionIsDotFree(e: string)
    requires e in DropExtensions
    ensures e != [] && '.' !in e
  {
  }

  /**
   * A name whose text after its last dot is not a listed extension, in any
   * case, is refused unless its type starts with `image/`.
   */
  lemma UnlistedExtensionRefused(stem: string, ext: string, mimeType: string)
    requires ext != [] && '.' !in ext && ToLower(ext) !in DropExtensions
    requires !StartsWith(mimeType, "image/")
    ensures !AcceptDrop(Some(FileInfo(stem + "." + ext, mimeType)))
  {
    var name := stem + "." + ext;
    var lower := ToLower(name);
    var lext := ToLower(ext);
    var n := |lower|;
    assert lower[n - |lext| - 1] == '.';
    assert forall j :: 0 <= j < |lext| ==> lower[n - |lext| + j] == lext[j] != '.';
    forall e | e in DropExtensions ensures !EndsWith(lower, "." + e) {
      DropExtensionIsDotFree(e);
      var dotted := "." + e;
      if |dotted| <= n {
        var tail := lower[n - |dotted|..];
        if |e| == |lext| {
          assert tail[1..] == lext != e == dotted[1..];
        } else if |e| < |lext| {
          assert tail[0] != '.' == dotted[0];
        } else {
          var j := |e| - |lext|;
          assert tail[j] == '.' != dotted[j];
        }
      }
    }
  }

  // ----- the page -----

  const DefaultMaxKB: int := 1024
  const DefaultQuality: real := 0.85
  const DefaultSliderPct: int := 50
  const ReadFailurePrefix: string := "无法读取图片："
  const UnknownError: string := "未知错误"

  /** What the page keeps besides the requested size: file, images, settings and output. */
  datatype Session = Session(
    file: Option<FileInfo>, srcUrl: Option<string>, bitmap: Option<Bitmap>,
    maxKB: int, format: string, quality: real,
    processing: bool, error: Option<string>, outBlob: Option<Blob>, outUrl: Option<string>, sliderPct: int)

  class Page {
    var file: Option<FileInfo>
    var srcUrl: Option<string>
    var bitmap: Option<Bitmap>
    var targetW: AutoNumber
    var targetH: AutoNumber
    var keepAspect: bool
    var maxKB: int
    var format: string
    var quality: real
    var processing: bool
    var error: Option<string>
    var outBlob: Option<Blob>
    var outUrl: Option<string>
    var sliderPct: int

    function Requested(): Dimensions
      reads this
    {
      Dimensions(targetW, targetH, keepAspect)
    }

    function Rest(): Session
      reads this
    {
      Session(file, srcUrl, bitmap, maxKB, format, quality, processing, error, outBlob, outUrl, sliderPct)
    }

    /** The initial values, which `resetAll` restores. */
    predicate AtDefaults()
      reads this
    {
      && file.None? && srcUrl.None? && bitmap.None?
      && targetW == Auto && targetH == Auto && keepAspect
      && maxKB == DefaultMaxKB && format == WebpMime && quality == DefaultQuality
      && error.None? && outBlob.None? && outUrl.None? && sliderPct == DefaultSliderPct
    }

    constructor ()
      ensures AtDefaults() && !processing
    {
      file, srcUrl, bitmap := None, None, None;
      targetW, targetH, keepAspect := Auto, Auto, true;
      maxKB, format, quality := DefaultMaxKB, WebpMime, DefaultQuality;
      processing, error, outBlob, outUrl, sliderPct := false, None, None, None, DefaultSliderPct;
    }

    /** `resetAll`: every setting and output back to its initial value; a conversion in flight stays flagged. */
    method ResetAll()
      modifies this
      ensures AtDefaults()
      ensures processing == old(processing)
    {
      file, srcUrl, outUrl, outBlob, bitmap, error := None, None, None, None, None, None;
      sliderPct := DefaultSliderPct;
      targetW, targetH, keepAspect := Auto, Auto, true;
      maxKB, format, quality := DefaultMaxKB, WebpMime, DefaultQuality;
    }

    /** `setWidthKeepingAspect`. */
    method SetWidthKeepingAspect(v: AutoNumber)
      modifies this
      ensures Requested() == AfterWidthChange(old(Requested()), bitmap, v)
      ensures Rest() == old(Rest())
    {
      targetW := v;
      if keepAspect && bitmap.Some? && v.Num? {
        targetH := Num(HeightForWidth(bitmap.value, v.n));
      }
    }

    /** `setHeightKeepingAspect`. */
    method SetHeightKeepingAspect(v: AutoNumber)
      modifies this
      ensures Requested() == AfterHeightChange(old(Requested()), bitmap, v)
      ensures Rest() == old(Rest())
    {
      targetH := v;
      if keepAspect && bitmap.Some? && v.Num? {
        targetW := Num(WidthForHeight(bitmap.value, v.n));
      }
    }

    /** The keep-aspect checkbox: re-links the sides when turned on, width first. */
    method SetKeepAspect(next: bool)
      modifies this
      ensures Requested() == AfterToggle(old(Requested()), bitmap, next)
      ensures Rest() == old(Rest())
    {
      keepAspect := next;
      if next && bitmap.Some? {
        if targetW.Num? {
          targetH := Num(HeightForWidth(bitmap.value, targetW.n));
        } else if targetH.Num? {
          targetW := Num(WidthForHeight(bitmap.value, targetH.n));
        }
      }
    }

    /** The maximum-size input; an input read as NaN leaves the stored value alone. */
    method SetMaxKB(text: string)
      modifies this
      ensures MaxKBFromInput(text).Some? ==> maxKB == MaxKBFromInput(text).value
      ensures MaxKBFromInput(text).None? ==> maxKB == old(maxKB)
      ensures Requested() == old(Requested())
      ensures Rest() == old(Rest()).(maxKB := maxKB)
    {
      match MaxKBFromInput(text) {
        case Some(k) => maxKB := k;
        case None =>
      }
    }

    /** The drop handler: an accepted file replaces the current one; anything else is ignored. */
    method Drop(f: Option<FileInfo>)
      modifies this
      ensures AcceptDrop(f) ==> file == f
      ensures !AcceptDrop(f) ==> file == old(file)
      ensures Requested() == old(Requested())
      ensures Rest() == old(Rest()).(file := file)
    {
      if AcceptDrop(f) {
        file := f;
      }
    }

    /**
     * The file-load effect: the error is cleared; with a file, the source URL
     * is replaced, and the decoded bitmap becomes the source with both sides
     * requested at its size, or a decode failure is reported with its message
     * (or "unknown error").
     */
    method LoadFile(url: string, decoded: Result<Bitmap, string>)
      modifies this
      ensures old(file).None? ==> Rest() == old(Rest()).(error := None) && Requested() == old(Requested())
      ensures old(file).Some? ==> srcUrl == Some(url)
      ensures old(file).Some? && decoded.Success? ==>
        && bitmap == Some(decoded.value) && error.None?
        && Requested() == old(Requested()).(targetW := Num(decoded.value.width), targetH := Num(decoded.value.height))
      ensures old(file).Some? && decoded.Failure? ==>
        && bitmap == old(bitmap) && Requested() == old(Requested())
        && error == Some(ReadFailurePrefix + (if decoded.error == [] then UnknownError else decoded.error))
      ensures file == old(file) && outBlob == old(outBlob) && outUrl == old(outUrl) && maxKB == old(maxKB)
      ensures format == old(format) && quality == old(quality) && processing == old(processing)
      ensures sliderPct == old(sliderPct)
    {
      error := None;
      if file.None? {
        return;
      }
      srcUrl := Some(url);
      match decoded {
        case Success(b) =>
          bitmap := Some(b);
          targetW := Num(b.width);
          targetH := Num(b.height);
        case Failure(message) =>
          error := Some(ReadFailurePrefix + (if message == [] then UnknownError else message));
      }
    }

    /** What the conversion is asked for: the resolved size and the current settings. */
    function Params(): ConvertParams
      reads this
    {
      var size := ResolvedTarget(bitmap, keepAspect, targetW, targetH);
      ConvertParams(size.w, size.h, format, quality, maxKB as real)
    }

    /**
     * `convert`: nothing without a bitmap; otherwise the export runs at the
     * resolved size, a result is published under `url` with the comparison
     * slider recentred, a failure leaves no output and its message (or the
     * default) as error. Processing is off again on every path.
     */
    method Convert(codecs: Codecs, hasContext: bool, readPixels: (int, int) -> Result<ImageData, string>, url: string)
      modifies this
      ensures old(bitmap).None? ==> Rest() == old(Rest())
      ensures Requested() == old(Requested())
      ensures old(bitmap).Some? ==> !processing
      ensures old(bitmap).Some? && ConvertOutcome(old(Params()), codecs, hasContext, readPixels).Exported? ==>
        var outcome := ConvertOutcome(old(Params()), codecs, hasContext, readPixels);
        && outBlob == Some(outcome.blob) && outUrl == Some(url) && sliderPct == DefaultSliderPct
        && error == (if outcome.pngOverBudget then Some(PngAdvice) else None)
      ensures old(bitmap).Some? && ConvertOutcome(old(Params()), codecs, hasContext, readPixels).EncodeFailed? ==>
        var outcome := ConvertOutcome(old(Params()), codecs, hasContext, readPixels);
        && outBlob == None && outUrl == None && sliderPct == old(sliderPct)
        && error == Some(FailureMessage(outcome.message))
      ensures file == old(file) && bitmap == old(bitmap) && format == old(format) && quality == old(quality)
      ensures srcUrl == old(srcUrl) && maxKB == old(maxKB)
    {
      if bitmap.None? {
        return;
      }
      var p := Params();
      processing := true;
      error := None;
      outBlob := None;
      outUrl := None;
      var outcome := RunConversion(p, codecs, hasContext, readPixels);
      Publish(outcome, url);
    }

    /**
     * The end of `convert`: an exported blob is shown under `url` with the
     * slider recentred and, for PNG over budget, the advice as error; a
     * failure shows its message (or the default). Processing is off again.
     */
    method Publish(outcome: ExportResult, url: string)
      modifies this
      requires outBlob == None && outUrl == None && error == None
      ensures outcome.Exported? ==>
        && outBlob == Some(outcome.blob) && outUrl == Some(url) && sliderPct == DefaultSliderPct
        && error == (if outcome.pngOverBudget then Some(PngAdvice) else None)
      ensures outcome.EncodeFailed? ==>
        && outBlob == None && outUrl == None && sliderPct == old(sliderPct)
        && error == Some(FailureMessage(outcome.message))
      ensures !processing && Requested() == old(Requested())
      ensures file == old(file) && bitmap == old(bitmap) && format == old(format) && quality == old(quality)
      ensures srcUrl == old(srcUrl) && maxKB == old(maxKB)
    {
      match outcome {
        case Exported(blob, overBudget) =>
          if overBudget {
            error := Some(PngAdvice);
          }
          outBlob := Some(blob);
          outUrl := Some(url);
          sliderPct := DefaultSliderPct;
        case EncodeFailed(message) =>
          error := Some(FailureMessage(message));
      }
      processing := false;
    }
  }
}
