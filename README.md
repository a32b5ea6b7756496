# Image converter core, in Dafny

A model of the decision logic of a browser image converter. The converter takes an uploaded image, optionally resizes it, and re-encodes it as WebP, JPEG, AVIF, PNG or QOI under a maximum file size. The model covers the parts of that pipeline that decide things:

- **Size resolver** (`size.dfy`, module `Size`). It maps the source bitmap, the keep-aspect switch and the two requested sides (a number or `auto`) to the output size. The page's inline copy of the same rule is `Page.ResolvedTarget`, proved equal to it.
- **Encoder dispatch** (`encoders.dfy`, module `Encoders`). It selects the codec from the format tag and maps the normalised quality to the codec's 1..100 quality or its inverted 0..63 `cqLevel`. It also wraps a codec's bytes (a typed-array view or a whole buffer) in a blob of the requested type. The five codecs are function parameters.
- **Size-constrained export** (`export.dfy`, module `Export`). This is the controller shared by the converter hook and the page:
  - PNG is encoded once at quality 1 and flagged when over budget.
  - Every other format is first probed at the requested quality. When the probe is over budget, twelve bisection steps follow over `[0.3, quality]`, each with a 0.02 margin past the midpoint.
  - The search is written once, over an abstract encoder (quality → blob or error), and parametrised by how a step narrows the window. `AsWritten` is the code's narrowing; `Intended` is the corrected one (see Findings).
  - `ExportWithBudget` and `BisectQuality` are the imperative loop. They are proved equal to the recursive specification `ExportPlan`/`Bisect`, together with the sequence of qualities the encoder is called at.
- **Decoder registry and SVG size** (`decoders.dfy`, module `Decoders`). The registry is a class whose `RegisterDecoder` appends. Dispatch picks the first decoder listing the lower-cased type, else the raster decoder. `ParseSvgSize` takes the root element's `width`, `height` and `viewBox` attribute values and decides between attributes, the `viewBox` and 512×512.
- **Converter hook** (`converter.dfy`, module `Converter`). A class holding the processing flag, error, output blob, output URL and last URL, with its `Convert` and `ClearOutput` transitions. `ConvertOutcome` is the function `Convert` is proved against.
- **Controls** (`controls.dfy`, module `Controls`). The linked width/height handlers and the keep-aspect toggle are transitions on `(targetW, targetH, keepAspect)`. The module also covers the side and maximum-size inputs and the displayed size, and has a class over the state the handlers write.
- **Page** (`page.dfy`, module `Page`). A class over the page's state:
  - transitions: reset, the linked setters, the toggle, the size input, drop, file load and conversion;
  - pure helpers: the resolved target, the download file name and the drop filter.
- **ECMAScript built-ins** (`builtins.dfy`, module `Builtins`). `Math.round`, ASCII `toLowerCase`, `trim`, `split(/\s+/)`, `parseFloat`, `parseInt`, `indexOf` and string `replace` with a string pattern. They are written over exact rationals and strings.

`wrappers.dfy` holds `Option`, `Result`, `Max` and `Min`.

**Where the code differs from its own comments and documentation, the model follows the code:**
- The contain-fit branch of the size rule is not clamped to 1 and can give a side of 0 (`Size.ContainFitCanCollapse`).
- A failed encode during the search ends the conversion with the encoder's message; no format advice is given for non-PNG formats.
- The search is not confined to `[0.3, quality]`. A trial can exceed the requested quality (`Export.TrialCanExceedRequestedQuality`).
- QOI ignores quality but still runs the whole search.
- The `qoi` special case in `downloadName` is redundant: the subtype of `image/qoi` is already `qoi`.

## Model

| member | source | states |
|---|---|---|
| Builtins.Round | src/lib/utils/size.ts:19 | `Math.round` gives an integer within half of x, halves rounded up |
| Size.Aspect | src/lib/utils/size.ts:13 | the aspect ratio is positive and aspect·H = W |
| Size.WidthForHeight | src/lib/utils/size.ts:19 | the linked width is at least 1; above 1 it is the nearest integer to h·W/H, and it is 1 only when h·W/H is below 1.5 |
| Size.HeightForWidth | src/lib/utils/size.ts:22 | the linked height is at least 1; above 1 it is the nearest integer to w·H/W, and it is 1 only when w·H/W is below 1.5 |
| Size.ClampedRoundIsUnique | src/lib/utils/size.ts:19 | a side of at least 1 that is 1 only below 1.5 and otherwise within half of x is exactly max(1, round(x)) |
| Size.WidthForHeightIsDetermined | src/lib/utils/size.ts:19 | the linked width's contract has exactly one solution, the width the code computes |
| Size.HeightForWidthIsDetermined | src/lib/utils/size.ts:22 | the linked height's contract has exactly one solution, the height the code computes |
| Size.ComputeResolvedSize | src/lib/utils/size.ts:3-39 | no bitmap gives 0×0; with a bitmap neither side is negative |
| Size.BothAutoKeepsSource | src/lib/utils/size.ts:14-16 | keep-aspect with both sides auto returns the source size exactly |
| Size.HeightOnlyFollowsAspect | src/lib/utils/size.ts:17-19 | a lone height gives h = max(1, targetH) and a width of at least 1, nearest to h·W/H above 1 and 1 only when h·W/H is below 1.5 |
| Size.WidthOnlyFollowsAspect | src/lib/utils/size.ts:20-22 | a lone width gives w = max(1, targetW) and a height of at least 1, nearest to w·H/W above 1 and 1 only when w·H/W is below 1.5 |
| Size.ContainFitStaysInBox | src/lib/utils/size.ts:23-33 | with both sides given, the result lies inside the clamped box, touches it on one axis, and has the other side nearest to the aspect ratio |
| Size.ContainFitCanCollapse | src/lib/utils/size.ts:26-32 | a 1×1000 source in a 1×1 box resolves to width 0 |
| Size.AtLeastOnePixelOutsideContainFit | src/lib/utils/size.ts:12-37 | every branch but contain-fit gives at least one pixel per side |
| Size.FreeSidesAreIndependent | src/lib/utils/size.ts:34-37 | without keep-aspect each side is max(1, request or source side), whatever the other side asks |
| Size.OwnSizeResolvesToItself | src/lib/utils/size.ts:12-37 | both sides requested at the source's own size resolve to that size, with or without keep-aspect |
| Size.LandscapeToEightHundred | src/lib/utils/size.ts:20-22 | 4000×3000 with width 800 resolves to 800×600 |
| Encoders.BytesToBlob | src/lib/codec/encoders.ts:8-19 | a view's blob is exactly buffer[offset, offset+length), a whole buffer's blob is the buffer, the type is the requested one |
| Encoders.Quality100 | src/lib/codec/encoders.ts:30 | the codec quality lies in 1..100 and is the nearest integer to 100·q for q in [0.005, 1] |
| Encoders.CqLevel | src/lib/codec/encoders.ts:50-51 | the AVIF level lies in 0..63 and is the nearest integer to 63·(1−q) for q in [0, 1] |
| Encoders.Quality100Monotone | src/lib/codec/encoders.ts:30 | higher quality never lowers the codec quality |
| Encoders.CqLevelAntitone | src/lib/codec/encoders.ts:50-51 | higher quality never raises the AVIF level |
| Encoders.Wrap | src/lib/codec/encoders.ts:36-37 | a codec's bytes become a blob of the requested type; a codec failure is passed on |
| Encoders.EncodeImage | src/lib/codec/encoders.ts:25-72 | a produced blob has the requested type; a tag outside the five formats fails with "Unsupported output format: " and the tag |
| Encoders.LosslessIgnoresQuality | src/lib/codec/encoders.ts:55-68 | PNG and QOI output is the same for every quality |
| Encoders.SameControlSameBlob | src/lib/codec/encoders.ts:30-54 | qualities mapping to the same codec controls give the same result for every format |
| Decoders.FirstListing | src/lib/codec/decoders.ts:23 | `find` returns the first decoder listing the type, and nothing only when no decoder lists it |
| Decoders.Dispatch | src/lib/codec/decoders.ts:21-27 | the first decoder listing the lower-cased type is chosen; with none, the raster decoder |
| Decoders.Registry.constructor | src/lib/codec/decoders.ts:140-142 | the registry starts as SVG then raster |
| Decoders.Registry.RegisterDecoder | src/lib/codec/decoders.ts:17-19 | registration appends one decoder and leaves earlier entries unchanged |
| Decoders.Registry.DecodeFile | src/lib/codec/decoders.ts:21-27 | the chosen decoder is a registered one that lists the lower-cased type, or the raster decoder, which is also chosen whenever no registered decoder lists it |
| Decoders.BuiltinDispatch | src/lib/codec/decoders.ts:31-54 | with the built-ins, `image/svg+xml` goes to the SVG decoder and the six raster types (and every other type) to the raster decoder |
| Decoders.DispatchIgnoresCase | src/lib/codec/decoders.ts:22 | the type's letter case never changes the choice |
| Decoders.UpperCaseSvgDispatch | src/lib/codec/decoders.ts:22-24 | `IMAGE/SVG+XML` reaches the SVG decoder |
| Decoders.EmptyTypeFallsBack | src/lib/codec/decoders.ts:22-26 | a file without a type goes to the raster decoder |
| Decoders.LaterRegistrationsDoNotShadow | src/lib/codec/decoders.ts:17-24 | registering a decoder never changes the choice for a type already listed |
| Decoders.NewDecoderTakesUnclaimedType | src/lib/codec/decoders.ts:17-24 | a newly registered decoder takes a type nobody listed |
| Decoders.NumericRun | src/lib/codec/decoders.ts:87 | the match is absent exactly when the text has no digit or dot; otherwise it is a non-empty run of them with none before it and none right after it (leftmost and maximal) |
| Decoders.ToPx | src/lib/codec/decoders.ts:85-92 | a missing or empty value gives null; any value given is non-negative |
| Decoders.ToPxOfNumeral | src/lib/codec/decoders.ts:85-92 | a whole number of pixels, with or without a unit suffix, reads back as itself |
| Decoders.ViewBoxSide | src/lib/codec/decoders.ts:100-101 | a `viewBox` side is absent exactly when the part does not parse; otherwise it is at least 1, within half of the part when above 1, and 1 only for parts below 1.5, which pins it to max(1, round(part)) (`Size.ClampedRoundIsUnique`) |
| Decoders.ViewBoxParts | src/lib/codec/decoders.ts:97-99 | a `viewBox` is usable exactly when it is non-empty and its trimmed text splits at white space into four parts, and then it gives four numbers |
| Decoders.ViewBoxOfFourPieces | src/lib/codec/decoders.ts:97-99 | four white-space-free pieces joined by single spaces give the four numbers `parseFloat` reads from the pieces, in order |
| Decoders.FourPiecesSplit | src/lib/codec/decoders.ts:98 | four white-space-free pieces joined by single spaces split back into those pieces |
| Builtins.Trim | src/lib/codec/decoders.ts:98 | the trimmed text has no white space at either end and is a slice of the input with only white space around it |
| Builtins.SplitAtSpace | src/lib/codec/decoders.ts:98 | splitting a white-space-free piece, a space and the rest gives the piece followed by the pieces of the rest |
| Decoders.ParseSvgSize | src/lib/codec/decoders.ts:77-116 | both sides are positive; an unparsable document gives 512×512 |
| Decoders.AttributesTakePriority | src/lib/codec/decoders.ts:94-96 | width and height attributes that both resolve decide the size, whatever the `viewBox` |
| Decoders.ViewBoxFillsMissingSides | src/lib/codec/decoders.ts:96-106 | a four-part `viewBox` fills only the sides the attributes leave open, each at least 1 |
| Decoders.UnresolvedFallsBack | src/lib/codec/decoders.ts:107-111 | an open side with no usable `viewBox` gives 512×512 |
| Decoders.UnparsableViewBoxFallsBack | src/lib/codec/decoders.ts:100-111 | an unparsable `viewBox` size on an open side gives 512×512 |
| Export.MaxBytes | src/lib/hooks/useConverter.ts:83 | the byte budget is at least 1 and within half a byte of maxKB·1024 |
| Export.Narrow | src/lib/hooks/useConverter.ts:104-109 | as written a fit moves the window below the midpoint and a miss above it; the intended narrowing does the opposite |
| Export.ExportWithBudget | src/lib/hooks/useConverter.ts:89-115 | the export loop returns what `ExportPlan` specifies and encodes at exactly the qualities `EncodeCalls` lists |
| Export.StepKeepsProgress | src/lib/hooks/useConverter.ts:101-109 | a step whose encode succeeds leaves the outcome of the search unchanged and appends its midpoint to the qualities tried |
| Export.FailedStepEnds | src/lib/hooks/useConverter.ts:102-103 | an encode that fails at a midpoint ends the whole search with that failure, the midpoint being the last quality tried |
| Export.BisectQuality | src/lib/hooks/useConverter.ts:96-111 | the twelve-step loop keeps the candidate `Bisect` specifies (or its failure) and tries exactly the qualities `Trials` lists |
| Export.PngEncodesOnceAtFullQuality | src/lib/hooks/useConverter.ts:90-94 | PNG is encoded once, at quality 1, returned whatever its size and flagged exactly when over budget |
| Export.FittingProbeIsFinal | src/lib/hooks/useConverter.ts:99-113 | a probe within budget is returned and nothing else is encoded |
| Export.BisectRunsAllSteps | src/lib/hooks/useConverter.ts:101-110 | with an encoder that never fails, the search runs every remaining step |
| Export.OverBudgetProbeTakesThirteenEncodes | src/lib/hooks/useConverter.ts:99-110 | an over-budget probe is followed by exactly twelve encodes, thirteen in all |
| Export.BisectKeepsLastFitting | src/lib/hooks/useConverter.ts:101-110 | the kept candidate is the encoding at the last trial that fitted, else the one carried in |
| Export.ResultIsLastFittingCandidate | src/lib/hooks/useConverter.ts:104-111 | after an over-budget probe the result is the last fitting trial's encoding or the probe, so it fits the budget or is the probe |
| Export.LastFittingFits | src/lib/hooks/useConverter.ts:104-105 | a candidate kept by the search is within the budget |
| Export.ExportedBlobIsEncoderOutput | src/lib/hooks/useConverter.ts:89-115 | whatever holds of every encoder output holds of the exported blob |
| Export.StepMovesOneBound | src/lib/hooks/useConverter.ts:104-109 | one step strictly raises `low` or strictly lowers `high` and leaves the other alone |
| Export.WindowNeverWidens | src/lib/hooks/useConverter.ts:101-110 | across the steps `low` never decreases and `high` never increases |
| Export.TrialsNearWindow | src/lib/hooks/useConverter.ts:101-110 | every trial lies within one margin of the starting window |
| Export.TrialsStayNearRequest | src/lib/hooks/useConverter.ts:96-110 | the probe is at the requested quality and every trial lies in [0.28, quality + 0.02] |
| Export.WindowCanWidenBelowFloor | src/lib/hooks/useConverter.ts:96-108 | from quality 0.2 a fitting step raises `high` from 0.2 to 0.23 |
| Export.TrialCanExceedRequestedQuality | src/lib/hooks/useConverter.ts:96-108 | below quality 0.34, two misses make the next trial exceed the requested quality (0.31 from 0.3) |
| Export.AsWrittenMissesForever | src/lib/hooks/useConverter.ts:101-110 | as written, with a monotone encoder, once a midpoint misses every later one misses |
| Export.AsWrittenGivesUpAfterFirstMiss | src/lib/hooks/useConverter.ts:99-111 | as written, a first midpoint over budget makes the result the over-budget probe |
| Export.AsWrittenMissesReachableBudget | src/lib/hooks/useConverter.ts:104-109 | as written, a budget met at quality 0.3 is missed and the 200-byte probe returned |
| Export.IntendedFindsFit | src/lib/hooks/useConverter.ts:104-109 | the intended narrowing keeps a fitting candidate when quality 0.3 fits |
| Export.IntendedReachesReachableBudget | src/lib/hooks/useConverter.ts:96-111 | with the intended narrowing and a monotone encoder, a budget met by some quality in [0.3, quality] is met by the result |
| Export.IntendedMeetsReachableBudget | src/lib/hooks/useConverter.ts:96-111 | on the failing input the intended narrowing returns a blob within budget |
| Converter.FailureMessage | src/lib/hooks/useConverter.ts:122-124 | the error shown is never empty: the message, or "转换失败" when it is empty |
| Converter.ConvertOutcome | src/lib/hooks/useConverter.ts:55-115 | no context gives the no-context error; a failed read-back of the canvas sized to the requested width and height gives its error; an exported blob has the requested type, and the PNG flag means PNG over budget |
| Converter.RunConversion | src/lib/hooks/useConverter.ts:55-115 | drawing, reading back at the requested size and the export loop give exactly `ConvertOutcome` |
| Converter.OutcomeReadsRequestedSize | src/lib/hooks/useConverter.ts:60-82 | two canvases that read back the same pixels at the requested width and height give the same outcome |
| Converter.Converter.constructor | src/lib/hooks/useConverter.ts:32-37 | the hook starts idle, with no error, blob or URL |
| Converter.Converter.ClearOutput | src/lib/hooks/useConverter.ts:44-53 | blob, error and URLs cleared and processing off |
| Converter.Converter.Convert | src/lib/hooks/useConverter.ts:55-128 | processing ends off; a result is published with its URL and the PNG advice exactly when flagged; a failure leaves no output and its message or the default as error |
| Converter.AdviceOnlyForOversizedPng | src/lib/hooks/useConverter.ts:90-94 | a conversion that is not PNG over budget never carries the PNG advice |
| Controls.AfterWidthChange | src/components/Controls.tsx:37-44 | the width is stored; with keep-aspect, a bitmap and a number the height becomes max(1, round(v/aspect)), otherwise it is untouched |
| Controls.AfterHeightChange | src/components/Controls.tsx:46-53 | the height is stored; with keep-aspect, a bitmap and a number the width becomes max(1, round(v·aspect)), otherwise it is untouched |
| Controls.AfterToggle | src/components/Controls.tsx:89-100 | enabling with a bitmap relinks from a numeric width, else from a numeric height; disabling changes no side |
| Controls.WidthChangeIsIdempotent | src/components/Controls.tsx:37-44 | repeating a width edit changes nothing more |
| Controls.HeightChangeIsIdempotent | src/components/Controls.tsx:46-53 | repeating a height edit changes nothing more |
| Controls.LinkedHeightMatchesResolver | src/components/Controls.tsx:37-44 | a linked width edit stores the height the size resolver computes for that width |
| Controls.LinkedWidthMatchesResolver | src/components/Controls.tsx:46-53 | a linked height edit stores the width the size resolver computes for that height |
| Controls.ToggleOffOnRelinks | src/components/Controls.tsx:89-100 | toggling off then on ends where turning on directly does |
| Controls.SideFromInput | src/components/Controls.tsx:69 | an empty side input means auto; otherwise the `parseInt` reading, absent when that is NaN |
| Controls.SideOfNumeral | src/components/Controls.tsx:69 | a typed whole number is requested as itself |
| Controls.MaxKBFromInput | src/components/Controls.tsx:135 | an empty input counts as 1 and every stored value is at least 1 |
| Controls.MaxKBOfNumeral | src/components/Controls.tsx:135 | a typed whole number is stored as itself, 0 as 1 |
| Controls.DisplayedSize | src/components/Controls.tsx:105 | the page's resolved target when given, otherwise the resolver's result |
| Controls.Controls.constructor | src/components/Controls.tsx:30-35 | the component starts from the props it is given |
| Controls.Controls.HandleWidthChange | src/components/Controls.tsx:37-44 | the new requested size is the width-edit transition of the old one; the size limit is untouched |
| Controls.Controls.HandleHeightChange | src/components/Controls.tsx:46-53 | the new requested size is the height-edit transition of the old one; the size limit is untouched |
| Controls.Controls.ToggleKeepAspect | src/components/Controls.tsx:89-100 | the new requested size is the toggle transition of the old one |
| Controls.Controls.HandleMaxKBInput | src/components/Controls.tsx:135 | a number is stored clamped to at least 1; the requested size is untouched |
| Controls.Controls.Displayed | src/components/Controls.tsx:105 | the displayed size is the page's resolved target when given, otherwise the resolver's result for the current state |
| Page.ResolvedTarget | src/app/page.tsx:140-172 | the page's inline size rule equals `computeResolvedSize` on every input |
| Page.LoadedImageResolvesToItself | src/app/page.tsx:54-56 | a freshly loaded bitmap with both sides set to its size resolves to that size |
| Page.LastDot | src/app/page.tsx:442 | the last dot of a name, and none exactly when the name has no dot |
| Page.StripExtension | src/app/page.tsx:442 | the result is a prefix; a change removes a dot and a non-empty dot-free tail; no change means empty, a trailing dot or no dot |
| Page.StripExtensionOfAppended | src/app/page.tsx:442-445 | appending a dot and a non-empty dot-free extension, then stripping, gives the name back |
| Page.FirstIndexOfChar | src/app/page.tsx:443 | the first `/` of the type |
| Page.DownloadName | src/app/page.tsx:441-446 | the name (or `image`) without its extension, a dot, then the format's extension; for an output format, stripping the extension of the result gives the stem back, and the name ends in `.png`, `.jpg`, `.webp`, `.avif` or `.qoi` as the format is PNG, JPEG, WebP, AVIF or QOI |
| Page.SubtypeOfImageMime | src/app/page.tsx:443 | the subtype of `image/<sub>` is `sub` |
| Page.ImageSubtypeExtension | src/app/page.tsx:443-444 | for `image/<sub>` with a subtype not starting with `q`, the extension is the subtype with its first `jpeg` made `jpg` |
| Page.NoJpegLeftAlone | src/app/page.tsx:443 | a subtype without `jpeg` is kept as is |
| Page.ExtensionsOfOutputFormats | src/app/page.tsx:443-444 | the five formats download as `.png`, `.jpg`, `.webp`, `.avif` and `.qoi` |
| Page.ExtensionIsDotFree | src/app/page.tsx:443-444 | every output format's extension is non-empty and has no dot |
| Page.AcceptDrop | src/app/page.tsx:73 | only a file is taken, and every file with an `image/` type is |
| Page.DropNameCaseIsIgnored | src/app/page.tsx:73 | the name's letter case never changes the decision |
| Page.ListedExtensionIsTaken | src/app/page.tsx:73 | a name ending in a dot and a listed extension, in any case, is taken whatever its type |
| Page.UnlistedExtensionRefused | src/app/page.tsx:73 | a name whose text after its last dot is not a listed extension, in any case, is refused unless the type starts with `image/` |
| Page.DotlessNameNeedsImageType | src/app/page.tsx:73 | a name without a dot is taken exactly when the type starts with `image/` |
| Page.Page.constructor | src/app/page.tsx:10-27 | the page starts at its defaults: no file, auto sides, keep-aspect, 1024 KB, WebP, 0.85, slider 50 |
| Page.Page.ResetAll | src/app/page.tsx:86-107 | every setting and output is back at its default; the processing flag is untouched |
| Page.Page.SetWidthKeepingAspect | src/app/page.tsx:121-128 | the requested size follows the width-edit transition; nothing else changes |
| Page.Page.SetHeightKeepingAspect | src/app/page.tsx:130-137 | the requested size follows the height-edit transition; nothing else changes |
| Page.Page.SetKeepAspect | src/app/page.tsx:318-332 | the requested size follows the toggle transition; nothing else changes |
| Page.Page.SetMaxKB | src/app/page.tsx:367 | a number is stored clamped to at least 1; nothing else changes |
| Page.Page.Drop | src/app/page.tsx:70-76 | an accepted file replaces the current one, anything else is ignored; nothing else changes |
| Page.Page.LoadFile | src/app/page.tsx:42-63 | the error is cleared; a decoded bitmap becomes the source with both sides at its size; a failure reports "无法读取图片：" and its message or "未知错误"; file, output, settings, slider and processing flag are unchanged |
| Page.Page.Convert | src/app/page.tsx:175-262 | nothing without a bitmap; otherwise the outcome is `ConvertOutcome` at the resolved target size and settings, a result is published with the slider at 50, a failure leaves no output; processing ends off; file, source URL, bitmap, requested size, format, quality and size limit are unchanged |
| Page.Page.Publish | src/app/page.tsx:221-261 | an exported blob is shown under its URL with the slider at 50 and the PNG advice exactly when flagged; a failure shows its message or the default; processing ends off |

## Left out

- Canvas work (`OffscreenCanvas`, `drawImage`, `getImageData`, `createImageBitmap`, smoothing): whether a 2D context was obtained is the `hasContext` parameter of `Convert`, and the pixels read back from a canvas of a given width and height are the `readPixels` function parameter, applied to the requested size.
- The jSquash codecs and their dynamic imports: they are the function fields of `Codecs`, and the export controller sees an arbitrary encoder from quality to a blob or an error.
- The decode bodies of the raster and SVG decoders, `ensureSvgSize`, `DOMParser` and `XMLSerializer`: a decoder is its name and MIME list, and `ParseSvgSize` receives the root element's attribute values (`None` for a document that fails to parse).
- `loadImage`/`loadHtmlImage` and the SVG redraw branch of `convert`: folded into the `readPixels` parameter.
- Object URLs: a created URL is a parameter; revocation is not modelled. The closing of the previous bitmap in the file-load effect is not modelled either, so after a failed load the model keeps the old bitmap as a value where the page keeps a closed one.
- React plumbing: effects, the unmount cleanup, the drag-and-drop listener wiring, `pickFile`, `async`/`await` ordering. Each handler is a sequential method, and the file-load effect is `Page.Page.LoadFile`, with decoding and `createImageBitmap` as its `decoded` parameter.
- The format select and the quality slider: they assign the chosen value directly and hold no logic.
- IEEE-754: quality, aspect ratio and midpoints are exact rationals. There is no NaN, no Infinity and no rounding error in `mid ± 0.02`; `isFinite` in `toPx` always holds, and `parseFloat` never overflows.
- Page.Page.SetMaxKB: the source stores NaN when the input has no leading integer (`Math.max(1, NaN)` is NaN); the model keeps the previous value.
- Controls.Controls.HandleMaxKBInput: the same NaN case, handled the same way.
- Controls.SideFromInput: a NaN reading is `None`, not a stored NaN side.
- Case folding and `\s`: `toLowerCase` and the `/i` flag are modelled for ASCII letters only. White space is the ECMAScript WhiteSpace and LineTerminator set.
- `parseInt` with hexadecimal prefixes or a radix is not modelled.
- Builtins.ParseInt: its contract states only that blank text is NaN and that a leading digit gives a non-negative number. The full reading (sign, digit run) is in its body and pinned down for numerals by `ParseIntOfNumeral`.
- Decoders.ToPx: its contract states the null cases for missing or empty values and non-negativity only. The value for whole numbers with a unit is `ToPxOfNumeral`.
- Export.StepMovesOneBound: requires the window to be inverted by less than two margins. That always holds for a requested quality of at least 0.26. Below that the source's window can widen (`Export.WindowCanWidenBelowFloor`).
- Export.WindowNeverWidens: the same precondition, for the same reason.
- Export.TrialsStayNearRequest: stated for a requested quality of at least 0.26 (the quality slider's range is 0.3..0.95).
- Export.ExportWithBudget: the encoder calls are recorded in a ghost sequence rather than a counter.
- The visual before/after slider, layout, localisation, feedback and drop-hint components: UI with no decision logic.

## Findings

| source | as written | input that shows it | evidently intended | confidence | as-written member | corrected member |
|---|---|---|---|---|---|---|
| src/lib/hooks/useConverter.ts:104-109 | a midpoint within budget sets `high = mid − 0.02` and one over budget sets `low = mid + 0.02`, so after a miss the search moves toward higher quality and larger files | quality 0.85, budget 150 bytes, an encoder giving 100 bytes up to quality 0.4 and 200 above: the first midpoint 0.575 misses, every later one misses, and the 200-byte probe is returned although quality 0.3 gives 100 bytes | a fit raises `low` (try better quality) and a miss lowers `high`, so a budget reachable at a quality in [0.3, quality] is met | high; not executed | Export.AsWrittenMissesReachableBudget | Export.IntendedReachesReachableBudget |
| src/app/page.tsx:238-243 | the same inverted narrowing in the page's own copy of the search | the same input | the same correction | high; not executed | Export.AsWrittenMissesReachableBudget | Export.IntendedReachesReachableBudget |

The conversion methods (`Converter.Converter.Convert`, `Page.Page.Convert`) and `Converter.ConvertOutcome` use the corrected narrowing. The lemmas stated for both narrowings hold for each of them. Those lemmas cover PNG once, the final fitting probe, thirteen encodes, the last fitting candidate, and the window bounds.
