/**
 * Encoder dispatch: the output format tag selects a codec, the normalised
 * quality is mapped to that codec's own control, and the codec's bytes are
 * wrapped in a blob of the requested type. The codecs themselves are foreign
 * and appear as functions in `Codecs`.
 */
module Encoders {
  import opened Wrappers
  import opened Builtins

  newtype byte = x: int | 0 <= x < 256

  /** What a codec hands back: a `Uint8Array` view into a buffer, or a whole `ArrayBuffer`. */
  datatype EncodedBytes =
    | View(buffer: seq<byte>, byteOffset: nat, byteLength: nat)
    | Whole(buffer: seq<byte>)
  {
    /** A typed-array view always lies inside its buffer. */
    predicate WellFormed()
    {
      View? ==> byteOffset + byteLength <= |buffer|
    }
  }

  type CodecOutput = e: EncodedBytes | e.WellFormed() witness Whole([])

  datatype Blob = Blob(bytes: seq<byte>, mimeType: string)
  {
    function Size(): nat { |bytes| }
  }

  /** The RGBA pixels handed to the encoders. */
  datatype ImageData = ImageData(width: nat, height: nat, data: seq<byte>)

  /** The five WASM codecs: lossy ones take their native control, the lossless ones take none. */
  datatype Codecs = Codecs(
    webp: (ImageData, int) -> Result<CodecOutput, string>,
    jpeg: (ImageData, int) -> Result<CodecOutput, string>,
    avif: (ImageData, int) -> Result<CodecOutput, string>,
    png: ImageData -> Result<CodecOutput, string>,
    qoi: ImageData -> Result<CodecOutput, string>)

  const PngMime: string := "image/png"
  const JpegMime: string := "image/jpeg"
  const WebpMime: string := "image/webp"
  const AvifMime: string := "image/avif"
  const QoiMime: string := "image/qoi"

  predicate IsOutputFormat(mime: string)
  {
    mime == PngMime || mime == JpegMime || mime == WebpMime || mime == AvifMime || mime == QoiMime
  }

  /** `bytesToBlob`: a view contributes exactly its slice of the buffer, a whole buffer all of it. */
  function BytesToBlob(bytes: CodecOutput, mime: string): (b: Blob)
    ensures b.mimeType == mime
    ensures bytes.View? ==> b.Size() == bytes.byteLength
    ensures bytes.View? ==> forall i :: 0 <= i < bytes.byteLength ==> b.bytes[i] == bytes.buffer[bytes.byteOffset + i]
    ensures bytes.Whole? ==> b.bytes == bytes.buffer
  {
    match bytes
    case View(buffer, offset, length) => Blob(buffer[offset..offset + length], mime)
    case Whole(buffer) => Blob(buffer, mime)
  }

  /** The 1..100 quality of the WebP and JPEG codecs: the nearest integer to 100·q, clamped. */
  function Quality100(q: real): (r: int)
    ensures 1 <= r <= 100
    ensures 0.005 <= q <= 1.0 ==> -0.5 < r as real - 100.0 * q <= 0.5
  {
    Max(1, Min(100, Round(q * 100.0)))
  }

  /** The 0..63 `cqLevel` of the AVIF codec, where lower means better: the nearest integer to 63·(1 − q), clamped. */
  function CqLevel(q: real): (r: int)
    ensures 0 <= r <= 63
    ensures 0.0 <= q <= 1.0 ==> -0.5 < r as real - 63.0 * (1.0 - q) <= 0.5
  {
    Max(0, Min(63, Round((1.0 - q) * 63.0)))
  }

  /** Higher quality never lowers the WebP/JPEG quality. */
  lemma Quality100Monotone(q1: real, q2: real)
    requires q1 <= q2
    ensures Quality100(q1) <= Quality100(q2)
  {
    RoundMonotone(q1 * 100.0, q2 * 100.0);
  }

  /** Higher quality never raises the AVIF level: the mapping is inverted. */
  lemma CqLevelAntitone(q1: real, q2: real)
    requires q1 <= q2
    ensures CqLevel(q1) >= CqLevel(q2)
  {
    RoundMonotone((1.0 - q2) * 63.0, (1.0 - q1) * 63.0);
  }

  function Wrap(r: Result<CodecOutput, string>, mime: string): (b: Result<Blob, string>)
    ensures b.Success? <==> r.Success?
    ensures b.Success? ==> b.value.mimeType == mime
  {
    match r
    case Success(bytes) => Success(BytesToBlob(bytes, mime))
    case Failure(e) => Failure(e)
  }

  /** `encodeImage`: dispatch on the format tag; anything but the five supported tags is refused. */
  function EncodeImage(codecs: Codecs, image: ImageData, mime: string, quality: real): (r: Result<Blob, string>)
    ensures r.Success? ==> r.value.mimeType == mime
    ensures !IsOutputFormat(mime) ==> r == Failure("Unsupported output format: " + mime)
  {
    var q100 := Quality100(quality);
    if mime == WebpMime then Wrap(codecs.webp(image, q100), mime)
    else if mime == JpegMime then Wrap(codecs.jpeg(image, q100), mime)
    else if mime == AvifMime then Wrap(codecs.avif(image, CqLevel(quality)), mime)
    else if mime == PngMime then Wrap(codecs.png(image), mime)
    else if mime == QoiMime then Wrap(codecs.qoi(image), mime)
    else Failure("Unsupported output format: " + mime)
  }

  /** PNG and QOI output does not depend on the quality asked for. */
  lemma LosslessIgnoresQuality(codecs: Codecs, image: ImageData, mime: string, q1: real, q2: real)
    requires mime == PngMime || mime == QoiMime
    ensures EncodeImage(codecs, image, mime, q1) == EncodeImage(codecs, image, mime, q2)
  {
  }

  /** Two qualities that map to the same codec control give the same blob, for every format. */
  lemma SameControlSameBlob(codecs: Codecs, image: ImageData, mime: string, q1: real, q2: real)
    requires Quality100(q1) == Quality100(q2) && CqLevel(q1) == CqLevel(q2)
    ensures EncodeImage(codecs, image, mime, q1) == EncodeImage(codecs, image, mime, q2)
  {
  }

  /** The encoder `exportOnce` calls: one image, one format, quality as the only argument. */
  function EncoderFor(codecs: Codecs, image: ImageData, mime: string): real -> Result<Blob, string>
  {
    q => EncodeImage(codecs, image, mime, q)
  }
}
