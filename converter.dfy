/**
 * The converter hook: its state (processing flag, error, output blob and
 * URL, and the last URL handed out) and the two operations that change it,
 * `convert` and `clearOutput`. Drawing onto the canvas is foreign: whether a
 * 2D context was obtained and the pixels read back are parameters, as is the
 * object URL the browser would create.
 */
module Converter {
  import opened Wrappers
  import opened Encoders
  import opened Export

  /** What `convert` is called with, less the bitmap, file and source URL that only feed the canvas. */
  datatype ConvertParams = ConvertParams(width: int, height: int, format: string, quality: real, maxKB: real)

  const NoContextMessage: string := "无法创建绘图上下文"
  const DefaultFailureMessage: string := "转换失败"
  const PngAdvice: string := "PNG 无法通过质量参数压缩到指定大小，请尝试 JPEG/WebP/AVIF。"

  /** The error shown for a failure: its message, or the default one when the message is empty. */
  function FailureMessage(message: string): (r: string)
    ensures r != []
    ensures message != [] ==> r == message
    ensures message == [] ==> r == DefaultFailureMessage
  {
    if message == [] then DefaultFailureMessage else message
  }

  /**
   * What a conversion produces: the no-context failure, a failure while
   * reading back the pixels of the canvas sized to the requested width and
   * height, or the export controller's result on those pixels for the
   * requested format, quality and byte budget.
   */
  function ConvertOutcome(p: ConvertParams, codecs: Codecs, hasContext: bool, readPixels: (int, int) -> Result<ImageData, string>): (r: ExportResult)
    ensures !hasContext ==> r == EncodeFailed(NoContextMessage)
    ensures hasContext && readPixels(p.width, p.height).Failure? ==> r == EncodeFailed(readPixels(p.width, p.height).error)
    ensures r.Exported? ==> r.blob.mimeType == p.format
    ensures r.Exported? && r.pngOverBudget ==> p.format == PngMime && r.blob.Size() > MaxBytes(p.maxKB)
  {
    if !hasContext then EncodeFailed(NoContextMessage)
    else
      match readPixels(p.width, p.height)
      case Failure(e) => EncodeFailed(e)
      case Success(image) =>
        var enc := EncoderFor(codecs, image, p.format);
        ExportedBlobIsEncoderOutput(Intended, enc, p.format, p.quality, MaxBytes(p.maxKB), (b: Blob) => b.mimeType == p.format);
        ExportPlan(Intended, enc, p.format, p.quality, MaxBytes(p.maxKB))
  }

  /** Draws, reads the pixels back at the requested size and runs the export controller on them. */
  method RunConversion(p: ConvertParams, codecs: Codecs, hasContext: bool, readPixels: (int, int) -> Result<ImageData, string>)
    returns (outcome: ExportResult)
    ensures outcome == ConvertOutcome(p, codecs, hasContext, readPixels)
  {
    if !hasContext {
      outcome := EncodeFailed(NoContextMessage);
    } else {
      var pixels := readPixels(p.width, p.height);
      if pixels.Failure? {
        outcome := EncodeFailed(pixels.error);
      } else {
        var maxBytes := MaxBytes(p.maxKB);
        ghost var calls;
        outcome, calls := ExportWithBudget(Intended, EncoderFor(codecs, pixels.value, p.format), p.format, p.quality, maxBytes);
      }
    }
  }

  class Converter {
    var processing: bool
    var error: Option<string>
    var outBlob: Option<Blob>
    var outUrl: Option<string>
    /** The URL of the latest successful output, kept to be revoked later. */
    var lastUrl: Option<string>

    constructor ()
      ensures !processing && error == None && outBlob == None && outUrl == None && lastUrl == None
    {
      processing := false;
      error := None;
      outBlob := None;
      outUrl := None;
      lastUrl := None;
    }

    /** `clearOutput`: no blob, no error, no URL, not processing. */
    method ClearOutput()
      modifies this
      ensures outBlob == None && error == None && outUrl == None && lastUrl == None && !processing
    {
      outBlob := None;
      error := None;
      processing := false;
      outUrl := None;
      lastUrl := None;
    }

    /**
     * `convert`: clears the previous output, runs the export and publishes
     * the blob under `url`, with the PNG advice as error when PNG output is
     * over budget; a failure leaves no output and its message (or the
     * default) as error. Processing is off again on every path.
     */
    method Convert(p: ConvertParams, codecs: Codecs, hasContext: bool, readPixels: (int, int) -> Result<ImageData, string>, url: string)
      modifies this
      ensures !processing
      ensures ConvertOutcome(p, codecs, hasContext, readPixels).Exported? ==>
        var b := ConvertOutcome(p, codecs, hasContext, readPixels).blob;
        && outBlob == Some(b) && outUrl == Some(url) && lastUrl == Some(url)
        && error == (if ConvertOutcome(p, codecs, hasContext, readPixels).pngOverBudget then Some(PngAdvice) else None)
      ensures ConvertOutcome(p, codecs, hasContext, readPixels).EncodeFailed? ==>
        && outBlob == None && outUrl == None && lastUrl == old(lastUrl)
        && error == Some(FailureMessage(ConvertOutcome(p, codecs, hasContext, readPixels).message))
    {
      processing := true;
      error := None;
      outBlob := None;
      outUrl := None;
      var outcome := RunConversion(p, codecs, hasContext, readPixels);
      match outcome {
        case Exported(blob, overBudget) =>
          if overBudget {
            error := Some(PngAdvice);
          }
          outBlob := Some(blob);
          lastUrl := Some(url);
          outUrl := Some(url);
        case EncodeFailed(message) =>
          error := Some(FailureMessage(message));
      }
      processing := false;
    }
  }

  /** A conversion to PNG within budget, or to any other format, never leaves the PNG advice. */
  lemma AdviceOnlyForOversizedPng(p: ConvertParams, codecs: Codecs, hasContext: bool, readPixels: (int, int) -> Result<ImageData, string>)
    requires ConvertOutcome(p, codecs, hasContext, readPixels).Exported?
    requires p.format != PngMime || ConvertOutcome(p, codecs, hasContext, readPixels).blob.Size() <= MaxBytes(p.maxKB)
    ensures !ConvertOutcome(p, codecs, hasContext, readPixels).pngOverBudget
  {
  }

  /** Only the pixels read back at the requested width and height decide the outcome. */
  lemma OutcomeReadsRequestedSize(p: ConvertParams, codecs: Codecs, hasContext: bool,
                                  read1: (int, int) -> Result<ImageData, string>, read2: (int, int) -> Result<ImageData, string>)
    requires read1(p.width, p.height) == read2(p.width, p.height)
    ensures ConvertOutcome(p, codecs, hasContext, read1) == ConvertOutcome(p, codecs, hasContext, read2)
  {
  }
}
