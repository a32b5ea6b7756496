/**
 * The quality-constrained export controller shared by the converter hook and
 * the page: PNG is encoded once; every other format is probed at the
 * requested quality and, when the probe is over budget, searched by twelve
 * bisection steps with a 0.02 margin on each side of the midpoint.
 *
 * The encoder is any function from quality to an encoding outcome. The
 * search is written once, parametrised by how it narrows the window:
 * `AsWritten` is the source's narrowing, `Intended` the one its comments and
 * design describe (see the findings in README.md).
 */
module Export {
  import opened Wrappers
  import opened Builtins
  import opened Encoders

  type Encoder = real -> Result<Blob, string>

  /** Lower end of the search window. */
  const LowStart: real := 0.3
  /** The step taken past the midpoint on each move. */
  const Margin: real := 0.02
  /** Number of bisection steps after an over-budget probe. */
  const Iterations: nat := 12

  /** The byte budget: `max(1, round(maxKB · 1024))`. */
  function MaxBytes(maxKB: real): (r: int)
    ensures r >= 1
    ensures maxKB * 1024.0 >= 0.5 ==> -0.5 < r as real - maxKB * 1024.0 <= 0.5
  {
    Max(1, Round(maxKB * 1024.0))
  }

  datatype Policy = AsWritten | Intended

  /** The search state: the window, the latest candidate under budget and the number of steps left. */
  datatype Search = Search(low: real, high: real, best: Option<Blob>, left: nat)

  /** What the controller hands back: a blob (with the PNG over-budget flag) or the message of a failed encode. */
  datatype ExportResult = Exported(blob: Blob, pngOverBudget: bool) | EncodeFailed(message: string)

  /** Encoding at `q` succeeds within the budget. */
  predicate Fits(enc: Encoder, maxBytes: int, q: real)
  {
    enc(q).Success? && enc(q).value.Size() <= maxBytes
  }

  ghost predicate NeverFails(enc: Encoder)
  {
    forall q :: enc(q).Success?
  }

  /** Higher quality never yields a smaller encoding. */
  ghost predicate SizeMonotone(enc: Encoder)
  {
    forall q1, q2 :: q1 <= q2 && enc(q1).Success? && enc(q2).Success? ==> enc(q1).value.Size() <= enc(q2).value.Size()
  }

  function Mid(s: Search): real
  {
    (s.low + s.high) / 2.0
  }

  /**
   * The new window after trying `mid`. As written, a fit moves the search
   * below `mid` and a miss above it; the intended narrowing does the opposite.
   */
  function Narrow(policy: Policy, low: real, high: real, mid: real, fits: bool): (w: (real, real))
    ensures policy.AsWritten? && fits ==> w.0 == low && w.1 < mid
    ensures policy.AsWritten? && !fits ==> w.0 > mid && w.1 == high
    ensures policy.Intended? && fits ==> w.0 > mid && w.1 == high
    ensures policy.Intended? && !fits ==> w.0 == low && w.1 < mid
  {
    match policy
    case AsWritten => if fits then (low, mid - Margin) else (mid + Margin, high)
    case Intended => if fits then (mid + Margin, high) else (low, mid - Margin)
  }

  /** One bisection step: encode at the midpoint, keep it if it fits, narrow the window. */
  function Step(policy: Policy, enc: Encoder, maxBytes: int, s: Search): Result<Search, string>
    requires s.left > 0
  {
    var mid := Mid(s);
    match enc(mid)
    case Failure(e) => Failure(e)
    case Success(b) =>
      var fits := b.Size() <= maxBytes;
      var w := Narrow(policy, s.low, s.high, mid, fits);
      Success(Search(w.0, w.1, if fits then Some(b) else s.best, s.left - 1))
  }

  /** The remaining bisection steps; a failed encode ends the search. */
  function Bisect(policy: Policy, enc: Encoder, maxBytes: int, s: Search): Result<Search, string>
    decreases s.left
  {
    if s.left == 0 then Success(s)
    else
      match Step(policy, enc, maxBytes, s)
      case Failure(e) => Failure(e)
      case Success(s') => Bisect(policy, enc, maxBytes, s')
  }

  /** The qualities `Bisect` encodes at, in order. */
  function Trials(policy: Policy, enc: Encoder, maxBytes: int, s: Search): seq<real>
    decreases s.left
  {
    if s.left == 0 then []
    else
      [Mid(s)] +
      match Step(policy, enc, maxBytes, s)
      case Failure(_) => []
      case Success(s') => Trials(policy, enc, maxBytes, s')
  }

  function SearchStart(quality: real): Search
  {
    Search(LowStart, quality, None, Iterations)
  }

  /** What the controller returns for a format, a requested quality and a budget. */
  function ExportPlan(policy: Policy, enc: Encoder, mime: string, quality: real, maxBytes: int): ExportResult
  {
    if mime == PngMime then
      match enc(1.0)
      case Failure(e) => EncodeFailed(e)
      case Success(b) => Exported(b, b.Size() > maxBytes)
    else
      match enc(quality)
      case Failure(e) => EncodeFailed(e)
      case Success(probe) =>
        if probe.Size() <= maxBytes then Exported(probe, false)
        else
          match Bisect(policy, enc, maxBytes, SearchStart(quality))
          case Failure(e) => EncodeFailed(e)
          case Success(s) => Exported(if s.best.Some? then s.best.value else probe, false)
  }

  /** The qualities the controller encodes at, in order. */
  function EncodeCalls(policy: Policy, enc: Encoder, mime: string, quality: real, maxBytes: int): seq<real>
  {
    if mime == PngMime then [1.0]
    else if enc(quality).Success? && enc(quality).value.Size() > maxBytes then
      [quality] + Trials(policy, enc, maxBytes, SearchStart(quality))
    else [quality]
  }

  /**
   * The export loop of `convert`: PNG once at quality 1; otherwise a probe at
   * the requested quality and, if it is over budget, the bisection.
   * `calls` records every quality the encoder was called with.
   */
  method ExportWithBudget(policy: Policy, enc: Encoder, mime: string, quality: real, maxBytes: int)
    returns (r: ExportResult, ghost calls: seq<real>)
    ensures r == ExportPlan(policy, enc, mime, quality, maxBytes)
    ensures calls == EncodeCalls(policy, enc, mime, quality, maxBytes)
  {
    if mime == PngMime {
      var png := enc(1.0);
      calls := [1.0];
      match png {
        case Failure(e) => r := EncodeFailed(e);
        case Success(b) => r := Exported(b, b.Size() > maxBytes);
      }
      return;
    }
    var test := enc(quality);
    calls := [quality];
    if test.Failure? {
      r := EncodeFailed(test.error);
    } else if test.value.Size() > maxBytes {
      var search, trials := BisectQuality(policy, enc, maxBytes, quality);
      calls := calls + trials;
      match search {
        case Failure(e) => r := EncodeFailed(e);
        case Success(best) => r := Exported(if best.Some? then best.value else test.value, false);
      }
    } else {
      r := Exported(test.value, false);
    }
  }

  /**
   * Twelve bisection steps over [0.3, quality], each trying the midpoint and
   * stepping a margin past it; the result is the candidate kept, or the
   * message of a failed encode. `trials` records the qualities tried.
   */
  method BisectQuality(policy: Policy, enc: Encoder, maxBytes: int, quality: real)
    returns (r: Result<Option<Blob>, string>, ghost trials: seq<real>)
    ensures Bisect(policy, enc, maxBytes, SearchStart(quality)).Success? <==> r.Success?
    ensures r.Success? ==> r.value == Bisect(policy, enc, maxBytes, SearchStart(quality)).value.best
    ensures r.Failure? ==> r.error == Bisect(policy, enc, maxBytes, SearchStart(quality)).error
    ensures trials == Trials(policy, enc, maxBytes, SearchStart(quality))
  {
    var low, high := LowStart, quality;
    var best: Option<Blob> := None;
    ghost var start := SearchStart(quality);
    trials := [];
    var i := 0;
    while i < Iterations
      invariant 0 <= i <= Iterations
      invariant Progress(policy, enc, maxBytes, start, Search(low, high, best, Iterations - i), trials)
    {
      ghost var cur := Search(low, high, best, Iterations - i);
      ghost var before := trials;
      var mid := (low + high) / 2.0;
      var b := enc(mid);
      trials := trials + [mid];
      if b.Failure? {
        FailedStepEnds(policy, enc, maxBytes, start, cur, before);
        return Failure(b.error), trials;
      }
      var fits := b.value.Size() <= maxBytes;
      if fits {
        best := Some(b.value);
      }
      var window := Narrow(policy, low, high, mid, fits);
      low, high := window.0, window.1;
      StepKeepsProgress(policy, enc, maxBytes, start, cur, Search(low, high, best, Iterations - i - 1), before);
      i := i + 1;
    }
    r := Success(best);
  }

  /**
   * The loop's bookkeeping: the search from `cur` ends as the one from
   * `start`, and `done` followed by the trials still to come are the trials
   * from `start`.
   */
  ghost predicate Progress(policy: Policy, enc: Encoder, maxBytes: int, start: Search, cur: Search, done: seq<real>)
  {
    && Bisect(policy, enc, maxBytes, start) == Bisect(policy, enc, maxBytes, cur)
    && done + Trials(policy, enc, maxBytes, cur) == Trials(policy, enc, maxBytes, start)
  }

  /** A successful step from `cur` to `next` keeps the bookkeeping, with the midpoint recorded. */
  lemma StepKeepsProgress(policy: Policy, enc: Encoder, maxBytes: int, start: Search, cur: Search, next: Search, done: seq<real>)
    requires Progress(policy, enc, maxBytes, start, cur, done)
    requires cur.left > 0 && enc(Mid(cur)).Success?
    requires var fits := enc(Mid(cur)).value.Size() <= maxBytes;
      && (next.low, next.high) == Narrow(policy, cur.low, cur.high, Mid(cur), fits)
      && next.best == (if fits then Some(enc(Mid(cur)).value) else cur.best)
      && next.left == cur.left - 1
    ensures Progress(policy, enc, maxBytes, start, next, done + [Mid(cur)])
  {
    assert Step(policy, enc, maxBytes, cur) == Success(next);
    assert Trials(policy, enc, maxBytes, cur) == [Mid(cur)] + Trials(policy, enc, maxBytes, next);
    assert done + [Mid(cur)] + Trials(policy, enc, maxBytes, next) == done + Trials(policy, enc, maxBytes, cur);
  }

  /** A failed encode at the midpoint of `cur` ends the whole search with its message, that midpoint the last trial. */
  lemma FailedStepEnds(policy: Policy, enc: Encoder, maxBytes: int, start: Search, cur: Search, done: seq<real>)
    requires Progress(policy, enc, maxBytes, start, cur, done)
    requires cur.left > 0 && enc(Mid(cur)).Failure?
    ensures Bisect(policy, enc, maxBytes, start) == Failure(enc(Mid(cur)).error)
    ensures Trials(policy, enc, maxBytes, start) == done + [Mid(cur)]
  {
  }

  /** One unfolding of `Bisect` and `Trials`. */
  lemma StepUnfolds(policy: Policy, enc: Encoder, maxBytes: int, s: Search)
    requires s.left > 0
    ensures enc(Mid(s)).Failure? ==>
      && Bisect(policy, enc, maxBytes, s) == Failure(enc(Mid(s)).error)
      && Trials(policy, enc, maxBytes, s) == [Mid(s)]
    ensures enc(Mid(s)).Success? ==>
      && Step(policy, enc, maxBytes, s).Success?
      && Bisect(policy, enc, maxBytes, s) == Bisect(policy, enc, maxBytes, Step(policy, enc, maxBytes, s).value)
      && Trials(policy, enc, maxBytes, s) == [Mid(s)] + Trials(policy, enc, maxBytes, Step(policy, enc, maxBytes, s).value)
  {
  }

  // ----- what the plan promises, for either narrowing -----

  /** PNG: one encode, at quality 1, returned whatever its size, flagged exactly when over budget. */
  lemma PngEncodesOnceAtFullQuality(policy: Policy, enc: Encoder, quality: real, maxBytes: int)
    ensures EncodeCalls(policy, enc, PngMime, quality, maxBytes) == [1.0]
    ensures enc(1.0).Success? ==>
      ExportPlan(policy, enc, PngMime, quality, maxBytes) == Exported(enc(1.0).value, enc(1.0).value.Size() > maxBytes)
  {
  }

  /** A probe within budget is the answer, and nothing else is encoded. */
  lemma FittingProbeIsFinal(policy: Policy, enc: Encoder, mime: string, quality: real, maxBytes: int)
    requires mime != PngMime && Fits(enc, maxBytes, quality)
    ensures ExportPlan(policy, enc, mime, quality, maxBytes) == Exported(enc(quality).value, false)
    ensures EncodeCalls(policy, enc, mime, quality, maxBytes) == [quality]
  {
  }

  lemma {:induction false} BisectRunsAllSteps(policy: Policy, enc: Encoder, maxBytes: int, s: Search)
    requires NeverFails(enc)
    ensures Bisect(policy, enc, maxBytes, s).Success?
    ensures |Trials(policy, enc, maxBytes, s)| == s.left
    decreases s.left
  {
    if s.left > 0 {
      assert enc(Mid(s)).Success?;
      BisectRunsAllSteps(policy, enc, maxBytes, Step(policy, enc, maxBytes, s).value);
    }
  }

  /** An over-budget probe is followed by exactly twelve more encodes: thirteen in all. */
  lemma OverBudgetProbeTakesThirteenEncodes(policy: Policy, enc: Encoder, mime: string, quality: real, maxBytes: int)
    requires mime != PngMime && NeverFails(enc)
    requires enc(quality).value.Size() > maxBytes
    ensures |EncodeCalls(policy, enc, mime, quality, maxBytes)| == 13
    ensures EncodeCalls(policy, enc, mime, quality, maxBytes)[0] == quality
    ensures ExportPlan(policy, enc, mime, quality, maxBytes).Exported?
  {
    BisectRunsAllSteps(policy, enc, maxBytes, SearchStart(quality));
  }

  /** Reference definition: the encoding at the last quality in `qs` that fits, if any. */
  function LastFitting(enc: Encoder, maxBytes: int, qs: seq<real>): Option<Blob>
  {
    if qs == [] then None
    else if Fits(enc, maxBytes, qs[|qs| - 1]) then Some(enc(qs[|qs| - 1]).value)
    else LastFitting(enc, maxBytes, qs[..|qs| - 1])
  }

  lemma {:induction false} LastFittingPrepend(enc: Encoder, maxBytes: int, q: real, qs: seq<real>)
    ensures LastFitting(enc, maxBytes, [q] + qs)
         == LastFitting(enc, maxBytes, qs).OrElse(if Fits(enc, maxBytes, q) then Some(enc(q).value) else None)
  {
    if qs != [] {
      assert ([q] + qs)[..|qs|] == [q] + qs[..|qs| - 1];
      LastFittingPrepend(enc, maxBytes, q, qs[..|qs| - 1]);
    }
  }

  /** The candidate `Bisect` keeps is the last trial that fitted, else the one it started with. */
  lemma {:induction false} BisectKeepsLastFitting(policy: Policy, enc: Encoder, maxBytes: int, s: Search)
    requires Bisect(policy, enc, maxBytes, s).Success?
    ensures Bisect(policy, enc, maxBytes, s).value.best
         == LastFitting(enc, maxBytes, Trials(policy, enc, maxBytes, s)).OrElse(s.best)
    decreases s.left
  {
    if s.left > 0 {
      var s1 := Step(policy, enc, maxBytes, s).value;
      BisectKeepsLastFitting(policy, enc, maxBytes, s1);
      LastFittingPrepend(enc, maxBytes, Mid(s), Trials(policy, enc, maxBytes, s1));
    }
  }

  /**
   * After an over-budget probe the result is the encoding at the last trial
   * quality that fitted the budget, or the probe itself when none did.
   */
  lemma ResultIsLastFittingCandidate(policy: Policy, enc: Encoder, mime: string, quality: real, maxBytes: int)
    requires mime != PngMime && enc(quality).Success? && enc(quality).value.Size() > maxBytes
    requires ExportPlan(policy, enc, mime, quality, maxBytes).Exported?
    ensures var trials := EncodeCalls(policy, enc, mime, quality, maxBytes)[1..];
      ExportPlan(policy, enc, mime, quality, maxBytes).blob
        == LastFitting(enc, maxBytes, trials).OrElse(Some(enc(quality).value)).value
    ensures ExportPlan(policy, enc, mime, quality, maxBytes).blob.Size() <= maxBytes
        || ExportPlan(policy, enc, mime, quality, maxBytes).blob == enc(quality).value
  {
    var start := SearchStart(quality);
    BisectKeepsLastFitting(policy, enc, maxBytes, start);
    LastFittingFits(enc, maxBytes, Trials(policy, enc, maxBytes, start));
  }

  lemma {:induction false} LastFittingFits(enc: Encoder, maxBytes: int, qs: seq<real>)
    ensures LastFitting(enc, maxBytes, qs).Some? ==> LastFitting(enc, maxBytes, qs).value.Size() <= maxBytes
  {
    if qs != [] && !Fits(enc, maxBytes, qs[|qs| - 1]) {
      LastFittingFits(enc, maxBytes, qs[..|qs| - 1]);
    }
  }

  lemma {:induction false} LastFittingSatisfies(enc: Encoder, maxBytes: int, qs: seq<real>, P: Blob -> bool)
    requires forall q :: enc(q).Success? ==> P(enc(q).value)
    ensures LastFitting(enc, maxBytes, qs).Some? ==> P(LastFitting(enc, maxBytes, qs).value)
  {
    if qs != [] && !Fits(enc, maxBytes, qs[|qs| - 1]) {
      LastFittingSatisfies(enc, maxBytes, qs[..|qs| - 1], P);
    }
  }

  /**
   * Every exported blob is one the encoder produced: whatever holds of all
   * the encoder's outputs (their MIME type, say) holds of the result.
   */
  lemma ExportedBlobIsEncoderOutput(policy: Policy, enc: Encoder, mime: string, quality: real, maxBytes: int, P: Blob -> bool)
    requires forall q :: enc(q).Success? ==> P(enc(q).value)
    ensures ExportPlan(policy, enc, mime, quality, maxBytes).Exported? ==> P(ExportPlan(policy, enc, mime, quality, maxBytes).blob)
  {
    if mime != PngMime && enc(quality).Success? && enc(quality).value.Size() > maxBytes
      && ExportPlan(policy, enc, mime, quality, maxBytes).Exported? {
      var start := SearchStart(quality);
      BisectKeepsLastFitting(policy, enc, maxBytes, start);
      LastFittingSatisfies(enc, maxBytes, Trials(policy, enc, maxBytes, start), P);
    }
  }

  /**
   * While the window is not inverted by more than the two margins, one step
   * raises `low` or lowers `high`, strictly, and leaves the other alone.
   */
  lemma StepMovesOneBound(policy: Policy, enc: Encoder, maxBytes: int, s: Search)
    requires s.left > 0 && s.high - s.low > -2.0 * Margin
    requires Step(policy, enc, maxBytes, s).Success?
    ensures var s' := Step(policy, enc, maxBytes, s).value;
      && s'.high - s'.low > -2.0 * Margin
      && ((s'.low > s.low && s'.high == s.high) || (s'.low == s.low && s'.high < s.high))
  {
  }

  /** Across all steps `low` never decreases and `high` never increases. */
  lemma {:induction false} WindowNeverWidens(policy: Policy, enc: Encoder, maxBytes: int, s: Search)
    requires s.high - s.low >= -2.0 * Margin
    requires Bisect(policy, enc, maxBytes, s).Success?
    ensures var f := Bisect(policy, enc, maxBytes, s).value;
      f.low >= s.low && f.high <= s.high && f.high - f.low >= -2.0 * Margin
    decreases s.left
  {
    if s.left > 0 {
      var s1 := Step(policy, enc, maxBytes, s).value;
      assert s1.low >= s.low && s1.high <= s.high && s1.high - s1.low >= -2.0 * Margin;
      WindowNeverWidens(policy, enc, maxBytes, s1);
    }
  }

  /** Every trial quality lies within one margin of the starting window. */
  lemma {:induction false} TrialsNearWindow(policy: Policy, enc: Encoder, maxBytes: int, s: Search)
    requires s.high - s.low >= -2.0 * Margin
    ensures forall k :: 0 <= k < |Trials(policy, enc, maxBytes, s)| ==>
      s.low - Margin <= Trials(policy, enc, maxBytes, s)[k] <= s.high + Margin
    decreases s.left
  {
    if s.left > 0 {
      var st := Step(policy, enc, maxBytes, s);
      if st.Success? {
        var s1 := st.value;
        assert s1.low >= s.low && s1.high <= s.high && s1.high - s1.low >= -2.0 * Margin;
        TrialsNearWindow(policy, enc, maxBytes, s1);
      }
    }
  }

  /** From a requested quality of at least 0.26, every quality tried lies in [0.28, quality + 0.02]. */
  lemma TrialsStayNearRequest(policy: Policy, enc: Encoder, mime: string, quality: real, maxBytes: int)
    requires mime != PngMime && quality >= 0.26
    ensures EncodeCalls(policy, enc, mime, quality, maxBytes)[0] == quality
    ensures forall k :: 1 <= k < |EncodeCalls(policy, enc, mime, quality, maxBytes)| ==>
      0.28 <= EncodeCalls(policy, enc, mime, quality, maxBytes)[k] <= quality + 0.02
  {
    TrialsNearWindow(policy, enc, maxBytes, SearchStart(quality));
  }

  // ----- concrete encoders for the examples below -----

  function SizedBlob(n: nat): (b: Blob)
    ensures b.Size() == n
  {
    Blob(seq(n, _ => 0 as byte), WebpMime)
  }

  /** An encoder whose output is `small` bytes up to quality `threshold` and `large` bytes above it. */
  function ThresholdEncoder(threshold: real, small: nat, large: nat): Encoder
  {
    q => Success(SizedBlob(if q <= threshold then small else large))
  }

  lemma ThresholdEncoderAt(threshold: real, small: nat, large: nat, q: real)
    ensures ThresholdEncoder(threshold, small, large)(q) == Success(SizedBlob(if q <= threshold then small else large))
  {
  }

  lemma ThresholdEncoderIsMonotone(threshold: real, small: nat, large: nat)
    requires small <= large
    ensures NeverFails(ThresholdEncoder(threshold, small, large))
    ensures SizeMonotone(ThresholdEncoder(threshold, small, large))
  {
    var enc := ThresholdEncoder(threshold, small, large);
    forall q1, q2 | q1 <= q2
      ensures enc(q1).value.Size() <= enc(q2).value.Size()
    {
      assert enc(q1).value == SizedBlob(if q1 <= threshold then small else large);
      assert enc(q2).value == SizedBlob(if q2 <= threshold then small else large);
    }
  }

  /** Below 0.26 the window starts inverted and a fit moves `high` up: from 0.2 to 0.23. */
  lemma WindowCanWidenBelowFloor()
    ensures var s := SearchStart(0.2);
      var st := Step(AsWritten, ThresholdEncoder(1.0, 0, 0), 1, s);
      st.Success? && st.value.high == 0.23 && st.value.high > s.high
  {
  }

  /**
   * As written, from a requested quality below 0.34 whose probe and first
   * midpoint both miss, the second trial lies above the quality requested:
   * at 0.3 it is 0.31.
   */
  lemma TrialCanExceedRequestedQuality(enc: Encoder, mime: string, quality: real, maxBytes: int)
    requires mime != PngMime && quality < 0.34
    requires enc(quality).Success? && enc(quality).value.Size() > maxBytes
    requires enc(Mid(SearchStart(quality))).Success? && enc(Mid(SearchStart(quality))).value.Size() > maxBytes
    ensures var calls := EncodeCalls(AsWritten, enc, mime, quality, maxBytes);
      |calls| >= 3 && calls[2] == (3.0 * quality + 0.3) / 4.0 + 0.01 && calls[2] > quality
    ensures quality == 0.3 ==> EncodeCalls(AsWritten, enc, mime, quality, maxBytes)[2] == 0.31
  {
    var s0 := SearchStart(quality);
    StepUnfolds(AsWritten, enc, maxBytes, s0);
    var s1 := Step(AsWritten, enc, maxBytes, s0).value;
    assert s1 == Search(Mid(s0) + Margin, quality, None, Iterations - 1);
    StepUnfolds(AsWritten, enc, maxBytes, s1);
  }

  // ----- the narrowing as written misses budgets it could reach -----

  /** As written: once a midpoint misses, every later midpoint is at least as high, so it misses too. */
  lemma {:induction false} AsWrittenMissesForever(enc: Encoder, maxBytes: int, s: Search)
    requires NeverFails(enc) && SizeMonotone(enc)
    requires s.best.None? && s.high - s.low >= -2.0 * Margin && !Fits(enc, maxBytes, Mid(s))
    ensures Bisect(AsWritten, enc, maxBytes, s).Success?
    ensures Bisect(AsWritten, enc, maxBytes, s).value.best.None?
    decreases s.left
  {
    if s.left > 0 {
      var mid := Mid(s);
      assert enc(mid).Success?;
      var s1 := Step(AsWritten, enc, maxBytes, s).value;
      assert s1 == Search(mid + Margin, s.high, None, s.left - 1);
      assert Mid(s1) >= mid;
      assert enc(Mid(s1)).Success?;
      assert !Fits(enc, maxBytes, Mid(s1));
      AsWrittenMissesForever(enc, maxBytes, s1);
    }
  }

  /**
   * As written, with a monotone encoder: if the first midpoint is over budget
   * the search returns the over-budget probe, whatever lower qualities would give.
   */
  lemma AsWrittenGivesUpAfterFirstMiss(enc: Encoder, mime: string, quality: real, maxBytes: int)
    requires mime != PngMime && NeverFails(enc) && SizeMonotone(enc)
    requires quality >= 0.26
    requires !Fits(enc, maxBytes, quality) && !Fits(enc, maxBytes, Mid(SearchStart(quality)))
    ensures ExportPlan(AsWritten, enc, mime, quality, maxBytes) == Exported(enc(quality).value, false)
    ensures enc(quality).value.Size() > maxBytes
  {
    AsWrittenMissesForever(enc, maxBytes, SearchStart(quality));
  }

  /**
   * Quality 0.85, a 150-byte budget, and an encoder giving 100 bytes up to
   * quality 0.4 and 200 above: quality 0.3 fits, yet as written the 200-byte
   * probe is returned.
   */
  lemma AsWrittenMissesReachableBudget()
    ensures Fits(ThresholdEncoder(0.4, 100, 200), 150, 0.3)
    ensures ExportPlan(AsWritten, ThresholdEncoder(0.4, 100, 200), WebpMime, 0.85, 150) == Exported(SizedBlob(200), false)
  {
    ThresholdEncoderIsMonotone(0.4, 100, 200);
    ThresholdEncoderAt(0.4, 100, 200, 0.3);
    ThresholdEncoderAt(0.4, 100, 200, 0.575);
    ThresholdEncoderAt(0.4, 100, 200, 0.85);
    assert Mid(SearchStart(0.85)) == 0.575;
    AsWrittenGivesUpAfterFirstMiss(ThresholdEncoder(0.4, 100, 200), WebpMime, 0.85, 150);
  }

  // ----- the intended narrowing reaches every reachable budget -----

  /** An upper bound on `high` after `k` consecutive misses under the intended narrowing, from quality at most 1. */
  function HighBound(k: nat): real
  {
    if k == 0 then 1.0 else HighBound(k - 1) / 2.0 + 0.13
  }

  lemma HighBoundAfterFiveMisses()
    ensures HighBound(5) <= 0.3
  {
    assert HighBound(1) == 0.63;
    assert HighBound(2) == 0.445;
    assert HighBound(3) == 0.3525;
    assert HighBound(4) == 0.30625;
  }

  lemma {:induction false} IntendedFindsFit(enc: Encoder, maxBytes: int, s: Search, k: nat)
    requires NeverFails(enc) && SizeMonotone(enc) && Fits(enc, maxBytes, LowStart)
    requires s.best.Some? ==> s.best.value.Size() <= maxBytes
    requires s.best.None? ==> s.low == LowStart && s.high <= HighBound(k) && k <= 5 && k + s.left >= 6
    ensures Bisect(Intended, enc, maxBytes, s).Success?
    ensures Bisect(Intended, enc, maxBytes, s).value.best.Some?
    ensures Bisect(Intended, enc, maxBytes, s).value.best.value.Size() <= maxBytes
    decreases s.left
  {
    if s.left > 0 {
      var mid := Mid(s);
      assert enc(mid).Success?;
      if s.best.None? && k == 5 {
        HighBoundAfterFiveMisses();
        assert mid <= LowStart;
        assert Fits(enc, maxBytes, mid);
      }
      var s1 := Step(Intended, enc, maxBytes, s).value;
      IntendedFindsFit(enc, maxBytes, s1, k + 1);
    }
  }

  /**
   * With the intended narrowing and a monotone encoder, whenever some quality
   * in [0.3, quality] meets the budget (quality at most 1), so does the result.
   */
  lemma IntendedReachesReachableBudget(enc: Encoder, mime: string, quality: real, maxBytes: int, q0: real)
    requires mime != PngMime && NeverFails(enc) && SizeMonotone(enc)
    requires LowStart <= q0 <= quality <= 1.0 && Fits(enc, maxBytes, q0)
    ensures ExportPlan(Intended, enc, mime, quality, maxBytes).Exported?
    ensures ExportPlan(Intended, enc, mime, quality, maxBytes).blob.Size() <= maxBytes
  {
    assert enc(LowStart).Success?;
    assert Fits(enc, maxBytes, LowStart);
    if !Fits(enc, maxBytes, quality) {
      IntendedFindsFit(enc, maxBytes, SearchStart(quality), 0);
    }
  }

  /** On the input that defeats the narrowing as written, the intended one meets the budget. */
  lemma IntendedMeetsReachableBudget()
    ensures ExportPlan(Intended, ThresholdEncoder(0.4, 100, 200), WebpMime, 0.85, 150).blob.Size() <= 150
  {
    ThresholdEncoderIsMonotone(0.4, 100, 200);
    ThresholdEncoderAt(0.4, 100, 200, 0.3);
    IntendedReachesReachableBudget(ThresholdEncoder(0.4, 100, 200), WebpMime, 0.85, 150, 0.3);
  }
}
