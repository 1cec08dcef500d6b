/** The driver loop `Generate` (FingerprintGenerator.cs:42-156) and the
    emission of hash batches (FingerprintGenerator.cs:233-241). */
module Generator {
  import opened PeakPairs
  import opened Configuration
  import opened PeakPicking
  import opened PeakSelection
  import opened PeakHistories
  import opened PairFinder

  /** One STFT frame as the driver sees it: below the volume threshold, or
      audible with its residual spectrum. */
  datatype Frame = Silent | Audible(residual: seq<int>)

  /** A `FingerprintHashesGenerated` event: the anchor frame's index, the
      number of frames of the track and the hashes of one pairing pass. */
  datatype Batch = Batch(index: int, indices: int, hashes: seq<FingerprintHash>)

  /** `peakPairs.ConvertAll(PeakPairToHash)`. */
  function Hashes(pairs: seq<PeakPair>): seq<FingerprintHash>
  {
    if pairs == [] then [] else [PeakPairToHash(pairs[0])] + Hashes(pairs[1..])
  }

  /** `FireFingerprintHashesGenerated`: a pass without pairs emits nothing;
      otherwise one batch tagged with the first pair's frame index. */
  function Fire(indices: int, pairs: seq<PeakPair>): seq<Batch>
  {
    if |pairs| > 0 then [Batch(pairs[0].index, indices, Hashes(pairs))] else []
  }

  /** The history slot of an audible frame: its local maxima, of which the
      tallest `peaksPerFrame` are kept. */
  ghost function SlotOf(cfg: Config, index: int, residual: seq<int>): Slot
  {
    Slot(index, SelectPeaks(LocalMaxima(residual), cfg.peaksPerFrame))
  }

  /** The slots of the audible frames, in order; a silent frame adds none. */
  ghost function RealSlots(cfg: Config, frames: seq<Frame>): (r: seq<Slot>)
    decreases |frames|
  {
    if frames == [] then []
    else
      var f := frames[|frames| - 1];
      RealSlots(cfg, frames[..|frames| - 1])
        + (if f.Audible? then [SlotOf(cfg, |frames| - 1, f.residual)] else [])
  }

  /** Every slot the history ever holds, in insertion order: the pre-filled
      empty slots, one per audible frame, and the `targetZoneLength` empty
      slots of the flush. After `t` additions the history holds `[t..t + L]`. */
  ghost function Timeline(cfg: Config, frames: seq<Frame>): (tl: seq<Slot>)
    requires ValidConfig(cfg)
  {
    EmptySlots(HistoryLength(cfg)) + RealSlots(cfg, frames) + EmptySlots(cfg.targetZoneLength)
  }

  /** The batch, if any, of the pairing pass run right after the `t`-th
      addition to a history whose insertions are `tl`. */
  function PassAt(cfg: Config, indices: int, tl: seq<Slot>, t: int): seq<Batch>
    requires ValidConfig(cfg) && 0 <= t && t + HistoryLength(cfg) <= |tl|
  {
    Fire(indices, PairsFor(cfg, tl[t..t + HistoryLength(cfg)]))
  }

  /** The batches of the passes after additions `lo` to `hi - 1`. */
  function Passes(cfg: Config, indices: int, tl: seq<Slot>, lo: int, hi: int): seq<Batch>
    requires ValidConfig(cfg) && 0 <= lo && hi - 1 + HistoryLength(cfg) <= |tl|
    decreases hi - lo
  {
    if hi <= lo then []
    else Passes(cfg, indices, tl, lo, hi - 1) + PassAt(cfg, indices, tl, hi - 1)
  }

  /** The first addition after which `Generate` pairs: the history is warm
      once `Length` audible frames are in; a track with fewer only gets the
      passes of the flush that follow the warm-up. */
  function FirstPass(cfg: Config, m: int): int
    requires ValidConfig(cfg)
  {
    if HistoryLength(cfg) <= m then HistoryLength(cfg) else m + 1
  }

  /** The batches of a run with `m` audible frames over timeline `tl`: a pass
      after every addition once the history is warm (`processedFrames >=
      Length`), and after each of the `targetZoneLength` flush additions. */
  function Output(cfg: Config, indices: int, tl: seq<Slot>, m: nat): seq<Batch>
    requires ValidConfig(cfg) && |tl| == HistoryLength(cfg) + m + cfg.targetZoneLength
  {
    Passes(cfg, indices, tl, FirstPass(cfg, m), m + cfg.targetZoneLength + 1)
  }

  /** The batches `Generate` emits for `frames`. */
  ghost function Fingerprints(cfg: Config, frames: seq<Frame>): seq<Batch>
    requires ValidConfig(cfg)
  {
    Output(cfg, |frames|, Timeline(cfg, frames), |RealSlots(cfg, frames)|)
  }

  /** Slot `k` of the timeline is an empty filler. */
  ghost predicate FillerAt(tl: seq<Slot>, k: int)
    requires 0 <= k < |tl|
  {
    tl[k] == EmptySlot
  }

  /** The timeline is the pre-filled empty window, the audible slots and the
      flush's empty slots, in that order. */
  lemma TimelineShape(cfg: Config, frames: seq<Frame>)
    requires ValidConfig(cfg)
    ensures var tl := Timeline(cfg, frames); var L := HistoryLength(cfg); var m := |RealSlots(cfg, frames)|;
      |tl| == L + m + cfg.targetZoneLength &&
      tl[..L] == EmptySlots(L) &&
      tl[L..L + m] == RealSlots(cfg, frames) &&
      forall k :: L + m <= k < |tl| ==> FillerAt(tl, k)
  {
    var tl := Timeline(cfg, frames);
    var L := HistoryLength(cfg);
    var m := |RealSlots(cfg, frames)|;
    forall k | L + m <= k < |tl|
      ensures FillerAt(tl, k)
    {
      assert tl[k] == EmptySlots(cfg.targetZoneLength)[k - L - m];
    }
  }

  /** `runs[t]` is the batch, if any, of the pass after addition `t`. */
  ghost predicate RunAt(cfg: Config, indices: int, tl: seq<Slot>, runs: seq<seq<Batch>>, t: int)
    requires ValidConfig(cfg) && 0 <= t < |runs| && t + HistoryLength(cfg) <= |tl|
  {
    runs[t] == PassAt(cfg, indices, tl, t)
  }

  /** `runs` lists the batch of the pass after every addition of `tl`. The
      loops of the driver carry their output as a concatenation of `runs`, so
      that a pass is unfolded only where it runs. */
  ghost predicate Runs(cfg: Config, indices: int, tl: seq<Slot>, runs: seq<seq<Batch>>)
    requires ValidConfig(cfg)
  {
    |runs| + HistoryLength(cfg) == |tl| + 1 &&
    forall t :: 0 <= t < |runs| ==> RunAt(cfg, indices, tl, runs, t)
  }

  /** The batches of every possible pass over `tl` exist as a record. */
  lemma RecordRuns(cfg: Config, indices: int, tl: seq<Slot>) returns (runs: seq<seq<Batch>>)
    requires ValidConfig(cfg) && HistoryLength(cfg) <= |tl|
    ensures Runs(cfg, indices, tl, runs)
  {
    runs := seq(|tl| - HistoryLength(cfg) + 1,
                t requires 0 <= t <= |tl| - HistoryLength(cfg) => PassAt(cfg, indices, tl, t));
    forall t | 0 <= t < |runs|
      ensures RunAt(cfg, indices, tl, runs, t)
    {
    }
  }

  /** The concatenation of `runs[lo..hi]`. */
  function Emitted(runs: seq<seq<Batch>>, lo: int, hi: int): seq<Batch>
    requires 0 <= lo && hi <= |runs|
    decreases hi - lo
  {
    if hi <= lo then [] else Emitted(runs, lo, hi - 1) + runs[hi - 1]
  }

  /** Concatenating the recorded runs gives the passes of the timeline. */
  lemma {:induction false} EmittedPasses(cfg: Config, indices: int, tl: seq<Slot>, runs: seq<seq<Batch>>,
                                         lo: nat, hi: int)
    requires ValidConfig(cfg) && Runs(cfg, indices, tl, runs) && hi <= |runs|
    ensures Emitted(runs, lo, hi) == Passes(cfg, indices, tl, lo, hi)
    decreases hi - lo
  {
    if lo < hi {
      EmittedPasses(cfg, indices, tl, runs, lo, hi - 1);
      assert RunAt(cfg, indices, tl, runs, hi - 1);
    }
  }

  lemma {:induction false} RealSlotsPrefix(cfg: Config, frames: seq<Frame>, f: int)
    requires 0 <= f <= |frames|
    ensures RealSlots(cfg, frames[..f]) <= RealSlots(cfg, frames)
    decreases |frames| - f
  {
    if f < |frames| {
      var init := frames[..|frames| - 1];
      assert frames[..f] == init[..f];
      RealSlotsPrefix(cfg, init, f);
    } else {
      assert frames[..f] == frames;
    }
  }

  /** How one more frame changes the audible slots: an audible frame adds
      its own slot, which is the next one of all the audible slots. */
  lemma FrameStep(cfg: Config, frames: seq<Frame>, f: int)
    requires 0 <= f < |frames|
    ensures var before := RealSlots(cfg, frames[..f]);
      RealSlots(cfg, frames[..f + 1])
        == before + (if frames[f].Audible? then [SlotOf(cfg, f, frames[f].residual)] else []) &&
      |RealSlots(cfg, frames[..f + 1])| <= |RealSlots(cfg, frames)| &&
      (frames[f].Audible? ==> RealSlots(cfg, frames)[|before|] == SlotOf(cfg, f, frames[f].residual))
  {
    assert frames[..f + 1][..f] == frames[..f];
    RealSlotsPrefix(cfg, frames, f + 1);
    var all := RealSlots(cfg, frames);
    var before := RealSlots(cfg, frames[..f]);
    if frames[f].Audible? {
      assert all[|before|] == RealSlots(cfg, frames[..f + 1])[|before|];
    }
  }

  /** The history window after one more addition: the oldest slot drops out
      and the next slot of the timeline comes in. */
  lemma WindowShift(tl: seq<Slot>, t: nat, n: nat, before: seq<Slot>, after: seq<Slot>)
    requires 0 < n && t + n < |tl| && before == tl[t..t + n] && after == before[1..] + [tl[t + n]]
    ensures after == tl[t + 1..t + 1 + n]
  {
  }

  /** Lines 104-120 and 122 of `Generate`: the peaks of an audible frame
      enter the history as its newest slot. */
  method Ingest(cfg: Config, peakHistory: PeakHistory, ghost tl: seq<Slot>, ghost t: nat,
                index: int, residual: seq<int>)
    requires ValidConfig(cfg) && peakHistory.Valid()
    requires t + HistoryLength(cfg) < |tl| && peakHistory.Slots == tl[t..t + HistoryLength(cfg)]
    requires tl[t + HistoryLength(cfg)] == SlotOf(cfg, index, residual)
    modifies peakHistory, peakHistory.indexHistory, peakHistory.peakHistory
    ensures peakHistory.Valid()
    ensures peakHistory.indexHistory == old(peakHistory.indexHistory)
    ensures peakHistory.peakHistory == old(peakHistory.peakHistory)
    ensures peakHistory.Slots == tl[t + 1..t + 1 + HistoryLength(cfg)]
  {
    var peaks := PickPeaks(residual, cfg.peaksPerFrame);
    ghost var before := peakHistory.Slots;
    peakHistory.Add(index, peaks);
    WindowShift(tl, t, HistoryLength(cfg), before, peakHistory.Slots);
  }

  /** Lines 136-138 and 149-151 of `Generate`: one pairing pass over the
      history and the batch it fires. */
  method Pass(cfg: Config, peakHistory: PeakHistory, indices: int, ghost tl: seq<Slot>,
              ghost runs: seq<seq<Batch>>, ghost t: nat, ghost first: nat, emitted: seq<Batch>)
    returns (batches: seq<Batch>)
    requires ValidConfig(cfg) && peakHistory.Valid() && Runs(cfg, indices, tl, runs)
    requires first <= t < |runs| && peakHistory.Slots == tl[t..t + HistoryLength(cfg)]
    requires emitted == Emitted(runs, first, t)
    ensures batches == Emitted(runs, first, t + 1)
  {
    var peakPairs := FindPairs(peakHistory, cfg);
    RunStep(cfg, indices, tl, runs, first, t, emitted, peakPairs);
    batches := emitted + Fire(indices, peakPairs);
  }

  /** The batch fired for the pairs of the window after addition `t` is the
      recorded run `t`. */
  lemma RunStep(cfg: Config, indices: int, tl: seq<Slot>, runs: seq<seq<Batch>>, first: nat, t: nat,
                emitted: seq<Batch>, pairs: seq<PeakPair>)
    requires ValidConfig(cfg) && Runs(cfg, indices, tl, runs) && first <= t < |runs|
    requires emitted == Emitted(runs, first, t)
    requires pairs == PairsFor(cfg, tl[t..t + HistoryLength(cfg)])
    ensures emitted + Fire(indices, pairs) == Emitted(runs, first, t + 1)
  {
    assert runs[t] == Fire(indices, pairs) by {
      assert RunAt(cfg, indices, tl, runs, t);
    }
  }

  /** Lines 104-120 of `Generate`: the local maxima of the residual, of which
      the tallest `peaksPerFrame` are kept. */
  method PickPeaks(residual: seq<int>, peaksPerFrame: int) returns (peaks: seq<Peak>)
    ensures peaks == SelectPeaks(LocalMaxima(residual), peaksPerFrame)
  {
    var spectrumResidual := new int[|residual|](k requires 0 <= k < |residual| => residual[k]);
    assert spectrumResidual[..] == residual;
    var found := FindLocalMaxima(spectrumResidual);
    peaks := SelectPeaks(found, peaksPerFrame);
  }

  /** The output of `Generate` in terms of the recorded runs. */
  lemma OutputEmitted(cfg: Config, indices: int, tl: seq<Slot>, runs: seq<seq<Batch>>, m: nat)
    requires ValidConfig(cfg) && Runs(cfg, indices, tl, runs)
    requires |tl| == HistoryLength(cfg) + m + cfg.targetZoneLength
    ensures Output(cfg, indices, tl, m) == Emitted(runs, FirstPass(cfg, m), |runs|)
  {
    var lo := FirstPass(cfg, m);
    assert 0 <= lo;
    EmittedPasses(cfg, indices, tl, runs, lo, |runs|);
    assert Output(cfg, indices, tl, m) == Passes(cfg, indices, tl, lo, |runs|);
  }

  /** `Generate`: gate, pick peaks, insert into the history, pair once the
      history is warm; then flush the history with empty slots. */
  method Generate(cfg: Config, frames: seq<Frame>) returns (batches: seq<Batch>)
    requires ValidConfig(cfg)
    ensures batches == Fingerprints(cfg, frames)
  {
    ghost var tl := Timeline(cfg, frames);
    TimelineShape(cfg, frames);
    ghost var runs := RecordRuns(cfg, |frames|, tl);
    OutputEmitted(cfg, |frames|, tl, runs, |RealSlots(cfg, frames)|);
    var peakHistory, processedFrames;
    peakHistory, processedFrames, batches := Scan(cfg, frames, tl, runs);
    batches := Flush(cfg, peakHistory, |frames|, tl, runs, processedFrames, FirstPass(cfg, processedFrames), batches);
  }

  /** Lines 61-138 of `Generate`: the frame loop. `tl` is the timeline of
      the frames; each audible frame adds the next of its slots. */
  method Scan(cfg: Config, frames: seq<Frame>, ghost tl: seq<Slot>, ghost runs: seq<seq<Batch>>)
    returns (peakHistory: PeakHistory, processedFrames: nat, batches: seq<Batch>)
    requires ValidConfig(cfg) && Runs(cfg, |frames|, tl, runs)
    requires |tl| == HistoryLength(cfg) + |RealSlots(cfg, frames)| + cfg.targetZoneLength
    requires tl[..HistoryLength(cfg)] == EmptySlots(HistoryLength(cfg))
    requires forall k :: 0 <= k < |RealSlots(cfg, frames)| ==> RealSlots(cfg, frames)[k] == tl[HistoryLength(cfg) + k]
    ensures processedFrames == |RealSlots(cfg, frames)|
    ensures peakHistory.Valid() && fresh(peakHistory) && fresh(peakHistory.indexHistory) && fresh(peakHistory.peakHistory)
    ensures peakHistory.Slots == tl[processedFrames..processedFrames + HistoryLength(cfg)]
    ensures batches == Emitted(runs, HistoryLength(cfg), processedFrames + 1)
  {
    ghost var L := HistoryLength(cfg);
    ghost var all := RealSlots(cfg, frames);
    var index := 0;
    var indices := |frames|;
    processedFrames := 0;
    // the capacity hint is half the spectrum's `WindowSize / 2` bins
    peakHistory := new PeakHistory(HistoryLength(cfg), WindowSize / 2 / 2);
    var length := peakHistory.Length();  // the capacity never changes
    batches := [];
    for f := 0 to |frames|
      invariant index == f && length == L
      invariant processedFrames == |RealSlots(cfg, frames[..f])| <= |all|
      invariant peakHistory.Valid() && fresh(peakHistory) && fresh(peakHistory.indexHistory) && fresh(peakHistory.peakHistory)
      invariant peakHistory.Slots == tl[processedFrames..processedFrames + L]
      invariant batches == Emitted(runs, L, processedFrames + 1)
    {
      FrameStep(cfg, frames, f);
      match frames[f]
      case Silent =>
        // a frame below the volume threshold only consumes its index
        index := index + 1;
      case Audible(residual) =>
        processedFrames, batches := ProcessFrame(cfg, peakHistory, length, indices, tl, runs, index, residual,
                                                 processedFrames, batches);
        index := index + 1;
    }
    assert frames[..|frames|] == frames;
  }

  /** Lines 82-138 of `Generate`, for an audible frame: its peaks enter the
      history, and a pairing pass runs once the history is warm. */
  method ProcessFrame(cfg: Config, peakHistory: PeakHistory, length: int, indices: int,
                      ghost tl: seq<Slot>, ghost runs: seq<seq<Batch>>, index: int, residual: seq<int>,
                      processed: nat, emitted: seq<Batch>)
    returns (processedFrames: nat, batches: seq<Batch>)
    requires ValidConfig(cfg) && peakHistory.Valid() && Runs(cfg, indices, tl, runs)
    requires length == HistoryLength(cfg) && processed + length < |tl|
    requires peakHistory.Slots == tl[processed..processed + length]
    requires tl[processed + length] == SlotOf(cfg, index, residual)
    requires emitted == Emitted(runs, length, processed + 1)
    modifies peakHistory, peakHistory.indexHistory, peakHistory.peakHistory
    ensures processedFrames == processed + 1
    ensures peakHistory.Valid()
    ensures peakHistory.indexHistory == old(peakHistory.indexHistory)
    ensures peakHistory.peakHistory == old(peakHistory.peakHistory)
    ensures peakHistory.Slots == tl[processedFrames..processedFrames + length]
    ensures batches == Emitted(runs, length, processedFrames + 1)
  {
    Ingest(cfg, peakHistory, tl, processed, index, residual);
    processedFrames := processed + 1;
    batches := emitted;
    if processedFrames >= length {
      batches := Pass(cfg, peakHistory, indices, tl, runs, processedFrames, length, batches);
    }
  }

  /** One round of the flush: an empty slot enters the history, then a
      pairing pass runs over it. */
  method FlushStep(cfg: Config, peakHistory: PeakHistory, indices: int, ghost tl: seq<Slot>,
                   ghost runs: seq<seq<Batch>>, ghost t: nat, ghost first: nat, emitted: seq<Batch>)
    returns (batches: seq<Batch>)
    requires ValidConfig(cfg) && peakHistory.Valid() && Runs(cfg, indices, tl, runs)
    requires first <= t + 1 && t + HistoryLength(cfg) < |tl| && FillerAt(tl, t + HistoryLength(cfg))
    requires peakHistory.Slots == tl[t..t + HistoryLength(cfg)]
    requires emitted == Emitted(runs, first, t + 1)
    modifies peakHistory, peakHistory.indexHistory, peakHistory.peakHistory
    ensures peakHistory.Valid()
    ensures peakHistory.indexHistory == old(peakHistory.indexHistory)
    ensures peakHistory.peakHistory == old(peakHistory.peakHistory)
    ensures peakHistory.Slots == tl[t + 1..t + 1 + HistoryLength(cfg)]
    ensures batches == Emitted(runs, first, t + 2)
  {
    ghost var before := peakHistory.Slots;
    peakHistory.Add(-1, []);
    WindowShift(tl, t, HistoryLength(cfg), before, peakHistory.Slots);
    batches := Pass(cfg, peakHistory, indices, tl, runs, t + 1, first, emitted);
  }

  /** Lines 147-155 of `Generate`: `targetZoneLength` empty slots pushed through
      the history, each followed by a pairing pass. The audible slots still in
      the history become anchors in turn, except the last `targetZoneDistance`
      of them, whose target zones lie wholly in the empty slots
      (`GeneratorFacts.FlushCompleteness`). */
  method Flush(cfg: Config, peakHistory: PeakHistory, indices: int, ghost tl: seq<Slot>,
               ghost runs: seq<seq<Batch>>, m: nat, ghost first: nat, emitted: seq<Batch>)
    returns (batches: seq<Batch>)
    requires ValidConfig(cfg) && peakHistory.Valid() && Runs(cfg, indices, tl, runs)
    requires |tl| == HistoryLength(cfg) + m + cfg.targetZoneLength && first <= m + 1
    requires forall k :: m + HistoryLength(cfg) <= k < |tl| ==> FillerAt(tl, k)
    requires peakHistory.Slots == tl[m..m + HistoryLength(cfg)]
    requires emitted == Emitted(runs, first, m + 1)
    modifies peakHistory, peakHistory.indexHistory, peakHistory.peakHistory
    ensures peakHistory.Valid()
    ensures peakHistory.indexHistory == old(peakHistory.indexHistory)
    ensures peakHistory.peakHistory == old(peakHistory.peakHistory)
    ensures peakHistory.Slots == tl[m + cfg.targetZoneLength..m + cfg.targetZoneLength + HistoryLength(cfg)]
    ensures batches == Emitted(runs, first, m + cfg.targetZoneLength + 1)
  {
    batches := emitted;
    for t := m to m + cfg.targetZoneLength
      invariant peakHistory.Valid()
      invariant peakHistory.indexHistory == old(peakHistory.indexHistory)
      invariant peakHistory.peakHistory == old(peakHistory.peakHistory)
      invariant peakHistory.Slots == tl[t..t + HistoryLength(cfg)]
      invariant batches == Emitted(runs, first, t + 1)
    {
      assert FillerAt(tl, t + HistoryLength(cfg));
      batches := FlushStep(cfg, peakHistory, indices, tl, runs, t, first, batches);
    }
  }
}
