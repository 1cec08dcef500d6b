# Wang landmark fingerprints: a verified model of the generator core

This project models the fingerprint generator of AudioAlign
(`FingerprintGenerator.cs`). The generator follows Wang, "An Industrial
Strength Audio Search Algorithm" (ISMIR 2003), and Kennedy and Naaman (WWW
2009). It turns a track into a stream of hash batches as follows:

- every STFT frame loud enough to pass the volume gate yields a residual
  spectrum;
- the local maxima of that residual are found, and the tallest
  `peaksPerFrame` of them are kept;
- the kept peaks enter a peak history, a FIFO of `1 + targetZoneDistance +
  targetZoneLength` slots that is always full;
- once the history is warm, each peak of the oldest slot (the anchor) is
  paired with peaks of the target zone. The zone is the slots
  `targetZoneDistance` and more frames later, within `targetZoneWidth / 2`
  bins. Each anchor peak gets at most `peakFanout` pairs;
- each pair is packed into a 24-bit hash: anchor bin, target bin and frame
  distance, one byte each;
- the hashes of one pass go out as one `FingerprintHashesGenerated` batch,
  tagged with the anchor frame's index;
- after the last frame, `targetZoneLength` empty slots are pushed through the
  history, each followed by a pass. The audible frames still in the history
  become anchors in turn, except the last `targetZoneDistance` of them. Those
  never become anchors, but their target zones would hold only the empty
  flush slots, so no pair is lost.

The modules follow the parts of the source:

| file | module | models |
|---|---|---|
| `config.dfy` | `Configuration` | the tuning constants, the history capacity, C#'s truncating `/ 2` |
| `peak_pair.dfy` | `PeakPairs` | `Peak`, `PeakPair`, `FingerprintHash`, `PeakPairToHash`, `HashToPeakPair` |
| `peak_picking.dfy` | `PeakPicking` | `FindLocalMaxima`, a method over an array, proved equal to a declarative peak definition |
| `peak_selection.dfy` | `PeakSelection` | the top-K step of `Generate`: sort by height, truncate, sort by bin |
| `peak_history.dfy` | `PeakHistories` | `PeakHistory`, a class over two ring arrays with one cursor |
| `pair_finder.dfy` | `PairFinder` | `FindPairs`: nested loops with the fan-out cap and `break`s, proved equal to a declarative pair list |
| `generator.dfy` | `Generator` | the driver loop of `Generate`, the flush and `FireFingerprintHashesGenerated` |
| `generator_facts.dfy` | `GeneratorFacts` | what every emitted batch satisfies |

The driver is specified by `Fingerprints(cfg, frames)`, which is built from
the **timeline**: every slot the history ever receives, in order. That is the
`Length` pre-filled empty slots, one slot per audible frame, and the
`targetZoneLength` empty slots of the flush. After `t` additions the history
holds `timeline[t..t + Length]`. A pass runs after addition `t` for every `t`
from the warm-up point (`Length`, or right after the last audible frame if the
track has fewer) up to the end of the flush. `Generate` is proved to emit
exactly `Fingerprints(cfg, frames)`.

Amplitudes are integers. Peak picking and selection only compare them, and
`float.MinValue`, the scan's starting value, is written out as the exact
integer it denotes. C#'s `(byte)` cast is the Euclidean remainder by 256.
C#'s `/` on a negative zone width truncates toward zero and is written out as
such.

## Model

| member | source | states |
|---|---|---|
| Configuration.HistoryLength | AudioAlign/AudioAlign.Audio/Matching/Wang2003/FingerprintGenerator.cs:58 | the history has at least one slot and reaches past `targetZoneDistance`; its slots beyond the target zone's start number `targetZoneLength` |
| Configuration.TruncatedHalf | AudioAlign/AudioAlign.Audio/Matching/Wang2003/FingerprintGenerator.cs:205 | `targetZoneWidth / 2` rounds toward zero: twice the result is the width, or one less for an odd positive width, or one more for an odd negative width |
| Configuration.HalfWidth | AudioAlign/AudioAlign.Audio/Matching/Wang2003/FingerprintGenerator.cs:205 | the zone's half-width is `TruncatedHalf(targetZoneWidth)`; its rounding is stated by `Configuration.TruncatedHalf` |
| Configuration.DefaultConfigIsValid | AudioAlign/AudioAlign.Audio/Matching/Wang2003/FingerprintGenerator.cs:28-33 | the compiled-in constants are admissible, give a 33-slot history and a half-width of 31 bins |
| PeakPairs.ToByte | AudioAlign/AudioAlign.Audio/Matching/Wang2003/FingerprintGenerator.cs:271 | the `(byte)` cast lands in 0..255, is the identity there, and keeps the value modulo 256 |
| PeakPairs.Pack | AudioAlign/AudioAlign.Audio/Matching/Wang2003/FingerprintGenerator.cs:271 | three bytes shifted by 16, 8 and 0 and or-ed give a value below 2^24 |
| PeakPairs.Unpack | AudioAlign/AudioAlign.Audio/Matching/Wang2003/FingerprintGenerator.cs:271-280 | the `>> 16 & 0xFF`, `>> 8 & 0xFF` and `& 0xFF` extractions of a packed value give back the three bytes packed |
| PeakPairs.PeakPairToHash | AudioAlign/AudioAlign.Audio/Matching/Wang2003/FingerprintGenerator.cs:265-272 | every hash is below 2^24 |
| PeakPairs.HashLayout | AudioAlign/AudioAlign.Audio/Matching/Wang2003/FingerprintGenerator.cs:265-272 | bits 16-23 hold the anchor bin mod 256, bits 8-15 the target bin mod 256, bits 0-7 the distance mod 256, and nothing lies above bit 23 |
| PeakPairs.HashToPeakPair | AudioAlign/AudioAlign.Audio/Matching/Wang2003/FingerprintGenerator.cs:274-282 | the decoded pair carries the given frame index and zero amplitudes; both bins and the distance lie in 0..255 |
| PeakPairs.DecodeEncode | AudioAlign/AudioAlign.Audio/Matching/Wang2003/FingerprintGenerator.cs:265-282 | decoding an encoded pair yields the given index, the low byte of each bin and of the distance, and zero amplitudes |
| PeakPairs.DecodeEncodeInRange | AudioAlign/AudioAlign.Audio/Matching/Wang2003/FingerprintGenerator.cs:265-282 | bins and distance in 0..255 come back exactly |
| PeakPairs.EncodeDecode | AudioAlign/AudioAlign.Audio/Matching/Wang2003/FingerprintGenerator.cs:265-282 | re-encoding a decoded hash gives the hash modulo 2^24 |
| PeakPairs.EncodeDecodeInRange | AudioAlign/AudioAlign.Audio/Matching/Wang2003/FingerprintGenerator.cs:265-282 | re-encoding a decoded hash below 2^24 gives the same hash |
| PeakPairs.ReencodeValue | AudioAlign/AudioAlign.Audio/Matching/Wang2003/FingerprintGenerator.cs:265-282 | re-encoding the pair decoded from any 32-bit value packs that value's three low bytes |
| PeakPairs.LowBytes | AudioAlign/AudioAlign.Audio/Matching/Wang2003/FingerprintGenerator.cs:278-280 | a value modulo 2^24 is its three low bytes, as the three extractions read them, put back together |
| PeakPairs.BitPacking | AudioAlign/AudioAlign.Audio/Matching/Wang2003/FingerprintGenerator.cs:271 | four bytes shifted by 24, 16, 8 and 0 and or-ed as a 32-bit word have the value of their weighted sum |
| PeakPairs.EncodeBitwise | AudioAlign/AudioAlign.Audio/Matching/Wang2003/FingerprintGenerator.cs:271 | on bytes, the source's `<<` and `|` on a `uint` compute exactly `Pack` |
| PeakPairs.WordValue | AudioAlign/AudioAlign.Audio/Matching/Wang2003/FingerprintGenerator.cs:278-280 | every 32-bit word is the weighted sum of its four bytes as `>>` and `& 0xFF` read them |
| PeakPairs.DecodeBitwise | AudioAlign/AudioAlign.Audio/Matching/Wang2003/FingerprintGenerator.cs:274-282 | on any 32-bit hash, `HashToPeakPair` yields exactly the bytes `>> 16 & 0xFF`, `>> 8 & 0xFF` and `& 0xFF` |
| PeakPairs.DecodeFields | AudioAlign/AudioAlign.Audio/Matching/Wang2003/FingerprintGenerator.cs:274-282 | a hash packed from an overflow byte and three bytes decodes to those three bytes |
| PeakPairs.HashInjective | AudioAlign/AudioAlign.Audio/Matching/Wang2003/FingerprintGenerator.cs:265-272 | for byte-sized fields, two pairs hash alike exactly when they agree on both bins and the distance |
| PeakPicking.PeaksBelowCharacterized | AudioAlign/AudioAlign.Audio/Matching/Wang2003/FingerprintGenerator.cs:158-199 | the peaks below position `n` are exactly the positions satisfying the peak definition, in strictly increasing order, each with the value of its bin |
| PeakPicking.PeaksBelowNoNew | AudioAlign/AudioAlign.Audio/Matching/Wang2003/FingerprintGenerator.cs:176-199 | positions without a peak add nothing to the peak list |
| PeakPicking.RiseStep | AudioAlign/AudioAlign.Audio/Matching/Wang2003/FingerprintGenerator.cs:179-182 | a strict rise makes the current position the candidate and keeps the scan state |
| PeakPicking.LevelStep | AudioAlign/AudioAlign.Audio/Matching/Wang2003/FingerprintGenerator.cs:183-186 | a level step keeps the candidate at the start of the plateau |
| PeakPicking.FallStep | AudioAlign/AudioAlign.Audio/Matching/Wang2003/FingerprintGenerator.cs:187-196 | a strict fall emits the pending candidate with the value before the fall and clears it; without a candidate it emits nothing |
| PeakPicking.ConfirmPeak | AudioAlign/AudioAlign.Audio/Matching/Wang2003/FingerprintGenerator.cs:189-195 | the first fall after a rise and a plateau confirms a peak at the plateau's first sample, valued as the sample before the fall |
| PeakPicking.NotRisingAfter | AudioAlign/AudioAlign.Audio/Matching/Wang2003/FingerprintGenerator.cs:183-196 | no position after the plateau's first sample and up to the fall is a peak |
| PeakPicking.EndStep | AudioAlign/AudioAlign.Audio/Matching/Wang2003/FingerprintGenerator.cs:176-199 | a candidate still pending when the scan ends is no peak, and what was emitted is all the peaks |
| PeakPicking.FindLocalMaxima | AudioAlign/AudioAlign.Audio/Matching/Wang2003/FingerprintGenerator.cs:172-202 | the scan emits exactly the local maxima of the spectrum |
| PeakPicking.LocalMaximaCharacterized | AudioAlign/AudioAlign.Audio/Matching/Wang2003/FingerprintGenerator.cs:158-199 | the maxima have strictly increasing bins and carry the value of their bin. A bin is a peak iff it is the first bin or above its predecessor, then level, then strictly falling |
| PeakPicking.NoPeakInRisingTail | AudioAlign/AudioAlign.Audio/Matching/Wang2003/FingerprintGenerator.cs:179-199 | a run that never falls up to the end of the spectrum holds no peak |
| PeakPicking.PlateauPeaks | AudioAlign/AudioAlign.Audio/Matching/Wang2003/FingerprintGenerator.cs:158-171 | in `[1,3,3,2,5,5,5,1]` bins 1 and 4 are peaks |
| PeakPicking.PlateauNonPeaks | AudioAlign/AudioAlign.Audio/Matching/Wang2003/FingerprintGenerator.cs:158-171 | in `[1,3,3,2,5,5,5,1]` no other bin is a peak |
| PeakPicking.PlateauExample | AudioAlign/AudioAlign.Audio/Matching/Wang2003/FingerprintGenerator.cs:158-171 | `[1,3,3,2,5,5,5,1]` yields the peaks (1, 3) and (4, 5), one per plateau at its first sample |
| PeakPicking.RisingExample | AudioAlign/AudioAlign.Audio/Matching/Wang2003/FingerprintGenerator.cs:176-199 | `[1,2,3]` yields no peak |
| PeakSelection.Insert | AudioAlign/AudioAlign.Audio/Matching/Wang2003/FingerprintGenerator.cs:115 | inserting one peak lengthens the list by one |
| PeakSelection.InsertPermutes | AudioAlign/AudioAlign.Audio/Matching/Wang2003/FingerprintGenerator.cs:115 | inserting adds exactly the inserted peak to the multiset |
| PeakSelection.InsertSorted | AudioAlign/AudioAlign.Audio/Matching/Wang2003/FingerprintGenerator.cs:115 | inserting into a sorted list keeps it sorted |
| PeakSelection.Sort | AudioAlign/AudioAlign.Audio/Matching/Wang2003/FingerprintGenerator.cs:115-119 | sorting keeps the length |
| PeakSelection.SortSorted | AudioAlign/AudioAlign.Audio/Matching/Wang2003/FingerprintGenerator.cs:115-119 | `List.Sort` with either comparator returns a sorted permutation of its input |
| PeakSelection.SelectPeaks | AudioAlign/AudioAlign.Audio/Matching/Wang2003/FingerprintGenerator.cs:112-120 | the top-K step of `Generate`; its contract is stated by `PeakSelection.SelectPeaksShape` and `PeakSelection.SelectPeaksKeepsTallest` |
| PeakSelection.SelectPeaksShape | AudioAlign/AudioAlign.Audio/Matching/Wang2003/FingerprintGenerator.cs:112-120 | with `peaksPerFrame > 0` it keeps `min(found, peaksPerFrame)` peaks in ascending bin order; otherwise it keeps the list as is |
| PeakSelection.SelectPeaksKeepsTallest | AudioAlign/AudioAlign.Audio/Matching/Wang2003/FingerprintGenerator.cs:112-120 | the kept peaks are a sub-multiset of the found ones, and no dropped peak is taller than a kept one |
| PeakSelection.TallestDominate | AudioAlign/AudioAlign.Audio/Matching/Wang2003/FingerprintGenerator.cs:115-117 | after sorting by height, nothing removed by `RemoveRange` is taller than anything kept |
| PeakHistories.EmptySlots | AudioAlign/AudioAlign.Audio/Matching/Wang2003/FingerprintGenerator.cs:305-308 | `n` slots of index -1 with no peaks |
| PeakHistories.Wrap | AudioAlign/AudioAlign.Audio/Matching/Wang2003/FingerprintGenerator.cs:297-298 | a ring position below twice the capacity wraps to a cell of the ring |
| PeakHistories.PeakHistory.constructor | AudioAlign/AudioAlign.Audio/Matching/Wang2003/FingerprintGenerator.cs:300-309 | a new history holds `length` slots `(-1, empty)`, whatever the capacity hint for the peak lists |
| PeakHistories.PeakHistory.Length | AudioAlign/AudioAlign.Audio/Matching/Wang2003/FingerprintGenerator.cs:314-316 | the capacity is the number of slots and at least one |
| PeakHistories.PeakHistory.Count | AudioAlign/AudioAlign.Audio/Matching/Wang2003/FingerprintGenerator.cs:318-325 | the count equals the capacity in every valid state, so after construction and after every `Add` |
| PeakHistories.PeakHistory.Index | AudioAlign/AudioAlign.Audio/Matching/Wang2003/FingerprintGenerator.cs:327-333 | the frame index of the oldest slot |
| PeakHistories.PeakHistory.List | AudioAlign/AudioAlign.Audio/Matching/Wang2003/FingerprintGenerator.cs:335-341 | the peaks of the oldest slot |
| PeakHistories.PeakHistory.ListAt | AudioAlign/AudioAlign.Audio/Matching/Wang2003/FingerprintGenerator.cs:350-355 | `Lists[age]` is the peak list of the slot of that age |
| PeakHistories.PeakHistory.IndexAt | AudioAlign/AudioAlign.Audio/Matching/Wang2003/FingerprintGenerator.cs:343-348 | `Indices[age]` is the frame index of the slot of that age |
| PeakHistories.PeakHistory.Add | AudioAlign/AudioAlign.Audio/Matching/Wang2003/FingerprintGenerator.cs:357-365 | the oldest slot is evicted, every other slot becomes one step older, the new slot is the newest; the arrays are the same objects and the ring stays valid |
| PairFinder.InBand | AudioAlign/AudioAlign.Audio/Matching/Wang2003/FingerprintGenerator.cs:217 | the band test of `FindPairs`; `PairFinder.InBandIsDistance` states what it means |
| PairFinder.InBandIsDistance | AudioAlign/AudioAlign.Audio/Matching/Wang2003/FingerprintGenerator.cs:217 | the two-sided test is `|peak - target| <= halfWidth` |
| PairFinder.Take | AudioAlign/AudioAlign.Audio/Matching/Wang2003/FingerprintGenerator.cs:219-226 | the first `n` pairs, or all of them: a prefix of length `min(|s|, n)` |
| PairFinder.MatchesCharacterized | AudioAlign/AudioAlign.Audio/Matching/Wang2003/FingerprintGenerator.cs:216-218 | the pairs found at one distance are exactly the admissible pairs whose target is in that slot's list |
| PairFinder.TargetsCharacterized | AudioAlign/AudioAlign.Audio/Matching/Wang2003/FingerprintGenerator.cs:215-223 | the pairs found below distance `d` are exactly the admissible pairs below `d`, by non-decreasing distance |
| PairFinder.MatchesPrefix | AudioAlign/AudioAlign.Audio/Matching/Wang2003/FingerprintGenerator.cs:216-222 | stopping early in a target list gives a prefix of that distance's matches |
| PairFinder.TargetsPrefix | AudioAlign/AudioAlign.Audio/Matching/Wang2003/FingerprintGenerator.cs:215-227 | stopping at a smaller distance gives a prefix of the pairs |
| PairFinder.AnchorPairsCharacterized | AudioAlign/AudioAlign.Audio/Matching/Wang2003/FingerprintGenerator.cs:213-227 | an anchor peak gets at most `peakFanout` pairs. They are the first admissible targets in scan order, all admissible, and by non-decreasing distance. Below the cap they are every admissible pair |
| PairFinder.PairsOfSound | AudioAlign/AudioAlign.Audio/Matching/Wang2003/FingerprintGenerator.cs:213-228 | every pair comes from one of the anchor peaks and is admissible for it |
| PairFinder.PairsOfCount | AudioAlign/AudioAlign.Audio/Matching/Wang2003/FingerprintGenerator.cs:213-228 | at most `peakFanout` pairs per anchor peak |
| PairFinder.PairsForSound | AudioAlign/AudioAlign.Audio/Matching/Wang2003/FingerprintGenerator.cs:204-231 | every pair is tagged with the oldest slot's index. Its anchor is from `Lists[0]`, `targetZoneDistance <= Distance < Length`, its target is from `Lists[Distance]`, and the bins differ by at most `targetZoneWidth / 2`. There are at most `|Lists[0]| * peakFanout` pairs |
| PairFinder.TargetsNone | AudioAlign/AudioAlign.Audio/Matching/Wang2003/FingerprintGenerator.cs:215-223 | a target zone without peaks gives an anchor no pairs |
| PairFinder.PairsOfNone | AudioAlign/AudioAlign.Audio/Matching/Wang2003/FingerprintGenerator.cs:213-228 | a target zone without peaks gives no pairs at all |
| PairFinder.NoPairsWithoutPeaks | AudioAlign/AudioAlign.Audio/Matching/Wang2003/FingerprintGenerator.cs:212-230 | no pairs when the anchor slot or the whole target zone has no peaks |
| PairFinder.PairAnchor | AudioAlign/AudioAlign.Audio/Matching/Wang2003/FingerprintGenerator.cs:214-227 | the distance loop for one anchor peak yields exactly its first `peakFanout` admissible pairs |
| PairFinder.ZoneExhausted | AudioAlign/AudioAlign.Audio/Matching/Wang2003/FingerprintGenerator.cs:215-227 | when the distance loop runs out before the cap, the pairs found are all the anchor's pairs |
| PairFinder.PairAtDistance | AudioAlign/AudioAlign.Audio/Matching/Wang2003/FingerprintGenerator.cs:216-226 | the target loop at one distance appends that distance's matches. Once the cap is reached the pairs are the anchor's final pairs |
| PairFinder.FanoutReached | AudioAlign/AudioAlign.Audio/Matching/Wang2003/FingerprintGenerator.cs:219-226 | reaching the cap part-way through a distance leaves exactly the first `peakFanout` admissible pairs |
| PairFinder.FindPairs | AudioAlign/AudioAlign.Audio/Matching/Wang2003/FingerprintGenerator.cs:204-231 | the pairs are those of every anchor peak of `Lists[0]`, grouped by anchor in list order, each group its first `peakFanout` admissible targets |
| Generator.TimelineShape | AudioAlign/AudioAlign.Audio/Matching/Wang2003/FingerprintGenerator.cs:58-155 | the timeline is the pre-filled empty window, one slot per audible frame, then `targetZoneLength` empty flush slots |
| Generator.RecordRuns | AudioAlign/AudioAlign.Audio/Matching/Wang2003/FingerprintGenerator.cs:140-155 | the batch of the pass after every addition can be recorded |
| Generator.EmittedPasses | AudioAlign/AudioAlign.Audio/Matching/Wang2003/FingerprintGenerator.cs:140-155 | concatenating recorded passes gives the batches of those passes |
| Generator.RealSlotsPrefix | AudioAlign/AudioAlign.Audio/Matching/Wang2003/FingerprintGenerator.cs:61-145 | the slots of a prefix of the frames are a prefix of the slots |
| Generator.FrameStep | AudioAlign/AudioAlign.Audio/Matching/Wang2003/FingerprintGenerator.cs:65-122 | an audible frame adds its own slot as the next slot; a silent frame adds none |
| Generator.WindowShift | AudioAlign/AudioAlign.Audio/Matching/Wang2003/FingerprintGenerator.cs:122 | after one more addition the history holds the next window of the timeline |
| Generator.Ingest | AudioAlign/AudioAlign.Audio/Matching/Wang2003/FingerprintGenerator.cs:104-122 | an audible frame's selected peaks enter the history, which then holds the next window |
| Generator.PickPeaks | AudioAlign/AudioAlign.Audio/Matching/Wang2003/FingerprintGenerator.cs:104-120 | the peaks that enter the history are the tallest `peaksPerFrame` local maxima of the residual |
| Generator.Pass | AudioAlign/AudioAlign.Audio/Matching/Wang2003/FingerprintGenerator.cs:141-143 | one pairing pass appends the batch recorded for that addition |
| Generator.RunStep | AudioAlign/AudioAlign.Audio/Matching/Wang2003/FingerprintGenerator.cs:141-143 | the batch fired for the current window is that window's recorded pass |
| Generator.OutputEmitted | AudioAlign/AudioAlign.Audio/Matching/Wang2003/FingerprintGenerator.cs:140-155 | the specified output is the recorded passes from the warm-up point to the end of the flush |
| Generator.Generate | AudioAlign/AudioAlign.Audio/Matching/Wang2003/FingerprintGenerator.cs:61-155 | the driver emits exactly the batches of `Fingerprints`: a pass after every audible frame once `processedFrames >= Length`, then one after each flush slot |
| Generator.Scan | AudioAlign/AudioAlign.Audio/Matching/Wang2003/FingerprintGenerator.cs:61-145 | after the frame loop, `processedFrames` counts the audible frames. The history holds the window after that many additions, and the batches are those of the passes after the warm-up |
| Generator.ProcessFrame | AudioAlign/AudioAlign.Audio/Matching/Wang2003/FingerprintGenerator.cs:82-144 | an audible frame adds one slot and one to `processedFrames`. It pairs only when `processedFrames >= Length` |
| Generator.FlushStep | AudioAlign/AudioAlign.Audio/Matching/Wang2003/FingerprintGenerator.cs:149-154 | one flush round adds an empty slot and appends that addition's pass |
| Generator.Flush | AudioAlign/AudioAlign.Audio/Matching/Wang2003/FingerprintGenerator.cs:147-155 | exactly `targetZoneLength` empty additions, each followed by its pass. The history stays valid over the same two arrays and ends holding the last `Length` slots of the timeline |
| Generator.Hashes | AudioAlign/AudioAlign.Audio/Matching/Wang2003/FingerprintGenerator.cs:239 | `ConvertAll(PeakPairToHash)`; `GeneratorFacts.HashesConvert` states it gives one hash per pair, in order |
| Generator.Fire | AudioAlign/AudioAlign.Audio/Matching/Wang2003/FingerprintGenerator.cs:233-241 | `FireFingerprintHashesGenerated`; its contract is stated by `GeneratorFacts.FireBatch` |
| GeneratorFacts.HashesConvert | AudioAlign/AudioAlign.Audio/Matching/Wang2003/FingerprintGenerator.cs:239 | `ConvertAll` gives one hash per pair, in order |
| GeneratorFacts.HashesInRange | AudioAlign/AudioAlign.Audio/Matching/Wang2003/FingerprintGenerator.cs:239 | every hash of a batch is below 2^24 |
| GeneratorFacts.FireBatch | AudioAlign/AudioAlign.Audio/Matching/Wang2003/FingerprintGenerator.cs:233-241 | nothing is fired iff there are no pairs. Otherwise exactly one batch, tagged with `peakPairs[0].Index` and the track's frame count, with one 24-bit hash per pair |
| GeneratorFacts.PassBatch | AudioAlign/AudioAlign.Audio/Matching/Wang2003/FingerprintGenerator.cs:141-143 | a pass fires at most one batch, tagged with the anchor slot's index, non-empty; an anchor slot without peaks fires nothing |
| GeneratorFacts.RecordedRunsOk | AudioAlign/AudioAlign.Audio/Matching/Wang2003/FingerprintGenerator.cs:140-155 | every recorded pass has that shape |
| GeneratorFacts.EmittedBatches | AudioAlign/AudioAlign.Audio/Matching/Wang2003/FingerprintGenerator.cs:140-155 | when the anchors' indices increase, so do the emitted batches' indices, and each batch is anchored at a slot with peaks |
| GeneratorFacts.RealSlotsIndexed | AudioAlign/AudioAlign.Audio/Matching/Wang2003/FingerprintGenerator.cs:65-138 | the slots of the history carry the indices of audible frames, strictly increasing: silent frames consume an index but add no slot |
| GeneratorFacts.SilentFrameAddsNoSlot | AudioAlign/AudioAlign.Audio/Matching/Wang2003/FingerprintGenerator.cs:68-71 | a silent frame neither touches the history nor counts as processed |
| GeneratorFacts.TimelineAnchors | AudioAlign/AudioAlign.Audio/Matching/Wang2003/FingerprintGenerator.cs:58-155 | only slots of audible frames have peaks, and their indices strictly increase |
| GeneratorFacts.EmittedContains | AudioAlign/AudioAlign.Audio/Matching/Wang2003/FingerprintGenerator.cs:140-155 | every batch of a recorded pass in range is among the emitted batches |
| GeneratorFacts.PassEmitted | AudioAlign/AudioAlign.Audio/Matching/Wang2003/FingerprintGenerator.cs:140-155 | every batch of a pass from the warm-up point to the end of the flush is in the specified output |
| GeneratorFacts.SlotCovered | AudioAlign/AudioAlign.Audio/Matching/Wang2003/FingerprintGenerator.cs:147-155 | audible slot `k` sits at timeline position `Length + k`. If it becomes an anchor, its pass's batches are all emitted; otherwise every slot from its target zone's start to the end of the timeline is an empty flush slot |
| GeneratorFacts.FlushCompleteness | AudioAlign/AudioAlign.Audio/Matching/Wang2003/FingerprintGenerator.cs:147-155 | the flush loses no pair: every audible slot either is an anchor whose batches are emitted, or has a target zone made only of empty flush slots |
| GeneratorFacts.FingerprintsWellFormed | AudioAlign/AudioAlign.Audio/Matching/Wang2003/FingerprintGenerator.cs:61-155 | every batch is for the track's frame count and has at least one hash, each below 2^24. It is anchored at an audible frame, and batch indices strictly increase |

## Left out

- Audio input: resampling, down-mixing and the STFT (`ResamplingStream`, `MonoStream`, `AudioStreamFactory`, `STFT`) are I/O. They are replaced by an input sequence of frames. `IeeeStream.cs` and `InteropWrapper.cs` (sample decoding and native FFmpeg bindings) are not part of this model.
- The volume gate `spectrum.Average() < spectrumMinThreshold` is float arithmetic; each frame arrives already marked `Silent` or `Audible`.
- The running spectrum average (`ExponentialMovingAverage.UpdateMovingAverage`, not shown) and the residual `spectrum - average - 90` are float arithmetic. An audible frame carries its residual as input, with integer amplitudes.
- NaN amplitudes: with integers every comparison is a total order, which float comparisons are not when NaN occurs.
- The `FrameProcessed` event and the zeroing of peak bins it does for display are UI-only.
- The commented-out frequency smoothing does not run.
- Events are modelled as an output sequence of batches. The `FingerprintHashesGenerated` subscriber is taken to be present, since a missing one only suppresses output, and the `AudioTrack` argument of each event is dropped.
- PeakSelection.Sort: `List.Sort` is unstable and leaves open which of several equal-height peaks survive truncation. The model fixes one order, that of an insertion sort, and its lemmas only state what holds for any order.
- PeakHistories.PeakHistory: `RingBuffer<T>` is not shown. Its drop-oldest-when-full behaviour is modelled by two arrays sharing one cursor. The reuse of the evicted `List<Peak>` object for the next frame's peaks is modelled by storing peak lists as values. The list is cleared and refilled while it is still the oldest slot, `Lists[0]`, and only then added back as the newest slot (lines 108-122). That reuse is invisible to the output: the pass that paired that slot as anchor has already run, or the slot is one of the empty pre-filled ones, and nothing reads the history between the `Clear` and the `Add`.
- PairFinder.FindPairs: requires `peakFanout >= 1`, `targetZoneDistance >= 0` and `targetZoneLength >= 0` (`ValidConfig`). The source's constants (5, 2, 30) satisfy this. Other values are not modelled.
- PeakHistories.PeakHistory.constructor: requires `length >= 1`; the source only ever builds a history of `1 + targetZoneDistance + targetZoneLength` slots.
- 32-bit `int` overflow of `index`, `processedFrames` and bin arithmetic is not modelled, since integers are unbounded. The `(byte)` casts are written out exactly.
