/** What the batches of `Generate` satisfy (FingerprintGenerator.cs:61-155,
    233-241): one batch per pass that found pairs, tagged with the index of an
    audible frame, in increasing frame order, each hash within 24 bits. */
module GeneratorFacts {
  import opened PeakPairs
  import opened Configuration
  import opened PeakHistories
  import opened PairFinder
  import opened Generator

  /** `ConvertAll`: one hash per pair, in order. */
  lemma {:induction false} HashesConvert(pairs: seq<PeakPair>)
    ensures |Hashes(pairs)| == |pairs|
    ensures forall k :: 0 <= k < |pairs| ==> Hashes(pairs)[k] == PeakPairToHash(pairs[k])
    decreases |pairs|
  {
    if pairs != [] {
      HashesConvert(pairs[1..]);
      forall k | 1 <= k < |pairs|
        ensures Hashes(pairs)[k] == PeakPairToHash(pairs[k])
      {
        assert Hashes(pairs)[k] == Hashes(pairs[1..])[k - 1];
      }
    }
  }

  /** Every hash of a batch lies below 2^24. */
  lemma HashesInRange(pairs: seq<PeakPair>)
    ensures forall h :: h in Hashes(pairs) ==> h.value < 0x100_0000
  {
    HashesConvert(pairs);
    forall h | h in Hashes(pairs)
      ensures h.value < 0x100_0000
    {
      var k :| 0 <= k < |pairs| && Hashes(pairs)[k] == h;
    }
  }

  /** `FireFingerprintHashesGenerated`: an empty pair list fires nothing;
      otherwise exactly one batch, tagged with the first pair's frame index and
      carrying one 24-bit hash per pair. */
  lemma FireBatch(indices: int, pairs: seq<PeakPair>)
    ensures |Fire(indices, pairs)| <= 1
    ensures Fire(indices, pairs) == [] <==> pairs == []
    ensures forall b :: b in Fire(indices, pairs) ==>
      b.index == pairs[0].index && b.indices == indices && |b.hashes| == |pairs| &&
      forall h :: h in b.hashes ==> h.value < 0x100_0000
  {
    HashesConvert(pairs);
    HashesInRange(pairs);
  }

  /** A pass fires at most one batch, tagged with the index of the anchor
      slot; an anchor slot without peaks fires nothing. */
  lemma PassBatch(cfg: Config, indices: int, tl: seq<Slot>, t: nat)
    requires ValidConfig(cfg) && t + HistoryLength(cfg) <= |tl|
    ensures |PassAt(cfg, indices, tl, t)| <= 1
    ensures tl[t].peaks == [] ==> PassAt(cfg, indices, tl, t) == []
    ensures forall b :: b in PassAt(cfg, indices, tl, t) ==>
      b.index == tl[t].index && b.indices == indices && b.hashes != [] &&
      forall h :: h in b.hashes ==> h.value < 0x100_0000
  {
    var window := tl[t..t + HistoryLength(cfg)];
    var pairs := PairsFor(cfg, window);
    assert PassAt(cfg, indices, tl, t) == Fire(indices, pairs);
    assert window[0] == tl[t];
    FireBatch(indices, pairs);
    PairsForSound(cfg, window);
    if window[0].peaks == [] {
      NoPairsWithoutPeaks(cfg, window);
      assert pairs == [];
    }
    if pairs != [] {
      assert pairs[0] in pairs;
      assert pairs[0].index == tl[t].index;
    }
  }

  /** A batch as `Generate` fires it: for this track, anchored at one of
      `anchors`, with at least one hash, every hash within 24 bits. */
  ghost predicate BatchOk(b: Batch, indices: int, anchors: set<int>)
  {
    b.indices == indices && b.index in anchors && b.hashes != [] &&
    forall h :: h in b.hashes ==> h.value < 0x100_0000
  }

  /** `runs[t]` is at most one batch, for this track, tagged with the index
      of slot `tl[t]`, with at least one 24-bit hash; none if that slot has
      no peaks. */
  ghost predicate RunOk(runs: seq<seq<Batch>>, tl: seq<Slot>, t: int, indices: int)
    requires 0 <= t < |runs| && t < |tl|
  {
    |runs[t]| <= 1 && (tl[t].peaks == [] ==> runs[t] == []) &&
    forall b :: b in runs[t] ==>
      b.index == tl[t].index && b.indices == indices && b.hashes != [] &&
      forall h :: h in b.hashes ==> h.value < 0x100_0000
  }

  /** Every recorded pass over `tl` is one as `PassBatch` describes. */
  lemma RecordedRunsOk(cfg: Config, indices: int, tl: seq<Slot>, runs: seq<seq<Batch>>)
    requires ValidConfig(cfg) && Runs(cfg, indices, tl, runs)
    ensures forall t :: 0 <= t < |runs| ==> RunOk(runs, tl, t, indices)
  {
    forall t | 0 <= t < |runs|
      ensures RunOk(runs, tl, t, indices)
    {
      assert RunAt(cfg, indices, tl, runs, t);
      PassBatch(cfg, indices, tl, t);
    }
  }

  /** Passes over a timeline whose slots with peaks carry strictly increasing
      indices from `anchors` emit well-formed batches, each anchored at such a
      slot, in strictly increasing index order. */
  lemma {:induction false} EmittedBatches(runs: seq<seq<Batch>>, tl: seq<Slot>, lo: nat, hi: int,
                                          indices: int, anchors: set<int>)
    requires hi <= |runs| && hi <= |tl|
    requires forall t :: lo <= t < hi ==> RunOk(runs, tl, t, indices)
    requires forall t :: lo <= t < hi && tl[t].peaks != [] ==> tl[t].index in anchors
    requires forall s, t :: lo <= s < t < hi && tl[s].peaks != [] && tl[t].peaks != [] ==>
      tl[s].index < tl[t].index
    ensures var out := Emitted(runs, lo, hi);
      (forall b :: b in out ==>
         (BatchOk(b, indices, anchors) &&
          exists t :: lo <= t < hi && tl[t].peaks != [] && b.index == tl[t].index)) &&
      (forall i, j :: 0 <= i < j < |out| ==> out[i].index < out[j].index)
    decreases hi - lo
  {
    if lo < hi {
      EmittedBatches(runs, tl, lo, hi - 1, indices, anchors);
      var before := Emitted(runs, lo, hi - 1);
      var last := runs[hi - 1];
      var out := Emitted(runs, lo, hi);
      assert out == before + last;
      assert RunOk(runs, tl, hi - 1, indices);
      forall b | b in out
        ensures BatchOk(b, indices, anchors) &&
          exists t :: lo <= t < hi && tl[t].peaks != [] && b.index == tl[t].index
      {
        if b in last {
          assert tl[hi - 1].peaks != [];
        }
      }
      forall i, j | 0 <= i < j < |out|
        ensures out[i].index < out[j].index
      {
        if j >= |before| {
          assert out[j] in last && out[i] in before;
          var s :| lo <= s < hi - 1 && tl[s].peaks != [] && out[i].index == tl[s].index;
        }
      }
    }
  }

  /** The frame indices of the audible frames. */
  ghost function AudibleFrames(frames: seq<Frame>): set<int>
  {
    set f | 0 <= f < |frames| && frames[f].Audible?
  }

  /** The audible slots carry the indices of the audible frames, in strictly
      increasing order. */
  lemma {:induction false} RealSlotsIndexed(cfg: Config, frames: seq<Frame>)
    ensures forall k :: 0 <= k < |RealSlots(cfg, frames)| ==>
      0 <= RealSlots(cfg, frames)[k].index < |frames| && frames[RealSlots(cfg, frames)[k].index].Audible?
    ensures forall i, j :: 0 <= i < j < |RealSlots(cfg, frames)| ==>
      RealSlots(cfg, frames)[i].index < RealSlots(cfg, frames)[j].index
    decreases |frames|
  {
    if frames != [] {
      var n := |frames| - 1;
      var init := frames[..n];
      RealSlotsIndexed(cfg, init);
      var before := RealSlots(cfg, init);
      var r := RealSlots(cfg, frames);
      assert r[..|before|] == before;
      forall k | 0 <= k < |r|
        ensures 0 <= r[k].index <= n && frames[r[k].index].Audible?
        ensures k < |before| ==> r[k].index < n
      {
        if k < |before| {
          assert r[k] == r[..|before|][k];
          assert init[before[k].index] == frames[before[k].index];
        }
      }
    }
  }

  /** A silent frame adds no slot: it only consumes a frame index. */
  lemma SilentFrameAddsNoSlot(cfg: Config, frames: seq<Frame>)
    ensures RealSlots(cfg, frames + [Silent]) == RealSlots(cfg, frames)
  {
    assert (frames + [Silent])[..|frames|] == frames;
  }

  /** In the timeline only audible slots have peaks, and their indices are
      audible frame indices in strictly increasing order. */
  lemma TimelineAnchors(cfg: Config, frames: seq<Frame>)
    requires ValidConfig(cfg)
    ensures var tl := Timeline(cfg, frames);
      (forall t :: 0 <= t < |tl| && tl[t].peaks != [] ==> tl[t].index in AudibleFrames(frames)) &&
      (forall s, t :: 0 <= s < t < |tl| && tl[s].peaks != [] && tl[t].peaks != [] ==> tl[s].index < tl[t].index)
  {
    var tl := Timeline(cfg, frames);
    var L := HistoryLength(cfg);
    var r := RealSlots(cfg, frames);
    TimelineShape(cfg, frames);
    RealSlotsIndexed(cfg, frames);
    forall t | 0 <= t < |tl| && tl[t].peaks != []
      ensures L <= t < L + |r| && tl[t] == r[t - L]
    {
      if L <= t < L + |r| {
        assert tl[t] == tl[L..L + |r|][t - L];
      }
    }
  }

  /** The batches `Generate` emits: each is for this track, has at least one
      24-bit hash and is anchored at an audible frame; their frame indices
      strictly increase. */
  lemma FingerprintsWellFormed(cfg: Config, frames: seq<Frame>)
    requires ValidConfig(cfg)
    ensures var out := Fingerprints(cfg, frames);
      (forall b :: b in out ==> BatchOk(b, |frames|, AudibleFrames(frames))) &&
      (forall i, j :: 0 <= i < j < |out| ==> out[i].index < out[j].index)
  {
    var tl := Timeline(cfg, frames);
    var m := |RealSlots(cfg, frames)|;
    TimelineShape(cfg, frames);
    var runs := RecordRuns(cfg, |frames|, tl);
    OutputEmitted(cfg, |frames|, tl, runs, m);
    RecordedRunsOk(cfg, |frames|, tl, runs);
    TimelineAnchors(cfg, frames);
    EmittedBatches(runs, tl, FirstPass(cfg, m), |runs|, |frames|, AudibleFrames(frames));
  }

  /** Every batch of a recorded pass between `lo` and `hi` is emitted. */
  lemma {:induction false} EmittedContains(runs: seq<seq<Batch>>, lo: nat, hi: int, t: int)
    requires lo <= t < hi <= |runs|
    ensures forall b :: b in runs[t] ==> b in Emitted(runs, lo, hi)
    decreases hi - lo
  {
    if t < hi - 1 {
      EmittedContains(runs, lo, hi - 1, t);
    }
    assert Emitted(runs, lo, hi) == Emitted(runs, lo, hi - 1) + runs[hi - 1];
  }

  /** A pass at or after the warm-up point whose window fits in the timeline
      contributes its batch to the output. */
  lemma PassEmitted(cfg: Config, indices: int, tl: seq<Slot>, runs: seq<seq<Batch>>, m: nat, t: nat)
    requires ValidConfig(cfg) && Runs(cfg, indices, tl, runs)
    requires |tl| == HistoryLength(cfg) + m + cfg.targetZoneLength
    requires FirstPass(cfg, m) <= t && t + HistoryLength(cfg) <= |tl|
    ensures forall b :: b in PassAt(cfg, indices, tl, t) ==> b in Output(cfg, indices, tl, m)
  {
    OutputEmitted(cfg, indices, tl, runs, m);
    assert RunAt(cfg, indices, tl, runs, t);
    EmittedContains(runs, FirstPass(cfg, m), |runs|, t);
  }

  /** Audible slot `k` sits at timeline position `Length + k`. When the pass
      with that slot as anchor fits in the timeline, its batch is in the
      output; otherwise every slot from the start of its target zone to the
      end of the timeline is an empty flush slot, so that pass could find no
      pairs. */
  ghost predicate AnchorCovered(cfg: Config, frames: seq<Frame>, k: int)
    requires ValidConfig(cfg) && 0 <= k < |RealSlots(cfg, frames)|
  {
    var tl := Timeline(cfg, frames);
    var L := HistoryLength(cfg);
    L + k < |tl| && tl[L + k] == RealSlots(cfg, frames)[k] &&
    (L + k + L <= |tl| ==>
       forall b :: b in PassAt(cfg, |frames|, tl, L + k) ==> b in Fingerprints(cfg, frames)) &&
    (|tl| < L + k + L ==>
       forall e :: L + k + cfg.targetZoneDistance <= e < |tl| ==> tl[e] == EmptySlot)
  }

  /** One audible slot is covered. */
  lemma SlotCovered(cfg: Config, frames: seq<Frame>, k: nat)
    requires ValidConfig(cfg) && k < |RealSlots(cfg, frames)|
    ensures AnchorCovered(cfg, frames, k)
  {
    var tl := Timeline(cfg, frames);
    var L := HistoryLength(cfg);
    var m := |RealSlots(cfg, frames)|;
    TimelineShape(cfg, frames);
    assert tl[L + k] == tl[L..L + m][k];
    if L + k + L <= |tl| {
      var runs := RecordRuns(cfg, |frames|, tl);
      PassEmitted(cfg, |frames|, tl, runs, m, L + k);
      assert Fingerprints(cfg, frames) == Output(cfg, |frames|, tl, m);
    } else {
      forall e | L + k + cfg.targetZoneDistance <= e < |tl|
        ensures tl[e] == EmptySlot
      {
        assert FillerAt(tl, e);
      }
    }
  }

  /** The flush lets every audible slot become an anchor whose pairs can
      exist: the last `targetZoneDistance` audible slots are never anchors,
      but their target zones hold only empty flush slots. */
  lemma FlushCompleteness(cfg: Config, frames: seq<Frame>)
    requires ValidConfig(cfg)
    ensures forall k :: 0 <= k < |RealSlots(cfg, frames)| ==> AnchorCovered(cfg, frames, k)
  {
    forall k | 0 <= k < |RealSlots(cfg, frames)|
      ensures AnchorCovered(cfg, frames, k)
    {
      SlotCovered(cfg, frames, k);
    }
  }
}
