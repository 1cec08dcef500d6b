/** Pairing the anchor frame's peaks with later peaks of the target zone
    (FingerprintGenerator.cs:204-231). */
module PairFinder {
  import opened PeakPairs
  import opened Configuration
  import opened PeakHistories

  function Abs(x: int): int { if x < 0 then -x else x }

  /** The frequency test of the source: `target` lies within `halfWidth` bins
      of `peak`. */
  predicate InBand(halfWidth: int, peak: Peak, target: Peak)
  {
    peak.index >= target.index - halfWidth && peak.index <= target.index + halfWidth
  }

  lemma InBandIsDistance(halfWidth: int, peak: Peak, target: Peak)
    ensures InBand(halfWidth, peak, target) <==> Abs(peak.index - target.index) <= halfWidth
  {
  }

  /** The pairs of `peak` with the peaks of `targets` that pass the frequency
      test, in list order. */
  function Matches(cfg: Config, index: int, peak: Peak, targets: seq<Peak>, distance: int): (r: seq<PeakPair>)
    decreases |targets|
  {
    if targets == [] then []
    else
      var last := targets[|targets| - 1];
      Matches(cfg, index, peak, targets[..|targets| - 1], distance)
        + (if InBand(HalfWidth(cfg), peak, last) then [PeakPair(index, peak, last, distance)] else [])
  }

  /** Every qualifying pair of anchor peak `peak` at the distances from the
      start of the target zone up to `d` (exclusive), by ascending distance and
      then in list order. */
  function Targets(cfg: Config, slots: seq<Slot>, peak: Peak, d: int): (r: seq<PeakPair>)
    requires ValidConfig(cfg) && 0 < |slots| && d <= |slots|
    decreases d
  {
    if d <= cfg.targetZoneDistance then []
    else Targets(cfg, slots, peak, d - 1) + Matches(cfg, slots[0].index, peak, slots[d - 1].peaks, d - 1)
  }

  /** The first `n` elements of `s`, or all of them. */
  function Take<T>(s: seq<T>, n: int): (r: seq<T>)
    requires n >= 0
    ensures r <= s && |r| == if |s| <= n then |s| else n
  {
    if |s| <= n then s else s[..n]
  }

  /** The pairs of one anchor peak: its first `peakFanout` qualifying targets. */
  function AnchorPairs(cfg: Config, slots: seq<Slot>, peak: Peak): (r: seq<PeakPair>)
    requires ValidConfig(cfg) && 0 < |slots|
  {
    Take(Targets(cfg, slots, peak, |slots|), cfg.peakFanout)
  }

  /** The pairs of the anchor peaks `anchors`, grouped by anchor in list order. */
  function PairsOf(cfg: Config, slots: seq<Slot>, anchors: seq<Peak>): (r: seq<PeakPair>)
    requires ValidConfig(cfg) && 0 < |slots|
    decreases |anchors|
  {
    if anchors == [] then []
    else PairsOf(cfg, slots, anchors[..|anchors| - 1]) + AnchorPairs(cfg, slots, anchors[|anchors| - 1])
  }

  /** The pairs `FindPairs` produces for a history whose slots are `slots`. */
  function PairsFor(cfg: Config, slots: seq<Slot>): (r: seq<PeakPair>)
    requires ValidConfig(cfg) && 0 < |slots|
  {
    PairsOf(cfg, slots, slots[0].peaks)
  }

  /** A pair the target zone admits for anchor peak `peak`. */
  ghost predicate Admissible(cfg: Config, slots: seq<Slot>, peak: Peak, pp: PeakPair)
    requires 0 < |slots|
  {
    pp.index == slots[0].index && pp.peak1 == peak &&
    0 <= cfg.targetZoneDistance <= pp.distance < |slots| && pp.peak2 in slots[pp.distance].peaks &&
    InBand(HalfWidth(cfg), peak, pp.peak2)
  }

  lemma {:induction false} MatchesCharacterized(cfg: Config, slots: seq<Slot>, peak: Peak, d: int, targets: seq<Peak>)
    requires ValidConfig(cfg) && cfg.targetZoneDistance <= d < |slots| && targets <= slots[d].peaks
    ensures forall pp :: pp in Matches(cfg, slots[0].index, peak, targets, d) <==>
      pp.distance == d && pp.peak2 in targets && Admissible(cfg, slots, peak, pp)
    ensures forall k :: 0 <= k < |Matches(cfg, slots[0].index, peak, targets, d)| ==>
      Matches(cfg, slots[0].index, peak, targets, d)[k].distance == d
    decreases |targets|
  {
    if targets != [] {
      var init := targets[..|targets| - 1];
      var last := targets[|targets| - 1];
      assert init <= slots[d].peaks;
      MatchesCharacterized(cfg, slots, peak, d, init);
      assert targets == init + [last];
      assert last in slots[d].peaks by { assert slots[d].peaks[|targets| - 1] == last; }
      var tail := if InBand(HalfWidth(cfg), peak, last) then [PeakPair(slots[0].index, peak, last, d)] else [];
      assert Matches(cfg, slots[0].index, peak, targets, d) == Matches(cfg, slots[0].index, peak, init, d) + tail;
      forall pp
        ensures pp in Matches(cfg, slots[0].index, peak, targets, d) <==>
          pp.distance == d && pp.peak2 in targets && Admissible(cfg, slots, peak, pp)
      {
        assert pp.peak2 in targets <==> pp.peak2 in init || pp.peak2 == last;
      }
    }
  }

  /** `Targets` holds exactly the admissible pairs below distance `d`, by
      non-decreasing distance. */
  lemma {:induction false} TargetsCharacterized(cfg: Config, slots: seq<Slot>, peak: Peak, d: int)
    requires ValidConfig(cfg) && 0 < |slots| && d <= |slots|
    ensures forall pp :: pp in Targets(cfg, slots, peak, d) <==> pp.distance < d && Admissible(cfg, slots, peak, pp)
    ensures forall k, l :: 0 <= k < l < |Targets(cfg, slots, peak, d)| ==>
      Targets(cfg, slots, peak, d)[k].distance <= Targets(cfg, slots, peak, d)[l].distance
    ensures forall k :: 0 <= k < |Targets(cfg, slots, peak, d)| ==> Targets(cfg, slots, peak, d)[k].distance < d
    decreases d
  {
    if d > cfg.targetZoneDistance {
      TargetsCharacterized(cfg, slots, peak, d - 1);
      MatchesCharacterized(cfg, slots, peak, d - 1, slots[d - 1].peaks);
    }
  }

  /** The qualifying pairs of fewer targets are a prefix. */
  lemma {:induction false} MatchesPrefix(cfg: Config, index: int, peak: Peak, targets: seq<Peak>, k: int, d: int)
    requires 0 <= k <= |targets|
    ensures Matches(cfg, index, peak, targets[..k], d) <= Matches(cfg, index, peak, targets, d)
    decreases |targets| - k
  {
    if k < |targets| {
      var init := targets[..|targets| - 1];
      assert targets[..k] == init[..k];
      MatchesPrefix(cfg, index, peak, init, k, d);
      var short := Matches(cfg, index, peak, init[..k], d);
      var mid := Matches(cfg, index, peak, init, d);
      var whole := Matches(cfg, index, peak, targets, d);
      assert |mid| <= |whole| && whole[..|mid|] == mid;
      assert |short| <= |mid| && short == mid[..|short|];
      assert short == whole[..|short|];
    } else {
      assert targets[..k] == targets;
    }
  }

  /** The qualifying pairs of fewer distances are a prefix. */
  lemma {:induction false} TargetsPrefix(cfg: Config, slots: seq<Slot>, peak: Peak, d: int, e: int)
    requires ValidConfig(cfg) && 0 < |slots| && d <= e <= |slots|
    ensures Targets(cfg, slots, peak, d) <= Targets(cfg, slots, peak, e)
    decreases e - d
  {
    if d < e {
      TargetsPrefix(cfg, slots, peak, d, e - 1);
    }
  }

  /** An anchor peak takes part in at most `peakFanout` pairs; they are the
      first qualifying targets in scan order, and below the cap they are all of
      them. */
  lemma AnchorPairsCharacterized(cfg: Config, slots: seq<Slot>, peak: Peak)
    requires ValidConfig(cfg) && 0 < |slots|
    ensures var r := AnchorPairs(cfg, slots, peak);
      |r| <= cfg.peakFanout &&
      r <= Targets(cfg, slots, peak, |slots|) &&
      (forall pp :: pp in r ==> Admissible(cfg, slots, peak, pp)) &&
      (|r| < cfg.peakFanout ==> forall pp :: Admissible(cfg, slots, peak, pp) ==> pp in r) &&
      (forall k, l :: 0 <= k < l < |r| ==> r[k].distance <= r[l].distance)
  {
    var all := Targets(cfg, slots, peak, |slots|);
    TargetsCharacterized(cfg, slots, peak, |slots|);
    var r := AnchorPairs(cfg, slots, peak);
    forall pp | pp in r ensures Admissible(cfg, slots, peak, pp) {
      var k :| 0 <= k < |r| && r[k] == pp;
      assert all[k] == pp;
    }
    forall k, l | 0 <= k < l < |r| ensures r[k].distance <= r[l].distance {
      assert r[k] == all[k] && r[l] == all[l];
    }
  }

  /** Every pair of `PairsOf` is admissible for one of the anchors. */
  lemma {:induction false} PairsOfSound(cfg: Config, slots: seq<Slot>, anchors: seq<Peak>)
    requires ValidConfig(cfg) && 0 < |slots|
    ensures forall pp :: pp in PairsOf(cfg, slots, anchors) ==>
      pp.peak1 in anchors && Admissible(cfg, slots, pp.peak1, pp)
    decreases |anchors|
  {
    if anchors != [] {
      var init := anchors[..|anchors| - 1];
      var last := anchors[|anchors| - 1];
      PairsOfSound(cfg, slots, init);
      AnchorPairsCharacterized(cfg, slots, last);
      assert anchors == init + [last];
      forall pp | pp in PairsOf(cfg, slots, anchors)
        ensures pp.peak1 in anchors && Admissible(cfg, slots, pp.peak1, pp)
      {
        if pp !in PairsOf(cfg, slots, init) {
          assert pp in AnchorPairs(cfg, slots, last);
        }
      }
    }
  }

  /** At most `peakFanout` pairs per anchor peak. */
  lemma {:induction false} PairsOfCount(cfg: Config, slots: seq<Slot>, anchors: seq<Peak>)
    requires ValidConfig(cfg) && 0 < |slots|
    ensures |PairsOf(cfg, slots, anchors)| <= |anchors| * cfg.peakFanout
    decreases |anchors|
  {
    if anchors != [] {
      var init := anchors[..|anchors| - 1];
      PairsOfCount(cfg, slots, init);
      MulSucc(|init|, cfg.peakFanout);
    }
  }

  lemma MulSucc(n: int, f: int)
    ensures (n + 1) * f == n * f + f
  {
  }

  /** What every pair of a pairing pass satisfies: it is tagged with the
      anchor frame's index, pairs an anchor peak with a peak of the target
      zone, `targetZoneDistance <= distance < Length`, within half the zone's
      width in frequency; there are at most `peakFanout` pairs per anchor peak. */
  lemma PairsForSound(cfg: Config, slots: seq<Slot>)
    requires ValidConfig(cfg) && 0 < |slots|
    ensures forall pp :: pp in PairsFor(cfg, slots) ==>
      pp.index == slots[0].index && pp.peak1 in slots[0].peaks &&
      cfg.targetZoneDistance <= pp.distance < |slots| && pp.peak2 in slots[pp.distance].peaks &&
      Abs(pp.peak1.index - pp.peak2.index) <= HalfWidth(cfg)
    ensures |PairsFor(cfg, slots)| <= |slots[0].peaks| * cfg.peakFanout
  {
    PairsOfSound(cfg, slots, slots[0].peaks);
    PairsOfCount(cfg, slots, slots[0].peaks);
    forall pp | pp in PairsFor(cfg, slots)
      ensures Abs(pp.peak1.index - pp.peak2.index) <= HalfWidth(cfg)
    {
      InBandIsDistance(HalfWidth(cfg), pp.peak1, pp.peak2);
    }
  }

  /** An empty target zone yields no targets. */
  lemma {:induction false} TargetsNone(cfg: Config, slots: seq<Slot>, peak: Peak, d: int)
    requires ValidConfig(cfg) && 0 < |slots| && d <= |slots|
    requires forall e :: cfg.targetZoneDistance <= e < |slots| ==> slots[e].peaks == []
    ensures Targets(cfg, slots, peak, d) == []
    decreases d
  {
    if d > cfg.targetZoneDistance {
      TargetsNone(cfg, slots, peak, d - 1);
    }
  }

  /** An empty target zone yields no pairs, whatever the anchors. */
  lemma {:induction false} PairsOfNone(cfg: Config, slots: seq<Slot>, anchors: seq<Peak>)
    requires ValidConfig(cfg) && 0 < |slots|
    requires forall e :: cfg.targetZoneDistance <= e < |slots| ==> slots[e].peaks == []
    ensures PairsOf(cfg, slots, anchors) == []
    decreases |anchors|
  {
    if anchors != [] {
      PairsOfNone(cfg, slots, anchors[..|anchors| - 1]);
      TargetsNone(cfg, slots, anchors[|anchors| - 1], |slots|);
    }
  }

  /** Pairing finds nothing when the anchor frame has no peaks or the target
      zone holds none. */
  lemma NoPairsWithoutPeaks(cfg: Config, slots: seq<Slot>)
    requires ValidConfig(cfg) && 0 < |slots|
    requires slots[0].peaks == [] ||
      forall d :: cfg.targetZoneDistance <= d < |slots| ==> slots[d].peaks == []
    ensures PairsFor(cfg, slots) == []
  {
    if slots[0].peaks != [] {
      PairsOfNone(cfg, slots, slots[0].peaks);
    }
  }

  /** The distance loop of `PairAnchor` has scanned the distances below
      `distance` and found `pairs`, fewer than the cap. */
  predicate Scanned(cfg: Config, slots: seq<Slot>, peak: Peak, distance: int, pairs: seq<PeakPair>)
    requires ValidConfig(cfg) && 0 < |slots|
  {
    cfg.targetZoneDistance <= distance &&
    (distance <= |slots| || distance == cfg.targetZoneDistance) &&
    pairs == (if distance <= |slots| then Targets(cfg, slots, peak, distance) else []) &&
    |pairs| < cfg.peakFanout
  }

  /** The body of the loop over anchor peaks in `FindPairs`: scan the target
      zone by distance, stopping once `peak` has `peakFanout` pairs. */
  method PairAnchor(peakHistory: PeakHistory, cfg: Config, index: int, halfWidth: int, peak: Peak)
    returns (pairs: seq<PeakPair>)
    requires ValidConfig(cfg) && peakHistory.Valid()
    requires index == peakHistory.Slots[0].index && halfWidth == HalfWidth(cfg)
    ensures pairs == AnchorPairs(cfg, peakHistory.Slots, peak)
  {
    ghost var slots := peakHistory.Slots;
    pairs := [];
    var count := 0;
    var length := peakHistory.Length();  // the capacity never changes
    var distance := cfg.targetZoneDistance;
    while distance < length
      invariant length == |slots| && count == |pairs|
      invariant Scanned(cfg, slots, peak, distance, pairs)
    {
      var targets := peakHistory.ListAt(distance);
      pairs, count := PairAtDistance(cfg, slots, index, halfWidth, peak, targets, distance, pairs, count);
      if count >= cfg.peakFanout {
        break;
      }
      distance := distance + 1;
    }
    if count < cfg.peakFanout {
      ZoneExhausted(cfg, slots, peak, distance, pairs);
    }
  }

  /** The whole target zone was scanned without reaching the cap: the pairs
      found are all the anchor's pairs. */
  lemma ZoneExhausted(cfg: Config, slots: seq<Slot>, peak: Peak, distance: int, pairs: seq<PeakPair>)
    requires ValidConfig(cfg) && 0 < |slots| <= distance
    requires Scanned(cfg, slots, peak, distance, pairs)
    ensures pairs == AnchorPairs(cfg, slots, peak)
  {
  }

  /** The loop over the target peaks of one distance: the matches of that
      distance are appended, up to the `peakFanout` cap. */
  method PairAtDistance(cfg: Config, ghost slots: seq<Slot>, index: int, halfWidth: int, peak: Peak,
                        targets: seq<Peak>, distance: int, found: seq<PeakPair>, found_count: int)
    returns (pairs: seq<PeakPair>, count: int)
    requires ValidConfig(cfg) && 0 <= cfg.targetZoneDistance <= distance < |slots|
    requires index == slots[0].index && halfWidth == HalfWidth(cfg) && targets == slots[distance].peaks
    requires Scanned(cfg, slots, peak, distance, found) && found_count == |found|
    ensures count == |pairs|
    ensures count >= cfg.peakFanout ==> pairs == AnchorPairs(cfg, slots, peak)
    ensures count < cfg.peakFanout ==> Scanned(cfg, slots, peak, distance + 1, pairs)
  {
    assert found == Targets(cfg, slots, peak, distance);
    pairs, count := found, found_count;
    var k := 0;
    while k < |targets|
      invariant 0 <= k <= |targets|
      invariant pairs == found + Matches(cfg, index, peak, targets[..k], distance)
      invariant count == |pairs| < cfg.peakFanout
    {
      var targetPeak := targets[k];
      assert targets[..k + 1][..k] == targets[..k];
      if peak.index >= targetPeak.index - halfWidth && peak.index <= targetPeak.index + halfWidth {
        pairs := pairs + [PeakPair(index, peak, targetPeak, distance)];
        count := count + 1;
        if count >= cfg.peakFanout {
          FanoutReached(cfg, slots, peak, distance, targets, k + 1);
          return;
        }
      }
      k := k + 1;
    }
    assert targets[..k] == targets;
    assert pairs == Targets(cfg, slots, peak, distance + 1);
  }

  /** Once the cap is reached part-way through distance `d`, the pairs found
      so far are the first `peakFanout` qualifying targets. */
  lemma FanoutReached(cfg: Config, slots: seq<Slot>, peak: Peak, d: int, targets: seq<Peak>, k: int)
    requires ValidConfig(cfg) && 0 <= cfg.targetZoneDistance <= d < |slots|
    requires targets == slots[d].peaks && 0 <= k <= |targets|
    requires |Targets(cfg, slots, peak, d) + Matches(cfg, slots[0].index, peak, targets[..k], d)| == cfg.peakFanout
    ensures Targets(cfg, slots, peak, d) + Matches(cfg, slots[0].index, peak, targets[..k], d)
         == AnchorPairs(cfg, slots, peak)
  {
    MatchesPrefix(cfg, slots[0].index, peak, targets, k, d);
    TargetsPrefix(cfg, slots, peak, d + 1, |slots|);
  }

  /** `FindPairs`: the pairs of every anchor peak, grouped by anchor. */
  method FindPairs(peakHistory: PeakHistory, cfg: Config) returns (peakPairs: seq<PeakPair>)
    requires ValidConfig(cfg) && peakHistory.Valid()
    ensures peakPairs == PairsFor(cfg, peakHistory.Slots)
  {
    var halfWidth := HalfWidth(cfg);
    var index := peakHistory.Index();
    var anchors := peakHistory.ListAt(0);
    peakPairs := [];
    for a := 0 to |anchors|
      invariant peakPairs == PairsOf(cfg, peakHistory.Slots, anchors[..a])
    {
      var pairs := PairAnchor(peakHistory, cfg, index, halfWidth, anchors[a]);
      peakPairs := peakPairs + pairs;
      assert anchors[..a + 1][..a] == anchors[..a];
    }
    assert anchors[..|anchors|] == anchors;
  }
}
