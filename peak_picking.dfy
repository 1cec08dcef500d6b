/** Local peak picking over one residual spectrum (FingerprintGenerator.cs:158-202). */
module PeakPicking {
  import opened PeakPairs

  /** `float.MinValue`, the value the scan starts from. Every float is an
      integer at this magnitude, so the comparisons against it are exact. */
  const FloatMinValue: int := -340282346638528859811704183484516925440

  /** The value the scan compares `data[i]` with. */
  function Prev(data: seq<int>, i: int): int
    requires 0 <= i < |data|
  {
    if i == 0 then FloatMinValue else data[i - 1]
  }

  /** Values `data[a..j]` all equal `data[a]`. */
  ghost predicate Flat(data: seq<int>, a: int, j: int)
    requires 0 <= a < |data| && j <= |data|
  {
    forall k :: a <= k < j ==> data[k] == data[a]
  }

  /** A peak sits at `p` when the signal rises strictly into `p`, stays level
      on a (possibly one-sample) plateau and then falls strictly: the peak is
      reported at the first sample of its plateau. */
  ghost predicate IsPeakAt(data: seq<int>, p: int)
  {
    0 <= p < |data| && Prev(data, p) < data[p] &&
    exists j :: p < j < |data| && data[j] < data[p] && Flat(data, p, j)
  }

  /** Some peak of `r` sits at bin `p`. */
  ghost predicate HasPeakAt(r: seq<Peak>, p: int)
  {
    exists k :: 0 <= k < |r| && r[k].index == p
  }

  lemma HasPeakAtAppend(a: seq<Peak>, b: seq<Peak>)
    ensures forall p :: HasPeakAt(a + b, p) <==> HasPeakAt(a, p) || HasPeakAt(b, p)
  {
    forall p | HasPeakAt(a + b, p)
      ensures HasPeakAt(a, p) || HasPeakAt(b, p)
    {
      var k :| 0 <= k < |a + b| && (a + b)[k].index == p;
      if k >= |a| {
        assert b[k - |a|].index == p;
      }
    }
    forall p | HasPeakAt(a, p)
      ensures HasPeakAt(a + b, p)
    {
      var k :| 0 <= k < |a| && a[k].index == p;
      assert (a + b)[k].index == p;
    }
    forall p | HasPeakAt(b, p)
      ensures HasPeakAt(a + b, p)
    {
      var k :| 0 <= k < |b| && b[k].index == p;
      assert (a + b)[|a| + k].index == p;
    }
  }

  /** Every peak below position `n`, in index order. */
  ghost function PeaksBelow(data: seq<int>, n: int): seq<Peak>
    requires 0 <= n <= |data|
    decreases n
  {
    if n == 0 then []
    else PeaksBelow(data, n - 1) + if IsPeakAt(data, n - 1) then [Peak(n - 1, data[n - 1])] else []
  }

  /** `PeaksBelow(data, n)` lists exactly the peaks below `n`, in increasing
      bin order, each with the value of its bin. */
  lemma {:induction false} PeaksBelowCharacterized(data: seq<int>, n: int)
    requires 0 <= n <= |data|
    ensures var r := PeaksBelow(data, n);
      (forall k :: 0 <= k < |r| ==> 0 <= r[k].index < n && r[k].value == data[r[k].index]) &&
      (forall k, l :: 0 <= k < l < |r| ==> r[k].index < r[l].index) &&
      (forall p :: 0 <= p < n ==> (IsPeakAt(data, p) <==> HasPeakAt(r, p)))
    decreases n
  {
    if n > 0 {
      PeaksBelowCharacterized(data, n - 1);
      var below := PeaksBelow(data, n - 1);
      var here := if IsPeakAt(data, n - 1) then [Peak(n - 1, data[n - 1])] else [];
      var r := below + here;
      assert PeaksBelow(data, n) == r;
      forall k | 0 <= k < |r|
        ensures 0 <= r[k].index < n && r[k].value == data[r[k].index]
      {
        if k >= |below| { assert r[k] == here[0]; }
      }
      forall k, l | 0 <= k < l < |r|
        ensures r[k].index < r[l].index
      {
        if l >= |below| { assert r[l] == here[0]; }
      }
      HasPeakAtAppend(below, here);
      forall p | 0 <= p < n
        ensures IsPeakAt(data, p) <==> HasPeakAt(r, p)
      {
        if p == n - 1 {
          assert !HasPeakAt(below, p);
          if IsPeakAt(data, p) { assert r[|below|].index == p; }
        } else {
          assert !HasPeakAt(here, p);
        }
      }
    }
  }

  /** The peaks of a whole spectrum. */
  ghost function LocalMaxima(data: seq<int>): seq<Peak>
  {
    PeaksBelow(data, |data|)
  }

  /** Adding positions that hold no peak leaves `PeaksBelow` unchanged. */
  lemma {:induction false} PeaksBelowNoNew(data: seq<int>, a: int, n: int)
    requires 0 <= a <= n <= |data|
    requires forall p :: a <= p < n ==> !IsPeakAt(data, p)
    ensures PeaksBelow(data, n) == PeaksBelow(data, a)
    decreases n
  {
    if n > a {
      PeaksBelowNoNew(data, a, n - 1);
    }
  }

  /** The state of the scan before position `i`: with no candidate
      (`anchor == -1`) every peak below `i` has been emitted; with a candidate,
      the scan is on a plateau that a strict rise reached at `anchor`, and every
      peak below `anchor` has been emitted. */
  ghost predicate ScanState(data: seq<int>, i: int, anchor: int, emitted: seq<Peak>)
    requires 0 <= i <= |data|
  {
    if anchor == -1 then emitted == PeaksBelow(data, i)
    else 0 <= anchor < i && Prev(data, anchor) < data[anchor] && Flat(data, anchor, i)
         && emitted == PeaksBelow(data, anchor)
  }

  /** A strict rise at `i` makes `i` the candidate. */
  lemma RiseStep(data: seq<int>, i: int, anchor: int, emitted: seq<Peak>)
    requires 0 <= i < |data| && ScanState(data, i, anchor, emitted) && data[i] > Prev(data, i)
    ensures ScanState(data, i + 1, i, emitted)
  {
    if anchor != -1 {
      forall p, j | anchor <= p < i && p < j < |data|
        ensures Flat(data, p, j) ==> data[j] >= data[p]
      {
        assert data[p] == data[anchor] < data[i];
      }
      PeaksBelowNoNew(data, anchor, i);
    }
  }

  /** A level step keeps the candidate. */
  lemma LevelStep(data: seq<int>, i: int, anchor: int, emitted: seq<Peak>)
    requires 0 <= i < |data| && ScanState(data, i, anchor, emitted) && data[i] == Prev(data, i)
    ensures ScanState(data, i + 1, anchor, emitted)
  {
    if anchor == -1 {
      PeaksBelowNoNew(data, i, i + 1);
    }
  }

  /** A strict fall with no candidate emits nothing. */
  lemma FallStep(data: seq<int>, i: int, anchor: int, emitted: seq<Peak>)
    requires 0 <= i < |data| && ScanState(data, i, anchor, emitted) && data[i] < Prev(data, i)
    ensures anchor == -1 ==> ScanState(data, i + 1, -1, emitted)
    ensures anchor != -1 ==> ScanState(data, i + 1, -1, emitted + [Peak(anchor, Prev(data, i))])
  {
    if anchor == -1 {
      PeaksBelowNoNew(data, i, i + 1);
    } else {
      ConfirmPeak(data, i, anchor, emitted);
    }
  }

  /** A strict fall confirms the candidate as a peak, with the value of the
      sample before the fall. */
  lemma ConfirmPeak(data: seq<int>, i: int, anchor: int, emitted: seq<Peak>)
    requires 0 <= anchor < i < |data| && data[i] < data[i - 1]
    requires Prev(data, anchor) < data[anchor] && Flat(data, anchor, i)
    requires emitted == PeaksBelow(data, anchor)
    ensures data[i - 1] == data[anchor]
    ensures emitted + [Peak(anchor, data[anchor])] == PeaksBelow(data, i + 1)
  {
    assert data[i - 1] == data[anchor];
    assert IsPeakAt(data, anchor) by {
      assert anchor < i && data[i] < data[anchor] && Flat(data, anchor, i);
    }
    assert PeaksBelow(data, anchor + 1) == emitted + [Peak(anchor, data[anchor])];
    NotRisingAfter(data, anchor, i);
    PeaksBelowNoNew(data, anchor + 1, i + 1);
  }

  /** Past the first sample of a plateau and at a fall the signal does not rise. */
  lemma NotRisingAfter(data: seq<int>, anchor: int, i: int)
    requires 0 <= anchor < i < |data| && Flat(data, anchor, i) && data[i] < data[i - 1]
    ensures forall p :: anchor < p <= i ==> !IsPeakAt(data, p)
  {
    forall p | anchor < p <= i
      ensures Prev(data, p) >= data[p]
    {
    }
  }

  /** A candidate still pending at the end of the spectrum is no peak. */
  lemma EndStep(data: seq<int>, anchor: int, emitted: seq<Peak>)
    requires ScanState(data, |data|, anchor, emitted)
    ensures emitted == LocalMaxima(data)
  {
    if anchor != -1 {
      forall p, j | anchor <= p < j < |data|
        ensures data[j] == data[p]
      {
      }
      PeaksBelowNoNew(data, anchor, |data|);
    }
  }

  /** `FindLocalMaxima`: one left-to-right scan that remembers the previous
      value and the candidate peak (`anchorIndex`, -1 for none). */
  method FindLocalMaxima(data: array<int>) returns (peakList: seq<Peak>)
    ensures peakList == LocalMaxima(data[..])
  {
    ghost var d := data[..];
    var lastVal := FloatMinValue;
    var anchorIndex := -1;
    peakList := [];
    for i := 0 to data.Length
      invariant lastVal == if i == 0 then FloatMinValue else d[i - 1]
      invariant ScanState(d, i, anchorIndex, peakList)
    {
      var val := data[i];
      if val > lastVal {
        // climbing a slope
        RiseStep(d, i, anchorIndex, peakList);
        anchorIndex := i;
      } else if val == lastVal {
        // on a plateau: the peak stays at its first sample
        LevelStep(d, i, anchorIndex, peakList);
      } else {
        // going down: the first fall after a rise confirms the peak
        FallStep(d, i, anchorIndex, peakList);
        if anchorIndex > -1 {
          peakList := peakList + [Peak(anchorIndex, lastVal)];
          anchorIndex := -1;
        }
      }
      lastVal := val;
    }
    EndStep(d, anchorIndex, peakList);
  }

  /** What `LocalMaxima` promises: strictly increasing bins, the value of each
      peak read from the spectrum, and exactly the positions `IsPeakAt` names. */
  lemma LocalMaximaCharacterized(data: seq<int>)
    ensures var r := LocalMaxima(data);
      (forall k :: 0 <= k < |r| ==> 0 <= r[k].index < |data| && r[k].value == data[r[k].index]) &&
      (forall k, l :: 0 <= k < l < |r| ==> r[k].index < r[l].index) &&
      (forall p :: IsPeakAt(data, p) <==> HasPeakAt(r, p))
  {
    var r := LocalMaxima(data);
    PeaksBelowCharacterized(data, |data|);
    forall p | HasPeakAt(r, p)
      ensures 0 <= p < |data|
    {
    }
  }

  /** A spectrum that never falls from position `a` on holds no peak from `a`
      on: a run still rising or level at the end emits nothing. */
  lemma NoPeakInRisingTail(data: seq<int>, a: int)
    requires 0 <= a
    requires forall k :: a <= k < |data| - 1 ==> data[k] <= data[k + 1]
    ensures forall p :: a <= p ==> !IsPeakAt(data, p)
  {
    forall p, j | a <= p < j < |data| && Flat(data, p, j)
      ensures data[j] >= data[p]
    {
      assert data[j - 1] == data[p];
    }
  }

  /** Two plateaus: 3 at bins 1-2 and 5 at bins 4-6. */
  const PlateauSpectrum: seq<int> := [1, 3, 3, 2, 5, 5, 5, 1]

  lemma PlateauPeaks()
    ensures IsPeakAt(PlateauSpectrum, 1) && IsPeakAt(PlateauSpectrum, 4)
  {
    var d := PlateauSpectrum;
    assert d[3] < d[1] && Flat(d, 1, 3);
    assert d[7] < d[4] && Flat(d, 4, 7);
  }

  lemma PlateauNonPeaks()
    ensures forall p :: p != 1 && p != 4 ==> !IsPeakAt(PlateauSpectrum, p)
  {
    var d := PlateauSpectrum;
    forall j | 0 < j < |d| ensures d[j] >= d[0] { }
    forall p | 0 < p < |d| && p != 1 && p != 4 ensures Prev(d, p) >= d[p] { }
  }

  /** The plateau example: one peak per plateau, at its first sample. */
  lemma PlateauExample()
    ensures LocalMaxima(PlateauSpectrum) == [Peak(1, 3), Peak(4, 5)]
  {
    var d := PlateauSpectrum;
    PlateauPeaks();
    PlateauNonPeaks();
    PeaksBelowNoNew(d, 0, 1);
    assert PeaksBelow(d, 1) == [];
    assert PeaksBelow(d, 2) == PeaksBelow(d, 1) + [Peak(1, d[1])];
    PeaksBelowNoNew(d, 2, 4);
    assert PeaksBelow(d, 5) == PeaksBelow(d, 4) + [Peak(4, d[4])];
    PeaksBelowNoNew(d, 5, 8);
  }

  /** A strictly rising spectrum has no peak. */
  lemma RisingExample()
    ensures LocalMaxima([1, 2, 3]) == []
  {
    NoPeakInRisingTail([1, 2, 3], 0);
    PeaksBelowNoNew([1, 2, 3], 0, 3);
  }
}
