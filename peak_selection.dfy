/** Keeping the tallest peaks of a frame (FingerprintGenerator.cs:112-120). */
module PeakSelection {
  import opened PeakPairs

  /** The two orders the source sorts a peak list by. */
  datatype PeakOrder = ByValueDescending | ByIndexAscending

  /** A sort key for each order; sorting ascending by key sorts by the order. */
  function Key(o: PeakOrder, p: Peak): int
  {
    match o
    case ByValueDescending => -p.value
    case ByIndexAscending => p.index
  }

  predicate SortedBy(o: PeakOrder, s: seq<Peak>)
  {
    forall i, j :: 0 <= i < j < |s| ==> Key(o, s[i]) <= Key(o, s[j])
  }

  /** A key below every key of a sorted list can go in front of it. */
  lemma SortedCons(o: PeakOrder, h: Peak, t: seq<Peak>)
    requires SortedBy(o, t) && forall k :: 0 <= k < |t| ==> Key(o, h) <= Key(o, t[k])
    ensures SortedBy(o, [h] + t)
  {
    var s := [h] + t;
    forall i, j | 0 <= i < j < |s|
      ensures Key(o, s[i]) <= Key(o, s[j])
    {
      if i > 0 {
        assert s[i] == t[i - 1] && s[j] == t[j - 1];
      }
    }
  }

  /** Inserts `x` in front of the first peak of larger key. */
  function Insert(o: PeakOrder, x: Peak, s: seq<Peak>): (r: seq<Peak>)
    ensures |r| == |s| + 1
  {
    if s == [] then [x]
    else if Key(o, x) < Key(o, s[0]) then [x] + s
    else [s[0]] + Insert(o, x, s[1..])
  }

  /** Inserting adds exactly `x`. */
  lemma {:induction false} InsertPermutes(o: PeakOrder, x: Peak, s: seq<Peak>)
    ensures multiset(Insert(o, x, s)) == multiset(s) + multiset{x}
  {
    if s != [] && Key(o, x) >= Key(o, s[0]) {
      InsertPermutes(o, x, s[1..]);
      assert s == [s[0]] + s[1..];
    }
  }

  /** Inserting into a sorted list keeps it sorted. */
  lemma {:induction false} InsertSorted(o: PeakOrder, x: Peak, s: seq<Peak>)
    requires SortedBy(o, s)
    ensures SortedBy(o, Insert(o, x, s))
  {
    if s == [] {
    } else if Key(o, x) < Key(o, s[0]) {
      SortedCons(o, x, s);
    } else {
      var rest := Insert(o, x, s[1..]);
      InsertSorted(o, x, s[1..]);
      InsertPermutes(o, x, s[1..]);
      forall k | 0 <= k < |rest|
        ensures Key(o, s[0]) <= Key(o, rest[k])
      {
        assert rest[k] in multiset(rest);
        if rest[k] != x {
          assert rest[k] in multiset(s[1..]);
          var m :| 0 <= m < |s[1..]| && s[1..][m] == rest[k];
          assert s[m + 1] == rest[k];
        }
      }
      SortedCons(o, s[0], rest);
    }
  }

  /** `List<Peak>.Sort` with a comparator for order `o`, as an insertion sort.
      The order among peaks of equal key is that of this insertion sort. */
  function Sort(o: PeakOrder, s: seq<Peak>): (r: seq<Peak>)
    ensures |r| == |s|
  {
    if s == [] then [] else Insert(o, s[0], Sort(o, s[1..]))
  }

  /** The sort returns a permutation of its input, sorted by `o`. */
  lemma {:induction false} SortSorted(o: PeakOrder, s: seq<Peak>)
    ensures var r := Sort(o, s);
      SortedBy(o, r) && multiset(r) == multiset(s)
  {
    if s != [] {
      SortSorted(o, s[1..]);
      InsertSorted(o, s[0], Sort(o, s[1..]));
      InsertPermutes(o, s[0], Sort(o, s[1..]));
      assert s == [s[0]] + s[1..];
    }
  }

  function Min(a: int, b: int): int { if a < b then a else b }

  /** The selection step of `Generate`: sort by height, keep the first
      `min(|found|, peaksPerFrame)` and sort those by bin. When that count is
      not positive the list is left as it is. Its properties are stated by
      `SelectPeaksShape` and `SelectPeaksKeepsTallest`. */
  function SelectPeaks(found: seq<Peak>, peaksPerFrame: int): seq<Peak>
  {
    var numMaxima := Min(|found|, peaksPerFrame);
    if numMaxima > 0 then Sort(ByIndexAscending, Sort(ByValueDescending, found)[..numMaxima])
    else found
  }

  /** The selection keeps `min(|found|, peaksPerFrame)` peaks, ordered by
      bin; with a non-positive `peaksPerFrame` it keeps the list as it is. */
  lemma SelectPeaksShape(found: seq<Peak>, peaksPerFrame: int)
    ensures var kept := SelectPeaks(found, peaksPerFrame);
      (peaksPerFrame > 0 ==> |kept| == Min(|found|, peaksPerFrame) && SortedBy(ByIndexAscending, kept)) &&
      (peaksPerFrame <= 0 ==> kept == found)
  {
    var numMaxima := Min(|found|, peaksPerFrame);
    if numMaxima > 0 {
      SortSorted(ByIndexAscending, Sort(ByValueDescending, found)[..numMaxima]);
    }
  }

  /** The kept peaks are found peaks, and no dropped peak is taller than a
      kept one. */
  lemma SelectPeaksKeepsTallest(found: seq<Peak>, peaksPerFrame: int)
    ensures var kept := SelectPeaks(found, peaksPerFrame);
      multiset(kept) <= multiset(found) &&
      forall d, k :: d in multiset(found) - multiset(kept) && k in kept ==> d.value <= k.value
  {
    var numMaxima := Min(|found|, peaksPerFrame);
    if numMaxima > 0 {
      var byHeight := Sort(ByValueDescending, found);
      var tallest := byHeight[..numMaxima];
      var kept := Sort(ByIndexAscending, tallest);
      assert kept == SelectPeaks(found, peaksPerFrame);
      SortSorted(ByValueDescending, found);
      SortSorted(ByIndexAscending, tallest);
      TallestDominate(byHeight, numMaxima);
      assert byHeight == tallest + byHeight[numMaxima..];
      assert multiset(found) == multiset(tallest) + multiset(byHeight[numMaxima..]);
      assert multiset(found) - multiset(kept) == multiset(byHeight[numMaxima..]);
      forall d, k | d in multiset(found) - multiset(kept) && k in kept
        ensures d.value <= k.value
      {
        assert k in multiset(tallest);
      }
    }
  }

  /** In a list sorted by descending height, nothing after position `n` is
      taller than anything before it. */
  lemma TallestDominate(s: seq<Peak>, n: int)
    requires SortedBy(ByValueDescending, s) && 0 <= n <= |s|
    ensures forall d, k :: d in multiset(s[n..]) && k in multiset(s[..n]) ==> d.value <= k.value
  {
    forall d, k | d in multiset(s[n..]) && k in multiset(s[..n])
      ensures d.value <= k.value
    {
      var i :| n <= i < |s| && s[i] == d by { assert d in s[n..]; }
      var j :| 0 <= j < n && s[j] == k by { assert k in s[..n]; }
      assert Key(ByValueDescending, s[j]) <= Key(ByValueDescending, s[i]);
    }
  }
}
