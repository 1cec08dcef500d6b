/** The peak history: a FIFO of (frame index, peak list) slots that is always
    full (FingerprintGenerator.cs:285-366). */
module PeakHistories {
  import opened PeakPairs

  /** One history entry: a frame index (-1 for an empty filler) and its peaks. */
  datatype Slot = Slot(index: int, peaks: seq<Peak>)

  /** The slot the history is pre-filled with and the flush adds. */
  const EmptySlot := Slot(-1, [])

  /** `n` filler slots. */
  function EmptySlots(n: nat): (r: seq<Slot>)
    ensures |r| == n && forall k :: 0 <= k < n ==> r[k] == EmptySlot
  {
    seq(n, _ => EmptySlot)
  }

  /** Array position `p` of a ring of `n` cells, for `p < 2 * n`. */
  function Wrap(p: nat, n: nat): (q: nat)
    requires p < 2 * n
    ensures q < n && (q == p || q == p - n)
  {
    if p < n then p else p - n
  }

  /** The two ring buffers of the source, sharing one cursor: `start` is the
      position of the oldest slot, which the next `Add` overwrites. `Slots`
      lists the slots from the oldest (age 0) to the newest. */
  class PeakHistory {
    var indexHistory: array<int>
    var peakHistory: array<seq<Peak>>
    var start: nat
    ghost var Slots: seq<Slot>

    /** The slot of age `k` is held at ring position `start + k`. */
    ghost predicate Holds(k: nat)
      reads this, indexHistory, peakHistory
    {
      k < |Slots| && indexHistory.Length == peakHistory.Length == |Slots| && start < |Slots| &&
      Slots[k] == Slot(indexHistory[Wrap(start + k, |Slots|)], peakHistory[Wrap(start + k, |Slots|)])
    }

    ghost predicate Valid()
      reads this, indexHistory, peakHistory
    {
      indexHistory != peakHistory as object &&
      indexHistory.Length == peakHistory.Length == |Slots| &&
      0 <= start < |Slots| &&
      forall k: nat :: k < |Slots| ==> Holds(k)
    }

    /** Pre-fills `length` slots with `(-1, empty)`. `maxPeaksPerFrame` is only
        a capacity hint for the peak lists of the source. */
    constructor (length: int, maxPeaksPerFrame: int)
      requires length >= 1
      ensures Valid() && fresh(indexHistory) && fresh(peakHistory)
      ensures Slots == EmptySlots(length)
    {
      indexHistory := new int[length](_ => -1);
      peakHistory := new seq<Peak>[length](_ => []);
      start := 0;
      Slots := EmptySlots(length);
    }

    /** The capacity. */
    function Length(): (n: int)
      reads this, indexHistory, peakHistory
      requires Valid()
      ensures n == |Slots| && n >= 1
    {
      peakHistory.Length
    }

    /** The number of slots held: always the capacity, since the history is
        pre-filled and every `Add` evicts one slot. */
    function Count(): (n: int)
      reads this, indexHistory, peakHistory
      requires Valid()
      ensures n == |Slots| && n == Length()
    {
      peakHistory.Length
    }

    /** The frame index of the oldest slot: the anchor frame of pairing. */
    function Index(): (i: int)
      reads this, indexHistory, peakHistory
      requires Valid()
      ensures i == Slots[0].index
    {
      assert Holds(0);
      indexHistory[start]
    }

    /** The peaks of the oldest slot. */
    function List(): (l: seq<Peak>)
      reads this, indexHistory, peakHistory
      requires Valid()
      ensures l == Slots[0].peaks
    {
      assert Holds(0);
      peakHistory[start]
    }

    /** `Lists[age]`: the peaks of the slot of the given age. A method, so
        that the ring arithmetic stays out of its callers' proofs. */
    method ListAt(age: int) returns (l: seq<Peak>)
      requires Valid() && 0 <= age < |Slots|
      ensures l == Slots[age].peaks
    {
      assert Holds(age);
      l := peakHistory[Wrap(start + age, peakHistory.Length)];
    }

    /** `Indices[age]`: the frame index of the slot of the given age. */
    method IndexAt(age: int) returns (i: int)
      requires Valid() && 0 <= age < |Slots|
      ensures i == Slots[age].index
    {
      assert Holds(age);
      i := indexHistory[Wrap(start + age, indexHistory.Length)];
    }

    /** Evicts the oldest slot and appends `(index, list)` as the newest: every
        other slot becomes one step older. */
    method Add(index: int, list: seq<Peak>)
      requires Valid()
      modifies this, indexHistory, peakHistory
      ensures Valid()
      ensures indexHistory == old(indexHistory) && peakHistory == old(peakHistory)
      ensures Slots == old(Slots)[1..] + [Slot(index, list)]
    {
      var n := peakHistory.Length;
      indexHistory[start] := index;
      peakHistory[start] := list;
      ghost var before := Slots;
      start := if start + 1 == n then 0 else start + 1;
      Slots := Slots[1..] + [Slot(index, list)];
      forall k: nat | k < n
        ensures Holds(k)
      {
        if k < n - 1 {
          assert old(Holds(k + 1));
          assert Wrap(start + k, n) == Wrap(old(start) + k + 1, n);
          assert Slots[k] == before[k + 1];
        } else {
          assert Wrap(start + k, n) == old(start);
        }
      }
    }
  }
}
