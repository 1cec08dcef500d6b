/** Tuning parameters of the fingerprint generator (FingerprintGenerator.cs:28-33).
    In the source they are private constants; here they are a record so that the
    properties can be stated for every admissible choice. */
module Configuration {

  datatype Config = Config(
    peaksPerFrame: int,       // how many peaks of a frame are kept
    peakFanout: int,          // how many pairs one anchor peak may take part in
    targetZoneDistance: int,  // first frame distance of the target zone
    targetZoneLength: int,    // number of frames of the target zone
    targetZoneWidth: int      // frequency width of the target zone, in bins
  )

  /** The STFT window size of the source; a spectrum has half as many bins. */
  const WindowSize := 512

  /** The values the source is compiled with. */
  const DefaultConfig := Config(3, 5, 2, 30, 63)

  /** What the pair finder demands: it indexes the history at `targetZoneDistance`,
      the history has `1 + targetZoneDistance + targetZoneLength` slots, and the
      fan-out cap is at least one pair. */
  predicate ValidConfig(c: Config)
  {
    c.targetZoneDistance >= 0 && c.targetZoneLength >= 0 && c.peakFanout >= 1
  }

  /** Capacity of the peak history (FingerprintGenerator.cs:58). */
  function HistoryLength(c: Config): (n: int)
    requires ValidConfig(c)
    ensures n >= 1 && n > c.targetZoneDistance && n - 1 - c.targetZoneDistance == c.targetZoneLength
  {
    1 + c.targetZoneDistance + c.targetZoneLength
  }

  /** C#'s `/` truncates toward zero, Dafny's is Euclidean. */
  function TruncatedHalf(w: int): (h: int)
    ensures h + h == w || h + h == w - 1 || h + h == w + 1
    ensures (w >= 0 ==> 0 <= h <= w) && (w < 0 ==> w <= h <= 0)
    ensures (w >= 0 ==> 0 <= h + h <= w) && (w < 0 ==> w <= h + h <= 0)
  {
    if w >= 0 then w / 2 else -((-w) / 2)
  }

  /** Half the target zone's frequency width (FingerprintGenerator.cs:205). */
  function HalfWidth(c: Config): int
  {
    TruncatedHalf(c.targetZoneWidth)
  }

  lemma DefaultConfigIsValid()
    ensures ValidConfig(DefaultConfig) && HistoryLength(DefaultConfig) == 33 && HalfWidth(DefaultConfig) == 31
  {
  }
}
