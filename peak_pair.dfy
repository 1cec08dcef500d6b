/** The value types of the generator: a spectral peak, a pair of peaks and the
    24-bit hash a pair is packed into (FingerprintGenerator.cs:244-283). */
module PeakPairs {

  /** A peak: a frequency bin and its amplitude. Amplitudes are only ever
      compared, so they are modelled as integers. */
  datatype Peak = Peak(index: int, value: int)

  /** An anchor peak paired with a target peak `distance` frames later; `index`
      is the frame index of the anchor. */
  datatype PeakPair = PeakPair(index: int, peak1: Peak, peak2: Peak, distance: int)

  type uint32 = x: int | 0 <= x < 0x1_0000_0000

  /** `FingerprintHash` wraps a `uint`. */
  datatype FingerprintHash = FingerprintHash(value: uint32)

  /** C#'s unchecked `(byte)` cast keeps the low eight bits of the two's
      complement representation, which is the Euclidean remainder by 256. */
  function ToByte(x: int): (b: int)
    ensures 0 <= b < 256
    ensures 0 <= x < 256 ==> b == x
    ensures (x - b) % 256 == 0
  {
    x % 256
  }

  /** Bits 16-23 of a hash value (`v >> 16 & 0xFF`). */
  function High(v: int): int requires v >= 0 { v / 0x1_0000 % 256 }

  /** Bits 8-15 of a hash value (`v >> 8 & 0xFF`). */
  function Middle(v: int): int requires v >= 0 { v / 0x100 % 256 }

  /** Bits 0-7 of a hash value (`v & 0xFF`). */
  function Low(v: int): int requires v >= 0 { v % 256 }

  /** Packs three bytes; the `|` of the source combines disjoint bit ranges,
      which is a sum. */
  function Pack(a: int, b: int, c: int): (v: int)
    requires 0 <= a < 256 && 0 <= b < 256 && 0 <= c < 256
    ensures 0 <= v < 0x100_0000
  {
    a * 0x1_0000 + b * 0x100 + c
  }

  /** The bytes of a packed value are the bytes packed. */
  lemma Unpack(a: int, b: int, c: int)
    requires 0 <= a < 256 && 0 <= b < 256 && 0 <= c < 256
    ensures High(Pack(a, b, c)) == a && Middle(Pack(a, b, c)) == b && Low(Pack(a, b, c)) == c
  {
    var v := Pack(a, b, c);
    assert v / 0x1_0000 == a by { DivAdd(a, b * 0x100 + c, 0x1_0000); }
    assert v / 0x100 == a * 0x100 + b by { DivAdd(a * 0x100 + b, c, 0x100); }
    assert (a * 0x100 + b) % 256 == b by { DivAdd(a, b, 0x100); }
  }

  /** Division by a byte boundary splits off the quotient and the remainder. */
  lemma DivAdd(q: int, r: int, d: int)
    requires d == 0x100 || d == 0x1_0000 || d == 0x100_0000
    requires 0 <= r < d
    ensures (q * d + r) / d == q && (q * d + r) % d == r
  {
    if d == 0x100 {
    } else if d == 0x1_0000 {
    } else {
    }
  }

  /** `PeakPair.PeakPairToHash` (FingerprintGenerator.cs:265-272). */
  function PeakPairToHash(pp: PeakPair): (h: FingerprintHash)
    ensures h.value < 0x100_0000
  {
    FingerprintHash(Pack(ToByte(pp.peak1.index), ToByte(pp.peak2.index), ToByte(pp.distance)))
  }

  /** `PeakPair.HashToPeakPair` (FingerprintGenerator.cs:274-282): amplitudes
      are not part of the hash and come back as zero. */
  function HashToPeakPair(hash: FingerprintHash, index: int): (pp: PeakPair)
    ensures pp.index == index && pp.peak1.value == 0 && pp.peak2.value == 0
    ensures 0 <= pp.peak1.index < 256 && 0 <= pp.peak2.index < 256 && 0 <= pp.distance < 256
  {
    PeakPair(index, Peak(High(hash.value), 0), Peak(Middle(hash.value), 0), Low(hash.value))
  }

  /** The layout of a hash: bits 16-23 hold the anchor's bin, bits 8-15 the
      target's bin and bits 0-7 the distance, each cut to its low byte. */
  lemma HashLayout(pp: PeakPair)
    ensures var v := PeakPairToHash(pp).value;
      High(v) == ToByte(pp.peak1.index) && Middle(v) == ToByte(pp.peak2.index) &&
      Low(v) == ToByte(pp.distance) && v / 0x100_0000 == 0
  {
    Unpack(ToByte(pp.peak1.index), ToByte(pp.peak2.index), ToByte(pp.distance));
  }

  /** Decoding an encoded pair recovers the low byte of each field. */
  lemma DecodeEncode(pp: PeakPair, index: int)
    ensures HashToPeakPair(PeakPairToHash(pp), index)
         == PeakPair(index, Peak(ToByte(pp.peak1.index), 0), Peak(ToByte(pp.peak2.index), 0), ToByte(pp.distance))
  {
    Unpack(ToByte(pp.peak1.index), ToByte(pp.peak2.index), ToByte(pp.distance));
  }

  /** Round trip: fields that fit in a byte are recovered exactly. */
  lemma DecodeEncodeInRange(pp: PeakPair, index: int)
    requires 0 <= pp.peak1.index < 256 && 0 <= pp.peak2.index < 256 && 0 <= pp.distance < 256
    ensures HashToPeakPair(PeakPairToHash(pp), index)
         == PeakPair(index, Peak(pp.peak1.index, 0), Peak(pp.peak2.index, 0), pp.distance)
  {
    DecodeEncode(pp, index);
  }

  /** Every value splits into its three low bytes and what lies above bit 23. */
  lemma Split(v: int)
    requires v >= 0
    ensures v == (v / 0x100_0000) * 0x100_0000 + High(v) * 0x1_0000 + Middle(v) * 0x100 + Low(v)
  {
    var q0 := v / 0x100;
    var q1 := q0 / 0x100;
    ShiftTwice(v, 0x100);
    ShiftTwice(v, 0x1_0000);
    assert v == q0 * 0x100 + Low(v);
    assert q0 == q1 * 0x100 + Middle(v);
    assert q1 == v / 0x100_0000 * 0x100 + High(v);
  }

  /** Shifting right by `d` and then by eight bits shifts by `d * 0x100`. */
  lemma ShiftTwice(x: int, d: int)
    requires x >= 0 && (d == 0x100 || d == 0x1_0000)
    ensures x / d / 0x100 == x / (d * 0x100)
  {
    var q := x / d;
    if d == 0x100 {
      assert x == q / 0x100 * 0x1_0000 + (q % 0x100 * 0x100 + x % 0x100);
      DivAdd(q / 0x100, q % 0x100 * 0x100 + x % 0x100, 0x1_0000);
    } else {
      assert x == q / 0x100 * 0x100_0000 + (q % 0x100 * 0x1_0000 + x % 0x1_0000);
      DivAdd(q / 0x100, q % 0x100 * 0x1_0000 + x % 0x1_0000, 0x100_0000);
    }
  }

  /** Encoding a decoded hash gives back its low 24 bits: the identity on
      every hash below 2^24, the range `PeakPairToHash` produces. */
  lemma EncodeDecode(hash: FingerprintHash, index: int)
    ensures PeakPairToHash(HashToPeakPair(hash, index)).value == hash.value % 0x100_0000
  {
    ReencodeValue(hash.value, index);
    LowBytes(hash.value);
  }

  /** Round trip: a hash below 2^24 is re-encoded exactly. */
  lemma EncodeDecodeInRange(hash: FingerprintHash, index: int)
    requires hash.value < 0x100_0000
    ensures PeakPairToHash(HashToPeakPair(hash, index)) == hash
  {
    EncodeDecode(hash, index);
    SameHash(PeakPairToHash(HashToPeakPair(hash, index)), hash);
  }

  lemma SameHash(h: FingerprintHash, g: FingerprintHash)
    requires g.value < 0x100_0000 && h.value == g.value % 0x100_0000
    ensures h == g
  {
  }

  /** Re-encoding the fields decoded from `v` packs its three low bytes. */
  lemma ReencodeValue(v: uint32, index: int)
    ensures PeakPairToHash(HashToPeakPair(FingerprintHash(v), index)).value
         == High(v) * 0x1_0000 + Middle(v) * 0x100 + Low(v)
  {
  }

  /** The low 24 bits of `v` are its three low bytes. */
  lemma LowBytes(v: int)
    requires v >= 0
    ensures v % 0x100_0000 == High(v) * 0x1_0000 + Middle(v) * 0x100 + Low(v)
  {
    Split(v);
    DivAdd(v / 0x100_0000, High(v) * 0x1_0000 + Middle(v) * 0x100 + Low(v), 0x100_0000);
  }

  /** Bits `s` to `s + 7` of a 32-bit word (`v >> s & 0xFF`). */
  function Byte(v: bv32, s: bv32): bv8
    requires s <= 24
  {
    ((v >> s) & 0xFF) as bv8
  }

  /** A 32-bit word is the `|` of its four bytes shifted into place. */
  lemma BytesOf(v: bv32)
    ensures v == (Byte(v, 24) as bv32 << 24) | (Byte(v, 16) as bv32 << 16) | (Byte(v, 8) as bv32 << 8) | Byte(v, 0) as bv32
  {
  }

  /** Four bytes shifted into place and combined with `|` have the value of
      their sum with place weights. */
  lemma BitPacking(t: bv8, a: bv8, b: bv8, c: bv8)
    ensures ((t as bv32 << 24) | (a as bv32 << 16) | (b as bv32 << 8) | c as bv32) as int
         == t as int * 0x100_0000 + Pack(a as int, b as int, c as int)
  {
  }

  /** Without a top byte, the four-byte packing is the source's three-byte one. */
  lemma NoTopByte(a: bv8, b: bv8, c: bv8)
    ensures (0 as bv8 as bv32 << 24) | (a as bv32 << 16) | (b as bv32 << 8) | c as bv32
         == (a as bv32 << 16) | (b as bv32 << 8) | c as bv32
  {
  }

  /** The three low bytes of a value are the bytes it was packed from. */
  lemma BytesOfValue(v: int, t: int, a: int, b: int, c: int)
    requires 0 <= t && 0 <= a < 256 && 0 <= b < 256 && 0 <= c < 256
    requires v == t * 0x100_0000 + Pack(a, b, c)
    ensures High(v) == a && Middle(v) == b && Low(v) == c
  {
    var p := Pack(a, b, c);
    DivAdd(t, p, 0x100_0000);
    assert v % 0x100_0000 == p;
    LowBytes(v);
    var h, m, l := High(v), Middle(v), Low(v);
    assert Pack(h, m, l) == p;
    Unpack(h, m, l);
    Unpack(a, b, c);
  }

  /** On bytes, the source's `<<` and `|` compute `Pack`: the bytes
      `PeakPairToHash` casts are packed into the same `uint`. */
  lemma EncodeBitwise(a: bv8, b: bv8, c: bv8)
    ensures ((a as bv32 << 16) | (b as bv32 << 8) | c as bv32) as int == Pack(a as int, b as int, c as int)
  {
    BitPacking(0, a, b, c);
    NoTopByte(a, b, c);
  }

  /** The value of a 32-bit word is the weighted sum of its four bytes. */
  lemma WordValue(v: bv32)
    ensures v as int == Byte(v, 24) as int * 0x100_0000 + Pack(Byte(v, 16) as int, Byte(v, 8) as int, Byte(v, 0) as int)
  {
    BytesOf(v);
    BitPacking(Byte(v, 24), Byte(v, 16), Byte(v, 8), Byte(v, 0));
  }

  /** `HashToPeakPair` reads exactly the bytes the source extracts with `>>`
      and `& 0xFF` from the `uint` of the hash. */
  lemma DecodeBitwise(v: bv32, index: int)
    ensures HashToPeakPair(FingerprintHash(v as int), index)
         == PeakPair(index, Peak(Byte(v, 16) as int, 0), Peak(Byte(v, 8) as int, 0), Byte(v, 0) as int)
  {
    WordValue(v);
    DecodeFields(v as int, Byte(v, 24) as int, Byte(v, 16) as int, Byte(v, 8) as int, Byte(v, 0) as int, index);
  }

  /** Decoding a value packed from `t`, `a`, `b` and `c` gives back `a`, `b`
      and `c`. */
  lemma DecodeFields(v: uint32, t: int, a: int, b: int, c: int, index: int)
    requires 0 <= t && 0 <= a < 256 && 0 <= b < 256 && 0 <= c < 256
    requires v == t * 0x100_0000 + Pack(a, b, c)
    ensures HashToPeakPair(FingerprintHash(v), index) == PeakPair(index, Peak(a, 0), Peak(b, 0), c)
  {
    BytesOfValue(v, t, a, b, c);
  }

  /** Two pairs whose fields fit in a byte have the same hash exactly when
      they agree on both bins and the distance. */
  lemma HashInjective(p: PeakPair, q: PeakPair)
    requires 0 <= p.peak1.index < 256 && 0 <= p.peak2.index < 256 && 0 <= p.distance < 256
    requires 0 <= q.peak1.index < 256 && 0 <= q.peak2.index < 256 && 0 <= q.distance < 256
    ensures PeakPairToHash(p) == PeakPairToHash(q)
        <==> (p.peak1.index == q.peak1.index && p.peak2.index == q.peak2.index && p.distance == q.distance)
  {
    if PeakPairToHash(p) == PeakPairToHash(q) {
      DecodeEncodeInRange(p, 0);
      DecodeEncodeInRange(q, 0);
    }
  }
}
