/** ISA Plug and Play serial isolation (Kernel/isapnp.c): the initiation key,
    the 72-bit serial identifier read with its LFSR checksum, and the
    enumeration loop that hands out Card Select Numbers.  Port I/O is an
    environment: every `outb`/`inb` is appended to `trace`, and the read port
    returns the bytes of `input` in order (0xFF, a floating bus, once they are
    used up). */
module IsaPnp {

  const ADDRESS: bv16 := 0x279
  const WRITE_DATA: bv16 := 0xA79
  const MAX_NUM_DEVICES := 10
  const LFSR_SEED: bv8 := 0x6A
  const KEY_LENGTH: nat := 32
  const FIRST_READ_PORT: bv16 := 0x203
  const LAST_READ_PORT: bv16 := 0x3FF

  /** One port access: the 16-bit port and the byte written or read. */
  datatype IoEvent = Out(port: bv16, value: bv8) | In(port: bv16, value: bv8)

  /** One entry of the `devices` table. */
  datatype Device = Device(vendorId: bv32, sn: bv32, csn: bv8)

  // ---------------------------------------------------------------------------
  // The LFSR

  /** isapnp_lfsr_shift: bits 6..0 become the old bits 7..1, and the new bit 7
      is the serial input (any nonzero input counts as 1) xor bit 0 xor bit 1. */
  function LfsrShift(b: bv8, input: bv8): bv8
  {
    var inp: bv8 := if input != 0 then 1 else 0;
    var msb := (inp ^ (b & 0x01) ^ ((b & 0x02) >> 1)) << 7;
    ((b >> 1) & 0x7F) | msb
  }

  /** The shift as a shift register: the low seven bits are the old high
      seven, and bit 7 is the feedback. */
  lemma LfsrShiftBits(b: bv8, input: bv8)
    ensures LfsrShift(b, input) & 0x7F == b >> 1
    ensures LfsrShift(b, input) >> 7 == ((if input != 0 then 1 else 0) ^ b ^ (b >> 1)) & 1
  {
  }

  /** The k-th value the key generator writes: v0 = 0x6A, v(k+1) = shift(vk, 0). */
  function KeyByte(k: nat): bv8
  {
    if k == 0 then LFSR_SEED else LfsrShift(KeyByte(k - 1), 0)
  }

  /** The 32-byte initiation key of the Plug and Play ISA Specification 1.0a. */
  const INITIATION_KEY: seq<bv8> :=
    [0x6A, 0xB5, 0xDA, 0xED, 0xF6, 0xFB, 0x7D, 0xBE,
     0xDF, 0x6F, 0x37, 0x1B, 0x0D, 0x86, 0xC3, 0x61,
     0xB0, 0x58, 0x2C, 0x16, 0x8B, 0x45, 0xA2, 0xD1,
     0xE8, 0x74, 0x3A, 0x9D, 0xCE, 0xE7, 0x73, 0x39]

  /** Key values 0 .. 7. */
  lemma KeyQuarter0()
    ensures KeyByte(0) == 0x6A
    ensures KeyByte(1) == 0xB5
    ensures KeyByte(2) == 0xDA
    ensures KeyByte(3) == 0xED
    ensures KeyByte(4) == 0xF6
    ensures KeyByte(5) == 0xFB
    ensures KeyByte(6) == 0x7D
    ensures KeyByte(7) == 0xBE
  {
  }

  /** Key values 8 .. 15. */
  lemma KeyQuarter1()
    ensures KeyByte(8) == 0xDF
    ensures KeyByte(9) == 0x6F
    ensures KeyByte(10) == 0x37
    ensures KeyByte(11) == 0x1B
    ensures KeyByte(12) == 0x0D
    ensures KeyByte(13) == 0x86
    ensures KeyByte(14) == 0xC3
    ensures KeyByte(15) == 0x61
  {
    KeyQuarter0();
  }

  /** Key values 16 .. 23. */
  lemma KeyQuarter2()
    ensures KeyByte(16) == 0xB0
    ensures KeyByte(17) == 0x58
    ensures KeyByte(18) == 0x2C
    ensures KeyByte(19) == 0x16
    ensures KeyByte(20) == 0x8B
    ensures KeyByte(21) == 0x45
    ensures KeyByte(22) == 0xA2
    ensures KeyByte(23) == 0xD1
  {
    KeyQuarter1();
  }

  /** Key values 24 .. 31. */
  lemma KeyQuarter3()
    ensures KeyByte(24) == 0xE8
    ensures KeyByte(25) == 0x74
    ensures KeyByte(26) == 0x3A
    ensures KeyByte(27) == 0x9D
    ensures KeyByte(28) == 0xCE
    ensures KeyByte(29) == 0xE7
    ensures KeyByte(30) == 0x73
    ensures KeyByte(31) == 0x39
  {
    KeyQuarter2();
  }

  /** The generator writes exactly the table of the specification. */
  lemma InitiationKeyValue()
    ensures |INITIATION_KEY| == KEY_LENGTH
    ensures forall k :: 0 <= k < KEY_LENGTH ==> KeyByte(k) == INITIATION_KEY[k]
  {
    forall k | 0 <= k < KEY_LENGTH ensures KeyByte(k) == INITIATION_KEY[k] {
      if k < 8 {
        KeyQuarter0();
      } else if k < 16 {
        KeyQuarter1();
      } else if k < 24 {
        KeyQuarter2();
      } else {
        KeyQuarter3();
      }
    }
  }

  // ---------------------------------------------------------------------------
  // The serial identifier, as a reference definition over the read stream

  /** The byte the k-th `inb` of the read port returns. */
  function ReadAt(s: seq<bv8>, k: nat): bv8
  {
    if k < |s| then s[k] else 0xFF
  }

  /** Sample t of a read from stream position p, as read_id assembles it:
      the first byte read is the low half, the second the high half. */
  function SampleAt(s: seq<bv8>, p: nat, t: nat): bv16
  {
    Word(ReadAt(s, p + 2 * t), ReadAt(s, p + 2 * t + 1))
  }

  /** `input = inb(rpa); input = input | (inb(rpa) << 8)`. */
  function Word(lo: bv8, hi: bv8): bv16
  {
    (lo as bv16) | ((hi as bv16) << 8)
  }

  lemma WordCompare(lo: bv8, hi: bv8)
    ensures (Word(lo, hi) == 0xAA55) == (lo == 0x55 && hi == 0xAA)
    ensures (Word(lo, hi) == 0xFFFF) == (lo == 0xFF && hi == 0xFF)
  {
  }

  /** The sample is 0xAA55 (a 1 bit) or 0xFFFF (a 0 bit), stated on its two
      bytes. */
  predicate IsOne(s: seq<bv8>, p: nat, t: nat)
  {
    ReadAt(s, p + 2 * t) == 0x55 && ReadAt(s, p + 2 * t + 1) == 0xAA
  }

  predicate IsZero(s: seq<bv8>, p: nat, t: nat)
  {
    ReadAt(s, p + 2 * t) == 0xFF && ReadAt(s, p + 2 * t + 1) == 0xFF
  }

  predicate IsValid(s: seq<bv8>, p: nat, t: nat)
  {
    IsOne(s, p, t) || IsZero(s, p, t)
  }

  /** The byte-wise predicates are the word comparisons read_id makes. */
  lemma SampleWord(s: seq<bv8>, p: nat, t: nat)
    ensures (SampleAt(s, p, t) == 0xAA55) == IsOne(s, p, t)
    ensures (SampleAt(s, p, t) == 0xFFFF) == IsZero(s, p, t)
  {
    WordCompare(ReadAt(s, p + 2 * t), ReadAt(s, p + 2 * t + 1));
  }

  /** Bit t of the identifier: 0xAA55 is 1, anything else (0xFFFF) is 0. */
  function SampleBits(s: seq<bv8>, p: nat, n: nat): (bits: seq<bool>)
    ensures |bits| == n
    ensures forall t :: 0 <= t < n ==> bits[t] == IsOne(s, p, t)
  {
    seq(n, t requires 0 <= t < n => IsOne(s, p, t))
  }

  /** The least sample index u >= t below 72 that is neither 0xAA55 nor 0xFFFF,
      or 72 if there is none. */
  function FirstInvalidFrom(s: seq<bv8>, p: nat, t: nat): (r: nat)
    requires t <= 72
    decreases 72 - t
    ensures t <= r <= 72
    ensures forall u :: t <= u < r ==> IsValid(s, p, u)
    ensures r < 72 ==> !IsValid(s, p, r)
  {
    if t == 72 then 72
    else if !IsValid(s, p, t) then t
    else FirstInvalidFrom(s, p, t + 1)
  }

  function FirstInvalid(s: seq<bv8>, p: nat): nat
  {
    FirstInvalidFrom(s, p, 0)
  }

  /** The mask of bit j (0 = least significant) of a byte. */
  function Mask(j: nat): bv8
    requires j < 8
  {
    if j == 0 then 0x01 else if j == 1 then 0x02 else if j == 2 then 0x04
    else if j == 3 then 0x08 else if j == 4 then 0x10 else if j == 5 then 0x20
    else if j == 6 then 0x40 else 0x80
  }

  predicate BitOf(x: bv8, j: nat)
    requires j < 8
  {
    x & Mask(j) != 0
  }

  function BitValue(b: bool): bv8
  {
    if b then 1 else 0
  }

  /** Eight bits packed least significant bit first. */
  function Pack(bits: seq<bool>): bv8
    requires |bits| == 8
  {
    BitValue(bits[0]) | (BitValue(bits[1]) << 1) | (BitValue(bits[2]) << 2) | (BitValue(bits[3]) << 3)
    | (BitValue(bits[4]) << 4) | (BitValue(bits[5]) << 5) | (BitValue(bits[6]) << 6) | (BitValue(bits[7]) << 7)
  }

  /** Bit j of a packed byte is the j-th bit of the sequence. */
  lemma PackBit(bits: seq<bool>, j: nat)
    requires |bits| == 8 && j < 8
    ensures BitOf(Pack(bits), j) == bits[j]
  {
  }

  /** A byte is determined by its eight bits. */
  lemma BitsDetermineByte(a: bv8, b: bv8)
    requires forall j :: 0 <= j < 8 ==> BitOf(a, j) == BitOf(b, j)
    ensures a == b
  {
    assert BitOf(a, 0) == BitOf(b, 0) && BitOf(a, 1) == BitOf(b, 1);
    assert BitOf(a, 2) == BitOf(b, 2) && BitOf(a, 3) == BitOf(b, 3);
    assert BitOf(a, 4) == BitOf(b, 4) && BitOf(a, 5) == BitOf(b, 5);
    assert BitOf(a, 6) == BitOf(b, 6) && BitOf(a, 7) == BitOf(b, 7);
  }

  /** Byte i (0..8) of the identifier. */
  function IdByte(s: seq<bv8>, p: nat, i: nat): bv8
    requires i < 9
  {
    Pack(SampleBits(s, p, 72)[8 * i .. 8 * i + 8])
  }

  /** The checksum: the LFSR, seeded 0x6A, fed the given bits one by one. */
  function LfsrFeed(seed: bv8, bits: seq<bool>): bv8
  {
    if bits == [] then seed
    else LfsrShift(LfsrFeed(seed, bits[..|bits| - 1]), if bits[|bits| - 1] then 1 else 0)
  }

  /** Bytes 3..0 (vendor id) or 7..4 (serial number), little-endian. */
  function Le32(b0: bv8, b1: bv8, b2: bv8, b3: bv8): bv32
  {
    ((b3 as bv32) << 24) | ((b2 as bv32) << 16) | ((b1 as bv32) << 8) | (b0 as bv32)
  }

  /** Whether read_id succeeds on the stream from position p: all 72 samples
      are valid, at least one is 0xAA55, and the LFSR fed the first 64 bits
      equals byte 8. */
  predicate IdAccepted(s: seq<bv8>, p: nat)
  {
    && FirstInvalid(s, p) == 72
    && true in SampleBits(s, p, 72)
    && LfsrFeed(LFSR_SEED, SampleBits(s, p, 64)) == IdByte(s, p, 8)
  }

  function VendorOf(s: seq<bv8>, p: nat): bv32
  {
    Le32(IdByte(s, p, 0), IdByte(s, p, 1), IdByte(s, p, 2), IdByte(s, p, 3))
  }

  function SerialOf(s: seq<bv8>, p: nat): bv32
  {
    Le32(IdByte(s, p, 4), IdByte(s, p, 5), IdByte(s, p, 6), IdByte(s, p, 7))
  }

  /** How many stream bytes read_id consumes: it stops right after the first
      invalid sample, otherwise it reads all 72 samples. */
  function BytesConsumed(s: seq<bv8>, p: nat): nat
  {
    var f := FirstInvalid(s, p);
    if f < 72 then 2 * (f + 1) else 144
  }

  /** `tr` is `t0` followed by n reads of `port` returning the stream bytes
      from position p on. */
  predicate Logged(tr: seq<IoEvent>, t0: seq<IoEvent>, port: bv16, s: seq<bv8>, p: nat, n: nat)
  {
    && |tr| == |t0| + n
    && tr[..|t0|] == t0
    && forall k :: |t0| <= k < |tr| ==> tr[k] == In(port, ReadAt(s, p + (k - |t0|)))
  }

  lemma LoggedNext(tr: seq<IoEvent>, t0: seq<IoEvent>, port: bv16, s: seq<bv8>, p: nat, n: nat)
    requires Logged(tr, t0, port, s, p, n)
    ensures Logged(tr + [In(port, ReadAt(s, p + n))], t0, port, s, p, n + 1)
  {
    var tr' := tr + [In(port, ReadAt(s, p + n))];
    assert tr'[..|t0|] == tr[..|t0|];
  }

  /** The state of read_id's accumulators after the first t samples: whether
      a 1 bit has been seen, and the LFSR fed the bits of bytes 0..7. */
  ghost function Detected(s: seq<bv8>, p: nat, t: nat): bool
  {
    t > 0 && (Detected(s, p, t - 1) || IsOne(s, p, t - 1))
  }

  ghost function Checksum(s: seq<bv8>, p: nat, t: nat): bv8
  {
    if t == 0 then LFSR_SEED
    else if t - 1 < 64 then LfsrShift(Checksum(s, p, t - 1), if IsOne(s, p, t - 1) then 1 else 0)
    else Checksum(s, p, t - 1)
  }

  /** The accumulators agree with the reference definition. */
  lemma {:induction false} DetectedSpec(s: seq<bv8>, p: nat, t: nat)
    requires t <= 72
    ensures Detected(s, p, t) == (true in SampleBits(s, p, 72)[..t])
  {
    if t > 0 {
      DetectedSpec(s, p, t - 1);
      var bits := SampleBits(s, p, 72);
      assert bits[..t] == bits[..t - 1] + [bits[t - 1]];
    }
  }

  lemma {:induction false} ChecksumSpec(s: seq<bv8>, p: nat, t: nat)
    requires t <= 72
    ensures Checksum(s, p, t) == LfsrFeed(LFSR_SEED, SampleBits(s, p, 72)[..if t < 64 then t else 64])
  {
    if t > 0 {
      ChecksumSpec(s, p, t - 1);
      var bits := SampleBits(s, p, 72);
      if t - 1 < 64 {
        var front := bits[..t];
        assert front[..t - 1] == bits[..t - 1];
        assert front[t - 1] == IsOne(s, p, t - 1);
        assert LfsrFeed(LFSR_SEED, front) == LfsrShift(LfsrFeed(LFSR_SEED, bits[..t - 1]), if IsOne(s, p, t - 1) then 1 else 0);
      }
    }
  }

  /** Shifting sample bit b into the top of an id byte, as read_id does. */
  function ShiftIn(x: bv8, b: bool): bv8
  {
    if b then ((x >> 1) & 0x7F) | 0x80 else (x >> 1) & 0x7F
  }

  /** The shift moves every bit down by one and puts b on top. */
  lemma ShiftInBit(x: bv8, b: bool, m: nat)
    requires m < 8
    ensures BitOf(ShiftIn(x, b), m) == if m == 7 then b else BitOf(x, m + 1)
  {
  }

  /** Byte i after its first j samples have been shifted in, starting from x. */
  ghost function PartialByte(s: seq<bv8>, p: nat, i: nat, j: nat, x: bv8): bv8
  {
    if j == 0 then x else ShiftIn(PartialByte(s, p, i, j - 1, x), IsOne(s, p, 8 * i + j - 1))
  }

  /** After j shifts the top j bits are the j samples, the earliest lowest. */
  lemma {:induction false} PartialByteBits(s: seq<bv8>, p: nat, i: nat, j: nat, x: bv8, m: nat)
    requires j <= 8 && 8 - j <= m < 8
    ensures BitOf(PartialByte(s, p, i, j, x), m) == IsOne(s, p, 8 * i + m - (8 - j))
  {
    ShiftInBit(PartialByte(s, p, i, j - 1, x), IsOne(s, p, 8 * i + j - 1), m);
    if m < 7 {
      PartialByteBits(s, p, i, j - 1, x, m + 1);
    }
  }

  /** Eight shifts leave identifier byte i, whatever the byte held before. */
  lemma PartialByteComplete(s: seq<bv8>, p: nat, i: nat, x: bv8)
    requires i < 9
    ensures PartialByte(s, p, i, 8, x) == IdByte(s, p, i)
  {
    forall m | 0 <= m < 8 ensures BitOf(PartialByte(s, p, i, 8, x), m) == IsOne(s, p, 8 * i + m) {
      PartialByteBits(s, p, i, 8, x, m);
    }
    ByteFromSamples(s, p, i, PartialByte(s, p, i, 8, x));
  }

  /** One more valid sample moves the first invalid one further out. */
  lemma FirstInvalidNext(s: seq<bv8>, p: nat, t: nat)
    requires t < 72 && FirstInvalid(s, p) >= t && IsValid(s, p, t)
    ensures FirstInvalid(s, p) >= t + 1
  {
  }

  /** The accumulators one sample on. */
  lemma SampleAdvance(s: seq<bv8>, p: nat, i: nat, j: nat, x: bv8)
    ensures var t := 8 * i + j;
      && Detected(s, p, t + 1) == (Detected(s, p, t) || IsOne(s, p, t))
      && Checksum(s, p, t + 1) == (if t < 64 then LfsrShift(Checksum(s, p, t), if IsOne(s, p, t) then 1 else 0) else Checksum(s, p, t))
      && PartialByte(s, p, i, j + 1, x) == ShiftIn(PartialByte(s, p, i, j, x), IsOne(s, p, t))
  {
  }

  /** A byte whose bits are the samples 8i .. 8i+7 is identifier byte i. */
  lemma ByteFromSamples(s: seq<bv8>, p: nat, i: nat, x: bv8)
    requires i < 9
    requires forall m :: 0 <= m < 8 ==> BitOf(x, m) == IsOne(s, p, 8 * i + m)
    ensures x == IdByte(s, p, i)
  {
    forall m | 0 <= m < 8 ensures BitOf(x, m) == BitOf(IdByte(s, p, i), m) {
      IdByteBit(s, p, i, m);
    }
    BitsDetermineByte(x, IdByte(s, p, i));
  }

  // ---------------------------------------------------------------------------
  // Properties of the reference definition

  /** Any sample other than 0xAA55 and 0xFFFF among the 72 makes the read fail. */
  lemma InvalidSampleRejects(s: seq<bv8>, p: nat, t: nat)
    requires t < 72 && !IsValid(s, p, t)
    ensures !IdAccepted(s, p)
    ensures BytesConsumed(s, p) <= 2 * (t + 1)
    ensures FirstInvalid(s, p) >= t ==> BytesConsumed(s, p) == 2 * (t + 1)
  {
    var f := FirstInvalid(s, p);
    if f > t {
      assert false;
    }
  }

  /** Bit j of byte i is sample 8i+j. */
  lemma IdByteBit(s: seq<bv8>, p: nat, i: nat, j: nat)
    requires i < 9 && j < 8
    ensures BitOf(IdByte(s, p, i), j) == IsOne(s, p, 8 * i + j)
  {
    var bits := SampleBits(s, p, 72)[8 * i .. 8 * i + 8];
    PackBit(bits, j);
  }

  /** The vendor id is bytes 0..3 little-endian. */
  lemma Le32Bytes(b0: bv8, b1: bv8, b2: bv8, b3: bv8)
    ensures Le32(b0, b1, b2, b3) & 0xFF == b0 as bv32
    ensures (Le32(b0, b1, b2, b3) >> 8) & 0xFF == b1 as bv32
    ensures (Le32(b0, b1, b2, b3) >> 16) & 0xFF == b2 as bv32
    ensures Le32(b0, b1, b2, b3) >> 24 == b3 as bv32
  {
  }

  // ---------------------------------------------------------------------------
  // A card's transmission, and the round trip through read_id

  /** The two bytes a responding card drives for one identifier bit. */
  function BitBytes(b: bool): seq<bv8>
  {
    if b then [0x55, 0xAA] else [0xFF, 0xFF]
  }

  /** The eight bits of a byte, least significant first. */
  function ByteBits(x: bv8): (bits: seq<bool>)
    ensures |bits| == 8
  {
    seq(8, j requires 0 <= j < 8 => BitOf(x, j))
  }

  /** The bits of a byte string, each byte least significant bit first. */
  function DataBits(id: seq<bv8>): (bits: seq<bool>)
    ensures |bits| == 8 * |id|
  {
    if id == [] then [] else DataBits(id[..|id| - 1]) + ByteBits(id[|id| - 1])
  }

  lemma {:induction false} DataBitsSlice(id: seq<bv8>, i: nat)
    requires i < |id|
    ensures DataBits(id)[8 * i .. 8 * i + 8] == ByteBits(id[i])
  {
    var n := |id|;
    var front := id[..n - 1];
    if i < n - 1 {
      DataBitsSlice(front, i);
      assert front[i] == id[i];
      assert DataBits(id)[8 * i .. 8 * i + 8] == DataBits(front)[8 * i .. 8 * i + 8];
    } else {
      assert DataBits(id)[8 * i .. 8 * i + 8] == DataBits(id)[|DataBits(front)|..];
    }
  }

  lemma SliceOfPrefix<T>(a: seq<T>, b: seq<T>, lo: nat, hi: nat)
    requires lo <= hi <= |a|
    ensures (a + b)[lo..hi] == a[lo..hi]
  {
  }

  /** The 72 identifier bits of an 8-byte id followed by its checksum. */
  function IdBits(id: seq<bv8>): (bits: seq<bool>)
    requires |id| == 8
    ensures |bits| == 72
  {
    DataBits(id) + ByteBits(LfsrFeed(LFSR_SEED, DataBits(id)))
  }

  /** What a card drives on the read port for a bit string: the two bytes of
      each bit in turn. */
  function Transmission(bits: seq<bool>): (s: seq<bv8>)
    ensures |s| == 2 * |bits|
  {
    seq(2 * |bits|, k requires 0 <= k < 2 * |bits| => BitBytes(bits[k / 2])[k % 2])
  }

  lemma PackByteBits(x: bv8)
    ensures Pack(ByteBits(x)) == x
  {
    var bits := ByteBits(x);
    forall j | 0 <= j < 8 ensures BitOf(Pack(bits), j) == BitOf(x, j) {
      PackBit(bits, j);
    }
    BitsDetermineByte(Pack(bits), x);
  }


  /** All samples below n valid means read_id gets past sample n - 1. */
  lemma AllValidBelow(s: seq<bv8>, p: nat, n: nat)
    requires n <= 72
    requires forall u :: 0 <= u < n ==> IsValid(s, p, u)
    ensures FirstInvalid(s, p) >= n
  {
    var f := FirstInvalid(s, p);
    if f < n {
      assert false;
    }
  }

  /** What read_id sees on the wire for bit t of a card's transmission. */
  lemma TransmissionSampleAt(bits: seq<bool>, t: nat)
    requires t < |bits|
    ensures if bits[t] then IsOne(Transmission(bits), 0, t) else IsZero(Transmission(bits), 0, t)
  {
    var s := Transmission(bits);
    assert (2 * t) / 2 == t && (2 * t) % 2 == 0;
    assert (2 * t + 1) / 2 == t && (2 * t + 1) % 2 == 1;
    assert ReadAt(s, 2 * t) == BitBytes(bits[t])[0];
    assert ReadAt(s, 2 * t + 1) == BitBytes(bits[t])[1];
  }

  lemma TransmissionSamples(bits: seq<bool>, n: nat)
    requires n <= |bits| && n <= 72
    ensures SampleBits(Transmission(bits), 0, n) == bits[..n]
    ensures FirstInvalid(Transmission(bits), 0) >= n
  {
    var s := Transmission(bits);
    var decoded := SampleBits(s, 0, n);
    forall t | 0 <= t < n ensures IsValid(s, 0, t) && decoded[t] == bits[t] {
      TransmissionSampleAt(bits, t);
    }
    assert decoded == bits[..n];
    AllValidBelow(s, 0, n);
  }

  /** Round trip: a card that transmits an 8-byte identifier (with at least one
      1 bit among the 72) followed by its LFSR checksum is accepted, and
      read_id returns bytes 0..3 and 4..7 as vendor id and serial number. */
  lemma ReadIdRoundTrip(id: seq<bv8>)
    requires |id| == 8
    requires true in IdBits(id)
    ensures IdAccepted(Transmission(IdBits(id)), 0)
    ensures VendorOf(Transmission(IdBits(id)), 0) == Le32(id[0], id[1], id[2], id[3])
    ensures SerialOf(Transmission(IdBits(id)), 0) == Le32(id[4], id[5], id[6], id[7])
    ensures BytesConsumed(Transmission(IdBits(id)), 0) == 144
  {
    var bits := IdBits(id);
    var s := Transmission(bits);
    TransmissionSamples(bits, 72);
    TransmissionSamples(bits, 64);
    assert bits[..72] == bits;
    assert bits[..64] == DataBits(id);
    forall i | 0 <= i < 8 ensures IdByte(s, 0, i) == id[i] {
      DataBitsSlice(id, i);
      SliceOfPrefix(DataBits(id), ByteBits(LfsrFeed(LFSR_SEED, DataBits(id))), 8 * i, 8 * i + 8);
      PackByteBits(id[i]);
    }
    assert bits[64..72] == ByteBits(LfsrFeed(LFSR_SEED, DataBits(id)));
    PackByteBits(LfsrFeed(LFSR_SEED, DataBits(id)));
  }

  // ---------------------------------------------------------------------------
  // The read port address

  /** The data byte isapnp_set_read_port_address writes: (port >> 2) & 0xFF. */
  function ReadPortByte(port: bv16): bv8
  {
    ((port >> 2) & 0xFF) as bv8
  }

  /** For every read port the protocol allows (0x203..0x3FF with the two low
      bits set) the byte identifies the port: the card decodes it as
      byte * 4 + 3.  In particular 0x203 is written as 0x80. */
  lemma ReadPortByteDecodes(port: bv16)
    requires FIRST_READ_PORT <= port <= LAST_READ_PORT && port & 3 == 3
    ensures (ReadPortByte(port) as bv16) * 4 + 3 == port
    ensures port == 0x203 ==> ReadPortByte(port) == 0x80
  {
  }

  // ---------------------------------------------------------------------------
  // Enumeration, as a reference definition over the read stream

  /** The port writes of isapnp_send_initiation_key: two zeros to reset the
      LFSR, then the 32 key values. */
  function KeyWrites(): (ev: seq<IoEvent>)
    ensures |ev| == 2 + KEY_LENGTH
  {
    [Out(ADDRESS, 0), Out(ADDRESS, 0)] + seq(KEY_LENGTH, k requires 0 <= k < KEY_LENGTH => Out(ADDRESS, KeyByte(k)))
  }

  /** The key written is the specification's initiation key, byte by byte. */
  lemma KeyWritesAreTheKey()
    ensures forall k :: 0 <= k < KEY_LENGTH ==> KeyWrites()[2 + k] == Out(ADDRESS, INITIATION_KEY[k])
  {
    InitiationKeyValue();
  }


  /** n reads of `port` returning the stream bytes from position p on. */
  function Reads(port: bv16, s: seq<bv8>, p: nat, n: nat): (ev: seq<IoEvent>)
    ensures |ev| == n
  {
    seq(n, k requires 0 <= k < n => In(port, ReadAt(s, p + k)))
  }

  lemma LoggedReads(tr: seq<IoEvent>, t0: seq<IoEvent>, port: bv16, s: seq<bv8>, p: nat, n: nat)
    requires Logged(tr, t0, port, s, p, n)
    ensures tr == t0 + Reads(port, s, p, n)
  {
    assert tr == tr[..|t0|] + tr[|t0|..];
  }

  /** What one isapnp_read_id call at a stream position yields: whether it
      succeeds, the identifier it returns, and how many bytes it reads. */
  datatype IdRead = IdRead(accepted: bool, vendorId: bv32, sn: bv32, consumed: nat)

  /** isapnp_read_id at every position of the stream s. */
  function ReadIdOf(s: seq<bv8>): nat -> IdRead
  {
    (p: nat) => IdRead(IdAccepted(s, p), VendorOf(s, p), SerialOf(s, p), BytesConsumed(s, p))
  }

  /** The enumeration state of isapnp.c: the port accesses so far, the
      devices table, the read position in the stream, isapnp_rpa, nDevices
      and isapnp_detect's next_csn. */
  datatype Snapshot = Snapshot(
    trace: seq<IoEvent>,
    devices: seq<Device>,
    pos: nat,
    rpa: bv16,
    nDevices: nat,
    nextCsn: bv8)

  /** One pass of the `while (1)` loop of isapnp_detect, run on a snapshot:
      select isolation and read an identifier; if the read succeeds, assign
      next_csn to the card, enter it at devices[nDevices] and count it.
      `read` gives the outcome of an identifier read at each stream
      position; the bus uses ReadIdOf of its stream. */
  function Isolate(s: seq<bv8>, read: nat -> IdRead, st: Snapshot): (r: Snapshot)
    requires st.nDevices < MAX_NUM_DEVICES && |st.devices| == MAX_NUM_DEVICES
    ensures r.rpa == st.rpa && |r.devices| == MAX_NUM_DEVICES && r.pos == st.pos + read(st.pos).consumed
    ensures r.nDevices == if read(st.pos).accepted then st.nDevices + 1 else st.nDevices
  {
    var id := read(st.pos);
    var selected := st.trace + [Out(ADDRESS, 1)] + Reads(st.rpa, s, st.pos, id.consumed);
    if !id.accepted then st.(trace := selected, pos := st.pos + id.consumed)
    else
      Snapshot(
        selected + [Out(ADDRESS, 6), Out(WRITE_DATA, st.nextCsn)],
        st.devices[st.nDevices := Device(id.vendorId, id.sn, st.nextCsn)],
        st.pos + id.consumed, st.rpa, st.nDevices + 1, st.nextCsn + 1)
  }

  /** The whole `while (1)` loop: isolate; stop when the read failed or the
      table is full; otherwise wake the remaining cards and go on. */
  function SweepFrom(s: seq<bv8>, read: nat -> IdRead, st: Snapshot): (r: Snapshot)
    requires st.nDevices < MAX_NUM_DEVICES && |st.devices| == MAX_NUM_DEVICES
    decreases MAX_NUM_DEVICES - st.nDevices
    ensures r.rpa == st.rpa && |r.devices| == MAX_NUM_DEVICES
    ensures st.nDevices <= r.nDevices <= MAX_NUM_DEVICES
  {
    var e := Isolate(s, read, st);
    if !read(st.pos).accepted || e.nDevices >= MAX_NUM_DEVICES then e
    else SweepFrom(s, read, e.(trace := e.trace + [Out(ADDRESS, 3), Out(WRITE_DATA, 0)]))
  }

  /** One pass of the `for` loop of isapnp_detect: wake all cards, set the
      read port, sweep, and move the read port up by 4 if still no card. */
  function Probe(s: seq<bv8>, read: nat -> IdRead, st: Snapshot): (r: Snapshot)
    requires st.nDevices == 0 && |st.devices| == MAX_NUM_DEVICES
    ensures |r.devices| == MAX_NUM_DEVICES && r.nDevices <= MAX_NUM_DEVICES
    ensures r.rpa == if r.nDevices == 0 then st.rpa + 4 else st.rpa
  {
    var swept := SweepFrom(s, read, Armed(st));
    if swept.nDevices == 0 then swept.(rpa := swept.rpa + 4) else swept
  }

  /** The snapshot after isapnp_wake(0) and isapnp_set_read_port_address. */
  function Armed(st: Snapshot): Snapshot
  {
    st.(trace := st.trace + [Out(ADDRESS, 3), Out(WRITE_DATA, 0)]
                          + [Out(ADDRESS, 0), Out(WRITE_DATA, ReadPortByte(st.rpa))])
  }

  /** The whole `for` loop: probe while no card has been found and the read
      port is at most 0x3FF. */
  function ScanFrom(s: seq<bv8>, read: nat -> IdRead, st: Snapshot): (r: Snapshot)
    requires st.nDevices <= MAX_NUM_DEVICES && |st.devices| == MAX_NUM_DEVICES
    decreases if st.nDevices == 0 then 1 else 0, 0x404 - st.rpa
    ensures |r.devices| == MAX_NUM_DEVICES && r.nDevices <= MAX_NUM_DEVICES
  {
    if st.nDevices != 0 || st.rpa > LAST_READ_PORT then st
    else ScanFrom(s, read, Probe(s, read, st))
  }

  /** The first `n` passes of that loop, stopping at the first that found
      a card. */
  function Probes(s: seq<bv8>, read: nat -> IdRead, st: Snapshot, n: nat): (r: Snapshot)
    requires st.nDevices == 0 && |st.devices| == MAX_NUM_DEVICES
    decreases n
    ensures |r.devices| == MAX_NUM_DEVICES && r.nDevices <= MAX_NUM_DEVICES
  {
    if n == 0 then st
    else
      var p := Probe(s, read, st);
      if p.nDevices != 0 then p else Probes(s, read, p, n - 1)
  }

  /** A successful read consumes the whole 72-sample identifier. */
  lemma AcceptedConsumesAll(s: seq<bv8>)
    ensures forall q :: ReadIdOf(s)(q).accepted ==> ReadIdOf(s)(q).consumed == 144
  {
  }

  /** In isapnp_detect next_csn is always one more than nDevices: both start
      at 1 and 0 and grow together.  A sweep keeps that. */
  lemma {:induction false} SweepCounts(s: seq<bv8>, read: nat -> IdRead, st: Snapshot)
    requires st.nDevices < MAX_NUM_DEVICES && |st.devices| == MAX_NUM_DEVICES
    requires st.nextCsn as int == st.nDevices + 1
    decreases MAX_NUM_DEVICES - st.nDevices
    ensures SweepFrom(s, read, st).nextCsn as int == SweepFrom(s, read, st).nDevices + 1
  {
    var e := Isolate(s, read, st);
    if read(st.pos).accepted {
      assert e.nextCsn as int == st.nextCsn as int + 1;
      if e.nDevices < MAX_NUM_DEVICES {
        SweepCounts(s, read, e.(trace := e.trace + [Out(ADDRESS, 3), Out(WRITE_DATA, 0)]));
      }
    }
  }

  /** When every accepted read consumes the 144 bytes of a whole identifier,
      the k-th card a sweep enters answered an accepted read 144 * k bytes
      into the stream; its entry holds that read's vendor id and serial
      number and the CSN one more than its index in the table. */
  lemma {:induction false} SweepCard(s: seq<bv8>, read: nat -> IdRead, st: Snapshot, k: nat)
    requires st.nDevices < MAX_NUM_DEVICES && |st.devices| == MAX_NUM_DEVICES
    requires st.nextCsn as int == st.nDevices + 1
    requires forall q :: read(q).accepted ==> read(q).consumed == 144
    requires st.nDevices + k < SweepFrom(s, read, st).nDevices
    decreases MAX_NUM_DEVICES - st.nDevices
    ensures read(st.pos + 144 * k).accepted
    ensures var card := SweepFrom(s, read, st).devices[st.nDevices + k];
      && card.vendorId == read(st.pos + 144 * k).vendorId
      && card.sn == read(st.pos + 144 * k).sn
      && card.csn as int == st.nDevices + k + 1
  {
    var e := Isolate(s, read, st);
    var next := e.(trace := e.trace + [Out(ADDRESS, 3), Out(WRITE_DATA, 0)]);
    if k == 0 {
      SweepKeeps(s, read, st);
    } else {
      assert e.nextCsn as int == st.nextCsn as int + 1;
      assert SweepFrom(s, read, st) == SweepFrom(s, read, next);
      SweepCard(s, read, next, k - 1);
      assert st.pos + 144 * k == next.pos + 144 * (k - 1);
    }
  }

  /** A sweep changes only the table entries it fills: those before nDevices
      and those from the new nDevices on are as they were. */
  lemma {:induction false} SweepKeeps(s: seq<bv8>, read: nat -> IdRead, st: Snapshot)
    requires st.nDevices < MAX_NUM_DEVICES && |st.devices| == MAX_NUM_DEVICES
    decreases MAX_NUM_DEVICES - st.nDevices
    ensures forall j :: 0 <= j < MAX_NUM_DEVICES && !(st.nDevices <= j < SweepFrom(s, read, st).nDevices) ==>
      SweepFrom(s, read, st).devices[j] == st.devices[j]
    ensures st.nDevices < SweepFrom(s, read, st).nDevices ==>
      SweepFrom(s, read, st).devices[st.nDevices] == Device(read(st.pos).vendorId, read(st.pos).sn, st.nextCsn)
  {
    var id := read(st.pos);
    if id.accepted && st.nDevices + 1 < MAX_NUM_DEVICES {
      var e := Isolate(s, read, st);
      var next := e.(trace := e.trace + [Out(ADDRESS, 3), Out(WRITE_DATA, 0)]);
      assert SweepFrom(s, read, st) == SweepFrom(s, read, next);
      SweepKeeps(s, read, next);
    }
  }

  /** A sweep that leaves room in the table stopped at a failed read right
      after the last card it entered, and consumed what that read consumed. */
  lemma {:induction false} SweepStop(s: seq<bv8>, read: nat -> IdRead, st: Snapshot)
    requires st.nDevices < MAX_NUM_DEVICES && |st.devices| == MAX_NUM_DEVICES
    requires forall q :: read(q).accepted ==> read(q).consumed == 144
    requires SweepFrom(s, read, st).nDevices < MAX_NUM_DEVICES
    decreases MAX_NUM_DEVICES - st.nDevices
    ensures var q := st.pos + 144 * (SweepFrom(s, read, st).nDevices - st.nDevices);
      && !read(q).accepted
      && SweepFrom(s, read, st).pos == q + read(q).consumed
  {
    var id := read(st.pos);
    if id.accepted {
      var e := Isolate(s, read, st);
      var next := e.(trace := e.trace + [Out(ADDRESS, 3), Out(WRITE_DATA, 0)]);
      assert SweepFrom(s, read, st) == SweepFrom(s, read, next);
      SweepStop(s, read, next);
      var m := SweepFrom(s, read, st).nDevices - next.nDevices;
      assert st.pos + 144 * (m + 1) == next.pos + 144 * m;
    }
  }

  /** Detection leaves at most MAX_NUM_DEVICES cards; it finds none exactly
      when it ends past the last read port (at 0x403), and otherwise it ends
      on a read port in 0x203..0x3FF with the two low bits set. */
  lemma {:induction false} ScanOutcome(s: seq<bv8>, read: nat -> IdRead, st: Snapshot)
    requires st.nDevices == 0 && |st.devices| == MAX_NUM_DEVICES
    requires FIRST_READ_PORT <= st.rpa <= LAST_READ_PORT + 4 && st.rpa & 3 == 3
    decreases 0x404 - st.rpa
    ensures var d := ScanFrom(s, read, st);
      && d.nDevices <= MAX_NUM_DEVICES
      && (d.nDevices == 0 <==> d.rpa == LAST_READ_PORT + 4)
      && (d.nDevices != 0 ==> FIRST_READ_PORT <= d.rpa <= LAST_READ_PORT && d.rpa & 3 == 3)
  {
    if st.rpa <= LAST_READ_PORT {
      var next := Probe(s, read, st);
      if next.nDevices == 0 {
        ScanOutcome(s, read, next);
      }
    }
  }

  /** The scan moves the read port up by 4 `m` times: the first `m` probes
      found no card, and the scan ends on the state they left, or, when
      cards were found, on the one the next probe left. */
  predicate ScanProbed(s: seq<bv8>, read: nat -> IdRead, st: Snapshot, m: nat)
    requires st.nDevices == 0 && |st.devices| == MAX_NUM_DEVICES
  {
    var d := ScanFrom(s, read, st);
    && d.rpa as int == st.rpa as int + 4 * m
    && NoCardBelow(s, read, st, m)
    && d == Probes(s, read, st, if d.nDevices == 0 then m else m + 1)
  }

  /** The first `m` probes found no card. */
  predicate NoCardBelow(s: seq<bv8>, read: nat -> IdRead, st: Snapshot, m: nat)
    requires st.nDevices == 0 && |st.devices| == MAX_NUM_DEVICES
  {
    forall j :: 0 <= j <= m ==> Probes(s, read, st, j).nDevices == 0
  }

  /** isapnp_detect stops at the first read port that yields a card: every
      port it passed found none (the ports are those of ProbesPorts). */
  lemma {:induction false} ScanProbes(s: seq<bv8>, read: nat -> IdRead, st: Snapshot) returns (m: nat)
    requires st.nDevices == 0 && |st.devices| == MAX_NUM_DEVICES && st.rpa <= LAST_READ_PORT + 4
    decreases 0x404 - st.rpa
    ensures ScanProbed(s, read, st, m)
  {
    m := 0;
    if st.rpa <= LAST_READ_PORT {
      var next := Probe(s, read, st);
      if next.nDevices == 0 {
        var k := ScanProbes(s, read, next);
        m := k + 1;
        ProbedOn(s, read, st, k);
      } else {
        ProbedHere(s, read, st);
      }
    } else {
      assert ScanFrom(s, read, st) == st == Probes(s, read, st, 0);
    }
  }

  /** The first probe found a card: the scan ends on its state. */
  lemma ProbedHere(s: seq<bv8>, read: nat -> IdRead, st: Snapshot)
    requires st.nDevices == 0 && |st.devices| == MAX_NUM_DEVICES && st.rpa <= LAST_READ_PORT
    requires Probe(s, read, st).nDevices != 0
    ensures ScanProbed(s, read, st, 0)
  {
    var p := Probe(s, read, st);
    assert Probes(s, read, st, 1) == p;
    assert ScanFrom(s, read, st) == ScanFrom(s, read, p) == p;
  }

  /** The first probe found none: the scan goes on from its state. */
  lemma ProbedOn(s: seq<bv8>, read: nat -> IdRead, st: Snapshot, k: nat)
    requires st.nDevices == 0 && |st.devices| == MAX_NUM_DEVICES && st.rpa <= LAST_READ_PORT
    requires Probe(s, read, st).nDevices == 0
    requires ScanProbed(s, read, Probe(s, read, st), k)
    ensures ScanProbed(s, read, st, k + 1)
  {
    var next := Probe(s, read, st);
    var d := ScanFrom(s, read, st);
    assert d == ScanFrom(s, read, next);
    NextPort(st.rpa, next.rpa, d.rpa as int, k);
    ProbesLift(s, read, st, k);
    var n := if d.nDevices == 0 then k else k + 1;
    ProbesShift(s, read, st, n);
  }

  /** A read port below 0x400 moves up by 4 without wrapping. */
  lemma NextPort(a: bv16, b: bv16, x: int, k: nat)
    requires a <= LAST_READ_PORT && b == a + 4 && x == b as int + 4 * k
    ensures x == a as int + 4 * (k + 1)
  {
  }

  /** What the probes from the state the first probe left say, said of the
      probes from the state before it. */
  lemma ProbesLift(s: seq<bv8>, read: nat -> IdRead, st: Snapshot, k: nat)
    requires st.nDevices == 0 && |st.devices| == MAX_NUM_DEVICES
    requires Probe(s, read, st).nDevices == 0
    requires NoCardBelow(s, read, Probe(s, read, st), k)
    ensures NoCardBelow(s, read, st, k + 1)
  {
    forall j | 0 <= j <= k + 1
      ensures Probes(s, read, st, j).nDevices == 0
    {
      if j > 0 {
        ProbesShift(s, read, st, j - 1);
      }
    }
  }

  /** When the first `j` probes found no card, the j-th left the read port
      4 * j above where they started (for ports the scan reaches). */
  lemma {:induction false} ProbesPorts(s: seq<bv8>, read: nat -> IdRead, st: Snapshot, j: nat)
    requires st.nDevices == 0 && |st.devices| == MAX_NUM_DEVICES
    requires st.rpa as int + 4 * j <= 0x403 && NoCardBelow(s, read, st, j)
    decreases j
    ensures Probes(s, read, st, j).rpa as int == st.rpa as int + 4 * j
  {
    if j > 0 {
      var next := Probe(s, read, st);
      ProbesLower(s, read, st, j - 1);
      PortBelow(st.rpa);
      UpFour(st.rpa, next.rpa);
      ProbesPorts(s, read, next, j - 1);
      ProbesShift(s, read, st, j - 1);
    }
  }

  /** The converse of ProbesLift. */
  lemma ProbesLower(s: seq<bv8>, read: nat -> IdRead, st: Snapshot, k: nat)
    requires st.nDevices == 0 && |st.devices| == MAX_NUM_DEVICES
    requires NoCardBelow(s, read, st, k + 1)
    ensures Probe(s, read, st).nDevices == 0
    ensures NoCardBelow(s, read, Probe(s, read, st), k)
  {
    assert Probes(s, read, st, 1).nDevices == 0;
    forall i | 0 <= i <= k
      ensures Probes(s, read, Probe(s, read, st), i).nDevices == 0
    {
      ProbesShift(s, read, st, i);
    }
  }

  lemma UpFour(a: bv16, b: bv16)
    requires a <= LAST_READ_PORT && b == a + 4
    ensures b as int == a as int + 4
  {
  }

  lemma PortBelow(a: bv16)
    requires a as int <= 0x3FF
    ensures a <= LAST_READ_PORT
  {
  }

  lemma ProbesShift(s: seq<bv8>, read: nat -> IdRead, st: Snapshot, j: nat)
    requires st.nDevices == 0 && |st.devices| == MAX_NUM_DEVICES
    requires Probe(s, read, st).nDevices == 0
    ensures Probes(s, read, st, j + 1) == Probes(s, read, Probe(s, read, st), j)
  {
  }

  /** The cards detection leaves in devices[0 .. nDevices) answered accepted
      identifier reads at consecutive 144-byte places from some stream
      position q on, and got the CSNs 1, 2, ..; the rest of the table is
      untouched. */
  lemma {:induction false} ScanCards(s: seq<bv8>, read: nat -> IdRead, st: Snapshot) returns (q: nat)
    requires st.nDevices == 0 && st.nextCsn == 1 && |st.devices| == MAX_NUM_DEVICES
    requires forall q :: read(q).accepted ==> read(q).consumed == 144
    decreases 0x404 - st.rpa
    ensures var d := ScanFrom(s, read, st);
      && (forall k :: 0 <= k < d.nDevices ==>
            && read(q + 144 * k).accepted
            && d.devices[k].vendorId == read(q + 144 * k).vendorId
            && d.devices[k].sn == read(q + 144 * k).sn
            && d.devices[k].csn as int == k + 1)
      && (forall k :: d.nDevices <= k < MAX_NUM_DEVICES ==> d.devices[k] == st.devices[k])
  {
    q := st.pos;
    if st.rpa <= LAST_READ_PORT {
      var start := Armed(st);
      var swept := SweepFrom(s, read, start);
      SweepKeeps(s, read, start);
      SweepCounts(s, read, start);
      if swept.nDevices == 0 {
        q := ScanCards(s, read, Probe(s, read, st));
      } else {
        q := start.pos;
        forall k | 0 <= k < swept.nDevices
          ensures && read(q + 144 * k).accepted
                  && swept.devices[k].vendorId == read(q + 144 * k).vendorId
                  && swept.devices[k].sn == read(q + 144 * k).sn
                  && swept.devices[k].csn as int == k + 1
        {
          SweepCard(s, read, start, k);
        }
      }
    }
  }

  // ---------------------------------------------------------------------------
  // The bus and the enumeration state

  class Bus {
    /** Every port access, in order. */
    var trace: seq<IoEvent>
    /** The bytes the read port returns, and how many have been read. */
    const input: seq<bv8>
    var pos: nat
    /** isapnp_rpa, nDevices and devices[]. */
    var rpa: bv16
    var nDevices: nat
    const devices: array<Device>

    ghost predicate Valid()
      reads this
    {
      && devices.Length == MAX_NUM_DEVICES
      && 0 <= nDevices <= MAX_NUM_DEVICES
    }

    constructor (input: seq<bv8>)
      ensures Valid() && fresh(devices)
      ensures this.input == input && pos == 0 && trace == []
      ensures rpa == 0 && nDevices == 0
      ensures forall k :: 0 <= k < devices.Length ==> devices[k] == Device(0, 0, 0)
    {
      this.input := input;
      pos := 0;
      trace := [];
      rpa := 0;
      nDevices := 0;
      devices := new Device[MAX_NUM_DEVICES](_ => Device(0, 0, 0));
    }

    method Outb(port: bv16, value: bv8)
      modifies this
      ensures trace == old(trace) + [Out(port, value)]
      ensures pos == old(pos) && rpa == old(rpa) && nDevices == old(nDevices)
    {
      trace := trace + [Out(port, value)];
    }

    method Inb(port: bv16) returns (value: bv8)
      modifies this
      ensures value == ReadAt(input, old(pos)) && pos == old(pos) + 1
      ensures trace == old(trace) + [In(port, value)]
      ensures rpa == old(rpa) && nDevices == old(nDevices)
    {
      value := ReadAt(input, pos);
      pos := pos + 1;
      trace := trace + [In(port, value)];
    }

    /** isapnp_send_initiation_key: two zeros to the address port, then the
        32 key values v0 .. v31. */
    method SendInitiationKey()
      modifies this
      ensures trace == old(trace) + KeyWrites()
      ensures pos == old(pos) && rpa == old(rpa) && nDevices == old(nDevices)
    {
      var lfsrValue: bv8 := LFSR_SEED;
      Outb(ADDRESS, 0);
      Outb(ADDRESS, 0);
      ghost var start := trace;
      for i := 0 to KEY_LENGTH
        invariant lfsrValue == KeyByte(i)
        invariant |trace| == |start| + i && trace[..|start|] == start
        invariant forall k :: 0 <= k < i ==> trace[|start| + k] == Out(ADDRESS, KeyByte(k))
        invariant pos == old(pos) && rpa == old(rpa) && nDevices == old(nDevices)
      {
        Outb(ADDRESS, lfsrValue);
        lfsrValue := LfsrShift(lfsrValue, 0);
      }
      assert trace == start + trace[|start|..];
    }

    method ResetCsns()
      modifies this
      ensures trace == old(trace) + [Out(ADDRESS, 2), Out(WRITE_DATA, 4)]
      ensures pos == old(pos) && rpa == old(rpa) && nDevices == old(nDevices)
    {
      Outb(ADDRESS, 2);
      Outb(WRITE_DATA, 4);
    }

    method Wake(csn: bv8)
      modifies this
      ensures trace == old(trace) + [Out(ADDRESS, 3), Out(WRITE_DATA, csn)]
      ensures pos == old(pos) && rpa == old(rpa) && nDevices == old(nDevices)
    {
      Outb(ADDRESS, 3);
      Outb(WRITE_DATA, csn);
    }

    method SetReadPortAddress(port: bv16)
      modifies this
      ensures trace == old(trace) + [Out(ADDRESS, 0), Out(WRITE_DATA, ReadPortByte(port))]
      ensures pos == old(pos) && rpa == old(rpa) && nDevices == old(nDevices)
    {
      Outb(ADDRESS, 0);
      Outb(WRITE_DATA, ReadPortByte(port));
    }

    method SelectIsolation()
      modifies this
      ensures trace == old(trace) + [Out(ADDRESS, 1)]
      ensures pos == old(pos) && rpa == old(rpa) && nDevices == old(nDevices)
    {
      Outb(ADDRESS, 1);
    }

    method SetCsn(csn: bv8)
      modifies this
      ensures trace == old(trace) + [Out(ADDRESS, 6), Out(WRITE_DATA, csn)]
      ensures pos == old(pos) && rpa == old(rpa) && nDevices == old(nDevices)
    {
      Outb(ADDRESS, 6);
      Outb(WRITE_DATA, csn);
    }

    /** The two `inb`s of one identifier bit: the low byte, then the high. */
    method ReadSample(ghost t0: seq<IoEvent>, ghost p0: nat, ghost t: nat) returns (sample: bv16)
      requires pos == p0 + 2 * t && Logged(trace, t0, rpa, input, p0, 2 * t)
      modifies this
      ensures sample == SampleAt(input, p0, t)
      ensures (sample == 0xAA55) == IsOne(input, p0, t) && (sample == 0xFFFF) == IsZero(input, p0, t)
      ensures pos == old(pos) + 2 && Logged(trace, t0, rpa, input, p0, 2 * t + 2)
      ensures rpa == old(rpa) && nDevices == old(nDevices)
    {
      LoggedNext(trace, t0, rpa, input, p0, 2 * t);
      var lo := Inb(rpa);
      LoggedNext(trace, t0, rpa, input, p0, 2 * t + 1);
      var hi := Inb(rpa);
      sample := Word(lo, hi);
      SampleWord(input, p0, t);
    }

    /** One pass of the inner loop of isapnp_read_id: read sample j of
        identifier byte i; 0xAA55 shifts a 1 into the byte from the top and
        marks a card as seen, 0xFFFF shifts a 0; either is fed to the checksum
        LFSR unless this is the checksum byte itself (i == 8).  Any other
        sample makes read_id give up. */
    method ReadIdBit(ghost t0: seq<IoEvent>, ghost p0: nat, i: nat, ghost j: nat, ghost x: bv8,
                     byte: bv8, detected: bool, lfsr: bv8)
      returns (ok: bool, byte': bv8, detected': bool, lfsr': bv8)
      requires i < 9 && j < 8
      requires pos == p0 + 16 * i + 2 * j && Logged(trace, t0, rpa, input, p0, 16 * i + 2 * j)
      requires FirstInvalid(input, p0) >= 8 * i + j
      requires detected == Detected(input, p0, 8 * i + j) && lfsr == Checksum(input, p0, 8 * i + j)
      requires byte == PartialByte(input, p0, i, j, x)
      modifies this
      ensures rpa == old(rpa) && nDevices == old(nDevices)
      ensures ok ==> && pos == old(pos) + 2
                     && Logged(trace, t0, rpa, input, p0, 16 * i + 2 * (j + 1))
                     && FirstInvalid(input, p0) >= 8 * i + j + 1
                     && detected' == Detected(input, p0, 8 * i + j + 1)
                     && lfsr' == Checksum(input, p0, 8 * i + j + 1)
                     && byte' == PartialByte(input, p0, i, j + 1, x)
      ensures !ok ==> && !IdAccepted(input, p0)
                      && pos == p0 + BytesConsumed(input, p0)
                      && Logged(trace, t0, rpa, input, p0, BytesConsumed(input, p0))
    {
      ghost var t := 8 * i + j;
      assert 2 * t == 16 * i + 2 * j && 2 * t + 2 == 16 * i + 2 * (j + 1);
      byte', detected', lfsr' := byte, detected, lfsr;
      var sample := ReadSample(t0, p0, t);
      if sample != 0xAA55 && sample != 0xFFFF {
        InvalidSampleRejects(input, p0, t);
        return false, byte', detected', lfsr';
      }
      FirstInvalidNext(input, p0, t);
      SampleAdvance(input, p0, i, j, x);
      assert (i != 8) == (t < 64);
      if sample == 0xAA55 {
        detected' := true;
        byte' := ShiftIn(byte, true);
        if i != 8 {
          lfsr' := LfsrShift(lfsr, 1);
        }
      } else {
        byte' := ShiftIn(byte, false);
        if i != 8 {
          lfsr' := LfsrShift(lfsr, 0);
        }
      }
      ok := true;
    }

    /** The inner loop of isapnp_read_id: the 8 samples of identifier byte i.
        It stops at the first sample that is neither 0xAA55 nor 0xFFFF. */
    method ReadIdByte(ghost t0: seq<IoEvent>, ghost p0: nat, i: nat, x: bv8, detected: bool, lfsr: bv8)
      returns (ok: bool, byte: bv8, detected': bool, lfsr': bv8)
      requires i < 9
      requires pos == p0 + 16 * i && Logged(trace, t0, rpa, input, p0, 16 * i)
      requires FirstInvalid(input, p0) >= 8 * i
      requires detected == Detected(input, p0, 8 * i) && lfsr == Checksum(input, p0, 8 * i)
      modifies this
      ensures rpa == old(rpa) && nDevices == old(nDevices)
      ensures ok ==> && pos == old(pos) + 16
                     && Logged(trace, t0, rpa, input, p0, 16 * (i + 1))
                     && FirstInvalid(input, p0) >= 8 * (i + 1)
                     && detected' == Detected(input, p0, 8 * (i + 1))
                     && lfsr' == Checksum(input, p0, 8 * (i + 1))
                     && byte == IdByte(input, p0, i)
      ensures !ok ==> && !IdAccepted(input, p0)
                      && pos == p0 + BytesConsumed(input, p0)
                      && Logged(trace, t0, rpa, input, p0, BytesConsumed(input, p0))
    {
      byte, detected', lfsr' := x, detected, lfsr;
      for j := 0 to 8
        invariant pos == p0 + 16 * i + 2 * j
        invariant Logged(trace, t0, rpa, input, p0, 16 * i + 2 * j)
        invariant rpa == old(rpa) && nDevices == old(nDevices)
        invariant FirstInvalid(input, p0) >= 8 * i + j
        invariant detected' == Detected(input, p0, 8 * i + j)
        invariant lfsr' == Checksum(input, p0, 8 * i + j)
        invariant byte == PartialByte(input, p0, i, j, x)
      {
        var bitOk;
        bitOk, byte, detected', lfsr' := ReadIdBit(t0, p0, i, j, x, byte, detected', lfsr');
        if !bitOk {
          return false, byte, detected', lfsr';
        }
      }
      assert 16 * i + 2 * 8 == 16 * (i + 1) && 8 * i + 8 == 8 * (i + 1);
      PartialByteComplete(input, p0, i, x);
      ok := true;
    }

    /** isapnp_read_id: 9 bytes of 8 samples each from the read port.  The
        identifier is only returned (ok) when the reference definition accepts
        the stream; on failure the caller writes nothing. */
    method ReadId() returns (ok: bool, vendorId: bv32, sn: bv32)
      modifies this
      ensures ok == IdAccepted(input, old(pos))
      ensures ok ==> vendorId == VendorOf(input, old(pos)) && sn == SerialOf(input, old(pos))
      ensures pos == old(pos) + BytesConsumed(input, old(pos))
      ensures Logged(trace, old(trace), rpa, input, old(pos), BytesConsumed(input, old(pos)))
      ensures rpa == old(rpa) && nDevices == old(nDevices)
    {
      ghost var p0 := pos;
      ghost var t0 := trace;
      var cardDetected := false;
      var id: seq<bv8> := [0, 0, 0, 0, 0, 0, 0, 0, 0];
      var lfsr: bv8 := LFSR_SEED;
      vendorId, sn := 0, 0;
      for i := 0 to 9
        invariant pos == p0 + 16 * i
        invariant Logged(trace, t0, rpa, input, p0, 16 * i)
        invariant rpa == old(rpa) && nDevices == old(nDevices)
        invariant FirstInvalid(input, p0) >= 8 * i
        invariant cardDetected == Detected(input, p0, 8 * i)
        invariant lfsr == Checksum(input, p0, 8 * i)
        invariant |id| == 9
        invariant forall k :: 0 <= k < i ==> id[k] == IdByte(input, p0, k)
      {
        var byteOk, b, d, l := ReadIdByte(t0, p0, i, id[i], cardDetected, lfsr);
        if !byteOk {
          return false, vendorId, sn;
        }
        id, cardDetected, lfsr := id[i := b], d, l;
      }
      DetectedSpec(input, p0, 72);
      ChecksumSpec(input, p0, 72);
      assert SampleBits(input, p0, 72)[..72] == SampleBits(input, p0, 72);
      assert SampleBits(input, p0, 72)[..64] == SampleBits(input, p0, 64);
      if !cardDetected {
        return false, vendorId, sn;
      }
      if lfsr != id[8] {
        return false, vendorId, sn;
      }
      vendorId := Le32(id[0], id[1], id[2], id[3]);
      sn := Le32(id[4], id[5], id[6], id[7]);
      ok := true;
    }

    /** The bus as a snapshot, with isapnp_detect's next_csn. */
    ghost function State(nextCsn: bv8): Snapshot
      reads this, devices
    {
      Snapshot(trace, devices[..], pos, rpa, nDevices, nextCsn)
    }

    /** Lines 220-224 of isapnp_detect: give the isolated card `csn` and
        enter it at devices[nDevices]. */
    method EnterCard(csn: bv8, vendorId: bv32, sn: bv32)
      requires Valid() && nDevices < MAX_NUM_DEVICES
      modifies this, devices
      ensures Valid() && pos == old(pos) && rpa == old(rpa)
      ensures trace == old(trace) + [Out(ADDRESS, 6), Out(WRITE_DATA, csn)]
      ensures devices[..] == old(devices[..])[old(nDevices) := Device(vendorId, sn, csn)]
      ensures nDevices == old(nDevices) + 1
    {
      SetCsn(csn);
      devices[nDevices] := Device(vendorId, sn, csn);
      nDevices := nDevices + 1;
    }

    /** One pass of the `while (1)` loop of isapnp_detect up to its first
        exit: select isolation and read an identifier; on success assign
        `csn` to the card and enter it at devices[nDevices]. */
    method IsolateOne(csn: bv8) returns (entered: bool, csn': bv8)
      requires Valid() && nDevices < MAX_NUM_DEVICES
      modifies this, devices
      ensures Valid()
      ensures entered == ReadIdOf(input)(old(pos)).accepted
      ensures State(csn') == Isolate(input, ReadIdOf(input), old(State(csn)))
    {
      csn' := csn;
      ghost var before := State(csn);
      ghost var id := ReadIdOf(input)(pos);
      SelectIsolation();
      ghost var tr := trace;
      var ok, vendorId, sn := ReadId();
      LoggedReads(trace, tr, rpa, input, before.pos, id.consumed);
      assert trace == before.trace + [Out(ADDRESS, 1)] + Reads(rpa, input, before.pos, id.consumed);
      if ok {
        EnterCard(csn, vendorId, sn);
        csn' := csn + 1;
      }
      entered := ok;
    }

    /** The `while (1)` loop of isapnp_detect.  Returns the next CSN. */
    method Sweep(csn: bv8) returns (csn': bv8)
      requires Valid() && nDevices < MAX_NUM_DEVICES
      modifies this, devices
      ensures Valid()
      ensures State(csn') == SweepFrom(input, ReadIdOf(input), old(State(csn)))
    {
      ghost var read := ReadIdOf(input);
      ghost var start := State(csn);
      csn' := csn;
      while true
        invariant Valid() && nDevices < MAX_NUM_DEVICES && rpa == old(rpa)
        invariant SweepFrom(input, read, start) == SweepFrom(input, read, State(csn'))
        decreases MAX_NUM_DEVICES - nDevices
      {
        var entered;
        entered, csn' := IsolateOne(csn');
        if !entered || nDevices >= MAX_NUM_DEVICES {
          break;
        }
        Wake(0);
      }
    }

    /** isapnp_detect: send the initiation key, reset all CSNs, then try the
        read ports 0x203, 0x207, .. 0x3FF until a sweep finds a card. */
    method Detect()
      requires Valid()
      modifies this, devices
      ensures Valid()
      ensures var d := ScanFrom(input, ReadIdOf(input),
                         Snapshot(old(trace) + KeyWrites() + [Out(ADDRESS, 2), Out(WRITE_DATA, 4)],
                                  old(devices[..]), old(pos), FIRST_READ_PORT, 0, 1));
        && trace == d.trace && devices[..] == d.devices && pos == d.pos
        && rpa == d.rpa && nDevices == d.nDevices
    {
      ghost var read := ReadIdOf(input);
      SendInitiationKey();
      ResetCsns();
      var nextCsn: bv8 := 1;
      nDevices := 0;
      rpa := FIRST_READ_PORT;
      ghost var start := State(nextCsn);
      while nDevices == 0 && rpa <= LAST_READ_PORT
        invariant Valid()
        invariant ScanFrom(input, read, start) == ScanFrom(input, read, State(nextCsn))
        decreases if nDevices == 0 then 1 else 0, 0x404 - rpa
      {
        ghost var before := State(nextCsn);
        Wake(0);
        SetReadPortAddress(rpa);
        assert State(nextCsn) == Armed(before);
        nextCsn := Sweep(nextCsn);
        if nDevices == 0 {
          rpa := rpa + 4;
        }
        assert State(nextCsn) == Probe(input, read, before);
      }
    }
  }
}
