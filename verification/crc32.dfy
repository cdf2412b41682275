/** The checksum engine of the update receiver: a bitwise CRC-32 that feeds
    each byte most-significant-bit first into the top byte of a 32-bit
    accumulator and divides by the polynomial 0x04C11DB7, with the seed
    chosen by the caller, no reflection and no final exclusive-or. With the
    seed 0xFFFFFFFF this is the CRC-32/MPEG-2 parameter set of Annex A of
    ISO/IEC 13818-1.
 */
module Crc {

  /** Generator polynomial, x^32 term implicit. */
  const Poly: bv32 := 0x04C1_1DB7

  /** Bit 31 of the accumulator, the bit that is about to leave it. */
  const TopBit: bv32 := 0x8000_0000

  /** One round of the inner bit loop: shift left, reducing by the
      polynomial when a one leaves the top of the accumulator. */
  function ShiftRound(crc: bv32): bv32
  {
    if crc & TopBit != 0 then (crc << 1) ^ Poly else crc << 1
  }

  /** `n` rounds of the inner bit loop. */
  function Rounds(crc: bv32, n: nat): bv32
    decreases n
  {
    if n == 0 then crc else Rounds(ShiftRound(crc), n - 1)
  }

  /** One pass of the outer loop: the byte enters the top eight bits, then
      eight rounds follow. */
  function UpdateByte(crc: bv32, b: bv8): bv32
  {
    Rounds(crc ^ ((b as bv32) << 24), 8)
  }

  /** Bit 0 after a round records whether a one left the top: the shift
      clears bit 0 and the polynomial has its x^0 term. */
  lemma ShiftRoundCarry(crc: bv32)
    ensures (ShiftRound(crc) & 1 == 1) <==> (crc & TopBit != 0)
  {
  }

  /** The last of `n` rounds runs on what the first `n - 1` left, as in the
      loop. */
  lemma {:induction false} RoundsLast(crc: bv32, n: nat)
    requires n > 0
    ensures Rounds(crc, n) == ShiftRound(Rounds(crc, n - 1))
    decreases n
  {
    if n > 1 {
      RoundsLast(ShiftRound(crc), n - 1);
    }
  }

  /** The checksum of `data` started from `crc`: the outer loop is a left
      fold of `UpdateByte` over the bytes in order. */
  function Crc32(data: seq<bv8>, crc: bv32): (r: bv32)
    ensures |data| == 0 ==> r == crc
    decreases |data|
  {
    if |data| == 0 then crc else Crc32(data[1..], UpdateByte(crc, data[0]))
  }

  /** The loop as the firmware runs it: `len` bytes of `data`, one byte per
      outer iteration. */
  method ComputeCrc32(data: seq<bv8>, len: nat, seed: bv32) returns (crc: bv32)
    requires len <= |data|
    ensures crc == Crc32(data[..len], seed)
    ensures len == 0 ==> crc == seed
  {
    crc := seed;
    var i := 0;
    while i < len
      invariant i <= len
      invariant Crc32(data[i..len], crc) == Crc32(data[..len], seed)
    {
      assert data[i..len][1..] == data[i + 1..len];
      crc := FeedByte(crc, data[i]);
      i := i + 1;
    }
    assert data[..len][0..] == data[..len];
  }

  /** The body of the outer loop: the byte enters the top of the
      accumulator, then the inner loop runs eight shift rounds. */
  method FeedByte(crc0: bv32, b: bv8) returns (crc: bv32)
    ensures crc == UpdateByte(crc0, b)
  {
    crc := crc0 ^ ((b as bv32) << 24);
    var bit := 0;
    while bit < 8
      invariant bit <= 8
      invariant Rounds(crc, 8 - bit) == UpdateByte(crc0, b)
    {
      if crc & TopBit != 0 {
        crc := (crc << 1) ^ Poly;
      } else {
        crc := crc << 1;
      }
      bit := bit + 1;
    }
  }

  /** Running the checksum over a concatenation is the same as running it
      over the second part, seeded with the checksum of the first part. */
  lemma {:induction false} Crc32Append(a: seq<bv8>, b: seq<bv8>, seed: bv32)
    ensures Crc32(a + b, seed) == Crc32(b, Crc32(a, seed))
    decreases |a|
  {
    if |a| > 0 {
      assert (a + b)[1..] == a[1..] + b;
      Crc32Append(a[1..], b, UpdateByte(seed, a[0]));
    } else {
      assert a + b == b;
    }
  }

  // ---------------------------------------------------------------------
  // Injectivity, and the detection of one corrupted byte.

  lemma ShiftRoundInjectiveBothTop(x: bv32, y: bv32)
    requires x & TopBit != 0 && y & TopBit != 0
    ensures ShiftRound(x) == ShiftRound(y) ==> x == y
  {
  }

  /** The polynomial has its x^0 term, so a reduced and an unreduced shift
      differ in bit 0. */
  lemma ShiftRoundInjectiveOneTop(x: bv32, y: bv32)
    requires x & TopBit != 0 && y & TopBit == 0
    ensures ShiftRound(x) != ShiftRound(y)
  {
  }

  lemma ShiftRoundInjectiveNoTop(x: bv32, y: bv32)
    requires x & TopBit == 0 && y & TopBit == 0
    ensures ShiftRound(x) == ShiftRound(y) ==> x == y
  {
  }

  /** No two accumulators collide after one round. */
  lemma ShiftRoundInjective(x: bv32, y: bv32)
    requires ShiftRound(x) == ShiftRound(y)
    ensures x == y
  {
    if x & TopBit != 0 {
      if y & TopBit != 0 { ShiftRoundInjectiveBothTop(x, y); } else { ShiftRoundInjectiveOneTop(x, y); }
    } else {
      if y & TopBit != 0 { ShiftRoundInjectiveOneTop(y, x); } else { ShiftRoundInjectiveNoTop(x, y); }
    }
  }

  lemma {:induction false} RoundsInjective(x: bv32, y: bv32, n: nat)
    requires Rounds(x, n) == Rounds(y, n)
    ensures x == y
    decreases n
  {
    if n > 0 {
      RoundsInjective(ShiftRound(x), ShiftRound(y), n - 1);
      ShiftRoundInjective(x, y);
    }
  }

  lemma FeedSeedInjective(c: bv32, d: bv32, b: bv8)
    requires c ^ ((b as bv32) << 24) == d ^ ((b as bv32) << 24)
    ensures c == d
  {
  }

  lemma FeedByteInjective(c: bv32, a: bv8, b: bv8)
    requires a != b
    ensures c ^ ((a as bv32) << 24) != c ^ ((b as bv32) << 24)
  {
  }

  /** For a fixed byte, distinct accumulators stay distinct. */
  lemma UpdateByteSeedInjective(c: bv32, d: bv32, b: bv8)
    requires UpdateByte(c, b) == UpdateByte(d, b)
    ensures c == d
  {
    RoundsInjective(c ^ ((b as bv32) << 24), d ^ ((b as bv32) << 24), 8);
    FeedSeedInjective(c, d, b);
  }

  /** For a fixed accumulator, distinct bytes give distinct results. */
  lemma UpdateByteByteInjective(c: bv32, a: bv8, b: bv8)
    requires a != b
    ensures UpdateByte(c, a) != UpdateByte(c, b)
  {
    FeedByteInjective(c, a, b);
    if UpdateByte(c, a) == UpdateByte(c, b) {
      RoundsInjective(c ^ ((a as bv32) << 24), c ^ ((b as bv32) << 24), 8);
    }
  }

  /** Distinct seeds give distinct checksums over the same bytes. */
  lemma {:induction false} Crc32SeedInjective(data: seq<bv8>, c: bv32, d: bv32)
    requires Crc32(data, c) == Crc32(data, d)
    ensures c == d
    decreases |data|
  {
    if |data| > 0 {
      Crc32SeedInjective(data[1..], UpdateByte(c, data[0]), UpdateByte(d, data[0]));
      UpdateByteSeedInjective(c, d, data[0]);
    }
  }

  /** Replacing any one byte by a different value changes the checksum,
      whatever the seed; in particular every single flipped bit is
      detected. */
  lemma SingleByteErrorDetected(data: seq<bv8>, i: nat, v: bv8, seed: bv32)
    requires i < |data|
    requires v != data[i]
    ensures Crc32(data[i := v], seed) != Crc32(data, seed)
  {
    var p, q := data[..i], data[i + 1..];
    assert data == p + [data[i]] + q;
    assert data[i := v] == p + [v] + q;
    var c := Crc32(p, seed);
    Crc32Append(p + [data[i]], q, seed);
    Crc32Append(p, [data[i]], seed);
    Crc32Append(p + [v], q, seed);
    Crc32Append(p, [v], seed);
    assert Crc32([data[i]], c) == UpdateByte(c, data[i]);
    assert Crc32([v], c) == UpdateByte(c, v);
    UpdateByteByteInjective(c, v, data[i]);
    if Crc32(data[i := v], seed) == Crc32(data, seed) {
      Crc32SeedInjective(q, UpdateByte(c, v), UpdateByte(c, data[i]));
    }
  }

  /** A single flipped bit, as a corollary. */
  lemma SingleBitFlipDetected(data: seq<bv8>, i: nat, bit: nat, seed: bv32)
    requires i < |data|
    requires bit < 8
    ensures Crc32(data[i := data[i] ^ ((1 as bv8) << bit)], seed) != Crc32(data, seed)
  {
    assert data[i] ^ ((1 as bv8) << bit) != data[i];
    SingleByteErrorDetected(data, i, data[i] ^ ((1 as bv8) << bit), seed);
  }

  // ---------------------------------------------------------------------
  // Catalogue check value.

  /** The ASCII text "123456789". */
  const CheckInput: seq<bv8> := [0x31, 0x32, 0x33, 0x34, 0x35, 0x36, 0x37, 0x38, 0x39]

  /** With the seed 0xFFFFFFFF the engine yields the CRC-32/MPEG-2 check
      value 0x0376E6E7 for "123456789". */
  lemma CheckValue()
    ensures Crc32(CheckInput, 0xFFFF_FFFF) == 0x0376_E6E7
  {
    var d := CheckInput;
    assert UpdateByte(0xFFFF_FFFF, 0x31) == 0x9EFB_CF93;
    assert UpdateByte(0x9EFB_CF93, 0x32) == 0x3FEC_5E6A;
    assert UpdateByte(0x3FEC_5E6A, 0x33) == 0xD952_F164;
    assert UpdateByte(0xD952_F164, 0x34) == 0xA695_C4AA;
    assert UpdateByte(0xA695_C4AA, 0x35) == 0xBD9A_B747;
    assert UpdateByte(0xBD9A_B747, 0x36) == 0xD8F0_6C8F;
    assert UpdateByte(0xD8F0_6C8F, 0x37) == 0x0D8A_14C4;
    assert UpdateByte(0x0D8A_14C4, 0x38) == 0x49E3_C2FB;
    assert UpdateByte(0x49E3_C2FB, 0x39) == 0x0376_E6E7;
    assert Crc32(d[9..], 0x0376_E6E7) == 0x0376_E6E7;
    assert Crc32(d[8..], 0x49E3_C2FB) == 0x0376_E6E7;
    assert Crc32(d[7..], 0x0D8A_14C4) == 0x0376_E6E7;
    assert Crc32(d[6..], 0xD8F0_6C8F) == 0x0376_E6E7;
    assert Crc32(d[5..], 0xBD9A_B747) == 0x0376_E6E7;
    assert Crc32(d[4..], 0xA695_C4AA) == 0x0376_E6E7;
    assert Crc32(d[3..], 0xD952_F164) == 0x0376_E6E7;
    assert Crc32(d[2..], 0x3FEC_5E6A) == 0x0376_E6E7;
    assert Crc32(d[1..], 0x9EFB_CF93) == 0x0376_E6E7;
  }
}
