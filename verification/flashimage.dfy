/** Handing a received image to the flashloader (app.c `flashImage`, its
    computational part): the header in front of the image gets the two
    magic words, the image length and the CRC-32 of the image, and the
    flash area to erase is the header plus image rounded up to whole
    4 KiB sectors.
 */
module FlashImage {

  import opened Bytes
  import opened Crc
  import opened HexRecord
  import opened Assembler

  /** Size of a flash sector, the unit of erasure. */
  const SectorSize: nat := 4096

  /** 2^32: lengths are `uint32_t`. */
  const Word: nat := 0x1_0000_0000

  /** An unsigned 32-bit value (`uint32_t`) used as a number. */
  type uint32 = x: int | 0 <= x < 0x1_0000_0000

  /** Seed the image checksum starts from. */
  const ImageSeed: bv32 := 0xFFFF_FFFF

  /** The values the firmware takes from flashloader.h (the size of the
      header structure and the two magic words), which is not part of this
      model; they are parameters here. */
  datatype Layout = Layout(headerSize: nat, magic1: bv32, magic2: bv32)

  /** The fields of `tFlashHeader` that `flashImage` fills in. */
  datatype FlashHeader = FlashHeader(magic1: bv32, magic2: bv32, length: uint32, crc32: bv32)

  /** What `flashImage` prepares: the header, how many bytes of flash to
      erase and how many bytes (header and image) to program. */
  datatype Staged = Staged(header: FlashHeader, eraseLength: nat, programLength: nat)

  /** The image bytes as the checksum sees them. */
  function ToBv8(data: seq<byte>): (r: seq<bv8>)
    ensures |r| == |data|
  {
    seq(|data|, i requires 0 <= i < |data| => ByteBits(data[i]))
  }

  /** A byte as an eight-bit vector, counted up from zero one increment at
      a time (the same value as `b as bv8`, in a form whose numeric value
      follows by induction). */
  function ByteBits(b: byte): bv8
  {
    if b == 0 then 0 else ByteBits(b - 1) + 1
  }

  lemma {:induction false} ByteBitsValue(b: byte)
    ensures ByteBits(b) as int == b
  {
    if b > 0 {
      ByteBitsValue(b - 1);
      Increment(ByteBits(b - 1));
    }
  }

  lemma Increment(x: bv8)
    requires x as int < 255
    ensures (x + 1) as int == x as int + 1
  {
  }

  /** Changing one byte of an image changes the same byte for the
      checksum, and to a different value. */
  lemma ToBv8Update(data: seq<byte>, i: nat, v: byte)
    requires i < |data| && v != data[i]
    ensures ToBv8(data[i := v]) == ToBv8(data)[i := ByteBits(v)]
    ensures ByteBits(v) != ToBv8(data)[i]
  {
    assert ToBv8(data)[i] == ByteBits(data[i]);
    ByteBitsValue(v);
    ByteBitsValue(data[i]);
  }

  /** Converting a prefix is taking the prefix of the conversion. */
  lemma ToBv8Prefix(data: seq<byte>, n: nat)
    requires n <= |data|
    ensures ToBv8(data)[..n] == ToBv8(data[..n])
  {
  }

  /** The header describes `image` for the flashloader: both magic words,
      the image length, and the checksum of exactly those bytes. */
  predicate Describes(layout: Layout, h: FlashHeader, image: seq<byte>)
  {
    h.magic1 == layout.magic1 && h.magic2 == layout.magic2
    && h.length == |image|
    && h.crc32 == Crc32(ToBv8(image), ImageSeed)
  }

  /** Clearing the low twelve bits of a 32-bit value (`& 0xfffff000`)
      subtracts its remainder modulo 4096. */
  lemma MaskClearsLowBits(x: bv32)
    ensures x & 0xFFFF_F000 == x - x % 4096
  {
  }

  /** `(totalLength + 4095) & 0xfffff000` in 32-bit unsigned arithmetic,
      written with the remainder form of the mask. */
  function EraseLength(total: nat): (r: nat)
    requires total < Word
    ensures r % SectorSize == 0 && r < Word
    ensures total <= Word - SectorSize ==> total <= r < total + SectorSize
    ensures total > Word - SectorSize ==> r == 0
  {
    var sum := (total + 4095) % Word;
    sum - sum % SectorSize
  }

  /** For totals that do not wrap, the erase length is the least multiple
      of the sector size that covers the total. */
  lemma EraseLengthIsLeast(total: nat, m: nat)
    requires total <= Word - SectorSize
    requires m % SectorSize == 0 && total <= m
    ensures EraseLength(total) <= m
  {
  }

  /** `flashImage` up to the point where it touches the hardware: the
      header fields, the checksum loop over the image, and the two lengths
      it passes to the flash routines. */
  method PrepareImage(layout: Layout, data: seq<byte>, length: nat) returns (s: Staged)
    requires length <= |data| && length < Word
    ensures Describes(layout, s.header, data[..length])
    ensures s.programLength == (layout.headerSize + length) % Word
    ensures s.eraseLength == EraseLength(s.programLength)
  {
    var total := (layout.headerSize + length) % Word;
    var crc := ComputeCrc32(ToBv8(data), length, ImageSeed);
    ToBv8Prefix(data, length);
    s := Staged(FlashHeader(layout.magic1, layout.magic2, length, crc), EraseLength(total), total);
  }

  /** A header that describes an image describes no image that differs from
      it in one byte: the flashloader rejects a corrupted copy. */
  lemma CorruptedImageRejected(layout: Layout, h: FlashHeader, image: seq<byte>, i: nat, v: byte)
    requires Describes(layout, h, image)
    requires i < |image| && v != image[i]
    ensures !Describes(layout, h, image[i := v])
  {
    ToBv8Update(image, i, v);
    SingleByteErrorDetected(ToBv8(image), i, ByteBits(v), ImageSeed);
  }

  /** The erase always covers what is programmed, for every image the
      staging buffer can hold and every header up to a sector short of
      4 GiB. */
  lemma EraseCoversProgram(layout: Layout, length: nat)
    requires length < Capacity && layout.headerSize + length <= Word - SectorSize
    ensures (layout.headerSize + length) % Word == layout.headerSize + length
    ensures EraseLength(layout.headerSize + length) >= layout.headerSize + length
    ensures EraseLength(layout.headerSize + length) - (layout.headerSize + length) < SectorSize
  {
  }

  /** A one-byte image behind any header shorter than a sector is erased
      as exactly one sector. */
  lemma OneByteImageErasesOneSector(layout: Layout)
    requires layout.headerSize < SectorSize
    ensures EraseLength(layout.headerSize + 1) == SectorSize
  {
  }

  /** A sector more of image means exactly one sector more to erase. */
  lemma ExtraSectorErasesOneMore(total: nat)
    requires total + SectorSize <= Word - SectorSize
    ensures EraseLength(total + SectorSize) == EraseLength(total) + SectorSize
  {
    var a := EraseLength(total);
    var b := EraseLength(total + SectorSize);
    EraseLengthIsLeast(total + SectorSize, a + SectorSize);
    EraseLengthIsLeast(total, b - SectorSize);
  }

  /** Erase lengths at the sector boundaries. */
  lemma EraseLengthExamples()
    ensures EraseLength(0) == 0
    ensures EraseLength(1) == 4096
    ensures EraseLength(4096) == 4096
    ensures EraseLength(4097) == 8192
    ensures EraseLength(Word - 1) == 0
  {
  }

  /** A whole transfer followed by `flashImage`: what is handed over is
      exactly the transmitted image, so the header built from the handed-over
      bytes describes the image the sender transmitted. */
  lemma TransferHandsOverImage(layout: Layout, buffer: seq<byte>, image: seq<byte>, eof: Record)
    requires |buffer| == Capacity && |image| < Capacity
    requires WellFormed(eof) && eof.rtype == TypeEof
    ensures var out := RunLines(Stager(buffer, 0), EncodeLines(DataRecords(image, 0) + [eof]));
            out.Finished? && out.st.offset == |image| && out.st.buffer[..out.st.offset] == image
            && Describes(layout, FlashHeader(layout.magic1, layout.magic2, out.st.offset,
                                             Crc32(ToBv8(out.st.buffer[..out.st.offset]), ImageSeed)),
                         image)
  {
    TransferStagesImage(buffer, image, eof);
    assert (image + buffer[|image|..])[..|image|] == image;
  }
}
