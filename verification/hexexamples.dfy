/** Worked examples of the record decoder on concrete lines, with the text
    written out as ASCII. */
module HexExamples {

  import opened Bytes
  import opened HexRecord

  /** The bytes of an ASCII string. */
  function Ascii(s: string): (b: seq<byte>)
    requires forall i :: 0 <= i < |s| ==> s[i] as int < 256
    ensures |b| == |s|
    ensures forall i :: 0 <= i < |s| ==> b[i] == s[i] as int
  {
    seq(|s|, i requires 0 <= i < |s| => s[i] as int)
  }

  // ---------------------------------------------------------------------
  // `:0300300002337A1E`: three data bytes at 0x0030.

  const DataRecord := Record(3, 0x0030, 0x00, [0x02, 0x33, 0x7A])
  const DataLine: seq<byte> := [0x3A, 0x30, 0x33, 0x30, 0x30, 0x33, 0x30, 0x30, 0x30,
                                0x30, 0x32, 0x33, 0x33, 0x37, 0x41, 0x31, 0x45]

  lemma DataLineIsAscii()
    ensures Ascii(":0300300002337A1E") == DataLine
  {
  }

  lemma DataHeadSum()
    ensures Sum([0x03, 0x00, 0x30, 0x00] + [0x02, 0x33, 0x7A]) == 0xE2
  {
    SumAppend([0x03, 0x00, 0x30, 0x00], [0x02, 0x33, 0x7A]);
  }

  /** The checksum byte of the example is 0x1E. */
  lemma DataFrame()
    ensures Frame(DataRecord) == [0x03, 0x00, 0x30, 0x00] + [0x02, 0x33, 0x7A, 0x1E]
  {
    DataHeadSum();
  }

  lemma DataTextHead()
    ensures HexText([0x03, 0x00, 0x30, 0x00]) == [0x30, 0x33, 0x30, 0x30, 0x33, 0x30, 0x30, 0x30]
  {
  }

  lemma DataTextTail()
    ensures HexText([0x02, 0x33, 0x7A, 0x1E]) == [0x30, 0x32, 0x33, 0x33, 0x37, 0x41, 0x31, 0x45]
  {
  }

  lemma DataText()
    ensures HexText(Frame(DataRecord))
            == [0x30, 0x33, 0x30, 0x30, 0x33, 0x30, 0x30, 0x30] + [0x30, 0x32, 0x33, 0x33, 0x37, 0x41, 0x31, 0x45]
  {
    DataFrame();
    DataTextHead();
    DataTextTail();
    HexTextAppend([0x03, 0x00, 0x30, 0x00], [0x02, 0x33, 0x7A, 0x1E]);
  }

  /** `:0300300002337A1E` is a Data record of three bytes at 0x0030. */
  lemma DataLineExample()
    ensures ProcessRecord(Ascii(":0300300002337A1E")) == Accepted(Record(3, 0x0030, 0x00, [0x02, 0x33, 0x7A]))
  {
    DataLineIsAscii();
    DataText();
    assert DataLine == [Colon] + ([0x30, 0x33, 0x30, 0x30, 0x33, 0x30, 0x30, 0x30]
                                  + [0x30, 0x32, 0x33, 0x33, 0x37, 0x41, 0x31, 0x45]);
    assert EncodeLine(DataRecord) == [Colon] + HexText(Frame(DataRecord));
    assert DataLine == EncodeLine(DataRecord);
    DecodeEncodedLine(DataRecord);
  }

  // ---------------------------------------------------------------------
  // `:0300300002337A1F`: the same line with its checksum off by one.

  const CorruptFrame: seq<byte> := [0x03, 0x00, 0x30, 0x00] + [0x02, 0x33, 0x7A, 0x1F]
  const CorruptLine: seq<byte> := [0x3A, 0x30, 0x33, 0x30, 0x30, 0x33, 0x30, 0x30, 0x30,
                                   0x30, 0x32, 0x33, 0x33, 0x37, 0x41, 0x31, 0x46]

  lemma CorruptLineIsAscii()
    ensures Ascii(":0300300002337A1F") == CorruptLine
  {
  }

  lemma CorruptTextTail()
    ensures HexText([0x02, 0x33, 0x7A, 0x1F]) == [0x30, 0x32, 0x33, 0x33, 0x37, 0x41, 0x31, 0x46]
  {
  }

  lemma CorruptFrameSum()
    ensures Checksum(CorruptFrame) == 1
  {
    SumAppend([0x03, 0x00, 0x30, 0x00], [0x02, 0x33, 0x7A, 0x1F]);
  }

  /** `:0300300002337A1F` decodes to eight bytes that sum to 1, so the line
      is dropped. */
  lemma CorruptLineExample()
    ensures ProcessRecord(Ascii(":0300300002337A1F")) == Rejected
  {
    CorruptLineIsAscii();
    DataTextHead();
    CorruptTextTail();
    HexTextAppend([0x03, 0x00, 0x30, 0x00], [0x02, 0x33, 0x7A, 0x1F]);
    assert CorruptLine == [Colon] + HexText(CorruptFrame);
    DecodeHexLine(CorruptFrame, CorruptLine);
    CorruptFrameSum();
  }

  // ---------------------------------------------------------------------
  // `:00000001FF`: End Of File.

  const EofLine: seq<byte> := [0x3A, 0x30, 0x30, 0x30, 0x30, 0x30, 0x30, 0x30, 0x31, 0x46, 0x46]

  lemma EofLineIsAscii()
    ensures Ascii(":00000001FF") == EofLine
  {
  }

  lemma EofFrame()
    ensures Frame(EofRecord) == [0x00, 0x00, 0x00, 0x01] + [0xFF]
  {
    assert Sum([0x00, 0x00, 0x00, 0x01]) == 1;
  }

  lemma EofTextHead()
    ensures HexText([0x00, 0x00, 0x00, 0x01]) == [0x30, 0x30, 0x30, 0x30, 0x30, 0x30, 0x30, 0x31]
  {
  }

  lemma EofTextTail()
    ensures HexText([0xFF]) == [0x46, 0x46]
  {
  }

  lemma EofText()
    ensures HexText(Frame(EofRecord)) == [0x30, 0x30, 0x30, 0x30, 0x30, 0x30, 0x30, 0x31] + [0x46, 0x46]
  {
    EofFrame();
    EofTextHead();
    EofTextTail();
    HexTextAppend([0x00, 0x00, 0x00, 0x01], [0xFF]);
  }

  /** `:00000001FF` is the End Of File record. */
  lemma EofLineExample()
    ensures ProcessRecord(Ascii(":00000001FF")) == Accepted(Record(0, 0x0000, 0x01, []))
  {
    EofLineIsAscii();
    EofText();
    assert EncodeLine(EofRecord) == [Colon] + HexText(Frame(EofRecord));
    assert EofLine == EncodeLine(EofRecord);
    DecodeEncodedLine(EofRecord);
  }

  // ---------------------------------------------------------------------
  // `:00`: accepted although no record fields were sent.

  /** As written, `:00` passes: one byte is decoded and it sums to zero, so
      address, type and payload would come from unset scratch bytes. */
  lemma ShortLineAccepted()
    ensures ProcessRecord(Ascii(":00")) == Unfilled([0x00])
  {
    assert Ascii(":00") == [Colon] + HexText([0x00]);
    DecodeHexLine([0x00], Ascii(":00"));
    assert Sum([0x00]) == 0;
  }

  /** The corrected decoder turns it away. */
  lemma ShortLineRejectedWhenChecked()
    ensures ProcessRecordChecked(Ascii(":00")) == Rejected
  {
    ShortLineAccepted();
  }

  // ---------------------------------------------------------------------
  // Frames whose header arrived but whose payload did not.

  lemma ShortEofLineIsAscii()
    ensures Ascii(":02000001FD") == [Colon] + [0x30, 0x32, 0x30, 0x30, 0x30, 0x30, 0x30, 0x31, 0x46, 0x44]
  {
  }

  lemma ShortEofText()
    ensures HexText([0x02, 0x00, 0x00, 0x01, 0xFD]) == [0x30, 0x32, 0x30, 0x30, 0x30, 0x30, 0x30, 0x31, 0x46, 0x44]
  {
  }

  /** `:02000001FD` announces two payload bytes but sends none; its five
      bytes sum to 0x100, so it passes with count, address and type all
      decoded. */
  lemma ShortEofLineAccepted()
    ensures ProcessRecord(Ascii(":02000001FD")) == Unfilled([0x02, 0x00, 0x00, 0x01, 0xFD])
  {
    var b := [0x02, 0x00, 0x00, 0x01, 0xFD];
    ShortEofText();
    ShortEofLineIsAscii();
    DecodeHexLine(b, Ascii(":02000001FD"));
    assert Sum(b) == 0x100;
  }

  lemma ShortUpperLineIsAscii()
    ensures Ascii(":02000004FA") == [Colon] + [0x30, 0x32, 0x30, 0x30, 0x30, 0x30, 0x30, 0x34, 0x46, 0x41]
  {
  }

  lemma ShortUpperText()
    ensures HexText([0x02, 0x00, 0x00, 0x04, 0xFA]) == [0x30, 0x32, 0x30, 0x30, 0x30, 0x30, 0x30, 0x34, 0x46, 0x41]
  {
  }

  /** `:02000004FA`: the same for an Extended Linear Address record. */
  lemma ShortUpperLineAccepted()
    ensures ProcessRecord(Ascii(":02000004FA")) == Unfilled([0x02, 0x00, 0x00, 0x04, 0xFA])
  {
    var b := [0x02, 0x00, 0x00, 0x04, 0xFA];
    ShortUpperText();
    ShortUpperLineIsAscii();
    DecodeHexLine(b, Ascii(":02000004FA"));
    assert Sum(b) == 0x100;
  }

  // ---------------------------------------------------------------------
  // Letters beyond 'f'.

  /** 'g' has digit value 16: shifted into a zero byte it gives 0x10. */
  lemma LetterGShiftsIn()
    ensures Hex2Nibble(0x67, 0) == Conversion(true, 0x10)
  {
    ShiftInSixteen();
  }

  lemma ShiftInSixteen()
    ensures ShiftIn(0, 16) == 0x10
  {
  }

  lemma DigitZeroShiftsIn()
    ensures Hex2Nibble(0x30, 0) == Conversion(true, 0)
  {
    HexDigitShift(0x30, 0);
  }

  /** A further digit pushes the 1 of that 0x10 out of the byte. */
  lemma LetterGThenZero()
    ensures Hex2Nibble(0x30, 0x10) == Conversion(true, 0x00)
  {
    HexDigitShift(0x30, 0x10);
  }

  /** "0g" decodes exactly like "10". */
  lemma TrailingLetterG()
    ensures ParseHex(0x30, 0x67) == Conversion(true, 0x10)
    ensures ParseHex(0x31, 0x30) == Conversion(true, 0x10)
  {
    DigitZeroShiftsIn();
    LetterGShiftsIn();
    ParseHexAfterFirst(0x30, 0x67);
  }

  /** "g0" decodes like "00". */
  lemma LeadingLetterG()
    ensures ParseHex(0x67, 0x30) == Conversion(true, 0x00)
    ensures ParseHex(0x30, 0x30) == Conversion(true, 0x00)
  {
    LetterGShiftsIn();
    LetterGThenZero();
    ParseHexAfterFirst(0x67, 0x30);
  }
}
